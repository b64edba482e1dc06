/** The XTS engine of xts/src/xts_core.rs as an object: the cipher engine and
    the field operations it is built over, and the tweak it updates in place
    (the value get_iv_mut exposes). The caller's buffer is an array changed
    in place; a block is the bs bytes of an array starting at an offset,
    which is what a `&mut Block` carved out of the buffer is. Each method is
    proved against the reference functions of XtsSpec. */
module XtsCore {
  import opened Primitives
  import opened XtsSpec

  /** s with the bytes from off on replaced by x: the bytes before off and
      after off + |x| are those of s, the ones in between those of x. */
  function Splice(s: seq<Byte>, off: nat, x: seq<Byte>): (r: seq<Byte>)
    requires off + |x| <= |s|
    ensures |r| == |s|
    ensures r[..off] == s[..off] && r[off..off + |x|] == x && r[off + |x|..] == s[off + |x|..]
  {
    s[..off] + x + s[off + |x|..]
  }

  /** Splice leaves the bytes before off alone, and from off on holds x
      followed by the bytes of s after it. */
  lemma {:induction false} SpliceRegion(s: seq<Byte>, off: nat, x: seq<Byte>)
    requires off + |x| <= |s|
    ensures Splice(s, off, x)[..off] == s[..off]
    ensures Splice(s, off, x)[off..] == x + s[off + |x|..]
  {
    var r := Splice(s, off, x);
    assert r[off..] == r[off..off + |x|] + r[off + |x|..];
  }

  /** The region of a from off on is its block at off followed by the rest. */
  lemma {:induction false} RegionParts(a: seq<Byte>, off: nat, bs: nat)
    requires off + bs <= |a|
    ensures a[off..][..bs] == a[off..off + bs] && a[off..][bs..] == a[off + bs..]
    ensures a[off..] == a[off..off + bs] + a[off + bs..]
  {
  }

  /** The prefix of a up to hi is its prefix up to lo followed by the
      slice between. */
  lemma {:induction false} PrefixParts(a: seq<Byte>, lo: nat, hi: nat)
    requires lo <= hi <= |a|
    ensures a[..hi] == a[..lo] + a[lo..hi]
  {
  }

  /** Two sequences that agree from lo on agree on every slice there. */
  lemma {:induction false} SuffixParts(a: seq<Byte>, b: seq<Byte>, lo: nat, hi: nat)
    requires lo <= hi <= |a| == |b| && a[lo..] == b[lo..]
    ensures a[lo..hi] == b[lo..hi] && a[hi..] == b[hi..]
  {
    assert a[lo..hi] == a[lo..][..hi - lo] && b[lo..hi] == b[lo..][..hi - lo];
    assert a[hi..] == a[lo..][hi - lo..] && b[hi..] == b[lo..][hi - lo..];
  }

  /** crate::xor on the block at buf[off..off + |t|]: each byte of the block
      is xored with the matching tweak byte; nothing else changes. */
  method XorInPlace(buf: array<Byte>, off: nat, t: Block)
    requires off + |t| <= buf.Length
    modifies buf
    ensures buf[..] == Splice(old(buf[..]), off, Xor(old(buf[off..off + |t|]), t))
  {
    forall i | off <= i < off + |t| {
      buf[i] := buf[i] ^ t[i - off];
    }
    assert buf[..] == Splice(old(buf[..]), off, Xor(old(buf[off..off + |t|]), t));
  }

  /** The byte exchange of ciphertext stealing (split_at_mut then
      swap_with_slice) on the region buf[off..], which holds one block and
      n <= bs leftover bytes: byte by byte, the first n bytes of the block
      trade places with the leftover bytes. */
  method SwapLeftover(buf: array<Byte>, off: nat, bs: nat, n: nat)
    requires n <= bs && off + bs + n == buf.Length
    modifies buf
    ensures buf[..] == old(buf[..off]) + SwapPrefix(old(buf[off..]), bs, n)
  {
    var i := 0;
    while i < n
      invariant 0 <= i <= n && Swapped(old(buf[..]), buf[..], off, bs, n, i)
    {
      ghost var cur := buf[..];
      buf[off + i], buf[off + bs + i] := buf[off + bs + i], buf[off + i];
      assert buf[..] == cur[off + i := cur[off + bs + i]][off + bs + i := cur[off + i]];
      SwapStep(old(buf[..]), cur, off, bs, n, i);
      i := i + 1;
    }
    SwappedAll(old(buf[..]), buf[..], off, bs, n);
  }

  /** The state of the exchange loop after i turns: the first i bytes of
      the block at off and the first i leftover bytes have traded places;
      every other byte is as it was. */
  ghost predicate Swapped(before: seq<Byte>, cur: seq<Byte>, off: nat, bs: nat, n: nat, i: nat)
  {
    && i <= n <= bs && off + bs + n == |before| == |cur|
    && (forall j {:trigger cur[j]} :: 0 <= j < off ==> cur[j] == before[j])
    && (forall j {:trigger cur[j]} :: off <= j < off + i ==> cur[j] == before[j + bs])
    && (forall j {:trigger cur[j]} :: off + i <= j < off + bs ==> cur[j] == before[j])
    && (forall j {:trigger cur[j]} :: off + bs <= j < off + bs + i ==> cur[j] == before[j - bs])
    && (forall j {:trigger cur[j]} :: off + bs + i <= j < |cur| ==> cur[j] == before[j])
  }

  /** One turn of the exchange loop. */
  lemma {:induction false} SwapStep(before: seq<Byte>, cur: seq<Byte>, off: nat, bs: nat, n: nat, i: nat)
    requires Swapped(before, cur, off, bs, n, i) && i < n
    ensures Swapped(before, cur[off + i := cur[off + bs + i]][off + bs + i := cur[off + i]], off, bs, n, i + 1)
  {
  }

  /** After the loop the array is the region's SwapPrefix. */
  lemma {:induction false} SwappedAll(before: seq<Byte>, after: seq<Byte>, off: nat, bs: nat, n: nat)
    requires Swapped(before, after, off, bs, n, n)
    ensures after == before[..off] + SwapPrefix(before[off..], bs, n)
  {
    ShiftedSlice(after, before, 0, off, 0);
    ShiftedSlice(after, before, off, off + n, bs);
    ShiftedSlice(after, before, off + n, off + bs, 0);
    ShiftedSlice(after, before, off + bs, off + bs + n, -(bs as int));
    SwappedRegion(before, after, off, bs, n);
  }

  /** A region whose block at off traded its first n bytes with the n bytes
      after it is SwapPrefix of the region. */
  lemma {:induction false} SwappedRegion(before: seq<Byte>, after: seq<Byte>, off: nat, bs: nat, n: nat)
    requires n <= bs && off + bs + n == |before| == |after|
    requires after[..off] == before[..off]
    requires after[off..off + n] == before[off + bs..off + bs + n]
    requires after[off + n..off + bs] == before[off + n..off + bs]
    requires after[off + bs..] == before[off..off + n]
    ensures after == before[..off] + SwapPrefix(before[off..], bs, n)
  {
    var swapped := SwapPrefix(before[off..], bs, n);
    SliceOfSuffix(before, off, bs, bs + n);
    SliceOfSuffix(before, off, n, bs);
    SliceOfSuffix(before, off, 0, n);
    SliceOfSuffix(after, off, 0, n);
    SliceOfSuffix(after, off, n, bs);
    SliceOfSuffix(after, off, bs, bs + n);
    ThreeParts(after[off..], swapped, n, bs);
    Halves(after, off);
  }

  /** A slice of the suffix from off is the slice off places further on. */
  lemma {:induction false} SliceOfSuffix(a: seq<Byte>, off: nat, lo: nat, hi: nat)
    requires off + lo <= off + hi <= |a| && lo <= hi
    ensures a[off..][lo..hi] == a[off + lo..off + hi]
  {
  }

  /** Sequences of one length that agree before n, between n and bs and from
      bs on are equal. */
  lemma {:induction false} ThreeParts(x: seq<Byte>, y: seq<Byte>, n: nat, bs: nat)
    requires n <= bs <= |x| == |y|
    requires x[..n] == y[..n] && x[n..bs] == y[n..bs] && x[bs..] == y[bs..]
    ensures x == y
  {
    assert x == x[..n] + x[n..bs] + x[bs..];
    assert y == y[..n] + y[n..bs] + y[bs..];
  }

  /** A slice whose bytes are those of another sequence d places further on
      is that sequence's slice d places further on. */
  lemma {:induction false} ShiftedSlice(after: seq<Byte>, before: seq<Byte>, lo: nat, hi: nat, d: int)
    requires lo <= hi <= |after| && 0 <= lo + d && hi + d <= |before|
    requires forall j {:trigger after[j]} :: lo <= j < hi ==> after[j] == before[j + d]
    ensures after[lo..hi] == before[lo + d..hi + d]
  {
  }

  /** The second loop of process_par_blocks_inplace: each lane is xored
      with the tweak saved in the same slot of the scratch array. */
  method UnmaskLanes(blocks: array<Block>, tweaks: array<Block>)
    requires blocks.Length == tweaks.Length && blocks != tweaks
    requires forall j {:trigger blocks[j]} :: 0 <= j < blocks.Length ==> |blocks[j]| == |tweaks[j]|
    modifies blocks
    ensures forall j {:trigger blocks[j]} :: 0 <= j < blocks.Length ==> blocks[j] == Xor(old(blocks[j]), tweaks[j])
  {
    var i := 0;
    while i < blocks.Length
      invariant 0 <= i <= blocks.Length
      invariant forall j {:trigger blocks[j]} :: 0 <= j < i ==> blocks[j] == Xor(old(blocks[j]), tweaks[j])
      invariant forall j {:trigger blocks[j]} :: i <= j < blocks.Length ==> blocks[j] == old(blocks[j])
    {
      blocks[i] := Xor(blocks[i], tweaks[i]);
      i := i + 1;
    }
  }

  /** The state of the first loop of process_par_blocks_inplace after i
      turns: lanes below i of `cur` are those of src masked with their
      tweaks, which `saved` holds; the lanes from i on are still src's. */
  ghost predicate Masked(gf: Gf, t0: Block, src: seq<Block>, i: nat, cur: seq<Block>, saved: seq<Block>)
  {
    && GfShape(gf, |t0|) && Lanes(src, |t0|) && i <= |src| == |cur| == |saved|
    && (forall j {:trigger cur[j]} :: 0 <= j < i ==> cur[j] == Xor(src[j], Tweak(gf, t0, j)))
    && (forall j {:trigger saved[j]} :: 0 <= j < i ==> saved[j] == Tweak(gf, t0, j))
    && cur[i..] == src[i..]
  }

  /** One turn of that loop: masking lane i with the i-th tweak and saving
      the tweak in slot i. */
  lemma {:induction false} MaskStep(gf: Gf, t0: Block, src: seq<Block>, i: nat, cur: seq<Block>, saved: seq<Block>)
    requires Masked(gf, t0, src, i, cur, saved) && i < |src|
    ensures |cur[i]| == |Tweak(gf, t0, i)|
    ensures Masked(gf, t0, src, i + 1, cur[i := Xor(cur[i], Tweak(gf, t0, i))], saved[i := Tweak(gf, t0, i)])
  {
    assert cur[i] == cur[i..][0] == src[i..][0] == src[i];
    var next := cur[i := Xor(cur[i], Tweak(gf, t0, i))];
    assert next[i + 1..] == cur[i..][1..];
  }

  /** After the loop every lane is masked: the batch is MaskLanes of src,
      and the scratch array holds the tweaks. */
  lemma {:induction false} MaskedAll(gf: Gf, t0: Block, src: seq<Block>, cur: seq<Block>, saved: seq<Block>)
    requires Masked(gf, t0, src, |src|, cur, saved)
    ensures cur == MaskLanes(gf, t0, src)
    ensures forall j {:trigger saved[j]} :: 0 <= j < |src| ==> saved[j] == Tweak(gf, t0, j)
  {
  }

  /** The state of the loop over full blocks after i turns: the first i
      blocks of `out` are the first i blocks of s0 processed from tweak t0,
      leaving tweak t, and the rest of `out` is still s0. */
  ghost predicate Processed(c: Cipher, gf: Gf, t0: Block, s0: seq<Byte>, i: nat, out: seq<Byte>, t: Block)
  {
    && Shape(c, gf) && |t0| == c.bs && Offset(i, c.bs) <= |s0| == |out|
    && (out[..Offset(i, c.bs)], t) == ProcessBlocks(c, gf, t0, s0[..Offset(i, c.bs)], i)
    && out[Offset(i, c.bs)..] == s0[Offset(i, c.bs)..]
  }

  /** One turn of the loop over full blocks: processing block i under the
      tweak the first i blocks left behind takes the loop's state from i
      turns to i + 1. */
  lemma {:induction false} BlockStep(c: Cipher, gf: Gf, t0: Block, s0: seq<Byte>, i: nat,
                                     mid: seq<Byte>, t: Block, after: seq<Byte>)
    requires Processed(c, gf, t0, s0, i, mid, t) && Offset(i + 1, c.bs) <= |s0|
    requires after == Splice(mid, Offset(i, c.bs), Xex(c, t, mid[Offset(i, c.bs)..Offset(i, c.bs) + c.bs]))
    ensures Processed(c, gf, t0, s0, i + 1, after, gf.mul(t).0)
  {
    var lo, hi := Offset(i, c.bs), Offset(i + 1, c.bs);
    ProcessBlocksSnoc(c, gf, t0, s0, i);
    SuffixParts(mid, s0, lo, hi);
    PrefixParts(after, lo, hi);
  }

  /** An XTS engine: the cipher engine it drives (block size, batch width,
      direction, one-block and batched primitives), the tweak arithmetic,
      and the current tweak. */
  class Xts {
    const cipher: Cipher
    const gf: Gf
    var iv: Block

    /** The collaborators have the shapes the source's types guarantee and
        the tweak is one block long. */
    ghost predicate Valid()
      reads this
    {
      Shape(cipher, gf) && |iv| == cipher.bs
    }

    /** An engine whose tweak starts at `iv` (as produced by precompute_iv). */
    constructor (cipher: Cipher, gf: Gf, iv: Block)
      requires Shape(cipher, gf) && |iv| == cipher.bs
      ensures Valid() && this.cipher == cipher && this.gf == gf && this.iv == iv
    {
      this.cipher := cipher;
      this.gf := gf;
      this.iv := iv;
    }

    /** process_inplace: the engine's one-block primitive on the block at
        buf[off..off + bs]; the tweak and every other byte stay. */
    method ProcessInplace(buf: array<Byte>, off: nat)
      requires Valid() && off + cipher.bs <= buf.Length
      modifies buf
      ensures buf[..] == Splice(old(buf[..]), off, cipher.block(old(buf[off..off + cipher.bs])))
    {
      var out := cipher.block(buf[off..off + cipher.bs]);
      forall i | off <= i < off + cipher.bs {
        buf[i] := out[i - off];
      }
      assert buf[..] == Splice(old(buf[..]), off, out);
    }

    /** process_par_inplace: the engine's batched primitive over all lanes. */
    method ProcessParInplace(blocks: array<Block>)
      requires Valid() && blocks.Length == cipher.width && Lanes(blocks[..], cipher.bs)
      modifies blocks
      ensures blocks[..] == cipher.par(old(blocks[..]))
    {
      var out := cipher.par(blocks[..]);
      forall i | 0 <= i < blocks.Length {
        blocks[i] := out[i];
      }
      assert blocks[..] == out;
    }

    /** process_block_inplace: mask the block with the tweak, apply the
        primitive, mask again, then advance the tweak once with gf_mul. */
    method ProcessBlockInplace(buf: array<Byte>, off: nat)
      requires Valid() && off + cipher.bs <= buf.Length
      modifies this, buf
      ensures Valid()
      ensures buf[..] == Splice(old(buf[..]), off, Xex(cipher, old(iv), old(buf[off..off + cipher.bs])))
      ensures iv == gf.mul(old(iv)).0
    {
      ghost var p := buf[off..off + cipher.bs];
      XorInPlace(buf, off, iv);
      assert buf[off..off + cipher.bs] == Xor(p, iv);
      ProcessInplace(buf, off);
      assert buf[off..off + cipher.bs] == cipher.block(Xor(p, iv));
      XorInPlace(buf, off, iv);
      assert buf[off..off + cipher.bs] == Xex(cipher, iv, p);
      iv := gf.mul(iv).0;
    }

    /** process_par_blocks_inplace: the first loop copies the current tweak
        into lane i of a scratch array, masks lane i with it and advances
        the tweak; the batched primitive then runs over all lanes; the
        second loop masks each lane again with its saved tweak. */
    method ProcessParBlocksInplace(blocks: array<Block>)
      requires Valid() && blocks.Length == cipher.width && Lanes(blocks[..], cipher.bs)
      modifies this, blocks
      ensures Valid()
      ensures (blocks[..], iv) == ParBlocks(cipher, gf, old(iv), old(blocks[..]))
    {
      ghost var t0 := iv;
      ghost var src := blocks[..];
      var ivArray := new Block[cipher.width](_ => []);
      MaskWithTweaks(blocks, ivArray);
      ghost var out := cipher.par(MaskLanes(gf, t0, src));
      ProcessParInplace(blocks);
      assert blocks[..] == out;
      UnmaskLanes(blocks, ivArray);
      assert blocks[..] == MaskLanes(gf, t0, out);
    }

    /** The first loop of process_par_blocks_inplace: lane i is xored with
        the tweak then current, a copy of which goes to slot i of the scratch
        array, and the tweak advances once per lane. */
    method MaskWithTweaks(blocks: array<Block>, ivArray: array<Block>)
      requires Valid() && blocks.Length == ivArray.Length == cipher.width && Lanes(blocks[..], cipher.bs)
      requires blocks != ivArray
      modifies this, blocks, ivArray
      ensures Valid() && iv == Tweak(gf, old(iv), cipher.width)
      ensures blocks[..] == MaskLanes(gf, old(iv), old(blocks[..]))
      ensures forall j {:trigger ivArray[j]} :: 0 <= j < cipher.width ==> ivArray[j] == Tweak(gf, old(iv), j)
    {
      var n := cipher.width;
      ghost var t0 := iv;
      ghost var src := blocks[..];
      var i := 0;
      while i < n
        invariant 0 <= i <= n && Valid() && iv == Tweak(gf, t0, i)
        invariant Masked(gf, t0, src, i, blocks[..], ivArray[..])
      {
        ghost var cur, saved := blocks[..], ivArray[..];
        MaskStep(gf, t0, src, i, cur, saved);
        ivArray[i] := iv;
        blocks[i] := Xor(blocks[i], iv);
        assert blocks[..] == cur[i := Xor(cur[i], Tweak(gf, t0, i))];
        assert ivArray[..] == saved[i := Tweak(gf, t0, i)];
        iv := gf.mul(iv).0;
        i := i + 1;
      }
      MaskedAll(gf, t0, src, blocks[..], ivArray[..]);
    }

    /** The loop over the first k blocks of the buffer (chunks_exact_mut then
        process_block_inplace on each, in order). */
    method ProcessFullBlocks(buf: array<Byte>, k: nat)
      requires Valid() && Offset(k, cipher.bs) <= buf.Length
      modifies this, buf
      ensures Valid()
      ensures (buf[..Offset(k, cipher.bs)], iv)
           == ProcessBlocks(cipher, gf, old(iv), old(buf[..Offset(k, cipher.bs)]), k)
      ensures buf[Offset(k, cipher.bs)..] == old(buf[Offset(k, cipher.bs)..])
    {
      var bs := cipher.bs;
      ghost var s0, t0 := buf[..], iv;
      var i, lo := 0, 0;
      while i < k
        invariant 0 <= i <= k && Valid() && lo == Offset(i, bs)
        invariant Processed(cipher, gf, t0, s0, i, buf[..], iv)
      {
        BlockWithin(i, k, bs);
        ProcessNextBlock(buf, lo, i, t0, s0);
        i, lo := i + 1, lo + bs;
      }
    }

    /** One turn of that loop: process_block_inplace on block i, at lo. */
    method ProcessNextBlock(buf: array<Byte>, lo: nat, ghost i: nat, ghost t0: Block, ghost s0: seq<Byte>)
      requires Valid() && lo == Offset(i, cipher.bs) && Offset(i + 1, cipher.bs) <= buf.Length
      requires Processed(cipher, gf, t0, s0, i, buf[..], iv)
      modifies this, buf
      ensures Valid() && Processed(cipher, gf, t0, s0, i + 1, buf[..], iv)
    {
      ghost var mid, t := buf[..], iv;
      ProcessBlockInplace(buf, lo);
      BlockStep(cipher, gf, t0, s0, i, mid, t, buf[..]);
    }

    /** The decrypting branch of ciphertext_stealing on the block at
        buf[off..off + bs]: the tweak is advanced first, keeping the carry,
        the block is masked, run through the primitive and masked again
        under that advanced tweak, and gf_reverse_mul then steps the tweak
        back with the carry. */
    method ProcessBlockAhead(buf: array<Byte>, off: nat)
      requires Valid() && off + cipher.bs <= buf.Length
      modifies this, buf
      ensures Valid()
      ensures buf[..] == Splice(old(buf[..]), off, Xex(cipher, gf.mul(old(iv)).0, old(buf[off..off + cipher.bs])))
      ensures iv == gf.rmul(gf.mul(old(iv)).0, gf.mul(old(iv)).1)
    {
      ghost var p := buf[off..off + cipher.bs];
      var ahead := gf.mul(iv);
      var carry := ahead.1;
      iv := ahead.0;
      XorInPlace(buf, off, iv);
      assert buf[off..off + cipher.bs] == Xor(p, iv);
      ProcessInplace(buf, off);
      assert buf[off..off + cipher.bs] == cipher.block(Xor(p, iv));
      XorInPlace(buf, off, iv);
      assert buf[off..off + cipher.bs] == Xex(cipher, iv, p);
      iv := gf.rmul(iv, carry);
    }

    /** The second half of ciphertext_stealing on the region buf[off..] of
        one block and n <= bs leftover bytes: the leftover bytes trade places
        with the first n bytes of the block, and the block then goes through
        process_block_inplace. */
    method SwapAndProcess(buf: array<Byte>, off: nat)
      requires Valid() && off + cipher.bs <= buf.Length <= off + 2 * cipher.bs
      modifies this, buf
      ensures Valid()
      ensures buf[..off] == old(buf[..off])
      ensures var swapped := SwapPrefix(old(buf[off..]), cipher.bs, buf.Length - off - cipher.bs);
              buf[off..] == Xex(cipher, old(iv), swapped[..cipher.bs]) + swapped[cipher.bs..]
      ensures iv == gf.mul(old(iv)).0
    {
      var bs := cipher.bs;
      SwapLeftover(buf, off, bs, buf.Length - off - bs);
      ghost var swapped := buf[off..];
      RegionParts(buf[..], off, bs);
      ProcessBlockInplace(buf, off);
      RegionParts(buf[..], off, bs);
    }

    /** The first half of ciphertext_stealing on the region buf[off..] of
        one block and n <= bs leftover bytes: the block goes through the
        decrypting branch above or, encrypting, through
        process_block_inplace; the leftover bytes stay as they are. */
    method FirstPass(buf: array<Byte>, off: nat)
      requires Valid() && off + cipher.bs <= buf.Length
      modifies this, buf
      ensures Valid()
      ensures buf[..off] == old(buf[..off])
      ensures cipher.decrypt ==>
        buf[off..] == Xex(cipher, gf.mul(old(iv)).0, old(buf[off..off + cipher.bs])) + old(buf[off + cipher.bs..])
      ensures !cipher.decrypt ==>
        buf[off..] == Xex(cipher, old(iv), old(buf[off..off + cipher.bs])) + old(buf[off + cipher.bs..])
      ensures iv == if cipher.decrypt then gf.rmul(gf.mul(old(iv)).0, gf.mul(old(iv)).1) else gf.mul(old(iv)).0
    {
      ghost var before := buf[..];
      if cipher.decrypt {
        ProcessBlockAhead(buf, off);
        SpliceRegion(before, off, Xex(cipher, gf.mul(old(iv)).0, before[off..off + cipher.bs]));
      } else {
        ProcessBlockInplace(buf, off);
        SpliceRegion(before, off, Xex(cipher, old(iv), before[off..off + cipher.bs]));
      }
    }

    /** ciphertext_stealing on the region buf[off..] of one block and n <= bs
        leftover bytes: the first pass over the block, then the exchange and
        the second pass of SwapAndProcess. */
    method CiphertextStealing(buf: array<Byte>, off: nat)
      requires Valid() && off + cipher.bs <= buf.Length <= off + 2 * cipher.bs
      modifies this, buf
      ensures Valid()
      ensures buf[..off] == old(buf[..off])
      ensures (buf[off..], iv) == Steal(cipher, gf, old(iv), old(buf[off..]))
    {
      var bs := cipher.bs;
      ghost var s := buf[off..];
      RegionParts(buf[..], off, bs);
      FirstPass(buf, off);
      ghost var first := if cipher.decrypt then Xex(cipher, gf.mul(old(iv)).0, s[..bs]) else Xex(cipher, old(iv), s[..bs]);
      ghost var t1 := iv;
      SwapAndProcess(buf, off);
      StealPasses(cipher, gf, old(iv), s, first, t1);
    }

    /** process_all_in_place as written: an error, with nothing changed,
        when the buffer is shorter than a block; otherwise stealing is
        selected when the length IS a multiple of the block size, the blocks
        before the split point are processed in order, and the region after
        it goes through ciphertext_stealing. */
    method ProcessAllInPlace(buf: array<Byte>) returns (r: Result<()>)
      requires Valid()
      modifies this, buf
      ensures Valid()
      ensures r.Err? ==> buf[..] == old(buf[..]) && iv == old(iv)
      ensures ProcessAll(cipher, gf, old(iv), old(buf[..])) == if r.Ok? then Ok((buf[..], iv)) else Err
    {
      var bs := cipher.bs;
      if buf.Length < bs {
        return Err;
      }
      var needStealing := buf.Length % bs == 0;
      SplitIsDivMod(buf.Length, bs);
      LastFullBlock(buf.Length, bs);
      // The number of chunks before the split point, and the split point.
      var blocks := if needStealing then buf.Length / bs - 1 else buf.Length / bs;
      OffsetIsProduct(blocks, bs);
      var split := blocks * bs;
      ProcessFullBlocks(buf, blocks);
      if needStealing {
        ProcessAllSteals(cipher, gf, old(iv), old(buf[..]), blocks);
        CiphertextStealing(buf, split);
      } else {
        ProcessAllCopies(cipher, gf, old(iv), old(buf[..]), blocks);
      }
      Halves(buf[..], split);
      return Ok(());
    }

    /** process_all_in_place with the standard's condition: stealing is
        selected when the length is NOT a multiple of the block size. */
    method ProcessAllInPlaceStandard(buf: array<Byte>) returns (r: Result<()>)
      requires Valid()
      modifies this, buf
      ensures Valid()
      ensures r.Err? ==> buf[..] == old(buf[..]) && iv == old(iv)
      ensures ProcessAllStandard(cipher, gf, old(iv), old(buf[..])) == if r.Ok? then Ok((buf[..], iv)) else Err
    {
      var bs := cipher.bs;
      if buf.Length < bs {
        return Err;
      }
      var needStealing := buf.Length % bs != 0;
      SplitIsDivMod(buf.Length, bs);
      LastFullBlock(buf.Length, bs);
      var blocks := if needStealing then buf.Length / bs - 1 else buf.Length / bs;
      OffsetIsProduct(blocks, bs);
      var split := blocks * bs;
      ProcessFullBlocks(buf, blocks);
      if needStealing {
        ProcessAllStandardSteals(cipher, gf, old(iv), old(buf[..]), blocks);
        CiphertextStealing(buf, split);
      } else {
        ProcessAllStandardCopies(cipher, gf, old(iv), old(buf[..]), blocks);
      }
      Halves(buf[..], split);
      return Ok(());
    }
  }
}
