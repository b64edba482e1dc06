/** Bytes, blocks and the collaborators the XTS engine is built on: bytewise
    exclusive or, the block cipher engine (one-block and batched primitives)
    and the GF(2^128) tweak arithmetic. The cipher and the field operations
    are not part of this model; they are parameters, and the facts the engine
    relies on (sizes, decryption undoes encryption, the reverse multiply
    undoes the multiply) are stated as predicates that lemmas require. */
module Primitives {

  type Byte = bv8

  /** A block: a byte string whose length is the cipher's block size. */
  type Block = seq<Byte>

  /** Bytewise exclusive or of two equal-length byte strings (crate::xor). */
  function Xor(a: seq<Byte>, b: seq<Byte>): (r: seq<Byte>)
    requires |a| == |b|
    ensures |r| == |a|
  {
    seq(|a|, i requires 0 <= i < |a| => a[i] ^ b[i])
  }

  /** Masking twice with the same value restores the input. */
  lemma {:induction false} XorCancel(a: seq<Byte>, b: seq<Byte>)
    requires |a| == |b|
    ensures Xor(Xor(a, b), b) == a
  {
    forall i | 0 <= i < |a|
      ensures Xor(Xor(a, b), b)[i] == a[i]
    {
      assert (a[i] ^ b[i]) ^ b[i] == a[i];
    }
  }

  /** The cipher engine an XTS instance drives: its block size
      (Self::block_size), its batch width (Self::ParBlocksSize), its fixed
      direction (Self::is_decrypt), the one-block primitive
      (process_inplace) and the batched primitive (process_par_inplace),
      each given as the value it leaves in the block or blocks. */
  datatype Cipher = Cipher(
    bs: nat,
    width: nat,
    decrypt: bool,
    block: Block -> Block,
    par: seq<Block> -> seq<Block>)

  /** The tweak arithmetic of crate::gf: gf_mul returns the tweak multiplied
      by the generator together with the carry bit shifted out, and
      gf_reverse_mul divides by the generator given that carry. */
  datatype Gf = Gf(mul: Block -> (Block, bool), rmul: (Block, bool) -> Block)

  /** Every lane of a batch is one block long. */
  predicate Lanes(xs: seq<Block>, bs: nat)
  {
    forall i :: 0 <= i < |xs| ==> |xs[i]| == bs
  }

  /** What the source's type-level sizes guarantee of the cipher: a positive
      block size, a batch width of at least one, and primitives that map
      blocks to blocks and batches to batches. */
  ghost predicate CipherShape(c: Cipher)
  {
    && c.bs > 0
    && c.width >= 1
    && (forall x: Block :: |x| == c.bs ==> |c.block(x)| == c.bs)
    && (forall xs: seq<Block> {:trigger c.par(xs)} :: |xs| == c.width && Lanes(xs, c.bs) ==>
          |c.par(xs)| == c.width && Lanes(c.par(xs), c.bs))
  }

  /** The field operations map blocks to blocks. */
  ghost predicate GfShape(gf: Gf, bs: nat)
  {
    && (forall t: Block :: |t| == bs ==> |gf.mul(t).0| == bs)
    && (forall t: Block, carry: bool :: |t| == bs ==> |gf.rmul(t, carry)| == bs)
  }

  /** gf_reverse_mul, given the carry gf_mul returned, undoes gf_mul. */
  ghost predicate GfInverse(gf: Gf, bs: nat)
  {
    forall t: Block {:trigger gf.mul(t)} :: |t| == bs ==> gf.rmul(gf.mul(t).0, gf.mul(t).1) == t
  }

  /** dec undoes enc on every block. */
  ghost predicate Inverse(enc: Block -> Block, dec: Block -> Block, bs: nat)
  {
    forall x: Block {:trigger enc(x)} :: |x| == bs ==> dec(enc(x)) == x
  }

  /** The batched primitive applies the one-block primitive to each lane. */
  ghost predicate Lanewise(c: Cipher)
  {
    forall xs: seq<Block> {:trigger c.par(xs)} :: |xs| == c.width && Lanes(xs, c.bs) ==>
      |c.par(xs)| == |xs| && forall i :: 0 <= i < |xs| ==> c.par(xs)[i] == c.block(xs[i])
  }

  /** Both collaborators have the shapes the engine relies on. */
  ghost predicate Shape(c: Cipher, gf: Gf)
  {
    CipherShape(c) && GfShape(gf, c.bs)
  }

  /** An encrypting and a decrypting engine over the same key: same block
      size and batch width, opposite directions, decryption undoing
      encryption block by block. */
  ghost predicate Pair(enc: Cipher, dec: Cipher, gf: Gf)
  {
    && Shape(enc, gf) && Shape(dec, gf)
    && enc.bs == dec.bs && enc.width == dec.width
    && !enc.decrypt && dec.decrypt
    && Inverse(enc.block, dec.block, enc.bs)
    && GfInverse(gf, enc.bs)
  }

  /** The tweak after i successive gf_mul steps from t: the tweak of the
      i-th block of a run that starts with t. */
  function Tweak(gf: Gf, t: Block, i: nat): (r: Block)
    requires GfShape(gf, |t|)
    ensures |r| == |t|
  {
    if i == 0 then t else gf.mul(Tweak(gf, t, i - 1)).0
  }

  /** Advancing m times from the k-th tweak gives the (k + m)-th. */
  lemma {:induction false} TweakAdd(gf: Gf, t: Block, k: nat, m: nat)
    requires GfShape(gf, |t|)
    ensures Tweak(gf, Tweak(gf, t, k), m) == Tweak(gf, t, k + m)
  {
    if m > 0 {
      TweakAdd(gf, t, k, m - 1);
    }
  }

  /** One XTS block step (IEEE Std 1619-2007 blockEnc/blockDec): mask the
      block with the tweak, apply the cipher's primitive, mask again. */
  function Xex(c: Cipher, t: Block, p: Block): (r: Block)
    requires CipherShape(c) && |t| == c.bs && |p| == c.bs
    ensures |r| == c.bs
  {
    Xor(c.block(Xor(p, t)), t)
  }

  /** The decrypting engine's step undoes the encrypting engine's step under
      the same tweak. */
  lemma {:induction false} XexInverse(enc: Cipher, dec: Cipher, t: Block, p: Block)
    requires CipherShape(enc) && CipherShape(dec) && enc.bs == dec.bs
    requires Inverse(enc.block, dec.block, enc.bs)
    requires |t| == enc.bs && |p| == enc.bs
    ensures Xex(dec, t, Xex(enc, t, p)) == p
  {
    var x := Xor(p, t);
    XorCancel(enc.block(x), t);
    XorCancel(p, t);
  }
}
