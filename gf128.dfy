/** A concrete tweak arithmetic for 16-byte blocks, following IEEE Std
    1619-2007 section 5.2: the tweak is a little-endian 128-bit value,
    multiplying by the generator shifts it left by one bit, and the bit
    shifted out of the top folds back in as 0x87 on the lowest byte. The
    crate's own gf_mul and gf_reverse_mul are not part of this model; this
    instance shows that the hypotheses the engine's lemmas take about them
    can be met, and by what. */
module Gf128 {
  import opened Primitives

  const BlockSize: nat := 16

  /** x^7 + x^2 + x + 1: the low byte of the reduction polynomial. */
  const Poly: Byte := 0x87

  /** The bit multiplying by the generator shifts out of the top byte. */
  function Carry(t: Block): bool
  {
    |t| > 0 && t[|t| - 1] >> 7 == 1
  }

  /** Byte j of the tweak multiplied by the generator: shifted up by one
      bit, taking the top bit of the byte below, or the folded polynomial
      for the lowest byte. */
  function MulAt(t: Block, j: int): Byte
    requires 0 <= j < |t|
  {
    (t[j] << 1) ^ (if j == 0 then (if Carry(t) then Poly else 0) else t[j - 1] >> 7)
  }

  /** Multiply by the generator; also returns the bit shifted out of the top
      byte. Defined for any length, meaningful for 16 bytes. */
  function MulAlpha(t: Block): (r: (Block, bool))
    ensures |r.0| == |t|
    ensures r.1 <==> |t| > 0 && t[|t| - 1] & 0x80 == 0x80
  {
    (seq(|t|, j requires 0 <= j < |t| => MulAt(t, j)), Carry(t))
  }

  /** Byte j of the quotient: shifted down by one bit, taking the low bit of
      the byte above, or the carry for the top byte; the lowest byte first
      has the folded polynomial removed. */
  function ReverseAt(r: Block, carry: bool, j: int): Byte
    requires 0 <= j < |r|
  {
    var here := if j == 0 then r[0] ^ (if carry then Poly else 0) else r[j];
    var above := if j == |r| - 1 then (if carry then 0x80 else 0) else (r[j + 1] & 1) << 7;
    (here >> 1) ^ above
  }

  /** Divide by the generator, given the bit the multiplication shifted out. */
  function ReverseMul(r: Block, carry: bool): (t: Block)
    ensures |t| == |r|
  {
    seq(|r|, j requires 0 <= j < |r| => ReverseAt(r, carry, j))
  }

  /** Dividing by the generator with the carry the multiplication returned
      gives back the tweak. */
  lemma {:induction false} ReverseMulInverts(t: Block)
    ensures ReverseMul(MulAlpha(t).0, MulAlpha(t).1) == t
  {
    if |t| > 0 {
      var (r, carry) := MulAlpha(t);
      var back := ReverseMul(r, carry);
      forall j | 0 <= j < |t|
        ensures back[j] == t[j]
      {
        var n := |t|;
        assert r[j] == MulAt(t, j);
        var here: Byte := if j == 0 then r[0] ^ (if carry then Poly else 0) else r[j];
        assert here == (t[j] << 1) ^ (if j == 0 then 0 else t[j - 1] >> 7);
        assert here >> 1 == t[j] & 0x7f;
        if j == n - 1 {
          assert carry <==> t[j] >> 7 == 1;
        } else {
          assert r[j + 1] == (t[j + 1] << 1) ^ (t[j] >> 7);
          assert (r[j + 1] & 1) << 7 == t[j] & 0x80;
        }
      }
    }
  }

  /** The field operations of this instance. */
  function Field(): Gf
  {
    Gf(MulAlpha, ReverseMul)
  }

  /** This instance meets the engine's hypotheses on the tweak arithmetic
      for 16-byte blocks. */
  lemma {:induction false} FieldMeetsHypotheses()
    ensures GfShape(Field(), BlockSize) && GfInverse(Field(), BlockSize)
  {
    forall t: Block | |t| == BlockSize
      ensures Field().rmul(Field().mul(t).0, Field().mul(t).1) == t
    {
      ReverseMulInverts(t);
    }
  }

  /** The tweak 1 doubles to 2 (the low byte's bit moves up by one). */
  lemma OneDoubles()
    ensures MulAlpha([1] + seq(15, _ => 0)) == ([2] + seq(15, _ => 0), false)
  {
    var one: Block := [1] + seq(15, _ => 0);
    var two: Block := [2] + seq(15, _ => 0);
    assert MulAlpha(one).0 == two;
  }

  /** The top bit of the last byte folds back as the reduction polynomial. */
  lemma TopBitFolds()
    ensures MulAlpha(seq(15, _ => 0) + [0x80]) == ([0x87] + seq(15, _ => 0), true)
  {
    var top: Block := seq(15, _ => 0) + [0x80];
    var folded: Block := [0x87] + seq(15, _ => 0);
    assert MulAlpha(top).0 == folded;
  }
}
