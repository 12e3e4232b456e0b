/** Little-endian samples: the values that bytes stand for. */
module Samples {
  import opened Frames

  function Pow256(w: nat): (p: nat)
    ensures 0 < p
  {
    if w == 0 then 1 else 256 * Pow256(w - 1)
  }

  function Unsigned(b: Bytes): nat {
    if b == [] then 0 else b[0] + 256 * Unsigned(b[1..])
  }

  /** The value read: unsigned for INT8, two's complement for the wider formats; of a float, its bits. */
  function ReadLE(b: Bytes, signed: bool): int {
    var u := Unsigned(b);
    if signed && 2 * u >= Pow256(|b|) then u - Pow256(|b|) else u
  }

  /** The w low bytes of a value, lowest first. */
  function WriteLE(v: int, w: nat): (b: Bytes)
    ensures |b| == w
    decreases w
  {
    if w == 0 then [] else [v % 256] + WriteLE(v / 256, w - 1)
  }

  lemma {:induction false} UnsignedBound(b: Bytes)
    ensures Unsigned(b) < Pow256(|b|)
  {
    if b != [] { UnsignedBound(b[1..]); }
  }

  lemma LowByte(b: Octet, rest: nat)
    ensures (b + 256 * rest) % 256 == b && (b + 256 * rest) / 256 == rest
  {
  }

  lemma {:induction false} WriteUnsigned(b: Bytes)
    ensures WriteLE(Unsigned(b), |b|) == b
  {
    if b != [] {
      WriteUnsigned(b[1..]);
      LowByte(b[0], Unsigned(b[1..]));
      assert b == [b[0]] + b[1..];
    }
  }

  lemma WrapStep(v: int, p: int)
    ensures (v - 256 * p) % 256 == v % 256 && (v - 256 * p) / 256 == v / 256 - p
  {
  }

  lemma {:induction false} WriteWraps(v: int, w: nat)
    ensures WriteLE(v - Pow256(w), w) == WriteLE(v, w)
    decreases w
  {
    if w > 0 {
      WrapStep(v, Pow256(w - 1));
      WriteWraps(v / 256, w - 1);
    }
  }

  lemma ReadValue(b: Bytes, signed: bool)
    ensures var v := ReadLE(b, signed); v == Unsigned(b) || v == Unsigned(b) - Pow256(|b|)
  {
  }

  lemma WriteEither(b: Bytes, u: int, p: int, v: int)
    requires u == Unsigned(b) && p == Pow256(|b|) && (v == u || v == u - p)
    ensures WriteLE(v, |b|) == b
  {
    if v == u { WriteUnsigned(b); } else { WriteUnsigned(b); WriteWraps(u, |b|); }
  }

  /** Writing what was read restores the bytes. */
  lemma WriteUndoesRead(b: Bytes, signed: bool)
    ensures WriteLE(ReadLE(b, signed), |b|) == b
  {
    ReadValue(b, signed);
    WriteEither(b, Unsigned(b), Pow256(|b|), ReadLE(b, signed));
  }

  /** The lowest digit apart, a remainder is the remainder of what is above it. */
  lemma ModStep(v: int, p: int)
    requires 0 < p
    ensures v % (256 * p) == v % 256 + 256 * (v / 256 % p)
  {
    var d, e, r := v / 256, v % 256, v / 256 % p;
    var k := d / p;
    assert v == 256 * d + e && d == p * k + r;
    assert v == (256 * p) * k + (256 * r + e);
    RemainderIs(v, 256 * p, k, 256 * r + e);
  }

  lemma {:induction false} UnsignedOfWrite(v: int, w: nat)
    ensures Unsigned(WriteLE(v, w)) == v % Pow256(w)
    decreases w
  {
    if w > 0 {
      UnsignedOfWrite(v / 256, w - 1);
      ModStep(v, Pow256(w - 1));
      assert WriteLE(v, w)[1..] == WriteLE(v / 256, w - 1);
    }
  }

  /** Reading what was written restores each value of the format. */
  lemma ReadUndoesWrite(v: int, w: nat, signed: bool)
    requires 0 < w
    requires if signed then 0 <= 2 * v + Pow256(w) < 2 * Pow256(w) else 0 <= v < Pow256(w)
    ensures ReadLE(WriteLE(v, w), signed) == v
  {
    hide Unsigned, WriteLE, Pow256;
    UnsignedOfWrite(v, w);
    var p := Pow256(w);
    if v < 0 { RemainderIs(v, p, -1, v + p); } else { RemainderIs(v, p, 0, v); }
  }
}
