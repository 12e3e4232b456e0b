/** CRC-32 as java.util.zip.CRC32 computes it: fed chunk by chunk. */
module Crc {

  type Bytes = seq<bv8>

  /** One bit leaves the register. */
  function Bit(c: bv32): bv32 {
    if c & 1 == 1 then (c >> 1) ^ 0xEDB8_8320 else c >> 1
  }

  function Shift(c: bv32, n: nat): bv32
    decreases n
  {
    if n == 0 then c else Shift(Bit(c), n - 1)
  }

  /** A byte enters the register. */
  function Mix(c: bv32, x: bv8): bv32 {
    c ^ (x as bv32)
  }

  /** CRC32.update, on the complemented register. */
  function Update(register: bv32, chunk: Bytes): bv32
    decreases |chunk|
  {
    if chunk == [] then register else Update(Shift(Mix(register, chunk[0]), 8), chunk[1..])
  }

  const INITIAL: bv32 := 0xFFFF_FFFF

  function Value(register: bv32): bv32 {
    register ^ 0xFFFF_FFFF
  }

  function Of(content: Bytes): bv32 {
    Value(Update(INITIAL, content))
  }

  lemma UpdateNothing(register: bv32)
    ensures Update(register, []) == register
  {
  }

  /** Chunk boundaries do not matter. */
  lemma {:induction false} UpdateConcat(register: bv32, a: Bytes, b: Bytes)
    ensures Update(register, a + b) == Update(Update(register, a), b)
    decreases |a|
  {
    if a == [] {
      assert a + b == b;
    } else {
      assert (a + b)[1..] == a[1..] + b;
      UpdateConcat(Shift(Mix(register, a[0]), 8), a[1..], b);
    }
  }

  // ---------- what the checksum tells apart ----------

  lemma BitInjective(c: bv32, d: bv32)
    requires Bit(c) == Bit(d)
    ensures c == d
  {
  }

  lemma LowBit(c: bv32, d: bv32)
    ensures c & 1 == 0 || c & 1 == 1
    ensures (c ^ d) & 1 == (c & 1) ^ (d & 1)
  {
  }

  lemma HalfXor(c: bv32, d: bv32)
    ensures (c ^ d) >> 1 == (c >> 1) ^ (d >> 1)
  {
  }

  lemma XorRegroup(a: bv32, b: bv32, p: bv32)
    ensures (a ^ b) ^ p == (a ^ p) ^ b && (a ^ b) ^ p == a ^ (b ^ p) && a ^ b == (a ^ p) ^ (b ^ p)
  {
  }

  /** Addition of polynomials over two elements. */
  function Sum(c: bv32, d: bv32): bv32 {
    c ^ d
  }

  lemma BitLinear(c: bv32, d: bv32)
    ensures Bit(Sum(c, d)) == Sum(Bit(c), Bit(d))
  {
    LowBit(c, d);
    LowBit(d, c);
    HalfXor(c, d);
    XorRegroup(c >> 1, d >> 1, 0xEDB8_8320);
  }

  lemma {:induction false} ShiftInjective(c: bv32, d: bv32, n: nat)
    requires Shift(c, n) == Shift(d, n)
    ensures c == d
    decreases n
  {
    hide Bit;
    if n > 0 {
      ShiftInjective(Bit(c), Bit(d), n - 1);
      BitInjective(c, d);
    }
  }

  lemma {:induction false} ShiftLinear(c: bv32, d: bv32, n: nat)
    ensures Shift(Sum(c, d), n) == Sum(Shift(c, n), Shift(d, n))
    decreases n
  {
    hide Bit, Sum;
    if n > 0 {
      BitLinear(c, d);
      ShiftLinear(Bit(c), Bit(d), n - 1);
    }
  }

  lemma MixInjective(c: bv32, d: bv32, x: bv8)
    requires Mix(c, x) == Mix(d, x)
    ensures c == d
  {
  }

  lemma ByteInjective(c: bv32, x: bv8, y: bv8)
    requires Mix(c, x) == Mix(c, y)
    ensures x == y
  {
  }

  lemma ValueInjective(c: bv32, d: bv32)
    requires Value(c) == Value(d)
    ensures c == d
  {
  }

  /** The same bytes never bring different registers together. */
  lemma {:induction false} UpdateInjective(c: bv32, d: bv32, chunk: Bytes)
    requires Update(c, chunk) == Update(d, chunk)
    ensures c == d
    decreases |chunk|
  {
    hide Shift, Mix;
    if chunk != [] {
      var x := chunk[0];
      UpdateInjective(Shift(Mix(c, x), 8), Shift(Mix(d, x), 8), chunk[1..]);
      ShiftInjective(Mix(c, x), Mix(d, x), 8);
      MixInjective(c, d, x);
    }
  }

  lemma UpdateOne(c: bv32, x: bv8)
    ensures Update(c, [x]) == Shift(Mix(c, x), 8)
  {
    assert [x][1..] == [];
  }

  /** Contents that differ in exactly one byte have different checksums. */
  lemma OneByteShows(head: Bytes, x: bv8, y: bv8, tail: Bytes)
    requires x != y
    ensures Of(head + [x] + tail) != Of(head + [y] + tail)
  {
    hide Shift, Mix, Value, Update;
    if Of(head + [x] + tail) == Of(head + [y] + tail) {
      var c := Update(INITIAL, head);
      UpdateConcat(INITIAL, head + [x], tail);
      UpdateConcat(INITIAL, head + [y], tail);
      UpdateConcat(INITIAL, head, [x]);
      UpdateConcat(INITIAL, head, [y]);
      ValueInjective(Update(INITIAL, head + [x] + tail), Update(INITIAL, head + [y] + tail));
      UpdateInjective(Update(c, [x]), Update(c, [y]), tail);
      UpdateOne(c, x);
      UpdateOne(c, y);
      ShiftInjective(Mix(c, x), Mix(c, y), 8);
      ByteInjective(c, x, y);
      assert false;
    }
  }

  function Xor(a: Bytes, b: Bytes): Bytes
    requires |a| == |b|
  {
    seq(|a|, k requires 0 <= k < |a| => a[k] ^ b[k])
  }

  lemma XorTail(a: Bytes, b: Bytes)
    requires |a| == |b| && a != []
    ensures Xor(a, b) != [] && Xor(a, b)[0] == a[0] ^ b[0] && Xor(a, b)[1..] == Xor(a[1..], b[1..])
  {
  }

  lemma MixLinear(c: bv32, d: bv32, x: bv8, y: bv8)
    ensures Mix(Sum(c, d), x ^ y) == Sum(Mix(c, x), Mix(d, y))
  {
  }

  /** Registers and bytes are combined linearly. */
  lemma {:induction false} UpdateLinear(c: bv32, d: bv32, a: Bytes, b: Bytes)
    requires |a| == |b|
    ensures Update(Sum(c, d), Xor(a, b)) == Sum(Update(c, a), Update(d, b))
    decreases |a|
  {
    hide Shift, Mix, Sum, Xor;
    if a == [] {
      XorNone(a, b);
    } else {
      XorTail(a, b);
      MixLinear(c, d, a[0], b[0]);
      ShiftLinear(Mix(c, a[0]), Mix(d, b[0]), 8);
      UpdateLinear(Shift(Mix(c, a[0]), 8), Shift(Mix(d, b[0]), 8), a[1..], b[1..]);
    }
  }

  lemma XorNone(a: Bytes, b: Bytes)
    requires |a| == |b| == 0
    ensures Xor(a, b) == []
  {
  }

  /** Eight steps at once. */
  lemma ByteStep(c: bv32, x: bv8, d: bv32)
    requires Bit(Bit(Bit(Bit(Bit(Bit(Bit(Bit(Mix(c, x))))))))) == d
    ensures Update(c, [x]) == d
  {
    hide Bit;
    UpdateOne(c, x);
  }

  const CHECK: Bytes := [0x31, 0x32, 0x33, 0x34, 0x35, 0x36, 0x37, 0x38, 0x39]

  /** The published check value of CRC-32, for the text 123456789; it fixes the polynomial and the bit order. */
  lemma CheckValue()
    ensures Of(CHECK) == 0xCBF4_3926
  {
    ByteStep(0xFFFF_FFFF, 0x31, 0x7C23_1048);
    ByteStep(0x7C23_1048, 0x32, 0xB0AC_BB32);
    ByteStep(0xB0AC_BB32, 0x33, 0x77B7_9C2D);
    ByteStep(0x77B7_9C2D, 0x34, 0x641C_1F5C);
    ByteStep(0x641C_1F5C, 0x35, 0x340A_C5E3);
    ByteStep(0x340A_C5E3, 0x36, 0xF68D_2C9E);
    ByteStep(0xF68D_2C9E, 0x37, 0xAFFC_9660);
    ByteStep(0xAFFC_9660, 0x38, 0x651F_2550);
    ByteStep(0x651F_2550, 0x39, 0x340B_C6D9);
  }
}
