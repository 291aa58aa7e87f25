/** crc32 of mkpimage.c: the table-driven CRC-32, most significant bit first. */
module Crc {
  const POLYNOMIAL: bv32 := 0x04c11db7

  // ---- the reference: division of the message by the polynomial, one bit at a time ----

  /** One division step: the top bit of the remainder decides whether the polynomial is subtracted. */
  function Shift(r: bv32): bv32 {
    if r & 0x8000_0000 != 0 then (r << 1) ^ POLYNOMIAL else r << 1
  }

  function Iterate<T>(f: T -> T, r: T, n: nat): T
    decreases n
  {
    if n == 0 then r else Iterate(f, f(r), n - 1)
  }

  /** Takes in the eight bits of a byte. */
  function ByteStep(r: bv32, b: bv8): bv32 {
    Iterate(Shift, Taken(r, b), 8)
  }

  /** The remainder after a whole message. */
  function Remainder(r: bv32, msg: seq<bv8>): bv32 {
    if msg == [] then r else ByteStep(Remainder(r, msg[..|msg|-1]), msg[|msg|-1])
  }

  function Shift8(r: bv32): bv32 { Shift(Shift(Shift(Shift(Shift(Shift(Shift(Shift(r)))))))) }

  lemma IterateEight<T>(f: T -> T, r: T)
    ensures Iterate(f, r, 8) == f(f(f(f(f(f(f(f(r))))))))
  {
    var r2 := f(f(r));
    var r4 := f(f(r2));
    var r6 := f(f(r4));
    assert Iterate(f, r6, 2) == f(f(r6));
    assert Iterate(f, r4, 4) == Iterate(f, r6, 2);
    assert Iterate(f, r2, 6) == Iterate(f, r4, 4);
    assert Iterate(f, r, 8) == Iterate(f, r2, 6);
  }

  // ---- the table ----

  /** crc_table, in rows of sixteen. */
  function Row(h: bv8): (r: seq<bv32>)
    ensures |r| == 16
  {
    if h == 0 then [
      0x00000000, 0x04c11db7, 0x09823b6e, 0x0d4326d9, 0x130476dc, 0x17c56b6b, 0x1a864db2, 0x1e475005,
      0x2608edb8, 0x22c9f00f, 0x2f8ad6d6, 0x2b4bcb61, 0x350c9b64, 0x31cd86d3, 0x3c8ea00a, 0x384fbdbd]
    else if h == 1 then [
      0x4c11db70, 0x48d0c6c7, 0x4593e01e, 0x4152fda9, 0x5f15adac, 0x5bd4b01b, 0x569796c2, 0x52568b75,
      0x6a1936c8, 0x6ed82b7f, 0x639b0da6, 0x675a1011, 0x791d4014, 0x7ddc5da3, 0x709f7b7a, 0x745e66cd]
    else if h == 2 then [
      0x9823b6e0, 0x9ce2ab57, 0x91a18d8e, 0x95609039, 0x8b27c03c, 0x8fe6dd8b, 0x82a5fb52, 0x8664e6e5,
      0xbe2b5b58, 0xbaea46ef, 0xb7a96036, 0xb3687d81, 0xad2f2d84, 0xa9ee3033, 0xa4ad16ea, 0xa06c0b5d]
    else if h == 3 then [
      0xd4326d90, 0xd0f37027, 0xddb056fe, 0xd9714b49, 0xc7361b4c, 0xc3f706fb, 0xceb42022, 0xca753d95,
      0xf23a8028, 0xf6fb9d9f, 0xfbb8bb46, 0xff79a6f1, 0xe13ef6f4, 0xe5ffeb43, 0xe8bccd9a, 0xec7dd02d]
    else if h == 4 then [
      0x34867077, 0x30476dc0, 0x3d044b19, 0x39c556ae, 0x278206ab, 0x23431b1c, 0x2e003dc5, 0x2ac12072,
      0x128e9dcf, 0x164f8078, 0x1b0ca6a1, 0x1fcdbb16, 0x018aeb13, 0x054bf6a4, 0x0808d07d, 0x0cc9cdca]
    else if h == 5 then [
      0x7897ab07, 0x7c56b6b0, 0x71159069, 0x75d48dde, 0x6b93dddb, 0x6f52c06c, 0x6211e6b5, 0x66d0fb02,
      0x5e9f46bf, 0x5a5e5b08, 0x571d7dd1, 0x53dc6066, 0x4d9b3063, 0x495a2dd4, 0x44190b0d, 0x40d816ba]
    else if h == 6 then [
      0xaca5c697, 0xa864db20, 0xa527fdf9, 0xa1e6e04e, 0xbfa1b04b, 0xbb60adfc, 0xb6238b25, 0xb2e29692,
      0x8aad2b2f, 0x8e6c3698, 0x832f1041, 0x87ee0df6, 0x99a95df3, 0x9d684044, 0x902b669d, 0x94ea7b2a]
    else if h == 7 then [
      0xe0b41de7, 0xe4750050, 0xe9362689, 0xedf73b3e, 0xf3b06b3b, 0xf771768c, 0xfa325055, 0xfef34de2,
      0xc6bcf05f, 0xc27dede8, 0xcf3ecb31, 0xcbffd686, 0xd5b88683, 0xd1799b34, 0xdc3abded, 0xd8fba05a]
    else if h == 8 then [
      0x690ce0ee, 0x6dcdfd59, 0x608edb80, 0x644fc637, 0x7a089632, 0x7ec98b85, 0x738aad5c, 0x774bb0eb,
      0x4f040d56, 0x4bc510e1, 0x46863638, 0x42472b8f, 0x5c007b8a, 0x58c1663d, 0x558240e4, 0x51435d53]
    else if h == 9 then [
      0x251d3b9e, 0x21dc2629, 0x2c9f00f0, 0x285e1d47, 0x36194d42, 0x32d850f5, 0x3f9b762c, 0x3b5a6b9b,
      0x0315d626, 0x07d4cb91, 0x0a97ed48, 0x0e56f0ff, 0x1011a0fa, 0x14d0bd4d, 0x19939b94, 0x1d528623]
    else if h == 10 then [
      0xf12f560e, 0xf5ee4bb9, 0xf8ad6d60, 0xfc6c70d7, 0xe22b20d2, 0xe6ea3d65, 0xeba91bbc, 0xef68060b,
      0xd727bbb6, 0xd3e6a601, 0xdea580d8, 0xda649d6f, 0xc423cd6a, 0xc0e2d0dd, 0xcda1f604, 0xc960ebb3]
    else if h == 11 then [
      0xbd3e8d7e, 0xb9ff90c9, 0xb4bcb610, 0xb07daba7, 0xae3afba2, 0xaafbe615, 0xa7b8c0cc, 0xa379dd7b,
      0x9b3660c6, 0x9ff77d71, 0x92b45ba8, 0x9675461f, 0x8832161a, 0x8cf30bad, 0x81b02d74, 0x857130c3]
    else if h == 12 then [
      0x5d8a9099, 0x594b8d2e, 0x5408abf7, 0x50c9b640, 0x4e8ee645, 0x4a4ffbf2, 0x470cdd2b, 0x43cdc09c,
      0x7b827d21, 0x7f436096, 0x7200464f, 0x76c15bf8, 0x68860bfd, 0x6c47164a, 0x61043093, 0x65c52d24]
    else if h == 13 then [
      0x119b4be9, 0x155a565e, 0x18197087, 0x1cd86d30, 0x029f3d35, 0x065e2082, 0x0b1d065b, 0x0fdc1bec,
      0x3793a651, 0x3352bbe6, 0x3e119d3f, 0x3ad08088, 0x2497d08d, 0x2056cd3a, 0x2d15ebe3, 0x29d4f654]
    else if h == 14 then [
      0xc5a92679, 0xc1683bce, 0xcc2b1d17, 0xc8ea00a0, 0xd6ad50a5, 0xd26c4d12, 0xdf2f6bcb, 0xdbee767c,
      0xe3a1cbc1, 0xe760d676, 0xea23f0af, 0xeee2ed18, 0xf0a5bd1d, 0xf464a0aa, 0xf9278673, 0xfde69bc4]
    else [
      0x89b8fd09, 0x8d79e0be, 0x803ac667, 0x84fbdbd0, 0x9abc8bd5, 0x9e7d9662, 0x933eb0bb, 0x97ffad0c,
      0xafb010b1, 0xab710d06, 0xa6322bdf, 0xa2f33668, 0xbcb4666d, 0xb8757bda, 0xb5365d03, 0xb1f740b4]
  }

  function Table(i: bv8): bv32 { Row(i >> 4)[(i & 15) as int] }

  lemma Nibble(n: bv8)
    requires n < 16
    ensures || (n == 0 && n as int == 0) || (n == 1 && n as int == 1) || (n == 2 && n as int == 2)
            || (n == 3 && n as int == 3)
            || (n == 4 && n as int == 4) || (n == 5 && n as int == 5) || (n == 6 && n as int == 6)
            || (n == 7 && n as int == 7)
            || (n == 8 && n as int == 8) || (n == 9 && n as int == 9) || (n == 10 && n as int == 10)
            || (n == 11 && n as int == 11)
            || (n == 12 && n as int == 12) || (n == 13 && n as int == 13) || (n == 14 && n as int == 14)
            || (n == 15 && n as int == 15)
  {
  }

  lemma TableRows0(h: bv8, n: bv8)
    requires 0 <= h < 4 && n < 16
    ensures Row(h)[n as int] == Shift8((((h << 4) | n) as bv32) << 24)
  {
    Nibble(n);
  }

  lemma TableRows1(h: bv8, n: bv8)
    requires 4 <= h < 8 && n < 16
    ensures Row(h)[n as int] == Shift8((((h << 4) | n) as bv32) << 24)
  {
    Nibble(n);
  }

  lemma TableRows2(h: bv8, n: bv8)
    requires 8 <= h < 12 && n < 16
    ensures Row(h)[n as int] == Shift8((((h << 4) | n) as bv32) << 24)
  {
    Nibble(n);
  }

  lemma TableRows3(h: bv8, n: bv8)
    requires 12 <= h < 14 && n < 16
    ensures Row(h)[n as int] == Shift8((((h << 4) | n) as bv32) << 24)
  {
    Nibble(n);
  }

  lemma TableRows4(h: bv8, n: bv8)
    requires 14 <= h < 16 && n < 16
    ensures Row(h)[n as int] == Shift8((((h << 4) | n) as bv32) << 24)
  {
    Nibble(n);
  }

  /** Each entry is the remainder of its index: the table holds what eight division steps do to the top byte. */
  lemma TableIsRemainder(i: bv8)
    ensures Table(i) == Iterate(Shift, (i as bv32) << 24, 8)
  {
    IterateEight(Shift, (i as bv32) << 24);
    var h, n := i >> 4, i & 15;
    assert (h << 4) | n == i;
    if h < 4 { TableRows0(h, n); }
    else if h < 8 { TableRows1(h, n); }
    else if h < 12 { TableRows2(h, n); }
    else if h < 14 { TableRows3(h, n); }
    else { TableRows4(h, n); }
  }

  // ---- the division is linear ----

  predicate Top(r: bv32) { r & 0x8000_0000 != 0 }

  lemma TopOfXor(x: bv32, y: bv32)
    ensures Top(x ^ y) == (Top(x) != Top(y))
  {
  }

  lemma XorShift(x: bv32, y: bv32)
    ensures (x ^ y) << 1 == (x << 1) ^ (y << 1)
  {
  }

  lemma XorShiftBoth(x: bv32, y: bv32)
    ensures (x ^ y) << 1 == ((x << 1) ^ POLYNOMIAL) ^ ((y << 1) ^ POLYNOMIAL)
  {
  }

  lemma XorShiftLeft(x: bv32, y: bv32)
    ensures ((x ^ y) << 1) ^ POLYNOMIAL == ((x << 1) ^ POLYNOMIAL) ^ (y << 1)
  {
  }

  lemma XorShiftRight(x: bv32, y: bv32)
    ensures ((x ^ y) << 1) ^ POLYNOMIAL == (x << 1) ^ ((y << 1) ^ POLYNOMIAL)
  {
  }

  lemma ShiftLinearBoth(x: bv32, y: bv32)
    requires Top(x) && Top(y)
    ensures Shift(x ^ y) == Shift(x) ^ Shift(y)
  {
    TopOfXor(x, y);
    XorShiftBoth(x, y);
  }

  lemma ShiftLinearLeft(x: bv32, y: bv32)
    requires Top(x) && !Top(y)
    ensures Shift(x ^ y) == Shift(x) ^ Shift(y)
  {
    TopOfXor(x, y);
    XorShiftLeft(x, y);
  }

  lemma ShiftLinearRight(x: bv32, y: bv32)
    requires !Top(x) && Top(y)
    ensures Shift(x ^ y) == Shift(x) ^ Shift(y)
  {
    TopOfXor(x, y);
    XorShiftRight(x, y);
  }

  lemma ShiftLinearNone(x: bv32, y: bv32)
    requires !Top(x) && !Top(y)
    ensures Shift(x ^ y) == Shift(x) ^ Shift(y)
  {
    TopOfXor(x, y);
    XorShift(x, y);
  }

  lemma ShiftLinear(x: bv32, y: bv32)
    ensures Shift(x ^ y) == Shift(x) ^ Shift(y)
  {
    if Top(x) && Top(y) { ShiftLinearBoth(x, y); }
    else if Top(x) { ShiftLinearLeft(x, y); }
    else if Top(y) { ShiftLinearRight(x, y); }
    else { ShiftLinearNone(x, y); }
  }

  /** A step that respects an operation does so any number of times. */
  lemma {:induction false} IterateRespects<T(!new)>(f: T -> T, op: (T, T) -> T, x: T, y: T, n: nat)
    requires forall a: T, b: T :: f(op(a, b)) == op(f(a), f(b))
    ensures Iterate(f, op(x, y), n) == op(Iterate(f, x, n), Iterate(f, y, n))
    decreases n
  {
    if n > 0 {
      assert f(op(x, y)) == op(f(x), f(y));
      IterateRespects(f, op, f(x), f(y), n - 1);
    }
  }

  lemma {:induction false} IterateAdd<T>(f: T -> T, r: T, m: nat, n: nat)
    ensures Iterate(f, r, m + n) == Iterate(f, Iterate(f, r, m), n)
    decreases m
  {
    if m > 0 { IterateAdd(f, f(r), m - 1, n); }
  }

  lemma IterateOnwards<T>(f: T -> T, r: T, m: nat, s: T, n: nat, t: T)
    requires Iterate(f, r, m) == s && Iterate(f, s, n) == t
    ensures Iterate(f, r, m + n) == t
  {
    IterateAdd(f, r, m, n);
  }

  lemma IterateParts<T>(f: T -> T, op: (T, T) -> T, x: T, low: T, high: T, n: nat, l: T, h: T)
    requires x == op(low, high) && Iterate(f, low, n) == l && Iterate(f, high, n) == h
    requires Iterate(f, op(low, high), n) == op(Iterate(f, low, n), Iterate(f, high, n))
    ensures Iterate(f, x, n) == op(l, h)
  {
  }

  function Xor(a: bv32, b: bv32): bv32 { a ^ b }

  /** Dividing a sum is dividing its parts. */
  lemma DivisionLinear(x: bv32, y: bv32)
    ensures Iterate(Shift, Xor(x, y), 8) == Xor(Iterate(Shift, x, 8), Iterate(Shift, y, 8))
  {
    forall a: bv32, b: bv32
      ensures Shift(Xor(a, b)) == Xor(Shift(a), Shift(b))
    {
      ShiftLinear(a, b);
    }
    IterateRespects(Shift, Xor, x, y, 8);
  }

  lemma IterateTwo<T>(f: T -> T, r: T)
    ensures Iterate(f, r, 2) == f(f(r))
  {
    assert Iterate(f, f(r), 1) == Iterate(f, f(f(r)), 0);
  }

  /** While the bits that leave are zero a remainder just moves up. */
  lemma ZeroShifts2(x: bv32)
    requires x & 0xc000_0000 == 0
    ensures Iterate(Shift, x, 2) == x << 2
  {
    IterateTwo(Shift, x);
    ZeroShiftTwice(x);
  }

  lemma ZeroShiftTwice(x: bv32)
    requires x & 0xc000_0000 == 0
    ensures Shift(Shift(x)) == x << 2
  {
  }

  lemma MoveUp2(x: bv32)
    requires x & 0xf000_0000 == 0
    ensures (x << 2) & 0xc000_0000 == 0 && x & 0xc000_0000 == 0 && (x << 2) << 2 == x << 4
  {
  }

  lemma ZeroShiftsFirst2(x: bv32)
    requires x & 0xf000_0000 == 0
    ensures Iterate(Shift, x, 2) == x << 2
  {
    MoveUp2(x);
    ZeroShifts2(x);
  }

  lemma ZeroShiftsNext2(x: bv32)
    requires x & 0xf000_0000 == 0
    ensures Iterate(Shift, x << 2, 2) == x << 4
  {
    MoveUp2(x);
    ZeroShifts2(x << 2);
  }

  lemma ZeroShifts4(x: bv32)
    requires x & 0xf000_0000 == 0
    ensures Iterate(Shift, x, 4) == x << 4
  {
    ZeroShiftsFirst2(x);
    ZeroShiftsNext2(x);
    IterateOnwards(Shift, x, 2, x << 2, 2, x << 4);
  }

  lemma MoveUp4(x: bv32)
    requires x & 0xff00_0000 == 0
    ensures (x << 4) & 0xf000_0000 == 0 && x & 0xf000_0000 == 0 && (x << 4) << 4 == x << 8
  {
  }

  lemma ZeroShiftsFirst4(x: bv32)
    requires x & 0xff00_0000 == 0
    ensures Iterate(Shift, x, 4) == x << 4
  {
    MoveUp4(x);
    ZeroShifts4(x);
  }

  lemma ZeroShiftsNext4(x: bv32)
    requires x & 0xff00_0000 == 0
    ensures Iterate(Shift, x << 4, 4) == x << 8
  {
    MoveUp4(x);
    ZeroShifts4(x << 4);
  }

  lemma ZeroShifts8(x: bv32)
    requires x & 0xff00_0000 == 0
    ensures Iterate(Shift, x, 8) == x << 8
  {
    ZeroShiftsFirst4(x);
    ZeroShiftsNext4(x);
    IterateOnwards(Shift, x, 4, x << 4, 4, x << 8);
  }

  function TopByte(r: bv32): bv8 { (r >> 24) as bv8 }

  /** One table step: crc << 8 ^ table[(crc >> 24 ^ byte) & 0xff]. */
  function TableStep(r: bv32, b: bv8): bv32 {
    (r << 8) ^ Table(TopByte(r) ^ b)
  }

  function Taken(r: bv32, b: bv8): bv32 { r ^ ((b as bv32) << 24) }

  function LowPart(r: bv32, b: bv8): bv32 { Taken(r, b) & 0x00ff_ffff }

  function HighPart(r: bv32, b: bv8): bv32 { ((TopByte(r) ^ b) as bv32) << 24 }

  /** The remainder with a byte taken in is its low part and its top byte. */
  lemma TakenIn(r: bv32, b: bv8)
    ensures Taken(r, b) == Xor(LowPart(r, b), HighPart(r, b))
    ensures LowPart(r, b) & 0xff00_0000 == 0 && LowPart(r, b) << 8 == r << 8
  {
  }

  lemma LowDivides(r: bv32, b: bv8)
    ensures Iterate(Shift, LowPart(r, b), 8) == r << 8
  {
    TakenIn(r, b);
    ZeroShifts8(LowPart(r, b));
  }

  lemma HighDivides(r: bv32, b: bv8)
    ensures Iterate(Shift, HighPart(r, b), 8) == Table(TopByte(r) ^ b)
  {
    TableIsRemainder(TopByte(r) ^ b);
  }

  /** A table step is eight division steps. */
  lemma TableStepIsDivision(r: bv32, b: bv8)
    ensures TableStep(r, b) == ByteStep(r, b)
  {
    TakenIn(r, b);
    LowDivides(r, b);
    HighDivides(r, b);
    DivisionLinear(LowPart(r, b), HighPart(r, b));
    IterateParts(Shift, Xor, Taken(r, b), LowPart(r, b), HighPart(r, b), 8, r << 8, Table(TopByte(r) ^ b));
  }

  method Crc32(crc: bv32, buf: array<bv8>, length: nat) returns (r: bv32)
    requires length <= buf.Length
    ensures r == Remainder(crc, buf[..length])
  {
    r := crc;
    for i := 0 to length
      invariant r == Remainder(crc, buf[..i])
    {
      TableStepIsDivision(r, buf[i]);
      assert buf[..i+1][..i] == buf[..i];
      r := TableStep(r, buf[i]);
    }
  }
}
