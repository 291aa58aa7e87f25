/**
 mkpimage.c: the boot header, the branch instructions and the size arithmetic of a SoCFPGA
 preloader image, written into a byte buffer on a little-endian host.
 */
module Image {
  import opened Crc

  const VALIDATION_WORD: bv32 := 0x31305341
  const BRANCH_INST: bv8 := 0xea
  const HEADER: nat := 0x40
  const HEADER_SIZE: bv32 := 20
  const MAX_V0: nat := 60 * 1024 - 4
  const MAX_V1: nat := 224 * 1024 - 4

  // ---- bytes ----

  function Byte0(x: bv32): bv8 { (x & 0xff) as bv8 }
  function Byte1(x: bv32): bv8 { ((x >> 8) & 0xff) as bv8 }
  function Byte2(x: bv32): bv8 { ((x >> 16) & 0xff) as bv8 }
  function Byte3(x: bv32): bv8 { ((x >> 24) & 0xff) as bv8 }

  function Word(b0: bv8, b1: bv8, b2: bv8, b3: bv8): bv32 {
    (b0 as bv32) | ((b1 as bv32) << 8) | ((b2 as bv32) << 16) | ((b3 as bv32) << 24)
  }

  function WordAt(s: seq<bv8>, i: nat): bv32
    requires i + 4 <= |s|
  {
    Word(s[i], s[i + 1], s[i + 2], s[i + 3])
  }

  function HalfAt(s: seq<bv8>, i: nat): bv32
    requires i + 2 <= |s|
  {
    Word(s[i], s[i + 1], 0, 0)
  }

  lemma WordRoundTrip(x: bv32)
    ensures Word(Byte0(x), Byte1(x), Byte2(x), Byte3(x)) == x
  {
  }

  // ---- branch ----

  /** The three offset bytes of a branch: offset / 4, from two words ahead of the instruction. */
  function OffsetBytes(offset: bv32): (bv8, bv8, bv8) {
    (((offset >> 2) & 0xff) as bv8, ((offset >> 10) & 0xff) as bv8, ((offset >> 18) & 0xff) as bv8)
  }

  function BranchBytes(at: bv32, dest: bv32): (bv8, bv8, bv8) { OffsetBytes(dest - at - 8) }

  /** The offset of a branch: a signed 24-bit number of words. */
  function Offset(b0: bv8, b1: bv8, b2: bv8): bv32 {
    var imm := Word(b0, b1, b2, 0);
    (if imm & 0x80_0000 != 0 then imm | 0xff00_0000 else imm) << 2
  }

  lemma ForwardOffset(o: bv32)
    requires o & 0xfe00_0003 == 0
    ensures var b := OffsetBytes(o); Offset(b.0, b.1, b.2) == o
  {
  }

  lemma BackwardOffset(o: bv32)
    requires o & 0xfe00_0003 == 0xfe00_0000
    ensures var b := OffsetBytes(o); Offset(b.0, b.1, b.2) == o
  {
  }

  lemma OffsetFits(at: bv32, dest: bv32)
    requires at & 0xff00_0003 == 0 && dest & 0xff00_0003 == 0
    ensures Fits(dest - at - 8)
  {
  }

  predicate Fits(o: bv32) { o & 0xfe00_0003 == 0 || o & 0xfe00_0003 == 0xfe00_0000 }

  lemma OffsetDecodes(o: bv32)
    requires Fits(o)
    ensures var b := OffsetBytes(o); Offset(b.0, b.1, b.2) == o
  {
    if o & 0xfe00_0003 == 0 { ForwardOffset(o); } else { BackwardOffset(o); }
  }

  /** A branch whose offset, counted from eight bytes past it, is the distance to `dest`. */
  predicate LeadsTo(at: bv32, dest: bv32, s: seq<bv8>)
    requires |s| == 4
  {
    s[3] == BRANCH_INST && Offset(s[0], s[1], s[2]) == dest - at - 8
  }

  predicate Aligned(x: bv32) { x & 0xff00_0003 == 0 }

  /** The bytes of a branch, decoded, lead back to the destination, for word-aligned addresses below 16 MB. */
  lemma BranchRoundTrip(at: bv32, dest: bv32)
    requires Aligned(at) && Aligned(dest)
    ensures var b := BranchBytes(at, dest); LeadsTo(at, dest, [b.0, b.1, b.2, BRANCH_INST])
  {
    OffsetFits(at, dest);
    OffsetDecodes(dest - at - 8);
  }

  // ---- what a boot ROM checks ----

  function Fold<T, U>(f: (U, T) -> U, init: U, s: seq<T>): U {
    if s == [] then init else f(Fold(f, init, s[..|s|-1]), s[|s|-1])
  }

  function AddByte(sum: bv32, b: bv8): bv32 { sum + (b as bv32) }

  /** The sum of bytes as a 32-bit number. */
  function Sum(s: seq<bv8>): bv32 { Fold(AddByte, 0, s) }

  /** A version 0 header: its length in words, its checksum and its start vector. */
  predicate HeaderV0(h: seq<bv8>, size: bv32, start: bv32)
    requires |h| == 16
  {
    && WordAt(h, 0) == VALIDATION_WORD && h[4] == 0 && h[5] == 0
    && HalfAt(h, 6) == size >> 2 && HalfAt(h, 8) == 0
    && HalfAt(h, 10) == Sum(h[..10]) & 0xffff
    && LeadsTo(0x4c, start, h[12..16])
  }

  /** A version 1 header with `entry` as the offset of the entry point. */
  predicate HeaderV1(h: seq<bv8>, size: bv32, entry: bv32)
    requires |h| == 20
  {
    && WordAt(h, 0) == VALIDATION_WORD && h[4] == 1 && h[5] == 0
    && HalfAt(h, 6) == HEADER_SIZE && WordAt(h, 8) == size && WordAt(h, 12) == entry && HalfAt(h, 16) == 0
    && HalfAt(h, 18) == Sum(h[..18]) & 0xffff
  }

  /** The index behind the header and, if there is one, the trampoline. */
  function HeaderEnd(start: bv32, version: nat): nat {
    if version == 0 then 0x50 else if start < 0x40 then 0x58 else 0x54
  }

  /** The entry point of a version 1 image: the start itself, or a trampoline behind the header that leads to it. */
  predicate EntryV1(s: seq<bv8>, start: bv32)
    requires HeaderEnd(start, 1) <= |s| < 0x4_0000
  {
    if start < 0x40 then HeaderV1(s[0x40..0x54], |s| as bv32, 0x14) && LeadsTo(0x54, start, s[0x54..0x58])
    else HeaderV1(s[0x40..0x54], |s| as bv32, start - 0x40)
  }

  /** A version 1 header that makes the ROM enter the word behind it. */
  predicate Entered(s: seq<bv8>) { 0x58 <= |s| < 0x4_0000 && HeaderV1(s[0x40..0x54], |s| as bv32, 0x14) }

  predicate CrcOk(s: seq<bv8>)
    requires |s| >= 4
  {
    WordAt(s, |s| - 4) == Remainder(0xffff_ffff, s[..|s|-4]) ^ 0xffff_ffff
  }

  /** Room for the header, the trampoline if one is needed, and the CRC. */
  predicate Room(size: nat, start: bv32, version: nat) { size >= HeaderEnd(start, version) + 4 }

  /** The image passes every check and leads to `start`. */
  predicate Bootable(s: seq<bv8>, start: bv32, version: nat)
    requires version <= 1
  {
    && |s| < 0x4_0000 && Room(|s|, start, version)
    && Headed(s, start, version)
    && CrcOk(s)
  }

  // ---- the bytes of a header ----

  function HalfBytes(x: bv32): seq<bv8> { [Byte0(x), Byte1(x)] }

  function WordBytes(x: bv32): seq<bv8> { [Byte0(x), Byte1(x), Byte2(x), Byte3(x)] }

  function BranchSeq(at: bv32, dest: bv32): seq<bv8> {
    var b := BranchBytes(at, dest); [b.0, b.1, b.2, BRANCH_INST]
  }

  /** The checksummed part of a header, then its checksum. */
  function Summed(prefix: seq<bv8>): seq<bv8> { prefix + HalfBytes(Sum(prefix)) }

  function PrefixV0(size: bv32): seq<bv8> {
    WordBytes(VALIDATION_WORD) + [0, 0] + HalfBytes(size >> 2) + [0, 0]
  }

  function PrefixV1(size: bv32, entry: bv32): seq<bv8> {
    WordBytes(VALIDATION_WORD) + [1, 0] + HalfBytes(HEADER_SIZE) + WordBytes(size) + WordBytes(entry) + [0, 0]
  }

  lemma HalfOf(x: bv32)
    ensures Word(Byte0(x), Byte1(x), 0, 0) == x & 0xffff
  {
  }

  lemma SummedOk(prefix: seq<bv8>)
    ensures |Summed(prefix)| == |prefix| + 2 && Summed(prefix)[..|prefix|] == prefix
    ensures HalfAt(Summed(prefix), |prefix|) == Sum(prefix) & 0xffff
  {
    HalfOf(Sum(prefix));
  }

  lemma LengthInWords(size: bv32)
    requires size < 0x4_0000
    ensures (size >> 2) & 0xffff == size >> 2
  {
  }

  lemma PrefixV0Ok(size: bv32)
    requires size < 0x4_0000
    ensures var p := PrefixV0(size);
            |p| == 10 && WordAt(p, 0) == VALIDATION_WORD && p[4] == 0 && p[5] == 0 &&
              HalfAt(p, 6) == size >> 2 && HalfAt(p, 8) == 0
  {
    WordRoundTrip(VALIDATION_WORD);
    HalfOf(size >> 2);
    LengthInWords(size);
  }

  /** A header assembled from a summed prefix and a branch passes the checks. */
  lemma HeaderV0Ok(p: seq<bv8>, h: seq<bv8>, b: seq<bv8>, size: bv32, start: bv32)
    requires |p| == 10 && WordAt(p, 0) == VALIDATION_WORD && p[4] == 0 && p[5] == 0 &&
             HalfAt(p, 6) == size >> 2 && HalfAt(p, 8) == 0
    requires |h| == 12 && h[..10] == p && HalfAt(h, 10) == Sum(p) & 0xffff
    requires |b| == 4 && LeadsTo(0x4c, start, b)
    ensures HeaderV0(h + b, size, start)
  {
    var s := h + b;
    assert forall k :: 0 <= k < 10 ==> s[k] == p[k];
    assert s[..10] == p && s[12..16] == b && s[10] == h[10] && s[11] == h[11];
  }

  lemma PrefixV1Ok(size: bv32, entry: bv32)
    ensures var p := PrefixV1(size, entry);
            && |p| == 18 && WordAt(p, 0) == VALIDATION_WORD && p[4] == 1 && p[5] == 0
            && HalfAt(p, 6) == HEADER_SIZE && WordAt(p, 8) == size && WordAt(p, 12) == entry && HalfAt(p, 16) == 0
  {
    WordRoundTrip(VALIDATION_WORD);
    HalfOf(HEADER_SIZE);
    WordRoundTrip(size);
    WordRoundTrip(entry);
  }

  lemma HeaderV1Ok(p: seq<bv8>, h: seq<bv8>, size: bv32, entry: bv32)
    requires |p| == 18 && WordAt(p, 0) == VALIDATION_WORD && p[4] == 1 && p[5] == 0
    requires HalfAt(p, 6) == HEADER_SIZE && WordAt(p, 8) == size && WordAt(p, 12) == entry && HalfAt(p, 16) == 0
    requires |h| == 20 && h[..18] == p && HalfAt(h, 18) == Sum(p) & 0xffff
    ensures HeaderV1(h, size, entry)
  {
    assert forall k :: 0 <= k < 18 ==> h[k] == p[k];
  }

  // ---- writing ----

  /** `s` with `bytes` written at index `i`. */
  function Spliced<T>(s: seq<T>, i: nat, bytes: seq<T>): (r: seq<T>)
    requires i + |bytes| <= |s|
    ensures |r| == |s| && r[i..i+|bytes|] == bytes
    ensures forall k :: 0 <= k < |s| && !(i <= k < i + |bytes|) ==> r[k] == s[k]
  {
    s[..i] + bytes + s[i+|bytes|..]
  }

  method Write<T>(buf: array<T>, i: nat, bytes: seq<T>)
    requires i + |bytes| <= buf.Length
    modifies buf
    ensures buf[..] == Spliced(old(buf[..]), i, bytes)
  {
    for k := 0 to |bytes|
      invariant forall j :: 0 <= j < k ==> buf[i + j] == bytes[j]
      invariant forall j :: 0 <= j < buf.Length && !(i <= j < i + k) ==> buf[j] == old(buf[j])
    {
      buf[i + k] := bytes[k];
    }
  }

  /** Takes the bytes from `i` to `end` in, one after the other. */
  method FoldRange<T, U>(f: (U, T) -> U, init: U, buf: array<T>, i: nat, end: nat) returns (r: U)
    requires i <= end <= buf.Length
    ensures r == Fold(f, init, buf[i..end])
  {
    r := init;
    for k := i to end
      invariant r == Fold(f, init, buf[i..k])
    {
      assert buf[i..k+1][..k-i] == buf[i..k];
      r := f(r, buf[k]);
    }
  }

  /** Writes a header prefix at 0x40, then the sum of its bytes behind it. */
  method PutSummed(buf: array<bv8>, prefix: seq<bv8>)
    requires 0x40 + |prefix| + 2 <= buf.Length
    modifies buf
    ensures buf[..] == Spliced(old(buf[..]), 0x40, Summed(prefix))
  {
    Write(buf, 0x40, prefix);
    var checksum := FoldRange(AddByte, 0, buf, 0x40, 0x40 + |prefix|);
    assert buf[0x40..0x40+|prefix|] == prefix;
    ghost var before := buf[..];
    Write(buf, 0x40 + |prefix|, HalfBytes(checksum));
    SplicedTwice(old(buf[..]), 0x40, prefix, HalfBytes(checksum));
  }

  lemma SplicedTwice<T>(s: seq<T>, i: nat, a: seq<T>, b: seq<T>)
    requires i + |a| + |b| <= |s|
    ensures Spliced(Spliced(s, i, a), i + |a|, b) == Spliced(s, i, a + b)
  {
  }

  /** The CRC of everything before the last word, complemented, goes into the last word. */
  method PutCrc(buf: array<bv8>)
    requires buf.Length >= 4
    modifies buf
    ensures CrcOk(buf[..])
    ensures buf[..buf.Length-4] == old(buf[..buf.Length-4])
  {
    var n := buf.Length - 4;
    var crc := Crc32(0xffff_ffff, buf, n);
    crc := crc ^ 0xffff_ffff;
    Write(buf, n, WordBytes(crc));
    CrcStored(old(buf[..]), buf[..], crc);
  }

  lemma CrcStored(before: seq<bv8>, after: seq<bv8>, crc: bv32)
    requires |before| >= 4 && after == Spliced(before, |before| - 4, WordBytes(crc))
    requires crc == Remainder(0xffff_ffff, before[..|before|-4]) ^ 0xffff_ffff
    ensures CrcOk(after) && after[..|after|-4] == before[..|before|-4]
  {
    assert after[..|after|-4] == before[..|before|-4];
    var n := |before| - 4;
    assert after[n..n+4] == WordBytes(crc);
    assert after[n] == WordBytes(crc)[0] && after[n+1] == WordBytes(crc)[1] && after[n+2] == WordBytes(crc)[2] &&
           after[n+3] == WordBytes(crc)[3];
    WordRoundTrip(crc);
  }

  lemma SizeFits(size: nat)
    requires size < 0x4_0000
    ensures size as bv32 < 0x4_0000
  {
  }

  method PutHeaderV0(buf: array<bv8>, start: bv32)
    requires 0x50 <= buf.Length < 0x4_0000 && Aligned(start)
    modifies buf
    ensures HeaderV0(buf[0x40..0x50], buf.Length as bv32, start)
    ensures forall k :: 0 <= k < buf.Length && !(0x40 <= k < 0x50) ==> buf[k] == old(buf[k])
  {
    var size := buf.Length as bv32;
    SizeFits(buf.Length);
    PrefixV0Ok(size);
    SummedOk(PrefixV0(size));
    BranchRoundTrip(0x4c, start);
    PutSummed(buf, PrefixV0(size));
    Write(buf, 0x4c, BranchSeq(0x4c, start));
    ghost var h, b := Summed(PrefixV0(size)), BranchSeq(0x4c, start);
    SplicedTwice(old(buf[..]), 0x40, h, b);
    HeaderV0Ok(PrefixV0(size), h, b, size, start);
    assert buf[0x40..0x50] == buf[..][0x40..0x50] == h + b;
  }

  method PutHeaderV1(buf: array<bv8>, entry: bv32)
    requires 0x54 <= buf.Length < 0x4_0000
    modifies buf
    ensures HeaderV1(buf[0x40..0x54], buf.Length as bv32, entry)
    ensures forall k :: 0 <= k < buf.Length && !(0x40 <= k < 0x54) ==> buf[k] == old(buf[k])
  {
    var size := buf.Length as bv32;
    PrefixV1Ok(size, entry);
    SummedOk(PrefixV1(size, entry));
    PutSummed(buf, PrefixV1(size, entry));
    HeaderV1Ok(PrefixV1(size, entry), Summed(PrefixV1(size, entry)), size, entry);
    assert buf[0x40..0x54] == buf[..][0x40..0x54];
  }

  /** The header checks alone. */
  predicate Headed(s: seq<bv8>, start: bv32, version: nat)
    requires version <= 1 && HeaderEnd(start, version) <= |s| < 0x4_0000
  {
    if version == 0 then HeaderV0(s[0x40..0x50], |s| as bv32, start) else EntryV1(s, start)
  }

  method PutHeader(buf: array<bv8>, start: bv32, version: nat)
    requires version <= 1 && HeaderEnd(start, version) <= buf.Length < 0x4_0000 && Aligned(start)
    modifies buf
    ensures Headed(buf[..], start, version)
    ensures forall k :: 0 <= k < buf.Length && !(0x40 <= k < HeaderEnd(start, version)) ==> buf[k] == old(buf[k])
  {
    if version == 0 {
      PutHeaderV0(buf, start);
      assert buf[..][0x40..0x50] == buf[0x40..0x50];
    } else if start < 0x40 {
      PutTrampoline(buf, start);
    } else {
      PutHeaderV1(buf, start - 0x40);
      assert buf[..][0x40..0x54] == buf[0x40..0x54];
    }
  }

  /** The ROM cannot enter before the header: a branch behind it leads there. */
  method PutTrampoline(buf: array<bv8>, start: bv32)
    requires 0x58 <= buf.Length < 0x4_0000 && start < 0x40 && Aligned(start)
    modifies buf
    ensures EntryV1(buf[..], start)
    ensures forall k :: 0 <= k < buf.Length && !(0x40 <= k < 0x58) ==> buf[k] == old(buf[k])
  {
    BranchRoundTrip(0x54, start);
    Write(buf, 0x54, BranchSeq(0x54, start));
    assert buf[0x54..0x58] == buf[..][0x54..0x58] == BranchSeq(0x54, start);
    ghost var trampoline := buf[0x54..0x58];
    PutHeaderV1(buf, 0x14);
    assert buf[..][0x54..0x58] == buf[0x54..0x58] == trampoline && buf[..][0x40..0x54] == buf[0x40..0x54];
  }

  /** The CRC comes last; with room for it, it leaves the header alone. */
  method Seal(buf: array<bv8>, start: bv32, version: nat)
    requires version <= 1 && HeaderEnd(start, version) <= buf.Length < 0x4_0000 && Headed(buf[..], start, version)
    modifies buf
    ensures CrcOk(buf[..])
    ensures Room(buf.Length, start, version) ==> Bootable(buf[..], start, version)
    ensures version == 1 && start < 0x40 ==> Entered(buf[..])
    ensures forall k :: 0 <= k < buf.Length - 4 ==> buf[k] == old(buf[k])
  {
    ghost var headed := buf[..];
    PutCrc(buf);
    assert headed[..|headed|-4] == buf[..][..|headed|-4];
    if Room(buf.Length, start, version) { HeadedStays(headed, buf[..], start, version); }
    if version == 1 && start < 0x40 { EnteredStays(headed, buf[..], start); }
    forall k | 0 <= k < buf.Length - 4
      ensures buf[k] == old(buf[k])
    {
      assert buf[..][..|headed|-4][k] == headed[..|headed|-4][k];
    }
  }

  /** How adding the header ends; a header or trampoline that does not fit is written behind the buffer. */
  datatype Sealing = Refused | Overrun | Sealed

  /**
   add_socfpga_header: refuses a size that is not a multiple of four, else leaves a bootable
   image if there is room.  Without room for the CRC it overwrites the last word of the header
   or the trampoline; without room for these they go outside the buffer.
   */
  method AddHeader(buf: array<bv8>, start: bv32, version: nat) returns (end: Sealing)
    requires version <= 1 && buf.Length < 0x4_0000 && Aligned(start)
    modifies buf
    ensures end.Refused? <==> buf.Length % 4 != 0
    ensures end.Overrun? <==> buf.Length % 4 == 0 && buf.Length < HeaderEnd(start, version)
    ensures end.Refused? ==> buf[..] == old(buf[..])
    ensures end.Sealed? ==> CrcOk(buf[..])
    ensures end.Sealed? && Room(buf.Length, start, version) ==> Bootable(buf[..], start, version)
    ensures end.Sealed? && version == 1 && start < 0x40 ==> Entered(buf[..])
    ensures forall k :: 0 <= k < buf.Length - 4 && !(0x40 <= k < HeaderEnd(start, version)) ==> buf[k] == old(buf[k])
  {
    if buf.Length % 4 != 0 { return Refused; }
    if buf.Length < HeaderEnd(start, version) { return Overrun; }
    PutHeader(buf, start, version);
    Seal(buf, start, version);
    end := Sealed;
  }

  lemma SliceStays<T>(s: seq<T>, t: seq<T>, n: nat, i: nat, j: nat)
    requires n <= |s| && n <= |t| && s[..n] == t[..n] && i <= j <= n
    ensures s[i..j] == t[i..j]
  {
    assert s[i..j] == s[..n][i..j] && t[i..j] == t[..n][i..j];
  }

  lemma EntryV1Stays(s: seq<bv8>, t: seq<bv8>, start: bv32)
    requires HeaderEnd(start, 1) <= |s| == |t| < 0x4_0000 && EntryV1(s, start)
    requires s[0x40..0x54] == t[0x40..0x54] && (start < 0x40 ==> s[0x54..0x58] == t[0x54..0x58])
    ensures EntryV1(t, start)
  {
  }

  lemma HeadedStaysV0(s: seq<bv8>, t: seq<bv8>, start: bv32)
    requires |s| == |t| < 0x4_0000 && Room(|s|, start, 0) && Headed(s, start, 0) && s[..|s|-4] == t[..|s|-4]
    ensures Headed(t, start, 0)
  {
    SliceStays(s, t, |s| - 4, 0x40, 0x50);
    HeaderV0Stays(s[0x40..0x50], t[0x40..0x50], |s| as bv32, start);
  }

  lemma HeaderV0Stays(h: seq<bv8>, k: seq<bv8>, size: bv32, start: bv32)
    requires |h| == 16 && h == k && HeaderV0(h, size, start)
    ensures HeaderV0(k, size, start)
  {
  }

  lemma HeadedStaysV1(s: seq<bv8>, t: seq<bv8>, start: bv32)
    requires |s| == |t| < 0x4_0000 && Room(|s|, start, 1) && Headed(s, start, 1) && s[..|s|-4] == t[..|s|-4]
    ensures Headed(t, start, 1)
  {
    SliceStays(s, t, |s| - 4, 0x40, 0x54);
    if start < 0x40 { SliceStays(s, t, |s| - 4, 0x54, 0x58); }
    EntryV1Stays(s, t, start);
  }

  lemma EnteredStays(s: seq<bv8>, t: seq<bv8>, start: bv32)
    requires 0x58 <= |s| == |t| < 0x4_0000 && start < 0x40 && EntryV1(s, start) && s[..|s|-4] == t[..|s|-4]
    ensures Entered(t)
  {
    SliceStays(s, t, |s| - 4, 0x40, 0x54);
  }

  lemma HeadedStays(s: seq<bv8>, t: seq<bv8>, start: bv32, version: nat)
    requires version <= 1 && |s| == |t| < 0x4_0000 && Room(|s|, start, version) && Headed(s, start, version)
    requires s[..|s|-4] == t[..|s|-4]
    ensures Headed(t, start, version)
  {
    if version == 0 { HeadedStaysV0(s, t, start); } else { HeadedStaysV1(s, t, start); }
  }

  // ---- main: size limits and padding ----

  /** The limits and the padded total size of an image; 512 bytes more with a barebox header. */
  function AddedSize(barebox: bool): nat { if barebox then 512 else 0 }

  predicate SizeAdmitted(n: nat, version: nat, barebox: bool) {
    (if barebox then 0 else 80) <= n <= (if version == 0 then MAX_V0 else MAX_V1) - AddedSize(barebox)
  }

  function Padding(n: nat): nat { if n % 4 == 0 then 0 else 4 - n % 4 }

  function TotalSize(n: nat, barebox: bool): nat { n + 4 + AddedSize(barebox) + Padding(n) }

  const BAREBOX_HEADER: seq<bv32> := [
    0xea00007e, 0xeafffffe, 0xeafffffe, 0xeafffffe, 0xeafffffe, 0xeafffffe, 0xeafffffe, 0xeafffffe,
    0x65726162, 0x00786f62, 0, 0, 0, 0, 0, 0, 0, 0, 0, 0xea00006b]

  function BytesOf(words: seq<bv32>): (s: seq<bv8>)
    ensures |s| == 4 * |words|
  {
    if words == [] then [] else WordBytes(words[0]) + BytesOf(words[1..])
  }

  /** An admitted image has room unless it is a version 1 image of at most 84 bytes without a barebox header. */
  lemma AdmittedHasRoom(n: nat, version: nat, barebox: bool)
    requires version <= 1 && SizeAdmitted(n, version, barebox)
    ensures TotalSize(n, barebox) % 4 == 0 && TotalSize(n, barebox) < 0x4_0000
    ensures Room(TotalSize(n, barebox), StartAddress(barebox), version) <==> !(version == 1 && !barebox && n <= 84)
    ensures HeaderEnd(StartAddress(barebox), version) <= TotalSize(n, barebox) <==>
            !(version == 1 && !barebox && n == 80)
  {
  }

  /** Sizes at which the trampoline still fits but the CRC overwrites it. */
  predicate Tight(n: nat, version: nat, barebox: bool) { version == 1 && !barebox && 80 < n <= 84 }

  /** Header and CRC are right, and the ROM enters the word that holds the CRC. */
  predicate Overwritten(s: seq<bv8>) { |s| == 0x58 && Entered(s) && CrcOk(s) }

  function StartAddress(barebox: bool): bv32 { if barebox then 0x200 else 0 }

  /** Bytes of the input that the header does not overwrite. */
  predicate Untouched(k: nat, version: nat, barebox: bool) {
    barebox || !(0x40 <= k < if version == 0 then 0x50 else 0x58)
  }

  /** What becomes of an input: it is too small or too big, the header overflows the buffer, or an image results. */
  datatype Outcome = Rejected | Overflow | Image(bytes: seq<bv8>)

  /**
   The whole tool: refuses inputs outside the limits; otherwise pads the input, puts it behind
   the barebox header `front` if asked to, and makes it a bootable image that starts at the input.
   Version 1 images of 81 to 84 bytes without barebox header come out with a correct CRC and
   header, but the word that should lead to the start is the CRC itself; for 80 bytes the
   trampoline is written behind the buffer.
   */
  method MakeImage(data: seq<bv8>, version: nat, barebox: bool, front: seq<bv8>) returns (image: Outcome)
    requires version <= 1 && |front| == 80
    ensures image.Rejected? <==> !SizeAdmitted(|data|, version, barebox)
    ensures image.Overflow? <==> version == 1 && !barebox && |data| == 80
    ensures image.Image? ==> |image.bytes| == TotalSize(|data|, barebox)
    ensures image.Image? && !Tight(|data|, version, barebox) ==> Bootable(image.bytes, StartAddress(barebox), version)
    ensures image.Image? && Tight(|data|, version, barebox) ==> Overwritten(image.bytes)
    ensures image.Image? && barebox ==> StartsWith(image.bytes, front, 0x40)
    ensures image.Image? ==>
              forall k :: 0 <= k < |data| && Untouched(k, version, barebox) ==>
                image.bytes[AddedSize(barebox) + k] == data[k]
  {
    if !SizeAdmitted(|data|, version, barebox) { return Rejected; }
    if version == 1 && !barebox && |data| <= 84 {
      image := MakeTight(data);
    } else if barebox {
      var s := MakeBehind(data, front, version);
      image := Image(s);
    } else {
      var s := MakePlain(data, version);
      image := Image(s);
    }
  }

  /** The first `n` bytes of the image are those of `front`. */
  predicate StartsWith<T(==)>(image: seq<T>, front: seq<T>, n: nat) {
    n <= |image| && n <= |front| && image[..n] == front[..n]
  }

  lemma StartStands<T>(image: seq<T>, front: seq<T>, n: nat)
    requires n <= |image| && n <= |front| && forall k :: 0 <= k < n ==> image[k] == front[k]
    ensures StartsWith(image, front, n)
  {
  }

  lemma FirstWord(words: seq<bv32>)
    requires words != []
    ensures BytesOf(words)[..4] == WordBytes(words[0])
  {
  }

  lemma BranchWord()
    ensures LeadsTo(0, 0x200, WordBytes(0xea00007e))
  {
  }

  /** An image that starts with the barebox header starts with a branch to the input behind it. */
  lemma FrontBranches(image: seq<bv8>, front: seq<bv8>)
    requires StartsWith(image, front, 0x40) && front[..4] == WordBytes(0xea00007e)
    ensures LeadsTo(0, 0x200, image[..4])
  {
    BranchWord();
    assert image[..4] == image[..0x40][..4] && front[..4] == front[..0x40][..4];
  }

  method MakePlain(data: seq<bv8>, version: nat) returns (image: seq<bv8>)
    requires version <= 1 && SizeAdmitted(|data|, version, false) && !(version == 1 && |data| <= 84)
    ensures |image| == TotalSize(|data|, false) && Bootable(image, 0, version)
    ensures forall k :: 0 <= k < |data| && Untouched(k, version, false) ==> image[k] == data[k]
  {
    AdmittedHasRoom(|data|, version, false);
    StartAligned(false, version);
    image := MakeFrom(data, [], 0, TotalSize(|data|, false), 0, version);
  }

  /** `front` is the 80 byte header that goes before the input. */
  method MakeBehind(data: seq<bv8>, front: seq<bv8>, version: nat) returns (image: seq<bv8>)
    requires version <= 1 && SizeAdmitted(|data|, version, true) && |front| == 80
    ensures |image| == TotalSize(|data|, true) && Bootable(image, 0x200, version)
    ensures forall k :: 0 <= k < |data| ==> image[512 + k] == data[k]
    ensures StartsWith(image, front, 0x40)
  {
    AdmittedHasRoom(|data|, version, true);
    StartAligned(true, version);
    image := MakeFrom(data, front, 512, TotalSize(|data|, true), 0x200, version);
    StartStands(image, front, 0x40);
  }

  method MakeTight(data: seq<bv8>) returns (image: Outcome)
    requires 80 <= |data| <= 84
    ensures image.Overflow? <==> |data| == 80
    ensures image.Image? <==> |data| > 80
    ensures image.Image? ==> |image.bytes| == TotalSize(|data|, false) && Overwritten(image.bytes)
    ensures image.Image? ==> forall k :: 0 <= k < |data| && Untouched(k, 1, false) ==> image.bytes[k] == data[k]
  {
    var buf := Place(0, TotalSize(|data|, false), 0, data, []);
    var end := AddHeader(buf, 0, 1);
    image := if end.Sealed? then Image(buf[..]) else Overflow;
  }

  /** Places the input and what goes before it, then adds the header. */
  method MakeFrom(data: seq<bv8>, front: seq<bv8>, at: nat, length: nat, start: bv32, version: nat)
    returns (image: seq<bv8>)
    requires version <= 1 && |front| <= at && at + |data| <= length - 4
    requires length < 0x4_0000 && length % 4 == 0 && Room(length, start, version) && Aligned(start)
    ensures |image| == length && Bootable(image, start, version)
    ensures forall k :: 0 <= k < |front| && !(0x40 <= k < HeaderEnd(start, version)) ==> image[k] == front[k]
    ensures forall k :: 0 <= k < |data| && !(0x40 <= at + k < HeaderEnd(start, version)) ==> image[at + k] == data[k]
  {
    var buf := Place(0, length, at, data, front);
    ghost var placed := buf[..];
    assert forall k :: 0 <= k < |front| ==> placed[k] == buf[..|front|][k];
    var end := AddHeader(buf, start, version);
    image := buf[..];
  }

  lemma BareboxLength()
    ensures |BytesOf(BAREBOX_HEADER)| == 80
  {
  }

  lemma StartAligned(barebox: bool, version: nat)
    ensures Aligned(StartAddress(barebox))
    ensures HeaderEnd(StartAddress(barebox), version) == if version == 0 then 0x50 else if barebox then 0x54 else 0x58
  {
  }

  /** A new buffer of `zero`s with `data` at `at` and `front`, which does not reach it, at the beginning. */
  method Place<T>(zero: T, length: nat, at: nat, data: seq<T>, front: seq<T>) returns (buf: array<T>)
    requires |front| <= at && at + |data| <= length
    ensures fresh(buf) && buf.Length == length
    ensures (forall k :: 0 <= k < |data| ==> buf[at + k] == data[k]) && buf[..|front|] == front
  {
    buf := new T[length](_ => zero);
    Write(buf, at, data);
    assert buf[at..at+|data|] == buf[..][at..at+|data|];
    ghost var before := buf[..];
    Write(buf, 0, front);
    assert buf[..][0..|front|] == buf[..|front|];
    forall k | 0 <= k < |data|
      ensures buf[at + k] == data[k]
    {
      assert before[at + k] == before[at..at+|data|][k];
    }
  }

  /** With the barebox header of the tool the image starts with a branch to the input. */
  method BareboxImage(data: seq<bv8>, version: nat) returns (image: Outcome)
    requires version <= 1
    ensures image.Image? <==> SizeAdmitted(|data|, version, true)
    ensures image.Image? ==> |image.bytes| >= 4 && LeadsTo(0, 0x200, image.bytes[..4])
    ensures image.Image? ==> Bootable(image.bytes, 0x200, version)
  {
    var front := BytesOf(BAREBOX_HEADER);
    BareboxLength();
    image := MakeImage(data, version, true, front);
    if image.Image? {
      FirstWord(BAREBOX_HEADER);
      FrontBranches(image.bytes, front);
    }
  }
}
