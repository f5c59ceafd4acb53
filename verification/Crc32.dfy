/** The checksum of a record around its checksum field, by table and by bits. */
module Crc32 {
  import opened CrcTable

  const XINIT: bv32 := 0xFFFFFFFF
  const XOROT: bv32 := 0xFFFFFFFF

  // ---------- bit by bit ----------

  // The remainder after one more byte, the bits low-order first.
  function Feed(crc: bv32, b: bv8): bv32 {
    Shift8(With(crc, b))
  }

  // The next byte added to the remainder.
  function With(crc: bv32, b: bv8): bv32 {
    crc ^ (b as bv32)
  }

  function FeedAll(crc: bv32, s: seq<bv8>): bv32
    decreases |s|
  {
    if s == [] then crc else Feed(FeedAll(crc, s[..|s| - 1]), s[|s| - 1])
  }

  // CRC-32 as in section 8 of RFC 1952.
  function Crc(s: seq<bv8>): bv32 {
    Out(FeedAll(XINIT, s))
  }

  function Out(crc: bv32): bv32 {
    crc ^ XOROT
  }

  // Where a field begins whose position counts from 1; position 0 stands for 1.
  function Start(pos: nat): nat {
    if pos == 0 then 0 else pos - 1
  }

  // The record of reclen bytes at the head of a buffer, without the field.  A field
  // may begin behind the record; what is in front of it is taken in any case.
  function Cut(buf: seq<bv8>, reclen: nat, pos: nat, len: nat): seq<bv8>
    requires reclen <= |buf| && Start(pos) <= |buf|
  {
    buf[..Start(pos)] + if Start(pos) + len <= reclen then buf[Start(pos) + len..reclen] else []
  }

  // ---------- byte by byte ----------

  lemma LowBit(x: bv32)
    ensures x & 1 == 0 || x & 1 == 1
  {
  }

  lemma XorPoly(x: bv32, y: bv32)
    ensures (x ^ POLY) ^ (y ^ POLY) == x ^ y && (x ^ POLY) ^ y == (x ^ y) ^ POLY && x ^ (y ^ POLY) == (x ^ y) ^ POLY
  {
  }

  // z is the sum of x and y, without carries.
  predicate Sum(x: bv32, y: bv32, z: bv32) {
    z == x ^ y
  }

  // Division is linear: the remainders of two numbers add up.
  lemma Shift1Linear(x: bv32, y: bv32, z: bv32)
    requires Sum(x, y, z)
    ensures Sum(Shift1(x), Shift1(y), Shift1(z))
  {
    LowBit(x);
    LowBit(y);
    XorPoly(x >> 1, y >> 1);
  }

  // One shift of a number whose low bits are clear.
  lemma ShiftClear(c: bv32, mask: bv32)
    requires c & ((mask << 1) | 1) == 0
    ensures Shift1(c) == c >> 1 && Shift1(c) & mask == 0
  {
  }

  // Eight bits of division never look beyond the low byte.
  lemma Shift8High(c: bv32)
    requires c & 0xFF == 0
    ensures Shift8(c) == c >> 8
  {
    hide Shift1;
    ShiftClear(c, 0x7F);
    var c1 := Shift1(c);
    ShiftClear(c1, 0x3F);
    var c2 := Shift1(c1);
    ShiftClear(c2, 0x1F);
    var c3 := Shift1(c2);
    ShiftClear(c3, 0xF);
    var c4 := Shift1(c3);
    ShiftClear(c4, 0x7);
    var c5 := Shift1(c4);
    ShiftClear(c5, 0x3);
    var c6 := Shift1(c5);
    ShiftClear(c6, 0x1);
    var c7 := Shift1(c6);
    ShiftClear(c7, 0x0);
  }

  lemma Shift8Linear(x: bv32, y: bv32, z: bv32)
    requires Sum(x, y, z)
    ensures Sum(Shift8(x), Shift8(y), Shift8(z))
  {
    hide Shift1, Sum;
    Shift1Linear(x, y, z);
    var x1, y1, z1 := Shift1(x), Shift1(y), Shift1(z);
    Shift1Linear(x1, y1, z1);
    var x2, y2, z2 := Shift1(x1), Shift1(y1), Shift1(z1);
    Shift1Linear(x2, y2, z2);
    var x3, y3, z3 := Shift1(x2), Shift1(y2), Shift1(z2);
    Shift1Linear(x3, y3, z3);
    var x4, y4, z4 := Shift1(x3), Shift1(y3), Shift1(z3);
    Shift1Linear(x4, y4, z4);
    var x5, y5, z5 := Shift1(x4), Shift1(y4), Shift1(z4);
    Shift1Linear(x5, y5, z5);
    var x6, y6, z6 := Shift1(x5), Shift1(y5), Shift1(z5);
    Shift1Linear(x6, y6, z6);
    Shift1Linear(Shift1(x6), Shift1(y6), Shift1(z6));
  }

  function Low(x: bv32): bv8 {
    (x & 0xFF) as bv8
  }

  function High(x: bv32): bv32 {
    x & 0xFFFFFF00
  }

  function Above(x: bv32): bv32 {
    x >> 8
  }

  lemma Halves(x: bv32)
    ensures Sum(Low(x) as bv32, High(x), x) && High(x) & 0xFF == 0 && Above(High(x)) == Above(x)
  {
  }

  lemma ByHalves(x: bv32, low: bv8, high: bv32)
    requires Sum(low as bv32, high, x) && high & 0xFF == 0
    ensures Sum(Table(low), Above(high), Shift8(x))
  {
    hide Table, Shift8, Sum;
    Shift8Linear(low as bv32, high, x);
    Shift8High(high);
    TableIs(low);
  }

  // The step as the code takes it.
  function Step(crc: bv32, b: bv8): bv32 {
    Table(Low(With(crc, b))) ^ Above(crc)
  }

  lemma StepSum(crc: bv32, b: bv8)
    ensures Sum(Table(Low(With(crc, b))), Above(With(crc, b)), Step(crc, b))
  {
    hide Table, Low;
  }

  lemma SumUnique(x: bv32, y: bv32, z: bv32, z': bv32)
    requires Sum(x, y, z) && Sum(x, y, z')
    ensures z == z'
  {
  }

  /** One step by the table is eight steps by bits. */
  lemma StepIsFeed(crc: bv32, b: bv8)
    ensures Step(crc, b) == Feed(crc, b)
  {
    hide Table, Shift8, Step, Sum, Low, High, Above, With;
    var x := With(crc, b);
    Halves(x);
    ByHalves(x, Low(x), High(x));
    StepSum(crc, b);
    SumUnique(Table(Low(x)), Above(x), Step(crc, b), Feed(crc, b));
  }

  lemma FeedOne(crc: bv32, s: seq<bv8>, b: bv8)
    ensures FeedAll(crc, s + [b]) == Step(FeedAll(crc, s), b)
  {
    hide Step, Feed;
    assert (s + [b])[..|s|] == s;
    StepIsFeed(FeedAll(crc, s), b);
  }

  // The bytes before the field; j counts positions from 1.
  method FeedBefore(buf: seq<bv8>, checksumpos: nat) returns (crc: bv32, p: nat, j: nat)
    requires Start(checksumpos) <= |buf|
    ensures p == Start(checksumpos) && j == p + 1
    ensures crc == FeedAll(XINIT, buf[..p])
  {
    hide Step, FeedAll;
    crc, p, j := XINIT, 0, 1;
    FeedNone();
    assert buf[..0] == [];
    while j < checksumpos
      invariant p == j - 1 && (p == 0 || j <= checksumpos)
      invariant crc == FeedAll(XINIT, buf[..p])
    {
      FeedOne(XINIT, buf[..p], buf[p]);
      assert buf[..p + 1] == buf[..p] + [buf[p]];
      crc := Step(crc, buf[p]);
      p, j := p + 1, j + 1;
    }
  }

  lemma FeedNone()
    ensures FeedAll(XINIT, []) == XINIT
  {
  }

  // The bytes behind it.
  method FeedRest(buf: seq<bv8>, reclen: nat, from: nat, crc0: bv32, ghost before: seq<bv8>) returns (crc: bv32)
    requires reclen <= |buf| && crc0 == FeedAll(XINIT, before)
    ensures crc == FeedAll(XINIT, before + if from <= reclen then buf[from..reclen] else [])
  {
    hide Step, FeedAll;
    crc := crc0;
    var p, j := from, from + 1;
    ghost var seen := before;
    assert before + [] == before;
    while j <= reclen
      invariant p == j - 1 >= from && (p == from || p <= reclen)
      invariant seen == before + if p <= reclen then buf[from..p] else []
      invariant crc == FeedAll(XINIT, seen)
    {
      FeedOne(XINIT, seen, buf[p]);
      assert buf[from..p + 1] == buf[from..p] + [buf[p]];
      seen := seen + [buf[p]];
      crc := Step(crc, buf[p]);
      p, j := p + 1, j + 1;
    }
  }

  /** CalcCRC32, for a field that starts within the buffer or right behind it: the
      CRC of the record with the field cut out. */
  method CalcCRC32(buf: seq<bv8>, reclen: nat, checksumpos: nat, checksumlen: nat) returns (r: bv32)
    requires reclen <= |buf| && Start(checksumpos) <= |buf|
    ensures r == Crc(Cut(buf, reclen, checksumpos, checksumlen))
  {
    hide FeedAll, Out;
    var crc, p, j := FeedBefore(buf, checksumpos);
    crc := FeedRest(buf, reclen, p + checksumlen, crc, buf[..p]);
    r := Out(crc);
  }

  // The remainder of the first k bytes.
  predicate Reached(s: seq<bv8>, k: nat, crc: bv32) {
    k <= |s| && FeedAll(XINIT, s[..k]) == crc
  }

  lemma FeedNext(s: seq<bv8>, k: nat, b: bv8, crc: bv32, crc': bv32)
    requires k < |s| && s[k] == b && Reached(s, k, crc) && Feed(crc, b) == crc'
    ensures Reached(s, k + 1, crc')
  {
    hide Feed;
    assert s[..k + 1][..k] == s[..k];
  }

  lemma OneToFour(s: seq<bv8>)
    requires |s| == 9 && s[0] == 0x31 && s[1] == 0x32 && s[2] == 0x33 && s[3] == 0x34
    ensures Reached(s, 4, 0x641C1F5C)
  {
    assert s[..0] == [];
    assert Reached(s, 0, 0xFFFFFFFF);
    hide Reached, Feed;
    assert Feed(0xFFFFFFFF, 0x31) == 0x7C231048 && Feed(0x7C231048, 0x32) == 0xB0ACBB32
      && Feed(0xB0ACBB32, 0x33) == 0x77B79C2D && Feed(0x77B79C2D, 0x34) == 0x641C1F5C by {
      Remainders();
    }
    FeedNext(s, 0, 0x31, 0xFFFFFFFF, 0x7C231048);
    FeedNext(s, 1, 0x32, 0x7C231048, 0xB0ACBB32);
    FeedNext(s, 2, 0x33, 0xB0ACBB32, 0x77B79C2D);
    FeedNext(s, 3, 0x34, 0x77B79C2D, 0x641C1F5C);
  }

  lemma FiveToNine(s: seq<bv8>)
    requires |s| == 9 && Reached(s, 4, 0x641C1F5C)
    requires s[4] == 0x35 && s[5] == 0x36 && s[6] == 0x37 && s[7] == 0x38 && s[8] == 0x39
    ensures Reached(s, 9, 0x340BC6D9)
  {
    hide Reached, Feed;
    assert Feed(0x641C1F5C, 0x35) == 0x340AC5E3 && Feed(0x340AC5E3, 0x36) == 0xF68D2C9E
      && Feed(0xF68D2C9E, 0x37) == 0xAFFC9660 && Feed(0xAFFC9660, 0x38) == 0x651F2550
      && Feed(0x651F2550, 0x39) == 0x340BC6D9 by {
      Remainders();
    }
    FeedNext(s, 4, 0x35, 0x641C1F5C, 0x340AC5E3);
    FeedNext(s, 5, 0x36, 0x340AC5E3, 0xF68D2C9E);
    FeedNext(s, 6, 0x37, 0xF68D2C9E, 0xAFFC9660);
    FeedNext(s, 7, 0x38, 0xAFFC9660, 0x651F2550);
    FeedNext(s, 8, 0x39, 0x651F2550, 0x340BC6D9);
  }

  lemma Remainders()
    ensures Feed(0xFFFFFFFF, 0x31) == 0x7C231048 && Feed(0x7C231048, 0x32) == 0xB0ACBB32
    ensures Feed(0xB0ACBB32, 0x33) == 0x77B79C2D && Feed(0x77B79C2D, 0x34) == 0x641C1F5C
    ensures Feed(0x641C1F5C, 0x35) == 0x340AC5E3 && Feed(0x340AC5E3, 0x36) == 0xF68D2C9E
    ensures Feed(0xF68D2C9E, 0x37) == 0xAFFC9660 && Feed(0xAFFC9660, 0x38) == 0x651F2550
    ensures Feed(0x651F2550, 0x39) == 0x340BC6D9
  {
  }

  /** The check value of CRC-32: that of the digits 1 to 9. */
  lemma CheckValue()
    ensures Crc([0x31, 0x32, 0x33, 0x34, 0x35, 0x36, 0x37, 0x38, 0x39]) == 0xCBF43926
  {
    hide FeedAll;
    var s: seq<bv8> := [0x31, 0x32, 0x33, 0x34, 0x35, 0x36, 0x37, 0x38, 0x39];
    OneToFour(s);
    FiveToNine(s);
    assert s[..9] == s;
  }

  /** A field of len bytes at position pos, counted from 1, within the record: the bytes
      that count are those at positions below pos and from pos + len on. */
  lemma CutWithin(buf: seq<bv8>, reclen: nat, pos: nat, len: nat)
    requires 1 <= pos && pos - 1 + len <= reclen <= |buf|
    ensures |Cut(buf, reclen, pos, len)| == reclen - len
    ensures forall i :: 0 <= i < pos - 1 ==> Cut(buf, reclen, pos, len)[i] == buf[i]
    ensures forall i :: pos - 1 <= i < reclen - len ==> Cut(buf, reclen, pos, len)[i] == buf[i + len]
    ensures pos == 1 ==> Cut(buf, reclen, 0, len) == Cut(buf, reclen, 1, len)
  {
  }

  // ---------- what the checksum is good for ----------

  // The bytes that count are those in front of the field, and those of the record
  // behind it.
  predicate Counts(reclen: nat, pos: nat, len: nat, i: nat) {
    i < Start(pos) || Start(pos) + len <= i < reclen
  }

  /** The bytes of the field do not matter. */
  lemma FieldIgnored(buf: seq<bv8>, buf': seq<bv8>, reclen: nat, pos: nat, len: nat)
    requires |buf| == |buf'| && reclen <= |buf| && Start(pos) <= |buf|
    requires forall i :: 0 <= i < |buf| && Counts(reclen, pos, len, i) ==> buf[i] == buf'[i]
    ensures Crc(Cut(buf, reclen, pos, len)) == Crc(Cut(buf', reclen, pos, len))
  {
    assert Cut(buf, reclen, pos, len) == Cut(buf', reclen, pos, len);
  }

  /** Without a field it is the CRC of the whole record; a position behind the record
      only makes it longer. */
  lemma NoField(buf: seq<bv8>, reclen: nat, pos: nat)
    requires reclen <= |buf| && Start(pos) <= |buf|
    ensures Crc(Cut(buf, reclen, pos, 0)) == Crc(buf[..if Start(pos) <= reclen then reclen else Start(pos)])
  {
    assert Start(pos) <= reclen ==> Cut(buf, reclen, pos, 0) == buf[..reclen];
    assert Start(pos) > reclen ==> Cut(buf, reclen, pos, 0) == buf[..Start(pos)];
  }

  lemma Shift1Injective(x: bv32, y: bv32)
    requires Shift1(x) == Shift1(y)
    ensures x == y
  {
  }

  lemma Shift8Injective(x: bv32, y: bv32)
    requires Shift8(x) == Shift8(y)
    ensures x == y
  {
    hide Shift1;
    var x1, y1 := Shift1(x), Shift1(y);
    var x2, y2 := Shift1(x1), Shift1(y1);
    var x3, y3 := Shift1(x2), Shift1(y2);
    var x4, y4 := Shift1(x3), Shift1(y3);
    var x5, y5 := Shift1(x4), Shift1(y4);
    var x6, y6 := Shift1(x5), Shift1(y5);
    Shift1Injective(Shift1(x6), Shift1(y6));
    Shift1Injective(x6, y6);
    Shift1Injective(x5, y5);
    Shift1Injective(x4, y4);
    Shift1Injective(x3, y3);
    Shift1Injective(x2, y2);
    Shift1Injective(x1, y1);
    Shift1Injective(x, y);
  }

  lemma FeedInjective(c: bv32, d: bv32, a: bv8, b: bv8)
    requires Feed(c, a) == Feed(d, b)
    ensures a == b ==> c == d
    ensures c == d ==> a == b
  {
    hide Shift8;
    Shift8Injective(With(c, a), With(d, b));
    XorInjective(c, d, a, b);
  }

  lemma XorInjective(c: bv32, d: bv32, a: bv8, b: bv8)
    requires With(c, a) == With(d, b)
    ensures a == b ==> c == d
    ensures c == d ==> a == b
  {
  }

  // From different remainders the same bytes lead to different remainders.
  lemma {:induction false} StaysDifferent(c: bv32, d: bv32, s: seq<bv8>)
    requires c != d
    ensures FeedAll(c, s) != FeedAll(d, s)
    decreases |s|
  {
    hide Feed;
    if s != [] {
      var t, b := s[..|s| - 1], s[|s| - 1];
      StaysDifferent(c, d, t);
      if Feed(FeedAll(c, t), b) == Feed(FeedAll(d, t), b) {
        FeedInjective(FeedAll(c, t), FeedAll(d, t), b, b);
      }
    }
  }

  lemma {:induction false} FeedTwoParts(c: bv32, s: seq<bv8>, t: seq<bv8>)
    ensures FeedAll(c, s + t) == FeedAll(FeedAll(c, s), t)
    decreases |t|
  {
    hide Feed;
    if t == [] {
      assert s + t == s;
    } else {
      var n := |t| - 1;
      assert (s + t)[..|s| + n] == s + t[..n];
      FeedTwoParts(c, s, t[..n]);
    }
  }

  lemma ByteShows(s: seq<bv8>, a: bv8, b: bv8, t: seq<bv8>)
    requires a != b
    ensures Crc(s + [a] + t) != Crc(s + [b] + t)
  {
    hide Feed;
    var c := FeedAll(XINIT, s);
    FeedTwoParts(XINIT, s + [a], t);
    FeedTwoParts(XINIT, s + [b], t);
    FeedTwoParts(XINIT, s, [a]);
    FeedTwoParts(XINIT, s, [b]);
    assert [a][..0] == [] && [b][..0] == [];
    if Feed(c, a) == Feed(c, b) {
      FeedInjective(c, c, a, b);
    }
    StaysDifferent(Feed(c, a), Feed(c, b), t);
  }

  /** Changing one byte that counts always changes the checksum. */
  lemma OneByteShows(buf: seq<bv8>, buf': seq<bv8>, reclen: nat, pos: nat, len: nat, i: nat)
    requires |buf| == |buf'| && reclen <= |buf| && Start(pos) <= |buf| && i < |buf|
    requires Counts(reclen, pos, len, i) && buf[i] != buf'[i]
    requires forall k :: 0 <= k < |buf| && k != i ==> buf[k] == buf'[k]
    ensures Crc(Cut(buf, reclen, pos, len)) != Crc(Cut(buf', reclen, pos, len))
  {
    hide Crc, Feed, Cut;
    var c, d := Cut(buf, reclen, pos, len), Cut(buf', reclen, pos, len);
    var j := if i < Start(pos) then i else i - len;
    CutAt(buf, reclen, pos, len, i);
    CutAt(buf', reclen, pos, len, i);
    forall k | 0 <= k < |c| && k != j
      ensures c[k] == d[k]
    {
      CutAt(buf, reclen, pos, len, if k < Start(pos) then k else k + len);
      CutAt(buf', reclen, pos, len, if k < Start(pos) then k else k + len);
    }
    assert c == c[..j] + [c[j]] + c[j + 1..];
    assert d == c[..j] + [d[j]] + c[j + 1..];
    ByteShows(c[..j], c[j], d[j], c[j + 1..]);
  }

  // Where a byte that counts goes.
  lemma CutAt(buf: seq<bv8>, reclen: nat, pos: nat, len: nat, i: nat)
    requires reclen <= |buf| && Start(pos) <= |buf|
    ensures var c, j := Cut(buf, reclen, pos, len), if i < Start(pos) then i else i - len;
      && |c| == Start(pos) + (if Start(pos) + len <= reclen then reclen - Start(pos) - len else 0)
      && (Counts(reclen, pos, len, i) ==> i < |buf| && j < |c| && c[j] == buf[i])
  {
  }
}
