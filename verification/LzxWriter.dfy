/** An LZX stream as a sender writes it, digit by digit, and that every part of it is
    read as what was sent. */
module LzxWriter {
  import opened Wrappers
  import Arith
  import opened Shifts
  import opened Canonical
  import opened Huffman
  import opened BitReader
  import opened Lz77
  import opened PositionSlots
  import opened Tokens
  import opened BlockHeader
  import C = CodeLengths
  import L = LengthCoding

  // ---------- digits ----------

  // The last n binary digits of v, the first one first.
  function Digits(v: nat, n: nat): (s: seq<nat>)
    ensures |s| == n
  {
    if n == 0 then [] else Digits(v / 2, n - 1) + [v % 2]
  }

  // The stream has these digits from bit q on.
  ghost predicate Has(mem: Memory, q: nat, s: seq<nat>) {
    forall k :: 0 <= k < |s| ==> Bit(mem, q + k) == s[k]
  }

  lemma HasParts(mem: Memory, q: nat, a: seq<nat>, b: seq<nat>)
    requires Has(mem, q, a + b)
    ensures Has(mem, q, a) && Has(mem, q + |a|, b)
  {
    hide Bit;
    forall k | 0 <= k < |a|
      ensures Bit(mem, q + k) == a[k]
    {
      assert (a + b)[k] == a[k];
    }
    forall k | 0 <= k < |b|
      ensures Bit(mem, q + |a| + k) == b[k]
    {
      assert (a + b)[|a| + k] == b[k];
    }
  }

  /** A number is read as it was written. */
  lemma {:induction false} NumberRead(mem: Memory, q: nat, v: nat, n: nat)
    requires v < Shl(1, n) && Has(mem, q, Digits(v, n))
    ensures Val(mem, q, n) == v
    decreases n
  {
    hide Bit;
    if n > 0 {
      HasParts(mem, q, Digits(v / 2, n - 1), [v % 2]);
      assert [v % 2][0] == v % 2;
      ShlTwice(1, n - 1, 1);
      assert Shl(Shl(1, n - 1), 1) == 2 * Shl(1, n - 1);
      NumberRead(mem, q, v / 2, n - 1);
    }
  }

  function TwoTo(n: nat): (p: nat)
    ensures 0 < p
  {
    if n == 0 then 1 else 2 * TwoTo(n - 1)
  }

  lemma {:induction false} ShrIsDiv(x: nat, n: nat)
    ensures Shr(x, n) == x / TwoTo(n)
  {
    if n > 0 {
      ShrIsDiv(x, n - 1);
      HalfOf(x, TwoTo(n - 1));
    }
  }

  lemma HalfOf(x: nat, p: nat)
    requires 0 < p
    ensures x / p / 2 == x / (2 * p)
  {
    var a := x / p;
    var b := a / 2;
    assert x == a * p + x % p && a == 2 * b + a % 2;
    assert x == b * (2 * p) + (a % 2) * p + x % p;
    assert 0 <= (a % 2) * p + x % p < 2 * p by {
      if a % 2 == 1 {
        assert (a % 2) * p == p;
      } else {
        assert (a % 2) * p == 0;
      }
    }
    Arith.DivUnique(x, b, (a % 2) * p + x % p, 2 * p);
  }

  // The byte that bit q of the stream is read from: of two bytes the second comes first.
  function ByteOf(q: nat): nat {
    if q % 16 < 8 then 2 * (q / 16) + 1 else 2 * (q / 16)
  }

  /** Where the bits are: those of every second byte before those of the byte in front
      of it, in each byte the most significant first. */
  lemma BitIs(mem: Memory, q: nat)
    ensures Bit(mem, q) == mem(ByteOf(q)) / TwoTo(7 - q % 8) % 2
  {
    var i, k := q / 16, q % 16;
    var hi: nat, lo: nat := mem(2 * i + 1), mem(2 * i);
    ShrIsDiv(256 * hi + lo, 15 - k);
    if k < 8 {
      assert q % 8 == k;
      TwoParts(hi, lo, 7 - k);
    } else {
      assert q % 8 == k - 8;
      LowPart(hi, lo, 15 - k);
    }
  }

  lemma Eight()
    ensures TwoTo(0) == 1 && TwoTo(1) == 2 && TwoTo(2) == 4 && TwoTo(3) == 8 && TwoTo(4) == 16 && TwoTo(5) == 32
    ensures TwoTo(6) == 64 && TwoTo(7) == 128 && TwoTo(8) == 256
  {
    assert TwoTo(4) == 16 && TwoTo(6) == 4 * TwoTo(4) && TwoTo(8) == 4 * TwoTo(6);
  }

  lemma TwoParts(hi: nat, lo: nat, n: nat)
    requires hi < 256 && lo < 256 && n <= 7
    ensures (256 * hi + lo) / TwoTo(n + 8) % 2 == hi / TwoTo(n) % 2
  {
    ShrIsDiv(256 * hi + lo, n + 8);
    ShrIsDiv(hi, n);
    ShrTwice(256 * hi + lo, 8, n);
    ShrIsDiv(256 * hi + lo, 8);
    Eight();
    assert (256 * hi + lo) / 256 == hi;
  }

  lemma LowPart(hi: nat, lo: nat, n: nat)
    requires hi < 256 && lo < 256 && n <= 7
    ensures (256 * hi + lo) / TwoTo(n) % 2 == lo / TwoTo(n) % 2
  {
    TwoToAdd(n, 7 - n);
    Eight();
    EvenPart(hi, lo, TwoTo(n), TwoTo(7 - n));
  }

  lemma EvenPart(hi: nat, lo: nat, p: nat, m: nat)
    requires 0 < p && p * m == 128
    ensures (256 * hi + lo) / p % 2 == lo / p % 2
  {
    var w, a, r := m * hi, lo / p, lo % p;
    Reorder(p, m, hi);
    assert lo == a * p + r;
    Distribute(2 * w, a, p);
    assert 2 * w * p == 2 * (w * p);
    Arith.DivUnique(256 * hi + lo, 2 * w + a, r, p);
  }

  lemma Reorder(p: nat, m: nat, hi: nat)
    ensures (m * hi) * p == (p * m) * hi
  {
    assert (m * hi) * p == m * (hi * p) == m * (p * hi) == (m * p) * hi;
  }

  lemma Distribute(a: nat, b: nat, p: nat)
    ensures (a + b) * p == a * p + b * p
  {
  }

  lemma {:induction false} TwoToAdd(a: nat, b: nat)
    ensures TwoTo(a) * TwoTo(b) == TwoTo(a + b)
  {
    if a > 0 {
      TwoToAdd(a - 1, b);
      TwiceProduct(TwoTo(a - 1), TwoTo(b));
    }
  }

  lemma TwiceProduct(x: nat, y: nat)
    ensures 2 * x * y == 2 * (x * y)
  {
  }

  // ---------- position slots ----------

  // The extra bits of a slot, and where it begins, as they are built up.
  function Extra(n: nat): nat {
    if n < 4 then 0 else if n < 36 then n / 2 - 1 else 17
  }

  function Base(n: nat): nat {
    if n == 0 then 0 else Base(n - 1) + TwoTo(Extra(n - 1))
  }

  lemma {:induction false} ShlIsTwoTo(n: nat)
    ensures Shl(1, n) == TwoTo(n)
  {
    if n > 0 {
      ShlIsTwoTo(n - 1);
      ShlTwice(1, n - 1, 1);
      assert Shl(Shl(1, n - 1), 1) == 2 * Shl(1, n - 1);
    }
  }

  lemma ExtraIs(n: nat)
    requires n < SLOTS
    ensures ExtraBits(n) == Extra(n)
  {
  }

  /** Both tables are as they are built up: each slot begins where the one before ends. */
  lemma {:induction false} TablesAre(n: nat)
    requires n < SLOTS
    ensures ExtraBits(n) == Extra(n) && PositionBase(n) == Base(n) && SlotSize(n) == TwoTo(Extra(n))
    decreases n
  {
    hide ExtraBits, Extra, PositionBase, TwoTo;
    ExtraIs(n);
    ShlIsTwoTo(Extra(n));
    if n > 0 {
      TablesAre(n - 1);
      NextSlot(n - 1);
    } else {
      FirstSlot();
    }
  }

  // ---------- symbols ----------

  // A symbol that a code can send.
  ghost predicate CanSend(lens: seq<Byte>, nbits: nat, s: nat)
    requires 1 <= nbits <= 15
  {
    && s < |lens| && Accepted(lens, nbits)
    && (Complete(lens, nbits) ==> Coded(lens, s) && Codeword(lens, s) < Shl(1, lens[s]))
    && (AllZero(lens) ==> s == 0)
  }

  // Its digits: those of the codeword of RFC 1951; none, where all lengths are 0.
  ghost function CodeDigits(lens: seq<Byte>, s: nat): (d: seq<nat>)
    requires s < |lens|
    ensures |d| == if Coded(lens, s) then lens[s] else 0
  {
    if Coded(lens, s) then Digits(Codeword(lens, s), lens[s]) else []
  }

  lemma SymbolRead(lens: seq<Byte>, nbits: nat, mem: Memory, q: nat, s: nat)
    requires 1 <= nbits <= 15 && CanSend(lens, nbits, s) && Has(mem, q, CodeDigits(lens, s))
    ensures SymbolAt(lens, nbits, mem, q, s) && |CodeDigits(lens, s)| == lens[s]
  {
    hide Digits, Bit;
    if Complete(lens, nbits) {
      WordRead(lens, mem, q, s);
    }
  }

  lemma WordRead(lens: seq<Byte>, mem: Memory, q: nat, s: nat)
    requires Coded(lens, s) && Codeword(lens, s) < Shl(1, lens[s]) && Has(mem, q, Digits(Codeword(lens, s), lens[s]))
    ensures Decodes(lens, s, Val(mem, q, 16))
  {
    hide Digits, Bit, Codeword;
    NumberRead(mem, q, Codeword(lens, s), lens[s]);
    ValPrefix(mem, q, lens[s], 16);
    DecodesIsPrefix(lens, s, Val(mem, q, 16));
  }

  // ---------- literals and matches ----------

  // What a sender sends: a byte; a match at one of the remembered offsets; a match at
  // an offset, with the slot of the position two above it.
  datatype Sent = One(b: Byte) | Again(i: nat, length: nat) | Back(offset: nat, length: nat, slot: nat)

  ghost predicate Sendable(kind: BlockType, c: Codes, p: Sent) {
    && ValidCodes(kind, c)
    && match p
       case One(b) => CanSend(c.main, 12, b)
       case Again(i, length) => i < 3 && LengthSendable(c, i, length)
       case Back(offset, length, slot) =>
         && 3 <= slot < 50 && Base(slot) <= offset + 2 < Base(slot + 1) && LengthSendable(c, slot, length)
         && (kind == AlignedOffset && Extra(slot) >= 3 ==> CanSend(c.aligned, 7, (offset + 2 - Base(slot)) % 8))
  }

  ghost predicate LengthSendable(c: Codes, slot: nat, length: nat) {
    && 2 <= length <= 258 && CanSend(c.main, 12, 256 + 8 * slot + if length < 9 then length - 2 else 7)
    && (length >= 9 ==> CanSend(c.length, 12, length - 9))
  }

  function PieceSent(p: Sent): (r: Piece)
    ensures r.Literal? || r.Match?
  {
    match p
    case One(b) => Literal(b)
    case Again(i, length) => Match(if i == 0 then Repeat0 else if i == 1 then Repeat1 else Repeat2, length)
    case Back(offset, length, _) => Match(New(offset), length)
  }

  // Slot and length in the main symbol; a long length goes on in a symbol of its own.
  ghost function LengthDigits(c: Codes, slot: nat, length: nat): seq<nat>
    requires LengthSendable(c, slot, length)
  {
    CodeDigits(c.main, 256 + 8 * slot + if length < 9 then length - 2 else 7)
    + if length >= 9 then CodeDigits(c.length, length - 9) else []
  }

  // The place within the slot; in an aligned block the last three digits are a symbol.
  ghost function PlaceDigits(kind: BlockType, c: Codes, slot: nat, v: nat): seq<nat>
    requires kind == AlignedOffset && Extra(slot) >= 3 ==> v % 8 < |c.aligned|
  {
    if kind == AlignedOffset && Extra(slot) >= 3 then Digits(v / 8, Extra(slot) - 3) + CodeDigits(c.aligned, v % 8)
    else Digits(v, Extra(slot))
  }

  ghost function SentDigits(kind: BlockType, c: Codes, p: Sent): seq<nat>
    requires Sendable(kind, c, p)
  {
    match p
    case One(b) => CodeDigits(c.main, b)
    case Again(i, length) => LengthDigits(c, i, length)
    case Back(offset, length, slot) =>
      LengthDigits(c, slot, length) + PlaceDigits(kind, c, slot, offset + 2 - Base(slot))
  }

  function TokenSent(p: Sent): Token {
    match p
    case One(b) => Lit(b)
    case Again(i, length) => Copy(i, 0, length)
    case Back(offset, length, slot) =>
      Copy(slot, if offset + 2 >= Base(slot) then offset + 2 - Base(slot) else 0, length)
  }

  lemma LengthRead(kind: BlockType, c: Codes, mem: Memory, q: nat, t: Token)
    requires ValidCodes(kind, c) && ValidToken(t) && t.Copy? && LengthSendable(c, t.number, t.length)
    requires Has(mem, q, LengthDigits(c, t.number, t.length))
    ensures SymbolAt(c.main, MAIN_BITS, mem, q, MainOf(t))
    ensures HasFooter(t) ==>
      SymbolAt(c.length, LENGTH_BITS, mem, AfterMain(c, q, t), t.length - MIN_MATCH - PRIMARY)
    ensures AfterFooter(c, q, t) == q + |LengthDigits(c, t.number, t.length)|
  {
    hide Bit, CanSend, SymbolAt, Accepted, CodeDigits, Has;
    var m := 256 + 8 * t.number + if t.length < 9 then t.length - 2 else 7;
    assert MainOf(t) == m;
    MainSendable(c, t.number, t.length);
    var a := CodeDigits(c.main, m);
    var b := if t.length >= 9 then CodeDigits(c.length, t.length - 9) else [];
    HasParts(mem, q, a, b);
    SymbolRead(c.main, MAIN_BITS, mem, q, m);
    if t.length >= 9 {
      SymbolRead(c.length, LENGTH_BITS, mem, q + |a|, t.length - 9);
    }
  }

  lemma MainSendable(c: Codes, slot: nat, length: nat)
    requires LengthSendable(c, slot, length)
    ensures 256 + 8 * slot + (if length < 9 then length - 2 else 7) < |c.main|
    ensures length >= 9 ==> length - 9 < |c.length|
  {
  }

  lemma PlaceRead(kind: BlockType, c: Codes, mem: Memory, q: nat, slot: nat, v: nat)
    requires ValidCodes(kind, c) && slot < 50 && v < TwoTo(Extra(slot))
    requires kind == AlignedOffset && Extra(slot) >= 3 ==> CanSend(c.aligned, 7, v % 8)
    requires Has(mem, q, PlaceDigits(kind, c, slot, v))
    ensures PositionAt(kind, c, mem, q, slot, v)
    ensures |PlaceDigits(kind, c, slot, v)| ==
      if Splits(kind, slot) then ExtraBits(slot) - 3 + c.aligned[v % 8] else ExtraBits(slot)
  {
    hide Bit, CanSend, SymbolAt, Accepted, ExtraBits, Extra, CodeDigits, Has, Digits, TwoTo, Shl, PositionBase, Base,
      SlotSize;
    TablesAre(slot);
    var n := Extra(slot);
    ShlIsTwoTo(n);
    if kind == AlignedOffset && n >= 3 {
      AlignedSendable(c, v % 8);
      HasParts(mem, q, Digits(v / 8, n - 3), CodeDigits(c.aligned, v % 8));
      EighthBelow(v, n);
      NumberRead(mem, q, v / 8, n - 3);
      SymbolRead(c.aligned, ALIGNED_BITS, mem, q + (n - 3), v % 8);
    } else {
      NumberRead(mem, q, v, n);
    }
  }

  lemma EighthBelow(v: nat, n: nat)
    requires n >= 3 && v < TwoTo(n)
    ensures v / 8 < Shl(1, n - 3)
  {
    ShlIsTwoTo(n - 3);
    TwoToAdd(3, n - 3);
    Eight();
  }

  lemma AlignedSendable(c: Codes, s: nat)
    requires CanSend(c.aligned, 7, s)
    ensures s < |c.aligned|
  {
  }

  /** A literal or match is read as it was sent, wherever it stands. */
  lemma SentRead(kind: BlockType, c: Codes, mem: Memory, q: nat, p: Sent)
    requires Sendable(kind, c, p) && Has(mem, q, SentDigits(kind, c, p))
    ensures TokenAt(kind, c, mem, q, TokenSent(p)) && PieceOf(TokenSent(p)) == PieceSent(p)
    ensures EndOf(kind, c, q, TokenSent(p)) == q + |SentDigits(kind, c, p)|
  {
    hide Bit, CanSend, SymbolAt, Accepted, ExtraBits, Extra, LengthSendable, PositionAt, CodeDigits, Has,
      LengthDigits, PlaceDigits, PositionBase, SlotSize, TwoTo, EndOf;
    match p
    case One(b) =>
      OneRead(kind, c, mem, q, b);
    case Again(i, length) =>
      AgainRead(kind, c, mem, q, i, length);
    case Back(offset, length, slot) =>
      BackRead(kind, c, mem, q, offset, length, slot);
  }

  lemma OneRead(kind: BlockType, c: Codes, mem: Memory, q: nat, b: Byte)
    requires ValidCodes(kind, c) && CanSend(c.main, 12, b) && Has(mem, q, CodeDigits(c.main, b))
    ensures TokenAt(kind, c, mem, q, Lit(b)) && EndOf(kind, c, q, Lit(b)) == q + |CodeDigits(c.main, b)|
  {
    hide Bit, CanSend, SymbolAt, Accepted, CodeDigits, Has;
    SymbolRead(c.main, MAIN_BITS, mem, q, b);
  }

  lemma AgainRead(kind: BlockType, c: Codes, mem: Memory, q: nat, i: nat, length: nat)
    requires ValidCodes(kind, c) && i < 3 && LengthSendable(c, i, length) && Has(mem, q, LengthDigits(c, i, length))
    ensures TokenAt(kind, c, mem, q, Copy(i, 0, length))
    ensures EndOf(kind, c, q, Copy(i, 0, length)) == q + |LengthDigits(c, i, length)|
  {
    hide Bit, SymbolAt, Accepted, LengthSendable, PositionAt, CodeDigits, Has, LengthDigits, PositionBase;
    LengthIs(c, i, length);
    SmallSlots(i);
    LengthRead(kind, c, mem, q, Copy(i, 0, length));
    NoPlace(kind, c, mem, q + |LengthDigits(c, i, length)|, i);
  }

  // The token of a match with a new offset.
  lemma BackPiece(offset: nat, length: nat, slot: nat)
    requires 3 <= slot < 50 && 2 <= length <= 258
    requires Base(slot) <= offset + 2 < Base(slot) + TwoTo(Extra(slot))
    ensures var t := Copy(slot, offset + 2 - Base(slot), length);
      ValidToken(t) && PieceOf(t) == Match(New(offset), length)
  {
    hide ExtraBits, Extra, Base, PositionBase, SlotSize, TwoTo;
    TablesAre(slot);
  }

  lemma BackRead(kind: BlockType, c: Codes, mem: Memory, q: nat, offset: nat, length: nat, slot: nat)
    requires Sendable(kind, c, Back(offset, length, slot))
    requires Has(mem, q, SentDigits(kind, c, Back(offset, length, slot)))
    ensures var t := Copy(slot, offset + 2 - Base(slot), length);
      && TokenAt(kind, c, mem, q, t) && PieceOf(t) == Match(New(offset), length)
      && EndOf(kind, c, q, t) == q + |SentDigits(kind, c, Back(offset, length, slot))|
  {
    hide Bit, CanSend, SymbolAt, Accepted, ExtraBits, Extra, LengthSendable, PositionAt, CodeDigits, Has,
      LengthDigits, PlaceDigits, PositionBase, SlotSize, TwoTo, ValidToken, PieceOf, MainOf, HasFooter;
    LengthIs(c, slot, length);
    BackPiece(offset, length, slot);
    var v := offset + 2 - Base(slot);
    HasParts(mem, q, LengthDigits(c, slot, length), PlaceDigits(kind, c, slot, v));
    LengthRead(kind, c, mem, q, Copy(slot, v, length));
    PlaceRead(kind, c, mem, q + |LengthDigits(c, slot, length)|, slot, v);
  }

  lemma LengthIs(c: Codes, slot: nat, length: nat)
    requires LengthSendable(c, slot, length)
    ensures 2 <= length <= 258
  {
  }

  lemma NoPlace(kind: BlockType, c: Codes, mem: Memory, q: nat, i: nat)
    requires i < 3
    ensures PositionAt(kind, c, mem, q, i, 0) && ExtraBits(i) == 0
  {
  }

  // ---------- code lengths ----------

  ghost predicate Codes17(pre: seq<Byte>, s: nat) {
    Coded(pre, s) && Codeword(pre, s) < Shl(1, pre[s])
  }

  // A token's codes can be sent.
  ghost predicate TokenSendable(pre: seq<Byte>, t: C.Token)
    requires |pre| == 20
  {
    t.Valid()
    && match t
       case Zeros(n) => Codes17(pre, if n < 20 then 17 else 18)
       case Same(_, z) => Codes17(pre, 19) && Codes17(pre, z)
       case Delta(z) => Codes17(pre, z)
  }

  // A run of 4 to 19 or of 20 to 51 zeros; a run of 4 or 5 equal lengths; one length.
  ghost function TokenDigits(pre: seq<Byte>, t: C.Token): seq<nat>
    requires |pre| == 20 && TokenSendable(pre, t)
  {
    match t
    case Zeros(n) =>
      if n < 20 then CodeDigits(pre, 17) + Digits(n - 4, 4) else CodeDigits(pre, 18) + Digits(n - 20, 5)
    case Same(n, z) => CodeDigits(pre, 19) + Digits(n - 4, 1) + CodeDigits(pre, z)
    case Delta(z) => CodeDigits(pre, z)
  }

  lemma CodeThere(pre: seq<Byte>, mem: Memory, q: nat, s: nat)
    requires Codes17(pre, s) && Has(mem, q, CodeDigits(pre, s))
    ensures C.CodeAt(pre, mem, q, s) && |CodeDigits(pre, s)| == pre[s]
  {
    hide Bit, Digits, Codeword;
    NumberRead(mem, q, Codeword(pre, s), pre[s]);
  }

  lemma PowersHere()
    ensures Shl(1, 1) == 2 && Shl(1, 3) == 8 && Shl(1, 4) == 16 && Shl(1, 5) == 32
  {
    Powers();
  }

  lemma TokenRead(pre: seq<Byte>, mem: Memory, q: nat, t: C.Token)
    requires |pre| == 20 && TokenSendable(pre, t) && Has(mem, q, TokenDigits(pre, t))
    ensures C.TokenAt(pre, mem, q, t) && C.TokenBits(pre, t) == |TokenDigits(pre, t)|
  {
    hide Bit, Digits, Has, CodeDigits, Codes17, C.CodeAt, Val;
    PowersHere();
    match t
    case Zeros(n) =>
      var s, k := if n < 20 then 17 else 18, if n < 20 then 4 else 5;
      HasParts(mem, q, CodeDigits(pre, s), Digits(if n < 20 then n - 4 else n - 20, k));
      CodeThere(pre, mem, q, s);
      NumberRead(mem, q + pre[s], if n < 20 then n - 4 else n - 20, k);
    case Same(n, z) =>
      HasParts(mem, q, CodeDigits(pre, 19) + Digits(n - 4, 1), CodeDigits(pre, z));
      HasParts(mem, q, CodeDigits(pre, 19), Digits(n - 4, 1));
      CodeThere(pre, mem, q, 19);
      NumberRead(mem, q + pre[19], n - 4, 1);
      CodeThere(pre, mem, q + pre[19] + 1, z);
    case Delta(z) =>
      CodeThere(pre, mem, q, z);
  }

  ghost predicate AllSendable(pre: seq<Byte>, ts: seq<C.Token>)
    requires |pre| == 20
  {
    forall i :: 0 <= i < |ts| ==> TokenSendable(pre, ts[i])
  }

  ghost function TokensDigits(pre: seq<Byte>, ts: seq<C.Token>): seq<nat>
    requires |pre| == 20 && AllSendable(pre, ts)
  {
    if ts == [] then [] else TokensDigits(pre, ts[..|ts| - 1]) + TokenDigits(pre, ts[|ts| - 1])
  }

  lemma {:induction false} TokensRead(pre: seq<Byte>, mem: Memory, q: nat, ts: seq<C.Token>)
    requires |pre| == 20 && AllSendable(pre, ts) && Has(mem, q, TokensDigits(pre, ts))
    ensures C.AllValid(ts) && C.Encoded(pre, mem, q, ts) && C.Bits(pre, ts) == |TokensDigits(pre, ts)|
    decreases |ts|
  {
    hide Bit, Has, TokenDigits, C.TokenAt, C.TokenBits;
    if ts != [] {
      var front, last := ts[..|ts| - 1], ts[|ts| - 1];
      HasParts(mem, q, TokensDigits(pre, front), TokenDigits(pre, last));
      TokensRead(pre, mem, q, front);
      TokenRead(pre, mem, q + |TokensDigits(pre, front)|, last);
    }
  }

  // The lengths of the pretree, four digits each.
  function PretreeDigits(pre: seq<Byte>): (d: seq<nat>)
    ensures |d| == 4 * |pre|
  {
    if pre == [] then [] else PretreeDigits(pre[..|pre| - 1]) + Digits(pre[|pre| - 1], 4)
  }

  lemma {:induction false} PretreeRead(mem: Memory, q: nat, pre: seq<Byte>)
    requires Has(mem, q, PretreeDigits(pre)) && forall k :: 0 <= k < |pre| ==> pre[k] < 16
    ensures forall k :: 0 <= k < |pre| ==> Val(mem, q + 4 * k, 4) == pre[k]
    decreases |pre|
  {
    hide Bit, Has, Digits, Val;
    if pre != [] {
      var n := |pre| - 1;
      HasParts(mem, q, PretreeDigits(pre[..n]), Digits(pre[n], 4));
      PretreeRead(mem, q, pre[..n]);
      PowersHere();
      NumberRead(mem, q + 4 * n, pre[n], 4);
      forall k | 0 <= k < |pre|
        ensures Val(mem, q + 4 * k, 4) == pre[k]
      {
        assert k < n ==> pre[..n][k] == pre[k];
      }
    }
  }

  // A list of lengths: a pretree, and the tokens under it.
  datatype List = List(pre: seq<Byte>, ts: seq<C.Token>) {
    ghost predicate Valid() {
      && |pre| == 20 && (forall k :: 0 <= k < 20 ==> pre[k] < 16)
      && Complete(pre, 6) && AllSendable(pre, ts)
    }

    ghost function Written(): seq<nat>
      requires Valid()
    {
      PretreeDigits(pre) + TokensDigits(pre, ts)
    }
  }

  lemma CompleteCoded(pre: seq<Byte>)
    requires Complete(pre, 6)
    ensures Accepted(pre, 6) && !AllZero(pre)
  {
    if AllZero(pre) {
      ZeroKraft(pre, 6, |pre|);
      ZeroKraft(pre, 16, |pre|);
    }
  }

  /** A list of lengths is read as what it describes, wherever it stands; all others
      stay. */
  lemma ListRead(mem: Memory, q: nat, old_: seq<Byte>, new_: seq<Byte>, first: nat, last: nat, l: List)
    requires l.Valid() && first <= last && last + 50 <= |old_| == |new_| && Has(mem, q, l.Written())
    requires L.Describes(l.ts, old_, new_, first, last)
    ensures var r := LensAt(mem, q, old_, first, last);
      && r.Some? && r.value.lens == old_[..first] + new_[first..last] + old_[last..]
      && r.value.end == q + |l.Written()| && r.value.far <= q + |l.Written()| + 16
  {
    hide Bit, Has, TokensDigits, PretreeDigits, C.Apply, C.Encoded, C.Far, C.Bits, L.Describes, Complete, Accepted,
      AllZero, LensAt;
    var p := q + 80;
    HasParts(mem, q, PretreeDigits(l.pre), TokensDigits(l.pre, l.ts));
    PretreeRead(mem, q, l.pre);
    assert C.PretreeAt(mem, q) == l.pre;
    TokensRead(l.pre, mem, p, l.ts);
    CompleteCoded(l.pre);
    L.DescriptionReaches(l.ts, old_, new_, first, last);
    L.DescriptionDecodes(l.ts, old_, new_, old_, first, last);
    LensFound(mem, q, old_, first, last, l.ts);
    FarBound(l.pre, p, l.ts);
  }

  lemma FarBound(pre: seq<Byte>, p: nat, ts: seq<C.Token>)
    requires |pre| == 20 && C.AllValid(ts)
    ensures C.Far(pre, p, ts) <= p + C.Bits(pre, ts) + 16
  {
  }

  // ---------- block headers ----------

  // The lengths a header gives: of the first 256 main symbols, of the other main
  // symbols of the window, and of the length code.
  datatype Lists = Lists(chars: List, matches: List, lengths: List) {
    ghost predicate Valid() {
      chars.Valid() && matches.Valid() && lengths.Valid()
    }

    ghost function Written(): seq<nat>
      requires Valid()
    {
      chars.Written() + matches.Written() + lengths.Written()
    }
  }

  // The lists lead from old lengths to new ones, and the codes can be used.
  ghost predicate Lead(x: Lengths, y: Lengths, elements: nat, l: Lists) {
    && x.Valid() && y.Valid() && 256 < elements <= 656
    && L.Describes(l.chars.ts, x.main, y.main, 0, 256)
    && L.Describes(l.matches.ts, x.main, y.main, 256, elements)
    && L.Describes(l.lengths.ts, x.length, y.length, 0, 249)
    && y.main[elements..] == x.main[elements..] && y.length[249..] == x.length[249..]
    && Accepted(y.main[..656], 12) && Accepted(y.length[..250], 12)
  }

  // The first q bits of the stream that begins at base lie in whole words of the input.
  predicate Inside(i: Input, base: nat, q: nat) {
    base <= i.len && q <= 16 * ((i.len - base) / 2)
  }

  lemma DescribedByOld(ts: seq<C.Token>, a: seq<Byte>, b: seq<Byte>, new_: seq<Byte>, x: nat, last: nat)
    requires |a| == |b| == |new_| && x <= last <= |a| && L.Describes(ts, a, new_, x, last) && b[x..] == a[x..]
    ensures L.Describes(ts, b, new_, x, last)
    decreases |ts|
  {
    if ts != [] {
      var x' := x + ts[0].Run();
      L.DescriptionLong(ts[1..], a, new_, x', last);
      assert b[x'..] == b[x..][x' - x..] == a[x'..];
      assert b[x] == b[x..][0] == a[x..][0] == a[x];
      DescribedByOld(ts[1..], a, b, new_, x', last);
    }
  }

  lemma Exact(a: seq<Byte>, b: seq<Byte>, m: nat, n: nat)
    requires |a| == |b| && m <= n <= |a| && a[n..] == b[n..]
    ensures (a[..0] + b[0..m] + a[m..])[m..] == a[m..]
    ensures (a[..0] + b[0..m] + a[m..])[..m] + b[m..n] + a[n..] == b
  {
    assert b == b[..m] + b[m..n] + b[n..];
    assert (a[..0] + b[0..m] + a[m..])[..m] == b[..m];
  }

  /** The lists of a header are read one after the other. */
  lemma CodedRead(i: Input, base: nat, q: nat, kind: BlockType, length: nat, x: Lengths, y: Lengths, l: Lists)
    requires i.Valid() && l.Valid() && Lead(x, y, i.elements, l)
    requires Has(Stream(i.mem, base), q, l.Written())
    ensures CodedHeader(i, base, q, kind, length, x) ==
      if Inside(i, base, q + |l.Written()|)
      then Good(kind, length, None, Lengths(y.main, y.length, x.aligned), Bits(base, q + |l.Written()|))
      else Bad
  {
    hide Bit, Has, Accepted, LensAt, List.Written, List.Valid, L.Describes, Exhausted;
    var mem := Stream(i.mem, base);
    var a, b, c := l.chars.Written(), l.matches.Written(), l.lengths.Written();
    HasParts(mem, q, a + b, c);
    HasParts(mem, q, a, b);
    ListRead(mem, q, x.main, y.main, 0, 256, l.chars);
    var first := x.main[..0] + y.main[0..256] + x.main[256..];
    Exact(x.main, y.main, 256, i.elements);
    assert |first| == |x.main|;
    DescribedByOld(l.matches.ts, x.main, first, y.main, 256, i.elements);
    ListRead(mem, q + |a|, first, y.main, 256, i.elements, l.matches);
    assert first[i.elements..] == x.main[i.elements..];
    ListRead(mem, q + |a| + |b|, x.length, y.length, 0, 249, l.lengths);
    assert x.length[..0] + y.length[0..249] + x.length[249..] == y.length by {
      assert y.length == y.length[..249] + y.length[249..];
    }
    var r := LensAt(mem, q + |a| + |b|, x.length, 0, 249).value;
    ExhaustedIff(i, base, r.far, r.end);
  }

  // Looking at most 16 bits further does not matter.
  lemma ExhaustedIff(i: Input, base: nat, far: nat, end: nat)
    requires end <= far <= end + 16
    ensures Exhausted(i.len, base + WordEnd(far), 8 * WordEnd(far) - end) <==> !Inside(i, base, end)
  {
  }

  // Type and length of a block, in three and 24 digits.
  lemma TypeRead(mem: Memory, q: nat, kind: nat, length: nat, rest: seq<nat>)
    requires kind < 8 && length < 0x100_0000 && Has(mem, q, Digits(kind, 3) + Digits(length, 24) + rest)
    ensures Val(mem, q, 3) == kind && 256 * Val(mem, q + 3, 16) + Val(mem, q + 19, 8) == length
    ensures Has(mem, q + 27, rest)
  {
    hide Bit, Has, Digits, Val;
    PowersHere();
    HasParts(mem, q, Digits(kind, 3) + Digits(length, 24), rest);
    HasParts(mem, q, Digits(kind, 3), Digits(length, 24));
    NumberRead(mem, q, kind, 3);
    Big();
    NumberRead(mem, q + 3, length, 24);
    ValSplit(mem, q + 3, 16, 8);
    ShlMul(Val(mem, q + 3, 16), 8);
  }

  lemma Big()
    ensures Shl(1, 24) == 0x100_0000 && Shl(1, 8) == 256
  {
    FullIsShl();
    ShlTwice(1, 16, 8);
    ShlMul(65536, 8);
    Powers();
  }

  /** A verbatim block is type 1; it is accepted exactly if its header lies in whole
      words of the input. */
  lemma VerbatimRead(i: Input, base: nat, q: nat, length: nat, x: Lengths, y: Lengths, l: Lists)
    requires i.Valid() && l.Valid() && Lead(x, y, i.elements, l) && length < 0x100_0000
    requires Has(Stream(i.mem, base), q, Digits(1, 3) + Digits(length, 24) + l.Written())
    ensures HeaderAt(i, base, q, x) ==
      if Inside(i, base, q + 27 + |l.Written()|)
      then Good(Verbatim, length, None, Lengths(y.main, y.length, x.aligned), Bits(base, q + 27 + |l.Written()|))
      else Bad
  {
    hide Bit, Has, Digits, Val, CodedHeader, Lists.Written, AlignedHeader, PlainHeader, Lead;
    TypeRead(Stream(i.mem, base), q, 1, length, l.Written());
    CodedRead(i, base, q + 27, Verbatim, length, x, y, l);
    LeadValid(x, y, i.elements, l);
  }

  lemma LeadValid(x: Lengths, y: Lengths, elements: nat, l: Lists)
    requires Lead(x, y, elements, l)
    ensures x.Valid() && y.Valid()
  {
  }

  // The eight lengths of the aligned code, three digits each.
  function AlignedDigits(al: seq<Byte>): (d: seq<nat>)
    ensures |d| == 3 * |al|
  {
    if al == [] then [] else AlignedDigits(al[..|al| - 1]) + Digits(al[|al| - 1], 3)
  }

  lemma {:induction false} AlignedRead(mem: Memory, q: nat, al: seq<Byte>)
    requires Has(mem, q, AlignedDigits(al)) && forall k :: 0 <= k < |al| ==> al[k] < 8
    ensures forall k :: 0 <= k < |al| ==> Val(mem, q + 3 * k, 3) == al[k]
    decreases |al|
  {
    hide Bit, Has, Digits, Val;
    if al != [] {
      var n := |al| - 1;
      HasParts(mem, q, AlignedDigits(al[..n]), Digits(al[n], 3));
      AlignedRead(mem, q, al[..n]);
      PowersHere();
      NumberRead(mem, q + 3 * n, al[n], 3);
      forall k | 0 <= k < |al|
        ensures Val(mem, q + 3 * k, 3) == al[k]
      {
        assert k < n ==> al[..n][k] == al[k];
      }
    }
  }

  /** An aligned block is type 2; its aligned code comes in front of the other lists.
      It is accepted under the same condition. */
  lemma AlignedBlockRead(i: Input, base: nat, q: nat, length: nat, al: seq<Byte>, x: Lengths, y: Lengths, l: Lists)
    requires i.Valid() && l.Valid() && Lead(x, y, i.elements, l) && length < 0x100_0000
    requires |al| == 8 && (forall k :: 0 <= k < 8 ==> al[k] < 8) && Accepted(al, 7)
    requires Has(Stream(i.mem, base), q, Digits(2, 3) + Digits(length, 24) + (AlignedDigits(al) + l.Written()))
    ensures HeaderAt(i, base, q, x) ==
      if Inside(i, base, q + 51 + |l.Written()|)
      then Good(AlignedOffset, length, None, Lengths(y.main, y.length, al + x.aligned[8..]),
                Bits(base, q + 51 + |l.Written()|))
      else Bad
  {
    hide Bit, Has, Digits, Val, CodedHeader, Lists.Written, PlainHeader, Accepted, Lead;
    var mem := Stream(i.mem, base);
    TypeRead(mem, q, 2, length, AlignedDigits(al) + l.Written());
    HasParts(mem, q + 27, AlignedDigits(al), l.Written());
    AlignedRead(mem, q + 27, al);
    assert AlignedAt(mem, q + 27) == al;
    LeadValid(x, y, i.elements, l);
    var x' := Lengths(x.main, x.length, al + x.aligned[8..]);
    LeadOther(x, x', y, i.elements, l);
    CodedRead(i, base, q + 51, AlignedOffset, length, x', y, l);
  }

  lemma LeadOther(x: Lengths, x': Lengths, y: Lengths, elements: nat, l: Lists)
    requires Lead(x, y, elements, l) && x' == x.(aligned := x'.aligned) && x'.Valid()
    ensures Lead(x', y, elements, l)
  {
  }

  /** An uncompressed block is type 3: its offsets, four bytes each, stand at the first
      16-bit boundary behind the header's last bit, and its bytes follow them. */
  lemma PlainRead(i: Input, base: nat, q: nat, length: nat, x: Lengths, k: nat, r: Lru)
    requires i.Valid() && x.Valid() && length < 0x100_0000
    requires Has(Stream(i.mem, base), q, Digits(3, 3) + Digits(length, 24) + [])
    requires 16 * k <= q + 27 < 16 * (k + 1)
    requires var at := base + 2 * (k + 1);
      && r.r0 == i.mem(at) + 0x100 * i.mem(at + 1) + 0x1_0000 * i.mem(at + 2) + 0x100_0000 * i.mem(at + 3)
      && r.r1 == i.mem(at + 4) + 0x100 * i.mem(at + 5) + 0x1_0000 * i.mem(at + 6) + 0x100_0000 * i.mem(at + 7)
      && r.r2 == i.mem(at + 8) + 0x100 * i.mem(at + 9) + 0x1_0000 * i.mem(at + 10) + 0x100_0000 * i.mem(at + 11)
    ensures var end := base + 2 * (k + 1) + 12;
      HeaderAt(i, base, q, x) == if end <= i.len + 2 then Good(Uncompressed, length, Some(r), x, Bytes(end)) else Bad
  {
    hide Bit, Has, Digits, Val, CodedHeader, AlignedHeader;
    TypeRead(Stream(i.mem, base), q, 3, length, []);
    assert (q + 27) / 16 == k;
  }

  /** There are no other types. */
  lemma NoOther(i: Input, base: nat, q: nat, kind: nat, x: Lengths)
    requires i.Valid() && x.Valid() && kind < 8 && kind != 1 && kind != 2 && kind != 3
    requires Has(Stream(i.mem, base), q, Digits(kind, 3))
    ensures HeaderAt(i, base, q, x) == Bad
  {
    hide Bit, Has, Digits, Val, CodedHeader, AlignedHeader, PlainHeader;
    PowersHere();
    NumberRead(Stream(i.mem, base), q, kind, 3);
  }
}
