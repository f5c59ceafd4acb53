/** Literals and matches in the bits of a block: the three codes, the position
    slots and the extra bits put together. */
module Tokens {
  import opened Shifts
  import opened Canonical
  import opened Forest
  import opened Huffman
  import opened BitReader
  import opened Lz77
  import opened PositionSlots

  const NUM_CHARS: nat := 256
  const PRIMARY: nat := 7
  const MIN_MATCH: nat := 2
  const MAIN_SYMBOLS: nat := 656
  const LENGTH_SYMBOLS: nat := 250
  const ALIGNED_SYMBOLS: nat := 8
  const MAIN_BITS: nat := 12
  const LENGTH_BITS: nat := 12
  const ALIGNED_BITS: nat := 7

  // The code lengths in force.
  datatype Codes = Codes(main: seq<Byte>, length: seq<Byte>, aligned: seq<Byte>)

  // The codes a block of a kind needs.
  ghost predicate ValidCodes(kind: BlockType, c: Codes) {
    && |c.main| == MAIN_SYMBOLS && |c.length| == LENGTH_SYMBOLS && |c.aligned| == ALIGNED_SYMBOLS
    && Accepted(c.main, MAIN_BITS) && Accepted(c.length, LENGTH_BITS)
    && (kind == AlignedOffset ==> Accepted(c.aligned, ALIGNED_BITS))
  }

  // ---------- what bits spell what ----------

  // The bits from position q on begin with the codeword of a symbol; an all-zero
  // code has the one symbol 0, which takes no bits.
  ghost predicate SymbolAt(lens: seq<Byte>, nbits: nat, mem: Memory, q: nat, s: nat)
    requires 1 <= nbits <= 15
  {
    && s < |lens|
    && (Complete(lens, nbits) ==> Decodes(lens, s, Val(mem, q, 16)))
    && (AllZero(lens) ==> s == 0)
  }

  lemma SymbolUnique(lens: seq<Byte>, nbits: nat, mem: Memory, q: nat, s: nat, t: nat)
    requires 1 <= nbits <= 15 && Accepted(lens, nbits)
    requires SymbolAt(lens, nbits, mem, q, s) && SymbolAt(lens, nbits, mem, q, t)
    ensures s == t
  {
    hide Complete, AllZero, Val, Decodes;
    if Complete(lens, nbits) {
      DecodesUnique(lens, s, t, Val(mem, q, 16));
    }
  }

  // What a block spells: a literal, or a match as slot number, position within the
  // slot, and length.
  datatype Token = Lit(b: Byte) | Copy(number: nat, v: nat, length: nat)

  predicate ValidToken(t: Token) {
    match t
    case Lit(_) => true
    case Copy(number, v, length) =>
      number < 50 && v < SlotSize(number) && MIN_MATCH <= length < MIN_MATCH + PRIMARY + LENGTH_SYMBOLS
  }

  // The piece a token stands for: slots 0, 1 and 2 repeat earlier offsets.
  function PieceOf(t: Token): Piece
    requires ValidToken(t)
  {
    match t
    case Lit(b) => Literal(b)
    case Copy(number, v, length) =>
      Match(if number == 0 then Repeat0 else if number == 1 then Repeat1 else if number == 2 then Repeat2
            else New(OffsetOf(number, v)), length)
  }

  function OffsetOf(number: nat, v: nat): nat
    requires number >= 3
  {
    BaseAtLeast(number);
    PositionBase(number) - 2 + v
  }

  lemma BaseAtLeast(number: nat)
    requires number >= 3
    ensures PositionBase(number) >= 3
  {
  }

  // The length of a match goes to a header of three bits and, if need be, a footer.
  function HeaderOf(length: nat): (h: nat)
    requires length >= MIN_MATCH
    ensures h < 8
  {
    if length - MIN_MATCH < PRIMARY then length - MIN_MATCH else PRIMARY
  }

  function MainOf(t: Token): (m: nat)
    requires ValidToken(t)
    ensures m < MAIN_SYMBOLS
  {
    match t
    case Lit(b) => b
    case Copy(number, _, length) => NUM_CHARS + 8 * number + HeaderOf(length)
  }

  predicate HasFooter(t: Token)
    requires ValidToken(t)
  {
    t.Copy? && HeaderOf(t.length) == PRIMARY
  }

  // In aligned blocks the low three of at least three extra bits are coded.
  predicate Splits(kind: BlockType, number: nat) {
    kind == AlignedOffset && ExtraBits(number) >= 3
  }

  function AfterMain(c: Codes, q: nat, t: Token): nat
    requires |c.main| == MAIN_SYMBOLS && ValidToken(t)
  {
    q + c.main[MainOf(t)]
  }

  function AfterFooter(c: Codes, q: nat, t: Token): nat
    requires |c.main| == MAIN_SYMBOLS && |c.length| == LENGTH_SYMBOLS && ValidToken(t)
  {
    AfterMain(c, q, t) + if HasFooter(t) then c.length[t.length - MIN_MATCH - PRIMARY] else 0
  }

  // Where the bits of a token end.
  function EndOf(kind: BlockType, c: Codes, q: nat, t: Token): nat
    requires |c.main| == MAIN_SYMBOLS && |c.length| == LENGTH_SYMBOLS && |c.aligned| == ALIGNED_SYMBOLS
    requires ValidToken(t)
  {
    match t
    case Lit(_) => AfterMain(c, q, t)
    case Copy(number, v, _) =>
      if Splits(kind, number) then AfterFooter(c, q, t) + (ExtraBits(number) - 3) + c.aligned[v % 8]
      else AfterFooter(c, q, t) + ExtraBits(number)
  }

  // From q on the bits give the position v within a slot.
  ghost predicate PositionAt(kind: BlockType, c: Codes, mem: Memory, q: nat, number: nat, v: nat) {
    var extra := ExtraBits(number);
    if Splits(kind, number) then
      Val(mem, q, extra - 3) == v / 8 && SymbolAt(c.aligned, ALIGNED_BITS, mem, q + (extra - 3), v % 8)
    else Val(mem, q, extra) == v
  }

  /** From position q on the bits spell a token. */
  ghost predicate TokenAt(kind: BlockType, c: Codes, mem: Memory, q: nat, t: Token) {
    && ValidCodes(kind, c) && ValidToken(t)
    && SymbolAt(c.main, MAIN_BITS, mem, q, MainOf(t))
    && (HasFooter(t) ==>
      SymbolAt(c.length, LENGTH_BITS, mem, AfterMain(c, q, t), t.length - MIN_MATCH - PRIMARY))
    && (t.Copy? ==> PositionAt(kind, c, mem, AfterFooter(c, q, t), t.number, t.v))
  }

  // ---------- bits spell one thing only ----------

  lemma PositionUnique(kind: BlockType, c: Codes, mem: Memory, q: nat, number: nat, v: nat, u: nat)
    requires ValidCodes(kind, c) && PositionAt(kind, c, mem, q, number, v) && PositionAt(kind, c, mem, q, number, u)
    ensures v == u
  {
    hide ExtraBits, SymbolAt, Val;
    if Splits(kind, number) {
      SymbolUnique(c.aligned, ALIGNED_BITS, mem, q + (ExtraBits(number) - 3), v % 8, u % 8);
    }
  }

  lemma SameMain(t: Token, u: Token)
    requires ValidToken(t) && ValidToken(u) && MainOf(t) == MainOf(u)
    ensures t.Lit? ==> t == u
    ensures t.Copy? ==> u.Copy? && t.number == u.number && HeaderOf(t.length) == HeaderOf(u.length)
  {
    hide SlotSize;
  }

  /** The bits of a block are read in one way only. */
  lemma TokenUnique(kind: BlockType, c: Codes, mem: Memory, q: nat, t: Token, u: Token)
    requires TokenAt(kind, c, mem, q, t) && TokenAt(kind, c, mem, q, u)
    ensures t == u
  {
    hide SymbolAt, PositionAt, SlotSize, Accepted, ExtraBits;
    SymbolUnique(c.main, MAIN_BITS, mem, q, MainOf(t), MainOf(u));
    SameMain(t, u);
    if t.Copy? {
      if HasFooter(t) {
        SymbolUnique(c.length, LENGTH_BITS, mem, AfterMain(c, q, t), t.length - MIN_MATCH - PRIMARY,
                     u.length - MIN_MATCH - PRIMARY);
      }
      assert t.length == u.length;
      PositionUnique(kind, c, mem, AfterFooter(c, q, t), t.number, t.v, u.v);
    }
  }

  /** Every match has exactly one token: with a new offset there is one slot for it. */
  lemma OneToken(t: Token, u: Token)
    requires ValidToken(t) && ValidToken(u) && PieceOf(t) == PieceOf(u)
    ensures t == u
  {
    hide PositionBase, SlotSize, ExtraBits;
    if t.Copy? {
      if t.number >= 3 {
        SlotUnique(t.number, t.v, u.number, u.v);
      } else {
        SmallSlots(t.number);
      }
    }
  }

  lemma SmallSlots(number: nat)
    requires number <= 3
    ensures SlotSize(number) == 1
  {
  }

  lemma TokenFor(p: Piece) returns (t: Token)
    requires match p
      case Literal(_) => true
      case Match(slot, length) =>
        && MIN_MATCH <= length < MIN_MATCH + PRIMARY + LENGTH_SYMBOLS
        && (slot.New? ==> 1 <= slot.offset && slot.offset + 2 < PositionBase(50))
      case _ => false
    ensures ValidToken(t) && PieceOf(t) == p
  {
    hide PositionBase, SlotSize, ExtraBits;
    match p
    case Literal(b) => t := Lit(b);
    case Match(slot, length) =>
      SmallSlots(0);
      SmallSlots(1);
      SmallSlots(2);
      match slot
      case Repeat0 => t := Copy(0, 0, length);
      case Repeat1 => t := Copy(1, 0, length);
      case Repeat2 => t := Copy(2, 0, length);
      case New(offset) =>
        NextSlot(49);
        var s := SlotExists(offset + 2, 49);
        ThirdSlot(s, offset + 2);
        t := Copy(s, offset + 2 - PositionBase(s), length);
  }

  lemma ThirdSlot(s: nat, p: nat)
    requires p >= 3 && PositionBase(s) <= p < PositionBase(s) + SlotSize(s)
    ensures s >= 3
  {
  }

  // ---------- reading tokens ----------

  // The three codes of a block with their tables.
  class Trees {
    const mainLen: array<Byte>
    const mainTable: array<Word>
    const lengthLen: array<Byte>
    const lengthTable: array<Word>
    const alignedLen: array<Byte>
    const alignedTable: array<Word>

    ghost predicate Sized() {
      MAIN_SYMBOLS <= mainLen.Length && LENGTH_SYMBOLS <= lengthLen.Length && ALIGNED_SYMBOLS <= alignedLen.Length
    }

    ghost predicate Valid(kind: BlockType)
      reads mainLen, mainTable, lengthLen, lengthTable, alignedLen, alignedTable
    {
      && Sized()
      && Usable(mainTable[..], mainLen[..MAIN_SYMBOLS], MAIN_BITS)
      && Usable(lengthTable[..], lengthLen[..LENGTH_SYMBOLS], LENGTH_BITS)
      && (kind == AlignedOffset ==> Usable(alignedTable[..], alignedLen[..ALIGNED_SYMBOLS], ALIGNED_BITS))
    }

    ghost function InForce(): Codes
      requires Sized()
      reads mainLen, mainTable, lengthLen, lengthTable, alignedLen, alignedTable
    {
      Codes(mainLen[..MAIN_SYMBOLS], lengthLen[..LENGTH_SYMBOLS], alignedLen[..ALIGNED_SYMBOLS])
    }

    constructor (mainLen: array<Byte>, mainTable: array<Word>, lengthLen: array<Byte>, lengthTable: array<Word>,
                 alignedLen: array<Byte>, alignedTable: array<Word>)
      ensures this.mainLen == mainLen && this.mainTable == mainTable && this.lengthLen == lengthLen
      ensures this.lengthTable == lengthTable && this.alignedLen == alignedLen && this.alignedTable == alignedTable
    {
      this.mainLen, this.mainTable, this.lengthLen := mainLen, mainTable, lengthLen;
      this.lengthTable, this.alignedLen, this.alignedTable := lengthTable, alignedLen, alignedTable;
    }

    lemma InForceValid(kind: BlockType)
      requires Valid(kind)
      ensures Sized() && ValidCodes(kind, InForce())
    {
      hide DecodesAll, Complete, AllZero;
    }

    method ReadMain(r: Reader, ghost kind: BlockType) returns (s: nat)
      requires Valid(kind) && r.Valid()
      modifies r
      ensures r.Valid() && s < MAIN_SYMBOLS && r.Pos() == old(r.Pos()) + InForce().main[s]
      ensures SymbolAt(InForce().main, MAIN_BITS, r.mem, old(r.Pos()), s)
    {
      hide Usable, Complete, AllZero, Decodes, Val;
      s := r.ReadHuffSym(MAIN_SYMBOLS, MAIN_BITS, mainLen, mainTable);
    }

    method ReadLength(r: Reader, ghost kind: BlockType) returns (s: nat)
      requires Valid(kind) && r.Valid()
      modifies r
      ensures r.Valid() && s < LENGTH_SYMBOLS && r.Pos() == old(r.Pos()) + InForce().length[s]
      ensures SymbolAt(InForce().length, LENGTH_BITS, r.mem, old(r.Pos()), s)
    {
      hide Usable, Complete, AllZero, Decodes, Val;
      s := r.ReadHuffSym(LENGTH_SYMBOLS, LENGTH_BITS, lengthLen, lengthTable);
    }

    method ReadAligned(r: Reader) returns (s: nat)
      requires Valid(AlignedOffset) && r.Valid()
      modifies r
      ensures r.Valid() && s < ALIGNED_SYMBOLS && r.Pos() == old(r.Pos()) + InForce().aligned[s]
      ensures SymbolAt(InForce().aligned, ALIGNED_BITS, r.mem, old(r.Pos()), s)
    {
      hide Usable, Complete, AllZero, Decodes, Val;
      s := r.ReadHuffSym(ALIGNED_SYMBOLS, ALIGNED_BITS, alignedLen, alignedTable);
    }

    // The extra bits of a slot, as the two kinds of blocks read them.
    method ReadPosition(r: Reader, kind: BlockType, number: nat) returns (v: nat)
      requires Valid(kind) && r.Valid() && 3 <= number < 50
      modifies r
      ensures r.Valid() && v < SlotSize(number)
      ensures PositionAt(kind, InForce(), r.mem, old(r.Pos()), number, v)
      ensures r.Pos() == old(r.Pos()) + if Splits(kind, number)
        then (ExtraBits(number) - 3) + InForce().aligned[v % 8] else ExtraBits(number)
    {
      hide ExtraBits, SymbolAt, Val, Shl, Usable;
      FewBits(number);
      var extra := ExtraBits(number);
      if kind == AlignedOffset && extra > 3 {
        ValBound(r.mem, r.Pos(), extra - 3);
        EightTimes(extra - 3);
        var verbatimBits := r.ReadBits(extra - 3);
        var alignedBits := ReadAligned(r);
        v := verbatimBits * 8 + alignedBits;
      } else if kind == AlignedOffset && extra == 3 {
        EightTimes(0);
        NoBits(r.mem, r.Pos());
        v := ReadAligned(r);
      } else {
        ValBound(r.mem, r.Pos(), extra);
        v := r.ReadBits(extra);
      }
    }

    // What follows the main symbol of a match: length, and position in the slot.
    method ReadMatch(r: Reader, kind: BlockType, mainElement: nat, ghost q: nat)
      returns (number: nat, v: nat, matchLength: nat)
      requires Valid(kind) && r.Valid() && NUM_CHARS <= mainElement < MAIN_SYMBOLS
      requires r.Pos() == q + InForce().main[mainElement]
      modifies r
      ensures r.Valid() && ValidToken(Copy(number, v, matchLength))
      ensures var t := Copy(number, v, matchLength);
        && MainOf(t) == mainElement
        && (HasFooter(t) ==>
          SymbolAt(InForce().length, LENGTH_BITS, r.mem, AfterMain(InForce(), q, t), t.length - MIN_MATCH - PRIMARY))
        && PositionAt(kind, InForce(), r.mem, AfterFooter(InForce(), q, t), number, v)
        && r.Pos() == EndOf(kind, InForce(), q, t)
    {
      hide ExtraBits, SymbolAt, PositionAt, SlotSize, Splits, ValidCodes, Valid, Reader.Valid;
      InForceValid(kind);
      var rest: nat := mainElement - NUM_CHARS;
      matchLength := rest % 8;
      if matchLength == PRIMARY {
        var lengthFooter := ReadLength(r, kind);
        matchLength := matchLength + lengthFooter;
      }
      matchLength := matchLength + MIN_MATCH;
      number := rest / 8;
      v := 0;
      if number > 2 {
        v := ReadPosition(r, kind, number);
      } else {
        SmallSlots(number);
        NoExtra(kind, InForce(), r.mem, r.Pos(), number);
      }
    }

    /** One token of a run: what is returned is what the bits spell, and exactly its
        bits are used up. */
    method ReadToken(r: Reader, kind: BlockType) returns (p: Piece, ghost t: Token)
      requires Valid(kind) && r.Valid()
      modifies r
      ensures r.Valid() && TokenAt(kind, InForce(), r.mem, old(r.Pos()), t) && p == PieceOf(t)
      ensures r.Pos() == EndOf(kind, InForce(), old(r.Pos()), t)
    {
      hide ExtraBits, SymbolAt, PositionAt, SlotSize, PositionBase, Splits, ValidCodes, Valid, Reader.Valid;
      InForceValid(kind);
      ghost var q := r.Pos();
      var mainElement := ReadMain(r, kind);
      if mainElement < NUM_CHARS {
        p, t := Literal(mainElement), Lit(mainElement);
      } else {
        var number, v, matchLength := ReadMatch(r, kind, mainElement, q);
        t := Copy(number, v, matchLength);
        if number > 2 {
          BaseAtLeast(number);
          p := Match(New(PositionBase(number) - 2 + v), matchLength);
        } else {
          p := Match(if number == 0 then Repeat0 else if number == 1 then Repeat1 else Repeat2, matchLength);
        }
      }
    }
  }

  lemma FewBits(number: nat)
    requires number < SLOTS
    ensures ExtraBits(number) <= 17
  {
  }

  lemma EightTimes(n: nat)
    ensures Shl(1, n + 3) == 8 * Shl(1, n)
  {
    ShlTwice(1, n, 3);
    assert Shl(Shl(1, n), 3) == 8 * Shl(1, n);
  }

  lemma NoBits(mem: Memory, q: nat)
    ensures Val(mem, q, 0) == 0 && Shl(1, 0) == 1
  {
  }

  lemma NoExtra(kind: BlockType, c: Codes, mem: Memory, q: nat, number: nat)
    requires number <= 2
    ensures PositionAt(kind, c, mem, q, number, 0) && ExtraBits(number) == 0 && !Splits(kind, number)
  {
  }
}
