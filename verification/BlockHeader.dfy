/** The header of an LZX block: its type and length, and the code lengths or the
    remembered offsets that come with it. */
module BlockHeader {
  import opened Wrappers
  import opened Shifts
  import opened Canonical
  import opened Forest
  import opened Huffman
  import opened BitReader
  import LittleEndian
  import opened Lz77
  import opened Tokens
  import C = CodeLengths
  import L = LengthCoding

  // Lengths of the arrays of code lengths, with 64 entries of safety each.
  const MAIN_LENS: nat := 720
  const LENGTH_LENS: nat := 314
  const ALIGNED_LENS: nat := 72

  // What LZXdecompress is given: memory from the input pointer on, how many bytes
  // of it are the input, and the number of main elements of the window.
  datatype Input = Input(mem: Memory, len: nat, elements: nat) {
    predicate Valid() {
      NUM_CHARS < elements <= MAIN_SYMBOLS
    }
  }

  // The bit stream that begins at a byte of the input.
  function Stream(mem: Memory, base: nat): Memory {
    i => mem(base + i)
  }

  // Where reading goes on: a bit of the stream begun at base, or a byte.
  datatype Place = Bits(base: nat, pos: nat) | Bytes(at: nat)

  // The code lengths that later blocks refer to, and those of the aligned code.
  datatype Lengths = Lengths(main: seq<Byte>, length: seq<Byte>, aligned: seq<Byte>) {
    ghost predicate Valid() {
      |main| == MAIN_LENS && |length| == LENGTH_LENS && |aligned| == ALIGNED_LENS
    }

    ghost function InForce(): Codes
      requires Valid()
    {
      Codes(main[..MAIN_SYMBOLS], length[..LENGTH_SYMBOLS], aligned[..ALIGNED_SYMBOLS])
    }
  }

  // ---------- one list of lengths ----------

  datatype LensRead = LensRead(lens: seq<Byte>, end: nat, far: nat)

  // What reading lengths first..last-1 at bit q makes of the old ones.
  ghost function LensAt(mem: Memory, q: nat, old_: seq<Byte>, first: nat, last: nat): (r: Option<LensRead>)
    requires first <= last && last + 50 <= |old_|
    ensures r.Some? ==> |r.value.lens| == |old_| && q + 80 <= r.value.end <= r.value.far
  {
    var pre, p := C.PretreeAt(mem, q), q + 80;
    if Accepted(pre, C.PRETREE_BITS) && exists ts :: C.Spells(pre, mem, p, ts, first, last) then
      var ts :| C.Spells(pre, mem, p, ts, first, last);
      RunsFit(ts, first, last);
      EndBeforeFar(pre, p, ts);
      Some(LensRead(C.Apply(ts, old_, first), p + C.Bits(pre, ts), C.Far(pre, p, ts)))
    else None
  }

  lemma EndBeforeFar(pre: seq<Byte>, p: nat, ts: seq<C.Token>)
    requires |pre| == C.PRETREE_SYMBOLS && C.AllValid(ts)
    ensures p + C.Bits(pre, ts) <= C.Far(pre, p, ts)
  {
  }

  lemma RunsFit(ts: seq<C.Token>, first: nat, last: nat)
    requires C.AllValid(ts) && C.Reaches(ts, first, last) && first <= last
    ensures first + C.Total(ts) <= last + 50
  {
  }

  lemma {:induction false} ZeroTotal(ts: seq<C.Token>)
    requires C.NoDifference(ts)
    ensures C.Total(ts) == |ts|
  {
    if ts != [] {
      ZeroTotal(ts[..|ts| - 1]);
    }
  }

  /** The stream has one list of lengths at a place. */
  lemma SpellsUnique(pre: seq<Byte>, mem: Memory, q: nat, ts: seq<C.Token>, us: seq<C.Token>, first: nat, last: nat)
    requires |pre| == C.PRETREE_SYMBOLS && Accepted(pre, C.PRETREE_BITS) && first <= last
    requires C.Spells(pre, mem, q, ts, first, last) && C.Spells(pre, mem, q, us, first, last)
    ensures ts == us
  {
    hide Complete, AllZero, C.Encoded;
    if Complete(pre, C.PRETREE_BITS) {
      L.EncodedUnique(pre, mem, q, ts, us, first, last);
    } else {
      SameZeros(ts, us, first, last);
    }
  }

  lemma SameZeros(ts: seq<C.Token>, us: seq<C.Token>, first: nat, last: nat)
    requires C.NoDifference(ts) && C.NoDifference(us) && first <= last
    requires C.Reaches(ts, first, last) && C.Reaches(us, first, last)
    ensures ts == us
  {
    ZeroTotal(ts);
    ZeroTotal(us);
    if ts != [] {
      ZeroTotal(ts[..|ts| - 1]);
    }
    if us != [] {
      ZeroTotal(us[..|us| - 1]);
    }
  }

  lemma LensFound(mem: Memory, q: nat, old_: seq<Byte>, first: nat, last: nat, ts: seq<C.Token>)
    requires first <= last && last + 50 <= |old_|
    requires Accepted(C.PretreeAt(mem, q), C.PRETREE_BITS)
    requires C.Spells(C.PretreeAt(mem, q), mem, q + 80, ts, first, last)
    ensures first + C.Total(ts) <= |old_|
    ensures LensAt(mem, q, old_, first, last) ==
      Some(LensRead(C.Apply(ts, old_, first), q + 80 + C.Bits(C.PretreeAt(mem, q), ts),
                    C.Far(C.PretreeAt(mem, q), q + 80, ts)))
  {
    hide Complete, AllZero, Accepted, C.Encoded, C.Apply, C.Bits, C.Far, C.PretreeAt;
    RunsFit(ts, first, last);
    var pre, p := C.PretreeAt(mem, q), q + 80;
    forall us | C.Spells(pre, mem, p, us, first, last)
      ensures us == ts
    {
      SpellsUnique(pre, mem, p, ts, us, first, last);
    }
  }

  // ---------- the header ----------

  datatype Header = Bad | Good(kind: BlockType, length: nat, lru: Option<Lru>, lens: Lengths, next: Place)

  // Whether the input pointer has run off the input, but for bits that were only
  // looked at.
  predicate Exhausted(len: nat, at: nat, bitsleft: int) {
    at > len && (at > len + 2 || bitsleft < 16)
  }

  // The end of the word in which bit far - 1 lies.
  function WordEnd(far: nat): nat {
    2 * ((far + 15) / 16)
  }

  // The lengths of the main and the length code of a verbatim or aligned block.
  ghost function CodedHeader(i: Input, base: nat, q: nat, kind: BlockType, length: nat, lens: Lengths): (h: Header)
    requires i.Valid() && lens.Valid()
    ensures h.Good? ==> h.lens.Valid()
  {
    var mem := Stream(i.mem, base);
    match LensAt(mem, q, lens.main, 0, NUM_CHARS)
    case None => Bad
    case Some(a) =>
      match LensAt(mem, a.end, a.lens, NUM_CHARS, i.elements)
      case None => Bad
      case Some(b) =>
        if !Accepted(b.lens[..MAIN_SYMBOLS], MAIN_BITS) then Bad
        else
          match LensAt(mem, b.end, lens.length, 0, LENGTH_SYMBOLS - 1)
          case None => Bad
          case Some(c) =>
            if !Accepted(c.lens[..LENGTH_SYMBOLS], LENGTH_BITS) then Bad
            else if Exhausted(i.len, base + WordEnd(c.far), 8 * WordEnd(c.far) - c.end) then Bad
            else Good(kind, length, None, Lengths(b.lens, c.lens, lens.aligned), Bits(base, c.end))
  }

  // The eight lengths of the aligned code, three bits each.
  ghost function AlignedAt(mem: Memory, q: nat): (s: seq<Byte>)
    ensures |s| == ALIGNED_SYMBOLS
  {
    seq(ALIGNED_SYMBOLS, i requires 0 <= i < ALIGNED_SYMBOLS => AlignedLen(mem, q, i))
  }

  ghost function AlignedLen(mem: Memory, q: nat, i: nat): Byte {
    C.ValSmall(mem, q + 3 * i, 3);
    Val(mem, q + 3 * i, 3)
  }

  function Long(mem: Memory, at: nat): nat {
    LittleEndian.Word(mem(at), mem(at + 1), mem(at + 2), mem(at + 3))
  }

  // Uncompressed blocks go on at the next 16-bit boundary; where there is one
  // already, a whole word is skipped.
  ghost function PlainHeader(i: Input, base: nat, q: nat, length: nat, lens: Lengths): Header {
    var at := base + 2 * (q / 16 + 1);
    if at + 12 > i.len + 2 then Bad
    else Good(Uncompressed, length, Some(Lru(Long(i.mem, at), Long(i.mem, at + 4), Long(i.mem, at + 8))), lens,
              Bytes(at + 12))
  }

  ghost function AlignedHeader(i: Input, base: nat, q: nat, length: nat, lens: Lengths): (h: Header)
    requires i.Valid() && lens.Valid()
    ensures h.Good? ==> h.lens.Valid()
  {
    var aligned := AlignedAt(Stream(i.mem, base), q);
    if Accepted(aligned, ALIGNED_BITS) then
      CodedHeader(i, base, q + 24, AlignedOffset, length,
                  Lengths(lens.main, lens.length, aligned + lens.aligned[ALIGNED_SYMBOLS..]))
    else Bad
  }

  ghost function HeaderAt(i: Input, base: nat, q: nat, lens: Lengths): (h: Header)
    requires i.Valid() && lens.Valid()
    ensures h.Good? ==> h.lens.Valid() && h.kind != Invalid && (h.kind == Uncompressed <==> h.next.Bytes?)
    ensures h.Good? ==> (h.kind == Uncompressed <==> h.lru.Some?)
  {
    var mem := Stream(i.mem, base);
    var kind, length := Val(mem, q, 3), 256 * Val(mem, q + 3, 16) + Val(mem, q + 19, 8);
    if kind == 1 then CodedHeader(i, base, q + 27, Verbatim, length, lens)
    else if kind == 2 then AlignedHeader(i, base, q + 27, length, lens)
    else if kind == 3 then PlainHeader(i, base, q + 27, length, lens)
    else Bad
  }

  // How many bits into the input a place is.
  function Gone(p: Place): nat {
    match p
    case Bits(base, pos) => 8 * base + pos
    case Bytes(at) => 8 * at
  }

  /** A header goes forward, and one that is accepted ends within the input, but for
      the two bytes that may be looked at. */
  lemma HeaderEnds(i: Input, base: nat, q: nat, lens: Lengths)
    requires i.Valid() && lens.Valid() && HeaderAt(i, base, q, lens).Good?
    ensures 8 * base + q < Gone(HeaderAt(i, base, q, lens).next) <= 8 * (i.len + 2)
  {
    hide LensAt, Accepted, Val;
  }

  // ---------- reading it ----------

  // The code lengths and tables of the state.
  class Tables {
    const trees: Trees
    const preLen: array<Byte>
    const preTable: array<Word>

    ghost predicate Sized() {
      && trees.mainLen.Length == MAIN_LENS && trees.lengthLen.Length == LENGTH_LENS
      && trees.alignedLen.Length == ALIGNED_LENS && C.PRETREE_SYMBOLS <= preLen.Length
      && Room(trees.mainTable, MAIN_SYMBOLS, MAIN_BITS) && Room(trees.lengthTable, LENGTH_SYMBOLS, LENGTH_BITS)
      && Room(trees.alignedTable, ALIGNED_SYMBOLS, ALIGNED_BITS)
      && 64 + 2 * (C.PRETREE_SYMBOLS + 16 - C.PRETREE_BITS) <= preTable.Length
      && trees.mainLen != trees.lengthLen && trees.mainLen != trees.alignedLen && trees.mainLen != preLen
      && trees.lengthLen != trees.alignedLen && trees.lengthLen != preLen && trees.alignedLen != preLen
      && trees.mainTable != trees.lengthTable && trees.mainTable != trees.alignedTable && trees.mainTable != preTable
      && trees.lengthTable != trees.alignedTable && trees.lengthTable != preTable && trees.alignedTable != preTable
    }

    ghost function Lens(): (l: Lengths)
      requires Sized()
      reads trees.mainLen, trees.lengthLen, trees.alignedLen
      ensures l.Valid() && l.InForce() == trees.InForce()
    {
      Lengths(trees.mainLen[..], trees.lengthLen[..], trees.alignedLen[..])
    }

    ghost function Repr(): set<object> {
      {trees.mainLen as object, trees.lengthLen, trees.alignedLen, preLen,
       trees.mainTable, trees.lengthTable, trees.alignedTable, preTable}
    }

    // All lengths zero, as the first differences expect; the safety areas do not
    // matter.
    constructor ()
      ensures Sized() && fresh(trees) && fresh(Repr())
      ensures Lens().main[..MAIN_SYMBOLS] == Zeros(MAIN_SYMBOLS)
      ensures Lens().length[..LENGTH_SYMBOLS] == Zeros(LENGTH_SYMBOLS)
    {
      hide Shl, Zeros;
      var mainLen, lengthLen, alignedLen := new Byte[MAIN_LENS], new Byte[LENGTH_LENS], new Byte[ALIGNED_LENS];
      var mainTable := new Word[Shl(1, MAIN_BITS) + 2 * (MAIN_SYMBOLS + 16 - MAIN_BITS)];
      var lengthTable := new Word[Shl(1, LENGTH_BITS) + 2 * (LENGTH_SYMBOLS + 16 - LENGTH_BITS)];
      var alignedTable := new Word[Shl(1, ALIGNED_BITS) + 2 * (ALIGNED_SYMBOLS + 16 - ALIGNED_BITS)];
      trees := new Trees(mainLen, mainTable, lengthLen, lengthTable, alignedLen, alignedTable);
      preLen, preTable := new Byte[84], new Word[124];
      new;
      Clear(trees.mainLen, MAIN_SYMBOLS);
      Clear(trees.lengthLen, LENGTH_SYMBOLS);
    }

    // What LZXreset does to the lengths.
    method ClearLens()
      requires Sized()
      modifies trees.mainLen, trees.lengthLen
      ensures Lens().main == Zeros(MAIN_LENS) && Lens().length == Zeros(LENGTH_LENS)
    {
      hide Shl;
      Clear(trees.mainLen, MAIN_LENS);
      Clear(trees.lengthLen, LENGTH_LENS);
    }

    method ReadLengths(lens: array<Byte>, first: nat, last: nat, r: Reader) returns (err: bool)
      requires Sized() && lens != preLen && r.Valid() && first < last && last + 50 <= lens.Length
      modifies r, lens, preLen, preTable
      ensures r.Valid() && r.bitsleft == 8 * r.inpos - r.Pos()
      ensures !err <==> LensAt(r.mem, old(r.Pos()), old(lens[..]), first, last).Some?
      ensures !err ==> lens[..] == LensAt(r.mem, old(r.Pos()), old(lens[..]), first, last).value.lens
      ensures !err ==> r.Pos() == LensAt(r.mem, old(r.Pos()), old(lens[..]), first, last).value.end
      ensures !err ==> r.inpos == WordEnd(LensAt(r.mem, old(r.Pos()), old(lens[..]), first, last).value.far)
    {
      hide Complete, AllZero, Accepted, C.Spells, C.Apply, C.Bits, C.Far, C.PretreeAt;
      ghost var q, was, old_ := r.Pos(), r.inpos, lens[..];
      ghost var ts;
      err, ts := C.ReadLens(lens, first, last, r, preLen, preTable);
      if !err {
        LensFound(r.mem, q, old_, first, last, ts);
        FarBeyond(C.PretreeAt(r.mem, q), q + 80, ts, first, last);
        AtWordEnd(r, was, C.Far(C.PretreeAt(r.mem, q), q + 80, ts));
      }
    }

    // The lengths of the main and the length code with their tables, and the check
    // that the input did not end before.
    method ReadCoded(i: Input, base: nat, r: Reader, kind: BlockType, ghost length: nat) returns (ok: bool)
      requires Sized() && i.Valid() && r.Valid() && r.mem == Stream(i.mem, base)
      requires kind == AlignedOffset ==>
        Usable(trees.alignedTable[..], trees.alignedLen[..ALIGNED_SYMBOLS], ALIGNED_BITS)
      modifies r, preLen, preTable, trees.mainLen, trees.mainTable, trees.lengthLen, trees.lengthTable
      ensures r.Valid()
      ensures ok <==> CodedHeader(i, base, old(r.Pos()), kind, length, old(Lens())).Good?
      ensures ok ==>
        && CodedHeader(i, base, old(r.Pos()), kind, length, old(Lens()))
          == Good(kind, length, None, Lens(), Bits(base, r.Pos()))
        && trees.Valid(kind)
    {
      hide LensAt, Accepted, Usable, Shl, Reader.Valid, WordEnd, Stream;
      RoomFor();
      ok := false;
      var err := ReadLengths(trees.mainLen, 0, NUM_CHARS, r);
      if err {
        return;
      }
      err := ReadLengths(trees.mainLen, NUM_CHARS, i.elements, r);
      if err {
        return;
      }
      err := BuildTable(MAIN_SYMBOLS, MAIN_BITS, trees.mainLen, trees.mainTable);
      if err {
        return;
      }
      err := ReadLengths(trees.lengthLen, 0, LENGTH_SYMBOLS - 1, r);
      if err {
        return;
      }
      err := BuildTable(LENGTH_SYMBOLS, LENGTH_BITS, trees.lengthLen, trees.lengthTable);
      if err {
        return;
      }
      ok := !Exhausted(i.len, base + r.inpos, r.bitsleft);
    }

    // The aligned code.
    method ReadAlignedCode(r: Reader) returns (err: bool)
      requires Sized() && r.Valid()
      modifies r, trees.alignedLen, trees.alignedTable
      ensures r.Valid() && r.Pos() == old(r.Pos()) + 24
      ensures trees.alignedLen[..] == AlignedAt(r.mem, old(r.Pos())) + old(trees.alignedLen[ALIGNED_SYMBOLS..])
      ensures !err <==> Accepted(AlignedAt(r.mem, old(r.Pos())), ALIGNED_BITS)
      ensures !err ==> Usable(trees.alignedTable[..], trees.alignedLen[..ALIGNED_SYMBOLS], ALIGNED_BITS)
    {
      hide Val, Shl, Accepted, Usable, Reader.Valid;
      ghost var q := r.Pos();
      RoomFor();
      for i := 0 to ALIGNED_SYMBOLS
        invariant r.Valid() && r.Pos() == q + 3 * i
        invariant forall k :: 0 <= k < i ==> trees.alignedLen[k] == AlignedLen(r.mem, q, k)
        invariant forall k :: i <= k < ALIGNED_LENS ==> trees.alignedLen[k] == old(trees.alignedLen[k])
      {
        C.ValSmall(r.mem, q + 3 * i, 3);
        var j := r.ReadBits(3);
        trees.alignedLen[i] := j;
      }
      assert trees.alignedLen[..ALIGNED_SYMBOLS] == AlignedAt(r.mem, q);
      assert trees.alignedLen[ALIGNED_SYMBOLS..] == old(trees.alignedLen[ALIGNED_SYMBOLS..]);
      err := BuildTable(ALIGNED_SYMBOLS, ALIGNED_BITS, trees.alignedLen, trees.alignedTable);
    }

    // The byte at which an uncompressed block goes on.
    method Align(r: Reader) returns (at: nat)
      requires r.Valid()
      modifies r
      ensures r.Valid() && at == 2 * (old(r.Pos()) / 16 + 1) && 16 <= r.bitsleft
    {
      hide Shl, Val;
      r.EnsureBits(16);
      at := r.inpos;
      if r.bitsleft > 16 {
        at := at - 2;
      }
      AlignedByte(r.Pos(), r.inpos, r.bitsleft);
    }

    method ReadPlain(i: Input, base: nat, r: Reader, ghost length: nat) returns (ok: bool, lru: Lru, at: nat)
      requires Sized() && r.Valid()
      modifies r
      ensures r.Valid()
      ensures ok <==> PlainHeader(i, base, old(r.Pos()), length, Lens()).Good?
      ensures ok ==>
        PlainHeader(i, base, old(r.Pos()), length, Lens())
        == Good(Uncompressed, length, Some(lru), Lens(), Bytes(at))
    {
      hide Reader.Valid, Shl, Tables.Sized;
      at := Align(r);
      at := base + at;
      lru := Lru(Long(i.mem, at), Long(i.mem, at + 4), Long(i.mem, at + 8));
      at := at + 12;
      ok := !Exhausted(i.len, at, r.bitsleft);
    }

    method ReadAligned(i: Input, base: nat, r: Reader, ghost length: nat) returns (ok: bool)
      requires Sized() && i.Valid() && r.Valid() && r.mem == Stream(i.mem, base)
      modifies r, preLen, preTable, trees.mainLen, trees.mainTable, trees.lengthLen, trees.lengthTable,
        trees.alignedLen, trees.alignedTable
      ensures r.Valid()
      ensures ok <==> AlignedHeader(i, base, old(r.Pos()), length, old(Lens())).Good?
      ensures ok ==>
        && AlignedHeader(i, base, old(r.Pos()), length, old(Lens()))
          == Good(AlignedOffset, length, None, Lens(), Bits(base, r.Pos()))
        && trees.Valid(AlignedOffset)
    {
      hide Val, CodedHeader, Accepted, Usable, Shl, Reader.Valid, Stream, AlignedAt;
      ok := false;
      var err := ReadAlignedCode(r);
      if !err {
        ok := ReadCoded(i, base, r, AlignedOffset, length);
      }
    }

    /** The header of a block: what is found is what the bits say, and errors are
        reported exactly when they make no header. */
    method ReadHeader(i: Input, base: nat, r: Reader)
      returns (ok: bool, kind: BlockType, length: nat, lru: Lru, at: nat)
      requires Sized() && i.Valid() && r.Valid() && r.mem == Stream(i.mem, base)
      modifies r, preLen, preTable, trees.mainLen, trees.mainTable, trees.lengthLen, trees.lengthTable,
        trees.alignedLen, trees.alignedTable
      ensures r.Valid()
      ensures ok <==> HeaderAt(i, base, old(r.Pos()), old(Lens())).Good?
      ensures ok && kind == Uncompressed ==>
        HeaderAt(i, base, old(r.Pos()), old(Lens())) == Good(kind, length, Some(lru), Lens(), Bytes(at))
      ensures ok && kind != Uncompressed ==>
        && HeaderAt(i, base, old(r.Pos()), old(Lens())) == Good(kind, length, None, Lens(), Bits(base, r.Pos()))
        && trees.Valid(kind) && kind != Invalid
    {
      hide Val, CodedHeader, AlignedHeader, PlainHeader, Usable, Accepted, Shl, Reader.Valid, Stream;
      ok, kind, length, lru, at := false, Invalid, 0, Lru(0, 0, 0), 0;
      var t := r.ReadBits(3);
      var hi := r.ReadBits(16);
      var lo := r.ReadBits(8);
      length := 256 * hi + lo;
      match t {
        case 1 =>
          kind := Verbatim;
          ok := ReadCoded(i, base, r, kind, length);
        case 2 =>
          kind := AlignedOffset;
          ok := ReadAligned(i, base, r, length);
        case 3 =>
          kind := Uncompressed;
          ok, lru, at := ReadPlain(i, base, r, length);
        case _ =>
      }
    }
  }

  lemma FarBeyond(pre: seq<Byte>, p: nat, ts: seq<C.Token>, first: nat, last: nat)
    requires |pre| == C.PRETREE_SYMBOLS && C.AllValid(ts) && C.Reaches(ts, first, last) && first < last
    ensures p + 16 <= C.Far(pre, p, ts)
  {
  }

  // Looking further than the buffer reached before loads up to the word looked at.
  lemma AtWordEnd(r: Reader, was: nat, far: nat)
    requires r.Valid() && r.Loaded(was, far) && 8 * was < far
    ensures r.inpos == WordEnd(far)
  {
    hide Shl, Val;
    WordsEnd(r.inpos, far);
  }

  lemma WordsEnd(p: nat, far: nat)
    requires p % 2 == 0 && far <= 8 * p < far + 16
    ensures p == WordEnd(far)
  {
    var k := p / 2;
    assert far + 15 - 16 * k < 16;
  }

  lemma RoomFor()
    ensures MAIN_SYMBOLS <= Shl(1, MAIN_BITS - 1) && LENGTH_SYMBOLS <= Shl(1, LENGTH_BITS - 1)
    ensures ALIGNED_SYMBOLS <= Shl(1, ALIGNED_BITS - 1)
  {
    assert Shl(1, 11) == Shl(4, 9) == Shl(16, 7) == Shl(64, 5) == Shl(256, 3) == Shl(1024, 1);
    assert Shl(1, 6) == Shl(4, 4) == Shl(16, 2);
  }

  // BUILD_TABLE.
  method BuildTable(nsyms: nat, nbits: nat, length: array<Byte>, table: array<Word>) returns (err: bool)
    requires 1 <= nbits <= 15 && nsyms <= length.Length && nsyms <= Shl(1, nbits - 1)
    requires Room(table, nsyms, nbits)
    modifies table
    ensures !err <==> Accepted(length[..nsyms], nbits)
    ensures !err ==> Usable(table[..], length[..nsyms], nbits)
  {
    hide Complete, AllZero, DecodesAll, Shl;
    DecodeTable.RoomIsSmall(length[..nsyms], nbits);
    err := MakeDecodeTable(nsyms, nbits, length, table);
  }

  lemma AlignedByte(q: nat, p: nat, left: nat)
    requires p % 2 == 0 && 8 * p == q + left && 16 <= left <= 32
    ensures (if left > 16 then p - 2 else p) == 2 * (q / 16 + 1)
  {
    var k := p / 2;
    assert q == 16 * k - left;
  }

  function Zeros(n: nat): seq<Byte> {
    seq(n, _ => 0)
  }

  method Clear(lens: array<Byte>, n: nat)
    requires n <= lens.Length
    modifies lens
    ensures lens[..n] == Zeros(n)
  {
    for i := 0 to n
      invariant forall k :: 0 <= k < i ==> lens[k] == 0
    {
      lens[i] := 0;
    }
  }

  // The room make_decode_table is given here.
  predicate Room(table: array<Word>, nsyms: nat, nbits: nat)
    requires nbits <= 16
  {
    Shl(1, nbits) + 2 * (nsyms + 16 - nbits) <= table.Length
  }
}
