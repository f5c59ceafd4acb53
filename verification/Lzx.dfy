/** LZXdecompress: header, blocks and runs of one compressed block, from its bits
    through the circular window to the output. */
module Lzx {
  import opened Wrappers
  import opened Shifts
  import opened Canonical
  import opened BitReader
  import opened E8
  import opened Lz77
  import opened PositionSlots
  import opened Tokens
  import opened BlockHeader
  import opened Iteration
  import opened Reference
  import opened Window

  // The run in progress: what the decoder holds is what the interpreter has.
  ghost predicate InRun(i: Input, c: Config, codes: Codes, mem: Memory, q: nat, w: seq<Byte>, left: int, posn: nat,
                        lru: Lru)
  {
    && i.Valid() && c.Valid(|w|) && c.verdict.None? && c.place.Bits? && c.left == left && c.posn == posn && c.lru == lru
    && mem == Stream(i.mem, c.place.base) && q == c.place.pos
    && c.lens.InForce() == codes && Ring(w, c.hist, posn)
  }

  // The interpreter's next token is the one read.
  lemma NextToken(i: Input, c0: Config, c: Config, codes: Codes, mem: Memory, q: nat, t: Token, w: seq<Byte>,
                  left: int, posn: nat, lru: Lru) returns (e: Config)
    requires Leads(Next(i, |w|), c0, c) && InRun(i, c, codes, mem, q, w, left, posn, lru) && 0 < left
    requires c.kind != Uncompressed && TokenAt(c.kind, codes, mem, q, t)
    ensures 0 < |w| <= |c.hist| && posn < |w| && Ring(w, c.hist, posn)
    ensures ValidToken(t) && (PieceOf(t).Literal? || (PieceOf(t).Match? && PieceOf(t).length >= MIN_MATCH))
    ensures ValidCodes(c.kind, codes) && c.place.Bits?
    ensures e == c.(place := Bits(c.place.base, EndOf(c.kind, codes, q, t)))
    ensures e.left == left && e.posn == posn && e.lru == lru && e.verdict.None?
    ensures var d := Produce(e, PieceOf(t), |w|);
      && Leads(Next(i, |w|), c0, d) && SameBlock(c, d) && d.place == e.place
      && (d.verdict.None? ==> d.Valid(|w|) && d.left < left)
  {
    hide TokenAt, EndOf, ValidCodes, Ring, Leads, Next, HeaderAt;
    assert ValidCodes(c.kind, codes) && ValidToken(t) by {
      TokenIs(c.kind, codes, mem, q, t);
    }
    RingSize(w, c.hist, posn);
    PieceKind(t);
    TokenFound(c.kind, codes, mem, q, t);
    e := c.(place := Bits(c.place.base, EndOf(c.kind, codes, q, t)));
    OneStep(i, c0, c, |w|);
  }

  lemma TokenIs(kind: BlockType, c: Codes, mem: Memory, q: nat, t: Token)
    requires TokenAt(kind, c, mem, q, t)
    ensures ValidCodes(kind, c) && ValidToken(t)
  {
  }

  // Nothing but what a run changes is different.
  ghost predicate SameBlock(c: Config, d: Config) {
    && c.lens == d.lens && c.kind == d.kind && c.length == d.length && c.rem == d.rem && c.togo == d.togo
    && c.started == d.started && (c.place.Bits? ==> d.place.Bits? && d.place.base == c.place.base)
  }

  // One token's worth of output into the window.
  method Carry(window: array<Byte>, p: Piece, left: int, posn: nat, lru: Lru, ghost c: Config)
    returns (status: Status, left': int, posn': nat, lru': Lru)
    requires 0 < window.Length && Ring(window[..], c.hist, posn) && posn < window.Length
    requires (p.Literal? || p.Match?) && c.posn == posn && c.lru == lru && c.left == left && c.verdict.None?
    modifies window
    ensures window.Length <= |c.hist|
    ensures Produce(c, p, window.Length).verdict == if status == Ok then None else Some(status)
    ensures status == Ok ==>
      var d := Produce(c, p, window.Length);
      d.left == left' && d.posn == posn' && d.lru == lru' && Ring(window[..], d.hist, posn')
    ensures status == Ok && p.Match? ==>
      Recalled(p.slot, lru, lru') && CopiesBack(c.hist, Produce(c, p, window.Length).hist, lru'.r0, window.Length)
  {
    hide Ring, CopiesBack;
    RingSize(window[..], c.hist, posn);
    if p.Match? && Produce(c, p, window.Length).verdict.None? {
      MatchRecalls(c, p.slot, p.length, window.Length);
    }
    status, left', posn', lru' := Ok, left, posn, lru;
    match p {
      case Literal(b) =>
        RingPut(window[..], c.hist, posn, b);
        window[posn] := b;
        posn', left' := posn + 1, left - 1;
      case Match(slot, length) =>
        var offset := Resolve(slot, lru);
        lru' := Touch(slot, lru);
        posn' := posn + length;
        if posn' > window.Length {
          return IllegalData, left', posn', lru';
        }
        left' := left - length;
        if offset > window.Length + posn {
          return Wild, left', posn', lru';
        }
        CopyMatch(window, posn, offset, length, c.hist);
    }
  }

  /** A verbatim or aligned run: as many steps of the interpreter, each a token of
      the stream. */
  method DecodeRun(i: Input, trees: Trees, r: Reader, kind: BlockType, window: array<Byte>, thisRun: nat, posn: nat,
                   lru: Lru, ghost c0: Config, ghost c: Config)
    returns (status: Status, posn': nat, lru': Lru, ghost d: Config)
    requires trees.Valid(kind) && r.Valid() && kind == c.kind && kind != Uncompressed
    requires window != trees.mainLen && window != trees.lengthLen && window != trees.alignedLen
    requires Leads(Next(i, window.Length), c0, c)
    requires InRun(i, c, trees.InForce(), r.mem, r.Pos(), window[..], thisRun, posn, lru)
    modifies r, window
    ensures trees.Valid(kind) && trees.InForce() == old(trees.InForce()) && r.Valid()
    ensures Leads(Next(i, window.Length), c0, d) && SameBlock(c, d)
    ensures d.verdict == if status == Ok then None else Some(status)
    ensures status == Ok ==>
      d.left <= 0 && InRun(i, d, trees.InForce(), r.mem, r.Pos(), window[..], d.left, posn', lru')
  {
    hide TokenAt, EndOf, PieceOf, ValidCodes, ValidToken, Ring, Produce, Leads, Next,
      Trees.Valid, Reader.Valid, Reader.Pos;
    trees.InForceValid(kind);
    status, posn', lru', d := Ok, posn, lru, c;
    var left: int := thisRun;
    while left > 0
      invariant status == Ok && Leads(Next(i, window.Length), c0, d) && SameBlock(c, d)
      invariant trees.Valid(kind) && trees.InForce() == old(trees.InForce()) && r.Valid()
      invariant InRun(i, d, trees.InForce(), r.mem, r.Pos(), window[..], left, posn', lru')
    {
      ghost var q := r.Pos();
      var p;
      ghost var t;
      p, t := trees.ReadToken(r, kind);
      ghost var e := NextToken(i, c0, d, trees.InForce(), r.mem, q, t, window[..], left, posn', lru');
      d := Produce(e, p, window.Length);
      status, left, posn', lru' := Carry(window, p, left, posn', lru', e);
      if status != Ok {
        return;
      }
    }
  }

  lemma PieceKind(t: Token)
    requires ValidToken(t)
    ensures PieceOf(t).Literal? || (PieceOf(t).Match? && PieceOf(t).length >= MIN_MATCH)
  {
    hide SlotSize;
  }

  // An uncompressed run: its bytes are copied into the window.
  method CopyRaw(mem: Memory, at: nat, n: nat, window: array<Byte>, posn: nat, ghost h: seq<Byte>)
    requires Ring(window[..], h, posn) && posn + n <= window.Length
    modifies window
    ensures Ring(window[..], h + Stretch(mem, at, n), posn + n)
  {
    hide Ring;
    ghost var bytes := Stretch(mem, at, n);
    assert h + bytes[..0] == h;
    for k := 0 to n
      invariant Ring(window[..], h + bytes[..k], posn + k)
    {
      RingPut(window[..], h + bytes[..k], posn + k, mem(at + k));
      assert h + bytes[..k] + [bytes[k]] == h + bytes[..k + 1];
      window[posn + k] := mem(at + k);
    }
    assert bytes[..n] == bytes;
  }

  // What a decoder keeps between blocks.
  datatype Past = Past(lens: Lengths, kind: BlockType, length: nat, rem: nat, posn: nat, lru: Lru, started: bool,
                       hist: seq<Byte>, headerRead: bool, frames: nat, filesize: int, curpos: int)

  // Where the interpreter begins with the next block.
  ghost function Start(p: Past, mem: Memory, outlen: nat): Config {
    var place := if p.kind == Uncompressed then Bytes(0)
                 else Bits(0, if p.headerRead then 0 else FlagBits(Stream(mem, 0)));
    Config(place, p.lens, p.kind, p.length, p.rem, 0, outlen, p.posn, p.lru, p.started, p.hist, None)
  }

  class LzxState {
    const window: array<Byte>
    const mainElements: nat
    const tables: Tables
    var windowPosn: nat
    var lru: Lru
    var headerRead: bool
    var blockType: BlockType
    var blockLength: nat
    var blockRemaining: nat
    var framesRead: nat
    var intelFilesize: int
    var intelCurpos: int
    var intelStarted: bool
    // All bytes decoded so far, behind the window's initial contents.
    ghost var hist: seq<Byte>

    ghost predicate Shape() {
      && 0 < window.Length && NUM_CHARS < mainElements <= MAIN_SYMBOLS && tables.Sized()
      && window != tables.trees.mainLen && window != tables.trees.lengthLen && window != tables.trees.alignedLen
      && window != tables.preLen
    }

    // What is common to the decoder's state and the interpreter's between runs.
    ghost predicate Shows(i: Input, c: Config, r: Reader, base: nat, at: nat, togo: nat, posn: nat, offsets: Lru)
      reads this, r, window,
        tables.trees.mainLen, tables.trees.mainTable, tables.trees.lengthLen, tables.trees.lengthTable,
        tables.trees.alignedLen, tables.trees.alignedTable
    {
      && Shape() && i.Valid() && i.elements == mainElements && c.Valid(window.Length) && c.verdict.None? && c.left <= 0
      && c.lens == tables.Lens() && c.kind == blockType && c.length == blockLength && c.rem == blockRemaining
      && c.started == intelStarted && c.togo == togo && c.posn == posn && c.lru == offsets
      && Ring(window[..], c.hist, posn) && r.Valid()
      && (if blockType == Uncompressed then c.place == Bytes(at)
          else c.place == Bits(base, r.Pos()) && r.mem == Stream(i.mem, base))
      && TablesReady()
    }

    // A block that has not ended has its tables.
    ghost predicate TablesReady()
      reads this,
        tables.trees.mainLen, tables.trees.mainTable, tables.trees.lengthLen, tables.trees.lengthTable,
        tables.trees.alignedLen, tables.trees.alignedTable
    {
      blockRemaining > 0 ==>
        blockType != Invalid && (blockType != Uncompressed ==> tables.trees.Valid(blockType))
    }

    ghost predicate Valid()
      reads this, window,
        tables.trees.mainLen, tables.trees.mainTable, tables.trees.lengthLen, tables.trees.lengthTable,
        tables.trees.alignedLen, tables.trees.alignedTable
    {
      && Shape() && Ring(window[..], hist, windowPosn) && TablesReady()
      && InPhase(|hist|, windowPosn, window.Length)
      && (!headerRead ==> blockType == Invalid && blockRemaining == 0)
    }

    // Nothing has been decoded.
    ghost predicate AtStart()
      reads this, window
    {
      && hist == window[..] && windowPosn == 0 && lru == Lru(1, 1, 1) && blockRemaining == 0 && blockType == Invalid
      && !headerRead && framesRead == 0 && intelCurpos == 0 && !intelStarted
    }

    constructor (bits: nat)
      requires 15 <= bits <= 21
      ensures Valid() && fresh(window) && fresh(tables) && fresh(tables.Repr()) && window.Length == Shl(1, bits)
      ensures mainElements == NUM_CHARS + 8 * PosnSlots(bits)
      ensures AtStart()
      ensures tables.Lens().main[..MAIN_SYMBOLS] == Zeros(MAIN_SYMBOLS)
      ensures tables.Lens().length[..LENGTH_SYMBOLS] == Zeros(LENGTH_SYMBOLS)
    {
      hide Shl, Ring, Zeros;
      WindowSize(bits);
      window := new Byte[Shl(1, bits)];
      mainElements := NUM_CHARS + 8 * PosnSlots(bits);
      tables := new Tables();
      windowPosn, lru, headerRead := 0, Lru(1, 1, 1), false;
      blockType, blockLength, blockRemaining := Invalid, 0, 0;
      framesRead, intelFilesize, intelCurpos, intelStarted := 0, 0, 0, false;
      new;
      hist := window[..];
      RingSelf(window[..]);
    }

    /** LZXreset: the code lengths are zero again, the window's bytes stay, but as an
        anonymous past. */
    method Reset()
      requires Shape()
      modifies this, tables.trees.mainLen, tables.trees.lengthLen
      ensures Valid() && AtStart()
      ensures tables.Lens().main == Zeros(MAIN_LENS) && tables.Lens().length == Zeros(LENGTH_LENS)
    {
      hide Ring, Zeros, Shl, Trees.Valid, Tables.Sized;
      tables.ClearLens();
      windowPosn, lru, headerRead, blockType, blockRemaining := 0, Lru(1, 1, 1), false, Invalid, 0;
      framesRead, intelCurpos, intelStarted := 0, 0, false;
      hist := window[..];
      RingSelf(window[..]);
    }

    method RunRaw(i: Input, at: nat, thisRun: nat, posn: nat, ghost c0: Config, ghost c: Config)
      returns (status: Status, ghost d: Config)
      requires 0 < thisRun && Ring(window[..], c.hist, posn) && i.Valid() && c.Valid(window.Length)
      requires Leads(Next(i, window.Length), c0, c)
      requires c.verdict.None? && c.kind == Uncompressed && c.place == Bytes(at) && c.left == thisRun && c.posn == posn
      modifies window
      ensures Leads(Next(i, window.Length), c0, d) && SameBlock(c, d)
      ensures d.verdict == if status == Ok then None else Some(status)
      ensures status == Ok ==>
        && d.left == 0 && d.place == Bytes(at + thisRun) && d.posn == posn + thisRun && d.lru == c.lru
        && Ring(window[..], d.hist, d.posn) && d.Valid(window.Length)
    {
      hide Ring, Leads, Next;
      OneStep(i, c0, c, window.Length);
      d := RawStep(i, c);
      if at + thisRun > i.len {
        return IllegalData, d;
      }
      CopyRaw(i.mem, at, thisRun, window, posn, c.hist);
      status := Ok;
    }

    // One run of the current block: as much of it as the block and the output
    // still ask for.
    method DoRun(i: Input, r: Reader, base: nat, at: nat, togo: nat, posn: nat, offsets: Lru,
                 ghost c0: Config, ghost c: Config)
      returns (status: Status, at': nat, togo': nat, posn': nat, offsets': Lru, ghost d: Config)
      requires Shows(i, c, r, base, at, togo, posn, offsets) && Leads(Next(i, window.Length), c0, c)
      requires 0 < blockRemaining && 0 < togo
      modifies r, this`blockRemaining, window
      ensures Leads(Next(i, window.Length), c0, d)
      ensures d.verdict == if status == Ok then None else Some(status)
      ensures status == Ok ==> Shows(i, d, r, base, at', togo', posn', offsets') && togo' < togo
    {
      hide Shl, Ring, Leads, Next, Usable, Reader.Valid, Trees.Valid, Reader.Pos, Tables.Sized, Stream;
      d := NextRun(i, c0, c, window.Length);
      at', offsets' := at, offsets;
      var thisRun := if blockRemaining > togo then togo else blockRemaining;
      togo' := togo - thisRun;
      blockRemaining := blockRemaining - thisRun;
      MaskRing(window[..], c.hist, posn);
      posn' := posn % window.Length;
      if posn' + thisRun > window.Length {
        return DataFormat, at', togo', posn', offsets', d;
      }
      if blockType == Uncompressed {
        status, d := RunRaw(i, at, thisRun, posn', c0, d);
        at', posn' := at + thisRun, posn' + thisRun;
      } else {
        status, posn', offsets', d := DecodeRun(i, tables.trees, r, blockType, window, thisRun, posn', offsets, c0, d);
      }
    }

    // Behind an uncompressed block the bit stream begins anew.
    method StreamHere(i: Input, r: Reader, base: nat, at: nat, ghost c: Config) returns (r': Reader, base': nat)
      requires r.Valid() && c.kind == blockType && c.length == blockLength
      requires if blockType == Uncompressed then c.place == Bytes(at)
        else c.place == Bits(base, r.Pos()) && r.mem == Stream(i.mem, base)
      ensures r' == r || fresh(r')
      ensures r'.Valid() && r'.mem == Stream(i.mem, base') && HeaderPlace(c) == (base', r'.Pos())
    {
      hide Reader.Valid, Reader.Pos;
      r', base' := r, base;
      if blockType == Uncompressed {
        base' := at + blockLength % 2;
        r' := new Reader(Stream(i.mem, base'));
      }
    }

    // The header into the state.
    method TakeHeader(i: Input, r: Reader, base: nat) returns (ok: bool, read: Lru, at: nat)
      requires Shape() && i.Valid() && r.Valid() && r.mem == Stream(i.mem, base)
      modifies r, this`blockType, this`blockLength, this`blockRemaining, this`intelStarted,
        tables.preLen, tables.preTable, tables.trees.mainLen, tables.trees.mainTable, tables.trees.lengthLen,
        tables.trees.lengthTable, tables.trees.alignedLen, tables.trees.alignedTable
      ensures r.Valid()
      ensures ok <==> HeaderAt(i, base, old(r.Pos()), old(tables.Lens())).Good?
      ensures ok ==>
        HeaderAt(i, base, old(r.Pos()), old(tables.Lens())) ==
        Good(blockType, blockLength, if blockType == Uncompressed then Some(read) else None, tables.Lens(),
             if blockType == Uncompressed then Bytes(at) else Bits(base, r.Pos()))
      ensures ok ==> blockRemaining == blockLength && TablesReady()
      ensures ok ==>
        (intelStarted <==>
         old(intelStarted) || blockType == Uncompressed || tables.Lens().main[E8_LEADER] != 0)
    {
      hide Shl, Reader.Valid, Reader.Pos, Trees.Valid, HeaderAt, Stream, Room;
      var kind, length;
      ok, kind, length, read, at := tables.ReadHeader(i, base, r);
      blockType, blockLength, blockRemaining := kind, length, length;
      if ok {
        intelStarted := intelStarted || kind == Uncompressed || tables.trees.mainLen[E8_LEADER] != 0;
      }
    }

    // The header of the next block.
    method BeginBlock(i: Input, r: Reader, base: nat, at: nat, togo: nat, posn: nat, offsets: Lru,
                      ghost c0: Config, ghost c: Config)
      returns (status: Status, r': Reader, base': nat, at': nat, offsets': Lru, ghost d: Config)
      requires Shows(i, c, r, base, at, togo, posn, offsets) && Leads(Next(i, window.Length), c0, c)
      requires blockRemaining == 0 && 0 < togo
      modifies r, this`blockType, this`blockLength, this`blockRemaining, this`intelStarted,
        tables.preLen, tables.preTable, tables.trees.mainLen, tables.trees.mainTable, tables.trees.lengthLen,
        tables.trees.lengthTable, tables.trees.alignedLen, tables.trees.alignedTable
      ensures r' == r || fresh(r')
      ensures Leads(Next(i, window.Length), c0, d)
      ensures d.verdict == if status == Ok then None else Some(status)
      ensures status == Ok ==>
        Shows(i, d, r', base', at', togo, posn, offsets') && Gone(c.place) < Gone(d.place) <= 8 * (i.len + 2)
    {
      hide Shl, Ring, Leads, Next, Reader.Valid, Reader.Pos, Trees.Valid, HeaderAt, Stream, Room, Gone;
      r', base' := StreamHere(i, r, base, at, c);
      d := NextHeader(i, c0, c, window.Length, base', r'.Pos());
      var ok, read;
      ok, read, at' := TakeHeader(i, r', base');
      offsets' := if blockType == Uncompressed then read else offsets;
      status := if ok then Ok else IllegalData;
    }

    // The runs of the current block that still fit the output.
    method DoRuns(i: Input, r: Reader, base: nat, at: nat, togo: nat, posn: nat, offsets: Lru,
                  ghost c0: Config, ghost c: Config)
      returns (status: Status, at': nat, togo': nat, posn': nat, offsets': Lru, ghost d: Config)
      requires Shows(i, c, r, base, at, togo, posn, offsets) && Leads(Next(i, window.Length), c0, c)
      modifies r, this`blockRemaining, window
      ensures Leads(Next(i, window.Length), c0, d)
      ensures d.verdict == if status == Ok then None else Some(status)
      ensures status == Ok ==>
        && Shows(i, d, r, base, at', togo', posn', offsets') && (blockRemaining == 0 || togo' == 0)
        && (togo' < togo || (togo' == togo && d == c))
      ensures status == Ok && 0 < old(blockRemaining) && 0 < togo ==> togo' < togo
    {
      hide Leads, Next, Shows, Shape;
      status, at', togo', posn', offsets', d := Ok, at, togo, posn, offsets, c;
      ShowsVerdict(i, c, r, base, at, togo, posn, offsets);
      while blockRemaining > 0 && togo' > 0
        invariant status == Ok && d.verdict.None? && Leads(Next(i, window.Length), c0, d)
        invariant Shows(i, d, r, base, at', togo', posn', offsets')
        invariant togo' < togo || (togo' == togo && d == c && blockRemaining == old(blockRemaining))
        decreases togo'
      {
        status, at', togo', posn', offsets', d := DoRun(i, r, base, at', togo', posn', offsets', c0, d);
        if status != Ok {
          return;
        }
      }
    }

    lemma ShowsVerdict(i: Input, c: Config, r: Reader, base: nat, at: nat, togo: nat, posn: nat, offsets: Lru)
      requires Shows(i, c, r, base, at, togo, posn, offsets)
      ensures c.verdict.None? && c.Valid(window.Length) && i.Valid() && c.left <= 0 && c.togo == togo
      ensures c.posn == posn && c.lru == offsets && Ring(window[..], c.hist, posn) && Shape()
      ensures c.lens == tables.Lens() && c.kind == blockType && c.length == blockLength && c.rem == blockRemaining
      ensures c.started == intelStarted && TablesReady()
    {
    }

    // The main decoding loop.  Without a header nothing has been read yet, and the
    // input cannot be exhausted; that check is part of reading a header.
    method DecodeBlocks(i: Input, outlen: nat, r0: Reader, base0: nat, at0: nat, ghost c0: Config)
      returns (status: Status, posn: nat, offsets: Lru, ghost d: Config)
      requires Shows(i, c0, r0, base0, at0, outlen, windowPosn, lru)
      modifies r0, this`blockType, this`blockLength, this`blockRemaining, this`intelStarted, window,
        tables.preLen, tables.preTable, tables.trees.mainLen, tables.trees.mainTable, tables.trees.lengthLen,
        tables.trees.lengthTable, tables.trees.alignedLen, tables.trees.alignedTable
      ensures Leads(Next(i, window.Length), c0, d) && d.verdict == Some(status)
      ensures status == Ok ==>
        && d.posn == posn && d.lru == offsets && Ring(window[..], d.hist, posn) && Shape()
        && InPhase(|d.hist|, posn, window.Length)
        && d.lens == tables.Lens() && d.kind == blockType && d.length == blockLength && d.rem == blockRemaining
        && d.started == intelStarted && TablesReady()
    {
      hide Leads, Next, Shows, Shape, HeaderAt, Ring, Gone, Tables.Sized, Lengths.Valid, TablesReady;
      var r, base, at, togo := r0, base0, at0, outlen;
      status, posn, offsets, d := Ok, windowPosn, lru, c0;
      LeadsSelf(Next(i, window.Length), c0);
      while togo > 0
        invariant status == Ok && (r == r0 || fresh(r)) && Leads(Next(i, window.Length), c0, d)
        invariant Shows(i, d, r, base, at, togo, posn, offsets)
        decreases togo, 8 * (i.len + 2) - Gone(d.place)
      {
        if blockRemaining == 0 {
          status, r, base, at, offsets, d := BeginBlock(i, r, base, at, togo, posn, offsets, c0, d);
          if status != Ok {
            return;
          }
        }
        status, at, togo, posn, offsets, d := DoRuns(i, r, base, at, togo, posn, offsets, c0, d);
        if status != Ok {
          return;
        }
      }
      ShowsVerdict(i, d, r, base, at, togo, posn, offsets);
      OneStep(i, c0, d, window.Length);
      d := d.End(Ok);
    }

    // Where the interpreter begins.
    ghost function Begin(mem: Memory, outlen: nat): Config
      requires Shape()
      reads this, tables.trees.mainLen, tables.trees.lengthLen, tables.trees.alignedLen
    {
      Start(Held(), mem, outlen)
    }

    ghost function Held(): Past
      requires Shape()
      reads this, tables.trees.mainLen, tables.trees.lengthLen, tables.trees.alignedLen
    {
      Past(tables.Lens(), blockType, blockLength, blockRemaining, windowPosn, lru, intelStarted, hist,
           headerRead, framesRead, intelFilesize, intelCurpos)
    }

    // The size of the file whose calls have been translated, from the first bits of
    // the first block.
    method ReadFilesize(r: Reader)
      requires r.Valid() && r.Pos() == 0
      modifies r, this`intelFilesize
      ensures r.Valid() && r.Pos() == FlagBits(r.mem) && intelFilesize == FilesizeAt(r.mem)
    {
      hide Reader.Valid, Reader.Pos, Val;
      intelFilesize := 0;
      var k := r.ReadBits(1);
      if k != 0 {
        var hi := r.ReadBits(16);
        var lo := r.ReadBits(16);
        intelFilesize := Signed32(65536 * hi + lo);
      }
    }

    // The last outlen bytes up to a position, out of the window.
    method CopyOut(outpos: array<Byte>, from: nat)
      requires outpos.Length <= from <= window.Length && outpos != window
      modifies outpos
      ensures outpos[..] == window[from - outpos.Length..from]
    {
      for i := 0 to outpos.Length
        invariant forall j :: 0 <= j < i ==> outpos[j] == window[from - outpos.Length + j]
      {
        outpos[i] := window[from - outpos.Length + i];
      }
    }

    // Hands out the decoded block and runs the E8 pass over it.
    method Deliver(outpos: array<Byte>, from: nat, ghost posn: nat, ghost h: seq<Byte>)
      requires Ring(window[..], h, posn) && outpos != window && outpos.Length <= from
      requires from == if posn == 0 then window.Length else posn
      modifies this`framesRead, this`intelCurpos, outpos
      ensures framesRead == old(framesRead) + 1
      ensures intelCurpos == PositionAfter(old(framesRead), intelFilesize, old(intelCurpos), outpos.Length)
      ensures Delivered(outpos[..], h, old(framesRead), intelFilesize, intelStarted, old(intelCurpos))
    {
      hide Ring, Pass, Relocated;
      RingSize(window[..], h, posn);
      if posn == 0 {
        RingEnd(window[..], h, outpos.Length);
      } else {
        RingTail(window[..], h, posn, outpos.Length);
      }
      CopyOut(outpos, from);
      framesRead := framesRead + 1;
      if framesRead - 1 < 32768 && intelFilesize != 0 {
        if outpos.Length > 6 && intelStarted {
          TranslateE8(outpos, intelCurpos, intelFilesize);
        }
        intelCurpos := intelCurpos + outpos.Length;
      }
    }

    /** LZXdecompress on one block of compressed data.  The interpreter, started on the
        same bits and the same state, comes to a verdict, and that is the result,
        except where fewer bytes than asked for stand before the position in the
        window: there the source copies from in front of it.  On success the state is
        the interpreter's, and the output is the end of its history, E8-translated
        where the format says so. */
    method Decompress(mem: Memory, inlen: nat, outpos: array<Byte>) returns (status: Status, ghost d: Config)
      requires Valid() && outpos != window && outpos != tables.trees.mainLen && outpos != tables.trees.lengthLen
      requires outpos != tables.trees.alignedLen && outpos != tables.preLen
      modifies this, window, outpos,
        tables.preLen, tables.preTable, tables.trees.mainLen, tables.trees.mainTable, tables.trees.lengthLen,
        tables.trees.lengthTable, tables.trees.alignedLen, tables.trees.alignedTable
      ensures Leads(Next(Input(mem, inlen, mainElements), window.Length), old(Begin(mem, outpos.Length)), d)
      ensures d.verdict.Some? && status == Result(d, window.Length, outpos.Length)
      ensures status == Ok ==> Valid() && Holds(d) && headerRead
      ensures intelFilesize == if old(headerRead) then old(intelFilesize) else FilesizeAt(Stream(mem, 0))
      ensures status == Ok ==>
        && framesRead == old(framesRead) + 1
        && intelCurpos == PositionAfter(old(framesRead), intelFilesize, old(intelCurpos), outpos.Length)
        && Delivered(outpos[..], hist, old(framesRead), intelFilesize, intelStarted, old(intelCurpos))
    {
      hide Leads, Next, Ring, Delivered, PositionAfter, Holds, Shows, Shape, Trees.Valid, Stream, FilesizeAt,
        Reader.Valid, Begin, Valid, Tables.Sized, Lengths.Valid;
      var r;
      ghost var c0;
      r, c0 := Open(mem, inlen, outpos.Length);
      var posn, offsets;
      status, posn, offsets, d := DecodeBlocks(Input(mem, inlen, mainElements), outpos.Length, r, 0, 0, c0);
      if status != Ok {
        return;
      }
      var from := if posn == 0 then window.Length else posn;
      if from < outpos.Length {
        return Wild, d;
      }
      Deliver(outpos, from, posn, d.hist);
      Close(posn, offsets, d);
    }

    // The bit stream and, if it is the first, the header of the stream.
    method Open(mem: Memory, inlen: nat, outlen: nat) returns (r: Reader, ghost c0: Config)
      requires Valid()
      modifies this`headerRead, this`intelFilesize
      ensures fresh(r) && c0 == old(Begin(mem, outlen)) && headerRead
      ensures Shows(Input(mem, inlen, mainElements), c0, r, 0, 0, outlen, windowPosn, lru)
      ensures intelFilesize == if old(headerRead) then old(intelFilesize) else FilesizeAt(Stream(mem, 0))
    {
      hide Ring, Reader.Valid, Reader.Pos, Trees.Valid, Stream, FilesizeAt, Room, FlagBits;
      RingSize(window[..], hist, windowPosn);
      r := new Reader(Stream(mem, 0));
      c0 := Begin(mem, outlen);
      if !headerRead {
        ReadFilesize(r);
        headerRead := true;
      }
    }

    // The state is the interpreter's.
    ghost predicate Holds(d: Config)
      requires Shape()
      reads this, tables.trees.mainLen, tables.trees.lengthLen, tables.trees.alignedLen
    {
      && hist == d.hist && lru == d.lru && windowPosn == d.posn && tables.Lens() == d.lens
      && blockType == d.kind && blockLength == d.length && blockRemaining == d.rem && intelStarted == d.started
    }

    method Close(posn: nat, offsets: Lru, ghost d: Config)
      requires Shape() && headerRead && TablesReady() && Ring(window[..], d.hist, posn) && d.posn == posn
      requires InPhase(|d.hist|, posn, window.Length)
      requires d.lru == offsets && d.lens == tables.Lens() && d.kind == blockType && d.length == blockLength
      requires d.rem == blockRemaining && d.started == intelStarted
      modifies this`windowPosn, this`lru, this`hist
      ensures Shape() && Valid() && Holds(d) && hist == d.hist
    {
      hide Ring, Trees.Valid, Tables.Sized;
      windowPosn, lru, hist := posn, offsets, d.hist;
    }
  }

  // The output is the end of the history, with its calls translated.
  predicate Delivered(out: seq<Byte>, h: seq<Byte>, frames: nat, filesize: int, started: bool, pos: int) {
    |out| <= |h| && out == Translated(h[|h| - |out|..], frames, filesize, started, pos)
  }

  // The position in the file behind a block.
  function PositionAfter(frames: nat, filesize: int, pos: int, n: nat): int {
    if frames < 32768 && filesize != 0 then pos + n else pos
  }

  function Signed32(u: nat): int {
    if u >= 0x8000_0000 then u - 0x1_0000_0000 else u
  }

  ghost function FlagBits(mem: Memory): nat {
    if Val(mem, 0, 1) == 0 then 1 else 33
  }

  ghost function FilesizeAt(mem: Memory): int {
    if Val(mem, 0, 1) == 0 then 0 else Signed32(65536 * Val(mem, 1, 16) + Val(mem, 17, 16))
  }

  // What LZXdecompress returns.
  function Result(d: Config, size: nat, outlen: nat): Status
    requires d.verdict.Some?
  {
    if d.verdict.value == Ok && (if d.posn == 0 then size else d.posn) < outlen then Wild else d.verdict.value
  }

  // The interpreter starts the next run.
  lemma NextRun(i: Input, c0: Config, c: Config, size: nat) returns (d: Config)
    requires Leads(Next(i, size), c0, c) && c.Valid(size) && c.verdict.None? && i.Valid()
    requires c.left <= 0 && 0 < c.togo && 0 < c.rem
    ensures Leads(Next(i, size), c0, d) && d.Ready(size)
    ensures d == RunStep(c, size)
  {
    OneStep(i, c0, c, size);
    d := RunStep(c, size);
  }

  // The interpreter takes the header that stands there.
  lemma NextHeader(i: Input, c0: Config, c: Config, size: nat, base: nat, q: nat) returns (d: Config)
    requires Leads(Next(i, size), c0, c) && c.Valid(size) && c.verdict.None? && i.Valid()
    requires c.left <= 0 && 0 < c.togo && c.rem == 0 && HeaderPlace(c) == (base, q)
    ensures Leads(Next(i, size), c0, d) && d.Ready(size)
    ensures var h := HeaderAt(i, base, q, c.lens);
      && (h.Bad? ==> d.verdict == Some(IllegalData))
      && (h.Good? ==>
        && Gone(c.place) < Gone(d.place) <= 8 * (i.len + 2)
        && d == c.(place := h.next, lens := h.lens, kind := h.kind, length := h.length, rem := h.length,
                   lru := if h.lru.Some? then h.lru.value else c.lru,
                   started := c.started || h.kind == Uncompressed || h.lens.main[E8_LEADER] != 0))
  {
    hide HeaderAt;
    OneStep(i, c0, c, size);
    d := HeaderStep(i, c);
    if HeaderAt(i, base, q, c.lens).Good? {
      HeaderEnds(i, base, q, c.lens);
    }
  }

  lemma WindowSize(bits: nat)
    requires 15 <= bits <= 21
    ensures 0 < Shl(1, bits) && 0 < PosnSlots(bits) <= 50
  {
    hide Shl;
    ShlPositive(1, bits);
  }

  /** LZXinit: a decoder, if the window has 2^15 to 2^21 bytes. */
  method LzxInit(bits: nat) returns (state: LzxState?)
    ensures state == null <==> !(15 <= bits <= 21)
    ensures state != null ==> fresh(state) && state.Valid() && state.window.Length == Shl(1, bits)
  {
    state := null;
    if 15 <= bits <= 21 {
      state := new LzxState(bits);
    }
  }
}
