/** What a compressed block means: an interpreter of its bits over an unbounded
    history.  LZXdecompress computes the same in a circular window. */
module Reference {
  import opened Wrappers
  import opened Arith
  import opened Canonical
  import opened BitReader
  import E8
  import opened Lz77
  import opened Tokens
  import opened BlockHeader
  import opened Iteration

  // How decompression ends.  Wild stands for a match that reaches back further than
  // a whole window in front of the window's start: the source then copies from
  // outside of it.
  datatype Status = Ok | DataFormat | IllegalData | Wild

  // The state of the interpreter: where it reads; the codes in force; the current
  // block, with its length, what is left of it, and what is left of the current run
  // (less than nothing if a match went past its end); the output still to be made,
  // the position in the window, the remembered offsets, and all output so far.
  datatype Config = Config(place: Place, lens: Lengths, kind: BlockType, length: nat, rem: nat, left: int,
                           togo: nat, posn: nat, lru: Lru, started: bool, hist: seq<Byte>, verdict: Option<Status>)
  {
    ghost predicate Valid(size: nat) {
      && 0 < size <= |hist| && lens.Valid() && (kind == Uncompressed <==> place.Bytes?)
      && posn <= size && left <= size - posn && InPhase(|hist|, posn, size) && (left > 0 || rem > 0 ==> kind != Invalid)
    }

    ghost predicate Ready(size: nat) {
      verdict.Some? || Valid(size)
    }

    function End(s: Status): Config {
      this.(verdict := Some(s))
    }
  }

  // The position in the window is what the history is beyond whole windows.
  predicate InPhase(n: nat, posn: nat, size: nat)
    requires 0 < size
  {
    n % size == posn % size
  }

  lemma PhaseOn(n: nat, posn: nat, k: nat, size: nat)
    requires 0 < size && InPhase(n, posn, size)
    ensures InPhase(n + k, posn + k, size) && InPhase(n, posn % size, size)
  {
    ModAdd(n, k, size);
    ModAdd(posn, k, size);
    ModAdd(posn % size, 0, size);
    DivUnique(posn % size, 0, posn % size, size);
  }

  lemma PhaseIs(n: nat, posn: nat, size: nat)
    requires posn < size && InPhase(n, posn, size)
    ensures n % size == posn
  {
  }

  // The token whose bits stand at q.
  ghost function TokenHere(kind: BlockType, c: Codes, mem: Memory, q: nat): Option<Token> {
    if exists t :: TokenAt(kind, c, mem, q, t) then
      var t :| TokenAt(kind, c, mem, q, t);
      Some(t)
    else None
  }

  lemma TokenFound(kind: BlockType, c: Codes, mem: Memory, q: nat, t: Token)
    requires TokenAt(kind, c, mem, q, t)
    ensures TokenHere(kind, c, mem, q) == Some(t)
  {
    hide TokenAt;
    var u := TokenHere(kind, c, mem, q).value;
    TokenUnique(kind, c, mem, q, t, u);
  }

  // Carrying out a literal or match.
  function Produce(c: Config, p: Piece, size: nat): (d: Config)
    requires 0 < size <= |c.hist| && (p.Literal? || p.Match?)
  {
    match p
    case Literal(b) => c.(hist := c.hist + [b], posn := c.posn + 1, left := c.left - 1)
    case Match(slot, n) =>
      if c.posn + n > size then c.End(IllegalData)
      else if !PieceOk(p, c.lru, size, c.posn) then c.End(Wild)
      else c.(hist := Output(p, c.hist, c.lru, size), posn := c.posn + n, left := c.left - n, lru := NextLru(p, c.lru))
  }

  /** After every match the first remembered offset is the one copied from: a repeated
      offset has changed places with it, a new one has pushed the others down, and the
      output goes on with copies from that far back. */
  lemma MatchRecalls(c: Config, s: Slot, n: nat, size: nat)
    requires 0 < size <= |c.hist| && c.verdict.None? && Produce(c, Match(s, n), size).verdict.None?
    ensures var d := Produce(c, Match(s, n), size);
      && Recalled(s, c.lru, d.lru) && d.lru.r0 == Resolve(s, c.lru)
      && |d.hist| == |c.hist| + n && CopiesBack(c.hist, d.hist, d.lru.r0, size)
  {
    hide Extend;
    QueueMoves(s, c.lru);
    MatchCopies(Match(s, n), c.hist, c.lru, size);
  }

  /** The same repetition twice leaves the queue as it was. */
  lemma RepeatTwice(c: Config, s: Slot, n: nat, m: nat, size: nat)
    requires 0 < size <= |c.hist| && c.verdict.None? && !s.New? && Produce(c, Match(s, n), size).verdict.None?
    requires Produce(Produce(c, Match(s, n), size), Match(s, m), size).verdict.None?
    ensures Produce(Produce(c, Match(s, n), size), Match(s, m), size).lru == c.lru
  {
    hide Extend;
    QueueMoves(s, c.lru);
  }

  /** Behind output that ends in p q r s t, with remembered offsets 5, 2, 1: the third
      repeats t twice, and then the second, still 2, repeats those two. */
  lemma QueueExample(c: Config, h: seq<Byte>, size: nat)
    requires c.hist == h + [0x70, 0x71, 0x72, 0x73, 0x74] && 5 <= size <= |c.hist| && c.verdict.None?
    requires c.lru == Lru(5, 2, 1) && c.posn + 4 <= size
    ensures var d := Produce(Produce(c, Match(Repeat2, 2), size), Match(Repeat1, 2), size);
      d.verdict.None? && d.hist == c.hist + [0x74, 0x74, 0x74, 0x74]
  {
    hide Extend;
    var d := Produce(c, Match(Repeat2, 2), size);
    MatchRecalls(c, Repeat2, 2, size);
    var g := d.hist;
    assert g[|h| + 5] == g[|h| + 4] && g[|h| + 6] == g[|h| + 5];
    assert g == c.hist + [0x74, 0x74];
    MatchRecalls(d, Repeat1, 2, size);
    var e := Produce(d, Match(Repeat1, 2), size).hist;
    assert e[|h| + 7] == e[|h| + 5] && e[|h| + 8] == e[|h| + 6];
    assert e == g + [0x74, 0x74];
  }

  /** An offset beyond the window: from position 5 in a window of 32768 bytes, offset
      32769 copies the byte before the position, and not, as plain LZ77, one that has
      left the window. */
  lemma FarMatch(c: Config, b: Byte)
    requires c.verdict.None? && c.posn == 5 && c.lru.r0 == 32769 && |c.hist| >= 32769 && c.hist[|c.hist| - 1] == b
    ensures var d := Produce(c, Match(Repeat0, 3), 32768);
      d.verdict.None? && d.posn == 8 && d.hist == c.hist + [b, b, b]
    ensures Extend(c.hist, 32769, 3)[|c.hist|] == c.hist[|c.hist| - 32769]
  {
    var h := c.hist;
    assert Extend(h, 1, 0) == h && Extend(h, 1, 1) == h + [b] && Extend(h, 1, 2) == h + [b] + [b];
    assert Extend(h, 1, 3) == h + [b] + [b] + [b] == h + [b, b, b];
    assert Extend(h, 32769, 1)[|h|] == h[|h| - 32769];
  }

  ghost function TokenStep(i: Input, c: Config, size: nat): (d: Config)
    requires c.Valid(size) && c.kind != Uncompressed
  {
    var t := TokenHere(c.kind, c.lens.InForce(), Stream(i.mem, c.place.base), c.place.pos);
    if t.None? then c.End(IllegalData)
    else
      var e := EndOf(c.kind, c.lens.InForce(), c.place.pos, t.value);
      Produce(c.(place := Bits(c.place.base, e)), PieceOf(t.value), size)
  }

  function Stretch(mem: Memory, at: nat, n: nat): (s: seq<Byte>)
    ensures |s| == n
  {
    seq(n, k requires 0 <= k < n => mem(at + k))
  }

  // An uncompressed run.
  function RawStep(i: Input, c: Config): Config
    requires c.place.Bytes? && 0 <= c.left
  {
    var at := c.place.at;
    if at + c.left > i.len then c.End(IllegalData)
    else
      c.(hist := c.hist + Stretch(i.mem, at, c.left), place := Bytes(at + c.left), posn := c.posn + c.left,
         left := 0)
  }

  // The next run: as much of the block as the output still asks for.
  function RunStep(c: Config, size: nat): Config
    requires 0 < size
  {
    var n, p := if c.rem > c.togo then c.togo else c.rem, c.posn % size;
    if p + n > size then c.End(DataFormat)
    else c.(rem := c.rem - n, togo := c.togo - n, left := n, posn := p)
  }

  // Where the header of the next block is read: behind an uncompressed block of odd
  // length a byte is skipped.
  function HeaderPlace(c: Config): (nat, nat) {
    match c.place
    case Bits(base, pos) => (base, pos)
    case Bytes(at) => (at + c.length % 2, 0)
  }

  ghost function HeaderStep(i: Input, c: Config): Config
    requires i.Valid() && c.lens.Valid()
  {
    var (base, pos) := HeaderPlace(c);
    match HeaderAt(i, base, pos, c.lens)
    case Bad => c.End(IllegalData)
    case Good(kind, length, lru, lens, next) =>
      c.(place := next, lens := lens, kind := kind, length := length, rem := length,
         lru := if lru.Some? then lru.value else c.lru,
         started := c.started || kind == Uncompressed || lens.main[E8.E8_LEADER] != 0)
  }

  lemma TokenKind(kind: BlockType, c: Codes, mem: Memory, q: nat)
    requires TokenHere(kind, c, mem, q).Some?
    ensures var t := TokenHere(kind, c, mem, q).value;
      ValidToken(t) && (PieceOf(t).Literal? || PieceOf(t).Match?)
  {
  }

  lemma TokenReady(i: Input, c: Config, size: nat)
    requires i.Valid() && c.Valid(size) && c.left > 0 && c.kind != Uncompressed
    ensures TokenStep(i, c, size).Ready(size)
  {
    hide InPhase, EndOf, TokenHere, PieceOf, ValidToken, Produce;
    var t := TokenHere(c.kind, c.lens.InForce(), Stream(i.mem, c.place.base), c.place.pos);
    if t.Some? {
      TokenKind(c.kind, c.lens.InForce(), Stream(i.mem, c.place.base), c.place.pos);
      var e := EndOf(c.kind, c.lens.InForce(), c.place.pos, t.value);
      ProduceReady(c.(place := Bits(c.place.base, e)), PieceOf(t.value), size);
    }
  }

  lemma ProduceReady(c: Config, p: Piece, size: nat)
    requires c.Valid(size) && c.left > 0 && (p.Literal? || p.Match?)
    ensures Produce(c, p, size).Ready(size)
  {
    hide InPhase, Extend;
    PhaseOn(|c.hist|, c.posn, Made(p), size);
  }

  // Whatever is done next, position and history stay in phase.
  lemma StepReady(i: Input, c: Config, size: nat)
    requires i.Valid() && c.Valid(size)
    ensures c.left > 0 && c.kind == Uncompressed ==> RawStep(i, c).Ready(size)
    ensures c.left > 0 && c.kind != Uncompressed ==> TokenStep(i, c, size).Ready(size)
    ensures c.left <= 0 && c.rem > 0 ==> RunStep(c, size).Ready(size)
    ensures c.left <= 0 && c.rem == 0 ==> HeaderStep(i, c).Ready(size)
  {
    hide InPhase, TokenHere, HeaderAt, EndOf;
    PhaseOn(|c.hist|, c.posn, 0, size);
    if c.left > 0 && c.kind == Uncompressed {
      PhaseOn(|c.hist|, c.posn, c.left, size);
    } else if c.left > 0 {
      TokenReady(i, c, size);
    }
  }

  // One step: the next token or stretch of a run, the start of a run, or a header.
  ghost function Step(i: Input, c: Config, size: nat): (d: Config)
    requires i.Valid() && c.Ready(size)
    ensures d.Ready(size)
  {
    if c.verdict.Some? then c
    else
      StepReady(i, c, size);
      if c.left > 0 then (if c.kind == Uncompressed then RawStep(i, c) else TokenStep(i, c, size))
      else if c.togo == 0 then c.End(Ok)
      else if c.rem > 0 then RunStep(c, size)
      else HeaderStep(i, c)
  }

  // The interpreter as a function of its state.
  ghost function Next(i: Input, size: nat): Config -> Config {
    (c: Config) => if i.Valid() && c.Ready(size) then Step(i, c, size) else c
  }

  lemma OneStep(i: Input, c: Config, d: Config, size: nat)
    requires i.Valid() && d.Ready(size) && Leads(Next(i, size), c, d)
    ensures Leads(Next(i, size), c, Step(i, d, size))
  {
    hide Step, Leads;
    LeadsOn(Next(i, size), c, d);
  }

  /** The bits determine how decompression ends and with what. */
  lemma OneVerdict(i: Input, c: Config, d: Config, e: Config, size: nat)
    requires Leads(Next(i, size), c, d) && Leads(Next(i, size), c, e) && d.verdict.Some? && e.verdict.Some?
    ensures d == e
  {
    OneEnd(Next(i, size), c, d, e);
  }
}
