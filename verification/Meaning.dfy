/** What holds of every decompressed block: its bytes are the LZ77 meaning of the
    pieces its bits spell; blocks that fill their runs always decode; and when a
    match can reach out of the window. */
module Meaning {
  import opened Wrappers
  import opened Shifts
  import opened Arith
  import opened Canonical
  import opened Huffman
  import opened BitReader
  import opened Lz77
  import opened PositionSlots
  import opened Tokens
  import opened BlockHeader
  import opened Iteration
  import opened Reference

  // ---------- LZ77 ----------

  // The piece that a step of the interpreter carries out, if it does not fail.
  ghost function Emitted(i: Input, c: Config, size: nat): (ps: seq<Piece>)
    requires i.Valid() && c.Ready(size)
  {
    if c.verdict.Some? then []
    else if c.left > 0 then
      if c.kind == Uncompressed then
        if c.place.at + c.left > i.len then [] else [Raw(Stretch(i.mem, c.place.at, c.left))]
      else
        var t := TokenHere(c.kind, c.lens.InForce(), Stream(i.mem, c.place.base), c.place.pos);
        if t.None? || TokenStep(i, c, size).verdict.Some? then [] else [PieceOf(t.value)]
    else if c.togo == 0 || c.rem > 0 then []
    else
      var (base, pos) := HeaderPlace(c);
      match HeaderAt(i, base, pos, c.lens)
      case Bad => []
      case Good(kind, length, lru, lens, _) =>
        [Header(kind, length, if lru.Some? then lru.value else c.lru, lens.main[E8.E8_LEADER] != 0)]
  }

  lemma StepMeans(i: Input, c: Config, size: nat)
    requires i.Valid() && c.Ready(size) && 0 < size <= |c.hist|
    ensures var ps := Emitted(i, c, size);
      && PiecesOk(ps, c.lru, size, |c.hist|)
      && Step(i, c, size).hist == Expand(ps, c.hist, c.lru, size)
      && Step(i, c, size).lru == LastLru(ps, c.lru)
  {
    hide HeaderAt, TokenHere, EndOf;
    if c.verdict.None? && c.left > 0 {
      PhaseIs(|c.hist|, c.posn, size);
    }
    if |Emitted(i, c, size)| == 1 {
      OnePiece(Emitted(i, c, size)[0], c.hist, c.lru, size);
    }
  }

  // The pieces of the first n steps.
  ghost function Spelled(i: Input, c: Config, size: nat, n: nat): seq<Piece>
    requires i.Valid() && c.Ready(size)
  {
    if n == 0 then []
    else
      AlwaysReady(i, c, size, n - 1);
      Spelled(i, c, size, n - 1) + Emitted(i, Iterate(Next(i, size), c, n - 1), size)
  }

  lemma {:induction false} AlwaysReady(i: Input, c: Config, size: nat, n: nat)
    requires i.Valid() && c.Ready(size)
    ensures Iterate(Next(i, size), c, n).Ready(size)
  {
    hide Step, Config.Ready;
    if n > 0 {
      AlwaysReady(i, c, size, n - 1);
    }
  }

  lemma {:induction false} AllOk(ps: seq<Piece>, qs: seq<Piece>, h: seq<Byte>, r: Lru, size: nat)
    requires 0 < size <= |h| && PiecesOk(ps, r, size, |h|)
    requires PiecesOk(qs, LastLru(ps, r), size, |Expand(ps, h, r, size)|)
    ensures PiecesOk(ps + qs, r, size, |h|)
    decreases |ps|
  {
    if ps == [] {
      assert ps + qs == qs;
    } else {
      assert (ps + qs)[1..] == ps[1..] + qs;
      AllOk(ps[1..], qs, Output(ps[0], h, r, size), NextLru(ps[0], r), size);
    }
  }

  /** However far the interpreter has come, its history is the LZ77 expansion of the
      pieces spelled so far. */
  lemma {:induction false} HistoryIsExpansion(i: Input, c: Config, size: nat, n: nat)
    requires i.Valid() && c.Ready(size) && 0 < size <= |c.hist|
    ensures var d, ps := Iterate(Next(i, size), c, n), Spelled(i, c, size, n);
      && PiecesOk(ps, c.lru, size, |c.hist|) && d.hist == Expand(ps, c.hist, c.lru, size) && d.lru == LastLru(ps, c.lru)
  {
    hide Step, Config.Ready, Emitted, Expand, PiecesOk, LastLru;
    if n == 0 {
      Nothing(c.hist, c.lru, size);
    } else {
      HistoryIsExpansion(i, c, size, n - 1);
      AlwaysReady(i, c, size, n - 1);
      var d, ps := Iterate(Next(i, size), c, n - 1), Spelled(i, c, size, n - 1);
      StepMeans(i, d, size);
      AllOk(ps, Emitted(i, d, size), c.hist, c.lru, size);
      ExpandSplit(ps, Emitted(i, d, size), c.hist, c.lru, size);
    }
  }

  lemma Nothing(h: seq<Byte>, r: Lru, size: nat)
    requires 0 < size <= |h|
    ensures PiecesOk([], r, size, |h|) && Expand([], h, r, size) == h && LastLru([], r) == r
  {
  }

  // ---------- what the window held before ----------

  function Over(c: Config, h: seq<Byte>): Config {
    c.(hist := h)
  }

  // The history is written and copied from, but decides nothing.
  lemma StepBlind(i: Input, c: Config, h: seq<Byte>, size: nat)
    requires i.Valid() && c.Ready(size) && 0 < size <= |c.hist| == |h|
    ensures Over(c, h).Ready(size) && Emitted(i, Over(c, h), size) == Emitted(i, c, size)
    ensures var d, e := Step(i, c, size), Step(i, Over(c, h), size); e == Over(d, e.hist) && |e.hist| == |d.hist|
  {
    hide HeaderAt, TokenHere, TokenStep, PieceOf, Lengths.InForce;
    if c.verdict.None? && c.left > 0 && c.kind != Uncompressed {
      TokenBlind(i, c, h, size);
    }
  }

  lemma TokenBlind(i: Input, c: Config, h: seq<Byte>, size: nat)
    requires i.Valid() && c.Valid(size) && |c.hist| == |h| && c.kind != Uncompressed
    ensures Over(c, h).Valid(size)
    ensures var d, e := TokenStep(i, c, size), TokenStep(i, Over(c, h), size);
      e == Over(d, e.hist) && |e.hist| == |d.hist|
  {
    hide TokenHere, EndOf, PieceOf, Lengths.InForce;
  }

  lemma {:induction false} RunBlind(i: Input, c: Config, h: seq<Byte>, size: nat, n: nat)
    requires i.Valid() && c.Ready(size) && 0 < size <= |c.hist| == |h|
    ensures Over(c, h).Ready(size) && Spelled(i, Over(c, h), size, n) == Spelled(i, c, size, n)
    ensures var d, e := Iterate(Next(i, size), c, n), Iterate(Next(i, size), Over(c, h), n);
      e == Over(d, e.hist) && size <= |d.hist| == |e.hist|
  {
    hide Step, Emitted;
    StepBlind(i, c, h, size);
    if n > 0 {
      RunBlind(i, c, h, size, n - 1);
      AlwaysReady(i, c, size, n - 1);
      AlwaysReady(i, Over(c, h), size, n - 1);
      var d, e := Iterate(Next(i, size), c, n - 1), Iterate(Next(i, size), Over(c, h), n - 1);
      StepBlind(i, d, e.hist, size);
    }
    HistoryIsExpansion(i, c, size, n);
    HistoryIsExpansion(i, Over(c, h), size, n);
  }

  /** After a reset the bytes are the same whatever the window held before, as long as
      no match reaches back past the reset; `base` bytes of the history are older. */
  lemma SameAfterReset(i: Input, c: Config, h: seq<Byte>, base: nat, size: nat, n: nat)
    requires i.Valid() && c.Ready(size) && 0 < size <= base <= |c.hist| == |h| && h[base..] == c.hist[base..]
    requires PiecesOk(Spelled(i, c, size, n), c.lru, size, |c.hist|)
    requires Within(Spelled(i, c, size, n), c.hist, c.lru, size, base)
    ensures var d, e := Iterate(Next(i, size), c, n), Iterate(Next(i, size), Over(c, h), n);
      && base <= |c.hist| <= |d.hist| == |e.hist|
      && e == Over(d, e.hist) && e.hist[base..] == d.hist[base..]
  {
    hide Step, Emitted, Spelled, Expand, Within, PiecesOk, Config.Ready, Iterate;
    RunBlind(i, c, h, size, n);
    HistoryIsExpansion(i, c, size, n);
    HistoryIsExpansion(i, Over(c, h), size, n);
    TailOnly(Spelled(i, c, size, n), c.hist, h, base, c.lru, size);
  }

  lemma TailOnly(ps: seq<Piece>, x: seq<Byte>, y: seq<Byte>, base: nat, r: Lru, size: nat)
    requires 0 < size <= base <= |x| == |y| && x[base..] == y[base..]
    requires PiecesOk(ps, r, size, |x|) && Within(ps, x, r, size, base)
    ensures Expand(ps, x, r, size)[base..] == Expand(ps, y, r, size)[base..]
  {
    hide Expand, Within, PiecesOk;
    assert x[..base] + x[base..] == x && y[..base] + y[base..] == y;
    ResetForgets(ps, x[..base], y[..base], x[base..], r, size);
  }

  // ---------- exactly filled runs ----------

  // What comes next can be read, and a match stays within its run and copies from
  // within the window.
  ghost predicate Fine(i: Input, c: Config, size: nat)
    requires i.Valid() && c.Ready(size)
  {
    if c.verdict.Some? then true
    else if c.left > 0 then
      if c.kind == Uncompressed then c.place.at + c.left <= i.len
      else
        var t := TokenHere(c.kind, c.lens.InForce(), Stream(i.mem, c.place.base), c.place.pos);
        && t.Some?
        && (PieceOf(t.value).Match? ==>
          PieceOf(t.value).length <= c.left && PieceOk(PieceOf(t.value), c.lru, size, c.posn))
    else c.togo == 0 || c.rem > 0 || HeaderAt(i, HeaderPlace(c).0, HeaderPlace(c).1, c.lens).Good?
  }

  // Of n bytes that fit the window from position p on, so many have been made.
  ghost predicate Exact(c: Config, size: nat, n: nat, p: nat, h: nat) {
    var made := n - c.togo - c.left;
    && c.verdict.None? && c.Valid(size) && 0 <= c.left && 0 <= made && p + n <= size && |c.hist| == h + made
    && (if made == 0 && c.left == 0 then c.posn % size == p else c.posn == p + made)
  }

  lemma ExactStep(i: Input, c: Config, size: nat, n: nat, p: nat, h: nat)
    requires i.Valid() && 0 < n && Exact(c, size, n, p, h) && Fine(i, c, size)
    ensures var d := Step(i, c, size);
      if d.verdict.None? then Exact(d, size, n, p, h)
      else d.verdict == Some(Ok) && d.posn == p + n && |d.hist| == h + n
  {
    hide HeaderAt, TokenStep, InPhase, TokenHere, RunStep;
    if c.left > 0 && c.kind != Uncompressed {
      ExactToken(i, c, size);
    } else if c.left == 0 && c.togo > 0 && c.rem > 0 {
      ExactStart(i, c, size, n, p, h);
    }
  }

  // The next run begins where the last ended, or at the first position.
  lemma ExactStart(i: Input, c: Config, size: nat, n: nat, p: nat, h: nat)
    requires i.Valid() && 0 < n && Exact(c, size, n, p, h) && c.left == 0 && c.togo > 0 && c.rem > 0
    ensures RunStep(c, size).verdict.None? && Exact(RunStep(c, size), size, n, p, h)
  {
    hide InPhase, RawStep, TokenStep, HeaderStep;
    StepReady(i, c, size);
    ModSmall(c.posn, size);
    ModSmall(p, size);
  }

  // A token that fits its run takes just its bytes from it.
  lemma ExactToken(i: Input, c: Config, size: nat)
    requires i.Valid() && c.Valid(size) && c.verdict.None? && c.left > 0 && c.kind != Uncompressed && Fine(i, c, size)
    ensures var d := TokenStep(i, c, size);
      && d.verdict.None? && 0 <= d.left <= c.left && d.posn == c.posn + (c.left - d.left) && d.togo == c.togo
      && |d.hist| == |c.hist| + (c.left - d.left)
  {
    hide TokenHere, EndOf, PieceOf, ValidToken, InPhase, HeaderAt;
    var t := TokenHere(c.kind, c.lens.InForce(), Stream(i.mem, c.place.base), c.place.pos);
    TokenKind(c.kind, c.lens.InForce(), Stream(i.mem, c.place.base), c.place.pos);
  }

  lemma ExactReady(c: Config, size: nat, n: nat, p: nat, h: nat)
    requires Exact(c, size, n, p, h)
    ensures c.verdict.None? && c.Ready(size)
  {
  }

  lemma AtRest(i: Input, c: Config, size: nat)
    requires i.Valid() && c.Ready(size) && c.verdict.Some?
    ensures Step(i, c, size) == c
  {
  }

  lemma {:induction false} ExactRun(i: Input, c: Config, size: nat, n: nat, p: nat, h: nat, k: nat)
    requires i.Valid() && 0 < n && Exact(c, size, n, p, h)
    requires forall e :: Leads(Next(i, size), c, e) ==> e.Ready(size) && Fine(i, e, size)
    ensures var d := Iterate(Next(i, size), c, k);
      if d.verdict.None? then Exact(d, size, n, p, h)
      else d.verdict == Some(Ok) && d.posn == p + n && |d.hist| == h + n
  {
    hide Step, Fine, Exact;
    ExactReady(c, size, n, p, h);
    if k > 0 {
      ExactRun(i, c, size, n, p, h, k - 1);
      var d := Iterate(Next(i, size), c, k - 1);
      assert Leads(Next(i, size), c, d);
      AlwaysReady(i, c, size, k - 1);
      if d.verdict.None? {
        ExactStep(i, d, size, n, p, h);
      } else {
        AtRest(i, d, size);
      }
    }
  }

  /** If the input can be read and every match stays within its run, in a window of b
      blocks and starting behind the a-th, a block always decodes: it makes exactly
      the bytes asked for and ends behind the next block of the window. */
  lemma ExactBlock(i: Input, c: Config, size: nat, n: nat, a: nat, b: nat, d: Config)
    requires i.Valid() && c.Valid(size) && c.verdict.None? && c.left == 0 && c.togo == n && 0 < n
    requires 0 < b && size == b * n && a <= b && c.posn == a * n
    requires forall e :: Leads(Next(i, size), c, e) ==> e.Ready(size) && Fine(i, e, size)
    requires Leads(Next(i, size), c, d) && d.verdict.Some?
    ensures d.verdict == Some(Ok) && d.posn == (if a == b then n else (a + 1) * n)
    ensures |d.hist| == |c.hist| + n && d.hist[..|c.hist|] == c.hist
  {
    hide Step, Fine;
    Blocks(a, b, n);
    ModSmall(c.posn, size);
    var p := c.posn % size;
    ExactRun(i, c, size, n, p, |c.hist|, Steps(i, c, size, d));
    HistoryIsExpansion(i, c, size, Steps(i, c, size, d));
  }

  ghost function Steps(i: Input, c: Config, size: nat, d: Config): (n: nat)
    requires Leads(Next(i, size), c, d)
    ensures Iterate(Next(i, size), c, n) == d
  {
    var n: nat :| Iterate(Next(i, size), c, n) == d;
    n
  }

  lemma Blocks(a: nat, b: nat, n: nat)
    requires a <= b && 0 < n
    ensures a * n <= b * n && (a + 1) * n == a * n + n && (a < b ==> a * n + n <= b * n) && (a == b ==> a * n == b * n)
    ensures 0 < b ==> n <= b * n
  {
    var d := b - a;
    assert b * n == a * n + d * n;
    MulNonNegative(d, n);
    if a < b {
      MulAtLeast(d, n);
    }
    if 0 < b {
      MulAtLeast(b, n);
    }
  }

  lemma ModSmall(x: nat, n: nat)
    requires 0 < n && x <= n
    ensures x % n == (if x == n then 0 else x)
  {
  }

  // ---------- offsets within the window ----------

  // The code of main elements of a window has no codeword for the others.
  ghost predicate FitsWindow(main: seq<Byte>, window: nat) {
    |main| == MAIN_SYMBOLS && forall s :: NUM_CHARS + 8 * PosnSlots(window) <= s < MAIN_SYMBOLS ==> main[s] == 0
  }

  predicate Near(r: Lru, size: nat) {
    r.r0 <= size && r.r1 <= size && r.r2 <= size
  }

  predicate Positive(r: Lru) {
    0 < r.r0 && 0 < r.r1 && 0 < r.r2
  }

  /** No match that the bits spell reaches back further than the window, and without
      a zero offset each copies from as far back as it says. */
  lemma OffsetFits(kind: BlockType, c: Codes, mem: Memory, q: nat, t: Token, r: Lru, window: nat)
    requires 15 <= window <= 21 && FitsWindow(c.main, window) && TokenAt(kind, c, mem, q, t) && Near(r, Shl(1, window))
    ensures PieceOk(PieceOf(t), r, Shl(1, window), 0) && Near(NextLru(PieceOf(t), r), Shl(1, window))
    ensures Positive(r) ==> Plain(PieceOf(t), r, Shl(1, window)) && Positive(NextLru(PieceOf(t), r))
  {
    hide PositionBase, SlotSize, Shl, PositionAt, ExtraBits, Val;
    if t.Copy? && t.number >= 3 {
      BaseAtLeast(t.number);
      SlotsFitWindow(window, t.number, t.v);
      KnownSlot(c.main, mem, q, t, window);
    }
  }

  lemma KnownSlot(main: seq<Byte>, mem: Memory, q: nat, t: Token, window: nat)
    requires 15 <= window <= 21 && FitsWindow(main, window) && ValidToken(t) && t.Copy?
    requires Accepted(main, MAIN_BITS) && SymbolAt(main, MAIN_BITS, mem, q, MainOf(t))
    ensures t.number < PosnSlots(window)
  {
    hide SlotSize, Complete, AllZero, Val;
    assert MainOf(t) != 0;
    assert Coded(main, MainOf(t));
  }

  ghost predicate Tame(c: Config, window: nat)
    requires c.lens.Valid()
  {
    FitsWindow(c.lens.InForce().main, window) && Near(c.lru, Shl(1, window))
  }

  /** As long as the main code has no codeword for slots beyond the window and the
      remembered offsets lie within it, nothing is copied from outside the window;
      only a block header can change that. */
  lemma StepsTame(i: Input, c: Config, window: nat)
    requires 15 <= window <= 21 && i.Valid() && c.Valid(Shl(1, window)) && c.verdict.None? && Tame(c, window)
    ensures var d := Step(i, c, Shl(1, window));
      && d.verdict != Some(Wild) && d.lens.Valid()
      && (c.left > 0 || c.togo == 0 || c.rem > 0 ==> Tame(d, window))
  {
    hide HeaderAt, TokenAt, FitsWindow, Near, Shl, EndOf, PieceOk, NextLru, PieceOf;
    if c.left > 0 && c.kind != Uncompressed {
      TokenTame(i, c, window);
    }
  }

  lemma TokenTame(i: Input, c: Config, window: nat)
    requires 15 <= window <= 21 && i.Valid() && c.Valid(Shl(1, window)) && c.verdict.None? && Tame(c, window)
    requires c.left > 0 && c.kind != Uncompressed
    ensures var d := TokenStep(i, c, Shl(1, window));
      d.verdict != Some(Wild) && d.lens == c.lens && Tame(d, window)
  {
    hide HeaderAt, TokenAt, FitsWindow, Near, Shl, EndOf, NextLru, PieceOf;
    var codes, mem, q := c.lens.InForce(), Stream(i.mem, c.place.base), c.place.pos;
    var t := TokenHere(c.kind, codes, mem, q);
    if t.Some? {
      TokenKind(c.kind, codes, mem, q);
      OffsetFits(c.kind, codes, mem, q, t.value, c.lru, window);
    }
  }
}
