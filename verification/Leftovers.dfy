/** What a decoder still holds after a reset, and that none of it is read: the window's
    old bytes, the aligned code's lengths, and the length of the last block. */
module Leftovers {
  import opened Huffman
  import opened BitReader
  import opened Lz77
  import opened PositionSlots
  import opened Tokens
  import opened BlockHeader
  import opened Iteration
  import opened Reference
  import opened Meaning

  // The same but for an aligned code that is not in force, and the length of a block
  // after which no byte is skipped.
  ghost predicate Alike(c: Config, d: Config) {
    && d == c.(lens := c.lens.(aligned := d.lens.aligned), length := d.length)
    && |c.lens.aligned| == |d.lens.aligned| == ALIGNED_LENS
    && (c.kind == AlignedOffset ==> c.lens.aligned[..ALIGNED_SYMBOLS] == d.lens.aligned[..ALIGNED_SYMBOLS])
    && (c.kind == Uncompressed ==> c.length == d.length)
  }

  // A verbatim block has the same tokens under any aligned code.
  lemma TokenAnyway(c: Codes, d: Codes, mem: Memory, q: nat, t: Token)
    requires c.main == d.main && c.length == d.length && |c.aligned| == |d.aligned|
    requires TokenAt(Verbatim, c, mem, q, t)
    ensures TokenAt(Verbatim, d, mem, q, t) && EndOf(Verbatim, c, q, t) == EndOf(Verbatim, d, q, t)
  {
    hide SymbolAt, Accepted, ExtraBits, ValidToken;
  }

  lemma HereAnyway(c: Codes, d: Codes, mem: Memory, q: nat)
    requires c.main == d.main && c.length == d.length && |c.aligned| == |d.aligned|
    ensures TokenHere(Verbatim, c, mem, q) == TokenHere(Verbatim, d, mem, q)
  {
    hide TokenAt, EndOf;
    if t :| TokenAt(Verbatim, c, mem, q, t) {
      TokenAnyway(c, d, mem, q, t);
      TokenFound(Verbatim, c, mem, q, t);
      TokenFound(Verbatim, d, mem, q, t);
    } else if u :| TokenAt(Verbatim, d, mem, q, u) {
      TokenAnyway(d, c, mem, q, u);
      assert false;
    }
  }

  lemma TokenAlike(i: Input, c: Config, d: Config, size: nat)
    requires c.Valid(size) && d.Valid(size) && Alike(c, d) && c.left > 0 && c.kind != Uncompressed
    ensures Alike(TokenStep(i, c, size), TokenStep(i, d, size))
  {
    hide TokenHere, EndOf, Output, PieceOk, InPhase, PieceOf, ValidToken;
    var mem, q := Stream(i.mem, c.place.base), c.place.pos;
    var x, y := c.lens.InForce(), d.lens.InForce();
    if c.kind == Verbatim {
      HereAnyway(x, y, mem, q);
      EndAnyway(x, y, mem, q);
    } else {
      assert x == y;
    }
    if TokenHere(c.kind, x, mem, q).Some? {
      TokenKind(c.kind, x, mem, q);
    }
  }

  lemma EndAnyway(c: Codes, d: Codes, mem: Memory, q: nat)
    requires c.main == d.main && c.length == d.length && |c.aligned| == |d.aligned|
    ensures var t := TokenHere(Verbatim, c, mem, q);
      t.Some? ==>
        && ValidCodes(Verbatim, c) && ValidCodes(Verbatim, d) && ValidToken(t.value)
        && EndOf(Verbatim, c, q, t.value) == EndOf(Verbatim, d, q, t.value)
  {
    hide SymbolAt, Accepted, PositionAt, EndOf;
    var t := TokenHere(Verbatim, c, mem, q);
    if t.Some? {
      TokenAnyway(c, d, mem, q, t.value);
    }
  }

  // What a header makes of the lengths, but for the rest of the aligned ones.
  lemma HeaderAlike(i: Input, base: nat, q: nat, x: Lengths, y: Lengths)
    requires i.Valid() && x.Valid() && y.Valid() && y == x.(aligned := y.aligned)
    ensures var g, h := HeaderAt(i, base, q, x), HeaderAt(i, base, q, y);
      && g.Bad? == h.Bad?
      && (g.Good? ==>
        && h == g.(lens := g.lens.(aligned := h.lens.aligned))
        && (g.kind == AlignedOffset ==> g.lens.aligned[..ALIGNED_SYMBOLS] == h.lens.aligned[..ALIGNED_SYMBOLS]))
  {
    hide LensAt, Accepted, Val, Stream, Exhausted, WordEnd, AlignedAt;
  }

  lemma StepAlike(i: Input, c: Config, d: Config, size: nat)
    requires i.Valid() && c.Ready(size) && d.Ready(size) && Alike(c, d)
    ensures Alike(Step(i, c, size), Step(i, d, size))
  {
    hide TokenStep, HeaderAt, InPhase;
    if c.verdict.None? {
      if c.left > 0 {
        if c.kind != Uncompressed {
          TokenAlike(i, c, d, size);
        }
      } else if c.togo > 0 && c.rem == 0 {
        var (base, pos) := HeaderPlace(c);
        HeaderAlike(i, base, pos, c.lens, d.lens);
      }
    }
  }

  lemma {:induction false} RunAlike(i: Input, c: Config, d: Config, size: nat, n: nat)
    requires i.Valid() && c.Ready(size) && d.Ready(size) && Alike(c, d)
    ensures Alike(Iterate(Next(i, size), c, n), Iterate(Next(i, size), d, n))
  {
    hide Step, Alike, Config.Ready;
    if n > 0 {
      RunAlike(i, c, d, size, n - 1);
      AlwaysReady(i, c, size, n - 1);
      AlwaysReady(i, d, size, n - 1);
      StepAlike(i, Iterate(Next(i, size), c, n - 1), Iterate(Next(i, size), d, n - 1), size);
    }
  }
}
