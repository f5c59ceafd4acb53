/** LZ77 with repeated offsets over an unbounded history: the plain meaning of
    what LZXdecompress computes in its circular window. */
module Lz77 {
  import opened Canonical

  // The three most recent match offsets.
  datatype Lru = Lru(r0: nat, r1: nat, r2: nat)

  datatype Slot = Repeat0 | Repeat1 | Repeat2 | New(offset: nat)

  datatype BlockType = Verbatim | AlignedOffset | Uncompressed | Invalid

  // What the bit stream says, in order: block headers, and the contents of runs.
  datatype Piece =
    | Header(kind: BlockType, length: nat, lru: Lru, hasE8: bool)
    | Literal(b: Byte)
    | Match(slot: Slot, length: nat)
    | Raw(bytes: seq<Byte>)

  function Resolve(s: Slot, r: Lru): nat {
    match s
    case Repeat0 => r.r0
    case Repeat1 => r.r1
    case Repeat2 => r.r2
    case New(offset) => offset
  }

  function Touch(s: Slot, r: Lru): Lru {
    match s
    case Repeat0 => r
    case Repeat1 => Lru(r.r1, r.r0, r.r2)
    case Repeat2 => Lru(r.r2, r.r1, r.r0)
    case New(offset) => Lru(offset, r.r0, r.r1)
  }

  // How far back a match copies from.  Offset 0 and offsets beyond the window, which
  // only an uncompressed block can set up, are taken once around the window.
  function Distance(offset: nat, size: nat): nat {
    if offset == 0 then size else if offset > size then offset - size else offset
  }

  // n bytes, each a copy of the byte dist before it.
  function Extend(hist: seq<Byte>, dist: nat, n: nat): (h: seq<Byte>)
    requires 1 <= dist <= |hist|
    ensures |h| == |hist| + n && h[..|hist|] == hist
    decreases n
  {
    if n == 0 then hist
    else
      var g := Extend(hist, dist, n - 1);
      g + [g[|g| - dist]]
  }

  // Whether a piece can be carried out with the given window and offsets: at position
  // posn a copy may begin up to a whole window in front of the window's start.
  predicate PieceOk(p: Piece, r: Lru, size: nat, posn: nat) {
    p.Match? ==> Resolve(p.slot, r) <= size + posn
  }

  // Whether a match copies from as far back as it says.
  predicate Plain(p: Piece, r: Lru, size: nat) {
    p.Match? ==> 0 < Resolve(p.slot, r) <= size
  }

  // The bytes a piece adds.
  function Made(p: Piece): nat {
    match p
    case Header(_, _, _, _) => 0
    case Literal(_) => 1
    case Match(_, n) => n
    case Raw(bytes) => |bytes|
  }

  function NextLru(p: Piece, r: Lru): Lru {
    match p
    case Header(kind, _, lru, _) => if kind == Uncompressed then lru else r
    case Match(slot, _) => Touch(slot, r)
    case _ => r
  }

  // The same for many, behind n bytes: the position in the window is what is left of
  // them after whole windows.
  predicate PiecesOk(ps: seq<Piece>, r: Lru, size: nat, n: nat)
    requires 0 < size
    decreases |ps|
  {
    ps == []
    || (PieceOk(ps[0], r, size, n % size) && PiecesOk(ps[1..], NextLru(ps[0], r), size, n + Made(ps[0])))
  }

  function Output(p: Piece, hist: seq<Byte>, r: Lru, size: nat): (h: seq<Byte>)
    requires 0 < size <= |hist| && PieceOk(p, r, size, size)
    ensures |h| == |hist| + Made(p) && h[..|hist|] == hist
  {
    match p
    case Header(_, _, _, _) => hist
    case Literal(b) => hist + [b]
    case Match(slot, n) => Extend(hist, Distance(Resolve(slot, r), size), n)
    case Raw(bytes) => hist + bytes
  }

  // g is h with copies behind it, each of the byte as far back as the offset says; an
  // offset of 0 or beyond the window counts once around the window.
  ghost predicate CopiesBack(h: seq<Byte>, g: seq<Byte>, offset: nat, size: nat) {
    && |h| <= |g| && g[..|h|] == h
    && forall k :: |h| <= k < |g| ==>
      (0 < offset <= size ==> offset <= k && g[k] == g[k - offset])
      && (offset == 0 ==> size <= k && g[k] == g[k - size])
      && (offset > size ==> offset - size <= k && g[k] == g[k - (offset - size)])
  }

  lemma {:induction false} ExtendCopies(h: seq<Byte>, dist: nat, n: nat)
    requires 1 <= dist <= |h|
    ensures forall k :: |h| <= k < |h| + n ==> Extend(h, dist, n)[k] == Extend(h, dist, n)[k - dist]
    decreases n
  {
    if n > 0 {
      ExtendCopies(h, dist, n - 1);
      var g := Extend(h, dist, n - 1);
      assert Extend(h, dist, n) == g + [g[|g| - dist]];
    }
  }

  lemma MatchCopies(p: Piece, h: seq<Byte>, r: Lru, size: nat)
    requires 0 < size <= |h| && p.Match? && PieceOk(p, r, size, size)
    ensures CopiesBack(h, Output(p, h, r, size), Resolve(p.slot, r), size)
  {
    hide Extend;
    ExtendCopies(h, Distance(Resolve(p.slot, r), size), p.length);
  }

  // The remembered offsets before and after a match: a repeated one changes places
  // with the first, a new one pushes the others down.
  ghost predicate Recalled(s: Slot, r: Lru, r': Lru) {
    match s
    case Repeat0 => r'.r0 == r.r0 && r'.r1 == r.r1 && r'.r2 == r.r2
    case Repeat1 => r'.r0 == r.r1 && r'.r1 == r.r0 && r'.r2 == r.r2
    case Repeat2 => r'.r0 == r.r2 && r'.r1 == r.r1 && r'.r2 == r.r0
    case New(offset) => r'.r0 == offset && r'.r1 == r.r0 && r'.r2 == r.r1
  }

  lemma QueueMoves(s: Slot, r: Lru)
    ensures Recalled(s, r, Touch(s, r)) && Touch(s, r).r0 == Resolve(s, r)
    ensures !s.New? ==> Touch(s, Touch(s, r)) == r
  {
  }

  function Expand(ps: seq<Piece>, hist: seq<Byte>, r: Lru, size: nat): (h: seq<Byte>)
    requires 0 < size <= |hist| && PiecesOk(ps, r, size, |hist|)
    ensures |hist| <= |h| && h[..|hist|] == hist
    decreases |ps|
  {
    if ps == [] then hist
    else
      var g := Output(ps[0], hist, r, size);
      var h := Expand(ps[1..], g, NextLru(ps[0], r), size);
      assert h[..|hist|] == h[..|g|][..|hist|];
      h
  }

  function LastLru(ps: seq<Piece>, r: Lru): Lru
    decreases |ps|
  {
    if ps == [] then r else LastLru(ps[1..], NextLru(ps[0], r))
  }

  lemma {:induction false} ExpandSplit(ps: seq<Piece>, qs: seq<Piece>, hist: seq<Byte>, r: Lru, size: nat)
    requires 0 < size <= |hist| && PiecesOk(ps + qs, r, size, |hist|)
    ensures PiecesOk(ps, r, size, |hist|)
    ensures PiecesOk(qs, LastLru(ps, r), size, |Expand(ps, hist, r, size)|)
    ensures Expand(ps + qs, hist, r, size) == Expand(qs, Expand(ps, hist, r, size), LastLru(ps, r), size)
    ensures LastLru(ps + qs, r) == LastLru(qs, LastLru(ps, r))
    decreases |ps|
  {
    if ps == [] {
      assert ps + qs == qs;
    } else {
      assert (ps + qs)[1..] == ps[1..] + qs;
      ExpandSplit(ps[1..], qs, Output(ps[0], hist, r, size), NextLru(ps[0], r), size);
    }
  }

  // Every match reaches back only over bytes produced since `base`.
  predicate Within(ps: seq<Piece>, hist: seq<Byte>, r: Lru, size: nat, base: nat)
    requires 0 < size <= |hist| && PiecesOk(ps, r, size, |hist|)
    decreases |ps|
  {
    ps == [] ||
    ((ps[0].Match? ==> base + Distance(Resolve(ps[0].slot, r), size) <= |hist|)
     && Within(ps[1..], Output(ps[0], hist, r, size), NextLru(ps[0], r), size, base))
  }

  lemma {:induction false} ExtendLocal(a: seq<Byte>, h: seq<Byte>, dist: nat, n: nat)
    requires 1 <= dist <= |h|
    ensures Extend(a + h, dist, n) == a + Extend(h, dist, n)
    decreases n
  {
    if n > 0 {
      ExtendLocal(a, h, dist, n - 1);
      var g := Extend(h, dist, n - 1);
      assert (a + g)[|a + g| - dist] == g[|g| - dist];
      assert a + g + [g[|g| - dist]] == a + (g + [g[|g| - dist]]);
    }
  }

  lemma OutputLocal(p: Piece, a: seq<Byte>, b: seq<Byte>, h: seq<Byte>, r: Lru, size: nat)
    requires |a| == |b| && 0 < size <= |a| && PieceOk(p, r, size, size)
    requires p.Match? ==> Distance(Resolve(p.slot, r), size) <= |h|
    ensures Output(p, a + h, r, size)[|a|..] == Output(p, b + h, r, size)[|b|..]
  {
    match p
    case Header(_, _, _, _) =>
      assert (a + h)[|a|..] == h == (b + h)[|b|..];
    case Literal(c) =>
      assert (a + h + [c])[|a|..] == h + [c] == (b + h + [c])[|b|..];
    case Match(slot, n) =>
      ExtendLocal(a, h, Distance(Resolve(slot, r), size), n);
      ExtendLocal(b, h, Distance(Resolve(slot, r), size), n);
    case Raw(bytes) =>
      assert (a + h + bytes)[|a|..] == h + bytes == (b + h + bytes)[|b|..];
  }

  /** After a reset the old window contents do not matter: as long as no match
      reaches back past the reset, the bytes produced are the same over any two
      histories. */
  lemma {:induction false} ResetForgets(ps: seq<Piece>, a: seq<Byte>, b: seq<Byte>, h: seq<Byte>, r: Lru, size: nat)
    requires |a| == |b| && 0 < size <= |a| && PiecesOk(ps, r, size, |a + h|)
    requires Within(ps, a + h, r, size, |a|)
    ensures Expand(ps, a + h, r, size)[|a|..] == Expand(ps, b + h, r, size)[|b|..]
    decreases |ps|
  {
    if ps == [] {
      assert (a + h)[|a|..] == h == (b + h)[|b|..];
    } else {
      OutputLocal(ps[0], a, b, h, r, size);
      var x, y := Output(ps[0], a + h, r, size), Output(ps[0], b + h, r, size);
      var h' := x[|a|..];
      assert x == a + h' by { assert x[..|a|] == x[..|a + h|][..|a|] == a; }
      assert y == b + h' by { assert y[..|b|] == y[..|b + h|][..|b|] == b; }
      ResetForgets(ps[1..], a, b, h', NextLru(ps[0], r), size);
    }
  }

  lemma OnePiece(p: Piece, hist: seq<Byte>, r: Lru, size: nat)
    requires 0 < size <= |hist|
    ensures PiecesOk([p], r, size, |hist|) <==> PieceOk(p, r, size, |hist| % size)
    ensures PieceOk(p, r, size, |hist| % size) ==> Expand([p], hist, r, size) == Output(p, hist, r, size)
    ensures LastLru([p], r) == NextLru(p, r)
  {
    assert [p][1..] == [];
  }
}
