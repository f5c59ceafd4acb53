/** The archive whose blocks the LZX decoder decodes: random access with the decoder
    itself, and not with some decompressor that has one state after a reset. */
module LzxArchive {
  import opened Wrappers
  import opened Arith
  import opened Canonical
  import opened BitReader
  import opened Lz77
  import opened Tokens
  import opened BlockHeader
  import ChmCache
  import opened Iteration
  import opened Reference
  import opened Meaning
  import opened Leftovers
  import opened Window
  import opened Lzx

  // The window's size, the main elements, the size of a decompressed block, and what
  // stands in memory behind a compressed one.
  datatype Setup = Setup(size: nat, elements: nat, blockLen: nat, behind: Memory)

  function Buffer(data: seq<Byte>, behind: Memory): Memory {
    (k: nat) => if k < |data| then data[k] else behind(k)
  }

  function InputOf(u: Setup, data: seq<Byte>): Input {
    Input(Buffer(data, u.behind), |data|, u.elements)
  }

  // After a reset, with nothing in the window.
  ghost function Fresh(size: nat): Past {
    Past(Lengths(Zeros(MAIN_LENS), Zeros(LENGTH_LENS), Zeros(ALIGNED_LENS)), Invalid, 0, 0, 0, Lru(1, 1, 1), false,
         seq(size, _ => 0), false, 0, 0, 0)
  }

  ghost predicate Sane(p: Past, size: nat) {
    && 0 < size <= |p.hist| && p.lens.Valid() && p.posn <= size && InPhase(|p.hist|, p.posn, size)
    && (p.rem > 0 ==> p.kind != Invalid)
  }

  ghost function EndFrom(i: Input, c: Config, size: nat): Option<Config> {
    if exists d :: Leads(Next(i, size), c, d) && d.verdict.Some? then
      var d :| Leads(Next(i, size), c, d) && d.verdict.Some?;
      Some(d)
    else None
  }

  lemma EndFound(i: Input, c: Config, size: nat, d: Config)
    requires Leads(Next(i, size), c, d) && d.verdict.Some?
    ensures EndFrom(i, c, size) == Some(d)
  {
    hide Leads;
    OneVerdict(i, c, d, EndFrom(i, c, size).value, size);
  }

  // The size that the E8 pass works with.
  ghost function FileSize(p: Past, mem: Memory): int {
    if p.headerRead then p.filesize else FilesizeAt(Stream(mem, 0))
  }

  // One call of the decompressor, from what the decoder holds.
  ghost function Decode(u: Setup, s: Past, data: seq<Byte>): (r: ChmCache.Step<Past>)
    ensures r.out.Some? ==> |r.out.value| == u.blockLen
  {
    var i := InputOf(u, data);
    var e := EndFrom(i, Start(s, i.mem, u.blockLen), u.size);
    if e.None? || Result(e.value, u.size, u.blockLen) != Ok || |e.value.hist| < u.blockLen then ChmCache.Step(s, None)
    else
      var size := FileSize(s, i.mem);
      ChmCache.Step(Later(s, e.value, size, u.blockLen), Some(Made(s, e.value, size, u.blockLen)))
  }

  ghost function Later(s: Past, e: Config, filesize: int, n: nat): Past {
    Past(e.lens, e.kind, e.length, e.rem, e.posn, e.lru, e.started, e.hist, true, s.frames + 1, filesize,
         PositionAfter(s.frames, filesize, s.curpos, n))
  }

  function Made(s: Past, e: Config, filesize: int, n: nat): (out: seq<Byte>)
    requires n <= |e.hist|
    ensures |out| == n
  {
    Translated(e.hist[|e.hist| - n..], s.frames, filesize, e.started, s.curpos)
  }

  ghost function ArchiveOf(u: Setup, cblock: nat -> Option<seq<Byte>>, resetBlkcount: nat, blank: seq<Byte>):
    ChmCache.Archive<Past>
  {
    ChmCache.Archive(cblock, (s, data) => Decode(u, s, data), Fresh(u.size), u.blockLen, resetBlkcount, blank)
  }

  /** Any series of requests to the blocks of an LZX archive is answered as if cut out
      of its fully decompressed content. */
  lemma AnyOrder(u: Setup, cblock: nat -> Option<seq<Byte>>, resetBlkcount: nat, blank: seq<Byte>,
                 c: ChmCache.Cache<Past>, qs: seq<ChmCache.Request>, m: nat)
    requires 0 < u.blockLen == |blank| && 0 < resetBlkcount
    requires var a := ArchiveOf(u, cblock, resetBlkcount, blank);
      && ChmCache.Sound(a, c) && ChmCache.Decodable(a, m)
      && forall i :: 0 <= i < |qs| ==> ChmCache.RequestOk(qs[i], m * u.blockLen)
    ensures var a := ArchiveOf(u, cblock, resetBlkcount, blank);
      forall i :: 0 <= i < |qs| ==> ChmCache.Answers(a, c, qs)[i] == ChmCache.Expected(a, qs[i], m)
  {
    hide Decode;
    ChmCache.AnyOrder(ArchiveOf(u, cblock, resetBlkcount, blank), c, qs, m);
  }

  // ---------- the decoder itself ----------

  // What a decoder holds is what the archive's state says, but for what is left over
  // from before the reset.
  ghost predicate Stands(p: Past, s: Past, size: nat) {
    && p == s.(lens := s.lens.(aligned := p.lens.aligned), length := p.length, hist := p.hist, filesize := p.filesize)
    && Sane(p, size) && Sane(s, size)
    && (s.kind == AlignedOffset ==> p.lens.aligned[..8] == s.lens.aligned[..8])
    && (s.kind == Uncompressed ==> p.length == s.length)
    && (s.headerRead ==> p.filesize == s.filesize)
    && |p.hist| == |s.hist| && p.hist[size..] == s.hist[size..]
  }

  // No match reaches back past the reset.
  ghost predicate Tidy(i: Input, c: Config, size: nat)
    requires i.Valid() && c.Ready(size) && 0 < size <= |c.hist|
  {
    forall n: nat :: TidySteps(i, c, size, n)
  }

  ghost predicate TidySteps(i: Input, c: Config, size: nat, n: nat)
    requires i.Valid() && c.Ready(size) && 0 < size <= |c.hist|
  {
    HistoryIsExpansion(i, c, size, n);
    Within(Spelled(i, c, size, n), c.hist, c.lru, size, size)
  }

  lemma StartReady(p: Past, mem: Memory, n: nat, size: nat)
    requires Sane(p, size)
    ensures var c := Start(p, mem, n);
      c.Valid(size) && c.Ready(size) && c.verdict.None? && c.hist == p.hist && c.lru == p.lru
  {
  }

  lemma StartAlike(p: Past, s: Past, mem: Memory, n: nat, size: nat)
    requires Stands(p, s, size)
    ensures Alike(Over(Start(s, mem, n), p.hist), Start(p, mem, n))
  {
    hide InPhase;
  }

  // Both come to the same end, but for what is left over.
  lemma SameEnd(i: Input, p: Past, s: Past, n: nat, size: nat, d: Config) returns (e: Config)
    requires i.Valid() && Stands(p, s, size) && Start(s, i.mem, n).Ready(size)
    requires Tidy(i, Start(s, i.mem, n), size)
    requires Leads(Next(i, size), Start(p, i.mem, n), d) && d.verdict.Some?
    ensures Leads(Next(i, size), Start(s, i.mem, n), e) && e.verdict == d.verdict
    ensures Alike(Over(e, d.hist), d) && size <= |e.hist| == |d.hist| && e.hist[size..] == d.hist[size..]
  {
    hide Alike, Within, Step, Config.Ready, Start, InPhase, Spelled, PiecesOk;
    var c, k := Start(s, i.mem, n), Steps(i, Start(p, i.mem, n), size, d);
    StartReady(s, i.mem, n, size);
    StartReady(p, i.mem, n, size);
    StartAlike(p, s, i.mem, n, size);
    assert TidySteps(i, c, size, k);
    HistoryIsExpansion(i, c, size, k);
    SameAfterReset(i, c, p.hist, size, size, k);
    OverReady(c, p.hist, size);
    RunAlike(i, Over(c, p.hist), Start(p, i.mem, n), size, k);
    e := Iterate(Next(i, size), c, k);
    var f := Iterate(Next(i, size), Over(c, p.hist), k);
    AlikeParts(f, d);
  }

  lemma OverReady(c: Config, h: seq<Byte>, size: nat)
    requires c.Valid(size) && |h| == |c.hist|
    ensures Over(c, h).Ready(size)
  {
  }

  lemma AlikeParts(c: Config, d: Config)
    requires Alike(c, d)
    ensures c.hist == d.hist && c.verdict == d.verdict
  {
  }

  // ---------- what a block takes from the history ----------

  ghost predicate Owes(c: Config, total: int) {
    |c.hist| + c.togo + c.left >= total && (c.verdict == Some(Ok) ==> c.togo == 0 && c.left <= 0)
  }

  lemma StepOwes(i: Input, c: Config, size: nat, total: int)
    requires i.Valid() && c.Ready(size) && Owes(c, total)
    ensures Owes(Step(i, c, size), total)
  {
    hide TokenHere, HeaderAt, EndOf, InPhase;
    if c.verdict.None? && c.left > 0 && c.kind != Uncompressed {
      TokenOwes(i, c, size);
    }
  }

  lemma TokenOwes(i: Input, c: Config, size: nat)
    requires c.Valid(size) && c.verdict.None? && c.left > 0 && c.kind != Uncompressed
    ensures var d := TokenStep(i, c, size);
      |d.hist| + d.togo + d.left == |c.hist| + c.togo + c.left && d.verdict != Some(Ok)
  {
    hide TokenHere, EndOf, InPhase, PieceOf, ValidToken;
    var t := TokenHere(c.kind, c.lens.InForce(), Stream(i.mem, c.place.base), c.place.pos);
    if t.Some? {
      TokenKind(c.kind, c.lens.InForce(), Stream(i.mem, c.place.base), c.place.pos);
    }
  }

  lemma {:induction false} RunOwes(i: Input, c: Config, size: nat, k: nat, total: int)
    requires i.Valid() && c.Ready(size) && Owes(c, total)
    ensures Owes(Iterate(Next(i, size), c, k), total)
  {
    hide Step, Owes, Config.Ready;
    if k > 0 {
      RunOwes(i, c, size, k - 1, total);
      AlwaysReady(i, c, size, k - 1);
      StepOwes(i, Iterate(Next(i, size), c, k - 1), size, total);
    }
  }

  // A block that decodes makes all its bytes.
  lemma AllMade(i: Input, s: Past, n: nat, size: nat, d: Config)
    requires i.Valid() && Sane(s, size) && Leads(Next(i, size), Start(s, i.mem, n), d) && d.verdict == Some(Ok)
    ensures |d.hist| >= |s.hist| + n
  {
    hide Step, Config.Ready;
    var c := Start(s, i.mem, n);
    StartReady(s, i.mem, n, size);
    RunOwes(i, c, size, Steps(i, c, size, d), |s.hist| + n);
  }

  lemma SameTail(x: seq<Byte>, y: seq<Byte>, base: nat, n: nat)
    requires base + n <= |x| == |y| && x[base..] == y[base..]
    ensures x[|x| - n..] == y[|y| - n..]
  {
    var k := |x| - n - base;
    assert x[|x| - n..] == x[base..][k..] && y[|y| - n..] == y[base..][k..];
  }

  // The outcome of a block, where the archive's state comes to the end e.
  lemma DecodeIs(u: Setup, s: Past, data: seq<Byte>, e: Config)
    requires Sane(s, u.size) && InputOf(u, data).Valid()
    requires Leads(Next(InputOf(u, data), u.size), Start(s, InputOf(u, data).mem, u.blockLen), e)
    requires e.verdict.Some?
    ensures Result(e, u.size, u.blockLen) == Ok ==> |s.hist| + u.blockLen <= |e.hist|
    ensures var r, filesize := Decode(u, s, data), FileSize(s, InputOf(u, data).mem);
      if Result(e, u.size, u.blockLen) != Ok then r.out.None?
      else r == ChmCache.Step(Later(s, e, filesize, u.blockLen), Some(Made(s, e, filesize, u.blockLen)))
  {
    hide Leads, Start, FileSize, Later, Made, InPhase;
    var i := InputOf(u, data);
    EndFound(i, Start(s, i.mem, u.blockLen), u.size, e);
    if Result(e, u.size, u.blockLen) == Ok {
      AllMade(i, s, u.blockLen, u.size, e);
    }
  }

  // ... and the decoder's, at its own end d.
  lemma LaterStands(p: Past, q: Past, s: Past, e: Config, d: Config, filesize: int, n: nat, size: nat)
    requires Stands(p, s, size) && Sane(q, size) && Alike(Over(e, d.hist), d)
    requires size <= |e.hist| == |d.hist| && e.hist[size..] == d.hist[size..]
    requires q == Past(d.lens, d.kind, d.length, d.rem, d.posn, d.lru, d.started, d.hist, true, p.frames + 1, filesize,
                       PositionAfter(p.frames, filesize, p.curpos, n))
    requires e.lens.Valid()
    ensures Stands(q, Later(s, e, filesize, n), size)
  {
    hide InPhase;
    assert InPhase(|e.hist|, e.posn, size) by {
      assert InPhase(|q.hist|, q.posn, size);
    }
  }

  // The next block reaches back only over bytes made since the reset.
  ghost predicate TidyBlock(u: Setup, s: Past, data: seq<Byte>)
    requires Sane(s, u.size) && InputOf(u, data).Valid()
  {
    var i := InputOf(u, data);
    StartReady(s, i.mem, u.blockLen, u.size);
    Tidy(i, Start(s, i.mem, u.blockLen), u.size)
  }

  lemma HeldSane(x: LzxState)
    requires x.Valid()
    ensures x.Shape() && Sane(x.Held(), x.window.Length)
  {
    hide InPhase;
  }

  lemma FreshStands(p: Past, size: nat)
    requires Sane(p, size) && p.lens.main == Zeros(MAIN_LENS) && p.lens.length == Zeros(LENGTH_LENS)
    requires p == Past(p.lens, Invalid, p.length, 0, 0, Lru(1, 1, 1), false, p.hist, false, 0, p.filesize, 0)
    requires |p.hist| == size
    ensures Stands(p, Fresh(size), size)
  {
    assert p.hist[size..] == [] && Fresh(size).hist[size..] == [];
  }

  /** LZXreset: the decoder stands at the archive's state after a reset, whatever it
      held before. */
  method ResetDecoder(x: LzxState)
    requires x.Shape()
    modifies x, x.tables.trees.mainLen, x.tables.trees.lengthLen
    ensures x.Valid() && Stands(x.Held(), Fresh(x.window.Length), x.window.Length)
  {
    hide LzxState.Valid, Zeros, Stands, Sane;
    x.Reset();
    HeldSane(x);
    FreshStands(x.Held(), x.window.Length);
  }

  lemma Fed(u: Setup, p: Past, s: Past, data: seq<Byte>, d: Config) returns (e: Config)
    requires Stands(p, s, u.size) && InputOf(u, data).Valid() && TidyBlock(u, s, data)
    requires Leads(Next(InputOf(u, data), u.size), Start(p, InputOf(u, data).mem, u.blockLen), d) && d.verdict.Some?
    ensures Alike(Over(e, d.hist), d) && u.size <= |e.hist| == |d.hist| && e.hist[u.size..] == d.hist[u.size..]
    ensures Result(d, u.size, u.blockLen) == Ok <==> Decode(u, s, data).out.Some?
    ensures Result(d, u.size, u.blockLen) == Ok ==>
      var filesize := FileSize(s, InputOf(u, data).mem);
      && filesize == FileSize(p, InputOf(u, data).mem) && u.blockLen <= |d.hist| && d.started == e.started
      && Decode(u, s, data) == ChmCache.Step(Later(s, e, filesize, u.blockLen), Some(Made(p, d, filesize, u.blockLen)))
  {
    hide Leads, Start, Decode, Tidy, InPhase, Later, Stands, Sane, Alike, Made, FileSize, Result, Config.Ready;
    var i := InputOf(u, data);
    StandsParts(p, s, i.mem, u.size);
    StartReady(s, i.mem, u.blockLen, u.size);
    e := SameEnd(i, p, s, u.blockLen, u.size, d);
    SameResult(e, d, u.size, u.blockLen);
    DecodeIs(u, s, data, e);
    if Result(d, u.size, u.blockLen) == Ok {
      SameMade(p, s, e, d, FileSize(s, i.mem), u.blockLen, u.size);
    }
  }

  lemma StandsParts(p: Past, s: Past, mem: Memory, size: nat)
    requires Stands(p, s, size)
    ensures Sane(s, size) && size <= |s.hist| && FileSize(p, mem) == FileSize(s, mem)
  {
  }

  lemma SameResult(e: Config, d: Config, size: nat, n: nat)
    requires Alike(Over(e, d.hist), d) && d.verdict.Some?
    ensures e.verdict.Some? && Result(e, size, n) == Result(d, size, n) && e.started == d.started
  {
  }

  lemma SameMade(p: Past, s: Past, e: Config, d: Config, filesize: int, n: nat, size: nat)
    requires Stands(p, s, size) && e.started == d.started && size + n <= |e.hist| == |d.hist|
    requires e.hist[size..] == d.hist[size..]
    ensures Made(s, e, filesize, n) == Made(p, d, filesize, n)
  {
    SameTail(e.hist, d.hist, size, n);
  }

  /** LZXdecompress: from where the archive stands the decoder makes the archive's next
      block, and stands at the archive's next state; it fails where the archive does. */
  method Feed(x: LzxState, u: Setup, data: seq<Byte>, outpos: array<Byte>, ghost s: Past) returns (ok: bool)
    requires x.Valid() && u.size == x.window.Length && u.elements == x.mainElements && u.blockLen == outpos.Length
    requires outpos != x.window && outpos != x.tables.trees.mainLen && outpos != x.tables.trees.lengthLen
    requires outpos != x.tables.trees.alignedLen && outpos != x.tables.preLen
    requires Stands(x.Held(), s, u.size) && InputOf(u, data).Valid() && TidyBlock(u, s, data)
    modifies x, x.window, outpos,
      x.tables.preLen, x.tables.preTable, x.tables.trees.mainLen, x.tables.trees.mainTable, x.tables.trees.lengthLen,
      x.tables.trees.lengthTable, x.tables.trees.alignedLen, x.tables.trees.alignedTable
    ensures ok <==> Decode(u, s, data).out.Some?
    ensures ok ==> outpos[..] == Decode(u, s, data).out.value
    ensures ok ==> x.Valid() && Stands(x.Held(), Decode(u, s, data).state, u.size)
  {
    hide LzxState.Valid, LzxState.Shape, Start, Leads, Next, Alike, Stands, Sane, Decode, TidyBlock, Result, Later,
      PositionAfter, Translated, Delivered, Made, Input.Valid, Lengths.Valid;
    HeldSane(x);
    ghost var p := x.Held();
    var status;
    ghost var d;
    status, d := x.Decompress(Buffer(data, u.behind), |data|, outpos);
    ghost var e := Fed(u, p, s, data, d);
    ok := status == Ok;
    if ok {
      HeldSane(x);
      EndValid(x, e, d);
      GivenOut(outpos[..], p, d, x.intelFilesize, u.blockLen);
      LaterStands(p, x.Held(), s, e, d, x.intelFilesize, u.blockLen, u.size);
    }
  }

  lemma EndValid(x: LzxState, e: Config, d: Config)
    requires x.Shape() && Alike(Over(e, d.hist), d) && d.lens == x.tables.Lens()
    ensures e.lens.Valid()
  {
  }

  lemma GivenOut(out: seq<Byte>, p: Past, d: Config, filesize: int, n: nat)
    requires |out| == n <= |d.hist| && Delivered(out, d.hist, p.frames, filesize, d.started, p.curpos)
    ensures out == Made(p, d, filesize, n)
  {
  }

  // ---------- from a reset point on ----------

  // The archive's state in front of block b.
  ghost function Before(a: ChmCache.Archive<Past>, b: nat): Option<Past>
    requires 0 < a.resetBlkcount
  {
    if b % a.resetBlkcount == 0 then Some(a.reset)
    else
      match ChmCache.Sequential(a, b - 1)
      case None => None
      case Some(p) => Some(p.0)
  }

  ghost predicate TidyAt(u: Setup, a: ChmCache.Archive<Past>, b: nat)
    requires 0 < a.resetBlkcount
  {
    var s, data := Before(a, b), a.cblock(b);
    s.Some? && data.Some? && Sane(s.value, u.size) && InputOf(u, data.value).Valid() ==>
      TidyBlock(u, s.value, data.value)
  }

  lemma SequentialIs(a: ChmCache.Archive<Past>, b: nat, s: Past, data: seq<Byte>)
    requires 0 < a.resetBlkcount && Before(a, b) == Some(s) && a.cblock(b) == Some(data)
    ensures var r := a.step(s, data);
      ChmCache.Sequential(a, b) == if r.out.Some? then Some((r.state, r.out.value)) else None
  {
  }

  lemma {:induction false} StaysFailed(a: ChmCache.Archive<Past>, first: nat, b: nat, k: nat)
    requires 0 < a.resetBlkcount && first % a.resetBlkcount == 0 && first <= b <= k < first + a.resetBlkcount
    requires ChmCache.Sequential(a, b).None?
    ensures ChmCache.Sequential(a, k).None?
    decreases k
  {
    if b < k {
      StaysFailed(a, first, b, k - 1);
      BetweenResets(first, k - first, a.resetBlkcount);
    }
  }

  lemma BetweenResets(first: nat, k: nat, n: nat)
    requires 0 < n && first % n == 0 && 0 < k < n
    ensures (first + k) % n == k
  {
    assert first == (first / n) * n;
    DivUnique(first + k, first / n, k, n);
  }

  /** The blocks from a reset point on, one after the other with one decoder: the last
      is what sequential decompression of the archive gives, or fails where that does. */
  method DecodeFrom(x: LzxState, u: Setup, blocks: seq<seq<Byte>>, outpos: array<Byte>,
                    ghost a: ChmCache.Archive<Past>, ghost first: nat)
    returns (ok: bool)
    requires x.Valid() && u.size == x.window.Length && u.elements == x.mainElements && u.blockLen == outpos.Length
    requires outpos != x.window && outpos != x.tables.trees.mainLen && outpos != x.tables.trees.lengthLen
    requires outpos != x.tables.trees.alignedLen && outpos != x.tables.preLen
    requires a == ArchiveOf(u, a.cblock, a.resetBlkcount, a.blank) && 0 < |blocks| <= a.resetBlkcount
    requires first % a.resetBlkcount == 0
    requires forall k :: 0 <= k < |blocks| ==> a.cblock(first + k) == Some(blocks[k]) && TidyAt(u, a, first + k)
    modifies x, x.window, outpos,
      x.tables.preLen, x.tables.preTable, x.tables.trees.mainLen, x.tables.trees.mainTable, x.tables.trees.lengthLen,
      x.tables.trees.lengthTable, x.tables.trees.alignedLen, x.tables.trees.alignedTable
    ensures ok <==> ChmCache.Sequential(a, first + |blocks| - 1).Some?
    ensures ok ==> outpos[..] == ChmCache.Sequential(a, first + |blocks| - 1).value.1
  {
    hide LzxState.Valid, LzxState.Shape, Stands, Sane, Decode, TidyBlock, Fresh, Input.Valid, InputOf,
      ChmCache.Sequential;
    HeldSane(x);
    ResetDecoder(x);
    ghost var s := a.reset;
    ok := true;
    for k := 0 to |blocks|
      invariant ok && x.Valid() && Stands(x.Held(), s, u.size)
      invariant k < |blocks| ==> Before(a, first + k) == Some(s)
      invariant k > 0 ==> ChmCache.Sequential(a, first + k - 1) == Some((s, outpos[..]))
    {
      ReadyToFeed(x, u, s, blocks[k]);
      SequentialIs(a, first + k, s, blocks[k]);
      ok := Feed(x, u, blocks[k], outpos, s);
      if !ok {
        StaysFailed(a, first, first + k, first + |blocks| - 1);
        return;
      }
      if k + 1 < |blocks| {
        BetweenResets(first, k + 1, a.resetBlkcount);
      }
      s := Decode(u, s, blocks[k]).state;
    }
  }

  lemma ReadyToFeed(x: LzxState, u: Setup, s: Past, data: seq<Byte>)
    requires x.Valid() && Stands(x.Held(), s, u.size) && u.elements == x.mainElements
    ensures x.Shape() && Sane(s, u.size) && InputOf(u, data).Valid()
  {
  }
}
