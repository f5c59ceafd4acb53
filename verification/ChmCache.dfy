/** Random access to the blocks of a CHM content section: a direct-mapped cache
    in front of a decompressor that only runs forward from reset points. */
module ChmCache {
  import opened Wrappers
  import opened Arith
  import opened Canonical

  const INT64_LIM: int := 0x8000_0000_0000_0000

  // One call of the decompressor: its state afterwards, and the block if it
  // could be decoded.
  datatype Step<S> = Step(state: S, out: Option<seq<Byte>>)

  // What a file fixes: the compressed bytes of each block, if they can be
  // fetched; the decompressor, its state after a reset; the size of a block and
  // the number of blocks from one reset point to the next.  `blank` is what
  // newly allocated memory happens to hold.
  datatype Archive<!S(!new)> = Archive(
    cblock: nat -> Option<seq<Byte>>,
    step: (S, seq<Byte>) -> Step<S>,
    reset: S,
    blockLen: nat,
    resetBlkcount: nat,
    blank: seq<Byte>) {

    ghost predicate Valid() {
      && 0 < blockLen && 0 < resetBlkcount && |blank| == blockLen
      && forall s, d :: step(s, d).out.Some? ==> |step(s, d).out.value| == blockLen
    }
  }

  // The part of the file handle that retrieval changes.
  datatype Cache<S> = Cache(
    blocks: seq<Option<seq<Byte>>>,
    indices: seq<nat>,
    lzx: Option<S>,
    last: int) {

    predicate Valid(blockLen: nat) {
      && 0 < |blocks| == |indices| && -1 <= last
      && forall i :: 0 <= i < |blocks| ==> blocks[i].Some? ==> |blocks[i].value| == blockLen
    }

    predicate Has(b: nat)
      requires 0 < |blocks| == |indices|
    {
      indices[b % |blocks|] == b && blocks[b % |blocks|].Some?
    }
  }

  // ---------- what the file contains ----------

  // Sequential decompression from the reset point before block b, through b.
  function Sequential<S(!new)>(a: Archive<S>, b: nat): Option<(S, seq<Byte>)>
    requires 0 < a.resetBlkcount
  {
    var from :=
      if b % a.resetBlkcount == 0 then Some(a.reset)
      else
        match Sequential(a, b - 1)
        case None => None
        case Some(p) => Some(p.0);
    match (from, a.cblock(b))
    case (Some(s), Some(d)) =>
      var r := a.step(s, d);
      if r.out.Some? then Some((r.state, r.out.value)) else None
    case _ => None
  }

  // The first n blocks can all be decoded.
  ghost predicate Decodable<S(!new)>(a: Archive<S>, n: nat)
    requires 0 < a.resetBlkcount
  {
    forall b :: 0 <= b < n ==> Sequential(a, b).Some?
  }

  // The first n blocks, decoded and put end to end.
  ghost function Whole<S(!new)>(a: Archive<S>, n: nat): (s: seq<Byte>)
    requires a.Valid() && Decodable(a, n)
    ensures |s| == n * a.blockLen
  {
    if n == 0 then []
    else
      assert n * a.blockLen == (n - 1) * a.blockLen + a.blockLen;
      Whole(a, n - 1) + Sequential(a, n - 1).value.1
  }

  // ---------- what retrieval does ----------

  // Decodes block b into its slot of the cache, from the present state or after
  // a reset.
  function Fill<S(!new)>(a: Archive<S>, c: Cache<S>, b: nat, reset: bool): (Cache<S>, bool)
    requires 0 < |c.blocks| == |c.indices| && c.lzx.Some?
  {
    var slot := b % |c.blocks|;
    var s := if reset then a.reset else c.lzx.value;
    var blocks := if c.blocks[slot].None? then c.blocks[slot := Some(a.blank)] else c.blocks;
    var c' := Cache(blocks, c.indices[slot := b], Some(s), c.last);
    match a.cblock(b)
    case None => (c', false)
    case Some(d) =>
      var r := a.step(s, d);
      if r.out.None? then (c'.(lzx := Some(r.state)), false)
      else (Cache(blocks[slot := r.out], c'.indices, Some(r.state), b), true)
  }

  // Decodes the i blocks before `block`, except the one decoded last.
  function Previous<S(!new)>(a: Archive<S>, c: Cache<S>, block: nat, i: nat): (r: (Cache<S>, bool))
    requires 0 < |c.blocks| == |c.indices| && c.lzx.Some? && i <= block && 0 < a.resetBlkcount
    ensures |r.0.blocks| == |r.0.indices| == |c.blocks| && r.0.lzx.Some?
    decreases i
  {
    if i == 0 then (c, true)
    else if c.last == block - i then Previous(a, c, block, i - 1)
    else
      var (c', ok) := Fill(a, c, block - i, (block - i) % a.resetBlkcount == 0);
      if ok then Previous(a, c', block, i - 1) else (c', false)
  }

  // How many blocks must be gone through before `block`.
  function Behind(block: nat, last: int, resetBlkcount: nat): (n: nat)
    requires 0 < resetBlkcount
    ensures n <= block
  {
    var align := block % resetBlkcount;
    if block - align <= last <= block then block - last else align
  }

  function DecompressBlock<S(!new)>(a: Archive<S>, c: Cache<S>, block: nat): (r: (Cache<S>, bool))
    requires 0 < |c.blocks| == |c.indices| && c.lzx.Some? && 0 < a.resetBlkcount
    ensures |r.0.blocks| == |r.0.indices| == |c.blocks| && r.0.lzx.Some?
  {
    var n := Behind(block, c.last, a.resetBlkcount);
    if n != 0 then
      var (c', ok) := Previous(a, c, block, n);
      if ok then Fill(a, c', block, false) else (c', false)
    else
      Fill(a, c, block, block % a.resetBlkcount == 0)
  }

  // The decompressor exists.
  function Started<S(!new)>(a: Archive<S>, c: Cache<S>): (r: Cache<S>)
    ensures r.lzx.Some? && r.blocks == c.blocks && r.indices == c.indices
  {
    if c.lzx.None? then c.(lzx := Some(a.reset), last := -1) else c
  }

  // Up to len bytes at `start`, all from one block.
  function Region<S(!new)>(a: Archive<S>, c: Cache<S>, start: nat, len: int): (r: (Cache<S>, seq<Byte>))
    requires a.Valid() && c.Valid(a.blockLen)
    ensures r.0.Valid(a.blockLen) && |r.1| <= (if len <= 0 then 0 else len)
  {
    if len <= 0 then (c, [])
    else
      var block, off := start / a.blockLen, start % a.blockLen;
      var n := if len > a.blockLen - off then a.blockLen - off else len;
      if c.Has(block) then (c, c.blocks[block % |c.blocks|].value[off..off + n])
      else
        KeepsValid(a, Started(a, c), block);
        var (c', ok) := DecompressBlock(a, Started(a, c), block);
        if ok then (c', c'.blocks[block % |c.blocks|].value[off..off + n]) else (c', [])
  }

  // Region after region until all is read or one yields nothing.
  function Retrieve<S(!new)>(a: Archive<S>, c: Cache<S>, start: nat, len: int): (r: (Cache<S>, seq<Byte>))
    requires a.Valid() && c.Valid(a.blockLen)
    ensures r.0.Valid(a.blockLen) && |r.1| <= (if len <= 0 then 0 else len)
    decreases if len <= 0 then 0 else len
  {
    var (c', s) := Region(a, c, start, len);
    if s == [] || len == |s| then (c', s)
    else
      var (c'', t) := Retrieve(a, c', start + |s|, len - |s|);
      (c'', s + t)
  }

  lemma {:induction false} PreviousValid<S(!new)>(a: Archive<S>, c: Cache<S>, block: nat, i: nat)
    requires a.Valid() && c.Valid(a.blockLen) && c.lzx.Some? && i <= block
    ensures Previous(a, c, block, i).0.Valid(a.blockLen)
    decreases i
  {
    if i != 0 {
      if c.last == block - i {
        PreviousValid(a, c, block, i - 1);
      } else {
        var (c', ok) := Fill(a, c, block - i, (block - i) % a.resetBlkcount == 0);
        if ok {
          PreviousValid(a, c', block, i - 1);
        }
      }
    }
  }

  lemma KeepsValid<S(!new)>(a: Archive<S>, c: Cache<S>, block: nat)
    requires a.Valid() && c.Valid(a.blockLen) && c.lzx.Some?
    ensures var (c', ok) := DecompressBlock(a, c, block);
      && c'.Valid(a.blockLen)
      && (ok ==> c'.blocks[block % |c.blocks|].Some?)
  {
    var n := Behind(block, c.last, a.resetBlkcount);
    if n != 0 {
      PreviousValid(a, c, block, n);
    }
  }

  // ---------- the invariant ----------

  // An occupied slot holds a block that belongs there, with its own bytes.
  ghost predicate SlotOk<S(!new)>(a: Archive<S>, c: Cache<S>, i: nat)
    requires 0 < a.resetBlkcount && i < |c.blocks| == |c.indices|
  {
    c.blocks[i].Some? ==>
      && c.indices[i] % |c.blocks| == i
      && Sequential(a, c.indices[i]).Some?
      && c.blocks[i].value == Sequential(a, c.indices[i]).value.1
  }

  ghost predicate CacheOk<S(!new)>(a: Archive<S>, c: Cache<S>) {
    && a.Valid() && c.Valid(a.blockLen)
    && forall i :: 0 <= i < |c.blocks| ==> SlotOk(a, c, i)
  }

  // The decompressor is where decoding from the last reset point through the
  // last block leaves it.
  ghost predicate StateOk<S(!new)>(a: Archive<S>, c: Cache<S>)
    requires 0 < a.resetBlkcount
  {
    c.last >= 0 ==>
      c.lzx.Some? && Sequential(a, c.last).Some? && c.lzx.value == Sequential(a, c.last).value.0
  }

  // The last block is still cached, or would be decoded after a reset anyway.
  ghost predicate LastKept<S(!new)>(a: Archive<S>, c: Cache<S>)
    requires 0 < a.resetBlkcount && 0 < |c.blocks| == |c.indices|
  {
    c.last >= 0 ==> c.last % a.resetBlkcount == 0 || c.Has(c.last)
  }

  ghost predicate Sound<S(!new)>(a: Archive<S>, c: Cache<S>) {
    CacheOk(a, c) && StateOk(a, c) && LastKept(a, c)
  }

  lemma SequentialStep<S(!new)>(a: Archive<S>, b: nat)
    requires 0 < a.resetBlkcount && Sequential(a, b).Some? && b % a.resetBlkcount != 0
    ensures b > 0 && Sequential(a, b - 1).Some?
  {
  }

  lemma FillSound<S(!new)>(a: Archive<S>, c: Cache<S>, b: nat, reset: bool)
    requires CacheOk(a, c) && c.lzx.Some? && Sequential(a, b).Some?
    requires reset <==> b % a.resetBlkcount == 0
    requires !reset ==> b > 0 && Sequential(a, b - 1).Some? && c.lzx.value == Sequential(a, b - 1).value.0
    ensures var (c', ok) := Fill(a, c, b, reset);
      && ok && |c'.blocks| == |c.blocks| && c'.last == b && Sound(a, c') && c'.Has(b)
      && c'.blocks[b % |c'.blocks|].value == Sequential(a, b).value.1
  {
    var (c', ok) := Fill(a, c, b, reset);
    forall i | 0 <= i < |c'.blocks|
      ensures SlotOk(a, c', i)
    {
      assert SlotOk(a, c, i);
    }
  }

  lemma {:induction false} PreviousSound<S(!new)>(a: Archive<S>, c: Cache<S>, block: nat, i: nat)
    requires CacheOk(a, c) && StateOk(a, c) && c.lzx.Some?
    requires 0 < i <= block % a.resetBlkcount && i <= block
    requires Sequential(a, block - 1).Some?
    requires (block - i) % a.resetBlkcount == 0 || c.last == block - i || c.last == block - i - 1
    ensures var (c', ok) := Previous(a, c, block, i);
      ok && CacheOk(a, c') && StateOk(a, c') && c'.last == block - 1
    decreases i
  {
    hide Sequential, Fill, SlotOk;
    var cur := block - i;
    ModSub(block, i, a.resetBlkcount);
    ModSub(block, 1, a.resetBlkcount);
    NeedsEarlier(a, block - 1, cur, i - 1);
    if c.last == cur {
      if i > 1 {
        PreviousSound(a, c, block, i - 1);
      }
    } else {
      if cur % a.resetBlkcount != 0 {
        SequentialStep(a, cur);
      }
      FillSound(a, c, cur, cur % a.resetBlkcount == 0);
      var (c', ok) := Fill(a, c, cur, cur % a.resetBlkcount == 0);
      if i > 1 {
        PreviousSound(a, c', block, i - 1);
      }
    }
  }

  // A decodable block has decodable blocks before it, back to the reset point.
  lemma {:induction false} NeedsEarlier<S(!new)>(a: Archive<S>, b: nat, cur: nat, i: nat)
    requires 0 < a.resetBlkcount && Sequential(a, b).Some? && cur + i == b && i <= b % a.resetBlkcount
    ensures Sequential(a, cur).Some?
    decreases i
  {
    if i > 0 {
      SequentialStep(a, b);
      ModSub(b, 1, a.resetBlkcount);
      NeedsEarlier(a, b - 1, cur, i - 1);
    }
  }

  /** Whatever was read before, a block that sequential decompression can reach
      is decoded to its sequential bytes, and the invariant is kept. */
  lemma DecompressBlockSound<S(!new)>(a: Archive<S>, c: Cache<S>, block: nat)
    requires Sound(a, c) && c.lzx.Some? && Sequential(a, block).Some? && !c.Has(block)
    ensures var (c', ok) := DecompressBlock(a, c, block);
      && ok && Sound(a, c') && c'.last == block && c'.Has(block)
      && c'.blocks[block % |c'.blocks|].value == Sequential(a, block).value.1
  {
    hide Fill, Previous, Sequential;
    var n := Behind(block, c.last, a.resetBlkcount);
    if n != 0 {
      assert n <= block % a.resetBlkcount;
      ModSub(block, block % a.resetBlkcount, a.resetBlkcount);
      SequentialStep(a, block);
      PreviousSound(a, c, block, n);
      var (c', ok) := Previous(a, c, block, n);
      FillSound(a, c', block, false);
    } else {
      FillSound(a, c, block, true);
    }
  }

  // ---------- retrieval ----------

  lemma {:induction false} WholeBlock<S(!new)>(a: Archive<S>, n: nat, b: nat)
    requires a.Valid() && Decodable(a, n) && b < n
    ensures b * a.blockLen + a.blockLen <= n * a.blockLen
    ensures Whole(a, n)[b * a.blockLen..b * a.blockLen + a.blockLen] == Sequential(a, b).value.1
  {
    assert n * a.blockLen == (n - 1) * a.blockLen + a.blockLen;
    if b < n - 1 {
      WholeBlock(a, n - 1, b);
      assert Whole(a, n)[..(n - 1) * a.blockLen] == Whole(a, n - 1);
    }
  }

  lemma SliceOfSlice(s: seq<Byte>, x: nat, y: nat, i: nat, j: nat)
    requires x <= y <= |s| && i <= j <= y - x
    ensures s[x..y][i..j] == s[x + i..x + j]
  {
    var t, u := s[x..y][i..j], s[x + i..x + j];
    assert |t| == |u| && forall k :: 0 <= k < |t| ==> t[k] == u[k];
  }

  // The block a position lies in, and what is left of it.
  lemma Locate(start: nat, len: nat, n: nat, m: nat) returns (b: nat, off: nat)
    requires 0 < n && 0 < len && start + len <= m * n
    ensures b == start / n && off == start % n && off < n && start == b * n + off && b < m
  {
    b, off := start / n, start % n;
    assert start == b * n + off;
    assert (b - m) * n == b * n - m * n;
    if b >= m {
      MulNonNegative(b - m, n);
    }
  }

  /** One region: the right bytes, as many as the block still holds. */
  lemma RegionSound<S(!new)>(a: Archive<S>, c: Cache<S>, start: nat, len: nat, m: nat)
    requires Sound(a, c) && Decodable(a, m) && 0 < len && start + len <= m * a.blockLen
    ensures var (c', s) := Region(a, c, start, len);
      && Sound(a, c') && 0 < |s| <= len
      && s == Whole(a, m)[start..start + |s|]
  {
    var block, off := Locate(start, len, a.blockLen, m);
    assert Sequential(a, block).Some?;
    WholeBlock(a, m, block);
    var n := if len > a.blockLen - off then a.blockLen - off else len;
    SliceOfSlice(Whole(a, m), block * a.blockLen, block * a.blockLen + a.blockLen, off, off + n);
    if c.Has(block) {
      assert SlotOk(a, c, block % |c.blocks|);
    } else {
      hide Sequential, DecompressBlock, Fill, SlotOk, Whole;
      StartedSound(a, c);
      DecompressBlockSound(a, Started(a, c), block);
      KeepsValid(a, Started(a, c), block);
    }
  }

  lemma StartedSound<S(!new)>(a: Archive<S>, c: Cache<S>)
    requires Sound(a, c)
    ensures Sound(a, Started(a, c))
  {
    var c' := Started(a, c);
    forall i | 0 <= i < |c'.blocks|
      ensures SlotOk(a, c', i)
    {
      assert SlotOk(a, c, i);
    }
  }

  lemma RetrieveStep<S(!new)>(a: Archive<S>, c: Cache<S>, start: nat, len: int)
    requires a.Valid() && c.Valid(a.blockLen)
    ensures len <= 0 ==> Retrieve(a, c, start, len) == (c, [])
    ensures var (c', s) := Region(a, c, start, len);
      Retrieve(a, c, start, len) ==
        if s == [] || len == |s| then (c', s)
        else (Retrieve(a, c', start + |s|, len - |s|).0, s + Retrieve(a, c', start + |s|, len - |s|).1)
  {
    hide DecompressBlock, Started;
  }

  /** Random access is sequential decompression: reading any stretch of the
      content gives that stretch of the concatenated blocks. */
  lemma {:induction false} RetrieveSound<S(!new)>(a: Archive<S>, c: Cache<S>, start: nat, len: nat, m: nat)
    requires a.Valid() && c.Valid(a.blockLen)
    requires Sound(a, c) && Decodable(a, m) && start + len <= m * a.blockLen
    ensures var (c', s) := Retrieve(a, c, start, len);
      Sound(a, c') && s == Whole(a, m)[start..start + len]
    decreases len
  {
    hide Sound, Whole, Region, Decodable, Retrieve;
    RetrieveStep(a, c, start, len);
    if len > 0 {
      RegionSound(a, c, start, len, m);
      var (c', s) := Region(a, c, start, len);
      if len != |s| {
        RetrieveSound(a, c', start + |s|, len - |s|, m);
      }
    }
  }

  // An entry of the directory: where in the content an object lies.
  datatype Unit = Unit(start: nat, length: nat)

  // The length is a signed number.
  datatype Request = Request(ui: Unit, addr: nat, len: int)

  // The length that is left after clipping to the object; the sum is unsigned.
  function Clipped(q: Request): (n: int)
    ensures q.addr + q.len < UINT64_MOD && 0 <= q.len ==> 0 <= n <= q.len
  {
    if q.addr >= q.ui.length then 0
    else if (q.addr + q.len) % UINT64_MOD > q.ui.length then q.ui.length - q.addr
    else q.len
  }

  function RetrieveObject<S(!new)>(a: Archive<S>, c: Cache<S>, q: Request): (r: (Cache<S>, seq<Byte>))
    requires a.Valid() && c.Valid(a.blockLen)
    ensures r.0.Valid(a.blockLen)
  {
    if q.addr >= q.ui.length then (c, []) else Retrieve(a, c, q.ui.start + q.addr, Clipped(q))
  }

  // The object as the archive holds it, and the part of it a request asks for.
  ghost function Object<S(!new)>(a: Archive<S>, ui: Unit, m: nat): (s: seq<Byte>)
    requires a.Valid() && Decodable(a, m) && ui.start + ui.length <= m * a.blockLen
    ensures |s| == ui.length
  {
    Whole(a, m)[ui.start..ui.start + ui.length]
  }

  // A signed length, and an object of less than 2^63 bytes within the content.
  ghost predicate RequestOk(q: Request, size: nat) {
    && q.ui.start + q.ui.length <= size && q.ui.length < INT64_LIM
    && -INT64_LIM <= q.len < INT64_LIM
  }

  // Which bytes a request stands for: up to the end of the object for a length that
  // goes past it, or that is negative and goes back beyond its beginning.
  predicate ToTheEnd(q: Request) {
    q.addr + q.len > q.ui.length || q.addr + q.len < 0
  }

  lemma ClippedIs(q: Request, size: nat)
    requires RequestOk(q, size) && q.addr < q.ui.length
    ensures Clipped(q) == if ToTheEnd(q) then q.ui.length - q.addr else q.len
  {
  }

  /** A negative length is clipped to the whole rest of the object exactly when it
      goes back beyond the beginning; otherwise nothing is read. */
  lemma NegativeLength(q: Request, size: nat)
    requires RequestOk(q, size) && q.len < 0 && q.addr < q.ui.length
    ensures Clipped(q) == if q.addr + q.len < 0 then q.ui.length - q.addr else q.len
  {
  }

  /** From position 3 of an object of 10 bytes, a length of -4 reads all that is left,
      and one of -3 nothing. */
  lemma ReadBackwards(start: nat)
    ensures Clipped(Request(Unit(start, 10), 3, -4)) == 7 && Clipped(Request(Unit(start, 10), 3, -3)) == -3
  {
  }

  ghost function Expected<S(!new)>(a: Archive<S>, q: Request, m: nat): seq<Byte>
    requires a.Valid() && Decodable(a, m) && RequestOk(q, m * a.blockLen)
  {
    var s := Object(a, q.ui, m);
    if q.addr >= |s| then []
    else if ToTheEnd(q) then s[q.addr..]
    else if q.len < 0 then []
    else s[q.addr..q.addr + q.len]
  }

  lemma RetrieveObjectSound<S(!new)>(a: Archive<S>, c: Cache<S>, q: Request, m: nat)
    requires Sound(a, c) && Decodable(a, m) && RequestOk(q, m * a.blockLen)
    ensures var (c', s) := RetrieveObject(a, c, q);
      Sound(a, c') && s == Expected(a, q, m)
  {
    hide SlotOk, StateOk, LastKept, Whole, Retrieve, Clipped, Archive.Valid;
    assert a.Valid() && c.Valid(a.blockLen);
    if q.addr < q.ui.length {
      ClippedIs(q, m * a.blockLen);
      if Clipped(q) < 0 {
        NothingRead(a, c, q.ui.start + q.addr, Clipped(q));
      } else {
        RetrieveSound(a, c, q.ui.start + q.addr, Clipped(q), m);
        SliceOfSlice(Whole(a, m), q.ui.start, q.ui.start + q.ui.length, q.addr, q.addr + Clipped(q));
      }
    }
  }

  lemma NothingRead<S(!new)>(a: Archive<S>, c: Cache<S>, start: nat, len: int)
    requires a.Valid() && c.Valid(a.blockLen) && len <= 0
    ensures Retrieve(a, c, start, len) == (c, [])
  {
  }

  // The answers to a series of requests on one handle.
  function Answers<S(!new)>(a: Archive<S>, c: Cache<S>, qs: seq<Request>): (r: seq<seq<Byte>>)
    requires a.Valid() && c.Valid(a.blockLen)
    ensures |r| == |qs|
    decreases |qs|
  {
    if qs == [] then []
    else
      var (c', s) := RetrieveObject(a, c, qs[0]);
      [s] + Answers(a, c', qs[1..])
  }

  /** Any series of requests, in any order and however overlapping, is answered
      as if every one had been cut out of the fully decompressed content. */
  lemma {:induction false} AnyOrder<S(!new)>(a: Archive<S>, c: Cache<S>, qs: seq<Request>, m: nat)
    requires Sound(a, c) && Decodable(a, m) && forall i :: 0 <= i < |qs| ==> RequestOk(qs[i], m * a.blockLen)
    ensures forall i :: 0 <= i < |qs| ==> Answers(a, c, qs)[i] == Expected(a, qs[i], m)
    decreases |qs|
  {
    hide SlotOk, StateOk, LastKept, Whole, RetrieveObject, Expected;
    if qs != [] {
      RetrieveObjectSound(a, c, qs[0], m);
      var (c', s) := RetrieveObject(a, c, qs[0]);
      AnyOrder(a, c', qs[1..], m);
    }
  }
}
