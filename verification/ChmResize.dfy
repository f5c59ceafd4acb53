/** chm_set_param: changing the number of cached blocks, and what becomes of the
    promise of retrieval when it is called between reads. */
module ChmResize {
  import opened Wrappers
  import opened Arith
  import opened Canonical
  import opened ChmCache

  // The new slots after the first i old ones have been visited.
  function Rehash<S(!new)>(c: Cache<S>, n: nat, i: nat): (r: (seq<Option<seq<Byte>>>, seq<nat>))
    requires 0 < n && i <= |c.blocks| == |c.indices|
    ensures |r.0| == |r.1| == n
  {
    if i == 0 then (seq(n, _ => None), seq(n, _ => 0))
    else
      var (blocks, indices) := Rehash(c, n, i - 1);
      var slot := c.indices[i - 1] % n;
      if c.blocks[i - 1].None? || blocks[slot].Some? then (blocks, indices)
      else (blocks[slot := c.blocks[i - 1]], indices[slot := c.indices[i - 1]])
  }

  function SetMaxBlocks<S(!new)>(c: Cache<S>, n: nat): (r: Cache<S>)
    requires 0 < n && |c.blocks| == |c.indices|
  {
    if n == |c.blocks| then c
    else
      var (blocks, indices) := Rehash(c, n, |c.blocks|);
      c.(blocks := blocks, indices := indices)
  }

  // Old slot j is the first of those visited whose block goes to slot s.
  ghost predicate Takes<S(!new)>(c: Cache<S>, n: nat, j: nat, s: nat)
    requires 0 < n && j < |c.blocks| == |c.indices|
  {
    && c.blocks[j].Some? && c.indices[j] % n == s
    && forall k :: 0 <= k < j ==> !(c.blocks[k].Some? && c.indices[k] % n == s)
  }

  /** A slot of the new cache holds what the first old slot with a block for it
      held, and is empty when there is none: a block is lost only to one that
      was visited before it. */
  lemma {:induction false} RehashTakes<S(!new)>(c: Cache<S>, n: nat, i: nat, s: nat)
    requires 0 < n && i <= |c.blocks| == |c.indices| && s < n
    ensures var (blocks, indices) := Rehash(c, n, i);
      && (forall j :: 0 <= j < i && Takes(c, n, j, s) ==> blocks[s] == c.blocks[j] && indices[s] == c.indices[j])
      && (blocks[s].None? ==> forall j :: 0 <= j < i && c.blocks[j].Some? ==> c.indices[j] % n != s)
      && (blocks[s].Some? ==> exists j :: 0 <= j < i && Takes(c, n, j, s))
  {
    if i > 0 {
      RehashTakes(c, n, i - 1, s);
      var (blocks, indices) := Rehash(c, n, i - 1);
      if c.blocks[i - 1].Some? && c.indices[i - 1] % n == s {
        if blocks[s].None? {
          assert Takes(c, n, i - 1, s);
        }
      }
    }
  }

  lemma ResizeCacheOk<S(!new)>(a: Archive<S>, c: Cache<S>, n: nat)
    requires CacheOk(a, c) && 0 < n
    ensures CacheOk(a, SetMaxBlocks(c, n))
  {
    var c' := SetMaxBlocks(c, n);
    if n != |c.blocks| {
      forall s | 0 <= s < n
        ensures SlotOk(a, c', s) && (c'.blocks[s].Some? ==> |c'.blocks[s].value| == a.blockLen)
      {
        RehashTakes(c, n, |c.blocks|, s);
        if c'.blocks[s].Some? {
          var j :| 0 <= j < |c.blocks| && Takes(c, n, j, s);
          assert SlotOk(a, c, j);
        }
      }
    }
  }

  /** No block is cached twice. */
  lemma NoBlockTwice<S(!new)>(a: Archive<S>, c: Cache<S>, i: nat, j: nat)
    requires CacheOk(a, c) && i < |c.blocks| && j < |c.blocks|
    requires c.blocks[i].Some? && c.blocks[j].Some? && c.indices[i] == c.indices[j]
    ensures i == j
  {
    assert SlotOk(a, c, i) && SlotOk(a, c, j);
  }

  // The slot of the block decoded last is visited before any that collides with it.
  ghost predicate LastFirst<S(!new)>(c: Cache<S>, n: nat)
    requires 0 < n && 0 < |c.blocks| == |c.indices| && 0 <= c.last
  {
    n == |c.blocks|
    || forall k :: 0 <= k < c.last % |c.blocks| && c.blocks[k].Some? ==> c.indices[k] % n != c.last % n
  }

  /** Resizing keeps the invariant of retrieval exactly when the block decoded
      last is a reset point or keeps its place in the cache. */
  lemma ResizeSoundIff<S(!new)>(a: Archive<S>, c: Cache<S>, n: nat)
    requires Sound(a, c) && 0 < n
    ensures Sound(a, SetMaxBlocks(c, n)) <==>
      (c.last < 0 || c.last % a.resetBlkcount == 0 || LastFirst(c, n))
  {
    var c' := SetMaxBlocks(c, n);
    ResizeCacheOk(a, c, n);
    if c.last >= 0 && c.last % a.resetBlkcount != 0 && n != |c.blocks| {
      var j, s := c.last % |c.blocks|, c.last % n;
      RehashTakes(c, n, |c.blocks|, s);
      assert c.Has(c.last);
      if LastFirst(c, n) {
        assert Takes(c, n, j, s);
      } else {
        FirstTaker(c, n, j, s);
        var k :| 0 <= k < j && Takes(c, n, k, s);
        assert c'.indices[s] == c.indices[k];
        if c.indices[k] == c.last {
          NoBlockTwice(a, c, k, j);
        }
      }
    }
  }

  lemma {:induction false} FirstTaker<S(!new)>(c: Cache<S>, n: nat, j: nat, s: nat)
    requires 0 < n && j <= |c.blocks| == |c.indices|
    requires exists k :: 0 <= k < j && c.blocks[k].Some? && c.indices[k] % n == s
    ensures exists k :: 0 <= k < j && Takes(c, n, k, s)
  {
    var k :| 0 <= k < j && c.blocks[k].Some? && c.indices[k] % n == s;
    if !Takes(c, n, k, s) {
      FirstTaker(c, n, k, s);
    }
  }

  /** When the last block was dropped, reading it again decodes its data from the
      state behind it, not from the one in front of it. */
  lemma DroppedBlock<S(!new)>(a: Archive<S>, c: Cache<S>)
    requires CacheOk(a, c) && StateOk(a, c) && 0 <= c.last && !LastKept(a, c)
    ensures a.cblock(c.last).Some?
    ensures var r := a.step(Sequential(a, c.last).value.0, a.cblock(c.last).value);
      Region(a, c, c.last * a.blockLen, a.blockLen).1 == if r.out.Some? then r.out.value else []
  {
    DivUnique(c.last * a.blockLen, c.last, 0, a.blockLen);
    var (c', ok) := DecompressBlock(a, c, c.last);
    assert Behind(c.last, c.last, a.resetBlkcount) == 0;
    assert (c', ok) == Fill(a, c, c.last, false);
  }

  // A decompressor that counts its blocks, with a reset every second block.
  function Counter(): (a: Archive<int>)
    ensures a.Valid()
  {
    Archive(_ => Some([]), (s: int, _) => Step(s + 1, Some([s % 256])), 0, 1, 2, [0])
  }

  function EmptyCache(n: nat): (c: Cache<int>)
    requires 0 < n
    ensures c.Valid(1) && |c.blocks| == n
  {
    Cache(seq(n, _ => None), seq(n, _ => 0), None, -1)
  }

  /** A run in which this happens: the second block reads as 1 before the cache
      is shrunk to one block and as 2 afterwards. */
  lemma ResizeRun()
    ensures var a := Counter();
      var r := Retrieve(a, EmptyCache(5), 0, 2);
      var c := SetMaxBlocks(r.0, 1);
      r.1 == [0, 1] && c.Valid(1) && Retrieve(a, c, 1, 1).1 == [2]
  {
    var a := Counter();
    var c0 := EmptyCache(5);
    var c1: Cache<int> := Cache([Some([0]), None, None, None, None], [0, 0, 0, 0, 0], Some(1), 0);
    var c2: Cache<int> := Cache([Some([0]), Some([1]), None, None, None], [0, 1, 0, 0, 0], Some(2), 1);
    assert c0.blocks == [None, None, None, None, None] && c0.indices == [0, 0, 0, 0, 0];
    FirstRead(c0, c1);
    SecondRead(c1, c2);
    hide Region;
    assert Retrieve(a, c1, 1, 1) == (c2, [1]);
    assert Retrieve(a, c0, 0, 2) == (c2, [0] + [1]);
    Shrunk(c2);
    ThirdRead(SetMaxBlocks(c2, 1));
  }

  lemma FirstRead(c: Cache<int>, c': Cache<int>)
    requires c == Cache([None, None, None, None, None], [0, 0, 0, 0, 0], None, -1)
    requires c' == Cache([Some([0]), None, None, None, None], [0, 0, 0, 0, 0], Some(1), 0)
    ensures c.Valid(1) && Region(Counter(), c, 0, 2) == (c', [0])
  {
    var r := Fill(Counter(), Started(Counter(), c), 0, true);
    assert r.0.blocks == c'.blocks && r.0.indices == c'.indices;
    assert DecompressBlock(Counter(), Started(Counter(), c), 0) == r == (c', true);
    assert [0][0..1] == [0];
  }

  lemma SecondRead(c: Cache<int>, c': Cache<int>)
    requires c == Cache([Some([0]), None, None, None, None], [0, 0, 0, 0, 0], Some(1), 0)
    requires c' == Cache([Some([0]), Some([1]), None, None, None], [0, 1, 0, 0, 0], Some(2), 1)
    ensures c.Valid(1) && Region(Counter(), c, 1, 1) == (c', [1])
  {
    assert Behind(1, 0, 2) == 1;
    assert Previous(Counter(), c, 1, 1) == (c, true);
    var r := Fill(Counter(), c, 1, false);
    assert r.0.blocks == c'.blocks && r.0.indices == c'.indices;
    assert DecompressBlock(Counter(), c, 1) == r == (c', true);
    assert !c.Has(1) && [1][0..1] == [1];
  }

  lemma ThirdRead(c: Cache<int>)
    requires c == Cache([Some([0])], [0], Some(2), 1)
    ensures c.Valid(1) && Retrieve(Counter(), c, 1, 1).1 == [2]
  {
    assert Behind(1, 1, 2) == 0;
  }

  lemma Shrunk(c: Cache<int>)
    requires c == Cache([Some([0]), Some([1]), None, None, None], [0, 1, 0, 0, 0], Some(2), 1)
    ensures SetMaxBlocks(c, 1) == Cache([Some([0])], [0], Some(2), 1)
  {
    var r := Rehash(c, 1, 0);
    assert r.0 == [None] && r.1 == [0];
    assert r.0[0 := Some([0])] == [Some([0])] && r.1[0 := 0] == [0];
    assert Rehash(c, 1, 1) == ([Some([0])], [0]);
    assert Rehash(c, 1, 2) == ([Some([0])], [0]);
    assert Rehash(c, 1, 3) == ([Some([0])], [0]);
    assert Rehash(c, 1, 4) == ([Some([0])], [0]);
    assert Rehash(c, 1, 5) == ([Some([0])], [0]);
  }

  // The block at which decoding stops, with the cache as it was before that.
  function StoppedAt<S(!new)>(a: Archive<S>, c: Cache<S>, block: nat, i: nat): (r: (Cache<S>, nat))
    requires a.Valid() && c.Valid(a.blockLen) && c.lzx.Some? && i <= block
    ensures r.0.Valid(a.blockLen) && r.0.lzx.Some? && |r.0.blocks| == |c.blocks| && r.1 <= block
    decreases i
  {
    if i == 0 then (c, block)
    else if c.last == block - i then StoppedAt(a, c, block, i - 1)
    else
      var (c', ok) := Fill(a, c, block - i, (block - i) % a.resetBlkcount == 0);
      if ok then StoppedAt(a, c', block, i - 1) else (c, block - i)
  }

  // What a slot serves when it is labelled, but not filled.
  function Held<S(!new)>(a: Archive<S>, c: Cache<S>, b: nat): seq<Byte>
    requires c.Valid(a.blockLen)
  {
    var slot := b % |c.blocks|;
    if c.blocks[slot].Some? then c.blocks[slot].value else a.blank
  }

  lemma {:induction false} PreviousStops<S(!new)>(a: Archive<S>, c: Cache<S>, block: nat, i: nat)
    requires a.Valid() && c.Valid(a.blockLen) && c.lzx.Some? && i <= block
    ensures var (c', ok) := Previous(a, c, block, i);
      var (c0, b) := StoppedAt(a, c, block, i);
      && c'.Valid(a.blockLen) && |c'.blocks| == |c0.blocks|
      && (ok ==> (c0, b) == (c', block))
      && (!ok ==> c'.Has(b) && c'.blocks[b % |c'.blocks|] == Some(Held(a, c0, b)))
    decreases i
  {
    if i > 0 {
      if c.last == block - i {
        PreviousStops(a, c, block, i - 1);
      } else {
        var (c', ok) := Fill(a, c, block - i, (block - i) % a.resetBlkcount == 0);
        if ok {
          PreviousStops(a, c', block, i - 1);
        }
      }
    }
  }

  lemma WholeRegion<S(!new)>(a: Archive<S>, c: Cache<S>, b: nat)
    requires a.Valid() && c.Valid(a.blockLen) && c.Has(b)
    ensures Region(a, c, b * a.blockLen, a.blockLen) == (c, c.blocks[b % |c.blocks|].value)
  {
    DivUnique(b * a.blockLen, b, 0, a.blockLen);
    var s := c.blocks[b % |c.blocks|].value;
    assert s[0..a.blockLen] == s;
  }

  /** A failed read yields nothing, but the slot of the block that cannot be decoded,
      the one asked for or an earlier one, is labelled before it is decoded: from then
      on that block is served, with whatever bytes its slot held before. */
  lemma FailedBlockServed<S(!new)>(a: Archive<S>, c: Cache<S>, block: nat)
    requires a.Valid() && c.Valid(a.blockLen) && c.lzx.Some? && !c.Has(block)
    requires !DecompressBlock(a, c, block).1
    ensures var (c0, b) := StoppedAt(a, c, block, Behind(block, c.last, a.resetBlkcount));
      var (c', s) := Region(a, c, block * a.blockLen, a.blockLen);
      s == [] && Region(a, c', b * a.blockLen, a.blockLen).1 == Held(a, c0, b)
  {
    hide Previous, StoppedAt, Behind;
    DivUnique(block * a.blockLen, block, 0, a.blockLen);
    var n := Behind(block, c.last, a.resetBlkcount);
    PreviousStops(a, c, block, n);
    NoneBefore(a, c, block);
    var (c', s) := Region(a, c, block * a.blockLen, a.blockLen);
    assert Started(a, c) == c;
    var (c0, b) := StoppedAt(a, c, block, n);
    assert c'.Has(b) && c'.blocks[b % |c'.blocks|] == Some(Held(a, c0, b));
    WholeRegion(a, c', b);
  }

  lemma NoneBefore<S(!new)>(a: Archive<S>, c: Cache<S>, block: nat)
    requires a.Valid() && c.Valid(a.blockLen) && c.lzx.Some?
    ensures StoppedAt(a, c, block, 0) == (c, block) && Previous(a, c, block, 0) == (c, true)
  {
  }

  // A block that cannot be decoded leaves its slot labelled with bytes that are not
  // its own.
  lemma FillFails<S(!new)>(a: Archive<S>, c: Cache<S>, b: nat, reset: bool)
    requires a.Valid() && c.Valid(a.blockLen) && c.lzx.Some? && Sequential(a, b).None?
    requires reset <==> b % a.resetBlkcount == 0
    requires !reset ==> b > 0 && Sequential(a, b - 1).Some? && c.lzx.value == Sequential(a, b - 1).value.0
    ensures !Fill(a, c, b, reset).1 && !CacheOk(a, Fill(a, c, b, reset).0)
  {
    var (c', ok) := Fill(a, c, b, reset);
    assert !SlotOk(a, c', b % |c.blocks|);
  }

  lemma CacheIs<S(!new)>(a: Archive<S>, c: Cache<S>)
    requires CacheOk(a, c)
    ensures a.Valid() && c.Valid(a.blockLen)
  {
  }

  lemma {:induction false} PreviousFails<S(!new)>(a: Archive<S>, c: Cache<S>, block: nat, i: nat)
    requires CacheOk(a, c) && StateOk(a, c) && c.lzx.Some?
    requires 0 < i <= block % a.resetBlkcount && i <= block
    requires Sequential(a, block - 1).None?
    requires (block - i) % a.resetBlkcount == 0 || c.last == block - i || c.last == block - i - 1
    ensures !Previous(a, c, block, i).1 && !CacheOk(a, Previous(a, c, block, i).0)
    decreases i
  {
    hide Sequential, Fill, SlotOk, CacheOk, Previous;
    CacheIs(a, c);
    var cur := block - i;
    ModSub(block, i, a.resetBlkcount);
    PreviousIs(a, c, block, i);
    if c.last == cur {
      PreviousFails(a, c, block, i - 1);
    } else {
      FillEither(a, c, cur);
      var (c', ok) := Fill(a, c, cur, cur % a.resetBlkcount == 0);
      if ok {
        CacheIs(a, c');
        PreviousFails(a, c', block, i - 1);
      }
    }
  }

  lemma PreviousIs<S(!new)>(a: Archive<S>, c: Cache<S>, block: nat, i: nat)
    requires a.Valid() && c.Valid(a.blockLen) && c.lzx.Some? && 0 < i <= block
    ensures var (c', ok) := Fill(a, c, block - i, (block - i) % a.resetBlkcount == 0);
      && 0 < |c'.blocks| == |c'.indices| && c'.lzx.Some?
      && Previous(a, c, block, i) ==
        if c.last == block - i then Previous(a, c, block, i - 1)
        else if ok then Previous(a, c', block, i - 1) else (c', false)
  {
  }

  // One block, when the one before it is where the decompressor stands.
  lemma FillEither<S(!new)>(a: Archive<S>, c: Cache<S>, b: nat)
    requires CacheOk(a, c) && StateOk(a, c) && c.lzx.Some?
    requires b % a.resetBlkcount == 0 || c.last == b - 1
    ensures var (c', ok) := Fill(a, c, b, b % a.resetBlkcount == 0);
      && (ok <==> Sequential(a, b).Some?)
      && if ok then CacheOk(a, c') && StateOk(a, c') && c'.lzx.Some? && c'.last == b else !CacheOk(a, c')
  {
    hide Sequential, Fill, SlotOk;
    if Sequential(a, b).Some? {
      if b % a.resetBlkcount != 0 {
        SequentialStep(a, b);
      }
      FillSound(a, c, b, b % a.resetBlkcount == 0);
    } else {
      FillFails(a, c, b, b % a.resetBlkcount == 0);
    }
  }

  /** Decoding a block, and those before it that this takes, succeeds and keeps every
      cached block right exactly when the block can be decoded from its reset point;
      otherwise some slot is left with bytes that are not those of its block. */
  lemma DecodeKeepsIff<S(!new)>(a: Archive<S>, c: Cache<S>, block: nat)
    requires Sound(a, c) && c.lzx.Some? && !c.Has(block)
    ensures CacheOk(a, DecompressBlock(a, c, block).0) <==> Sequential(a, block).Some?
    ensures DecompressBlock(a, c, block).1 <==> Sequential(a, block).Some?
  {
    hide Fill, Previous, Sequential, SlotOk;
    if Sequential(a, block).Some? {
      DecompressBlockSound(a, c, block);
    } else {
      var n := Behind(block, c.last, a.resetBlkcount);
      if n == 0 {
        FillFails(a, c, block, true);
      } else {
        assert n <= block % a.resetBlkcount;
        ModSub(block, block % a.resetBlkcount, a.resetBlkcount);
        if Sequential(a, block - 1).Some? {
          PreviousSound(a, c, block, n);
          FillFails(a, Previous(a, c, block, n).0, block, false);
        } else {
          PreviousFails(a, c, block, n);
        }
      }
    }
  }

  // An archive whose second block is missing.
  function Broken(): (a: Archive<int>)
    ensures a.Valid()
  {
    Archive(b => if b == 1 then None else Some([]), (s: int, _) => Step(s + 1, Some([s % 256])), 0, 1, 2, [7])
  }

  /** A run in which this happens: the second block cannot be read the first time,
      and reads as what its memory held the second time. */
  lemma FailedRun()
    ensures var a := Broken();
      var r := Retrieve(a, EmptyCache(2), 1, 1);
      Sequential(a, 1).None? && r.1 == [] && Retrieve(a, r.0, 1, 1).1 == [7]
  {
    var a := Broken();
    var c0 := EmptyCache(2);
    var s: Cache<int> := Cache([None, None], [0, 0], Some(0), -1);
    var c1: Cache<int> := Cache([Some([0]), None], [0, 0], Some(1), 0);
    var c2: Cache<int> := Cache([Some([0]), Some([7])], [0, 1], Some(1), 0);
    assert c0.blocks == [None, None] && c0.indices == [0, 0];
    assert Started(a, c0) == s;
    assert Fill(a, s, 0, true) == (c1, true) by {
      assert Fill(a, s, 0, true).0.blocks == c1.blocks && Fill(a, s, 0, true).0.indices == c1.indices;
    }
    assert Behind(1, -1, 2) == 1;
    assert Previous(a, s, 1, 1) == (c1, true);
    assert Fill(a, c1, 1, false) == (c2, false) by {
      assert Fill(a, c1, 1, false).0.blocks == c2.blocks && Fill(a, c1, 1, false).0.indices == c2.indices;
    }
    assert DecompressBlock(a, s, 1) == (c2, false);
    assert Region(a, c0, 1, 1) == (c2, []);
    assert c2.Has(1) && [7][0..1] == [7];
    assert Region(a, c2, 1, 1) == (c2, [7]);
  }
}
