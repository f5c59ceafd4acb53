/** The file handle: cache arrays, decompressor state, and the methods that
    update them, each tied to the functions of ChmCache and ChmResize. */
module ChmFile {
  import opened Wrappers
  import opened Arith
  import opened Canonical
  import opened ChmCache
  import opened ChmResize

  class ChmHandle<S(!new)> {
    const a: Archive<S>
    var cacheBlocks: array<Option<seq<Byte>>>
    var cacheBlockIndices: array<nat>
    var lzxState: Option<S>
    var lzxLastBlock: int

    ghost function View(): Cache<S>
      reads this, cacheBlocks, cacheBlockIndices
    {
      Cache(cacheBlocks[..], cacheBlockIndices[..], lzxState, lzxLastBlock)
    }

    ghost predicate Valid()
      reads this, cacheBlocks, cacheBlockIndices
    {
      a.Valid() && View().Valid(a.blockLen)
    }

    constructor (a: Archive<S>, cacheSize: nat)
      requires a.Valid() && 0 < cacheSize
      ensures Valid() && this.a == a && fresh(cacheBlocks) && fresh(cacheBlockIndices)
      ensures Sound(a, View()) && View().last == -1 && |View().blocks| == cacheSize
    {
      this.a := a;
      cacheBlocks := new Option<seq<Byte>>[cacheSize](_ => None);
      cacheBlockIndices := new nat[cacheSize](_ => 0);
      lzxState, lzxLastBlock := None, -1;
    }

    // The part of the two decoding sites that they share: slot, allocation,
    // fetching and decompression.
    method FillSlot(block: nat, reset: bool) returns (ok: bool)
      requires Valid() && lzxState.Some?
      modifies this`lzxState, this`lzxLastBlock, cacheBlocks, cacheBlockIndices
      ensures Valid() && lzxState.Some?
      ensures (View(), ok) == Fill(a, old(View()), block, reset)
    {
      ghost var c := View();
      if reset {
        lzxState := Some(a.reset);
      }
      var slot := block % cacheBlocks.Length;
      if cacheBlocks[slot].None? {
        cacheBlocks[slot] := Some(a.blank);
      }
      cacheBlockIndices[slot] := block;
      var data := a.cblock(block);
      if data.None? {
        ok := false;
      } else {
        var r := a.step(lzxState.value, data.value);
        lzxState := Some(r.state);
        if r.out.None? {
          ok := false;
        } else {
          cacheBlocks[slot] := r.out;
          lzxLastBlock := block;
          ok := true;
        }
      }
      assert View().blocks == Fill(a, c, block, reset).0.blocks;
      assert View().indices == Fill(a, c, block, reset).0.indices;
    }

    method Decompress(block: nat) returns (ok: bool)
      requires Valid() && lzxState.Some?
      modifies this`lzxState, this`lzxLastBlock, cacheBlocks, cacheBlockIndices
      ensures Valid() && lzxState.Some?
      ensures (View(), ok) == DecompressBlock(a, old(View()), block)
    {
      hide Fill;
      ghost var c := View();
      var blockAlign := block % a.resetBlkcount;
      if block - blockAlign <= lzxLastBlock && block >= lzxLastBlock {
        blockAlign := block - lzxLastBlock;
      }
      assert blockAlign == Behind(block, c.last, a.resetBlkcount);
      if blockAlign != 0 {
        var i := blockAlign;
        while i > 0
          invariant Valid() && lzxState.Some? && 0 <= i <= blockAlign
          invariant Previous(a, View(), block, i) == Previous(a, c, block, blockAlign)
        {
          var cur := block - i;
          if lzxLastBlock != cur {
            ok := FillSlot(cur, cur % a.resetBlkcount == 0);
            if !ok {
              return;
            }
          }
          i := i - 1;
        }
        ok := FillSlot(block, false);
      } else {
        ok := FillSlot(block, block % a.resetBlkcount == 0);
      }
    }

    // The decompressor is started when it is first needed.
    method DecompressMiss(block: nat) returns (ok: bool)
      requires Valid()
      modifies this`lzxState, this`lzxLastBlock, cacheBlocks, cacheBlockIndices
      ensures Valid() && (ok ==> cacheBlocks[block % cacheBlocks.Length].Some?)
      ensures (View(), ok) == DecompressBlock(a, Started(a, old(View())), block)
    {
      hide DecompressBlock;
      KeepsValid(a, Started(a, View()), block);
      if lzxState.None? {
        lzxLastBlock := -1;
        lzxState := Some(a.reset);
      }
      ok := Decompress(block);
    }

    /** Part of one block, from the cache or freshly decompressed, into buf. */
    method DecompressRegion(buf: array<Byte>, at: nat, start: nat, len: int) returns (got: nat)
      requires Valid() && (len > 0 ==> at + len <= buf.Length)
      modifies this`lzxState, this`lzxLastBlock, cacheBlocks, cacheBlockIndices, buf
      ensures Valid()
      ensures View() == Region(a, old(View()), start, len).0
      ensures got == |Region(a, old(View()), start, len).1| && (got > 0 ==> at + got <= buf.Length)
      ensures got > 0 ==> buf[at..at + got] == Region(a, old(View()), start, len).1
      ensures forall i :: 0 <= i < buf.Length && !(at <= i < at + got) ==> buf[i] == old(buf[i])
    {
      hide DecompressBlock, Started, Fill, Previous, Region;
      ghost var c := View();
      if len <= 0 {
        NoRegion(a, c, start, len);
        return 0;
      }
      var block, off := start / a.blockLen, start % a.blockLen;
      var n := len;
      if n > a.blockLen - off {
        n := a.blockLen - off;
      }
      RegionIs(a, c, start, len, block, off, n);
      var slot := block % cacheBlocks.Length;
      if !(cacheBlockIndices[slot] == block && cacheBlocks[slot].Some?) {
        var ok := DecompressMiss(block);
        if !ok {
          return 0;
        }
      }
      CopyBytes(buf, at, cacheBlocks[slot].value[off..off + n]);
      got := n;
    }

    /** chm_retrieve_object for a compressed object: the number of bytes put at
        the front of buf, and the bytes. */
    method RetrieveObject(ui: Unit, buf: array<Byte>, addr: nat, len: int) returns (total: nat)
      requires Valid() && Clipped(Request(ui, addr, len)) <= buf.Length
      modifies this`lzxState, this`lzxLastBlock, cacheBlocks, cacheBlockIndices, buf
      ensures Valid()
      ensures View() == ChmCache.RetrieveObject(a, old(View()), Request(ui, addr, len)).0
      ensures total <= buf.Length
      ensures buf[..total] == ChmCache.RetrieveObject(a, old(View()), Request(ui, addr, len)).1
      ensures forall i :: total <= i < buf.Length ==> buf[i] == old(buf[i])
    {
      hide Retrieve, Region, DecompressBlock, Fill, Previous, Started;
      total := 0;
      if addr >= ui.length {
        return;
      }
      var left: int := len;
      if (addr + len) % UINT64_MOD > ui.length {
        left := ui.length - addr;
      }
      total := ReadOn(buf, ui.start + addr, left);
    }

    // Region after region, until everything is read or one yields nothing.
    method ReadOn(buf: array<Byte>, start: nat, len: int) returns (total: nat)
      requires Valid() && len <= buf.Length
      modifies this`lzxState, this`lzxLastBlock, cacheBlocks, cacheBlockIndices, buf
      ensures Valid() && View() == Retrieve(a, old(View()), start, len).0
      ensures total <= buf.Length && buf[..total] == Retrieve(a, old(View()), start, len).1
      ensures forall i :: total <= i < buf.Length ==> buf[i] == old(buf[i])
    {
      hide Region, Retrieve;
      total := 0;
      var left: int := len;
      ghost var r := Retrieve(a, View(), start, len);
      while true
        invariant Valid() && total + left == len && total <= buf.Length
        invariant var q := Retrieve(a, View(), start + total, left); r.0 == q.0 && r.1 == buf[..total] + q.1
        invariant forall i :: total <= i < buf.Length ==> buf[i] == old(buf[i])
        decreases if left < 0 then 0 else left
      {
        ghost var before, v := buf[..total], View();
        var swath := DecompressRegion(buf, total, start + total, left);
        RetrieveStep(a, v, start + total, left);
        assert buf[..total] == before;
        if swath == 0 {
          return;
        }
        assert buf[..total + swath] == before + buf[total..total + swath];
        total, left := total + swath, left - swath;
        if left == 0 {
          break;
        }
      }
    }

    /** chm_set_param for the number of cached blocks. */
    method SetMaxBlocksCached(n: nat)
      requires Valid() && 0 < n
      modifies this
      ensures Valid() && View() == SetMaxBlocks(old(View()), n)
      ensures n != old(cacheBlocks.Length) ==> fresh(cacheBlocks) && fresh(cacheBlockIndices)
    {
      ghost var c := View();
      if n != cacheBlocks.Length {
        var newBlocks := new Option<seq<Byte>>[n](_ => None);
        var newIndices := new nat[n](_ => 0);
        assert newBlocks[..] == Rehash(c, n, 0).0 && newIndices[..] == Rehash(c, n, 0).1;
        for i := 0 to cacheBlocks.Length
          invariant (newBlocks[..], newIndices[..]) == Rehash(c, n, i)
          invariant View() == c && Valid()
          invariant forall k :: 0 <= k < n ==> newBlocks[k].Some? ==> |newBlocks[k].value| == a.blockLen
        {
          var slot := cacheBlockIndices[i] % n;
          if cacheBlocks[i].Some? && newBlocks[slot].None? {
            newBlocks[slot] := cacheBlocks[i];
            newIndices[slot] := cacheBlockIndices[i];
          }
        }
        cacheBlocks, cacheBlockIndices := newBlocks, newIndices;
      }
    }
  }

  method CopyBytes(buf: array<Byte>, at: nat, s: seq<Byte>)
    requires at + |s| <= buf.Length
    modifies buf
    ensures buf[at..at + |s|] == s
    ensures forall i :: 0 <= i < buf.Length && !(at <= i < at + |s|) ==> buf[i] == old(buf[i])
  {
    for i := 0 to |s|
      invariant forall k :: 0 <= k < i ==> buf[at + k] == s[k]
      invariant forall k :: 0 <= k < buf.Length && !(at <= k < at + i) ==> buf[k] == old(buf[k])
    {
      buf[at + i] := s[i];
    }
  }

  lemma NoRegion<S(!new)>(a: Archive<S>, c: Cache<S>, start: nat, len: int)
    requires a.Valid() && c.Valid(a.blockLen) && len <= 0
    ensures Region(a, c, start, len) == (c, [])
  {
  }

  // A region by its block, the offset in it and the bytes taken from it.
  lemma RegionIs<S(!new)>(a: Archive<S>, c: Cache<S>, start: nat, len: int, block: nat, off: nat, n: int)
    requires a.Valid() && c.Valid(a.blockLen) && len > 0
    requires block == start / a.blockLen && off == start % a.blockLen
    requires n == if len > a.blockLen - off then a.blockLen - off else len
    ensures 0 < n <= len && off + n <= a.blockLen
    ensures c.Has(block) ==> Region(a, c, start, len) == (c, c.blocks[block % |c.blocks|].value[off..off + n])
    ensures !c.Has(block) ==>
      DecompressBlock.requires(a, Started(a, c), block)
      && var (c', ok) := DecompressBlock(a, Started(a, c), block);
      (ok ==> c'.Valid(a.blockLen) && c'.blocks[block % |c.blocks|].Some?)
      && Region(a, c, start, len) == if ok then (c', c'.blocks[block % |c.blocks|].value[off..off + n]) else (c', [])
  {
    hide DecompressBlock;
    if !c.Has(block) {
      KeepsValid(a, Started(a, c), block);
    }
  }
}
