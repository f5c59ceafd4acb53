/** The circular window of LZXdecompress, and the match copy in it. */
module Window {
  import opened Canonical
  import opened E8
  import opened Lz77

  function Slotted(x: int, size: nat): int {
    if x < 0 then x + size else x
  }

  // Going back from position posn through the window meets the latest bytes of
  // the history, last first.
  ghost predicate Ring(w: seq<Byte>, h: seq<Byte>, posn: nat) {
    && posn <= |w| <= |h|
    && forall k :: 1 <= k <= |w| ==> BackAt(w, h, posn, k)
  }

  ghost predicate BackAt(w: seq<Byte>, h: seq<Byte>, posn: nat, k: nat)
    requires posn <= |w| <= |h| && 1 <= k <= |w|
  {
    w[Slotted(posn - k, |w|)] == h[|h| - k]
  }

  lemma RingPut(w: seq<Byte>, h: seq<Byte>, posn: nat, b: Byte)
    requires Ring(w, h, posn) && posn < |w|
    ensures Ring(w[posn := b], h + [b], posn + 1)
  {
    var w', h', p' := w[posn := b], h + [b], posn + 1;
    forall k | 1 <= k <= |w|
      ensures BackAt(w', h', p', k)
    {
      if k > 1 {
        assert BackAt(w, h, posn, k - 1);
      }
    }
  }

  lemma RingWrap(w: seq<Byte>, h: seq<Byte>)
    requires Ring(w, h, |w|)
    ensures Ring(w, h, 0)
  {
    forall k | 1 <= k <= |w|
      ensures BackAt(w, h, 0, k)
    {
      assert BackAt(w, h, |w|, k);
    }
  }

  // Masking the position with the window size.
  lemma MaskRing(w: seq<Byte>, h: seq<Byte>, posn: nat)
    requires Ring(w, h, posn) && 0 < |w|
    ensures posn % |w| == (if posn == |w| then 0 else posn)
    ensures Ring(w, h, posn % |w|)
  {
    if posn == |w| {
      RingWrap(w, h);
    }
  }

  // Seen from its end, the part of the window before posn is the end of the history.
  lemma RingTail(w: seq<Byte>, h: seq<Byte>, posn: nat, n: nat)
    requires Ring(w, h, posn) && n <= posn
    ensures w[posn - n..posn] == h[|h| - n..]
  {
    var a, b := w[posn - n..posn], h[|h| - n..];
    forall i | 0 <= i < n
      ensures a[i] == b[i]
    {
      assert BackAt(w, h, posn, n - i);
    }
  }

  // At the start of the window the latest bytes stand at its end.
  lemma RingEnd(w: seq<Byte>, h: seq<Byte>, n: nat)
    requires Ring(w, h, 0) && n <= |w|
    ensures n <= |h| && w[|w| - n..|w|] == h[|h| - n..]
  {
    var a, b := w[|w| - n..|w|], h[|h| - n..];
    forall i | 0 <= i < n
      ensures a[i] == b[i]
    {
      assert BackAt(w, h, 0, n - i);
    }
  }

  // A window taken as its own history.
  lemma RingSelf(w: seq<Byte>)
    ensures Ring(w, w, 0)
  {
    forall k | 1 <= k <= |w|
      ensures BackAt(w, w, 0, k)
    {
    }
  }

  // One byte of a match.
  method CopyByte(window: array<Byte>, dest: nat, src: int, ghost h: seq<Byte>, ghost dist: nat)
    requires Ring(window[..], h, dest) && dest < window.Length && 1 <= dist <= window.Length
    requires src == Slotted(dest - dist, window.Length)
    modifies window
    ensures window.Length <= |h|
    ensures Ring(window[..], h + [h[|h| - dist]], dest + 1)
  {
    hide Ring;
    RingSize(window[..], h, dest);
    SourceByte(window[..], h, dest, dist);
    RingPut(window[..], h, dest, window[src]);
    window[dest] := window[src];
  }

  lemma ExtendStep(h: seq<Byte>, dist: nat, j: nat)
    requires 1 <= dist <= |h|
    ensures var g := Extend(h, dist, j); Extend(h, dist, j + 1) == g + [g[|g| - dist]]
  {
  }

  /** The match copy: first the source bytes wrapped around the window's end,
      then the rest, either part possibly overlapping what is being written.  An
      offset beyond the window wraps too, as far as the position in it allows. */
  method CopyMatch(window: array<Byte>, posn: nat, offset: nat, length: nat, ghost h: seq<Byte>)
    requires 0 < window.Length && Ring(window[..], h, posn)
    requires offset <= window.Length + posn && posn + length <= window.Length
    modifies window
    ensures window.Length <= |h|
    ensures Ring(window[..], Extend(h, Distance(offset, window.Length), length), posn + length)
  {
    hide Ring, Extend;
    ghost var dist := Distance(offset, window.Length);
    RingSize(window[..], h, posn);
    var rundest := posn;
    var runsrc := posn - offset;
    var left: nat := length;
    assert Extend(h, dist, 0) == h;
    while runsrc < 0 && left > 0
      invariant left <= length && rundest == posn + (length - left) && runsrc == rundest - offset
      invariant Ring(window[..], Extend(h, dist, length - left), rundest)
    {
      ExtendStep(h, dist, length - left);
      CopyByte(window, rundest, runsrc + window.Length, Extend(h, dist, length - left), dist);
      rundest, runsrc, left := rundest + 1, runsrc + 1, left - 1;
    }
    while left > 0
      invariant left <= length && rundest == posn + (length - left) && runsrc == rundest - offset
      invariant left > 0 ==> 0 <= runsrc
      invariant Ring(window[..], Extend(h, dist, length - left), rundest)
    {
      ExtendStep(h, dist, length - left);
      CopyByte(window, rundest, runsrc, Extend(h, dist, length - left), dist);
      rundest, runsrc, left := rundest + 1, runsrc + 1, left - 1;
    }
  }

  lemma RingSize(w: seq<Byte>, h: seq<Byte>, posn: nat)
    requires Ring(w, h, posn)
    ensures posn <= |w| <= |h|
  {
  }

  lemma SourceByte(w: seq<Byte>, h: seq<Byte>, dest: nat, dist: nat)
    requires Ring(w, h, dest) && dest < |w| && 1 <= dist <= |w|
    ensures |w| <= |h| && -|w| <= dest - dist < |w|
    ensures w[Slotted(dest - dist, |w|)] == h[|h| - dist]
  {
    assert BackAt(w, h, dest, dist);
  }

  // Whether the k-th byte of a copy comes from the window.
  predicate FromInside(posn: nat, offset: nat, k: nat, size: nat) {
    0 <= Slotted(posn + k - offset, size) < size
  }

  /** A copy of at least one byte that ends within the window takes all its bytes from
      within it exactly when it reaches back no further than a window in front of the
      window's start. */
  lemma CopyInside(posn: nat, offset: nat, n: nat, size: nat)
    requires 0 < n && posn + n <= size
    ensures (forall k :: 0 <= k < n ==> FromInside(posn, offset, k, size)) <==> offset <= size + posn
  {
    if offset > size + posn {
      assert !FromInside(posn, offset, 0, size);
    }
  }

  // The E8 pass is run on the first 32768 blocks of more than 6 bytes, once the
  // stream has begun to hold code, unless the header says there is none.
  function Translated(raw: seq<Byte>, frames: nat, filesize: int, started: bool, pos: int): seq<Byte> {
    if frames < 32768 && filesize != 0 && |raw| > 6 && started then Pass(Decode, raw, pos, filesize) else raw
  }
}
