/** Exchanging two adjacent segments of an array in place. */
module Rotation {

  // The segments [bottom, middle) and [middle, top) the other way round.
  function Rotated<T>(s: seq<T>, bottom: nat, middle: nat, top: nat): (r: seq<T>)
    requires bottom <= middle <= top <= |s|
    ensures |r| == |s| && multiset(r) == multiset(s)
  {
    assert s == s[..bottom] + s[bottom..middle] + s[middle..top] + s[top..];
    s[..bottom] + s[middle..top] + s[bottom..middle] + s[top..]
  }

  // Where the element at k of a rotation comes from.
  function RotatedFrom(k: nat, bottom: nat, middle: nat, top: nat): nat
    requires bottom <= middle <= top
  {
    if k < bottom || k >= top then k
    else if k < bottom + (top - middle) then k + (middle - bottom)
    else k - (top - middle)
  }

  lemma RotatedAt<T>(s: seq<T>, bottom: nat, middle: nat, top: nat, k: nat)
    requires bottom <= middle <= top <= |s| && k < |s|
    ensures RotatedFrom(k, bottom, middle, top) < |s|
    ensures Rotated(s, bottom, middle, top)[k] == s[RotatedFrom(k, bottom, middle, top)]
  {
  }

  // Where the element at k comes from when two segments have been swapped.
  function SwappedFrom(k: nat, i: nat, j: nat, len: nat): nat
    requires i <= j
  {
    if i <= k < i + len then k + (j - i) else if j <= k < j + len then k - (j - i) else k
  }

  ghost predicate Swapped<T>(u: seq<T>, v: seq<T>, i: nat, j: nat, len: nat)
    requires i + len <= j && j + len <= |u|
  {
    |v| == |u| && forall k :: 0 <= k < |u| ==> v[k] == u[SwappedFrom(k, i, j, len)]
  }

  // Swapping two disjoint segments of the same length.
  method SwapSegments<T>(a: array<T>, i: nat, j: nat, len: nat)
    requires i + len <= j && j + len <= a.Length
    modifies a
    ensures Swapped(old(a[..]), a[..], i, j, len)
  {
    ghost var u := a[..];
    for k := 0 to len
      invariant forall x :: 0 <= x < a.Length ==> a[x] == u[SwappedFrom(x, i, j, k)]
    {
      a[i + k], a[j + k] := a[j + k], a[i + k];
    }
  }

  // With the short bottom segment at the far end, and with the short top segment
  // at the near end, a smaller rotation remains to be done.
  lemma ShortBottom<T>(u: seq<T>, v: seq<T>, bottom: nat, middle: nat, top: nat)
    requires bottom <= middle <= top <= |u| && middle - bottom < top - middle
    requires Swapped(u, v, bottom, top - (middle - bottom), middle - bottom)
    ensures Rotated(v, bottom, middle, top - (middle - bottom)) == Rotated(u, bottom, middle, top)
  {
    hide Rotated;
    forall k: nat | k < |u|
      ensures Rotated(v, bottom, middle, top - (middle - bottom))[k] == Rotated(u, bottom, middle, top)[k]
    {
      RotatedAt(u, bottom, middle, top, k);
      RotatedAt(v, bottom, middle, top - (middle - bottom), k);
    }
  }

  lemma ShortTop<T>(u: seq<T>, v: seq<T>, bottom: nat, middle: nat, top: nat)
    requires bottom <= middle <= top <= |u| && top - middle <= middle - bottom
    requires Swapped(u, v, bottom, middle, top - middle)
    ensures Rotated(v, bottom + (top - middle), middle, top) == Rotated(u, bottom, middle, top)
  {
    hide Rotated;
    forall k: nat | k < |u|
      ensures Rotated(v, bottom + (top - middle), middle, top)[k] == Rotated(u, bottom, middle, top)[k]
    {
      RotatedAt(u, bottom, middle, top, k);
      RotatedAt(v, bottom + (top - middle), middle, top, k);
    }
  }

  lemma NothingLeft<T>(s: seq<T>, bottom: nat, middle: nat, top: nat)
    requires bottom <= middle <= top <= |s| && (bottom == middle || middle == top)
    ensures Rotated(s, bottom, middle, top) == s
  {
    assert s == s[..bottom] + s[bottom..middle] + s[middle..top] + s[top..];
  }

  /** exchange: the two segments change places, both keep their order. */
  method Exchange<T>(argv: array<T>, first: nat, last: nat, optind: nat)
    requires first <= last <= optind <= argv.Length
    modifies argv
    ensures argv[..] == Rotated(old(argv[..]), first, last, optind)
  {
    hide Rotated, Swapped;
    var bottom: nat, middle: nat, top: nat := first, last, optind;
    while top > middle && middle > bottom
      invariant bottom <= middle <= top <= argv.Length
      invariant Rotated(argv[..], bottom, middle, top) == Rotated(old(argv[..]), first, last, optind)
      decreases top - bottom
    {
      ghost var u := argv[..];
      if top - middle > middle - bottom {
        var len := middle - bottom;
        SwapSegments(argv, bottom, top - (middle - bottom), len);
        ShortBottom(u, argv[..], bottom, middle, top);
        top := top - len;
      } else {
        var len := top - middle;
        SwapSegments(argv, bottom, middle, len);
        ShortTop(u, argv[..], bottom, middle, top);
        bottom := bottom + len;
      }
    }
    NothingLeft(argv[..], bottom, middle, top);
  }
}
