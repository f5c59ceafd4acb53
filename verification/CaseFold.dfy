/** strcasecmp on C strings, and the order it puts on names. */
module CaseFold {
  import opened Canonical

  // The part of a name the comparison sees, in lower case.
  function Fold(s: seq<Byte>): seq<Byte> {
    if s == [] || s[0] == 0 then []
    else [if 0x41 <= s[0] <= 0x5A then s[0] + 0x20 else s[0]] + Fold(s[1..])
  }

  // The sign of the comparison of two folded names.
  function Compare(a: seq<Byte>, b: seq<Byte>): int {
    if a == [] && b == [] then 0
    else if a == [] then -1
    else if b == [] then 1
    else if a[0] < b[0] then -1
    else if a[0] > b[0] then 1
    else Compare(a[1..], b[1..])
  }

  function StrCaseCmp(s: seq<Byte>, t: seq<Byte>): int {
    Compare(Fold(s), Fold(t))
  }

  lemma {:induction false} CompareZero(a: seq<Byte>, b: seq<Byte>)
    ensures Compare(a, b) == 0 <==> a == b
    decreases |a|
  {
    if a != [] && b != [] {
      CompareZero(a[1..], b[1..]);
      assert a == [a[0]] + a[1..] && b == [b[0]] + b[1..];
    }
  }

  lemma {:induction false} CompareOpposite(a: seq<Byte>, b: seq<Byte>)
    ensures Compare(a, b) == -Compare(b, a) && -1 <= Compare(a, b) <= 1
    decreases |a|
  {
    if a != [] && b != [] {
      CompareOpposite(a[1..], b[1..]);
    }
  }

  lemma {:induction false} CompareTransitive(a: seq<Byte>, b: seq<Byte>, c: seq<Byte>)
    requires Compare(a, b) <= 0 && Compare(b, c) <= 0
    ensures Compare(a, c) <= 0
    ensures Compare(a, b) < 0 || Compare(b, c) < 0 ==> Compare(a, c) < 0
    decreases |a|
  {
    if a != [] && b != [] && c != [] && a[0] == b[0] && b[0] == c[0] {
      CompareTransitive(a[1..], b[1..], c[1..]);
    }
  }

  // ---------- by characters ----------

  // The same letter, upper or lower case, or the same other byte.
  predicate SameLetter(a: Byte, b: Byte) {
    a == b || (65 <= a <= 90 && b == a + 32) || (65 <= b <= 90 && a == b + 32)
  }

  // The byte as it is ordered: capital letters as small ones.
  function Rank(b: Byte): nat {
    if 65 <= b <= 90 then b + 32 else b
  }

  predicate NoZero(s: seq<Byte>) {
    forall i :: 0 <= i < |s| ==> s[i] != 0
  }

  predicate SameLetters(s: seq<Byte>, t: seq<Byte>) {
    |s| == |t| && forall i :: 0 <= i < |s| ==> SameLetter(s[i], t[i])
  }

  lemma {:induction false} FoldAt(s: seq<Byte>)
    requires NoZero(s)
    ensures |Fold(s)| == |s| && forall i :: 0 <= i < |s| ==> Fold(s)[i] == Rank(s[i])
    decreases |s|
  {
    if s != [] {
      FoldAt(s[1..]);
      forall i | 0 <= i < |s|
        ensures Fold(s)[i] == Rank(s[i])
      {
        assert i > 0 ==> Fold(s)[i] == Fold(s[1..])[i - 1];
      }
    }
  }

  lemma RankIs(a: Byte, b: Byte)
    ensures Rank(a) == Rank(b) <==> SameLetter(a, b)
  {
  }

  /** Two names compare as equal exactly if they have the same letters, case aside. */
  lemma EqualIff(s: seq<Byte>, t: seq<Byte>)
    requires NoZero(s) && NoZero(t)
    ensures StrCaseCmp(s, t) == 0 <==> SameLetters(s, t)
  {
    hide Fold, Compare, NoZero, SameLetter, Rank;
    CompareZero(Fold(s), Fold(t));
    FoldAt(s);
    FoldAt(t);
    if |s| == |t| {
      forall i | 0 <= i < |s|
        ensures Fold(s)[i] == Fold(t)[i] <==> SameLetter(s[i], t[i])
      {
        RankIs(s[i], t[i]);
      }
    }
  }

  lemma {:induction false} CompareAt(a: seq<Byte>, b: seq<Byte>, i: nat)
    requires i <= |a| && i < |b| && a[..i] == b[..i] && (i < |a| ==> a[i] < b[i])
    ensures Compare(a, b) == -1
    decreases i
  {
    if i > 0 {
      assert a[..i][0] == b[..i][0] && a[..i][1..] == a[1..][..i - 1] && b[..i][1..] == b[1..][..i - 1];
      CompareAt(a[1..], b[1..], i - 1);
    }
  }

  /** A name comes before another that it begins, or whose first different letter has
      the greater rank. */
  lemma FirstDifference(s: seq<Byte>, t: seq<Byte>, i: nat)
    requires NoZero(s) && NoZero(t) && i <= |s| && i < |t| && SameLetters(s[..i], t[..i])
    requires i < |s| ==> Rank(s[i]) < Rank(t[i])
    ensures StrCaseCmp(s, t) == -1 && StrCaseCmp(t, s) == 1
  {
    FoldAt(s);
    FoldAt(t);
    var a, b := Fold(s), Fold(t);
    forall k | 0 <= k < i
      ensures a[k] == b[k]
    {
      assert SameLetter(s[..i][k], t[..i][k]);
    }
    CompareAt(a, b, i);
    CompareOpposite(a, b);
  }

  /** A zero byte ends a name. */
  lemma {:induction false} ZeroEnds(s: seq<Byte>, i: nat)
    requires i < |s| && s[i] == 0
    ensures Fold(s) == Fold(s[..i])
    decreases i
  {
    if i > 0 && s[0] != 0 {
      ZeroEnds(s[1..], i - 1);
      assert s[1..][..i - 1] == s[..i][1..];
    }
  }
}
