/** What the sender of code lengths can rely on: the stream parses in one way,
    and any encoding of a target vector decodes to it. */
module LengthCoding {
  import opened Canonical
  import opened BitReader
  import opened CodeLengths

  lemma {:induction false} TotalMono(ts: seq<Token>, i: nat)
    requires AllValid(ts) && i < |ts|
    ensures Total(ts[..i]) + ts[i].Run() <= Total(ts)
  {
    var n := |ts| - 1;
    if i < n {
      TotalMono(ts[..n], i);
      assert ts[..n][..i] == ts[..i];
    }
  }

  lemma {:induction false} EncodedAt(pre: seq<Byte>, mem: Memory, q: nat, ts: seq<Token>, i: nat)
    requires |pre| == PRETREE_SYMBOLS && AllValid(ts) && i < |ts| && Encoded(pre, mem, q, ts)
    ensures AllValid(ts[..i]) && TokenAt(pre, mem, q + Bits(pre, ts[..i]), ts[i])
  {
    hide TokenAt, TokenBits;
    var n := |ts| - 1;
    if i < n {
      EncodedAt(pre, mem, q, ts[..n], i);
      assert ts[..n][..i] == ts[..i];
    }
  }

  lemma {:induction false} SamePrefix(pre: seq<Byte>, mem: Memory, q: nat, ts: seq<Token>, us: seq<Token>, i: nat)
    requires |pre| == PRETREE_SYMBOLS && AllValid(ts) && AllValid(us) && i <= |ts| && i <= |us|
    requires Encoded(pre, mem, q, ts) && Encoded(pre, mem, q, us)
    ensures ts[..i] == us[..i]
  {
    hide TokenAt, TokenBits, Encoded, Bits;
    if i > 0 {
      SamePrefix(pre, mem, q, ts, us, i - 1);
      EncodedAt(pre, mem, q, ts, i - 1);
      EncodedAt(pre, mem, q, us, i - 1);
      TokensDisjoint(pre, mem, q + Bits(pre, ts[..i - 1]), ts[i - 1], us[i - 1]);
      assert ts[..i] == ts[..i - 1] + [ts[i - 1]] && us[..i] == us[..i - 1] + [us[i - 1]];
    }
  }

  lemma ProperPrefixShort(ts: seq<Token>, us: seq<Token>, first: nat, last: nat)
    requires AllValid(us) && |ts| < |us| && ts == us[..|ts|]
    requires Reaches(us, first, last)
    ensures first + Total(ts) < last
  {
    var front := us[..|us| - 1];
    assert ts == front[..|ts|];
    if |ts| < |front| {
      TotalMono(front, |ts|);
    } else {
      assert ts == front;
    }
  }

  /** The stream determines the tokens: whoever wrote them, they are the ones
      that are read. */
  lemma EncodedUnique(pre: seq<Byte>, mem: Memory, q: nat, ts: seq<Token>, us: seq<Token>, first: nat, last: nat)
    requires |pre| == PRETREE_SYMBOLS && AllValid(ts) && AllValid(us)
    requires Encoded(pre, mem, q, ts) && Encoded(pre, mem, q, us)
    requires Reaches(ts, first, last) && Reaches(us, first, last)
    ensures ts == us
  {
    hide Encoded, TokenAt, Bits;
    var n := if |ts| < |us| then |ts| else |us|;
    SamePrefix(pre, mem, q, ts, us, n);
    if |ts| < |us| {
      ProperPrefixShort(ts, us, first, last);
    } else if |us| < |ts| {
      ProperPrefixShort(us, ts, first, last);
    }
  }

  // The difference that turns length o into length t.
  function Difference(o: Byte, t: Byte): (z: nat)
    requires o <= 16 && t <= 16
    ensures z < 17 && Changed(o, z) == t
  {
    if t <= o then o - t else o - t + 17
  }

  ghost predicate Small(s: seq<Byte>) {
    forall i :: 0 <= i < |s| ==> s[i] <= 16
  }

  // Token t, used at index x, describes that stretch of the target.
  ghost predicate DescribesAt(t: Token, old_: seq<Byte>, target: seq<Byte>, x: nat)
    requires |old_| == |target|
  {
    && t.Valid() && x + t.Run() <= |target|
    && (forall i :: x <= i < x + t.Run() ==> target[i] == Value(t, old_[x]))
  }

  // The tokens describe target[x..last], run by run, against the old lengths.
  ghost predicate Describes(ts: seq<Token>, old_: seq<Byte>, target: seq<Byte>, x: nat, last: nat)
    requires |old_| == |target|
  {
    if ts == [] then x == last
    else DescribesAt(ts[0], old_, target, x) && Describes(ts[1..], old_, target, x + ts[0].Run(), last)
  }

  lemma {:induction false} ApplyCons(t: Token, ts: seq<Token>, s: seq<Byte>, x: nat)
    requires t.Valid() && AllValid(ts) && x + t.Run() + Total(ts) <= |s|
    ensures AllValid([t] + ts) && Total([t] + ts) == t.Run() + Total(ts)
    ensures Apply([t] + ts, s, x) == Apply(ts, ApplyToken(t, s, x), x + t.Run())
    decreases |ts|
  {
    var us, n := [t] + ts, |ts|;
    hide ApplyToken;
    if ts == [] {
      assert us[..0] == [];
    } else {
      assert us[..n] == [t] + ts[..n - 1];
      ApplyCons(t, ts[..n - 1], s, x);
    }
  }

  /** Any description of a target vector, applied to the old one, gives the
      target, and leaves everything outside it alone. */
  lemma {:induction false} DescriptionDecodes(ts: seq<Token>, old_: seq<Byte>, target: seq<Byte>, s: seq<Byte>,
                                              x: nat, last: nat)
    requires |old_| == |target| == |s| && x <= last <= |s|
    requires Describes(ts, old_, target, x, last)
    requires s[x..] == old_[x..]
    ensures AllValid(ts) && x + Total(ts) == last
    ensures Apply(ts, s, x) == s[..x] + target[x..last] + old_[last..]
    decreases |ts|
  {
    if ts != [] {
      var t, rest := ts[0], ts[1..];
      var x' := x + t.Run();
      var s' := ApplyToken(t, s, x);
      OneRun(t, old_, target, s, x);
      DescriptionLong(rest, old_, target, x', last);
      DescriptionDecodes(rest, old_, target, s', x', last);
      assert ts == [t] + rest;
      ApplyCons(t, rest, s, x);
      hide *;
      Glue(s[..x], target, old_[last..], x, x', last);
    } else {
      assert s == s[..x] + s[x..];
      assert target[x..last] == [];
    }
  }

  lemma Glue(a: seq<Byte>, target: seq<Byte>, d: seq<Byte>, x: nat, y: nat, z: nat)
    requires x <= y <= z <= |target|
    ensures (a + target[x..y]) + target[y..z] + d == a + target[x..z] + d
  {
    assert target[x..z] == target[x..y] + target[y..z];
  }

  lemma OneRun(t: Token, old_: seq<Byte>, target: seq<Byte>, s: seq<Byte>, x: nat)
    requires |old_| == |target| == |s| && DescribesAt(t, old_, target, x)
    requires s[x..] == old_[x..]
    ensures ApplyToken(t, s, x)[..x + t.Run()] == s[..x] + target[x..x + t.Run()]
    ensures ApplyToken(t, s, x)[x + t.Run()..] == old_[x + t.Run()..]
  {
    assert s[x] == s[x..][0] == old_[x];
    forall i | x <= i < |s|
      ensures s[i] == old_[i]
    {
      assert s[i] == s[x..][i - x];
    }
  }

  lemma {:induction false} DescriptionLong(ts: seq<Token>, old_: seq<Byte>, target: seq<Byte>, x: nat, last: nat)
    requires |old_| == |target| && Describes(ts, old_, target, x, last)
    ensures x <= last
    decreases |ts|
  {
    if ts != [] {
      DescriptionLong(ts[1..], old_, target, x + ts[0].Run(), last);
    }
  }

  // How many lengths from x on equal v, up to a cap.
  function RunLength(target: seq<Byte>, v: Byte, x: nat, last: nat, cap: nat): (n: nat)
    requires x <= last <= |target|
    ensures n <= cap && x + n <= last
    ensures forall i :: x <= i < x + n ==> target[i] == v
    decreases cap
  {
    if cap == 0 || x == last || target[x] != v then 0
    else 1 + RunLength(target, v, x + 1, last, cap - 1)
  }

  // A run-length encoder in the format.
  function Encode(old_: seq<Byte>, target: seq<Byte>, x: nat, last: nat): (ts: seq<Token>)
    requires |old_| == |target| && x <= last <= |target|
    requires forall i :: 0 <= i < |target| ==> old_[i] <= 16 && target[i] <= 16
    decreases last - x
  {
    if x == last then []
    else
      var zeros := RunLength(target, 0, x, last, 51);
      var same := RunLength(target, target[x], x, last, 5);
      var t :=
        if zeros >= 4 then Zeros(zeros)
        else if same >= 4 then Same(same, Difference(old_[x], target[x]))
        else Delta(Difference(old_[x], target[x]));
      [t] + Encode(old_, target, x + t.Run(), last)
  }

  lemma EncodeNone(old_: seq<Byte>, target: seq<Byte>, x: nat)
    requires |old_| == |target| && x <= |target|
    requires forall i :: 0 <= i < |target| ==> old_[i] <= 16 && target[i] <= 16
    ensures Encode(old_, target, x, x) == []
  {
  }

  lemma EncodeFirst(old_: seq<Byte>, target: seq<Byte>, x: nat, last: nat)
    requires |old_| == |target| && x < last <= |target|
    requires forall i :: 0 <= i < |target| ==> old_[i] <= 16 && target[i] <= 16
    ensures var ts := Encode(old_, target, x, last);
      && ts != [] && DescribesAt(ts[0], old_, target, x) && x + ts[0].Run() <= last
      && ts[1..] == Encode(old_, target, x + ts[0].Run(), last)
  {
    hide RunLength;
  }

  lemma {:induction false} EncodeDescribes(old_: seq<Byte>, target: seq<Byte>, x: nat, last: nat)
    requires |old_| == |target| && x <= last <= |target|
    requires forall i :: 0 <= i < |target| ==> old_[i] <= 16 && target[i] <= 16
    ensures Describes(Encode(old_, target, x, last), old_, target, x, last)
    decreases last - x
  {
    hide Encode, DescribesAt;
    if x == last {
      EncodeNone(old_, target, x);
    } else {
      EncodeFirst(old_, target, x, last);
      EncodeDescribes(old_, target, x + Encode(old_, target, x, last)[0].Run(), last);
    }
  }

  lemma DescriptionReaches(ts: seq<Token>, old_: seq<Byte>, target: seq<Byte>, x: nat, last: nat)
    requires |old_| == |target| && x <= last <= |target| && Describes(ts, old_, target, x, last)
    ensures AllValid(ts) && Reaches(ts, x, last)
  {
    DescriptionDecodes(ts, old_, target, old_, x, last);
    if ts != [] {
      var n := |ts| - 1;
      TotalMono(ts, n);
    }
  }

  /** The round trip: when the stream holds some encoding of a target vector
      against the lengths in s, the tokens that reading finds turn s into the
      target. */
  lemma ReadBack(pre: seq<Byte>, mem: Memory, q: nat, read: seq<Token>, sent: seq<Token>,
                 s: seq<Byte>, target: seq<Byte>, first: nat, last: nat)
    requires |pre| == PRETREE_SYMBOLS && |s| == |target| && first <= last <= |s|
    requires Describes(sent, s, target, first, last) && AllValid(sent) && Encoded(pre, mem, q, sent)
    requires AllValid(read) && Encoded(pre, mem, q, read) && Reaches(read, first, last)
    ensures first + Total(read) == last
    ensures Apply(read, s, first) == s[..first] + target[first..last] + s[last..]
  {
    DescriptionReaches(sent, s, target, first, last);
    EncodedUnique(pre, mem, q, read, sent, first, last);
    DescriptionDecodes(sent, s, target, s, first, last);
  }

  // Every length vector has such an encoding.
  lemma EncoderExists(s: seq<Byte>, target: seq<Byte>, first: nat, last: nat) returns (sent: seq<Token>)
    requires |s| == |target| && first <= last <= |s|
    requires forall i :: 0 <= i < |target| ==> s[i] <= 16 && target[i] <= 16
    ensures AllValid(sent) && Describes(sent, s, target, first, last)
  {
    sent := Encode(s, target, first, last);
    EncodeDescribes(s, target, first, last);
    DescriptionReaches(sent, s, target, first, last);
  }

  /** A changed length stays in 0..16, whatever it was, exactly when the symbol
      is at most 17; the symbol after code 19 is not checked for that. */
  lemma ChangedStaysSmall(z: nat)
    requires z < PRETREE_SYMBOLS
    ensures (forall o: Byte :: o <= 16 ==> Changed(o, z) <= 16) <==> z <= 17
  {
    if z >= 18 {
      assert Changed(0, z) > 16;
    }
  }

  // The i-th token leaves small lengths small: the symbol after code 19 exceeds the
  // length before it by at most 17.
  ghost predicate KeepsSmall(ts: seq<Token>, s: seq<Byte>, x: nat, i: nat)
    requires AllValid(ts) && x + Total(ts) <= |s| && i < |ts|
  {
    TotalMono(ts, i);
    ts[i].Same? ==> ts[i].z <= s[x + Total(ts[..i])] as int + 17
  }

  lemma {:induction false} RestKept(ts: seq<Token>, s: seq<Byte>, x: nat)
    requires AllValid(ts) && x + Total(ts) <= |s|
    ensures forall k :: x + Total(ts) <= k < |s| ==> Apply(ts, s, x)[k] == s[k]
    decreases |ts|
  {
    if ts != [] {
      RestKept(ts[..|ts| - 1], s, x);
    }
  }

  lemma FilledSmall(t: Token, s: seq<Byte>, x: nat)
    requires t.Valid() && x + t.Run() <= |s| && s[x] <= 16
    requires forall k :: x <= k < |s| ==> s[k] <= 16
    ensures Small(ApplyToken(t, s, x)) <==> Small(s) && (t.Same? ==> t.z <= s[x] as int + 17)
  {
    var r := ApplyToken(t, s, x);
    assert r[x] == Value(t, s[x]);
    if Small(r) {
      forall k | 0 <= k < |s|
        ensures s[k] <= 16
      {
        assert k < x ==> r[k] == s[k];
      }
    }
  }

  lemma KeepsFront(ts: seq<Token>, s: seq<Byte>, x: nat)
    requires ts != [] && AllValid(ts) && x + Total(ts) <= |s|
    ensures var n := |ts| - 1;
      (forall i :: 0 <= i < |ts| ==> KeepsSmall(ts, s, x, i))
      <==> KeepsSmall(ts, s, x, n) && forall i :: 0 <= i < n ==> KeepsSmall(ts[..n], s, x, i)
  {
    hide KeepsSmall;
    var n := |ts| - 1;
    forall i | 0 <= i < n
      ensures KeepsSmall(ts[..n], s, x, i) <==> KeepsSmall(ts, s, x, i)
    {
      FrontKeeps(ts, s, x, i);
    }
  }

  lemma FrontKeeps(ts: seq<Token>, s: seq<Byte>, x: nat, i: nat)
    requires AllValid(ts) && x + Total(ts) <= |s| && i < |ts| - 1
    ensures KeepsSmall(ts[..|ts| - 1], s, x, i) <==> KeepsSmall(ts, s, x, i)
  {
    assert ts[..|ts| - 1][..i] == ts[..i];
  }

  /** The lengths stay in 0..16 exactly if no symbol after a code 19 exceeds the length
      it changes by more than 17. */
  lemma {:induction false} LengthsStaySmall(ts: seq<Token>, s: seq<Byte>, x: nat)
    requires AllValid(ts) && x + Total(ts) <= |s| && Small(s)
    ensures Small(Apply(ts, s, x)) <==> forall i :: 0 <= i < |ts| ==> KeepsSmall(ts, s, x, i)
    decreases |ts|
  {
    hide KeepsSmall, ApplyToken;
    if ts != [] {
      var n := |ts| - 1;
      LengthsStaySmall(ts[..n], s, x);
      KeepsFront(ts, s, x);
      RestKept(ts[..n], s, x);
      FilledSmall(ts[n], Apply(ts[..n], s, x), x + Total(ts[..n]));
      LastKeeps(ts, s, x);
    }
  }

  lemma LastKeeps(ts: seq<Token>, s: seq<Byte>, x: nat)
    requires ts != [] && AllValid(ts) && x + Total(ts) <= |s|
    ensures var n := |ts| - 1; KeepsSmall(ts, s, x, n) <==>
      (ts[n].Same? ==> ts[n].z <= s[x + Total(ts[..n])] as int + 17)
  {
  }

  /** Four zero lengths changed by symbol 18 become 255. */
  lemma LengthTooLarge()
    ensures Apply([Same(4, 18)], [0, 0, 0, 0], 0) == [255, 255, 255, 255]
  {
    var t := Same(4, 18);
    assert [t][..0] == [];
    assert Total([t]) == 4;
    assert Apply([t], [0, 0, 0, 0], 0) == ApplyToken(t, [0, 0, 0, 0], 0);
  }
}
