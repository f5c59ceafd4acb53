/** The backtracking matchers of the parser. */
module Matching {
  import opened Canonical
  import opened Wrappers
  import opened DocStream

  // What became of an attempt; at the end of the file the source throws.
  datatype Outcome = Yes | No | End

  // A token character as the comparison sees it, a signed char.
  function Signed(b: Byte): int {
    if b < 0x80 then b else b - 0x100
  }

  predicate Blank(c: Byte) {
    c == 0x20 || c == 0x09 || c == 0x0A
  }

  // ---------- match ----------

  // The token agrees with the stream as far as both go.
  predicate Agrees(tok: seq<Byte>, s: seq<Byte>) {
    forall i :: 0 <= i < |tok| && i < |s| ==> s[i] == Signed(tok[i])
  }

  function Match(tok: seq<Byte>, s: seq<Byte>): Outcome {
    if !Agrees(tok, s) then No else if |tok| <= |s| then Yes else End
  }

  /** match for one character. */
  method MatchChar(d: Stream, ch: Byte) returns (r: Outcome)
    requires d.Valid()
    modifies d
    ensures d.Valid() && r == Match([ch], old(d.Ahead()))
    ensures d.Ahead() == if r == Yes then old(d.Ahead())[1..] else old(d.Ahead())
  {
    var c := d.Get();
    if c.None? {
      return End;
    }
    if c.value == Signed(ch) {
      return Yes;
    }
    d.Unget(c.value);
    return No;
  }

  // The first i characters of the token, which agreed, go back.
  method PutBack(d: Stream, tok: seq<Byte>, i: nat, ghost s: seq<Byte>)
    requires d.Valid() && i <= |tok| && i <= |s| && d.Ahead() == s[i..]
    requires Agrees(tok[..i], s)
    modifies d
    ensures d.Valid() && d.Ahead() == s
  {
    hide Stream.Ahead;
    var j := i;
    while j > 0
      invariant 0 <= j <= i && d.Valid() && d.Ahead() == s[j..]
    {
      j := j - 1;
      assert tok[..i][j] == tok[j] && s[j..] == [s[j]] + s[j + 1..];
      d.Unget(tok[j]);
    }
  }

  lemma AgreesOne(tok: seq<Byte>, s: seq<Byte>, i: nat)
    requires i < |tok| && i < |s| && Agrees(tok[..i], s)
    ensures Agrees(tok[..i + 1], s) <==> s[i] == Signed(tok[i])
    ensures s[i] != Signed(tok[i]) ==> !Agrees(tok, s)
  {
    forall j | 0 <= j < i
      ensures s[j] == Signed(tok[j])
    {
      assert tok[..i][j] == tok[j];
    }
    if Agrees(tok[..i + 1], s) {
      assert tok[..i + 1][i] == tok[i];
    }
  }

  lemma AgreesAll(tok: seq<Byte>, s: seq<Byte>, i: nat)
    requires i <= |tok| && i <= |s| && Agrees(tok[..i], s) && (i == |tok| || i == |s|)
    ensures Agrees(tok, s)
  {
    forall j | 0 <= j < |tok| && j < |s|
      ensures s[j] == Signed(tok[j])
    {
      assert tok[..i][j] == tok[j];
    }
  }

  /** match for a string: exactly the token is consumed, or the stream is as before;
      at the end of the file what was read is lost. */
  method MatchToken(d: Stream, tok: seq<Byte>) returns (r: Outcome)
    requires d.Valid()
    modifies d
    ensures d.Valid() && r == Match(tok, old(d.Ahead()))
    ensures d.Ahead() ==
      match r case Yes => old(d.Ahead())[|tok|..] case No => old(d.Ahead()) case End => []
    ensures old(d.Genuine()) ==> d.Genuine()
  {
    hide Stream.Ahead, Agrees, Signed;
    ghost var s := d.Ahead();
    var i := 0;
    AgreesNone(tok, s);
    while i < |tok|
      invariant 0 <= i <= |tok| && i <= |s| && d.Valid() && d.Ahead() == s[i..]
      invariant Agrees(tok[..i], s)
    {
      if i == |s| {
        AgreesAll(tok, s, i);
      } else {
        AgreesOne(tok, s, i);
      }
      var c := d.Get();
      if c.None? {
        return End;
      }
      if c.value != Signed(tok[i]) {
        d.Unget(c.value);
        PutBack(d, tok, i, s);
        return No;
      }
      i := i + 1;
    }
    AgreesAll(tok, s, i);
    return Yes;
  }

  lemma AgreesNone(tok: seq<Byte>, s: seq<Byte>)
    ensures Agrees(tok[..0], s)
  {
  }

  // ---------- match_b ----------

  function SkipBlanks(s: seq<Byte>): (r: seq<Byte>)
    ensures |r| <= |s| && (r != [] ==> !Blank(r[0]))
  {
    if s != [] && Blank(s[0]) then SkipBlanks(s[1..]) else s
  }

  // The outcome and the stream afterwards; done is the part of the token that has
  // been matched.
  function MatchSpaced(done: seq<Byte>, tok: seq<Byte>, s: seq<Byte>): (Outcome, seq<Byte>)
    decreases |tok|
  {
    if tok == [] then (Yes, s)
    else
      var t := SkipBlanks(s);
      if t == [] then (End, [])
      else if t[0] != Signed(tok[0]) then (No, done + t)
      else MatchSpaced(done + [tok[0]], tok[1..], t[1..])
  }

  // The stream without spaces, tabs and line ends.
  function Solid(s: seq<Byte>): seq<Byte> {
    if s == [] then [] else if Blank(s[0]) then Solid(s[1..]) else [s[0]] + Solid(s[1..])
  }

  lemma {:induction false} SolidAppend(a: seq<Byte>, b: seq<Byte>)
    ensures Solid(a + b) == Solid(a) + Solid(b)
    decreases |a|
  {
    if a == [] {
      assert a + b == b;
    } else {
      assert (a + b)[1..] == a[1..] + b;
      SolidAppend(a[1..], b);
    }
  }

  lemma {:induction false} SolidSkip(s: seq<Byte>)
    ensures Solid(SkipBlanks(s)) == Solid(s)
    decreases |s|
  {
    if s != [] && Blank(s[0]) {
      SolidSkip(s[1..]);
    }
  }

  /** match_b looks at the stream without blanks: it succeeds when the token is next
      there, and then only the rest is left; when it fails nothing but blanks is lost. */
  lemma {:induction false} SpacedIsMatch(done: seq<Byte>, tok: seq<Byte>, s: seq<Byte>)
    ensures var (r, left) := MatchSpaced(done, tok, s);
      && r == Match(tok, Solid(s))
      && (r == Yes ==> |Solid(s)| >= |tok| && Solid(left) == Solid(s)[|tok|..])
      && (r == No ==> Solid(left) == Solid(done) + Solid(s))
    decreases |tok|
  {
    if tok != [] {
      var t := SkipBlanks(s);
      SolidSkip(s);
      if t != [] {
        var u := Solid(s);
        assert u == [t[0]] + Solid(t[1..]);
        if t[0] != Signed(tok[0]) {
          SolidAppend(done, t);
        } else {
          SpacedIsMatch(done + [tok[0]], tok[1..], t[1..]);
          SolidAppend(done, [tok[0]]);
          MatchTail(tok, u);
        }
      }
    }
  }

  // Space, tab and line end.
  predicate White(c: Byte) {
    c == 32 || c == 9 || c == 10
  }

  // The places, in order, of all characters that are not white.
  ghost predicate Places(s: seq<Byte>, at: seq<nat>) {
    && (forall k :: 0 <= k < |at| ==> at[k] < |s| && !White(s[at[k]]))
    && (forall j, k :: 0 <= j < k < |at| ==> at[j] < at[k])
    && (forall i: nat :: i < |s| && !White(s[i]) ==> i in at)
  }

  /** The stream without blanks is exactly its characters other than spaces, tabs and
      line ends, each once for every time it stands there, and in their order. */
  lemma {:induction false} SolidIs(s: seq<Byte>) returns (at: seq<nat>)
    ensures Places(s, at) && |at| == |Solid(s)| && forall k :: 0 <= k < |at| ==> Solid(s)[k] == s[at[k]]
    decreases |s|
  {
    if s == [] {
      at := [];
    } else {
      var rest := SolidIs(s[1..]);
      var moved := seq(|rest|, k requires 0 <= k < |rest| => rest[k] + 1);
      forall k | 0 <= k < |moved|
        ensures s[moved[k]] == s[1..][rest[k]]
      {
      }
      at := if White(s[0]) then moved else [0] + moved;
      PlacesOn(s, rest, moved, at);
    }
  }

  lemma PlacesOn(s: seq<Byte>, rest: seq<nat>, moved: seq<nat>, at: seq<nat>)
    requires s != [] && Places(s[1..], rest) && |moved| == |rest|
    requires forall k :: 0 <= k < |rest| ==> moved[k] == rest[k] + 1
    requires at == if White(s[0]) then moved else [0] + moved
    ensures Places(s, at)
  {
    hide White;
    forall k | 0 <= k < |at|
      ensures at[k] < |s| && !White(s[at[k]])
    {
      PlaceIs(s, rest, moved, at, k);
    }
    forall j, k | 0 <= j < k < |at|
      ensures at[j] < at[k]
    {
      PlacesRise(s, rest, moved, at, j, k);
    }
    forall i: nat | i < |s| && !White(s[i])
      ensures i in at
    {
      PlaceOf(s, rest, moved, at, i);
    }
  }

  lemma PlaceIs(s: seq<Byte>, rest: seq<nat>, moved: seq<nat>, at: seq<nat>, k: nat)
    requires s != [] && Places(s[1..], rest) && |moved| == |rest| && k < |at|
    requires forall k :: 0 <= k < |rest| ==> moved[k] == rest[k] + 1
    requires at == if White(s[0]) then moved else [0] + moved
    ensures at[k] < |s| && !White(s[at[k]])
  {
    hide White;
    var d := if White(s[0]) then 0 else 1;
    if k >= d {
      assert at[k] == rest[k - d] + 1 && s[1..][rest[k - d]] == s[at[k]];
    }
  }

  lemma PlacesRise(s: seq<Byte>, rest: seq<nat>, moved: seq<nat>, at: seq<nat>, j: nat, k: nat)
    requires s != [] && Places(s[1..], rest) && |moved| == |rest| && j < k < |at|
    requires forall k :: 0 <= k < |rest| ==> moved[k] == rest[k] + 1
    requires at == if White(s[0]) then moved else [0] + moved
    ensures at[j] < at[k]
  {
    hide White;
    var d := if White(s[0]) then 0 else 1;
    assert at[k] == rest[k - d] + 1;
    assert j >= d ==> at[j] == rest[j - d] + 1;
  }

  lemma PlaceOf(s: seq<Byte>, rest: seq<nat>, moved: seq<nat>, at: seq<nat>, i: nat)
    requires s != [] && Places(s[1..], rest) && |moved| == |rest| && i < |s| && !White(s[i])
    requires forall k :: 0 <= k < |rest| ==> moved[k] == rest[k] + 1
    requires at == if White(s[0]) then moved else [0] + moved
    ensures i in at
  {
    hide White;
    if i == 0 {
      assert at[0] == 0;
    } else {
      assert s[1..][i - 1] == s[i];
      var k :| 0 <= k < |rest| && rest[k] == i - 1;
      assert at[if White(s[0]) then k else k + 1] == i;
    }
  }

  /** What is passed over in front is the longest run of spaces, tabs and line ends. */
  lemma {:induction false} SkippedIs(s: seq<Byte>)
    ensures var n := |s| - |SkipBlanks(s)|;
      && SkipBlanks(s) == s[n..] && (forall k :: 0 <= k < n ==> White(s[k]))
      && (n < |s| ==> !White(s[n]))
    decreases |s|
  {
    if s != [] && White(s[0]) {
      SkippedIs(s[1..]);
      var n := |s| - |SkipBlanks(s)|;
      forall k | 0 <= k < n
        ensures White(s[k])
      {
        assert k > 0 ==> s[1..][k - 1] == s[k];
      }
    }
  }

  /** A token matches exactly if the stream begins with its characters and none is
      above 127, which as a signed char is no character of the stream. */
  lemma MatchIs(tok: seq<Byte>, s: seq<Byte>)
    ensures Match(tok, s) == Yes <==>
      |tok| <= |s| && s[..|tok|] == tok && forall i :: 0 <= i < |tok| ==> tok[i] < 128
    ensures Match(tok, s) == End <==>
      |s| < |tok| && tok[..|s|] == s && forall i :: 0 <= i < |s| ==> s[i] < 128
  {
    if |s| < |tok| && tok[..|s|] == s {
      forall i | 0 <= i < |s|
        ensures s[i] == tok[i]
      {
        assert tok[..|s|][i] == s[i];
      }
    }
    if |tok| <= |s| && s[..|tok|] == tok {
      forall i | 0 <= i < |tok|
        ensures s[i] == tok[i]
      {
        assert s[..|tok|][i] == s[i];
      }
    }
  }

  lemma OneMatched(done: seq<Byte>, c: Byte, tok: seq<Byte>, s: seq<Byte>)
    requires !White(c) && c < 128
    ensures MatchSpaced(done, [c] + tok, [c] + s) == MatchSpaced(done + [c], tok, s)
  {
    hide Blank;
    NothingSkipped(c, s);
    assert ([c] + tok)[1..] == tok;
  }

  /** A line end in front of <tr> does not keep it from being matched. */
  lemma LineEndPassed(tok: seq<Byte>, rest: seq<Byte>)
    requires tok == [0x3C, 0x74, 0x72, 0x3E]
    ensures MatchSpaced([], tok, [0x0A] + tok + rest) == (Yes, rest)
  {
    hide MatchSpaced;
    var s := [0x0A] + tok + rest;
    assert s[1..] == tok + rest;
    NothingSkipped(0x3C, [0x74, 0x72, 0x3E] + rest);
    assert tok + rest == [0x3C] + ([0x74, 0x72, 0x3E] + rest) && tok == [0x3C] + [0x74, 0x72, 0x3E];
    BlankSkipped([], 0x0A, tok, tok + rest);
    OneMatched([], 0x3C, [0x74, 0x72, 0x3E], [0x74, 0x72, 0x3E] + rest);
    assert [0x74, 0x72, 0x3E] + rest == [0x74] + ([0x72, 0x3E] + rest) && [0x74, 0x72, 0x3E] == [0x74] + [0x72, 0x3E];
    OneMatched([] + [0x3C], 0x74, [0x72, 0x3E], [0x72, 0x3E] + rest);
    assert [0x72, 0x3E] + rest == [0x72] + ([0x3E] + rest) && [0x72, 0x3E] == [0x72] + [0x3E];
    OneMatched([] + [0x3C] + [0x74], 0x72, [0x3E], [0x3E] + rest);
    assert [0x3E] == [0x3E] + [];
    OneMatched([] + [0x3C] + [0x74] + [0x72], 0x3E, [], rest);
    NoneLeft([] + [0x3C] + [0x74] + [0x72] + [0x3E], rest);
    assert s == [0x0A] + (tok + rest);
  }

  lemma NoneLeft(done: seq<Byte>, s: seq<Byte>)
    ensures MatchSpaced(done, [], s) == (Yes, s)
  {
  }

  lemma BlankSkipped(done: seq<Byte>, c: Byte, tok: seq<Byte>, s: seq<Byte>)
    requires White(c) && tok != []
    ensures MatchSpaced(done, tok, [c] + s) == MatchSpaced(done, tok, s)
  {
    assert ([c] + s)[1..] == s;
    assert SkipBlanks([c] + s) == SkipBlanks(s);
  }

  lemma NothingSkipped(c: Byte, s: seq<Byte>)
    requires !White(c)
    ensures SkipBlanks([c] + s) == [c] + s && ([c] + s)[1..] == s
  {
  }

  lemma MatchTail(tok: seq<Byte>, u: seq<Byte>)
    requires tok != [] && u != [] && u[0] == Signed(tok[0])
    ensures Match(tok, u) == Match(tok[1..], u[1..])
  {
    if Agrees(tok[1..], u[1..]) {
      forall i | 0 <= i < |tok| && i < |u|
        ensures u[i] == Signed(tok[i])
      {
        assert i > 0 ==> u[1..][i - 1] == u[i] && tok[1..][i - 1] == tok[i];
      }
    } else {
      var i :| 0 <= i < |tok[1..]| && i < |u[1..]| && u[1..][i] != Signed(tok[1..][i]);
      assert u[i + 1] != Signed(tok[i + 1]);
    }
  }

  // The next character that is no blank.
  method NextSolid(d: Stream) returns (c: Option<Byte>)
    requires d.Valid()
    modifies d
    ensures d.Valid()
    ensures var t := SkipBlanks(old(d.Ahead()));
      if t == [] then c == None && d.Ahead() == [] else c == Some(t[0]) && d.Ahead() == t[1..]
  {
    hide Stream.Ahead;
    c := d.Get();
    while c.Some? && Blank(c.value)
      invariant d.Valid()
      invariant c.None? ==> SkipBlanks(old(d.Ahead())) == [] && d.Ahead() == []
      invariant c.Some? ==> SkipBlanks([c.value] + d.Ahead()) == SkipBlanks(old(d.Ahead()))
      decreases c.Some?, |d.Ahead()|
    {
      assert ([c.value] + d.Ahead())[1..] == d.Ahead();
      c := d.Get();
    }
    if c.Some? {
      assert ([c.value] + d.Ahead())[1..] == d.Ahead();
    }
  }

  /** match_b. */
  method MatchBlanks(d: Stream, tok: seq<Byte>) returns (r: Outcome)
    requires d.Valid()
    modifies d
    ensures d.Valid() && MatchSpaced([], tok, old(d.Ahead())) == (r, d.Ahead())
    ensures r == Match(tok, Solid(old(d.Ahead())))
    ensures r == No ==> Solid(d.Ahead()) == Solid(old(d.Ahead()))
    ensures old(d.Genuine()) && r != No ==> d.Genuine()
    ensures old(d.Genuine()) && r == No && NoBlanks(tok) ==>
      (d.Genuine() <==> LateBlanks(false, tok, old(d.Ahead())) == 0)
  {
    r := MatchFrom(d, tok);
    SpacedIsMatch([], tok, old(d.Ahead()));
    if old(d.Genuine()) {
      SpacedGenuine(tok, old(d.Ahead()), d.file);
    }
  }

  method MatchFrom(d: Stream, tok: seq<Byte>) returns (r: Outcome)
    requires d.Valid()
    modifies d
    ensures d.Valid() && MatchSpaced([], tok, old(d.Ahead())) == (r, d.Ahead())
  {
    hide Stream.Ahead, Signed, SkipBlanks;
    var i := 0;
    assert tok[..0] == [] && tok[0..] == tok;
    while i < |tok|
      invariant 0 <= i <= |tok| && d.Valid()
      invariant MatchSpaced(tok[..i], tok[i..], d.Ahead()) == MatchSpaced([], tok, old(d.Ahead()))
    {
      ghost var t := SkipBlanks(d.Ahead());
      assert tok[i..][1..] == tok[i + 1..] && tok[..i] + [tok[i]] == tok[..i + 1];
      var c := NextSolid(d);
      if c.None? {
        return End;
      }
      if c.value != Signed(tok[i]) {
        d.Unget(c.value);
        assert [c.value] + t[1..] == t;
        Back(d, tok, i);
        return No;
      }
      i := i + 1;
    }
    return Yes;
  }

  method Back(d: Stream, tok: seq<Byte>, n: nat)
    requires d.Valid() && n <= |tok|
    modifies d
    ensures d.Valid() && d.Ahead() == tok[..n] + old(d.Ahead())
  {
    hide Stream.Ahead;
    var i := n;
    assert tok[n..n] == [];
    while i > 0
      invariant 0 <= i <= n && d.Valid() && d.Ahead() == tok[i..n] + old(d.Ahead())
    {
      i := i - 1;
      assert tok[i..n] == [tok[i]] + tok[i + 1..n];
      d.Unget(tok[i]);
    }
    assert tok[0..n] == tok[..n];
  }

  /** Where there are no blanks, match_b is match: the stream is exactly as before
      when it fails. */
  lemma {:induction false} NoBlanksExact(done: seq<Byte>, tok: seq<Byte>, s: seq<Byte>)
    requires forall i :: 0 <= i < |s| ==> !Blank(s[i])
    ensures var (r, left) := MatchSpaced(done, tok, s);
      && r == Match(tok, s)
      && left == match r case Yes => s[|tok|..] case No => done + s case End => []
    decreases |tok|
  {
    hide Blank;
    if tok != [] && s != [] && s[0] == Signed(tok[0]) {
      NoBlanksExact(done + [tok[0]], tok[1..], s[1..]);
      MatchTail(tok, s);
      assert |tok| <= |s| ==> s[1..][|tok| - 1..] == s[|tok|..];
      assert tok[0] == s[0] && done + [tok[0]] + s[1..] == done + s;
    }
  }

  lemma {:induction false} SkipSuffix(s: seq<Byte>)
    ensures SkipBlanks(s) == s[|s| - |SkipBlanks(s)|..]
    decreases |s|
  {
    if s != [] && Blank(s[0]) {
      SkipSuffix(s[1..]);
    }
  }

  /** A success leaves a suffix of the stream; a failure leaves it shorter by the
      blanks it skipped, and as it was if it skipped none. */
  lemma {:induction false} SpacedLoss(done: seq<Byte>, tok: seq<Byte>, s: seq<Byte>)
    ensures var (r, left) := MatchSpaced(done, tok, s);
      && (r == Yes ==> |left| <= |s| && left == s[|s| - |left|..])
      && (r == No ==> |left| <= |done| + |s| && (|left| == |done| + |s| ==> left == done + s))
    decreases |tok|
  {
    hide Blank, SkipBlanks;
    if tok != [] {
      var t := SkipBlanks(s);
      SkipSuffix(s);
      if t != [] && t[0] == Signed(tok[0]) {
        SpacedLoss(done + [tok[0]], tok[1..], t[1..]);
        Later(s, t, MatchSpaced(done, tok, s).1);
        assert done + [tok[0]] + t[1..] == done + t;
      }
    }
  }

  lemma Later(s: seq<Byte>, t: seq<Byte>, left: seq<Byte>)
    requires t != [] && |t| <= |s| && t == s[|s| - |t|..]
    ensures |left| <= |t| - 1 && left == t[1..][|t| - 1 - |left|..] ==> left == s[|s| - |left|..]
    ensures |t| == |s| ==> t == s
  {
  }

  predicate NoBlanks(tok: seq<Byte>) {
    forall i :: 0 <= i < |tok| ==> !Blank(tok[i])
  }

  // How many blanks are skipped once a character of the token has been matched.
  function LateBlanks(started: bool, tok: seq<Byte>, s: seq<Byte>): nat
    decreases |tok|
  {
    if tok == [] then 0
    else
      var t := SkipBlanks(s);
      (if started then |s| - |t| else 0)
      + if t != [] && t[0] == Signed(tok[0]) then LateBlanks(true, tok[1..], t[1..]) else 0
  }

  // The n characters of the file in front of s.
  function Front(n: nat, s: seq<Byte>, file: seq<Byte>): seq<Byte>
    requires n + |s| <= |file|
  {
    file[|file| - |s| - n..|file| - |s|]
  }

  // What stands there, as long as what has been matched, is just that, or has a blank
  // in it.
  ghost predicate InFront(lost: bool, done: seq<Byte>, s: seq<Byte>, file: seq<Byte>) {
    && EndOf(file, s) && |done| + |s| <= |file|
    && var front := Front(|done|, s, file);
       if lost then exists k :: 0 <= k < |front| && Blank(front[k]) else front == done
  }

  lemma FrontIs(lost: bool, done: seq<Byte>, s: seq<Byte>, file: seq<Byte>)
    requires InFront(lost, done, s, file) && NoBlanks(done)
    ensures EndOf(file, done + s) <==> !lost
  {
    var n := |file| - |s|;
    var front := Front(|done|, s, file);
    assert file[n - |done|..] == front + s;
    if front + s == done + s {
      assert (front + s)[..|done|] == (done + s)[..|done|];
    }
  }

  // Behind skipped blanks.
  lemma SkipFront(lost: bool, done: seq<Byte>, s: seq<Byte>, file: seq<Byte>)
    requires InFront(lost, done, s, file) && done != []
    ensures InFront(lost || |SkipBlanks(s)| < |s|, done, SkipBlanks(s), file)
  {
    hide Blank, SkipBlanks;
    var t := SkipBlanks(s);
    SkipSuffix(s);
    SuffixOf(file, s, t);
    if |t| < |s| {
      Skipped(s);
      BlankInFront(done, s, t, file);
    } else {
      assert t == s;
    }
  }

  lemma BlankInFront(done: seq<Byte>, s: seq<Byte>, t: seq<Byte>, file: seq<Byte>)
    requires EndOf(file, s) && |done| + |s| <= |file| && done != []
    requires |t| < |s| && t == s[|s| - |t|..] && Blank(s[|s| - |t| - 1])
    ensures InFront(true, done, t, file)
  {
    hide Blank;
    var n := |file| - |t|;
    var front, k := Front(|done|, t, file), |done| - 1;
    assert EndOf(file, t) by {
      SuffixOf(file, s, t);
    }
    assert front[k] == file[n - 1] == s[|s| - |t| - 1];
    assert Blank(front[k]);
  }

  lemma {:induction false} Skipped(s: seq<Byte>)
    requires |SkipBlanks(s)| < |s|
    ensures Blank(s[|s| - |SkipBlanks(s)| - 1])
    decreases |s|
  {
    if |SkipBlanks(s[1..])| < |s[1..]| {
      Skipped(s[1..]);
    }
  }

  lemma FrontOn(lost: bool, done: seq<Byte>, t: seq<Byte>, file: seq<Byte>)
    requires InFront(lost, done, t, file) && t != []
    ensures InFront(lost, done + [t[0]], t[1..], file)
  {
    var n := |file| - |t|;
    var front, next := Front(|done|, t, file), Front(|done| + 1, t[1..], file);
    assert next == front + [t[0]];
    if lost {
      var k :| 0 <= k < |front| && Blank(front[k]);
      assert next[k] == front[k];
    }
  }

  lemma {:induction false} LossIff(lost: bool, done: seq<Byte>, tok: seq<Byte>, s: seq<Byte>, file: seq<Byte>)
    requires InFront(lost, done, s, file) && done != [] && NoBlanks(done) && NoBlanks(tok)
    ensures var (r, left) := MatchSpaced(done, tok, s);
      r == No ==> (EndOf(file, left) <==> !lost && LateBlanks(true, tok, s) == 0)
    decreases |tok|
  {
    hide InFront, Blank;
    if tok != [] {
      var t := SkipBlanks(s);
      var lost' := lost || |t| < |s|;
      SkipFront(lost, done, s, file);
      if t != [] {
        if t[0] == Signed(tok[0]) {
          FrontOn(lost', done, t, file);
          LossIff(lost', done + [tok[0]], tok[1..], t[1..], file);
        } else {
          FrontIs(lost', done, t, file);
        }
      }
    }
  }

  /** A stream that is what the file holds stays so after a match; after a failure
      exactly if no blank was skipped behind a matched character. */
  lemma SpacedGenuine(tok: seq<Byte>, s: seq<Byte>, file: seq<Byte>)
    requires EndOf(file, s)
    ensures var (r, left) := MatchSpaced([], tok, s);
      && (r != No ==> EndOf(file, left))
      && (r == No && NoBlanks(tok) ==> (EndOf(file, left) <==> LateBlanks(false, tok, s) == 0))
  {
    hide Blank, MatchSpaced, EndOf;
    var (r, left) := MatchSpaced([], tok, s);
    SpacedLoss([], tok, s);
    SpacedEnd([], tok, s);
    if r == Yes {
      SuffixOf(file, s, left);
    } else if r == End {
      SuffixOf(file, s, []);
    } else if NoBlanks(tok) {
      FailedGenuine(tok, s, file);
    }
  }

  lemma SuffixOf(file: seq<Byte>, s: seq<Byte>, t: seq<Byte>)
    requires EndOf(file, s) && |t| <= |s| && t == s[|s| - |t|..]
    ensures EndOf(file, t)
  {
  }

  lemma FailedGenuine(tok: seq<Byte>, s: seq<Byte>, file: seq<Byte>)
    requires EndOf(file, s) && NoBlanks(tok) && MatchSpaced([], tok, s).0 == No
    ensures EndOf(file, MatchSpaced([], tok, s).1) <==> LateBlanks(false, tok, s) == 0
  {
    hide Blank, EndOf, InFront;
    var t := SkipBlanks(s);
    SkipSuffix(s);
    SuffixOf(file, s, t);
    assert [] + t == t;
    if t[0] == Signed(tok[0]) {
      NothingInFront(t, file);
      FrontOn(false, [], t, file);
      assert [] + [t[0]] == [tok[0]] == [] + [tok[0]];
      LossIff(false, [tok[0]], tok[1..], t[1..], file);
    }
  }

  lemma NothingInFront(t: seq<Byte>, file: seq<Byte>)
    requires EndOf(file, t)
    ensures InFront(false, [], t, file)
  {
  }

  lemma {:induction false} SpacedEnd(done: seq<Byte>, tok: seq<Byte>, s: seq<Byte>)
    ensures MatchSpaced(done, tok, s).0 == End ==> MatchSpaced(done, tok, s).1 == []
    decreases |tok|
  {
    hide Blank;
    if tok != [] && SkipBlanks(s) != [] {
      SpacedEnd(done + [tok[0]], tok[1..], SkipBlanks(s)[1..]);
    }
  }

  /** On "x z" a failed match of "xy" leaves "xz", which the file does not hold; going
      back to the current offset then changes the stream. */
  lemma BlankLost(tok: seq<Byte>, s: seq<Byte>)
    requires tok == [0x78, 0x79] && s == [0x78, 0x20, 0x7A]
    ensures MatchSpaced([], tok, s) == (No, [0x78, 0x7A]) && EndOf(s, s) && !EndOf(s, [0x78, 0x7A])
  {
    var rest := s[1..];
    assert rest[1..] == [0x7A] && s[|s| - 2..] == rest;
    assert SkipBlanks(rest) == rest[1..] && SkipBlanks(s) == s;
    assert [] + [tok[0]] == [0x78];
    assert MatchSpaced([0x78], tok[1..], rest) == (No, [0x78] + rest[1..]);
    assert [0x78] + rest[1..] == [0x78, 0x7A];
  }

  // ---------- skipTill ----------

  // The first token that settles the attempt at this place.
  function FirstMatch(toks: seq<seq<Byte>>, s: seq<Byte>): Outcome
    decreases |toks|
  {
    if toks == [] then No
    else if Match(toks[0], s) == No then FirstMatch(toks[1..], s)
    else Match(toks[0], s)
  }

  // The stream at the token found; None when the end of the file is reached.
  function Found(toks: seq<seq<Byte>>, s: seq<Byte>): Option<seq<Byte>>
    decreases |s|
  {
    match FirstMatch(toks, s)
    case Yes => Some(s)
    case End => None
    case No => if s == [] then None else Found(toks, s[1..])
  }

  ghost predicate Starts(toks: seq<seq<Byte>>, s: seq<Byte>) {
    exists i :: 0 <= i < |toks| && Match(toks[i], s) == Yes
  }

  lemma {:induction false} FirstMatchIs(toks: seq<seq<Byte>>, s: seq<Byte>)
    ensures FirstMatch(toks, s) == Yes ==> Starts(toks, s)
    ensures FirstMatch(toks, s) == No ==> !Starts(toks, s)
    ensures FirstMatch(toks, s) == End ==> exists i :: 0 <= i < |toks| && Match(toks[i], s) == End
    decreases |toks|
  {
    hide Match;
    if toks != [] {
      FirstMatchIs(toks[1..], s);
      if i :| 0 <= i < |toks[1..]| && Match(toks[1..][i], s) == Yes {
        assert Match(toks[i + 1], s) == Yes;
      }
      if i :| 0 <= i < |toks[1..]| && Match(toks[1..][i], s) == End {
        assert Match(toks[i + 1], s) == End;
      }
      if FirstMatch(toks, s) == No {
        forall i | 0 <= i < |toks|
          ensures Match(toks[i], s) != Yes
        {
          if i > 0 {
            assert toks[1..][i - 1] == toks[i];
          }
        }
      }
    }
  }

  /** The first token, in the order given, that the stream has or ends within settles
      the attempt. */
  lemma {:induction false} FirstSettles(toks: seq<seq<Byte>>, s: seq<Byte>, i: nat)
    requires i <= |toks| && forall j :: 0 <= j < i ==> Match(toks[j], s) == No
    ensures i == |toks| ==> FirstMatch(toks, s) == No
    ensures i < |toks| && Match(toks[i], s) != No ==> FirstMatch(toks, s) == Match(toks[i], s)
    decreases i
  {
    hide Match;
    if i > 0 {
      FirstSettles(toks[1..], s, i - 1);
    }
  }

  /** skipTill stops at the earliest place where one of the tokens starts; it gives
      up only where the file ends within or before a token. */
  lemma {:induction false} FoundIsEarliest(toks: seq<seq<Byte>>, s: seq<Byte>)
    ensures match Found(toks, s)
      case Some(t) =>
        && |t| <= |s| && t == s[|s| - |t|..] && Starts(toks, t)
        && forall k :: 0 <= k < |s| - |t| ==> !Starts(toks, s[k..])
      case None =>
        exists k :: 0 <= k <= |s| && GivesUp(toks, s[k..]) && forall j :: 0 <= j < k ==> !Starts(toks, s[j..])
    decreases |s|
  {
    hide Match, Starts, FirstMatch, GivesUp;
    FirstMatchIs(toks, s);
    GivesUpIs(toks, s);
    assert s[0..] == s;
    if FirstMatch(toks, s) == No && s != [] {
      FoundIsEarliest(toks, s[1..]);
      match Found(toks, s[1..])
      case Some(t) =>
        forall k | 0 <= k < |s| - |t|
          ensures !Starts(toks, s[k..])
        {
          assert k > 0 ==> s[1..][k - 1..] == s[k..];
        }
      case None =>
        var k :|
          0 <= k <= |s[1..]| && GivesUp(toks, s[1..][k..]) && forall j :: 0 <= j < k ==> !Starts(toks, s[1..][j..]);
        assert s[1..][k..] == s[k + 1..];
        forall j | 0 <= j < k + 1
          ensures !Starts(toks, s[j..])
        {
          assert j > 0 ==> s[1..][j - 1..] == s[j..];
        }
    }
  }

  // The stream is used up, or a token goes on behind its end.
  ghost predicate GivesUp(toks: seq<seq<Byte>>, s: seq<Byte>) {
    FirstMatch(toks, s) == End || (FirstMatch(toks, s) == No && s == [])
  }

  lemma GivesUpIs(toks: seq<seq<Byte>>, s: seq<Byte>)
    ensures GivesUp(toks, s) <==> FirstMatch(toks, s) == End || (FirstMatch(toks, s) == No && s == [])
  {
  }

  // The tokens in turn at one place; the one that is found goes back.
  method TryAll(d: Stream, toks: seq<seq<Byte>>) returns (r: Outcome)
    requires d.Valid()
    modifies d
    ensures d.Valid() && r == FirstMatch(toks, old(d.Ahead()))
    ensures d.Ahead() == if r == End then [] else old(d.Ahead())
  {
    hide Stream.Ahead, Match;
    ghost var s := d.Ahead();
    assert toks[0..] == toks;
    for i := 0 to |toks|
      invariant d.Valid() && d.Ahead() == s && FirstMatch(toks[i..], s) == FirstMatch(toks, s)
    {
      assert toks[i..][1..] == toks[i + 1..];
      r := MatchToken(d, toks[i]);
      if r == Yes {
        MatchedIs(toks[i], s);
        d.UngetAll(toks[i]);
        return;
      }
      if r == End {
        return;
      }
    }
    r := No;
  }

  lemma MatchedIs(tok: seq<Byte>, s: seq<Byte>)
    requires Match(tok, s) == Yes
    ensures |tok| <= |s| && tok + s[|tok|..] == s
  {
    forall i | 0 <= i < |tok|
      ensures tok[i] == s[i]
    {
      assert s[i] == Signed(tok[i]);
    }
  }

  /** skipTill: false where the source throws at the end of the file. */
  method SkipTill(d: Stream, toks: seq<seq<Byte>>) returns (found: bool)
    requires d.Valid()
    modifies d
    ensures d.Valid()
    ensures match Found(toks, old(d.Ahead()))
      case Some(t) => found && d.Ahead() == t
      case None => !found && d.Ahead() == []
    ensures old(d.Genuine()) ==> d.Genuine()
  {
    hide Stream.Ahead, FirstMatch;
    FoundIsEarliest(toks, d.Ahead());
    while true
      invariant d.Valid() && Found(toks, d.Ahead()) == Found(toks, old(d.Ahead()))
      decreases |d.Ahead()|
    {
      var r := TryAll(d, toks);
      if r == Yes {
        return true;
      }
      if r == End {
        return false;
      }
      var ch := d.Get();
      if ch.None? {
        return false;
      }
    }
  }
}
