/** The scan of the argument vector for short options, and the permutation it
    carries out on the way. */
module GetOpt {
  import opened Sequences
  import opened Wrappers
  import opened Rotation

  datatype Ordering = Permute | RequireOrder | ReturnInOrder

  // What one call reports: an option with its argument, a character that is no
  // option, an option without its argument, an argument passed by in order.
  datatype Event = Opt(c: char, arg: Option<string>) | Bad(c: char) | Missing(c: char) | Plain(text: string)

  datatype Kind = Unknown | Flag | Required | Optional

  predicate NonOption(s: string) {
    s == "" || s[0] != '-' || |s| == 1
  }

  // What the option string says of a character, from its first occurrence.
  function KindOf(optstring: string, c: char): Kind {
    if c == ':' || optstring == "" then Unknown
    else if optstring[0] == c then
      if |optstring| < 2 || optstring[1] != ':' then Flag
      else if |optstring| < 3 || optstring[2] != ':' then Required
      else Optional
    else KindOf(optstring[1..], c)
  }

  // No "W;": that form needs the table of long options.
  ghost predicate NoW(optstring: string) {
    forall i :: 0 <= i < |optstring| - 1 ==> !(optstring[i] == 'W' && optstring[i + 1] == ';')
  }

  // The value returned for a report; code 1 stands for an argument in order.
  function CodeOf(optstring: string, e: Event): char {
    match e
    case Opt(c, _) => c
    case Bad(_) => '?'
    case Missing(_) => if optstring != "" && optstring[0] == ':' then ':' else '?'
    case Plain(_) => 1 as char
  }

  // ---------- the scan on paper ----------

  // The reports of a whole scan, the elements it takes for options and their
  // arguments, and the others, each in the order of the vector.
  datatype Outcome = Outcome(events: seq<Event>, opts: seq<string>, rest: seq<string>)

  function Report(e: Event, o: Outcome): Outcome {
    o.(events := [e] + o.events)
  }

  function Taking(args: seq<string>, o: Outcome): Outcome {
    o.(opts := args + o.opts)
  }

  function Leaving(args: seq<string>, o: Outcome): Outcome {
    o.(rest := args + o.rest)
  }

  datatype Mode = Mode(optstring: string, ordering: Ordering)

  function Scan(m: Mode, args: seq<string>): Outcome
    decreases |args|, 0
  {
    if args == [] then Outcome([], [], [])
    else if NonOption(args[0]) then
      match m.ordering
      case Permute => Leaving([args[0]], Scan(m, args[1..]))
      case RequireOrder => Outcome([], [], args)
      case ReturnInOrder => Report(Plain(args[0]), Taking([args[0]], Scan(m, args[1..])))
    else if args[0] == "--" then Outcome([], ["--"], args[1..])
    else Cluster(m, args[0], args[0][1..], args[1..])
  }

  // Inside an element: text is what remains of it.
  function Cluster(m: Mode, element: string, text: string, args: seq<string>): Outcome
    requires text != ""
    decreases |args|, |text| + 1, 0
  {
    var c, more := text[0], text[1..];
    match KindOf(m.optstring, c)
    case Unknown => Report(Bad(c), Onward(m, element, more, args))
    case Flag => Report(Opt(c, None), Onward(m, element, more, args))
    case Optional => Report(Opt(c, if more != "" then Some(more) else None), Onward(m, element, "", args))
    case Required =>
      if more != "" then Report(Opt(c, Some(more)), Onward(m, element, "", args))
      else if args == [] then Report(Missing(c), Onward(m, element, "", args))
      else Report(Opt(c, Some(args[0])), Taking([element, args[0]], Scan(m, args[1..])))
  }

  function Onward(m: Mode, element: string, text: string, args: seq<string>): Outcome
    decreases |args|, |text| + 1, 1
  {
    if text != "" then Cluster(m, element, text, args) else Taking([element], Scan(m, args))
  }

  // One step of the scan inside an element: its report, and the elements used up.
  function Step(m: Mode, text: string, args: seq<string>): Event
    requires text != ""
  {
    var c, more := text[0], text[1..];
    match KindOf(m.optstring, c)
    case Unknown => Bad(c)
    case Flag => Opt(c, None)
    case Optional => Opt(c, if more != "" then Some(more) else None)
    case Required => if more != "" then Opt(c, Some(more)) else if args == [] then Missing(c) else Opt(c, Some(args[0]))
  }

  function Taken(m: Mode, text: string, args: seq<string>): (n: nat)
    requires text != ""
    ensures n <= 1 + |args| && (n == 0 ==> text[1..] != "")
  {
    var more, kind := text[1..], KindOf(m.optstring, text[0]);
    if more != "" && (kind == Unknown || kind == Flag) then 0
    else if more == "" && kind == Required && args != [] then 2
    else 1
  }

  lemma ClusterSteps(m: Mode, element: string, text: string, args: seq<string>)
    requires text != ""
    ensures var n := Taken(m, text, args);
      Cluster(m, element, text, args) == Report(Step(m, text, args),
        if n == 0 then Cluster(m, element, text[1..], args)
        else Taking(([element] + args)[..n], Scan(m, args[n - 1..])))
  {
    var n := Taken(m, text, args);
    if n == 2 {
      assert ([element] + args)[..n] == [element, args[0]];
    } else if n == 1 {
      assert ([element] + args)[..n] == [element] && args[0..] == args;
    }
  }

  // ---------- the option string by positions ----------

  ghost predicate FirstAt(s: string, c: char, i: nat) {
    i < |s| && s[i] == c && forall k :: 0 <= k < i ==> s[k] != c
  }

  // What a step on a character may report, and how many elements it uses up, by where
  // the character stands in the option string and what follows it there.
  ghost predicate Rule(optstring: string, text: string, args: seq<string>, e: Event, n: int)
    requires text != ""
  {
    var c, more := text[0], text[1..];
    var end := if more == "" then 1 else 0;
    if c == ':' || c !in optstring then e == Bad(c) && n == end
    else
      forall i: nat :: FirstAt(optstring, c, i) ==>
        if !(i + 1 < |optstring| && optstring[i + 1] == ':') then e == Opt(c, None) && n == end
        else if more != "" then e == Opt(c, Some(more)) && n == 1
        else if i + 2 < |optstring| && optstring[i + 2] == ':' then e == Opt(c, None) && n == 1
        else if args == [] then e == Missing(c) && n == 1
        else e == Opt(c, Some(args[0])) && n == 2
  }

  lemma {:induction false} KindByPosition(optstring: string, c: char, i: nat)
    requires c != ':' && FirstAt(optstring, c, i)
    ensures KindOf(optstring, c) ==
      if !(i + 1 < |optstring| && optstring[i + 1] == ':') then Flag
      else if i + 2 < |optstring| && optstring[i + 2] == ':' then Optional
      else Required
    decreases |optstring|
  {
    if i > 0 {
      assert optstring[1..][i - 1] == c;
      KindByPosition(optstring[1..], c, i - 1);
    }
  }

  lemma {:induction false} KindNowhere(optstring: string, c: char)
    requires c == ':' || c !in optstring
    ensures KindOf(optstring, c) == Unknown
    decreases |optstring|
  {
    if optstring != "" && c != ':' {
      assert optstring[0] in optstring;
      KindNowhere(optstring[1..], c);
    }
  }

  /** Every step follows the option string: a character takes an argument only if a colon
      stands behind it there, from its own element if anything is left of it, and from
      the next one only if no second colon follows and there is one. */
  lemma StepFollows(m: Mode, text: string, args: seq<string>)
    requires text != ""
    ensures Rule(m.optstring, text, args, Step(m, text, args), Taken(m, text, args))
  {
    hide KindOf;
    var c := text[0];
    if c == ':' || c !in m.optstring {
      KindNowhere(m.optstring, c);
    } else {
      var i := FirstExists(m.optstring, c);
      KindByPosition(m.optstring, c, i);
      forall j: nat | FirstAt(m.optstring, c, j)
        ensures j == i
      {
      }
    }
  }

  // A report that some character of some option element gives rise to, or an argument
  // passed by in order; and the value returned with it.
  ghost predicate Reported(m: Mode, args: seq<string>, e: Event, code: char) {
    && (e.Plain? ==> m.ordering == ReturnInOrder && e.text in args && NonOption(e.text) && code as int == 1)
    && (!e.Plain? ==> exists k: nat, j: nat :: ReportedAt(m, args, e, k, j))
    && (e.Opt? ==> code == e.c)
    && (e.Bad? ==> code == '?')
    && (e.Missing? ==> code == if m.optstring != "" && m.optstring[0] == ':' then ':' else '?')
  }

  ghost predicate ReportedAt(m: Mode, args: seq<string>, e: Event, k: nat, j: nat) {
    && k < |args| && 1 <= j < |args[k]| && args[k][0] == '-'
    && (Rule(m.optstring, args[k][j..], args[k + 1..], e, 0)
        || Rule(m.optstring, args[k][j..], args[k + 1..], e, 1)
        || Rule(m.optstring, args[k][j..], args[k + 1..], e, 2))
  }

  lemma ReportedLater(m: Mode, args: seq<string>, n: nat, e: Event, code: char)
    requires n <= |args| && Reported(m, args[n..], e, code)
    ensures Reported(m, args, e, code)
  {
    hide Rule;
    if !e.Plain? {
      var k: nat, j: nat :| ReportedAt(m, args[n..], e, k, j);
      assert args[n..][k + 1..] == args[n + k + 1..] && args[n..][k] == args[n + k];
      assert ReportedAt(m, args, e, n + k, j);
    }
  }

  lemma {:induction false} ScanReports(m: Mode, args: seq<string>, i: nat)
    requires i < |Scan(m, args).events|
    ensures var e := Scan(m, args).events[i]; Reported(m, args, e, CodeOf(m.optstring, e))
    decreases |args|, 1, 0
  {
    hide Reported;
    var e := Scan(m, args).events[i];
    if NonOption(args[0]) {
      if m.ordering == ReturnInOrder && i == 0 {
        assert Reported(m, args, e, CodeOf(m.optstring, e)) by {
          PlainReported(m, args);
        }
      } else {
        var k := if m.ordering == ReturnInOrder then i - 1 else i;
        ScanReports(m, args[1..], k);
        ReportedLater(m, args, 1, e, CodeOf(m.optstring, e));
      }
    } else {
      ClusterReports(m, args, 1, i);
    }
  }

  lemma PlainReported(m: Mode, args: seq<string>)
    requires args != [] && NonOption(args[0]) && m.ordering == ReturnInOrder
    ensures Reported(m, args, Plain(args[0]), CodeOf(m.optstring, Plain(args[0])))
  {
  }

  lemma {:induction false} ClusterReports(m: Mode, args: seq<string>, j: nat, i: nat)
    requires args != [] && 1 <= j < |args[0]| && args[0][0] == '-'
    requires i < |Cluster(m, args[0], args[0][j..], args[1..]).events|
    ensures var e := Cluster(m, args[0], args[0][j..], args[1..]).events[i];
      Reported(m, args, e, CodeOf(m.optstring, e))
    decreases |args|, 0, |args[0]| - j
  {
    hide Cluster, Rule, Scan, Step, Taken, Reported;
    var text := args[0][j..];
    ClusterSteps(m, args[0], text, args[1..]);
    var n, e := Taken(m, text, args[1..]), Step(m, text, args[1..]);
    if i == 0 {
      StepFollows(m, text, args[1..]);
      assert Reported(m, args, e, CodeOf(m.optstring, e)) by {
        StepReported(m, args, j);
      }
    } else if n == 0 {
      assert text[1..] == args[0][j + 1..];
      ClusterReports(m, args, j + 1, i - 1);
    } else {
      assert args[1..][n - 1..] == args[n..];
      ScanReports(m, args[n..], i - 1);
      var later := Scan(m, args[n..]).events[i - 1];
      ReportedLater(m, args, n, later, CodeOf(m.optstring, later));
    }
  }

  lemma StepReported(m: Mode, args: seq<string>, j: nat)
    requires args != [] && 1 <= j < |args[0]| && args[0][0] == '-'
    ensures var e := Step(m, args[0][j..], args[1..]); Reported(m, args, e, CodeOf(m.optstring, e))
  {
    hide Rule, KindOf;
    StepFollows(m, args[0][j..], args[1..]);
    assert ReportedAt(m, args, Step(m, args[0][j..], args[1..]), 0, j);
  }

  // Characters with nothing but a flag's meaning.
  ghost predicate AllFlags(optstring: string, letters: string) {
    forall k :: 0 <= k < |letters| ==> IsFlag(optstring, letters[k])
  }

  ghost predicate IsFlag(optstring: string, c: char) {
    && c != ':' && c in optstring
    && forall i: nat :: FirstAt(optstring, c, i) ==> !(i + 1 < |optstring| && optstring[i + 1] == ':')
  }

  function Flags(letters: string): seq<Event> {
    if letters == "" then [] else [Opt(letters[0], None)] + Flags(letters[1..])
  }

  lemma {:induction false} FirstExists(s: string, c: char) returns (i: nat)
    requires c in s
    ensures FirstAt(s, c, i)
    decreases |s|
  {
    if s[0] == c {
      i := 0;
    } else {
      var k := FirstExists(s[1..], c);
      i := k + 1;
    }
  }

  lemma FlagIs(optstring: string, c: char)
    requires IsFlag(optstring, c)
    ensures KindOf(optstring, c) == Flag
  {
    var i := FirstExists(optstring, c);
    KindByPosition(optstring, c, i);
  }

  /** Flags can be grouped: each is reported in order, and the rest of the element is
      read on behind them. */
  lemma {:induction false} GroupedFlags(m: Mode, element: string, letters: string, text: string, args: seq<string>)
    requires AllFlags(m.optstring, letters) && letters + text != ""
    ensures var o := if text == "" then Taking([element], Scan(m, args)) else Cluster(m, element, text, args);
      Cluster(m, element, letters + text, args) == o.(events := Flags(letters) + o.events)
    decreases |letters|
  {
    if letters == "" {
      assert letters + text == text;
    } else {
      FlagIs(m.optstring, letters[0]);
      var rest := letters[1..] + text;
      assert (letters + text)[1..] == rest;
      if rest == "" {
        assert Flags(letters) == [Opt(letters[0], None)] + Flags([]);
      } else {
        GroupedFlags(m, element, letters[1..], text, args);
      }
    }
  }

  lemma ArgumentTaken(m: Mode, element: string, c: char, i: nat, more: string, args: seq<string>)
    requires c != ':' && FirstAt(m.optstring, c, i) && i + 1 < |m.optstring| && m.optstring[i + 1] == ':'
    requires !(i + 2 < |m.optstring| && m.optstring[i + 2] == ':') && (more != "" || args != [])
    ensures var n := if more != "" then 0 else 1;
      Cluster(m, element, [c] + more, args) ==
      Report(Opt(c, Some(if more != "" then more else args[0])), Taking([element] + args[..n], Scan(m, args[n..])))
  {
    hide KindOf, Scan;
    KindByPosition(m.optstring, c, i);
    assert ([c] + more)[1..] == more;
    if more == "" {
      assert [element] + args[..1] == [element, args[0]];
    } else {
      assert args[0..] == args && [element] + args[..0] == [element];
    }
  }

  lemma ScanElement(m: Mode, text: string, args: seq<string>)
    requires text != "" && text != "-"
    ensures Scan(m, ["-" + text] + args) == Cluster(m, "-" + text, text, args)
  {
    hide Cluster;
    var element := "-" + text;
    assert element[1..] == text && ([element] + args)[1..] == args && ([element] + args)[0] == element;
  }

  /** Behind such flags an option with an argument takes the rest of the element, or,
      if there is none, the next one. */
  lemma FlagsThenArgument(m: Mode, letters: string, c: char, i: nat, more: string, args: seq<string>)
    requires AllFlags(m.optstring, letters) && letters + ([c] + more) != "-"
    requires c != ':' && FirstAt(m.optstring, c, i) && i + 1 < |m.optstring| && m.optstring[i + 1] == ':'
    requires !(i + 2 < |m.optstring| && m.optstring[i + 2] == ':') && (more != "" || args != [])
    ensures var element := "-" + (letters + ([c] + more));
      var n := if more != "" then 0 else 1;
      var o := Scan(m, args[n..]);
      Scan(m, [element] + args) ==
        Outcome(Flags(letters) + [Opt(c, Some(if more != "" then more else args[0]))] + o.events,
                [element] + args[..n] + o.opts, o.rest)
  {
    hide KindOf, Cluster, Flags, FirstAt, AllFlags, Scan, NonOption;
    var text := [c] + more;
    var element := "-" + (letters + text);
    ScanElement(m, letters + text, args);
    GroupedFlags(m, element, letters, text, args);
    ArgumentTaken(m, element, c, i, more, args);
    var n, taken := if more != "" then 0 else 1, Opt(c, Some(if more != "" then more else args[0]));
    var o := Scan(m, args[n..]);
    assert Flags(letters) + ([taken] + o.events) == Flags(letters) + [taken] + o.events;
  }

  lemma XIsFlag()
    ensures IsFlag("?vc:x:p:d:b:a:s:X1", 'X')
  {
    var s := "?vc:x:p:d:b:a:s:X1";
    assert s[16] == 'X';
    forall i: nat | FirstAt(s, 'X', i)
      ensures i == 16
    {
    }
  }

  /** wvWare's own short options: -X takes no argument, although the option in front of
      it does. */
  lemma NoArgumentTaken(m: Mode, file: string)
    requires m == Mode("?vc:x:p:d:b:a:s:X1", Permute) && (file == "" || file[0] != '-')
    ensures Scan(m, ["-X", file]) == Outcome([Opt('X', None)], ["-X"], [file])
  {
    hide KindOf, Cluster, IsFlag;
    XIsFlag();
    assert "X"[1..] == "" && "X" + "" == "X" && Flags("X") == [Opt('X', None)] + Flags("");
    assert ["-X", file][1..] == [file] && [file][1..] == [] && "-X"[1..] == "X";
    PassedBy(m, file, []);
    assert [file] + [] == [file] && Scan(m, []) == Outcome([], [], []);
    GroupedFlags(m, "-X", "X", "", [file]);
  }

  /** What is no option: an element that does not begin with a hyphen, or is only one.
      It is left behind, ends the scan, or is reported, as the ordering says. */
  lemma PassedBy(m: Mode, s: string, args: seq<string>)
    requires s == "" || s == "-" || s[0] != '-'
    ensures var o := Scan(m, args);
      Scan(m, [s] + args) == match m.ordering
        case Permute => Outcome(o.events, o.opts, [s] + o.rest)
        case RequireOrder => Outcome([], [], [s] + args)
        case ReturnInOrder => Outcome([Plain(s)] + o.events, [s] + o.opts, o.rest)
  {
    assert ([s] + args)[1..] == args;
  }

  /** Behind two hyphens there are no options. */
  lemma Terminated(m: Mode, args: seq<string>)
    ensures Scan(m, ["--"] + args) == Outcome([], ["--"], args)
  {
    assert (["--"] + args)[1..] == args;
  }

  function Min(a: nat, b: nat): nat {
    if a > b then b else a
  }

  // ---------- what the scan keeps ----------

  /** The scan rearranges: nothing is lost, added or changed. */
  lemma {:induction false} ScanKeepsAll(m: Mode, args: seq<string>)
    ensures multiset(Scan(m, args).opts) + multiset(Scan(m, args).rest) == multiset(args)
    decreases |args|, 0
  {
    if args != [] {
      assert args == [args[0]] + args[1..];
      if NonOption(args[0]) {
        if m.ordering != RequireOrder {
          ScanKeepsAll(m, args[1..]);
        }
      } else if args[0] != "--" {
        ClusterKeepsAll(m, args[0], args[0][1..], args[1..]);
      }
    }
  }

  lemma {:induction false} ClusterKeepsAll(m: Mode, element: string, text: string, args: seq<string>)
    requires text != ""
    ensures var o := Cluster(m, element, text, args);
      multiset(o.opts) + multiset(o.rest) == multiset{element} + multiset(args)
    decreases |args|, |text| + 1, 0
  {
    hide Onward, Scan, KindOf;
    if KindOf(m.optstring, text[0]) == Required && |text| == 1 && args != [] {
      ScanKeepsAll(m, args[1..]);
      assert args == [args[0]] + args[1..];
      assert [element, args[0]] == [element] + [args[0]];
    } else {
      OnwardKeepsAll(m, element, text[1..], args);
      OnwardKeepsAll(m, element, "", args);
    }
  }

  lemma {:induction false} OnwardKeepsAll(m: Mode, element: string, text: string, args: seq<string>)
    ensures var o := Onward(m, element, text, args);
      multiset(o.opts) + multiset(o.rest) == multiset{element} + multiset(args)
    decreases |args|, |text| + 1, 1
  {
    if text != "" {
      ClusterKeepsAll(m, element, text, args);
    } else {
      ScanKeepsAll(m, args);
    }
  }

  // ---------- scanning the permuted vector again ----------

  // The scan meets the terminator.
  ghost predicate Ended(m: Mode, args: seq<string>)
    decreases |args|, 0
  {
    args != [] &&
    if NonOption(args[0]) then Ended(m, args[1..])
    else args[0] == "--" || EndedIn(m, args[0][1..], args[1..])
  }

  ghost predicate EndedIn(m: Mode, text: string, args: seq<string>)
    requires text != ""
    decreases |args|, |text| + 1
  {
    var n := Taken(m, text, args);
    if n == 0 then EndedIn(m, text[1..], args) else Ended(m, args[n - 1..])
  }

  ghost predicate AllPlain(args: seq<string>) {
    forall i :: 0 <= i < |args| ==> NonOption(args[i])
  }

  // An option at the very end wants an argument.
  ghost predicate Misses(events: seq<Event>) {
    exists i :: 0 <= i < |events| && events[i].Missing?
  }

  lemma MissesReport(e: Event, events: seq<Event>)
    ensures Misses([e] + events) <==> e.Missing? || Misses(events)
  {
    var all := [e] + events;
    if e.Missing? {
      assert all[0].Missing?;
    }
    if i :| 0 <= i < |events| && events[i].Missing? {
      assert all[i + 1].Missing?;
    }
    if i :| 0 < i < |all| && all[i].Missing? {
      assert events[i - 1].Missing?;
    }
  }

  lemma {:induction false} RestPlain(m: Mode, args: seq<string>)
    requires m.ordering == Permute && !Ended(m, args)
    ensures AllPlain(Scan(m, args).rest)
    decreases |args|, 0
  {
    if args != [] {
      if NonOption(args[0]) {
        RestPlain(m, args[1..]);
      } else {
        RestPlainIn(m, args[0], args[0][1..], args[1..]);
      }
    }
  }

  lemma {:induction false} RestPlainIn(m: Mode, element: string, text: string, args: seq<string>)
    requires m.ordering == Permute && text != "" && !EndedIn(m, text, args)
    ensures AllPlain(Cluster(m, element, text, args).rest)
    decreases |args|, |text| + 1
  {
    hide Cluster;
    ClusterSteps(m, element, text, args);
    var n := Taken(m, text, args);
    if n == 0 {
      RestPlainIn(m, element, text[1..], args);
    } else {
      RestPlain(m, args[n - 1..]);
    }
  }

  lemma {:induction false} PlainStays(m: Mode, args: seq<string>)
    requires m.ordering == Permute && AllPlain(args)
    ensures Scan(m, args) == Outcome([], [], args)
  {
    if args != [] {
      PlainStays(m, args[1..]);
    }
  }

  // The elements taken by a scan, followed by others, are taken again.
  lemma {:induction false} TakenAgain(m: Mode, args: seq<string>, others: seq<string>)
    requires m.ordering == Permute && (Ended(m, args) || AllPlain(others))
    requires others == [] || !Misses(Scan(m, args).events)
    ensures var o := Scan(m, args); Scan(m, o.opts + others) == Outcome(o.events, o.opts, others)
    decreases |args|, 0
  {
    if args == [] {
      assert [] + others == others;
      PlainStays(m, others);
    } else if NonOption(args[0]) {
      TakenAgain(m, args[1..], others);
    } else if args[0] == "--" {
      assert (["--"] + others)[1..] == others;
    } else {
      TakenAgainIn(m, args[0], args[0][1..], args[1..], others);
      var x := Cluster(m, args[0], args[0][1..], args[1..]).opts;
      assert (x + others)[0] == args[0] && (x + others)[1..] == x[1..] + others;
    }
  }

  // A step that finishes an element does so whatever else follows, unless it
  // was short of an argument.
  lemma StepAgain(m: Mode, element: string, text: string, args: seq<string>, tail: seq<string>)
    requires text != "" && Taken(m, text, args) > 0
    requires Step(m, text, args).Missing? ==> tail == []
    ensures var n := Taken(m, text, args); var used := args[..n - 1];
      Cluster(m, element, text, used + tail) == Report(Step(m, text, args), Taking([element] + used, Scan(m, tail)))
  {
    var n := Taken(m, text, args);
    var used := args[..n - 1];
    var again := used + tail;
    ClusterSteps(m, element, text, again);
    assert Taken(m, text, again) == n && Step(m, text, again) == Step(m, text, args);
    assert again[n - 1..] == tail && ([element] + again)[..n] == [element] + used;
  }

  lemma {:induction false} TakenAgainIn(m: Mode, element: string, text: string, args: seq<string>, others: seq<string>)
    requires m.ordering == Permute && text != "" && (EndedIn(m, text, args) || AllPlain(others))
    requires others == [] || !Misses(Cluster(m, element, text, args).events)
    ensures var o := Cluster(m, element, text, args);
      && o.opts != [] && o.opts[0] == element
      && Cluster(m, element, text, o.opts[1..] + others) == Outcome(o.events, o.opts, others)
    decreases |args|, |text| + 1
  {
    hide Cluster, Misses, AllPlain, KindOf, Scan, Step, Taken;
    var o, n, e := Cluster(m, element, text, args), Taken(m, text, args), Step(m, text, args);
    ClusterSteps(m, element, text, args);
    if n == 0 {
      var rest := Cluster(m, element, text[1..], args);
      MissesReport(e, rest.events);
      TakenAgainIn(m, element, text[1..], args, others);
      ClusterSteps(m, element, text, o.opts[1..] + others);
      SameStep(m, text, args, o.opts[1..] + others);
    } else {
      var used, next := args[..n - 1], Scan(m, args[n - 1..]);
      MissesReport(e, next.events);
      TakenAgain(m, args[n - 1..], others);
      assert ([element] + args)[..n] == [element] + used;
      assert o.opts[1..] == used + next.opts;
      Regroup(used, next.opts, others);
      if e.Missing? {
        LastMissing(m, text, args);
      }
      StepAgain(m, element, text, args, next.opts + others);
    }
  }

  lemma SameStep(m: Mode, text: string, args: seq<string>, args': seq<string>)
    requires text != "" && Taken(m, text, args) == 0
    ensures Taken(m, text, args') == 0 && Step(m, text, args') == Step(m, text, args)
    ensures !Step(m, text, args).Missing?
  {
  }

  lemma LastMissing(m: Mode, text: string, args: seq<string>)
    requires text != "" && Step(m, text, args).Missing?
    ensures args == [] && Taken(m, text, args) == 1 && Scan(m, []) == Outcome([], [], [])
  {
  }

  // An option that missed its argument takes the first element that follows.
  lemma {:induction false} MissedTakes(m: Mode, args: seq<string>, others: seq<string>)
    requires m.ordering == Permute && others != [] && Misses(Scan(m, args).events)
    ensures |Scan(m, Scan(m, args).opts + others).rest| < |others|
    decreases |args|, 0
  {
    if NonOption(args[0]) {
      MissedTakes(m, args[1..], others);
    } else {
      MissedTakesIn(m, args[0], args[0][1..], args[1..], others);
      var x := Cluster(m, args[0], args[0][1..], args[1..]).opts;
      assert (x + others)[0] == args[0] && (x + others)[1..] == x[1..] + others;
    }
  }

  lemma {:induction false} MissedTakesIn(m: Mode, element: string, text: string, args: seq<string>, others: seq<string>)
    requires m.ordering == Permute && text != "" && others != []
    requires Misses(Cluster(m, element, text, args).events)
    ensures var o := Cluster(m, element, text, args);
      && o.opts != [] && o.opts[0] == element
      && |Cluster(m, element, text, o.opts[1..] + others).rest| < |others|
    decreases |args|, |text| + 1
  {
    hide Cluster, Misses, AllPlain, KindOf, Scan, Step, Taken;
    var o, n, e := Cluster(m, element, text, args), Taken(m, text, args), Step(m, text, args);
    ClusterSteps(m, element, text, args);
    if n == 0 {
      SameStep(m, text, args, []);
      MissesReport(e, Cluster(m, element, text[1..], args).events);
      MissedTakesIn(m, element, text[1..], args, others);
      SameStep(m, text, args, o.opts[1..] + others);
      ClusterSteps(m, element, text, o.opts[1..] + others);
    } else {
      var used, next := args[..n - 1], Scan(m, args[n - 1..]);
      MissesReport(e, next.events);
      assert ([element] + args)[..n] == [element] + used;
      assert o.opts[1..] == used + next.opts;
      Regroup(used, next.opts, others);
      if e.Missing? {
        LastMissing(m, text, args);
        assert o.opts[1..] + others == others;
        TakesFirst(m, element, text, others);
      } else {
        MissedTakes(m, args[n - 1..], others);
        StepAgain(m, element, text, args, next.opts + others);
      }
    }
  }

  lemma TakesFirst(m: Mode, element: string, text: string, others: seq<string>)
    requires text != "" && Step(m, text, []).Missing? && others != []
    ensures |Cluster(m, element, text, others).rest| < |others|
  {
    RestWithin(m, others[1..]);
  }

  lemma RestWithin(m: Mode, args: seq<string>)
    ensures |Scan(m, args).rest| <= |args|
  {
    hide Scan;
    ScanKeepsAll(m, args);
    var o := Scan(m, args);
    assert |multiset(o.opts) + multiset(o.rest)| == |o.opts| + |o.rest|;
  }

  /** Scanning the permuted vector again reports the same and moves nothing,
      exactly when no option was short of its argument while other elements were
      there: such an option takes the first of them the second time. */
  lemma ScanTwice(m: Mode, args: seq<string>)
    requires m.ordering == Permute
    ensures var o := Scan(m, args);
      Scan(m, o.opts + o.rest) == o <==> (o.rest == [] || !Misses(o.events))
  {
    var o := Scan(m, args);
    if o.rest == [] || !Misses(o.events) {
      if !Ended(m, args) {
        RestPlain(m, args);
      }
      TakenAgain(m, args, o.rest);
    } else {
      MissedTakes(m, args, o.rest);
    }
  }

  /** Such a vector: -a, short of its argument behind x, takes x the second time. */
  lemma ScanTwiceDiffers()
    ensures var m, args := Mode("a:", Permute), ["x", "-a"];
      var o := Scan(m, args);
      && o == Outcome([Missing('a')], ["-a"], ["x"])
      && Scan(m, o.opts + o.rest) == Outcome([Opt('a', Some("x"))], ["-a", "x"], [])
  {
    var m := Mode("a:", Permute);
    assert ["x", "-a"][1..] == ["-a"] && ["-a"][1..] == [] && ["-a", "x"][1..] == ["x"] && ["x"][1..] == [];
    assert "-a"[1..] == "a" && "a"[1..] == "";
    assert KindOf("a:", 'a') == Required;
    assert Scan(m, []) == Outcome([], [], []);
    assert Onward(m, "-a", "", []) == Outcome([], ["-a"], []);
    assert Cluster(m, "-a", "a", []) == Outcome([Missing('a')], ["-a"], []);
    assert Scan(m, ["-a"]) == Outcome([Missing('a')], ["-a"], []);
    assert Cluster(m, "-a", "a", ["x"]) == Outcome([Opt('a', Some("x"))], ["-a", "x"], []);
    assert ["-a"] + ["x"] == ["-a", "x"];
  }

  // ---------- the scan in place ----------

  class Scanner {
    const argv: array<string>
    const mode: Mode
    var optind: nat
    var firstNonopt: nat
    var lastNonopt: nat
    var nextchar: string
    var optarg: Option<string>
    var optopt: char

    ghost predicate Valid()
      reads `optind, `firstNonopt, `lastNonopt, `nextchar, argv
    {
      && 1 <= firstNonopt <= lastNonopt <= optind <= argv.Length
      && (nextchar != "" ==> optind < argv.Length)
      && (mode.ordering != Permute ==> firstNonopt == lastNonopt)
    }

    constructor (argv: array<string>, mode: Mode)
      requires argv.Length >= 1
      ensures this.argv == argv && this.mode == mode && Valid() && nextchar == ""
      ensures optind == 1 && firstNonopt == 1 && lastNonopt == 1
    {
      this.argv, this.mode := argv, mode;
      optind, firstNonopt, lastNonopt, nextchar := 1, 1, 1, "";
      optarg, optopt := None, '?';
    }

    // What is still to come.
    ghost function Left(): Outcome
      requires Valid()
      reads `optind, `firstNonopt, `lastNonopt, `nextchar, argv
    {
      if nextchar == "" then Scan(mode, argv[optind..])
      else Cluster(mode, argv[optind], nextchar, argv[optind + 1..])
    }

    // The options behind the scan, and the non-options between them.
    ghost function Passed(): seq<string>
      requires Valid()
      reads `optind, `firstNonopt, `lastNonopt, `nextchar, argv
    {
      argv[1..firstNonopt] + argv[lastNonopt..optind]
    }

    ghost function Skipped(): seq<string>
      requires Valid()
      reads `optind, `firstNonopt, `lastNonopt, `nextchar, argv
    {
      argv[firstNonopt..lastNonopt]
    }

    // The outcome of the whole scan, but for the reports already made.
    ghost function Whole(): Outcome
      requires Valid()
      reads `optind, `firstNonopt, `lastNonopt, `nextchar, argv
    {
      Outcome(Left().events, Passed() + Left().opts, Skipped() + Left().rest)
    }

    // Options just processed go before the non-options before them.
    method Gather()
      requires Valid()
      modifies this, argv
      ensures 1 <= firstNonopt <= optind <= argv.Length
      ensures optind == old(optind) && nextchar == old(nextchar) && argv[0] == old(argv[0])
      ensures argv[1..firstNonopt] == old(Passed()) && argv[firstNonopt..optind] == old(Skipped())
      ensures argv[optind..] == old(argv[optind..])
    {
      hide Rotated;
      ghost var s := argv[..];
      if firstNonopt != lastNonopt && lastNonopt != optind {
        Exchange(argv, firstNonopt, lastNonopt, optind);
        RotatedParts(s, firstNonopt, lastNonopt, optind);
        firstNonopt := firstNonopt + (optind - lastNonopt);
        lastNonopt := optind;
      } else if lastNonopt != optind {
        firstNonopt := optind;
      }
    }

    // The first element from the scan on that looks like an option.
    method FindOption() returns (end: nat)
      requires Valid() && mode.ordering == Permute
      ensures optind <= end <= argv.Length && (end < argv.Length ==> !NonOption(argv[end]))
      ensures Scan(mode, argv[optind..]) == Leaving(argv[optind..end], Scan(mode, argv[end..]))
    {
      hide Scan, NonOption;
      end := optind;
      while end < argv.Length && NonOption(argv[end])
        invariant optind <= end <= argv.Length
        invariant Scan(mode, argv[optind..]) == Leaving(argv[optind..end], Scan(mode, argv[end..]))
      {
        ScanSkips(mode, argv[end..]);
        assert argv[optind..end + 1] == argv[optind..end] + [argv[end]];
        end := end + 1;
      }
    }

    // The PERMUTE part of the advance: everything skipped is in one range.
    method SkipNonOptions()
      requires Valid() && nextchar == "" && mode.ordering == Permute
      modifies this, argv
      ensures Valid() && nextchar == "" && lastNonopt == optind && argv[0] == old(argv[0])
      ensures Whole() == old(Whole())
      ensures optind < argv.Length ==> !NonOption(argv[optind])
    {
      hide Scan, Cluster, NonOption;
      Gather();
      ghost var start := optind;
      lastNonopt := optind;
      optind := FindOption();
      lastNonopt := optind;
      assert argv[firstNonopt..lastNonopt] == argv[firstNonopt..start] + argv[start..lastNonopt];
      assert argv[lastNonopt..optind] == [];
      Regroup(argv[firstNonopt..start], argv[start..lastNonopt], Left().rest);
    }

    // The element that ends the options.
    method Terminate()
      requires Valid() && nextchar == "" && optind < argv.Length && argv[optind] == "--"
      requires firstNonopt == lastNonopt || lastNonopt == optind
      modifies this, argv
      ensures optind == lastNonopt == argv.Length && 1 <= firstNonopt <= argv.Length
      ensures nextchar == "" && argv[0] == old(argv[0])
      ensures argv[1..firstNonopt] == old(Passed()) + ["--"]
      ensures argv[firstNonopt..] == old(Skipped()) + old(argv[optind + 1..])
    {
      hide Rotated;
      ghost var s := argv[..];
      optind := optind + 1;
      if firstNonopt != lastNonopt && lastNonopt != optind {
        Exchange(argv, firstNonopt, lastNonopt, optind);
        RotatedParts(s, firstNonopt, lastNonopt, optind);
        firstNonopt := firstNonopt + (optind - lastNonopt);
        lastNonopt := optind;
      } else if firstNonopt == lastNonopt {
        firstNonopt := optind;
      }
      assert argv[firstNonopt..] == argv[firstNonopt..optind] + argv[optind..];
      lastNonopt := argv.Length;
      optind := argv.Length;
    }

    // One option character of the current element.
    method Decode() returns (c: char, ghost e: Event)
      requires Valid() && nextchar != "" && NoW(mode.optstring)
      modifies this
      ensures unchanged(`firstNonopt, `lastNonopt)
      ensures e == Step(mode, old(nextchar), argv[old(optind) + 1..])
      ensures optind == old(optind) + Taken(mode, old(nextchar), argv[old(optind) + 1..])
      ensures nextchar == if optind == old(optind) then old(nextchar[1..]) else ""
      ensures c == CodeOf(mode.optstring, e) && Told(e)
      ensures Rule(mode.optstring, old(nextchar), argv[old(optind) + 1..], e, optind - old(optind))
    {
      StepFollows(mode, nextchar, argv[optind + 1..]);
      hide Rule;
      c := nextchar[0];
      nextchar := nextchar[1..];
      var kind := KindOf(mode.optstring, c);
      optarg := None;
      if nextchar == "" {
        optind := optind + 1;
      }
      if kind == Unknown {
        optopt := c;
        return '?', Bad(c);
      }
      if kind == Flag {
        return c, Opt(c, None);
      }
      e := Opt(c, None);
      if nextchar != "" {
        optarg := Some(nextchar);
        e := Opt(c, optarg);
        optind := optind + 1;
      } else if kind == Required {
        if optind == argv.Length {
          optopt := c;
          e := Missing(c);
          c := if mode.optstring[0] == ':' then ':' else '?';
        } else {
          optarg := Some(argv[optind]);
          e := Opt(c, optarg);
          optind := optind + 1;
        }
      }
      nextchar := "";
    }

    // What the caller sees of a report.
    ghost predicate Told(e: Event)
      reads this
    {
      match e
      case Opt(_, arg) => optarg == arg
      case Bad(c) => optarg == None && optopt == c
      case Missing(c) => optarg == None && optopt == c
      case Plain(text) => optarg == Some(text)
    }

    // The end of the scan, when the next element is the terminator or missing.
    method Finish()
      requires Valid() && nextchar == "" && (firstNonopt == lastNonopt || lastNonopt == optind)
      requires optind < argv.Length ==> argv[optind] == "--"
      modifies this, argv
      ensures 1 <= optind <= argv.Length && argv[0] == old(argv[0])
      ensures old(Whole()).events == []
      ensures argv[1..optind] == old(Whole()).opts && argv[optind..] == old(Whole()).rest
    {
      hide KindOf;
      if optind != argv.Length {
        assert argv[optind..][1..] == argv[optind + 1..];
        Terminate();
      } else {
        assert argv[1..firstNonopt] + argv[firstNonopt..optind] == argv[1..optind];
        assert argv[firstNonopt..] == argv[firstNonopt..optind];
      }
      if firstNonopt != lastNonopt {
        optind := firstNonopt;
      }
    }

    // An element that is reported in order.
    method PassBy() returns (ghost e: Event)
      requires Valid() && nextchar == "" && optind < argv.Length && NonOption(argv[optind])
      requires mode.ordering == ReturnInOrder
      modifies this
      ensures Valid() && nextchar == "" && old(Whole()).events == [e] + Whole().events
      ensures Whole().opts == old(Whole()).opts && Whole().rest == old(Whole()).rest
      ensures e == Plain(old(argv[optind])) && Told(e)
    {
      hide KindOf;
      ghost var arg := argv[optind];
      assert argv[optind..] == [arg] + argv[optind + 1..];
      optarg := Some(argv[optind]);
      e := Plain(argv[optind]);
      optind := optind + 1;
      assert argv[lastNonopt..optind] == argv[lastNonopt..optind - 1] + [arg];
      Regroup(argv[1..firstNonopt] + argv[lastNonopt..optind - 1], [arg], Left().opts);
      Regroup(argv[1..firstNonopt], argv[lastNonopt..optind - 1], [arg]);
    }

    // One report from inside an element.
    method Continue() returns (c: char, ghost e: Event)
      requires Valid() && nextchar != "" && NoW(mode.optstring)
      modifies this
      ensures Valid() && old(Whole()).events == [e] + Whole().events
      ensures Whole().opts == old(Whole()).opts && Whole().rest == old(Whole()).rest
      ensures c == CodeOf(mode.optstring, e) && Told(e)
    {
      hide Scan, Cluster, Step, Taken;
      ghost var element, text, args, at := argv[optind], nextchar, argv[optind + 1..], optind;
      ClusterSteps(mode, element, text, args);
      ghost var n := Taken(mode, text, args);
      c, e := Decode();
      if n > 0 {
        ghost var used := ([element] + args)[..n];
        assert argv[lastNonopt..optind] == argv[lastNonopt..at] + used;
        assert args[n - 1..] == argv[optind..];
        Regroup(argv[1..firstNonopt] + argv[lastNonopt..at], used, Left().opts);
        Regroup(argv[1..firstNonopt], argv[lastNonopt..at], used);
      }
    }

    /** _getopt_internal without long options.  Every call makes the next report of
        the scan on paper; when there is none left, the options stand in front and
        the other elements behind optind, each in their order. */
    method Next() returns (more: bool, c: char, ghost e: Event)
      requires Valid() && NoW(mode.optstring)
      modifies this, argv
      ensures argv[0] == old(argv[0])
      ensures more ==> Valid() && old(Whole()).events == [e] + Whole().events
      ensures more ==> Whole().opts == old(Whole()).opts && Whole().rest == old(Whole()).rest
      ensures more ==> c == CodeOf(mode.optstring, e) && Told(e)
      ensures !more ==> 1 <= optind <= argv.Length && old(Whole()).events == []
      ensures !more ==> argv[1..optind] == old(Whole()).opts && argv[optind..] == old(Whole()).rest
    {
      hide Scan, Whole;
      optarg := None;
      c, e := '?', Bad('?');
      if nextchar == "" {
        lastNonopt := Min(lastNonopt, optind);
        firstNonopt := Min(firstNonopt, optind);
        if mode.ordering == Permute {
          SkipNonOptions();
        }
        if optind == argv.Length || argv[optind] == "--" {
          Finish();
          return false, c, e;
        }
        if NonOption(argv[optind]) {
          if mode.ordering == RequireOrder {
            StopHere();
            return false, c, e;
          }
          e := PassBy();
          return true, 1 as char, e;
        }
        Enter();
      }
      c, e := Continue();
      more := true;
    }

    // The initial punctuation of an element is skipped.
    method Enter()
      requires Valid() && nextchar == "" && optind < argv.Length
      requires !NonOption(argv[optind]) && argv[optind] != "--"
      modifies `nextchar
      ensures Valid() && nextchar != "" && Whole() == old(Whole())
    {
      assert argv[optind..][1..] == argv[optind + 1..];
      nextchar := argv[optind][1..];
    }

    lemma StopHere()
      requires Valid() && nextchar == "" && optind < argv.Length && NonOption(argv[optind])
      requires mode.ordering == RequireOrder
      ensures Whole().events == [] && Whole().opts == argv[1..optind] && Whole().rest == argv[optind..]
    {
      assert argv[1..firstNonopt] + argv[firstNonopt..optind] == argv[1..optind];
    }
  }

  lemma RotatedParts(s: seq<string>, first: nat, last: nat, top: nat)
    requires 1 <= first <= last <= top <= |s|
    ensures var r := Rotated(s, first, last, top); var f := first + (top - last);
      && r[0] == s[0] && r[1..f] == s[1..first] + s[last..top] && r[f..top] == s[first..last]
      && r[top..] == s[top..]
  {
  }

  lemma ScanSkips(m: Mode, args: seq<string>)
    requires args != [] && NonOption(args[0]) && m.ordering == Permute
    ensures Scan(m, args) == Leaving([args[0]], Scan(m, args[1..]))
  {
  }

  /** A caller's loop over the whole vector.  Its reports are those of the scan on
      paper; afterwards the options and their arguments come first, and from optind
      on there are exactly the other elements, each in the original order. */
  method ScanAll(argv: array<string>, mode: Mode) returns (codes: seq<char>, optind: nat)
    requires argv.Length >= 1 && NoW(mode.optstring)
    modifies argv
    ensures argv[0] == old(argv[0]) && 1 <= optind <= argv.Length
    ensures var o := Scan(mode, old(argv[1..]));
      && argv[1..optind] == o.opts && argv[optind..] == o.rest
      && |codes| == |o.events| && forall i :: 0 <= i < |codes| ==> codes[i] == CodeOf(mode.optstring, o.events[i])
    ensures var o := Scan(mode, old(argv[1..]));
      forall i :: 0 <= i < |codes| ==> Reported(mode, old(argv[1..]), o.events[i], codes[i])
  {
    hide Scan, CodeOf, Reported;
    var s := new Scanner(argv, mode);
    assert argv[1..1] == [];
    ghost var o := Scan(mode, argv[1..]);
    ghost var seen: seq<Event> := [];
    codes := [];
    var more := true;
    while more
      invariant s.argv == argv && s.mode == mode && argv[0] == old(argv[0])
      invariant more ==> s.Valid() && s.Whole() == o.(events := s.Whole().events) && seen + s.Whole().events == o.events
      invariant !more ==> 1 <= s.optind <= argv.Length && seen == o.events
      invariant !more ==> argv[1..s.optind] == o.opts && argv[s.optind..] == o.rest
      invariant |codes| == |seen| && forall i :: 0 <= i < |codes| ==> codes[i] == CodeOf(mode.optstring, seen[i])
      decreases more, if more then |s.Whole().events| else 0
    {
      var c;
      ghost var e;
      more, c, e := s.Next();
      if more {
        seen := seen + [e];
        codes := codes + [c];
      }
    }
    optind := s.optind;
    forall i | 0 <= i < |codes|
      ensures Reported(mode, old(argv[1..]), o.events[i], codes[i])
    {
      ScanReports(mode, old(argv[1..]), i);
    }
  }
}
