/** Merging one character-style grpprl into another by way of the tree. */
module ChpMerge {
  import opened Sequences
  import opened Wrappers
  import opened Canonical
  import opened BinTree

  // A sprm with its operand; bytes are those of both.
  datatype Prl = Prl(sprm: nat, bytes: seq<Byte>)

  // How many operand bytes follow a sprm, given the bytes from the operand on.
  type Eat = (nat, seq<Byte>) -> nat

  const SPRMS: nat := 0x1_0000

  function Sprm(s: seq<Byte>, at: nat): (k: nat)
    requires at + 2 <= |s|
    ensures k < SPRMS
  {
    var b0: nat, b1: nat := s[at], s[at + 1];
    b0 + 0x100 * b1
  }

  // The cursor behind the prl at a cursor.
  function Next(eat: Eat, s: seq<Byte>, at: nat): (r: nat)
    requires at + 2 <= |s|
    ensures r >= at + 2
  {
    at + 2 + eat(Sprm(s, at), s[at + 2..])
  }

  // The bytes from the cursor on are prls to the very end.
  ghost predicate WellFormed(eat: Eat, s: seq<Byte>, at: nat)
    decreases |s| - at
  {
    at == |s| || (at + 2 <= |s| && Next(eat, s, at) <= |s| && WellFormed(eat, s, Next(eat, s, at)))
  }

  ghost function PrlAt(eat: Eat, s: seq<Byte>, at: nat): Prl
    requires at + 2 <= |s| && Next(eat, s, at) <= |s|
  {
    Prl(Sprm(s, at), s[at..Next(eat, s, at)])
  }

  ghost function Prls(eat: Eat, s: seq<Byte>, at: nat): seq<Prl>
    requires WellFormed(eat, s, at)
    decreases |s| - at
  {
    if at == |s| then [] else [PrlAt(eat, s, at)] + Prls(eat, s, Next(eat, s, at))
  }

  // The first prl with a sprm.
  ghost function Get(ps: seq<Prl>, k: nat): Option<Prl>
    decreases |ps|
  {
    if ps == [] then None else if ps[0].sprm == k then Some(ps[0]) else Get(ps[1..], k)
  }

  ghost function Bytes(ps: seq<Prl>): seq<Byte> {
    if ps == [] then [] else Bytes(ps[..|ps| - 1]) + ps[|ps| - 1].bytes
  }

  ghost predicate Increasing(ps: seq<Prl>) {
    forall i, j :: 0 <= i < j < |ps| ==> ps[i].sprm < ps[j].sprm
  }

  // The bytes of the first prls of all sprms below k.
  ghost function Weight(ps: seq<Prl>, k: nat): nat {
    if k == 0 then 0
    else Weight(ps, k - 1) + match Get(ps, k - 1) case None => 0 case Some(p) => |p.bytes|
  }

  // The bytes of the first prls of all sprms.
  ghost function Size(ps: seq<Prl>): nat {
    Weight(ps, SPRMS)
  }

  /** m is the merge of ps: in order, and for every sprm the first prl of ps. */
  ghost predicate IsMerge(m: seq<Prl>, ps: seq<Prl>) {
    Increasing(m) && forall k: nat :: Get(m, k) == Get(ps, k)
  }

  lemma {:induction false} GetAppend(a: seq<Prl>, b: seq<Prl>, k: nat)
    ensures Get(a + b, k) == if Get(a, k).Some? then Get(a, k) else Get(b, k)
    decreases |a|
  {
    if a == [] {
      assert a + b == b;
    } else {
      assert (a + b)[1..] == a[1..] + b;
      GetAppend(a[1..], b, k);
    }
  }

  lemma {:induction false} GetIs(ps: seq<Prl>, k: nat)
    ensures Get(ps, k).Some? <==> exists i :: 0 <= i < |ps| && ps[i].sprm == k
    ensures Get(ps, k).Some? ==> Get(ps, k).value in ps && Get(ps, k).value.sprm == k
    decreases |ps|
  {
    if ps != [] && ps[0].sprm != k {
      GetIs(ps[1..], k);
      if i :| 0 <= i < |ps| && ps[i].sprm == k {
        assert ps[1..][i - 1].sprm == k;
      }
      if i :| 0 <= i < |ps[1..]| && ps[1..][i].sprm == k {
        assert ps[i + 1].sprm == k;
      }
    }
  }

  /** A merge is determined by what is merged. */
  lemma {:induction false} MergeUnique(m: seq<Prl>, m': seq<Prl>)
    requires Increasing(m) && Increasing(m') && forall k: nat :: Get(m, k) == Get(m', k)
    ensures m == m'
    decreases |m|
  {
    if m == [] {
      assert m' != [] ==> Get(m', m'[0].sprm) == Get(m, m'[0].sprm);
    } else {
      assert Get(m, m[0].sprm) == Get(m', m[0].sprm);
      GetIs(m', m[0].sprm);
      assert Get(m, m'[0].sprm) == Get(m', m'[0].sprm);
      GetIs(m, m'[0].sprm);
      assert m[0] == m'[0];
      forall k: nat
        ensures Get(m[1..], k) == Get(m'[1..], k)
      {
        assert Get(m, k) == Get(m', k);
        GetIs(m[1..], k);
        GetIs(m'[1..], k);
      }
      MergeUnique(m[1..], m'[1..]);
      assert m == [m[0]] + m[1..] && m' == [m'[0]] + m'[1..];
    }
  }

  // ---------- what the code does with equal sprms ----------

  /** On a sprm of both inputs the entry of the destination stays. */
  lemma DestinationWins(dest: seq<Prl>, src: seq<Prl>, m: seq<Prl>, k: nat)
    requires IsMerge(m, dest + src)
    ensures Get(m, k) == if Get(dest, k).Some? then Get(dest, k) else Get(src, k)
  {
    GetAppend(dest, src, k);
  }

  /** The entries of the source replace those of the destination, as the comment
      above the code has it, exactly when the inputs agree on every sprm of both. */
  lemma SourceReplacesIff(dest: seq<Prl>, src: seq<Prl>, m: seq<Prl>)
    requires IsMerge(m, dest + src)
    ensures (forall k: nat :: Get(m, k) == if Get(src, k).Some? then Get(src, k) else Get(dest, k))
      <==> (forall k: nat :: Get(dest, k).Some? && Get(src, k).Some? ==> Get(dest, k) == Get(src, k))
  {
    forall k: nat
      ensures Get(m, k) == if Get(dest, k).Some? then Get(dest, k) else Get(src, k)
    {
      DestinationWins(dest, src, m, k);
    }
  }

  lemma OnePrl(eat: Eat, s: seq<Byte>, operand: Byte)
    requires s == [0x35, 0x08, operand] && forall k: nat, r: seq<Byte> :: eat(k, r) == 1
    ensures WellFormed(eat, s, 0) && Prls(eat, s, 0) == [Prl(0x835, s)]
  {
    assert Sprm(s, 0) == 0x835 && Next(eat, s, 0) == 3 && s[0..3] == s;
    assert Prls(eat, s, 3) == [];
  }

  /** One sprm in both grpprls, with operands 0 and 1: the merge is the destination,
      not the source. */
  lemma NotReplaced(eat: Eat, dest: seq<Byte>, src: seq<Byte>, m: seq<Prl>)
    requires dest == [0x35, 0x08, 0] && src == [0x35, 0x08, 1] && forall k: nat, s: seq<Byte> :: eat(k, s) == 1
    ensures WellFormed(eat, dest, 0) && WellFormed(eat, src, 0)
    ensures IsMerge(m, Prls(eat, dest, 0) + Prls(eat, src, 0)) <==> m == Prls(eat, dest, 0)
    ensures Prls(eat, dest, 0) == [Prl(0x835, dest)] != Prls(eat, src, 0) == [Prl(0x835, src)]
  {
    hide WellFormed, Prls;
    OnePrl(eat, dest, 0);
    OnePrl(eat, src, 1);
    var d, both := [Prl(0x835, dest)], [Prl(0x835, dest)] + [Prl(0x835, src)];
    forall k: nat
      ensures Get(d, k) == Get(both, k)
    {
      GetAppend(d, [Prl(0x835, src)], k);
      assert d[1..] == [];
    }
    if IsMerge(m, both) {
      MergeUnique(m, d);
    }
  }

  // ---------- sizes ----------

  lemma {:induction false} WeightAdd(ps: seq<Prl>, p: Prl, k: nat)
    ensures Weight(ps + [p], k) ==
      Weight(ps, k) + if Get(ps, p.sprm).None? && p.sprm < k then |p.bytes| else 0
  {
    if k > 0 {
      WeightAdd(ps, p, k - 1);
      GetAppend(ps, [p], k - 1);
    }
  }

  lemma {:induction false} WeightWithin(m: seq<Prl>, ps: seq<Prl>, k: nat)
    requires forall j: nat :: Get(m, j).Some? ==> Get(m, j) == Get(ps, j)
    ensures Weight(m, k) <= Weight(ps, k)
    ensures (forall j: nat :: Get(m, j) == Get(ps, j)) ==> Weight(m, k) == Weight(ps, k)
  {
    if k > 0 {
      WeightWithin(m, ps, k - 1);
    }
  }

  lemma {:induction false} WeightOfNone(k: nat)
    ensures Weight([], k) == 0
  {
    if k > 0 {
      WeightOfNone(k - 1);
    }
  }

  // A strictly increasing grpprl weighs what it measures.
  lemma {:induction false} WeightIsLength(m: seq<Prl>)
    requires Increasing(m) && forall i :: 0 <= i < |m| ==> m[i].sprm < SPRMS
    ensures |Bytes(m)| == Weight(m, SPRMS)
    decreases |m|
  {
    if m == [] {
      WeightOfNone(SPRMS);
    } else {
      var n := |m| - 1;
      WeightIsLength(m[..n]);
      WeightAdd(m[..n], m[n], SPRMS);
      GetIs(m[..n], m[n].sprm);
      assert m == m[..n] + [m[n]];
    }
  }

  lemma SizeAdd(ps: seq<Prl>, p: Prl)
    requires p.sprm < SPRMS
    ensures Size(ps + [p]) == Size(ps) + if Get(ps, p.sprm).None? then |p.bytes| else 0
  {
    WeightAdd(ps, p, SPRMS);
  }

  // ---------- the tree ----------

  // A pointer into a buffer, and the sprm it points at.
  datatype Pointer = Pointer(buf: seq<Byte>, at: nat)

  function SprmOf(p: Pointer): int {
    if p.at + 2 <= |p.buf| then Sprm(p.buf, p.at) else 0
  }

  ghost predicate PointsAt(eat: Eat, p: Pointer, q: Prl) {
    p.at + 2 <= |p.buf| && Next(eat, p.buf, p.at) <= |p.buf| && PrlAt(eat, p.buf, p.at) == q
  }

  // Each node points at the first prl of its sprm.
  ghost predicate Points(nodes: set<Node<Pointer>>, eat: Eat, ps: seq<Prl>) {
    forall n :: n in nodes ==>
      SprmOf(n.data) >= 0 && Get(ps, SprmOf(n.data)).Some? && PointsAt(eat, n.data, Get(ps, SprmOf(n.data)).value)
  }

  // Every sprm has its node.
  ghost predicate Covers(nodes: set<Node<Pointer>>, ps: seq<Prl>) {
    forall k: nat :: Get(ps, k).Some? ==> HasSprm(nodes, k)
  }

  ghost predicate HasSprm(nodes: set<Node<Pointer>>, k: int) {
    exists n :: n in nodes && SprmOf(n.data) == k
  }

  // The tree holds the first prls of all sprms.
  ghost predicate Holds(t: Tree<Pointer>, eat: Eat, ps: seq<Prl>)
    reads t, t.nodes
  {
    t.Valid() && t.key == SprmOf && Points(t.nodes, eat, ps) && Covers(t.nodes, ps)
  }

  lemma Known(t: Tree<Pointer>, eat: Eat, ps: seq<Prl>, k: nat)
    requires t.key == SprmOf && Points(t.nodes, eat, ps) && Covers(t.nodes, ps)
    ensures t.Has(k) <==> Get(ps, k).Some?
  {
    if n :| n in t.nodes && t.K(n) == k {
      assert SprmOf(n.data) == k;
    }
    if Get(ps, k).Some? {
      var n :| n in t.nodes && SprmOf(n.data) == k;
      assert t.K(n) == k;
    }
  }

  // The length is kept in one byte.
  function U8(n: nat): nat {
    n % 256
  }

  lemma CountOne(w: nat, w': nat, len: nat, more: nat, isNew: bool)
    requires len == U8(w) && w' == w + if isNew then more else 0
    ensures U8(w') == if isNew then U8(len + more) else len
  {
  }

  // What an insertion does to the pointers: a new sprm gets its node.
  lemma Added(eat: Eat, ps: seq<Prl>, p: Prl, nodes: set<Node<Pointer>>, r: Node?<Pointer>)
    requires Points(nodes, eat, ps) && Covers(nodes, ps)
    requires Get(ps, p.sprm).None? ==> r != null && SprmOf(r.data) == p.sprm && PointsAt(eat, r.data, p)
    ensures var nodes' := if Get(ps, p.sprm).Some? || r == null then nodes else nodes + {r};
      Points(nodes', eat, ps + [p]) && Covers(nodes', ps + [p])
  {
    hide PointsAt, SprmOf, Points, Covers;
    forall k: nat
      ensures Get(ps + [p], k) == if Get(ps, k).Some? then Get(ps, k) else if k == p.sprm then Some(p) else None
    {
      GetAppend(ps, [p], k);
      GetIs([p], k);
    }
    AddedPoints(eat, ps, p, nodes, r);
    AddedCovers(eat, ps, p, nodes, r);
  }

  lemma AddedPoints(eat: Eat, ps: seq<Prl>, p: Prl, nodes: set<Node<Pointer>>, r: Node?<Pointer>)
    requires Points(nodes, eat, ps)
    requires Get(ps, p.sprm).None? ==> r != null && SprmOf(r.data) == p.sprm && PointsAt(eat, r.data, p)
    requires forall k: nat ::
      Get(ps + [p], k) == if Get(ps, k).Some? then Get(ps, k) else if k == p.sprm then Some(p) else None
    ensures Points(if Get(ps, p.sprm).Some? || r == null then nodes else nodes + {r}, eat, ps + [p])
  {
    hide PointsAt, SprmOf;
  }

  lemma AddedCovers(eat: Eat, ps: seq<Prl>, p: Prl, nodes: set<Node<Pointer>>, r: Node?<Pointer>)
    requires Covers(nodes, ps)
    requires Get(ps, p.sprm).None? ==> r != null && SprmOf(r.data) == p.sprm
    requires forall k: nat ::
      Get(ps + [p], k) == if Get(ps, k).Some? then Get(ps, k) else if k == p.sprm then Some(p) else None
    ensures Covers(if Get(ps, p.sprm).Some? || r == null then nodes else nodes + {r}, ps + [p])
  {
    hide SprmOf;
    var nodes' := if Get(ps, p.sprm).Some? || r == null then nodes else nodes + {r};
    forall k: nat | Get(ps + [p], k).Some?
      ensures HasSprm(nodes', k)
    {
      if Get(ps, k).Some? {
        var n :| n in nodes && SprmOf(n.data) == k;
        assert n in nodes';
      } else {
        assert r in nodes';
      }
    }
  }

  // One prl into the tree; the length counts it only when its sprm is new.
  method Insert(t: Tree<Pointer>, eat: Eat, s: seq<Byte>, at: nat, len: nat, ghost ps: seq<Prl>)
    returns (len': nat)
    requires Holds(t, eat, ps) && len == U8(Size(ps))
    requires at + 2 <= |s| && Next(eat, s, at) <= |s|
    modifies t, t.nodes
    ensures Holds(t, eat, ps + [PrlAt(eat, s, at)]) && fresh(t.nodes - old(t.nodes))
    ensures len' == U8(Size(ps + [PrlAt(eat, s, at)]))
  {
    hide Size, Get, U8, Points, Covers, Tree.Shape;
    ghost var p := PrlAt(eat, s, at);
    ghost var nodes := t.nodes;
    SizeAdd(ps, p);
    Known(t, eat, ps, p.sprm);
    var test := t.InsertNode(Pointer(s, at));
    assert Get(ps, p.sprm).None? ==> PointsAt(eat, test.data, p);
    Added(eat, ps, p, nodes, test);
    var temp := eat(Sprm(s, at), s[at + 2..]);
    assert |p.bytes| == temp + 2;
    CountOne(Size(ps), Size(ps + [p]), len, temp + 2, test != null);
    len' := len;
    if test != null {
      len' := U8(len + (temp + 2));
    }
  }

  // All prls of a buffer into the tree.
  method InsertAll(t: Tree<Pointer>, eat: Eat, s: seq<Byte>, len: nat, ghost ps: seq<Prl>) returns (len': nat)
    requires Holds(t, eat, ps) && len == U8(Size(ps)) && WellFormed(eat, s, 0)
    modifies t, t.nodes
    ensures Holds(t, eat, ps + Prls(eat, s, 0)) && fresh(t.nodes - old(t.nodes))
    ensures len' == U8(Size(ps + Prls(eat, s, 0)))
  {
    hide Size, Get, U8, Holds;
    var i := 0;
    len' := len;
    ghost var done := ps;
    assert ps + Prls(eat, s, 0) == done + Prls(eat, s, 0);
    while i < |s|
      invariant i <= |s| && WellFormed(eat, s, i)
      invariant done + Prls(eat, s, i) == ps + Prls(eat, s, 0)
      invariant Holds(t, eat, done) && fresh(t.nodes - old(t.nodes))
      invariant len' == U8(Size(done))
      decreases |s| - i
    {
      len' := Insert(t, eat, s, i, len', done);
      done := done + [PrlAt(eat, s, i)];
      i := Next(eat, s, i);
    }
    assert done == ps + Prls(eat, s, 0);
  }

  // ---------- taking the prls out in order ----------

  // m holds the prls taken out, nodes those still in the tree.
  ghost predicate Taken(m: seq<Prl>, nodes: set<Node<Pointer>>, ps: seq<Prl>) {
    && Increasing(m)
    && (forall i :: 0 <= i < |m| ==> m[i].sprm < SPRMS)
    && (forall i, n :: 0 <= i < |m| && n in nodes ==> m[i].sprm < SprmOf(n.data))
    && (forall k: nat :: Get(m, k) == if HasSprm(nodes, k) then None else Get(ps, k))
  }

  lemma TakenNone(nodes: set<Node<Pointer>>, eat: Eat, ps: seq<Prl>)
    requires Covers(nodes, ps)
    ensures Taken([], nodes, ps)
  {
  }

  // Taking out the least.
  lemma TakeLeast(m: seq<Prl>, nodes: set<Node<Pointer>>, eat: Eat, ps: seq<Prl>, least: Node<Pointer>)
    requires Taken(m, nodes, ps) && Points(nodes, eat, ps) && least in nodes
    requires forall n :: n in nodes && n != least ==> SprmOf(least.data) < SprmOf(n.data)
    ensures SprmOf(least.data) >= 0 && Get(ps, SprmOf(least.data)).Some?
    ensures var p := Get(ps, SprmOf(least.data)).value;
      p.sprm == SprmOf(least.data) && PointsAt(eat, least.data, p) && Taken(m + [p], nodes - {least}, ps)
  {
    hide PointsAt, SprmOf;
    var k0 := SprmOf(least.data);
    GetIs(ps, k0);
    var p := Get(ps, k0).value;
    forall k: nat
      ensures Get(m + [p], k) == if HasSprm(nodes - {least}, k) then None else Get(ps, k)
    {
      GetAppend(m, [p], k);
      GetIs([p], k);
      TakeSprm(nodes, least, k);
    }
    SprmBelow(least.data);
  }

  lemma SprmBelow(p: Pointer)
    ensures SprmOf(p) < SPRMS
  {
  }

  lemma TakeSprm(nodes: set<Node<Pointer>>, least: Node<Pointer>, k: int)
    requires least in nodes
    requires forall n :: n in nodes && n != least ==> SprmOf(least.data) < SprmOf(n.data)
    ensures HasSprm(nodes - {least}, k) <==> HasSprm(nodes, k) && k != SprmOf(least.data)
  {
    hide SprmOf;
    if HasSprm(nodes, k) && k != SprmOf(least.data) {
      var n :| n in nodes && SprmOf(n.data) == k;
      assert n in nodes - {least};
    }
  }

  // What is taken out fits the buffer.
  lemma TakenFits(m: seq<Prl>, nodes: set<Node<Pointer>>, ps: seq<Prl>)
    requires Taken(m, nodes, ps)
    ensures |Bytes(m)| <= Size(ps)
    ensures nodes == {} ==> |Bytes(m)| == Size(ps) && IsMerge(m, ps)
  {
    WeightIsLength(m);
    WeightWithin(m, ps, SPRMS);
  }

  // The prl at a pointer, byte by byte.
  method CopyPrl(eat: Eat, p: Pointer, out: array<Byte>, d: nat) returns (d': nat)
    requires p.at + 2 <= |p.buf| && Next(eat, p.buf, p.at) <= |p.buf|
    requires d + |PrlAt(eat, p.buf, p.at).bytes| <= out.Length
    modifies out
    ensures d' <= out.Length && out[..d'] == old(out[..d]) + PrlAt(eat, p.buf, p.at).bytes
  {
    var i := eat(Sprm(p.buf, p.at), p.buf[p.at + 2..]);
    var pointer := p.at;
    d' := d;
    for j := 0 to i + 2
      invariant pointer == p.at + j && d' == d + j
      invariant out[..d'] == old(out[..d]) + p.buf[p.at..pointer]
    {
      out[d'] := p.buf[pointer];
      assert out[..d' + 1] == out[..d'] + [p.buf[pointer]];
      d', pointer := d' + 1, pointer + 1;
    }
  }

  // Copying the least prl behind those already taken out.
  method CopyLeast(t: Tree<Pointer>, eat: Eat, testn: Node<Pointer>, out: array<Byte>, d: nat,
                   ghost m: seq<Prl>, ghost ps: seq<Prl>) returns (d': nat, ghost p: Prl)
    requires t.Valid() && t.key == SprmOf && Points(t.nodes, eat, ps) && t.IsNext(null, testn)
    requires Taken(m, t.nodes, ps) && d <= out.Length == Size(ps) && out[..d] == Bytes(m)
    modifies out
    ensures Taken(m + [p], t.nodes - {testn}, ps) && d' <= out.Length && out[..d'] == Bytes(m + [p])
  {
    hide Size, Points, Taken, PointsAt, Bytes, Next, PrlAt, SprmOf, Get, Tree.Shape;
    Least(t, testn);
    TakeLeast(m, t.nodes, eat, ps, testn);
    p := Get(ps, SprmOf(testn.data)).value;
    TakenFits(m + [p], t.nodes - {testn}, ps);
    TakeFrom(m, eat, testn.data, p);
    d' := CopyPrl(eat, testn.data, out, d);
  }

  method Drain(t: Tree<Pointer>, eat: Eat, out: array<Byte>, ghost ps: seq<Prl>) returns (ghost m: seq<Prl>)
    requires Holds(t, eat, ps) && out.Length == Size(ps)
    modifies t, t.nodes, out
    ensures IsMerge(m, ps) && out[..] == Bytes(m)
  {
    hide Size, Points, Covers, Taken, IsMerge, Bytes, Tree.Shape;
    var d: nat := 0;
    m := [];
    TakenNone(t.nodes, eat, ps);
    NoBytes();
    var testn := t.NextNode(null);
    while testn != null
      invariant t.Valid() && t.key == SprmOf && Points(t.nodes, eat, ps) && t.nodes <= old(t.nodes)
      invariant Taken(m, t.nodes, ps) && t.IsNext(null, testn)
      invariant d <= out.Length && out[..d] == Bytes(m)
      decreases |t.nodes|
    {
      ghost var p;
      d, p := CopyLeast(t, eat, testn, out, d, m, ps);
      var testp := t.NextNode(testn);
      StillNext(t, testn, testp);
      FewerPoints(t.nodes, testn, eat, ps);
      t.DeleteNode(testn);
      m, testn := m + [p], testp;
    }
    assert t.nodes == {};
    TakenFits(m, t.nodes, ps);
    assert out[..d] == out[..];
  }

  lemma NoBytes()
    ensures Bytes([]) == []
  {
  }

  lemma Least(t: Tree<Pointer>, n: Node<Pointer>)
    requires t.Valid() && t.key == SprmOf && t.IsNext(null, n)
    ensures forall m :: m in t.nodes && m != n ==> SprmOf(n.data) < SprmOf(m.data)
  {
    forall m | m in t.nodes && m != n
      ensures SprmOf(n.data) < SprmOf(m.data)
    {
      assert t.Differ(n, m) && t.K(n) <= t.K(m);
    }
  }

  lemma TakeFrom(m: seq<Prl>, eat: Eat, at: Pointer, p: Prl)
    requires PointsAt(eat, at, p)
    ensures at.at + 2 <= |at.buf| && Next(eat, at.buf, at.at) <= |at.buf|
    ensures PrlAt(eat, at.buf, at.at) == p && Bytes(m + [p]) == Bytes(m) + p.bytes
  {
    assert (m + [p])[..|m|] == m;
  }

  // The next of the least is the least of the others.
  lemma StillNext(t: Tree<Pointer>, n: Node<Pointer>, next: Node?<Pointer>)
    requires t.Valid() && t.key == SprmOf && t.IsNext(null, n) && t.IsNext(n, next)
    ensures next != n && (next != null ==> next in t.nodes)
    ensures forall y :: y in t.nodes && y != n ==> next != null && SprmOf(next.data) <= SprmOf(y.data)
  {
    Least(t, n);
    forall y | y in t.nodes && y != n
      ensures next != null && SprmOf(next.data) <= SprmOf(y.data)
    {
      assert t.Below(n, t.K(y));
    }
  }

  lemma FewerPoints(nodes: set<Node<Pointer>>, n: Node<Pointer>, eat: Eat, ps: seq<Prl>)
    requires Points(nodes, eat, ps)
    ensures Points(nodes - {n}, eat, ps)
  {
  }

  // ---------- the merge ----------

  lemma {:induction false} PrlsLong(eat: Eat, s: seq<Byte>, at: nat)
    requires WellFormed(eat, s, at)
    ensures forall p :: p in Prls(eat, s, at) ==> |p.bytes| >= 2 && p.sprm < SPRMS
    decreases |s| - at
  {
    if at != |s| {
      PrlsLong(eat, s, Next(eat, s, at));
    }
  }

  lemma {:induction false} WeightAtLeast(ps: seq<Prl>, k: nat, j: nat)
    requires j < k && Get(ps, j).Some?
    ensures Weight(ps, k) >= |Get(ps, j).value.bytes|
  {
    if j < k - 1 {
      WeightAtLeast(ps, k - 1, j);
    }
  }

  // Only nothing at all measures nothing.
  lemma SizeZero(ps: seq<Prl>)
    requires forall p :: p in ps ==> |p.bytes| >= 2 && p.sprm < SPRMS
    requires Size(ps) == 0
    ensures ps == []
  {
    if ps != [] {
      WeightAtLeast(ps, SPRMS, ps[0].sprm);
    }
  }

  class Chpx {
    var grpprl: array<Byte>

    constructor (grpprl: array<Byte>)
      ensures this.grpprl == grpprl
    {
      this.grpprl := grpprl;
    }

    /** wvMergeCHPXFromBucket, for a merge of at most 255 bytes: the grpprl becomes
        the merge of its prls and those of the source, their bytes unchanged. */
    method MergeFrom(src: seq<Byte>, eat: Eat) returns (ghost m: seq<Prl>)
      requires WellFormed(eat, grpprl[..], 0) && WellFormed(eat, src, 0)
      requires Size(Prls(eat, grpprl[..], 0) + Prls(eat, src, 0)) <= 255
      modifies this
      ensures IsMerge(m, old(Prls(eat, grpprl[..], 0)) + Prls(eat, src, 0))
      ensures grpprl[..] == Bytes(m)
      ensures grpprl == old(grpprl) || fresh(grpprl)
    {
      hide Size, Prls, Points, Covers, IsMerge, Weight, Bytes;
      ghost var ps := Prls(eat, grpprl[..], 0);
      ghost var qs := Prls(eat, src, 0);
      Start(eat);
      var t := new Tree(SprmOf);
      var len := InsertAll(t, eat, grpprl[..], 0, []);
      assert [] + ps == ps;
      len := InsertAll(t, eat, src, len, ps);
      assert len == Size(ps + qs);
      if len == 0 {
        PrlsLong(eat, grpprl[..], 0);
        PrlsLong(eat, src, 0);
        SizeZero(ps + qs);
        m := [];
        NothingMerged(eat, grpprl[..], src);
        return;
      }
      var out := new Byte[len];
      m := Drain(t, eat, out, ps + qs);
      grpprl := out;
    }
  }

  lemma Start(eat: Eat)
    ensures Size([]) == 0 && Points({}, eat, []) && Covers({}, [])
  {
    WeightOfNone(SPRMS);
  }

  lemma NothingMerged(eat: Eat, dest: seq<Byte>, src: seq<Byte>)
    requires WellFormed(eat, dest, 0) && WellFormed(eat, src, 0)
    requires Prls(eat, dest, 0) + Prls(eat, src, 0) == []
    ensures dest == Bytes([]) && IsMerge([], Prls(eat, dest, 0) + Prls(eat, src, 0))
  {
    assert |Prls(eat, dest, 0)| == 0;
  }

  // ---------- reading the result ----------

  // The operand length depends on the operand alone.
  ghost predicate Local(eat: Eat) {
    forall k: nat, a: seq<Byte>, b: seq<Byte>, c: seq<Byte> {:trigger eat(k, a + b), eat(k, a + c)} ::
      eat(k, a + b) == |a| ==> eat(k, a + c) == |a|
  }

  ghost predicate Whole(eat: Eat, p: Prl) {
    |p.bytes| >= 2 && Sprm(p.bytes, 0) == p.sprm && eat(p.sprm, p.bytes[2..] + []) == |p.bytes[2..]|
  }

  lemma {:induction false} PrlsWhole(eat: Eat, s: seq<Byte>, at: nat)
    requires WellFormed(eat, s, at) && Local(eat)
    ensures forall p :: p in Prls(eat, s, at) ==> Whole(eat, p)
    decreases |s| - at
  {
    if at != |s| {
      var next := Next(eat, s, at);
      PrlsWhole(eat, s, next);
      var p := PrlAt(eat, s, at);
      var operand := p.bytes[2..];
      assert s[at + 2..] == operand + s[next..];
      assert eat(p.sprm, operand + s[next..]) == |operand|;
      assert eat(p.sprm, operand + []) == |operand|;
      assert Whole(eat, p);
    }
  }

  lemma {:induction false} BytesHead(m: seq<Prl>)
    requires m != []
    ensures Bytes(m) == m[0].bytes + Bytes(m[1..])
    decreases |m|
  {
    var n := |m| - 1;
    if n == 0 {
      assert m[..0] == [] && m[1..] == [];
    } else {
      var init, tail := m[..n], m[1..];
      BytesHead(init);
      assert init[1..] == tail[..n - 1] && tail[n - 1] == m[n];
      assert Bytes(tail) == Bytes(init[1..]) + m[n].bytes;
      Regroup(m[0].bytes, Bytes(init[1..]), m[n].bytes);
    }
  }

  lemma ReadOne(eat: Eat, pre: seq<Byte>, p: Prl, rest: seq<Byte>)
    requires Local(eat) && Whole(eat, p)
    ensures var s := (pre + p.bytes) + rest;
      Next(eat, s, |pre|) == |pre + p.bytes| && PrlAt(eat, s, |pre|) == p
  {
    var s := (pre + p.bytes) + rest;
    var operand := p.bytes[2..];
    assert s[|pre| + 2..] == operand + rest;
    assert eat(p.sprm, operand + []) == |operand|;
    assert eat(p.sprm, operand + rest) == |operand|;
    assert s[|pre|] == p.bytes[0] && s[|pre| + 1] == p.bytes[1];
    assert s[|pre|..|pre + p.bytes|] == p.bytes;
  }

  lemma {:induction false} ReadAt(eat: Eat, pre: seq<Byte>, m: seq<Prl>)
    requires Local(eat) && forall p :: p in m ==> Whole(eat, p)
    ensures WellFormed(eat, pre + Bytes(m), |pre|) && Prls(eat, pre + Bytes(m), |pre|) == m
    decreases |m|
  {
    hide Local, Whole, Next, PrlAt;
    if m == [] {
      NoBytes();
    } else {
      BytesHead(m);
      Regroup(pre, m[0].bytes, Bytes(m[1..]));
      ReadAt(eat, pre + m[0].bytes, m[1..]);
      ReadOne(eat, pre, m[0], Bytes(m[1..]));
      assert m == [m[0]] + m[1..];
    }
  }

  lemma MergeFromInputs(m: seq<Prl>, ps: seq<Prl>)
    requires IsMerge(m, ps)
    ensures forall p :: p in m ==> p in ps
  {
    forall p | p in m
      ensures p in ps
    {
      var i :| 0 <= i < |m| && m[i] == p;
      GetIs(m, p.sprm);
      GetIs(ps, p.sprm);
      assert Get(m, p.sprm) == Get(ps, p.sprm);
      assert Get(m, p.sprm).value == p;
    }
  }

  /** The merged grpprl is read back as exactly the merge: strictly increasing
      sprms, those of either input, each with its operand. */
  lemma ReadMerged(eat: Eat, dest: seq<Byte>, src: seq<Byte>, m: seq<Prl>)
    requires Local(eat) && WellFormed(eat, dest, 0) && WellFormed(eat, src, 0)
    requires IsMerge(m, Prls(eat, dest, 0) + Prls(eat, src, 0))
    ensures WellFormed(eat, Bytes(m), 0) && Prls(eat, Bytes(m), 0) == m
  {
    PrlsWhole(eat, dest, 0);
    PrlsWhole(eat, src, 0);
    MergeFromInputs(m, Prls(eat, dest, 0) + Prls(eat, src, 0));
    ReadAt(eat, [], m);
    assert [] + Bytes(m) == Bytes(m);
  }

  // ---------- what is merged, byte by byte ----------

  lemma NextIs(eat: Eat, s: seq<Byte>, at: nat)
    requires at + 2 <= |s|
    ensures var low: nat, high: nat := s[at], s[at + 1];
      Next(eat, s, at) == at + 2 + eat(low + 256 * high, s[at + 2..]) && Sprm(s, at) == low + 256 * high
  {
  }

  /** The prls of a grpprl lie one behind the other: a sprm of two bytes, the low-order
      byte first, and as many bytes of operand as that sprm has there. */
  lemma {:induction false} PrlIs(eat: Eat, s: seq<Byte>, at: nat, j: nat)
    requires WellFormed(eat, s, at) && j < |Prls(eat, s, at)|
    ensures var ps := Prls(eat, s, at);
      var q, p := at + |Bytes(ps[..j])|, ps[j];
      && q + 2 <= |s| && (var low: nat, high: nat := s[q], s[q + 1]; p.sprm == low + 256 * high)
      && |p.bytes| == 2 + eat(p.sprm, s[q + 2..]) && q + |p.bytes| <= |s| && p.bytes == s[q..q + |p.bytes|]
    decreases j
  {
    hide Bytes, Next;
    var ps := Prls(eat, s, at);
    NoBytes();
    if j == 0 {
      assert ps[..0] == [];
      NextIs(eat, s, at);
    } else {
      PrlIs(eat, s, Next(eat, s, at), j - 1);
      BytesHead(ps[..j]);
      assert ps[..j][1..] == ps[1..][..j - 1];
    }
  }

  lemma {:induction false} PrlsFill(eat: Eat, s: seq<Byte>, at: nat)
    requires WellFormed(eat, s, at)
    ensures Bytes(Prls(eat, s, at)) == s[at..]
    decreases |s| - at
  {
    hide Bytes;
    NoBytes();
    if at != |s| {
      var next := Next(eat, s, at);
      PrlsFill(eat, s, next);
      BytesHead(Prls(eat, s, at));
      assert s[at..] == s[at..next] + s[next..];
    }
  }

  // The first prl with its sprm.
  ghost predicate First(ps: seq<Prl>, i: nat) {
    i < |ps| && forall j :: 0 <= j < i ==> ps[j].sprm != ps[i].sprm
  }

  lemma {:induction false} GetIsFirst(ps: seq<Prl>, i: nat)
    requires First(ps, i)
    ensures Get(ps, ps[i].sprm) == Some(ps[i])
    decreases i
  {
    if i > 0 {
      assert First(ps[1..], i - 1);
      GetIsFirst(ps[1..], i - 1);
    }
  }

  /** The merge holds exactly the prls that are the first with their sprm, in the order
      of the sprms. */
  lemma MergedAreFirst(m: seq<Prl>, ps: seq<Prl>)
    requires IsMerge(m, ps)
    ensures forall i, j :: 0 <= i < j < |m| ==> m[i].sprm < m[j].sprm
    ensures forall i: nat :: First(ps, i) ==> ps[i] in m
    ensures forall p :: p in m ==> exists i: nat :: First(ps, i) && ps[i] == p
  {
    forall i: nat | First(ps, i)
      ensures ps[i] in m
    {
      GetIsFirst(ps, i);
      GetIs(m, ps[i].sprm);
    }
    forall p | p in m
      ensures exists i: nat :: First(ps, i) && ps[i] == p
    {
      MergeFromInputs(m, ps);
      var i := FirstWith(ps, p.sprm);
      GetIsFirst(ps, i);
      var j :| 0 <= j < |m| && m[j] == p;
      assert First(m, j);
      GetIsFirst(m, j);
    }
  }

  lemma {:induction false} FirstWith(ps: seq<Prl>, k: nat) returns (i: nat)
    requires exists p :: p in ps && p.sprm == k
    ensures First(ps, i) && ps[i].sprm == k
    decreases |ps|
  {
    if ps[0].sprm == k {
      i := 0;
    } else {
      i := FirstWith(ps[1..], k);
      i := i + 1;
    }
  }
}
