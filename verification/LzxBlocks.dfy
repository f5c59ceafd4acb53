/** Whole runs and blocks as they are sent: the steps of the interpreter on them, why it
    stops, and where a stream begins. */
module LzxBlocks {
  import opened Wrappers
  import opened BitReader
  import opened Canonical
  import E8
  import opened Lz77
  import opened Tokens
  import opened BlockHeader
  import opened Iteration
  import opened Reference
  import opened Lzx
  import opened LzxWriter

  // ---------- runs ----------

  ghost predicate RunSendable(kind: BlockType, c: Codes, ps: seq<Sent>) {
    forall k :: 0 <= k < |ps| ==> Sendable(kind, c, ps[k])
  }

  ghost function RunDigits(kind: BlockType, c: Codes, ps: seq<Sent>): seq<nat>
    requires RunSendable(kind, c, ps)
    decreases |ps|
  {
    if ps == [] then [] else SentDigits(kind, c, ps[0]) + RunDigits(kind, c, ps[1..])
  }

  // The bytes a literal or match makes.
  function Size(p: Sent): nat {
    match p
    case One(_) => 1
    case Again(_, length) => length
    case Back(_, length, _) => length
  }

  // What carrying out the pieces in turn makes of a state.
  function RunEnd(c: Config, ps: seq<Sent>, size: nat): Config
    requires 0 < size <= |c.hist|
    decreases |ps|
  {
    if ps == [] then c else RunEnd(Produce(c, PieceSent(ps[0]), size), ps[1..], size)
  }

  // Each begins within the run, and none ends decoding.
  ghost predicate RunGoes(c: Config, ps: seq<Sent>, size: nat)
    requires 0 < size <= |c.hist|
    decreases |ps|
  {
    ps == [] ||
    (var d := Produce(c, PieceSent(ps[0]), size); 0 < c.left && d.verdict.None? && RunGoes(d, ps[1..], size))
  }

  lemma {:induction false} IterateShift<C>(f: C -> C, c: C, n: nat)
    ensures Iterate(f, f(c), n) == Iterate(f, c, n + 1)
  {
    if n > 0 {
      IterateShift(f, c, n - 1);
    }
  }

  lemma OneSent(i: Input, c: Config, p: Sent, size: nat)
    requires i.Valid() && c.Valid(size) && c.verdict.None? && 0 < c.left && c.kind != Uncompressed
    requires Sendable(c.kind, c.lens.InForce(), p)
    requires Has(Stream(i.mem, c.place.base), c.place.pos, SentDigits(c.kind, c.lens.InForce(), p))
    ensures var n := |SentDigits(c.kind, c.lens.InForce(), p)|;
      Step(i, c, size) == Produce(c.(place := Bits(c.place.base, c.place.pos + n)), PieceSent(p), size)
  {
    hide Has, SentDigits, Sendable, TokenAt, EndOf, Bit, Produce, ValidToken, PieceOf, PieceSent;
    var codes, mem, q := c.lens.InForce(), Stream(i.mem, c.place.base), c.place.pos;
    SentRead(c.kind, codes, mem, q, p);
    TokenFound(c.kind, codes, mem, q, TokenSent(p));
  }

  // Where the digits are read from does not matter to what is carried out.
  lemma {:induction false} PlaceAside(c: Config, ps: seq<Sent>, place: Place, size: nat)
    requires 0 < size <= |c.hist|
    ensures RunEnd(c.(place := place), ps, size) == RunEnd(c, ps, size).(place := place)
    ensures RunGoes(c.(place := place), ps, size) == RunGoes(c, ps, size)
    decreases |ps|
  {
    hide Produce, PieceSent;
    if ps != [] {
      OneRun(c, ps[0], place, size);
      ProduceLonger(c, ps[0], size);
      PlaceAside(Produce(c, PieceSent(ps[0]), size), ps[1..], place, size);
    }
  }

  lemma ProduceLonger(c: Config, p: Sent, size: nat)
    requires 0 < size <= |c.hist|
    ensures size <= |Produce(c, PieceSent(p), size).hist|
  {
  }

  lemma SameBeside(c: Config, p: Sent, size: nat)
    requires 0 < size <= |c.hist|
    ensures var d := Produce(c, PieceSent(p), size); d.place == c.place && d.lens == c.lens && d.kind == c.kind
  {
  }

  /** The literals and matches of a run, sent one after the other, are carried out in
      that order, and reading goes on behind them. */
  lemma {:induction false} RunSent(i: Input, c: Config, ps: seq<Sent>, size: nat)
    requires i.Valid() && c.Valid(size) && c.verdict.None? && c.kind != Uncompressed
    requires RunSendable(c.kind, c.lens.InForce(), ps) && RunGoes(c, ps, size)
    requires Has(Stream(i.mem, c.place.base), c.place.pos, RunDigits(c.kind, c.lens.InForce(), ps))
    ensures Iterate(Next(i, size), c, |ps|) ==
      RunEnd(c, ps, size).(place := Bits(c.place.base, c.place.pos + |RunDigits(c.kind, c.lens.InForce(), ps)|))
    decreases |ps|
  {
    hide Has, SentDigits, Sendable, Bit, Produce, Step, PieceSent;
    if ps != [] {
      var codes, f := c.lens.InForce(), Next(i, size);
      var a, b := SentDigits(c.kind, codes, ps[0]), RunDigits(c.kind, codes, ps[1..]);
      var place := Bits(c.place.base, c.place.pos + |a|);
      HasParts(Stream(i.mem, c.place.base), c.place.pos, a, b);
      OneSent(i, c, ps[0], size);
      OneRun(c, ps[0], place, size);
      var d := Step(i, c, size);
      SameBeside(c.(place := place), ps[0], size);
      PlaceAside(Produce(c, PieceSent(ps[0]), size), ps[1..], place, size);
      RunSent(i, d, ps[1..], size);
      IterateShift(f, c, |ps| - 1);
    }
  }

  lemma OneRun(c: Config, p: Sent, place: Place, size: nat)
    requires 0 < size <= |c.hist|
    ensures Produce(c.(place := place), PieceSent(p), size) == Produce(c, PieceSent(p), size).(place := place)
  {
  }

  /** The bytes of an uncompressed run are the next bytes of the input. */
  lemma RawSent(i: Input, c: Config, size: nat)
    requires i.Valid() && c.Valid(size) && c.verdict.None? && c.kind == Uncompressed && 0 < c.left
    ensures var d := Step(i, c, size);
      if c.place.at + c.left > i.len then d.verdict == Some(IllegalData)
      else
        && d.verdict.None? && d.place == Bytes(c.place.at + c.left) && d.left == 0 && d.posn == c.posn + c.left
        && |d.hist| == |c.hist| + c.left && d.hist[..|c.hist|] == c.hist
        && forall k :: |c.hist| <= k < |d.hist| ==> d.hist[k] == i.mem(c.place.at + k - |c.hist|)
  {
    hide InPhase;
    var s := Stretch(i.mem, c.place.at, c.left);
    assert forall k :: 0 <= k < c.left ==> s[k] == i.mem(c.place.at + k);
    if c.place.at + c.left <= i.len {
      var d := Step(i, c, size);
      assert d.hist == c.hist + s;
      forall k | |c.hist| <= k < |d.hist|
        ensures d.hist[k] == i.mem(c.place.at + k - |c.hist|)
      {
        assert d.hist[k] == s[k - |c.hist|];
      }
    }
  }

  // ---------- between runs ----------

  // Where a position counts from: the end of the window is its start.
  function Wrapped(posn: nat, size: nat): nat {
    if posn == size then 0 else posn
  }

  lemma WrappedIs(posn: nat, size: nat)
    requires 0 < size && posn <= size
    ensures posn % size == Wrapped(posn, size)
  {
  }

  /** Between runs decoding is done when all bytes asked for have been made; goes on with
      as much of the block as is left and still asked for, unless that would pass the end
      of the window; and otherwise reads a header, a byte further on behind an
      uncompressed block of odd length. */
  lemma BetweenRuns(i: Input, c: Config, size: nat)
    requires i.Valid() && c.Valid(size) && c.verdict.None? && c.left <= 0
    ensures var d, p := Step(i, c, size), Wrapped(c.posn, size);
      if c.togo == 0 then d == c.(verdict := Some(Ok))
      else if c.rem > 0 then
        var n := if c.rem < c.togo then c.rem else c.togo;
        if p + n > size then d == c.(verdict := Some(DataFormat))
        else d == c.(rem := c.rem - n, togo := c.togo - n, left := n, posn := p)
      else
        var base := if c.place.Bytes? then c.place.at + (if c.length % 2 == 1 then 1 else 0) else c.place.base;
        var q := if c.place.Bytes? then 0 else c.place.pos;
        match HeaderAt(i, base, q, c.lens)
        case Bad => d == c.(verdict := Some(IllegalData))
        case Good(kind, length, lru, lens, next) =>
          && d == c.(place := next, lens := lens, kind := kind, length := length, rem := length, lru := d.lru,
                     started := d.started)
          && d.lru == (if kind == Uncompressed then lru.value else c.lru)
          && (d.started <==> c.started || kind == Uncompressed || lens.main[232] != 0)
  {
    hide HeaderAt, InPhase;
    WrappedIs(c.posn, size);
  }

  /** A token ends decoding if the bits are no token, if it is a match that passes the
      end of the window, or one whose offset exceeds window and position together. */
  lemma TokenEnds(i: Input, c: Config, p: Sent, size: nat)
    requires i.Valid() && c.Valid(size) && c.verdict.None? && 0 < c.left && c.kind != Uncompressed
    requires Sendable(c.kind, c.lens.InForce(), p)
    requires Has(Stream(i.mem, c.place.base), c.place.pos, SentDigits(c.kind, c.lens.InForce(), p))
    ensures var offset := match p case One(_) => 0 case Back(o, _, _) => o
              case Again(k, _) => if k == 0 then c.lru.r0 else if k == 1 then c.lru.r1 else c.lru.r2;
      Step(i, c, size).verdict ==
        if c.posn + Size(p) > size then Some(IllegalData)
        else if offset > size + c.posn then Some(Wild)
        else None
    ensures Step(i, c, size).verdict.None? ==>
      Step(i, c, size).left == c.left - Size(p) && Step(i, c, size).posn == c.posn + Size(p)
  {
    hide Has, SentDigits, Bit, Step, InPhase, Output, CanSend, LengthSendable, ValidCodes;
    OneSent(i, c, p, size);
  }

  lemma NoToken(i: Input, c: Config, size: nat)
    requires i.Valid() && c.Valid(size) && c.verdict.None? && 0 < c.left && c.kind != Uncompressed
    requires forall t :: !TokenAt(c.kind, c.lens.InForce(), Stream(i.mem, c.place.base), c.place.pos, t)
    ensures Step(i, c, size) == c.(verdict := Some(IllegalData))
  {
    hide TokenAt, InPhase, EndOf;
  }

  // ---------- the beginning of a stream ----------

  /** A stream begins with the digit 0, or with 1 and the size for the call translation
      in 32 digits, as a signed number. */
  lemma StreamBegins(mem: Memory, v: nat)
    requires v < 0x1_0000_0000
    ensures Has(mem, 0, [0]) ==> FlagBits(mem) == 1 && FilesizeAt(mem) == 0
    ensures Has(mem, 0, [1] + Digits(v, 32)) ==>
      FlagBits(mem) == 33 && FilesizeAt(mem) == if v < 0x8000_0000 then v else v - 0x1_0000_0000
  {
    hide Bit, Digits, Has, Val;
    if Has(mem, 0, [0]) {
      FirstDigit(mem, 0);
    }
    if Has(mem, 0, [1] + Digits(v, 32)) {
      HasParts(mem, 0, [1], Digits(v, 32));
      FirstDigit(mem, 1);
      WordModIsShl();
      NumberRead(mem, 1, v, 32);
      TwoWords(mem, 1);
      assert 65536 * Val(mem, 1, 16) + Val(mem, 17, 16) == v;
      assert FilesizeAt(mem) == Signed32(v);
    }
  }

  lemma FirstDigit(mem: Memory, d: nat)
    requires Has(mem, 0, [d])
    ensures Val(mem, 0, 1) == d
  {
    assert Bit(mem, 0) == [d][0];
    assert Val(mem, 0, 1) == 2 * Val(mem, 0, 0) + Bit(mem, 0);
  }

  lemma TwoWords(mem: Memory, q: nat)
    ensures Val(mem, q, 32) == 65536 * Val(mem, q, 16) + Val(mem, q + 16, 16)
  {
    hide Val;
    ValSplit(mem, q, 16, 16);
    ShlMul(Val(mem, q, 16), 16);
    FullIsShl();
  }

  /** A decoder that has just been made or reset. */
  lemma StartState(x: LzxState)
    requires x.AtStart()
    ensures x.windowPosn == 0 && x.lru.r0 == 1 && x.lru.r1 == 1 && x.lru.r2 == 1 && !x.headerRead
    ensures x.framesRead == 0 && x.intelCurpos == 0 && !x.intelStarted && x.blockRemaining == 0
  {
  }

  // ---------- the output ----------

  /** What is handed out are the last bytes made.  Their calls are moved in the first
      32768 blocks of more than six bytes, if the stream has a size for that and has
      begun to hold code; and those blocks count for the position. */
  lemma HandedOut(out: seq<Byte>, h: seq<Byte>, frames: nat, filesize: int, started: bool, pos: int)
    requires Delivered(out, h, frames, filesize, started, pos) && E8.INT32_MIN <= filesize < E8.INT32_LIM
    requires 0 <= pos && pos + |out| <= E8.INT32_LIM
    ensures |out| <= |h|
    ensures var raw := h[|h| - |out|..];
      if frames < 32768 && filesize != 0 && |out| > 6 && started then E8.Relocated(raw, out, pos, filesize)
      else out == raw
    ensures PositionAfter(frames, filesize, pos, |out|) ==
      if frames < 32768 && filesize != 0 then pos + |out| else pos
  {
    hide E8.Pass, E8.Relocated;
    E8.PassRelocates(h[|h| - |out|..], pos, filesize);
  }

  /** The bytes asked for are handed out if all of them lie in the window in front of
      where decoding has come to. */
  lemma Returned(d: Config, size: nat, outlen: nat)
    requires d.verdict.Some? && d.posn <= size && outlen <= |d.hist|
    ensures d.verdict == Some(Ok) && outlen <= d.posn ==> Result(d, size, outlen) == Ok
    ensures d.verdict == Some(Ok) && d.posn == 0 && outlen <= size ==> Result(d, size, outlen) == Ok
    ensures d.verdict == Some(Ok) && 0 < d.posn < outlen ==> Result(d, size, outlen) == Wild
    ensures d.verdict == Some(Ok) && size < outlen ==> Result(d, size, outlen) == Wild
    ensures d.verdict != Some(Ok) ==> Some(Result(d, size, outlen)) == d.verdict
  {
  }
}
