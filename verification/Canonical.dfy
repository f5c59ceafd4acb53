/** Canonical prefix codes as the LZX format uses them.  A 16-bit window of the
    bit stream is a number below 65536; the codeword of a symbol of length l
    covers 2^(16-l) consecutive windows. */
module Canonical {
  import opened Shifts

  type Byte = x: int | 0 <= x < 256

  const FULL: nat := 65536

  lemma FullIsShl()
    ensures FULL == Shl(1, 16)
  {
    assert Shl(1, 16) == Shl(4, 14) == Shl(16, 12) == Shl(64, 10) == Shl(256, 8);
    assert Shl(256, 8) == Shl(1024, 6) == Shl(4096, 4) == Shl(16384, 2) == Shl(65536, 0);
  }

  // The number of windows that start with one given codeword of length l.
  function Width(l: nat): nat
    requires l <= 16
  {
    Shl(1, 16 - l)
  }

  // The codeword the rule of RFC 1951, section 3.2.2, hands out next when the
  // codes shorter than l, and those of length l among the first n symbols,
  // have all been assigned.
  function NextCode(lens: seq<Byte>, l: nat, n: nat): nat
    requires 1 <= l <= 16 && n <= |lens|
    decreases l, n
  {
    if n > 0 then NextCode(lens, l, n - 1) + (if lens[n - 1] == l then 1 else 0)
    else if l == 1 then 0
    else 2 * NextCode(lens, l - 1, |lens|)
  }

  // The windows taken by those same codes.
  function Before(lens: seq<Byte>, l: nat, n: nat): nat
    requires 1 <= l <= 16 && n <= |lens|
    decreases l, n
  {
    if n > 0 then Before(lens, l, n - 1) + (if lens[n - 1] == l then Width(l) else 0)
    else if l == 1 then 0
    else Before(lens, l - 1, |lens|)
  }

  // The Kraft sum, in units of 2^-16, of all codes of length 1 to b.
  function Kraft(lens: seq<Byte>, b: nat): nat
    requires 1 <= b <= 16
  {
    Before(lens, b, |lens|)
  }

  predicate Coded(lens: seq<Byte>, s: nat) {
    s < |lens| && 1 <= lens[s] <= 16
  }

  function Codeword(lens: seq<Byte>, s: nat): nat
    requires Coded(lens, s)
  {
    NextCode(lens, lens[s], s)
  }

  function CodeStart(lens: seq<Byte>, s: nat): nat
    requires Coded(lens, s)
  {
    Before(lens, lens[s], s)
  }

  // The window w begins with the codeword of symbol s.
  predicate Decodes(lens: seq<Byte>, s: nat, w: nat) {
    Coded(lens, s) && CodeStart(lens, s) <= w < CodeStart(lens, s) + Width(lens[s])
  }

  predicate Earlier(l: nat, n: nat, l': nat, n': nat) {
    l < l' || (l == l' && n < n')
  }

  lemma {:induction false} BeforeIsNextCode(lens: seq<Byte>, l: nat, n: nat)
    requires 1 <= l <= 16 && n <= |lens|
    ensures Before(lens, l, n) == Shl(NextCode(lens, l, n), 16 - l)
    decreases l, n
  {
    if n > 0 {
      BeforeIsNextCode(lens, l, n - 1);
      ShlAdd(NextCode(lens, l, n - 1), 1, 16 - l);
    } else if l == 1 {
      ShlZero(15);
    } else {
      BeforeIsNextCode(lens, l - 1, |lens|);
    }
  }

  /** A window decodes to s exactly when its first bits are the codeword that
      RFC 1951 gives to s. */
  lemma DecodesIsPrefix(lens: seq<Byte>, s: nat, w: nat)
    requires Coded(lens, s)
    ensures Decodes(lens, s, w) <==> Shr(w, 16 - lens[s]) == Codeword(lens, s)
  {
    var l, c := lens[s], Codeword(lens, s);
    BeforeIsNextCode(lens, l, s);
    ShlAdd(c, 1, 16 - l);
    Galois(c, w, 16 - l);
    Galois(c + 1, w, 16 - l);
  }

  lemma {:induction false} BeforeMono(lens: seq<Byte>, l: nat, n: nat, l': nat, n': nat)
    requires 1 <= l <= l' <= 16 && n <= |lens| && n' <= |lens|
    requires l < l' || n <= n'
    ensures Before(lens, l, n) <= Before(lens, l', n')
    decreases l', n'
  {
    if l == l' && n == n' {
    } else if n' > 0 {
      BeforeMono(lens, l, n, l', n' - 1);
    } else {
      BeforeMono(lens, l, n, l' - 1, |lens|);
    }
  }

  lemma EarlierEnds(lens: seq<Byte>, s: nat, l: nat, n: nat)
    requires Coded(lens, s) && l <= 16 && n <= |lens| && Earlier(lens[s], s, l, n)
    ensures CodeStart(lens, s) + Width(lens[s]) <= Before(lens, l, n)
  {
    assert Before(lens, lens[s], s + 1) == CodeStart(lens, s) + Width(lens[s]);
    BeforeMono(lens, lens[s], s + 1, l, n);
  }

  /** No window begins with two codewords. */
  lemma DecodesUnique(lens: seq<Byte>, s: nat, t: nat, w: nat)
    requires Decodes(lens, s, w) && Decodes(lens, t, w)
    ensures s == t
  {
    if Earlier(lens[s], s, lens[t], t) {
      EarlierEnds(lens, s, lens[t], t);
    } else if Earlier(lens[t], t, lens[s], s) {
      EarlierEnds(lens, t, lens[s], s);
    }
  }

  /** Every window below the assigned ones begins with an assigned codeword. */
  lemma {:induction false} FindSymbol(lens: seq<Byte>, l: nat, n: nat, w: nat) returns (s: nat)
    requires 1 <= l <= 16 && n <= |lens|
    requires w < Before(lens, l, n)
    ensures Decodes(lens, s, w) && Earlier(lens[s], s, l, n)
    decreases l, n
  {
    if n > 0 {
      if w < Before(lens, l, n - 1) {
        s := FindSymbol(lens, l, n - 1, w);
      } else {
        s := n - 1;
      }
    } else {
      s := FindSymbol(lens, l - 1, |lens|, w);
    }
  }

  // The share of the 65536 windows that a codeword of length l takes.
  function Share(l: nat): nat
    requires 1 <= l <= 16
  {
    [32768, 16384, 8192, 4096, 2048, 1024, 512, 256, 128, 64, 32, 16, 8, 4, 2, 1][l - 1]
  }

  // The shares of those of the first n symbols whose length is from 1 to b.
  function Shares(lens: seq<Byte>, n: nat, b: nat): nat
    requires n <= |lens| && b <= 16
  {
    if n == 0 then 0
    else Shares(lens, n - 1, b) + (if 1 <= lens[n - 1] <= b then Share(lens[n - 1]) else 0)
  }

  lemma ShareIsWidth(l: nat)
    requires 1 <= l <= 16
    ensures Share(l) == Width(l)
  {
    Powers();
  }

  lemma {:induction false} NoShares(lens: seq<Byte>, n: nat)
    requires n <= |lens|
    ensures Shares(lens, n, 0) == 0
  {
    if n > 0 {
      NoShares(lens, n - 1);
    }
  }

  lemma {:induction false} BeforeIsShares(lens: seq<Byte>, l: nat, n: nat)
    requires 1 <= l <= 16 && n <= |lens|
    ensures Before(lens, l, n) == Shares(lens, |lens|, l - 1) + Shares(lens, n, l) - Shares(lens, n, l - 1)
    decreases l, n
  {
    if n > 0 {
      BeforeIsShares(lens, l, n - 1);
      ShareIsWidth(l);
    } else if l == 1 {
      NoShares(lens, |lens|);
    } else {
      BeforeIsShares(lens, l - 1, |lens|);
    }
  }

  /** A codeword begins behind all shorter ones, and behind those of its length that
      belong to earlier symbols. */
  lemma CodeStartIs(lens: seq<Byte>, s: nat)
    requires Coded(lens, s)
    ensures var l := lens[s];
      CodeStart(lens, s) == Shares(lens, |lens|, l - 1) + Shares(lens, s, l) - Shares(lens, s, l - 1)
  {
    hide Before, Shares;
    BeforeIsShares(lens, lens[s], s);
  }

  /** The Kraft sum is the sum of the shares. */
  lemma KraftIsShares(lens: seq<Byte>, b: nat)
    requires 1 <= b <= 16
    ensures Kraft(lens, b) == Shares(lens, |lens|, b)
  {
    BeforeIsShares(lens, b, |lens|);
  }

  // The codes of one length handed out to eight symbols.
  lemma CodesTo(lens: seq<Byte>, l: nat)
    requires 1 <= l <= 16 && |lens| == 8
    ensures NextCode(lens, l, 0) == if l == 1 then 0 else 2 * NextCode(lens, l - 1, 8)
    ensures NextCode(lens, l, 1) == NextCode(lens, l, 0) + (if lens[0] == l then 1 else 0)
    ensures NextCode(lens, l, 2) == NextCode(lens, l, 1) + (if lens[1] == l then 1 else 0)
    ensures NextCode(lens, l, 3) == NextCode(lens, l, 2) + (if lens[2] == l then 1 else 0)
    ensures NextCode(lens, l, 4) == NextCode(lens, l, 3) + (if lens[3] == l then 1 else 0)
    ensures NextCode(lens, l, 5) == NextCode(lens, l, 4) + (if lens[4] == l then 1 else 0)
    ensures NextCode(lens, l, 6) == NextCode(lens, l, 5) + (if lens[5] == l then 1 else 0)
    ensures NextCode(lens, l, 7) == NextCode(lens, l, 6) + (if lens[6] == l then 1 else 0)
    ensures NextCode(lens, l, 8) == NextCode(lens, l, 7) + (if lens[7] == l then 1 else 0)
  {
  }

  /** The example of RFC 1951, section 3.2.2. */
  lemma CodesExample()
    ensures var lens := [3, 3, 3, 3, 3, 2, 4, 4];
      && (forall s :: 0 <= s < 8 ==> Coded(lens, s))
      && Codeword(lens, 0) == 2 && Codeword(lens, 1) == 3 && Codeword(lens, 2) == 4 && Codeword(lens, 3) == 5
      && Codeword(lens, 4) == 6 && Codeword(lens, 5) == 0 && Codeword(lens, 6) == 14 && Codeword(lens, 7) == 15
  {
    hide NextCode;
    var lens := [3, 3, 3, 3, 3, 2, 4, 4];
    CodesTo(lens, 1);
    CodesTo(lens, 2);
    CodesTo(lens, 3);
    CodesTo(lens, 4);
  }

  // Codes of length l start at multiples of 2^(16-l).
  lemma StartAligned(lens: seq<Byte>, l: nat, n: nat)
    requires 1 <= l <= 16 && n <= |lens|
    ensures Shl(Shr(Before(lens, l, n), 16 - l), 16 - l) == Before(lens, l, n)
  {
    BeforeIsNextCode(lens, l, n);
    ShrShl(NextCode(lens, l, n), 16 - l);
  }
}
