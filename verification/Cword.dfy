/** Compressed words of the CHM directory: seven bits a byte, most significant
    first, the last byte below 0x80. */
module Cword {
  import opened Wrappers
  import opened Arith
  import opened Canonical

  datatype Parsed = Parsed(value: nat, next: nat)

  // The value and the cursor behind it; None when the word runs off the page.
  function Parse(p: seq<Byte>, cur: nat, accum: nat): (r: Option<Parsed>)
    ensures r.Some? ==> cur < r.value.next <= |p| && r.value.value < UINT64_MOD
    decreases |p| - cur
  {
    if cur >= |p| then None
    else if p[cur] >= 0x80 then Parse(p, cur + 1, (accum * 128 + (p[cur] - 0x80)) % UINT64_MOD)
    else Some(Parsed((accum * 128 + p[cur]) % UINT64_MOD, cur + 1))
  }

  function Skip(p: seq<Byte>, cur: nat): Option<nat>
    decreases |p| - cur
  {
    if cur >= |p| then None
    else if p[cur] >= 0x80 then Skip(p, cur + 1)
    else Some(cur + 1)
  }

  /** Skipping a word and parsing it always consume the same bytes. */
  lemma {:induction false} SkipLikeParse(p: seq<Byte>, cur: nat, accum: nat)
    ensures Skip(p, cur).Some? <==> Parse(p, cur, accum).Some?
    ensures Skip(p, cur).Some? ==> Skip(p, cur).value == Parse(p, cur, accum).value.next
    decreases |p| - cur
  {
    if cur < |p| && p[cur] >= 0x80 {
      SkipLikeParse(p, cur + 1, (accum * 128 + (p[cur] - 0x80)) % UINT64_MOD);
    }
  }

  // All but the last byte of the encoding of a number above them.
  function Leading(n: nat): seq<Byte> {
    if n == 0 then [] else Leading(n / 128) + [n % 128 + 0x80]
  }

  function Encode(n: nat): seq<Byte> {
    Leading(n / 128) + [n % 128]
  }

  lemma Rejoin(n: nat)
    requires n < UINT64_MOD
    ensures n / 128 * 128 + n % 128 == n && (n / 128 * 128 + n % 128) % UINT64_MOD == n
  {
  }

  // One step of the parse.
  lemma ParseStep(p: seq<Byte>, cur: nat, n: nat)
    requires cur < |p| && n < UINT64_MOD
    ensures p[cur] == n % 128 ==> Parse(p, cur, n / 128) == Some(Parsed(n, cur + 1))
    ensures p[cur] == n % 128 + 0x80 ==> Parse(p, cur, n / 128) == Parse(p, cur + 1, n)
  {
    Rejoin(n);
  }

  lemma Last(a: seq<Byte>, x: seq<Byte>, d: Byte, b: seq<Byte>)
    ensures var p := a + (x + [d]) + b; p == a + x + ([d] + b) && |a| + |x| < |p| && p[|a| + |x|] == d
  {
  }

  lemma {:induction false} ParseLeading(a: seq<Byte>, n: nat, b: seq<Byte>)
    requires n < UINT64_MOD
    ensures Parse(a + Leading(n) + b, |a|, 0) == Parse(a + Leading(n) + b, |a| + |Leading(n)|, n)
  {
    hide Parse;
    if n > 0 {
      var m, d := n / 128, n % 128 + 0x80;
      Last(a, Leading(m), d, b);
      ParseLeading(a, m, [d] + b);
      ParseStep(a + Leading(n) + b, |a| + |Leading(m)|, n);
    }
  }

  /** Every 64-bit number survives encoding and parsing, wherever in a page. */
  lemma ParseEncode(a: seq<Byte>, n: nat, b: seq<Byte>)
    requires n < UINT64_MOD
    ensures Parse(a + Encode(n) + b, |a|, 0) == Some(Parsed(n, |a| + |Encode(n)|))
  {
    hide Parse, Leading;
    var m, d := n / 128, n % 128;
    Last(a, Leading(m), d, b);
    ParseLeading(a, m, [d] + b);
    ParseStep(a + Encode(n) + b, |a| + |Leading(m)|, n);
  }

  // The number that the low seven bits of some bytes spell, most significant first.
  function Sevens(s: seq<Byte>): nat
    decreases |s|
  {
    if s == [] then 0 else 128 * Sevens(s[..|s| - 1]) + s[|s| - 1] % 128
  }

  lemma Wrap(n: nat, d: nat)
    ensures (n % UINT64_MOD * 128 + d) % UINT64_MOD == (128 * n + d) % UINT64_MOD
  {
  }

  // One byte more.
  lemma ParseByte(p: seq<Byte>, cur: nat, k: nat)
    requires cur + k < |p|
    ensures var n, m := Sevens(p[cur..cur + k]) % UINT64_MOD, Sevens(p[cur..cur + k + 1]) % UINT64_MOD;
      Parse(p, cur + k, n) == if p[cur + k] >= 0x80 then Parse(p, cur + k + 1, m) else Some(Parsed(m, cur + k + 1))
  {
    hide Parse, Sevens;
    var s, b: nat := p[cur..cur + k + 1], p[cur + k];
    assert s[..k] == p[cur..cur + k] && s[k] == b;
    SevensOne(s);
    Wrap(Sevens(s[..k]), b % 128);
    ParseOne(p, cur + k, Sevens(s[..k]) % UINT64_MOD);
  }

  lemma SevensOne(s: seq<Byte>)
    requires s != []
    ensures Sevens(s) == 128 * Sevens(s[..|s| - 1]) + s[|s| - 1] % 128
  {
  }

  lemma ParseOne(p: seq<Byte>, cur: nat, accum: nat)
    requires cur < |p|
    ensures var b: nat := p[cur];
      Parse(p, cur, accum) ==
        if b >= 0x80 then Parse(p, cur + 1, (accum * 128 + b % 128) % UINT64_MOD)
        else Some(Parsed((accum * 128 + b % 128) % UINT64_MOD, cur + 1))
  {
  }

  lemma {:induction false} ParseRun(p: seq<Byte>, cur: nat, k: nat)
    requires cur + k <= |p| && forall j :: cur <= j < cur + k ==> p[j] >= 0x80
    ensures Parse(p, cur, 0) == Parse(p, cur + k, Sevens(p[cur..cur + k]) % UINT64_MOD)
  {
    hide Parse;
    if k > 0 {
      ParseRun(p, cur, k - 1);
      ParseByte(p, cur, k - 1);
    }
  }

  /** A word goes on to its first byte below 0x80; its value is spelled by the low seven
      bits of all its bytes, modulo 2^64. */
  lemma WordIs(p: seq<Byte>, cur: nat, k: nat)
    requires cur + k < |p| && p[cur + k] < 0x80 && forall j :: cur <= j < cur + k ==> p[j] >= 0x80
    ensures Parse(p, cur, 0) == Some(Parsed(Sevens(p[cur..cur + k + 1]) % 0x1_0000_0000_0000_0000, cur + k + 1))
  {
    hide Parse, Sevens;
    ParseRun(p, cur, k);
    ParseByte(p, cur, k);
  }

  /** The word 81 02 is 130. */
  lemma WordExample()
    ensures Parse([0x81, 0x02], 0, 0) == Some(Parsed(130, 2))
  {
    assert Parse([0x81, 0x02], 1, 1) == Some(Parsed(130, 2));
  }

  /** Without such a byte on the page there is no word. */
  lemma NoWord(p: seq<Byte>, cur: nat)
    requires cur <= |p| && forall j :: cur <= j < |p| ==> p[j] >= 0x80
    ensures Parse(p, cur, 0).None?
  {
    ParseRun(p, cur, |p| - cur);
    assert Parse(p, |p|, Sevens(p[cur..]) % UINT64_MOD).None?;
    assert p[cur..cur + (|p| - cur)] == p[cur..];
  }

  method ParseCword(p: seq<Byte>, cur: nat) returns (value: nat, cur': nat)
    requires Parse(p, cur, 0).Some?
    ensures Parse(p, cur, 0) == Some(Parsed(value, cur'))
  {
    var accum: nat := 0;
    cur' := cur;
    while p[cur'] >= 0x80
      invariant Parse(p, cur', accum) == Parse(p, cur, 0)
      decreases |p| - cur'
    {
      accum := (accum * 128 + (p[cur'] - 0x80)) % UINT64_MOD;
      cur' := cur' + 1;
    }
    value := (accum * 128 + p[cur']) % UINT64_MOD;
    cur' := cur' + 1;
  }

  method SkipCword(p: seq<Byte>, cur: nat) returns (cur': nat)
    requires Skip(p, cur).Some?
    ensures Skip(p, cur) == Some(cur')
  {
    cur' := cur;
    while p[cur'] >= 0x80
      invariant Skip(p, cur') == Skip(p, cur)
      decreases |p| - cur'
    {
      cur' := cur' + 1;
    }
    cur' := cur' + 1;
  }
}
