/** The delimiter parser and the counted parser (individual/lib/HTTP.cpp, lines 244-315), and what
    they do to a whole stream of bytes. */
module HttpScan {
  // ----- occurrences of a delimiter -----

  predicate OccursAt(t: string, d: string, i: int) {
    0 <= i && i + |d| <= |t| && forall j :: 0 <= j < |d| ==> t[i + j] == d[j]
  }

  predicate EndsWith(s: string, t: string) { OccursAt(s, t, |s| - |t|) }

  /** The delimiter does not occur in the text. */
  ghost predicate Free(d: string, t: string) { forall i :: !OccursAt(t, d, i) }

  /** The delimiters in use: one character, or two different ones. No occurrence overlaps another. */
  predicate Simple(d: string) { |d| == 1 || (|d| == 2 && d[0] != d[1]) }

  method CheckEndsWith(s: string, t: string) returns (r: bool)
    ensures r == EndsWith(s, t)
  {
    if |t| > |s| {
      return false;
    }
    for i := 0 to |t|
      invariant forall k :: |t| - i <= k < |t| ==> s[|s| - |t| + k] == t[k]
    {
      if s[|s| - 1 - i] != t[|t| - 1 - i] {
        assert s[|s| - |t| + (|t| - 1 - i)] != t[|t| - 1 - i];
        return false;
      }
    }
    return true;
  }

  lemma FreePrefix(d: string, a: string, b: string)
    requires Free(d, a + b)
    ensures Free(d, a)
  {
    forall i ensures !OccursAt(a, d, i) {
      assert !OccursAt(a + b, d, i);
    }
  }

  lemma FreeSuffix(d: string, a: string, b: string)
    requires Free(d, a + b)
    ensures Free(d, b)
  {
    forall i ensures !OccursAt(b, d, i) {
      assert !OccursAt(a + b, d, |a| + i);
    }
  }

  lemma OccursStart(t: string, d: string, i: int)
    requires d != "" && OccursAt(t, d, i)
    ensures 0 <= i < |t| && t[i] == d[0]
  {
    assert t[i + 0] == d[0];
  }

  /** A text without the delimiter's first character. */
  lemma FreeWithout(d: string, t: string)
    requires d != "" && forall i :: 0 <= i < |t| ==> t[i] != d[0]
    ensures Free(d, t)
  {
    forall i ensures !OccursAt(t, d, i) {
      if OccursAt(t, d, i) {
        OccursStart(t, d, i);
      }
    }
  }

  lemma OccursSnoc(d: string, x: string, c: char, i: int)
    requires d != "" && OccursAt(x + [c], d, i)
    ensures OccursAt(x, d, i) || i == |x + [c]| - |d|
  {}

  /** Growing a text by a character makes at most one new occurrence, at its end. */
  lemma FreeSnoc(d: string, x: string, c: char)
    requires d != "" && Free(d, x) && !EndsWith(x + [c], d)
    ensures Free(d, x + [c])
  {
    forall i ensures !OccursAt(x + [c], d, i) {
      if OccursAt(x + [c], d, i) {
        OccursSnoc(d, x, c, i);
      }
    }
  }

  // ----- TUntilParser -----

  datatype Until = Until(delimiter: string, parsed: string)

  datatype UntilStepped = UntilStepped(u: Until, done: bool)

  function UntilStep(u: Until, c: char): UntilStepped {
    var p := u.parsed + [c];
    if EndsWith(p, u.delimiter) then UntilStepped(u.(parsed := p[..|p| - |u.delimiter|]), true)
    else UntilStepped(u.(parsed := p), false)
  }

  datatype UntilFed = UntilFed(u: Until, done: bool, rest: string)

  /** Characters are consumed until the delimiter is complete. */
  function FeedUntil(u: Until, s: string): UntilFed
    decreases |s|
  {
    if s == "" then UntilFed(u, false, "")
    else
      var r := UntilStep(u, s[0]);
      if r.done then UntilFed(r.u, true, s[1..]) else FeedUntil(r.u, s[1..])
  }

  class UntilParser {
    const delimiter: string
    var parsed: string

    ghost function View(): Until
      reads this
    {
      Until(delimiter, parsed)
    }

    constructor (delimiter: string)
      ensures View() == Until(delimiter, "")
    {
      this.delimiter := delimiter;
      this.parsed := "";
    }

    method Consume(c: char) returns (done: bool)
      modifies this
      ensures UntilStepped(View(), done) == UntilStep(old(View()), c)
    {
      parsed := parsed + [c];
      done := CheckEndsWith(parsed, delimiter);
      if done {
        parsed := parsed[..|parsed| - |delimiter|];
      }
    }

    method Reset()
      modifies this
      ensures View() == Until(delimiter, "")
    {
      parsed := "";
    }
  }

  /** A delimiter that does not occur in the text is found exactly where it was put. */
  lemma {:induction false} UntilFinds(d: string, x: string, y: string, rest: string)
    requires Simple(d) && Free(d, x + y)
    ensures FeedUntil(Until(d, x), y + d + rest) == UntilFed(Until(d, x + y), true, rest)
    decreases |y|
  {
    var s := y + d + rest;
    if y == "" {
      assert x + y == x;
      UntilCloses(d, x, rest);
      assert s == d + rest;
    } else {
      var x' := x + [y[0]];
      assert x' + y[1..] == x + y;
      FreePrefix(d, x', y[1..]);
      assert !OccursAt(x', d, |x'| - |d|);
      assert s[1..] == y[1..] + d + rest;
      UntilFinds(d, x', y[1..], rest);
    }
  }

  lemma UntilCloses(d: string, x: string, rest: string)
    requires Simple(d)
    ensures FeedUntil(Until(d, x), d + rest) == UntilFed(Until(d, x), true, rest)
  {
    var s := d + rest;
    if |d| == 1 {
      assert (x + [d[0]])[..|x|] == x;
      assert s[1..] == rest;
    } else {
      var x1 := x + [d[0]];
      var x2 := x1 + [d[1]];
      assert !EndsWith(x1, d) by {
        assert x1[|x1| - 2 + 1] != d[1];
      }
      assert EndsWith(x2, d);
      assert x2[..|x|] == x;
      assert s[1..][1..] == rest;
      assert s[1..][0] == d[1];
    }
  }

  /** The converse: what the parser has cut off is the text before the first delimiter. */
  lemma {:induction false} UntilFound(u: Until, s: string)
    requires u.delimiter != "" && Free(u.delimiter, u.parsed)
    ensures var f := FeedUntil(u, s);
      && f.u.delimiter == u.delimiter && Free(u.delimiter, f.u.parsed)
      && (f.done ==> u.parsed + s == f.u.parsed + u.delimiter + f.rest)
      && (!f.done ==> u.parsed + s == f.u.parsed && f.rest == "")
    decreases |s|
  {
    if s == "" {
      assert u.parsed + s == u.parsed;
    } else {
      var d := u.delimiter;
      var p := u.parsed + [s[0]];
      assert p + s[1..] == u.parsed + s;
      if EndsWith(p, d) {
        var t := p[..|p| - |d|];
        assert p == t + d;
        assert u.parsed == t + u.parsed[|t|..];
        FreePrefix(d, t, u.parsed[|t|..]);
      } else {
        FreeSnoc(d, u.parsed, s[0]);
        UntilFound(u.(parsed := p), s[1..]);
      }
    }
  }

  // ----- TNParser -----

  datatype Counted = Counted(n: int, parsed: string)

  datatype CountedStepped = CountedStepped(c: Counted, done: bool)

  function CountedStep(k: Counted, c: char): CountedStepped {
    CountedStepped(Counted(k.n - 1, k.parsed + [c]), k.n - 1 == 0)
  }

  datatype CountedFed = CountedFed(c: Counted, done: bool, rest: string)

  function FeedCounted(k: Counted, s: string): CountedFed
    decreases |s|
  {
    if s == "" then CountedFed(k, false, "")
    else
      var r := CountedStep(k, s[0]);
      if r.done then CountedFed(r.c, true, s[1..]) else FeedCounted(r.c, s[1..])
  }

  class NParser {
    var n: int
    var parsed: string

    ghost function View(): Counted
      reads this
    {
      Counted(n, parsed)
    }

    constructor ()
      ensures View() == Counted(0, "")
    {
      n := 0;
      parsed := "";
    }

    /** Reserving room for a negative number of characters throws. */
    method SetN(n: int) returns (thrown: bool)
      modifies this
      ensures thrown <==> n < 0
      ensures View() == Counted(n, "")
    {
      this.n := n;
      this.parsed := "";
      thrown := n < 0;
    }

    method Consume(c: char) returns (done: bool)
      modifies this
      ensures CountedStepped(View(), done) == CountedStep(old(View()), c)
    {
      parsed := parsed + [c];
      n := n - 1;
      done := n == 0;
    }
  }

  /** Exactly n characters are taken. */
  lemma {:induction false} CountedTakes(k: Counted, y: string, rest: string)
    requires k.n == |y| >= 1
    ensures FeedCounted(k, y + rest) == CountedFed(Counted(0, k.parsed + y), true, rest)
    decreases |y|
  {
    var s := y + rest;
    var r := CountedStep(k, y[0]);
    assert s[1..] == y[1..] + rest;
    if |y| == 1 {
      assert y[1..] + rest == rest && [y[0]] == y;
    } else {
      CountedTakes(r.c, y[1..], rest);
      assert k.parsed + [y[0]] + y[1..] == k.parsed + y;
    }
  }

  /** The converse. */
  lemma {:induction false} CountedTook(k: Counted, s: string)
    requires k.n >= 1
    ensures var f := FeedCounted(k, s);
      && (f.done ==> |f.c.parsed| == |k.parsed| + k.n)
      && (!f.done ==> f.rest == "" && f.c.n >= 1 && |f.c.parsed| + f.c.n == |k.parsed| + k.n)
    decreases |s|
  {
    if s != "" && k.n > 1 {
      CountedTook(CountedStep(k, s[0]).c, s[1..]);
    }
  }
}
