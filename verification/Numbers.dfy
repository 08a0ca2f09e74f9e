/** The library's conversions between numbers and text: std::to_string, std::from_chars and reading
    an integer from a string stream. */
module Numbers {
  import opened Common

  const INT_MAX := 0x7FFF_FFFF
  const INT_MIN := -0x8000_0000
  const TIME_MAX := 0x7FFF_FFFF_FFFF_FFFF
  const TIME_MIN := -0x8000_0000_0000_0000

  function DigitChar(d: nat): char
    requires d < 10
  {
    ('0' as int + d) as char
  }

  /** The value of a digit in bases up to 16; 16 for everything else. */
  function DigitValue(c: char): nat {
    if '0' <= c <= '9' then c as int - '0' as int
    else if 'a' <= c <= 'f' then c as int - 'a' as int + 10
    else if 'A' <= c <= 'F' then c as int - 'A' as int + 10
    else 16
  }

  predicate AllDigits(s: string, base: nat) {
    forall i :: 0 <= i < |s| ==> DigitValue(s[i]) < base
  }

  function Dec(n: nat): string {
    if n < 10 then [DigitChar(n)] else Dec(n / 10) + [DigitChar(n % 10)]
  }

  function ToString(n: int): string {
    if n < 0 then ['-'] + Dec(-n) else Dec(n)
  }

  function Value(s: string, base: nat): nat {
    if s == [] then 0 else Value(s[..|s| - 1], base) * base + DigitValue(s[|s| - 1])
  }

  /** The length of the longest run of digits that s starts with. */
  function DigitRun(s: string, base: nat): (n: nat)
    ensures n <= |s|
  {
    if s == [] || DigitValue(s[0]) >= base then 0 else 1 + DigitRun(s[1..], base)
  }

  function Signed(negative: bool, magnitude: int): int {
    if negative then -magnitude else magnitude
  }

  /** The number at the start of s, if there is one and it lies in [lo, hi]; the rest is ignored. */
  function Leading(s: string, base: nat, lo: int, hi: int): Option<int> {
    var negative := s != [] && s[0] == '-';
    var body := if negative then s[1..] else s;
    var n := DigitRun(body, base);
    var v := Signed(negative, Value(body[..n], base));
    if n == 0 || v < lo || v > hi then None else Some(v)
  }

  /** std::from_chars into an int; None is an error code. */
  function FromChars(s: string, base: nat): Option<int> { Leading(s, base, INT_MIN, INT_MAX) }

  predicate IsSpace(c: char) { c == ' ' || 9 <= c as int <= 13 }

  function SkipSpace(s: string): string {
    if s != [] && IsSpace(s[0]) then SkipSpace(s[1..]) else s
  }

  /** Reading an integer with operator>>: text without digits gives 0, a number out of range the
      nearest bound, and nothing but blanks leaves the variable unset. */
  function FromStream(s: string, lo: int, hi: int): (r: Option<int>)
    requires lo <= hi
    ensures r.Some? ==> lo <= r.value <= hi
  {
    var t := SkipSpace(s);
    if t == [] then None
    else
      var body := if t[0] == '-' || t[0] == '+' then t[1..] else t;
      var v := Signed(t[0] == '-', Value(body[..DigitRun(body, 10)], 10));
      Some(if v < lo then lo else if v > hi then hi else v)
  }

  lemma {:induction false} DecDigits(n: nat)
    ensures Dec(n) != [] && AllDigits(Dec(n), 10) && Value(Dec(n), 10) == n
    decreases n
  {
    if n < 10 {
      assert [DigitChar(n)][..0] == [];
    } else {
      DecDigits(n / 10);
      assert Dec(n)[..|Dec(n)| - 1] == Dec(n / 10);
      assert n == n / 10 * 10 + n % 10;
    }
  }

  lemma {:induction false} WholeRun(s: string, base: nat)
    requires AllDigits(s, base)
    ensures DigitRun(s, base) == |s|
  {
    if s != [] {
      WholeRun(s[1..], base);
    }
  }

  lemma LeadingDigits(d: string, base: nat, lo: int, hi: int)
    requires d != [] && AllDigits(d, base) && base <= 16
    ensures Leading(d, base, lo, hi) == if lo <= Value(d, base) <= hi then Some(Value(d, base)) else None
    ensures Leading(['-'] + d, base, lo, hi) ==
            if lo <= Signed(true, Value(d, base)) <= hi then Some(Signed(true, Value(d, base))) else None
  {
    hide Value;
    WholeRun(d, base);
    assert d[..|d|] == d;
    assert DigitValue(d[0]) < base;
    assert (['-'] + d)[1..] == d;
  }

  /** Printing and parsing a decimal number are inverse. */
  lemma LeadingToString(n: int, lo: int, hi: int)
    requires lo <= n <= hi
    ensures Leading(ToString(n), 10, lo, hi) == Some(n)
  {
    hide Value, Dec, DigitRun, Leading;
    var m := if n < 0 then -n else n;
    DecDigits(m);
    LeadingDigits(Dec(m), 10, lo, hi);
  }

  lemma FromCharsToString(n: int)
    requires INT_MIN <= n <= INT_MAX
    ensures FromChars(ToString(n), 10) == Some(n)
  {
    LeadingToString(n, INT_MIN, INT_MAX);
  }

  /** Reading back what was printed gives the number, or the nearest bound of the type; blanks before it
      do not matter. */
  lemma FromStreamNearest(n: int, lo: int, hi: int)
    requires lo <= hi
    ensures FromStream(ToString(n), lo, hi) == Some(if n < lo then lo else if n > hi then hi else n)
    ensures FromStream(" " + ToString(n), lo, hi) == FromStream(ToString(n), lo, hi)
  {
    hide Value, Dec;
    var d := Dec(if n < 0 then -n else n);
    DecDigits(if n < 0 then -n else n);
    WholeRun(d, 10);
    assert d[..|d|] == d;
    assert DigitValue(d[0]) < 10;
    assert (['-'] + d)[1..] == d;
    assert (" " + ToString(n))[1..] == ToString(n);
  }

  /** Any of the six blanks may come first, then a plus sign; no digits read as 0, and nothing but blanks
      as no number at all. */
  lemma FromStreamForms(s: string, c: char, n: nat, lo: int, hi: int)
    requires lo <= n <= hi
    ensures c in {9 as char, 10 as char, 11 as char, 12 as char, 13 as char, ' '} ==>
      FromStream([c] + s, lo, hi) == FromStream(s, lo, hi)
    ensures FromStream("+" + ToString(n), lo, hi) == Some(n)
    ensures FromStream("", lo, hi) == None
    ensures lo <= 0 && c !in {9 as char, 10 as char, 11 as char, 12 as char, 13 as char, ' ', '+', '-'} && DigitValue(c) >= 10 ==>
      FromStream([c] + s, lo, hi) == Some(0)
  {
    hide Value, Dec;
    assert ([c] + s)[1..] == s;
    DecDigits(n);
    WholeRun(Dec(n), 10);
    assert ("+" + Dec(n))[1..] == Dec(n) && Dec(n)[..|Dec(n)|] == Dec(n);
    NoDigits([c] + s);
  }

  lemma NoDigits(s: string)
    ensures Value(s[..0], 10) == 0
  {}

  lemma FromStreamToString(n: int, lo: int, hi: int)
    requires lo <= n <= hi
    ensures FromStream(ToString(n), lo, hi) == Some(n)
  {
    FromStreamNearest(n, lo, hi);
  }

  /** A number cut short is a shorter number. */
  lemma {:induction false} DecPrefix(n: nat, k: nat) returns (j: nat)
    requires 1 <= n && 1 <= k <= |Dec(n)|
    ensures 1 <= j <= n && Dec(n)[..k] == Dec(j)
    decreases n
  {
    if k == |Dec(n)| {
      j := n;
      assert Dec(n)[..k] == Dec(n);
    } else {
      assert n >= 10;
      j := DecPrefix(n / 10, k);
      assert Dec(n)[..k] == Dec(n / 10)[..k];
    }
  }

  lemma ToStringStart(n: int)
    ensures ToString(n) != [] && (ToString(n)[0] == '-' || DigitValue(ToString(n)[0]) < 10)
    ensures forall i :: 0 <= i < |ToString(n)| ==> ToString(n)[i] == '-' || DigitValue(ToString(n)[i]) < 10
  {
    DecDigits(if n < 0 then -n else n);
  }

  /** A number too large for an int is an error. */
  lemma FromCharsOutOfRange(n: nat)
    requires n > INT_MAX
    ensures FromChars(ToString(n), 10) == None
  {
    DecDigits(n);
    LeadingDigits(Dec(n), 10, INT_MIN, INT_MAX);
  }

  /** What follows the digits does not matter to from_chars, as in a directive or a chunk size. */
  lemma FromCharsIgnoresRest(n: nat, rest: string)
    requires n <= INT_MAX && (rest == "" || DigitValue(rest[0]) >= 10)
    ensures FromChars(ToString(n) + rest, 10) == Some(n)
  {
    hide Value, Dec;
    var d := Dec(n);
    DecDigits(n);
    RunThen(d, rest, 10);
    assert DigitValue(d[0]) < 10;
    assert (d + rest)[0] == d[0] && (d + rest)[..|d|] == d;
  }

  lemma {:induction false} RunThen(d: string, rest: string, base: nat)
    requires AllDigits(d, base) && (rest == "" || DigitValue(rest[0]) >= base)
    ensures DigitRun(d + rest, base) == |d|
    decreases |d|
  {
    if d == "" {
      assert d + rest == rest;
    } else {
      assert (d + rest)[1..] == d[1..] + rest;
      RunThen(d[1..], rest, base);
    }
  }

  /** Hexadecimal digits of either case, and nothing else. */
  lemma HexDigitValues(c: char)
    ensures forall d :: 0 <= d < 16 ==>
      DigitValue("0123456789abcdef"[d]) == d && DigitValue("0123456789ABCDEF"[d]) == d
    ensures DigitValue(c) < 16 ==>
      c == "0123456789abcdef"[DigitValue(c)] || c == "0123456789ABCDEF"[DigitValue(c)]
  {}

  function HexChar(d: nat): char
    requires d < 16
  {
    if d < 10 then DigitChar(d) else ('a' as int + (d - 10)) as char
  }

  function Hex(n: nat): string {
    if n < 16 then [HexChar(n)] else Hex(n / 16) + [HexChar(n % 16)]
  }

  lemma {:induction false} HexDigits(n: nat)
    ensures Hex(n) != [] && AllDigits(Hex(n), 16) && Value(Hex(n), 16) == n
    decreases n
  {
    if n < 16 {
      assert [HexChar(n)][..0] == [];
    } else {
      HexDigits(n / 16);
      assert Hex(n)[..|Hex(n)| - 1] == Hex(n / 16);
      assert n == n / 16 * 16 + n % 16;
    }
  }

  lemma FromCharsHex(n: nat)
    requires n <= INT_MAX
    ensures FromChars(Hex(n), 16) == Some(n)
    ensures forall i :: 0 <= i < |Hex(n)| ==> DigitValue(Hex(n)[i]) < 16
  {
    HexDigits(n);
    LeadingDigits(Hex(n), 16, INT_MIN, INT_MAX);
  }
}
