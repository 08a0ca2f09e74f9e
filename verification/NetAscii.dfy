/** NetASCII, the text encoding of TFTP's "netascii" mode (udp/lib/Packet.cpp, lines 10-42). */
module NetAscii {

  /** What one raw character becomes on the wire. */
  function EncodeChar(c: char): string {
    if c == '\n' then "\r\n" else if c == '\r' then "\r\0" else [c]
  }

  function Encode(s: string): string {
    if s == [] then [] else EncodeChar(s[0]) + Encode(s[1..])
  }

  /** A CR that opens a pair: the two characters stand for one. */
  predicate OpensPair(s: string) {
    |s| >= 2 && s[0] == '\r' && (s[1] == '\n' || s[1] == '\0')
  }

  function Decode(s: string): string {
    if s == [] then []
    else if OpensPair(s) then [if s[1] == '\n' then '\n' else '\r'] + Decode(s[2..])
    else [s[0]] + Decode(s[1..])
  }

  predicate CanonicalAt(t: string, i: nat)
    requires i < |t|
  {
    && (t[i] == '\r' ==> i + 1 < |t| && (t[i + 1] == '\n' || t[i + 1] == '\0'))
    && (t[i] == '\n' ==> i > 0 && t[i - 1] == '\r')
  }

  /** The texts an encoder can produce: every CR opens a pair and every LF closes one. */
  predicate Canonical(t: string) {
    forall i :: 0 <= i < |t| ==> CanonicalAt(t, i)
  }

  method ToNetASCII(data: string) returns (ret: string)
    ensures ret == Encode(data)
  {
    ret := "";
    for i := 0 to |data|
      invariant ret == Encode(data[..i])
    {
      var c := data[i];
      EncodeSnoc(data[..i], c);
      assert data[..i + 1] == data[..i] + [c];
      if c == '\n' {
        ret := ret + ['\r'];
      }
      ret := ret + [c];
      if c == '\r' {
        ret := ret + ['\0'];
      }
    }
    assert data[..|data|] == data;
  }

  method FromNetASCII(data: string) returns (ret: string)
    ensures ret == Decode(data)
  {
    ret := "";
    var i := 0;
    while i < |data|
      invariant 0 <= i <= |data|
      invariant Decode(data) == ret + Decode(data[i..])
    {
      DecodeAt(data, i, ret);
      if i == |data| - 1 {
        ret := ret + [data[i]];
        i := i + 1;
        continue;
      }
      if data[i] == '\r' && data[i + 1] == '\n' {
        i := i + 1;
      }
      ret := ret + [data[i]];
      if data[i] == '\r' && data[i + 1] == '\0' {
        i := i + 1;
      }
      i := i + 1;
    }
  }

  /** One turn of the decoding loop: what is emitted and where it goes on. */
  lemma DecodeAt(data: string, i: nat, ret: string)
    requires i < |data|
    ensures
      var c := data[i];
      if i + 1 < |data| && c == '\r' && data[i + 1] == '\n' then
        ret + Decode(data[i..]) == ret + ['\n'] + Decode(data[i + 2..])
      else if i + 1 < |data| && c == '\r' && data[i + 1] == '\0' then
        ret + Decode(data[i..]) == ret + [c] + Decode(data[i + 2..])
      else
        ret + Decode(data[i..]) == ret + [c] + Decode(data[i + 1..])
  {
    var rest := data[i..];
    assert rest[0] == data[i] && (i + 1 < |data| ==> rest[1] == data[i + 1]);
    var k := if OpensPair(rest) then 2 else 1;
    assert rest[k..] == data[i + k..];
    DecodeHead(rest, k);
    var x := if k == 2 && rest[1] == '\n' then '\n' else rest[0];
    assert ret + ([x] + Decode(data[i + k..])) == ret + [x] + Decode(data[i + k..]);
  }

  lemma EncodeSnoc(s: string, c: char)
    ensures Encode(s + [c]) == Encode(s) + EncodeChar(c)
  {
    EncodeConcat(s, [c]);
    assert [c][1..] == "";
    assert Encode([c]) == EncodeChar(c) + "";
  }

  /** Encoding works character by character, so it distributes over any split. */
  lemma {:induction false} EncodeConcat(a: string, b: string)
    ensures Encode(a + b) == Encode(a) + Encode(b)
  {
    if a == [] {
      assert a + b == b;
    } else {
      assert (a + b)[1..] == a[1..] + b;
      EncodeConcat(a[1..], b);
    }
  }

  lemma DecodeChar(c: char, rest: string)
    ensures Decode(EncodeChar(c) + rest) == [c] + Decode(rest)
  {
    hide Decode;
    var t := EncodeChar(c) + rest;
    var k := |EncodeChar(c)|;
    assert t[k..] == rest;
    DecodeHead(t, k);
  }

  /** The image of a text: LF is sent as CR LF, CR as CR NUL, everything else as it is. */
  lemma EncodedAs(a: string, c: char, b: string)
    ensures Encode(a + [c] + b) ==
            Encode(a) + (if c == '\n' then "\r\n" else if c == '\r' then "\r\0" else [c]) + Encode(b)
    ensures Encode("") == ""
  {
    EncodeConcat(a + [c], b);
    EncodeSnoc(a, c);
  }

  /** NetASCII is lossless. */
  lemma {:induction false} DecodeEncode(s: string)
    ensures Decode(Encode(s)) == s
  {
    hide Decode, EncodeChar;
    if s == [] {
      DecodeNothing();
    } else {
      DecodeEncode(s[1..]);
      DecodeChar(s[0], Encode(s[1..]));
    }
  }

  /** Decoding loses nothing on exactly the canonical texts. */
  lemma {:induction false} EncodeDecodeIffCanonical(t: string)
    ensures Encode(Decode(t)) == t <==> Canonical(t)
  {
    if t != [] {
      hide Canonical;
      var k := if OpensPair(t) then 2 else 1;
      EncodeDecodeIffCanonical(t[k..]);
      CanonicalTail(t);
      ReencodeTail(t);
    }
  }

  /** Decoding and encoding again gives back a pair or a plain character, and never a lone CR or LF. */
  lemma ReencodeTail(t: string)
    requires t != []
    ensures OpensPair(t) ==> (Encode(Decode(t)) == t <==> Encode(Decode(t[2..])) == t[2..])
    ensures !OpensPair(t) ==> (Encode(Decode(t)) == t <==>
      t[0] != '\r' && t[0] != '\n' && Encode(Decode(t[1..])) == t[1..])
  {
    var k := if OpensPair(t) then 2 else 1;
    var x := if k == 2 && t[1] == '\n' then '\n' else t[0];
    var e := Encode(Decode(t[k..]));
    DecodeHead(t, k);
    EncodeCons(x, Decode(t[k..]));
    if k == 2 || (t[0] != '\r' && t[0] != '\n') {
      assert EncodeChar(x) == t[..k];
      CancelPrefix(t[..k], e, t[k..]);
    } else {
      assert (EncodeChar(x) + e)[0] == '\r' && (EncodeChar(x) + e)[1] == EncodeChar(x)[1];
    }
  }

  lemma EncodeCons(x: char, d: string)
    ensures Encode([x] + d) == EncodeChar(x) + Encode(d)
  {
    assert ([x] + d)[1..] == d;
  }

  lemma CancelPrefix(p: string, a: string, b: string)
    ensures p + a == p + b <==> a == b
  {
    if p + a == p + b {
      assert (p + a)[|p|..] == a;
      assert (p + b)[|p|..] == b;
    }
  }

  /** Canonical texts are pairs and plain characters, nothing else. */
  lemma CanonicalTail(t: string)
    requires t != []
    ensures OpensPair(t) ==> (Canonical(t) <==> Canonical(t[2..]))
    ensures !OpensPair(t) ==> (Canonical(t) <==> t[0] != '\r' && t[0] != '\n' && Canonical(t[1..]))
  {
    var k := if OpensPair(t) then 2 else 1;
    var rest := t[k..];
    if Canonical(t) {
      assert CanonicalAt(t, 0);
      forall i | 0 <= i < |rest| ensures CanonicalAt(rest, i) {
        assert CanonicalAt(t, i + k);
      }
    }
    if Canonical(rest) && (k == 2 || (t[0] != '\r' && t[0] != '\n')) {
      forall i | 0 <= i < |t| ensures CanonicalAt(t, i) {
        if i >= k {
          assert CanonicalAt(rest, i - k);
        }
      }
    }
  }

  lemma EncodeIsCanonical(s: string)
    ensures Canonical(Encode(s))
  {
    DecodeEncode(s);
    EncodeDecodeIffCanonical(Encode(s));
  }

  /** A cut between the two characters of a pair. */
  predicate SplitsPair(a: string, b: string) {
    a != [] && b != [] && OpensPair([a[|a| - 1], b[0]])
  }

  lemma {:induction false} DecodeConcat(a: string, b: string)
    requires !SplitsPair(a, b)
    ensures Decode(a + b) == Decode(a) + Decode(b)
  {
    hide Decode;
    if a == [] {
      assert a + b == b;
      DecodeNothing();
    } else {
      var k := if OpensPair(a) then 2 else 1;
      SplitTail(a, b, k);
      DecodeConcat(a[k..], b);
      DecodeHeads(a, b, k);
      var x := [Decode(a)[0]];
      assert x + (Decode(a[k..]) + Decode(b)) == x + Decode(a[k..]) + Decode(b);
    }
  }

  /** A cut inside a pair costs one extra character. */
  lemma {:induction false} DecodeAcross(a: string, b: string)
    requires SplitsPair(a, b)
    ensures |Decode(a + b)| == |Decode(a)| + |Decode(b)| - 1
  {
    if |a| == 1 {
      assert (a + b)[2..] == b[1..];
      DecodeHead(a + b, 2);
      DecodeHead(a, 1);
      DecodeHead(b, 1);
    } else {
      var k := if OpensPair(a) then 2 else 1;
      SplitTail(a, b, k);
      DecodeAcross(a[k..], b);
      DecodeHeads(a, b, k);
    }
  }

  lemma DecodeNothing()
    ensures Decode([]) == []
  {}

  lemma DecodeHeads(a: string, b: string, k: nat)
    requires a != [] && k == (if OpensPair(a) then 2 else 1) && (OpensPair(a + b) <==> OpensPair(a))
    ensures Decode(a) == [Decode(a)[0]] + Decode(a[k..])
    ensures Decode(a + b) == [Decode(a)[0]] + Decode(a[k..] + b)
  {
    assert (a + b)[k..] == a[k..] + b;
    DecodeHead(a + b, k);
    DecodeHead(a, k);
  }

  lemma SplitTail(a: string, b: string, k: nat)
    requires a != [] && k == if OpensPair(a) then 2 else 1
    requires |a| == 1 ==> !SplitsPair(a, b)
    ensures OpensPair(a + b) <==> OpensPair(a)
    ensures (a + b)[k..] == a[k..] + b
    ensures SplitsPair(a[k..], b) <==> SplitsPair(a, b)
  {
    if |a| == 1 && b != [] {
      assert [a[0], b[0]][0] == a[0];
    }
  }

  lemma DecodeHead(t: string, k: nat)
    requires t != [] && k == if OpensPair(t) then 2 else 1
    ensures Decode(t) == [if k == 2 && t[1] == '\n' then '\n' else t[0]] + Decode(t[k..])
  {}

  /** Decoding block by block is right exactly when no cut falls inside a pair. */
  lemma DecodeSplitIff(a: string, b: string)
    ensures Decode(a + b) == Decode(a) + Decode(b) <==> !SplitsPair(a, b)
  {
    if SplitsPair(a, b) {
      DecodeAcross(a, b);
    } else {
      DecodeConcat(a, b);
    }
  }
}
