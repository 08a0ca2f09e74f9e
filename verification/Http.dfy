/** HTTP messages and their headers (individual/lib/HTTP.cpp, lines 9-240). */
module Http {
  import opened Common

  datatype Header = Header(key: string, value: string)

  /** The three fields of a request line (method, URL, version) or of a status line (version, code,
      reason): both are written and read alike. */
  datatype StartLine = StartLine(first: string, second: string, third: string)

  datatype Message = Message(line: StartLine, headers: seq<Header>, data: string)

  const CRLF: string := "\r\n"
  const CONTENT_LENGTH: string := "Content-Length"
  const TRANSFER_ENCODING: string := "Transfer-Encoding"

  function SerializeLine(l: StartLine): string { l.first + " " + l.second + " " + l.third }

  function SerializeHeader(h: Header): string { h.key + ": " + h.value }

  function SerializeHeaders(hs: seq<Header>): string {
    if hs == [] then "" else SerializeHeader(hs[0]) + CRLF + SerializeHeaders(hs[1..])
  }

  function Serialize(m: Message): string {
    SerializeLine(m.line) + CRLF + SerializeHeaders(m.headers) + CRLF + m.data
  }

  // ----- the header list and its index -----

  function FirstValue(hs: seq<Header>, key: string): Option<string> {
    if hs == [] then None else if hs[0].key == key then Some(hs[0].value) else FirstValue(hs[1..], key)
  }

  /** The index: each key with the value of its first header. */
  function Index(hs: seq<Header>): map<string, string> {
    if hs == [] then map[] else Index(hs[1..])[hs[0].key := hs[0].value]
  }

  function Replaced(hs: seq<Header>, h: Header): seq<Header> {
    if hs == [] then [] else [if hs[0].key == h.key then h else hs[0]] + Replaced(hs[1..], h)
  }

  function Updated(hs: seq<Header>, h: Header): seq<Header> {
    if FirstValue(hs, h.key) == None then hs + [h] else Replaced(hs, h)
  }

  function Removed(hs: seq<Header>, key: string): seq<Header> {
    if hs == [] then [] else (if hs[0].key == key then [] else [hs[0]]) + Removed(hs[1..], key)
  }

  lemma {:induction false} FindInIndex(hs: seq<Header>, key: string)
    ensures FirstValue(hs, key) == if key in Index(hs) then Some(Index(hs)[key]) else None
  {
    if hs != [] {
      FindInIndex(hs[1..], key);
    }
  }

  lemma {:induction false} IndexAppend(hs: seq<Header>, h: Header)
    ensures Index(hs + [h]) == if h.key in Index(hs) then Index(hs) else Index(hs)[h.key := h.value]
  {
    if hs == [] {
      assert [] + [h] == [h] && [h][1..] == [];
    } else {
      assert (hs + [h])[1..] == hs[1..] + [h];
      IndexAppend(hs[1..], h);
    }
  }

  lemma {:induction false} IndexReplaced(hs: seq<Header>, h: Header)
    ensures Index(Replaced(hs, h)) == if h.key in Index(hs) then Index(hs)[h.key := h.value] else Index(hs)
  {
    if hs != [] {
      IndexReplaced(hs[1..], h);
      assert Replaced(hs, h)[1..] == Replaced(hs[1..], h);
    }
  }

  lemma {:induction false} IndexRemoved(hs: seq<Header>, key: string)
    ensures Index(Removed(hs, key)) == Index(hs) - {key}
  {
    if hs != [] {
      IndexRemoved(hs[1..], key);
      if hs[0].key == key {
        assert Removed(hs, key) == Removed(hs[1..], key);
      } else {
        assert Removed(hs, key)[1..] == Removed(hs[1..], key);
      }
    }
  }

  lemma {:induction false} FirstValueReplaced(hs: seq<Header>, h: Header, key: string)
    ensures FirstValue(Replaced(hs, h), key) ==
            if key == h.key && FirstValue(hs, key).Some? then Some(h.value) else FirstValue(hs, key)
  {
    if hs != [] {
      FirstValueReplaced(hs[1..], h, key);
      assert Replaced(hs, h)[1..] == Replaced(hs[1..], h);
    }
  }

  lemma {:induction false} FirstValueAppend(hs: seq<Header>, h: Header, key: string)
    ensures FirstValue(hs + [h], key) ==
            if FirstValue(hs, key).Some? then FirstValue(hs, key) else if key == h.key then Some(h.value) else None
  {
    if hs == [] {
      assert [] + [h] == [h];
    } else {
      assert (hs + [h])[1..] == hs[1..] + [h];
      FirstValueAppend(hs[1..], h, key);
    }
  }

  lemma FirstValueUpdated(hs: seq<Header>, h: Header, key: string)
    ensures FirstValue(Updated(hs, h), key) == if key == h.key then Some(h.value) else FirstValue(hs, key)
  {
    FirstValueReplaced(hs, h, key);
    FirstValueAppend(hs, h, key);
  }

  lemma {:induction false} FirstValueRemoved(hs: seq<Header>, removed: string, key: string)
    ensures FirstValue(Removed(hs, removed), key) == if key == removed then None else FirstValue(hs, key)
  {
    if hs != [] {
      FirstValueRemoved(hs[1..], removed, key);
      if hs[0].key == removed {
        assert Removed(hs, removed) == Removed(hs[1..], removed);
      } else {
        assert Removed(hs, removed)[1..] == Removed(hs[1..], removed);
      }
    }
  }

  /** Any sequence of header operations. */
  datatype Op = Append(h: Header) | Update(h: Header) | Remove(key: string)

  function ApplyOp(hs: seq<Header>, op: Op): seq<Header> {
    match op
    case Append(h) => hs + [h]
    case Update(h) => Updated(hs, h)
    case Remove(key) => Removed(hs, key)
  }

  function ApplyOps(hs: seq<Header>, ops: seq<Op>): seq<Header>
    decreases |ops|
  {
    if ops == [] then hs else ApplyOps(ApplyOp(hs, ops[0]), ops[1..])
  }

  /** What the operations do to the index alone, never looking at the list. */
  function IndexOp(index: map<string, string>, op: Op): map<string, string> {
    match op
    case Append(h) => if h.key in index then index else index[h.key := h.value]
    case Update(h) => index[h.key := h.value]
    case Remove(key) => index - {key}
  }

  function IndexOps(index: map<string, string>, ops: seq<Op>): map<string, string>
    decreases |ops|
  {
    if ops == [] then index else IndexOps(IndexOp(index, ops[0]), ops[1..])
  }

  /** The index can be kept up without the list: after any operations it still holds first values. */
  lemma {:induction false} IndexAgrees(hs: seq<Header>, ops: seq<Op>)
    ensures Index(ApplyOps(hs, ops)) == IndexOps(Index(hs), ops)
    decreases |ops|
  {
    if ops != [] {
      IndexAfterOp(hs, ops[0]);
      IndexAgrees(ApplyOp(hs, ops[0]), ops[1..]);
    }
  }

  lemma IndexAfterOp(hs: seq<Header>, op: Op)
    ensures Index(ApplyOp(hs, op)) == IndexOp(Index(hs), op)
  {
    match op
    case Append(h) => IndexAppend(hs, h);
    case Update(h) =>
      FindInIndex(hs, h.key);
      IndexAppend(hs, h);
      IndexReplaced(hs, h);
    case Remove(key) => IndexRemoved(hs, key);
  }

  /** THttpHeaders. */
  class HttpHeaders {
    var headers: seq<Header>
    var values: map<string, string>

    /** The list and the index agree. */
    ghost predicate Valid()
      reads this
    {
      values == Index(headers)
    }

    constructor (hs: seq<Header>)
      ensures Valid() && headers == hs
    {
      var index: map<string, string> := map[];
      for i := 0 to |hs|
        invariant index == Index(hs[..i])
      {
        assert hs[..i + 1] == hs[..i] + [hs[i]];
        IndexAppend(hs[..i], hs[i]);
        if hs[i].key !in index {
          index := index[hs[i].key := hs[i].value];
        }
      }
      assert hs[..|hs|] == hs;
      headers := hs;
      values := index;
    }

    method Append(h: Header)
      requires Valid()
      modifies this
      ensures Valid() && headers == old(headers) + [h]
    {
      IndexAppend(headers, h);
      headers := headers + [h];
      if h.key !in values {
        values := values[h.key := h.value];
      }
    }

    method Update(h: Header)
      requires Valid()
      modifies this
      ensures Valid() && headers == Updated(old(headers), h)
    {
      FindInIndex(headers, h.key);
      if h.key !in values {
        Append(h);
        return;
      }
      IndexReplaced(headers, h);
      values := values[h.key := h.value];
      var hs := headers;
      for i := 0 to |hs|
        modifies {}
        invariant |hs| == |headers| && hs == Replaced(headers[..i], h) + headers[i..]
      {
        ReplaceNext(headers, hs, h, i);
        if hs[i].key == h.key {
          hs := hs[i := h];
        }
      }
      assert headers[..|headers|] == headers && headers[|headers|..] == [];
      assert hs == Replaced(headers, h);
      headers := hs;
    }

    method Remove(key: string)
      requires Valid()
      modifies this
      ensures Valid() && headers == Removed(old(headers), key)
    {
      IndexRemoved(headers, key);
      values := values - {key};
      var kept: seq<Header> := [];
      for i := 0 to |headers|
        modifies {}
        invariant kept == Removed(headers[..i], key)
      {
        RemovedSnoc(headers[..i], headers[i], key);
        assert headers[..i + 1] == headers[..i] + [headers[i]];
        if headers[i].key != key {
          kept := kept + [headers[i]];
        }
      }
      assert headers[..|headers|] == headers;
      headers := kept;
    }

    /** Looking a key up in the index is searching the list for its first header. */
    method Find(key: string) returns (r: Option<Header>)
      requires Valid()
      ensures r == match FirstValue(headers, key) case None => None case Some(v) => Some(Header(key, v))
    {
      FindInIndex(headers, key);
      if key !in values {
        return None;
      }
      return Some(Header(key, values[key]));
    }
  }

  lemma {:induction false} ReplacedConcat(a: seq<Header>, b: seq<Header>, h: Header)
    ensures Replaced(a + b, h) == Replaced(a, h) + Replaced(b, h)
  {
    if a == [] {
      assert a + b == b;
    } else {
      assert (a + b)[1..] == a[1..] + b;
      ReplacedConcat(a[1..], b, h);
    }
  }

  lemma {:induction false} ReplacedLength(hs: seq<Header>, h: Header)
    ensures |Replaced(hs, h)| == |hs|
  {
    if hs != [] {
      ReplacedLength(hs[1..], h);
    }
  }

  lemma ReplacedSnoc(hs: seq<Header>, h: Header, i: nat)
    requires i < |hs|
    ensures |Replaced(hs[..i], h)| == i
    ensures Replaced(hs[..i + 1], h) == Replaced(hs[..i], h) + [if hs[i].key == h.key then h else hs[i]]
  {
    assert hs[..i + 1] == hs[..i] + [hs[i]];
    ReplacedConcat(hs[..i], [hs[i]], h);
    ReplacedLength(hs[..i], h);
    assert [hs[i]][1..] == [];
  }

  lemma ReplaceNext(all: seq<Header>, hs: seq<Header>, h: Header, i: nat)
    requires i < |all| && hs == Replaced(all[..i], h) + all[i..]
    ensures |hs| == |all| && hs[i] == all[i]
    ensures (if hs[i].key == h.key then hs[i := h] else hs) == Replaced(all[..i + 1], h) + all[i + 1..]
  {
    hide Replaced;
    ReplacedSnoc(all, h, i);
    var done, rest := Replaced(all[..i], h), all[i + 1..];
    var next := if all[i].key == h.key then h else all[i];
    assert hs == done + [all[i]] + rest;
    assert hs[i := next] == done + [next] + rest && hs[i := all[i]] == hs;
  }

  lemma {:induction false} RemovedSnoc(hs: seq<Header>, h: Header, key: string)
    ensures Removed(hs + [h], key) == Removed(hs, key) + (if h.key == key then [] else [h])
  {
    if hs == [] {
      assert [] + [h] == [h] && [h][1..] == [];
    } else {
      var all := hs + [h];
      assert all[1..] == hs[1..] + [h] && all[0] == hs[0];
      RemovedSnoc(hs[1..], h, key);
      var head := if hs[0].key == key then [] else [hs[0]];
      assert Removed(all, key) == head + Removed(all[1..], key);
    }
  }

  // ----- what the operations leave alone -----

  predicate Lacks(hs: seq<Header>, key: string) { forall i :: 0 <= i < |hs| ==> hs[i].key != key }

  /** Removing a key removes each of its headers and nothing else, in place. */
  lemma {:induction false} RemovedAt(a: seq<Header>, h: Header, b: seq<Header>)
    ensures Removed(a + [h] + b, h.key) == Removed(a + b, h.key)
    decreases |a|
  {
    var all := a + [h] + b;
    if a == [] {
      assert all == [h] + b && a + b == b && all[1..] == b;
      assert [] + Removed(b, h.key) == Removed(b, h.key);
    } else {
      assert all[0] == a[0] && (a + b)[0] == a[0];
      assert all[1..] == a[1..] + [h] + b && (a + b)[1..] == a[1..] + b;
      RemovedAt(a[1..], h, b);
    }
  }

  lemma {:induction false} RemovedOthers(hs: seq<Header>, key: string)
    requires Lacks(hs, key)
    ensures Removed(hs, key) == hs
  {
    if hs != [] {
      RemovedOthers(hs[1..], key);
      assert hs == [hs[0]] + hs[1..];
    }
  }

  /** Updating a key changes the value of each of its headers, in place, or adds one at the end. */
  lemma {:induction false} ReplacedAt(hs: seq<Header>, h: Header, i: nat)
    requires i < |hs|
    ensures |Replaced(hs, h)| == |hs| && Replaced(hs, h)[i] == if hs[i].key == h.key then h else hs[i]
  {
    ReplacedLength(hs, h);
    if i > 0 {
      ReplacedAt(hs[1..], h, i - 1);
    }
  }

  lemma {:induction false} NoValue(hs: seq<Header>, key: string)
    ensures FirstValue(hs, key) == None <==> Lacks(hs, key)
  {
    if hs != [] {
      NoValue(hs[1..], key);
    }
  }

  lemma {:induction false} FirstValueIs(a: seq<Header>, h: Header, b: seq<Header>)
    requires Lacks(a, h.key)
    ensures FirstValue(a + [h] + b, h.key) == Some(h.value)
    decreases |a|
  {
    var all := a + [h] + b;
    if a != [] {
      assert all[0] == a[0] && all[1..] == a[1..] + [h] + b;
      FirstValueIs(a[1..], h, b);
    }
  }

  lemma UpdatedLength(hs: seq<Header>, h: Header)
    ensures |Updated(hs, h)| >= |hs|
  {
    ReplacedLength(hs, h);
  }

  lemma UpdatedAt(hs: seq<Header>, h: Header, i: nat)
    requires i < |Updated(hs, h)|
    ensures |Updated(hs, h)| == if Lacks(hs, h.key) then |hs| + 1 else |hs|
    ensures Updated(hs, h)[i] == if i == |hs| || hs[i].key == h.key then h else hs[i]
  {
    NoValue(hs, h.key);
    ReplacedLength(hs, h);
    if i < |hs| {
      ReplacedAt(hs, h, i);
    }
  }

  // ----- values as lists of directives -----

  predicate IsSeparator(c: char) { c == ' ' || c == ',' }

  function Word(v: string): (n: nat)
    ensures n <= |v| && (n < |v| ==> IsSeparator(v[n]))
    ensures forall i :: 0 <= i < n ==> !IsSeparator(v[i])
  {
    if v == [] || IsSeparator(v[0]) then 0 else 1 + Word(v[1..])
  }

  /** The maximal runs of characters other than blanks and commas. */
  function Directives(v: string): seq<string>
    decreases |v|
  {
    if v == [] then []
    else if IsSeparator(v[0]) then Directives(v[1..])
    else [v[..Word(v)]] + Directives(v[Word(v)..])
  }

  lemma WordIs(v: string, n: nat)
    requires n <= |v| && (n < |v| ==> IsSeparator(v[n])) && forall i :: 0 <= i < n ==> !IsSeparator(v[i])
    ensures Word(v) == n
  {}

  /** The first n characters are no separators, and what follows them is one or the end. */
  lemma DirectivesFrom(v: string, n: nat)
    requires n <= |v| && (n < |v| ==> IsSeparator(v[n])) && forall i :: 0 <= i < n ==> !IsSeparator(v[i])
    ensures var after := if n < |v| then v[n + 1..] else "";
      Directives(v) == (if n > 0 then [v[..n]] else []) + Directives(after)
  {
    WordIs(v, n);
    if n < |v| {
      SeparatorFirst(v[n..]);
      assert v[n..][1..] == v[n + 1..];
    } else {
      assert v[n..] == "";
    }
  }

  lemma SeparatorFirst(v: string)
    requires v != "" && IsSeparator(v[0])
    ensures Directives(v) == Directives(v[1..])
  {}

  /** The piece of v from start to a separator or to the end is one directive, unless it is empty. */
  lemma NextDirective(v: string, start: nat, i: nat, ret: seq<string>)
    requires start <= i <= |v| && (i < |v| ==> IsSeparator(v[i]))
    requires forall j :: start <= j < i ==> !IsSeparator(v[j])
    ensures ret + Directives(v[start..]) ==
            (if i > start then ret + [v[start..i]] else ret) + Directives(if i < |v| then v[i + 1..] else "")
  {
    hide Directives;
    var rest := v[start..];
    var after := if i < |v| then v[i + 1..] else "";
    DirectivesFrom(rest, i - start);
    assert rest[..i - start] == v[start..i];
    assert i < |v| ==> rest[i - start + 1..] == after;
    if i > start {
      assert ret + ([v[start..i]] + Directives(after)) == ret + [v[start..i]] + Directives(after);
    } else {
      assert [] + Directives(after) == Directives(after);
    }
  }

  method SplitValue(value: string) returns (ret: seq<string>)
    ensures ret == Directives(value)
  {
    hide Directives;
    ret := [];
    var start := 0;
    assert value[0..] == value;
    for i := 0 to |value|
      invariant start <= i
      invariant forall j :: start <= j < i ==> !IsSeparator(value[j])
      invariant Directives(value) == ret + Directives(value[start..])
    {
      if value[i] == ' ' || value[i] == ',' {
        NextDirective(value, start, i, ret);
        if i > start {
          ret := ret + [value[start..i]];
        }
        start := i + 1;
      }
    }
    NextDirective(value, start, |value|, ret);
    if start < |value| {
      ret := ret + [value[start..]];
      assert value[start..|value|] == value[start..];
    }
    NoDirectives();
  }

  lemma NoDirectives()
    ensures Directives("") == []
  {}

  /** A separator between two values separates their directives. */
  lemma {:induction false} DirectivesJoin(a: string, sep: char, b: string)
    requires IsSeparator(sep)
    ensures Directives(a + [sep] + b) == Directives(a) + Directives(b)
    decreases |a|
  {
    hide Directives;
    var v := a + [sep] + b;
    if a == "" {
      assert v[1..] == b;
      SeparatorFirst(v);
      NoDirectives();
      assert [] + Directives(b) == Directives(b);
    } else if IsSeparator(a[0]) {
      assert v[1..] == a[1..] + [sep] + b;
      SeparatorFirst(v);
      SeparatorFirst(a);
      DirectivesJoin(a[1..], sep, b);
    } else {
      var n := Word(a);
      if n == |a| {
        WholeWord(a, sep, b);
      } else {
        WordAhead(a, n);
        WordIs(v, n);
        WordAhead(v, n);
        assert v[..n] == a[..n] && v[n + 1..] == a[n + 1..] + [sep] + b;
        DirectivesJoin(a[n + 1..], sep, b);
        var w, x, y := [a[..n]], Directives(a[n + 1..]), Directives(b);
        assert w + (x + y) == w + x + y;
      }
    }
  }

  /** A word that is a whole value. */
  lemma WholeWord(a: string, sep: char, b: string)
    requires a != "" && IsSeparator(sep) && Word(a) == |a|
    ensures Directives(a) == [a] && Directives(a + [sep] + b) == [a] + Directives(b)
  {
    hide Directives;
    DirectivesOfWord(a);
    WordThen(a, sep, b);
  }

  /** A word that something follows. */
  lemma WordAhead(a: string, n: nat)
    requires 0 < n < |a| && n == Word(a)
    ensures Directives(a) == [a[..n]] + Directives(a[n + 1..])
  {
    hide Directives, Word;
    SplitAt(a, n);
    WordThen(a[..n], a[n], a[n + 1..]);
  }

  lemma SplitAt(a: string, n: nat)
    requires n < |a|
    ensures a == a[..n] + [a[n]] + a[n + 1..]
  {}

  lemma WordThen(w: string, c: char, rest: string)
    requires w != "" && IsSeparator(c) && forall i :: 0 <= i < |w| ==> !IsSeparator(w[i])
    ensures Directives(w + [c] + rest) == [w] + Directives(rest)
  {
    hide Directives;
    var v := w + [c] + rest;
    assert v[..|w|] == w && v[|w| + 1..] == rest;
    DirectivesFrom(v, |w|);
  }

  lemma DirectivesOfWord(w: string)
    requires w != "" && forall i :: 0 <= i < |w| ==> !IsSeparator(w[i])
    ensures Directives(w) == [w]
  {
    WordIs(w, |w|);
    assert w[..|w|] == w;
  }

  /** A maximal run of characters other than blanks and commas, from i to j. */
  predicate RunAt(v: string, i: nat, j: nat) {
    && i < j <= |v|
    && (forall k :: i <= k < j ==> v[k] != ' ' && v[k] != ',')
    && (i == 0 || v[i - 1] == ' ' || v[i - 1] == ',')
    && (j == |v| || v[j] == ' ' || v[j] == ',')
  }

  /** The word is one of the runs of v. */
  ghost predicate HasRun(v: string, w: string) { exists i: nat, j: nat :: RunAt(v, i, j) && v[i..j] == w }

  /** The directives of a value are exactly its runs. */
  lemma {:induction false} DirectivesAreRuns(v: string, w: string)
    ensures w in Directives(v) <==> HasRun(v, w)
    decreases |v|
  {
    hide Directives;
    if v == "" {
      NoDirectives();
    } else if IsSeparator(v[0]) {
      SeparatorFirst(v);
      DirectivesAreRuns(v[1..], w);
      RunsLater(v, 1, w);
    } else {
      var n := Word(v);
      DirectivesFrom(v, n);
      FirstRun(v, n);
      var skip := if n < |v| then n + 1 else n;
      assert (if n < |v| then v[n + 1..] else "") == v[skip..];
      DirectivesAreRuns(v[skip..], w);
      RunsLater(v, skip, w);
    }
  }

  /** The run at the start of v is its first word. */
  lemma FirstRun(v: string, n: nat)
    requires v != "" && !IsSeparator(v[0]) && n == Word(v)
    ensures n > 0 && RunAt(v, 0, n)
    ensures forall i: nat, j: nat :: RunAt(v, i, j) && i <= n ==> i == 0 && j == n
  {
    forall i: nat, j: nat | RunAt(v, i, j) && i <= n ensures i == 0 && j == n {
      assert i > 0 ==> !IsSeparator(v[i - 1]);
    }
  }

  /** Apart from a run that starts before skip, the runs of v are those of what follows a separator. */
  lemma RunsLater(v: string, skip: nat, w: string)
    requires 1 <= skip <= |v| && (IsSeparator(v[skip - 1]) || skip == |v|)
    ensures HasRun(v[skip..], w) <==> exists i: nat, j: nat :: skip <= i && RunAt(v, i, j) && v[i..j] == w
    ensures HasRun(v, w) <==> HasRun(v[skip..], w) || exists i: nat, j: nat :: i < skip && RunAt(v, i, j) && v[i..j] == w
  {
    var rest := v[skip..];
    if i: nat, j: nat :| RunAt(rest, i, j) && rest[i..j] == w {
      RunShifts(v, skip, i, j);
      assert RunAt(v, skip + i, skip + j) && v[skip + i..skip + j] == w;
    }
    if i: nat, j: nat :| skip <= i && RunAt(v, i, j) && v[i..j] == w {
      RunShiftsBack(v, skip, i, j);
      assert RunAt(rest, i - skip, j - skip) && rest[i - skip..j - skip] == w;
    }
  }

  lemma RunShiftsBack(v: string, skip: nat, i: nat, j: nat)
    requires skip <= |v| && skip <= i && RunAt(v, i, j)
    ensures RunAt(v[skip..], i - skip, j - skip) && v[skip..][i - skip..j - skip] == v[i..j]
  {
    var rest := v[skip..];
    forall k | i - skip <= k < j - skip ensures rest[k] != ' ' && rest[k] != ',' {
      assert rest[k] == v[k + skip];
    }
  }

  lemma RunShifts(v: string, skip: nat, i: nat, j: nat)
    requires 1 <= skip <= |v| && IsSeparator(v[skip - 1]) && RunAt(v[skip..], i, j)
    ensures RunAt(v, skip + i, skip + j) && v[skip + i..skip + j] == v[skip..][i..j]
  {
    forall k | skip + i <= k < skip + j ensures v[k] != ' ' && v[k] != ',' {
      assert v[k] == v[skip..][k - skip];
    }
  }
}
