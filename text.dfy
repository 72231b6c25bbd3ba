/**
 The string operations the converters rely on: Java's `String.isBlank`,
 `String.trim`/`String.strip`, `String.indexOf(char)`, and Guava's
 `Splitter.on(sep).limit(n)` with its inverse, joining with the separator.
 */
module Text {

  /** The whitespace class shared, in this model, by `String.isBlank`,
      `String.trim`, `String.strip` and Guava's `CharMatcher.whitespace()`:
      the six ASCII whitespace characters on which all four agree. */
  predicate IsWhitespace(c: char) {
    c == ' ' || c == '\t' || c == '\n' || c == '\U{000B}' || c == '\U{000C}' || c == '\r'
  }

  /** `String.isBlank`: empty, or whitespace only. */
  predicate IsBlank(s: string) {
    forall i :: 0 <= i < |s| ==> IsWhitespace(s[i])
  }

  /** Neither end of `s` is whitespace. */
  predicate IsTrimmed(s: string) {
    s != [] ==> !IsWhitespace(s[0]) && !IsWhitespace(s[|s| - 1])
  }

  /** Drops leading whitespace: the result is the longest suffix of `s`
      that does not start with whitespace. */
  function TrimStart(s: string): (r: string)
    ensures |r| <= |s| && r == s[|s| - |r|..]
    ensures forall i :: 0 <= i < |s| - |r| ==> IsWhitespace(s[i])
    ensures r != [] ==> !IsWhitespace(r[0])
  {
    if s != [] && IsWhitespace(s[0]) then
      var r := TrimStart(s[1..]);
      assert s[1..][|s| - 1 - |r|..] == s[|s| - |r|..];
      assert forall i :: 1 <= i < |s| - |r| ==> s[i] == s[1..][i - 1];
      r
    else s
  }

  /** Drops trailing whitespace: the result is the longest prefix of `s`
      that does not end with whitespace. */
  function TrimEnd(s: string): (r: string)
    ensures |r| <= |s| && r == s[..|r|]
    ensures forall i :: |r| <= i < |s| ==> IsWhitespace(s[i])
    ensures r != [] ==> !IsWhitespace(r[|r| - 1])
  {
    if s != [] && IsWhitespace(s[|s| - 1]) then
      var r := TrimEnd(s[..|s| - 1]);
      assert s[..|s| - 1][..|r|] == s[..|r|];
      assert forall i :: |r| <= i < |s| - 1 ==> s[i] == s[..|s| - 1][i];
      r
    else s
  }

  /** `String.trim` (and `strip`, and each result of Guava's `trimResults`):
      the input with its leading and trailing whitespace removed. Which
      piece of the input that is, is stated by `TrimUnique` below. */
  function Trim(s: string): (r: string)
    ensures IsTrimmed(r)
    ensures |r| <= |s|
    ensures r == [] <==> IsBlank(s)
  {
    var t := TrimStart(s);
    assert t != [] ==> t[0] == s[|s| - |t|];
    TrimEnd(t)
  }

  /** Leading whitespace in front of a piece that does not start with
      whitespace is exactly what `TrimStart` removes. */
  lemma {:induction false} TrimStartUnique(a: string, y: string)
    requires IsBlank(a) && (y != [] ==> !IsWhitespace(y[0]))
    ensures TrimStart(a + y) == y
    decreases |a|
  {
    if a != [] {
      assert (a + y)[0] == a[0] && (a + y)[1..] == a[1..] + y;
      TrimStartUnique(a[1..], y);
    }
  }

  /** Trailing whitespace after a piece that does not end with whitespace
      is exactly what `TrimEnd` removes. */
  lemma {:induction false} TrimEndUnique(y: string, b: string)
    requires IsBlank(b) && (y != [] ==> !IsWhitespace(y[|y| - 1]))
    ensures TrimEnd(y + b) == y
    decreases |b|
  {
    if b != [] {
      var s := y + b;
      assert s[|s| - 1] == b[|b| - 1] && s[..|s| - 1] == y + b[..|b| - 1];
      TrimEndUnique(y, b[..|b| - 1]);
    } else {
      assert y + b == y;
    }
  }

  /** The trim is determined: whitespace, then a piece with no whitespace
      at either end, then whitespace, trims to that piece. Every string
      splits that way, so this fixes `Trim`'s result on every input. */
  lemma TrimUnique(a: string, x: string, b: string)
    requires IsBlank(a) && IsTrimmed(x) && IsBlank(b)
    ensures Trim(a + x + b) == x
  {
    var s := a + x + b;
    if x == [] {
      assert s == a + b;
      assert IsBlank(s) by {
        forall k | 0 <= k < |s| ensures IsWhitespace(s[k]) {
          if k < |a| { assert s[k] == a[k]; } else { assert s[k] == b[k - |a|]; }
        }
      }
    } else {
      assert s == a + (x + b) && (x + b)[0] == x[0];
      TrimStartUnique(a, x + b);
      TrimEndUnique(x, b);
    }
  }

  /** A string without whitespace at either end is its own trim. */
  lemma TrimOfTrimmed(s: string)
    requires IsTrimmed(s)
    ensures Trim(s) == s
  {
    TrimUnique([], s, []);
    assert [] + s + [] == s;
  }

  /** `TrimStart` keeps every character after the leading whitespace. */
  lemma {:induction false} TrimStartKeeps(s: string, c: char)
    ensures c in TrimStart(s) ==> c in s
    ensures !IsWhitespace(c) && c in s ==> c in TrimStart(s)
    decreases |s|
  {
    if s != [] && IsWhitespace(s[0]) {
      assert s == [s[0]] + s[1..];
      TrimStartKeeps(s[1..], c);
    }
  }

  /** `TrimEnd` keeps every character before the trailing whitespace. */
  lemma {:induction false} TrimEndKeeps(s: string, c: char)
    ensures c in TrimEnd(s) ==> c in s
    ensures !IsWhitespace(c) && c in s ==> c in TrimEnd(s)
    decreases |s|
  {
    if s != [] && IsWhitespace(s[|s| - 1]) {
      assert s == s[..|s| - 1] + [s[|s| - 1]];
      TrimEndKeeps(s[..|s| - 1], c);
    }
  }

  /** Trimming removes only whitespace: a character of the trim occurs in
      the input, and every non-whitespace character of the input survives. */
  lemma TrimKeeps(s: string, c: char)
    ensures c in Trim(s) ==> c in s
    ensures !IsWhitespace(c) && c in s ==> c in Trim(s)
  {
    TrimStartKeeps(s, c);
    TrimEndKeeps(TrimStart(s), c);
  }

  /** Trimming twice (`s.trim().strip()`) is trimming once. */
  lemma TrimIdempotent(s: string)
    ensures Trim(Trim(s)) == Trim(s)
  {
    TrimOfTrimmed(Trim(s));
  }

  /** `String.indexOf(char)`: the first position of `c`, or -1 when absent. */
  function IndexOf(s: string, c: char): (r: int)
    ensures -1 <= r < |s|
    ensures r == -1 <==> c !in s
    ensures 0 <= r ==> s[r] == c && c !in s[..r]
  {
    if s == [] then -1
    else if s[0] == c then 0
    else
      var k := IndexOf(s[1..], c);
      assert s[1..][..k + 1] == s[1..k + 2] by { if k >= 0 { } }
      if k < 0 then -1 else k + 1
  }

  /** The position found is the length of the separator-free prefix. */
  lemma IndexOfAfterPrefix(a: string, c: char, b: string)
    requires c !in a
    ensures IndexOf(a + [c] + b, c) == |a|
  {
    var s := a + [c] + b;
    var r := IndexOf(s, c);
    assert s[|a|] == c;
    assert a == s[..|a|];
  }

  /** The pieces put back together, with `sep` between consecutive pieces. */
  function Join(pieces: seq<string>, sep: char): string {
    if |pieces| == 0 then ""
    else if |pieces| == 1 then pieces[0]
    else pieces[0] + [sep] + Join(pieces[1..], sep)
  }

  /** A character absent from the joined string is absent from every piece. */
  lemma {:induction false} JoinExcludes(pieces: seq<string>, sep: char, c: char)
    requires c !in Join(pieces, sep)
    ensures forall k :: 0 <= k < |pieces| ==> c !in pieces[k]
    decreases |pieces|
  {
    if |pieces| >= 2 {
      JoinExcludes(pieces[1..], sep, c);
      forall k | 1 <= k < |pieces| ensures c !in pieces[k] {
        assert pieces[k] == pieces[1..][k - 1];
      }
    }
  }

  /** Guava's `Splitter.on(sep).limit(limit)` without result trimming:
      split at the first `limit - 1` occurrences of `sep`; the last piece
      keeps the rest of the string, further separators included, and
      empty pieces are kept. */
  function SplitLimit(s: string, sep: char, limit: nat): (pieces: seq<string>)
    requires limit >= 1
    ensures 1 <= |pieces| <= limit
    ensures Join(pieces, sep) == s
    ensures forall i :: 0 <= i < |pieces| - 1 ==> sep !in pieces[i]
    ensures |pieces| < limit ==> sep !in pieces[|pieces| - 1]
    decreases limit
  {
    var i := IndexOf(s, sep);
    if i < 0 || limit == 1 then [s]
    else
      var head, tail := s[..i], s[i + 1..];
      assert s == head + [sep] + tail;
      var rest := SplitLimit(tail, sep, limit - 1);
      var pieces := [head] + rest;
      assert pieces[1..] == rest;
      pieces
  }

  /** One separator fewer after the first one. */
  lemma CountAfterFirst(s: string, sep: char)
    requires IndexOf(s, sep) >= 0
    ensures multiset(s)[sep] == 1 + multiset(s[IndexOf(s, sep) + 1..])[sep]
  {
    var i := IndexOf(s, sep);
    var head, tail := s[..i], s[i + 1..];
    assert s == head + [sep] + tail;
    assert multiset(s) == multiset(head) + multiset([sep]) + multiset(tail);
    assert sep !in multiset(head);
  }

  /** The number of pieces is one more than the number of separators,
      capped at `limit`. */
  lemma {:induction false} SplitLimitCount(s: string, sep: char, limit: nat)
    requires limit >= 1
    ensures |SplitLimit(s, sep, limit)| == if multiset(s)[sep] < limit then multiset(s)[sep] + 1 else limit
    decreases limit
  {
    var i := IndexOf(s, sep);
    if i < 0 {
      assert sep !in multiset(s);
    } else {
      CountAfterFirst(s, sep);
      if limit > 1 {
        SplitLimitCount(s[i + 1..], sep, limit - 1);
      }
    }
  }

  /** Splitting after a separator-free prefix: that prefix is the first piece. */
  lemma SplitLimitStep(s: string, a: string, sep: char, b: string, limit: nat)
    requires s == a + [sep] + b
    requires sep !in a && limit >= 2
    ensures SplitLimit(s, sep, limit) == [a] + SplitLimit(b, sep, limit - 1)
  {
    IndexOfAfterPrefix(a, sep, b);
    assert s[..|a|] == a;
    assert s[|a| + 1..] == b;
  }

  /** Guava's `trimResults()`: each piece trimmed. */
  function TrimResults(pieces: seq<string>): (r: seq<string>)
    ensures |r| == |pieces|
    ensures forall i :: 0 <= i < |r| ==> r[i] == Trim(pieces[i])
    ensures forall i :: 0 <= i < |r| ==> IsTrimmed(r[i]) && |r[i]| <= |pieces[i]|
  {
    seq(|pieces|, i requires 0 <= i < |pieces| => Trim(pieces[i]))
  }

  /** The shape of a split into at most `limit` pieces: all pieces but the
      last are free of `sep`, and so is the last one unless the limit was
      reached. */
  predicate SplitShape(p: seq<string>, sep: char, limit: nat) {
    1 <= |p| <= limit &&
    (forall i :: 0 <= i < |p| - 1 ==> sep !in p[i]) &&
    (|p| < limit ==> sep !in p[|p| - 1])
  }

  /** A split shape stays one after its first piece is removed. */
  lemma SplitShapeTail(p: seq<string>, sep: char, limit: nat)
    requires SplitShape(p, sep, limit) && |p| >= 2
    ensures sep !in p[0] && SplitShape(p[1..], sep, limit - 1)
  {
    var rest := p[1..];
    assert rest[|rest| - 1] == p[|p| - 1];
    forall k | 0 <= k < |rest| - 1 ensures sep !in rest[k] {
      assert rest[k] == p[k + 1];
    }
  }

  /** A single piece of split shape is the whole string. */
  lemma SplitLimitSingle(s: string, sep: char, limit: nat, p: seq<string>)
    requires limit >= 1 && |p| == 1
    requires SplitShape(p, sep, limit)
    requires Join(p, sep) == s
    ensures p == SplitLimit(s, sep, limit)
  {
    assert s == p[0];
    if limit > 1 {
      assert IndexOf(s, sep) == -1;
    }
    assert p == [s];
  }

  /** A first piece of split shape in front of the split of the rest is
      the split of the whole string; `m` is the limit left for the rest. */
  lemma SplitLimitCons(sep: char, limit: nat, m: nat, p: seq<string>)
    requires limit >= 2 && m == limit - 1 && |p| >= 2
    requires sep !in p[0]
    requires p[1..] == SplitLimit(Join(p[1..], sep), sep, m)
    ensures p == SplitLimit(Join(p, sep), sep, limit)
  {
    var s, rest, tail := Join(p, sep), p[1..], Join(p[1..], sep);
    assert s == p[0] + [sep] + tail;
    SplitLimitStep(s, p[0], sep, tail, limit);
    assert SplitLimit(tail, sep, limit - 1) == rest;
    assert p == [p[0]] + rest;
  }

  /** The properties in SplitLimit's contract determine its result: any
      sequence of pieces of that shape that joins back to `s` is the split. */
  lemma {:induction false} SplitLimitUnique(s: string, sep: char, limit: nat, p: seq<string>)
    requires limit >= 1
    requires SplitShape(p, sep, limit)
    requires Join(p, sep) == s
    ensures p == SplitLimit(s, sep, limit)
    decreases limit
  {
    if |p| == 1 {
      SplitLimitSingle(s, sep, limit, p);
    } else {
      var m: nat := limit - 1;
      SplitShapeTail(p, sep, limit);
      SplitLimitUnique(Join(p[1..], sep), sep, m, p[1..]);
      SplitLimitCons(sep, limit, m, p);
    }
  }
}
