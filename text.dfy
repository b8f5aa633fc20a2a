/**
  String helpers shared by the parser: Python's whitespace class, `str.strip()`,
  `str.split(sep)`, and the prefix and occurrence tests the tag scanners use.
 */
module Text {

  /** The characters CPython treats as whitespace, both for `str.strip()` and for `\s`
      in a `str` pattern: the ASCII controls 0x09-0x0D and 0x1C-0x1F, the space, and
      the Unicode separators. */
  predicate IsSpace(c: char) {
    || ('\t' <= c <= '\r')
    || ('\U{1C}' <= c <= '\U{1F}')
    || c == ' '
    || c == '\U{85}'
    || c == '\U{A0}'
    || c == '\U{1680}'
    || ('\U{2000}' <= c <= '\U{200A}')
    || c == '\U{2028}'
    || c == '\U{2029}'
    || c == '\U{202F}'
    || c == '\U{205F}'
    || c == '\U{3000}'
  }

  predicate AllSpace(s: string) {
    forall k :: 0 <= k < |s| ==> IsSpace(s[k])
  }

  /** Number of whitespace characters `s` starts with. */
  function LeadingSpaces(s: string): (n: nat)
    ensures n <= |s|
    ensures forall k :: 0 <= k < n ==> IsSpace(s[k])
    ensures n < |s| ==> !IsSpace(s[n])
  {
    if s != [] && IsSpace(s[0]) then 1 + LeadingSpaces(s[1..]) else 0
  }

  /** Number of whitespace characters `s` ends with. */
  function TrailingSpaces(s: string): (n: nat)
    ensures n <= |s|
    ensures forall k :: |s| - n <= k < |s| ==> IsSpace(s[k])
    ensures n < |s| ==> !IsSpace(s[|s| - n - 1])
  {
    if s != [] && IsSpace(s[|s| - 1]) then 1 + TrailingSpaces(s[..|s| - 1]) else 0
  }

  /** `s` with its leading whitespace removed. */
  function TrimStart(s: string): string {
    s[LeadingSpaces(s)..]
  }

  /** `s` with its trailing whitespace removed. */
  function TrimEnd(s: string): string {
    s[..|s| - TrailingSpaces(s)]
  }

  /** Python's `s.strip()`: `s` once whitespace is taken off both ends. */
  function Strip(s: string): (r: string)
    ensures r == [] || (!IsSpace(r[0]) && !IsSpace(r[|r| - 1]))
  {
    TrimEnd(TrimStart(s))
  }

  /** `TrimStart` removes a whitespace prefix. */
  lemma TrimStartLayout(s: string)
    ensures s == s[..LeadingSpaces(s)] + TrimStart(s) && AllSpace(s[..LeadingSpaces(s)])
  {
    assert s == s[..LeadingSpaces(s)] + s[LeadingSpaces(s)..];
  }

  /** `TrimEnd` removes a whitespace suffix. */
  lemma TrimEndLayout(t: string)
    ensures t == TrimEnd(t) + t[|TrimEnd(t)|..] && AllSpace(t[|TrimEnd(t)|..])
  {
    assert t == t[..|t| - TrailingSpaces(t)] + t[|t| - TrailingSpaces(t)..];
  }

  /** `Strip` removes only whitespace: `s` is whitespace, then the result, then whitespace. */
  lemma StripRemovesSpace(s: string)
    ensures var i := LeadingSpaces(s); var r := Strip(s);
      && i + |r| <= |s|
      && s == s[..i] + r + s[i + |r|..]
      && AllSpace(s[..i]) && AllSpace(s[i + |r|..])
  {
    var i := LeadingSpaces(s);
    var t := TrimStart(s);
    TrimStartLayout(s);
    TrimEndLayout(t);
    var r := TrimEnd(t);
    assert s[i + |r|..] == t[|r|..];
  }

  /** A whitespace prefix in front of text that does not start with whitespace is counted exactly. */
  lemma {:induction false} LeadingSpacesOf(a: string, y: string)
    requires AllSpace(a)
    requires y == [] || !IsSpace(y[0])
    ensures LeadingSpaces(a + y) == |a|
  {
    if a != [] {
      assert (a + y)[0] == a[0];
      assert (a + y)[1..] == a[1..] + y;
      LeadingSpacesOf(a[1..], y);
    } else {
      assert a + y == y;
    }
  }

  /** A whitespace suffix behind text that does not end with whitespace is counted exactly. */
  lemma {:induction false} TrailingSpacesOf(y: string, b: string)
    requires AllSpace(b)
    requires y == [] || !IsSpace(y[|y| - 1])
    ensures TrailingSpaces(y + b) == |b|
  {
    if b != [] {
      assert (y + b)[|y + b| - 1] == b[|b| - 1];
      assert (y + b)[..|y + b| - 1] == y + b[..|b| - 1];
      TrailingSpacesOf(y, b[..|b| - 1]);
    } else {
      assert y + b == y;
    }
  }

  /** Removing a whitespace prefix in front of text that does not start with whitespace. */
  lemma TrimStartSkips(a: string, y: string)
    requires AllSpace(a)
    requires y == [] || !IsSpace(y[0])
    ensures TrimStart(a + y) == y
  {
    LeadingSpacesOf(a, y);
    assert (a + y)[|a|..] == y;
  }

  /** Removing a whitespace suffix behind text that does not end with whitespace. */
  lemma TrimEndSkips(y: string, b: string)
    requires AllSpace(b)
    requires y == [] || !IsSpace(y[|y| - 1])
    ensures TrimEnd(y + b) == y
  {
    TrailingSpacesOf(y, b);
    assert (y + b)[..|y|] == y;
  }

  /** `Strip` is the unique split of `s` into whitespace, a core with non-whitespace ends, and whitespace. */
  lemma StripUnique(a: string, x: string, b: string)
    requires AllSpace(a) && AllSpace(b)
    requires x == [] || (!IsSpace(x[0]) && !IsSpace(x[|x| - 1]))
    ensures Strip(a + x + b) == x
  {
    if x != [] {
      assert a + x + b == a + (x + b);
      TrimStartSkips(a, x + b);
      TrimEndSkips(x, b);
    } else {
      assert a + x + b == (a + b) + [];
      assert AllSpace(a + b) by {
        forall k | 0 <= k < |a + b| ensures IsSpace((a + b)[k]) {
          if k < |a| { assert (a + b)[k] == a[k]; } else { assert (a + b)[k] == b[k - |a|]; }
        }
      }
      TrimStartSkips(a + b, []);
    }
  }

  /** Stripping twice is stripping once. */
  lemma StripIdempotent(s: string)
    ensures Strip(Strip(s)) == Strip(s)
  {
    var r := Strip(s);
    StripUnique([], r, []);
    assert [] + r + [] == r;
  }

  /** Number of occurrences of `c` in `s`. */
  function Count(s: string, c: char): nat {
    if s == [] then 0 else (if s[0] == c then 1 else 0) + Count(s[1..], c)
  }

  /** Python's `s.split(sep)` for a one-character separator: one more field than there
      are separators, so always at least one. */
  function Split(s: string, sep: char): (r: seq<string>)
    ensures |r| == Count(s, sep) + 1
  {
    if s == [] then [""]
    else if s[0] == sep then [""] + Split(s[1..], sep)
    else
      var t := Split(s[1..], sep);
      [[s[0]] + t[0]] + t[1..]
  }

  /** No field of a split holds the separator. */
  lemma {:induction false} SplitFieldsFree(s: string, sep: char)
    ensures forall i :: 0 <= i < |Split(s, sep)| ==> sep !in Split(s, sep)[i]
  {
    if s != [] {
      SplitFieldsFree(s[1..], sep);
    }
  }

  /** Python's `sep.join(parts)`. */
  function Join(parts: seq<string>, sep: char): string {
    if parts == [] then ""
    else if |parts| == 1 then parts[0]
    else parts[0] + [sep] + Join(parts[1..], sep)
  }

  /** Splitting text that starts with a separator-free piece `p`. */
  lemma {:induction false} SplitAfterPiece(p: string, u: string, sep: char)
    requires sep !in p
    ensures Split(p + u, sep) == [p + Split(u, sep)[0]] + Split(u, sep)[1..]
  {
    if p != [] {
      assert (p + u)[0] == p[0];
      assert (p + u)[1..] == p[1..] + u;
      SplitAfterPiece(p[1..], u, sep);
      assert [p[0]] + (p[1..] + Split(u, sep)[0]) == p + Split(u, sep)[0];
    } else {
      assert p + u == u;
      assert p + Split(u, sep)[0] == Split(u, sep)[0];
      assert [Split(u, sep)[0]] + Split(u, sep)[1..] == Split(u, sep);
    }
  }

  /** Joining the fields of a split gives back the text. */
  lemma {:induction false} JoinSplit(s: string, sep: char)
    ensures Join(Split(s, sep), sep) == s
  {
    if s != [] {
      JoinSplit(s[1..], sep);
      var t := Split(s[1..], sep);
      if s[0] == sep {
        assert Split(s, sep)[1..] == t;
        if |t| == 1 {
          assert Join(t, sep) == t[0];
        }
      } else {
        var r := Split(s, sep);
        assert r[0] == [s[0]] + t[0];
        if |t| == 1 {
          assert Join(t, sep) == t[0];
        } else {
          assert r[1..] == t[1..];
          assert Join(t, sep) == t[0] + [sep] + Join(t[1..], sep);
        }
      }
    }
  }

  /** Splitting the join of separator-free fields gives back the fields. */
  lemma {:induction false} SplitJoin(parts: seq<string>, sep: char)
    requires parts != []
    requires forall i :: 0 <= i < |parts| ==> sep !in parts[i]
    ensures Split(Join(parts, sep), sep) == parts
  {
    if |parts| == 1 {
      SplitAfterPiece(parts[0], [], sep);
      assert parts[0] + [] == parts[0];
    } else {
      var rest := parts[1..];
      SplitJoin(rest, sep);
      var u := [sep] + Join(rest, sep);
      assert parts[0] + [sep] + Join(rest, sep) == parts[0] + u;
      SplitAfterPiece(parts[0], u, sep);
      assert u[1..] == Join(rest, sep);
      assert Split(u, sep) == [""] + rest;
      assert parts[0] + "" == parts[0];
      assert parts == [parts[0]] + rest;
    }
  }

  /** Splitting text that ends with a separator and a separator-free piece `p`: `p` is the last field. */
  lemma {:induction false} SplitSnoc(x: string, p: string, sep: char)
    requires sep !in p
    ensures Split(x + [sep] + p, sep) == Split(x, sep) + [p]
  {
    if x == [] {
      assert x + [sep] + p == [sep] + p;
      assert ([sep] + p)[1..] == p;
      SplitAfterPiece(p, [], sep);
      assert p + [] == p;
    } else {
      assert (x + [sep] + p)[0] == x[0];
      assert (x + [sep] + p)[1..] == x[1..] + [sep] + p;
      SplitSnoc(x[1..], p, sep);
      var t := Split(x[1..], sep);
      if x[0] != sep {
        assert (t + [p])[0] == t[0];
        assert (t + [p])[1..] == t[1..] + [p];
      }
    }
  }

  /** `s` begins with `t`. */
  predicate StartsWith(s: string, t: string) {
    |t| <= |s| && s[..|t|] == t
  }

  /** `t` begins at some position of `s` before its end; so nothing occurs in the empty string, and an empty `t` occurs in every non-empty one. */
  predicate Occurs(s: string, t: string) {
    s != [] && (StartsWith(s, t) || Occurs(s[1..], t))
  }

  /** A tag such as `<DEAL>`: a `<` first and nowhere else. */
  predicate IsTag(t: string) {
    |t| > 0 && t[0] == '<' && forall k :: 0 < k < |t| ==> t[k] != '<'
  }

  /** A tag cannot begin inside `pre` when `pre` does not contain it and what follows `pre` starts with `<`. */
  lemma NoTagStraddles(pre: string, t: string, tag: string)
    requires IsTag(tag)
    requires pre != [] && !Occurs(pre, tag)
    requires t == [] || t[0] == '<'
    ensures !StartsWith(pre + t, tag)
  {
    if |tag| <= |pre| {
      assert (pre + t)[..|tag|] == pre[..|tag|];
    } else if t != [] {
      assert (pre + t)[|pre|] == '<';
    }
  }
}
