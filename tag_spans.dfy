/**
  Scanners for the three fixed patterns that `_parse_round` applies to a round's
  `full_answer`:

    `<DEAL>\s*([^<]+)\s*</DEAL>`          every non-overlapping match (`re.findall`)
    `<SCRATCHPAD>(.*?)</SCRATCHPAD>`      first match, `.` also matching newlines (`re.search`, DOTALL)
    `<ANSWER>(.*?)</ANSWER>`              first match, likewise

  Each scanner works on suffixes: `...At(s)` is the match that begins at the first
  character of `s`, and the search tries every suffix from the left, as the regular
  expression engine tries every start position.
 */
module TagSpans {
  import opened Wrappers
  import opened Text

  const DealOpen: string := "<DEAL>"
  const DealClose: string := "</DEAL>"
  const ScratchpadOpen: string := "<SCRATCHPAD>"
  const ScratchpadClose: string := "</SCRATCHPAD>"
  const AnswerOpen: string := "<ANSWER>"
  const AnswerClose: string := "</ANSWER>"

  lemma TagsAreTags()
    ensures IsTag(DealOpen) && IsTag(DealClose)
    ensures IsTag(ScratchpadOpen) && IsTag(ScratchpadClose)
    ensures IsTag(AnswerOpen) && IsTag(AnswerClose)
  {
  }

  // ---------------------------------------------------------------------------
  // Deal proposals: <DEAL>\s*([^<]+)\s*</DEAL>
  // ---------------------------------------------------------------------------

  /** Length of the longest prefix of `u` free of `<`. */
  function LtFreePrefix(u: string): (q: nat)
    ensures q <= |u|
    ensures forall k :: 0 <= k < q ==> u[k] != '<'
    ensures q < |u| ==> u[q] == '<'
  {
    if u == [] || u[0] == '<' then 0 else 1 + LtFreePrefix(u[1..])
  }

  lemma {:induction false} LtFreePrefixAppend(x: string, y: string)
    requires '<' !in x
    ensures LtFreePrefix(x + y) == |x| + LtFreePrefix(y)
  {
    if x != [] {
      assert (x + y)[0] == x[0];
      assert (x + y)[1..] == x[1..] + y;
      LtFreePrefixAppend(x[1..], y);
    } else {
      assert x + y == y;
    }
  }

  /** A deal match: the whitespace the leading `\s*` took, the text of the capture group,
      and what follows `</DEAL>`. */
  datatype DealMatch = DealMatch(ws: string, capture: string, rest: string)

  /**
    The match of `<DEAL>\s*([^<]+)\s*</DEAL>` at the start of `s`. The capture runs
    to the first `<` after the opening tag, which must begin `</DEAL>`; the greedy
    `\s*` takes the leading whitespace, except that when everything before that `<`
    is whitespace, backtracking hands its last character to the capture. Nothing
    between the tags means no match.
   */
  function DealAt(s: string): (m: Option<DealMatch>)
    ensures m.Some? ==> m.value.capture != [] && '<' !in m.value.capture
    ensures m.Some? ==> |m.value.rest| < |s|
  {
    if !StartsWith(s, DealOpen) then None
    else
      var u := s[|DealOpen|..];
      var q := LtFreePrefix(u);
      if q == 0 || !StartsWith(u[q..], DealClose) then None
      else
        var body := u[..q];
        var (ws, capture) := SplitDealBody(body);
        Some(DealMatch(ws, capture, u[q + |DealClose|..]))
  }

  /** A deal match covers `<DEAL>`, whitespace, the capture, `</DEAL>`, in that order, and the
      scan resumes right after. */
  lemma DealAtSound(s: string)
    ensures var m := DealAt(s);
      m.Some? ==> AllSpace(m.value.ws) && s == DealOpen + m.value.ws + m.value.capture + DealClose + m.value.rest
  {
    var m := DealAt(s);
    if m.Some? {
      var u := s[|DealOpen|..];
      var q := LtFreePrefix(u);
      DealAtLayout(s, u, q, m.value);
    }
  }

  /** How `\s*([^<]+)` divides the non-empty, `<`-free text between the tags: the greedy
      `\s*` takes the leading whitespace, except that when the text is all whitespace,
      backtracking leaves its last character to the group. */
  function SplitDealBody(body: string): (p: (string, string))
    requires body != []
    ensures AllSpace(p.0) && body == p.0 + p.1
    ensures p.1 != [] && ('<' !in body ==> '<' !in p.1)
    ensures p.0 == [] || p.1 == [body[|body| - 1]] || !IsSpace(p.1[0])
  {
    var trimmed := TrimStart(body);
    var capture := if trimmed != [] then trimmed else body[|body| - 1..];
    var ws := body[..|body| - |capture|];
    assert body == ws + capture;
    (ws, capture)
  }

  lemma DealAtLayout(s: string, u: string, q: nat, m: DealMatch)
    requires StartsWith(s, DealOpen) && u == s[|DealOpen|..]
    requires q <= |u| && StartsWith(u[q..], DealClose)
    requires u[..q] == m.ws + m.capture && m.rest == u[q + |DealClose|..]
    ensures s == DealOpen + m.ws + m.capture + DealClose + m.rest
  {
    assert u == u[..q] + u[q..];
    assert u[q..] == DealClose + m.rest;
    assert s == DealOpen + u;
  }

  /** Whitespace contains no `<`. */
  lemma SpaceThenLtFree(ws: string, c: string)
    requires AllSpace(ws) && '<' !in c
    ensures '<' !in ws + c
  {
    forall k | 0 <= k < |ws + c| ensures (ws + c)[k] != '<' {
      if k < |ws| { assert (ws + c)[k] == ws[k]; assert IsSpace(ws[k]); }
      else { assert (ws + c)[k] == c[k - |ws|]; }
    }
  }

  /** `<DEAL>`, a non-empty `<`-free body, `</DEAL>`: a match of that body, and the scan resumes
      right after `</DEAL>`. */
  lemma DealAtOnBody(s: string, body: string, rest: string)
    requires body != [] && '<' !in body
    requires s == DealOpen + (body + (DealClose + rest))
    ensures DealAt(s) == Some(DealMatch(SplitDealBody(body).0, SplitDealBody(body).1, rest))
  {
    var u := body + (DealClose + rest);
    assert s[..|DealOpen|] == DealOpen;
    assert s[|DealOpen|..] == u;
    LtFreePrefixAppend(body, DealClose + rest);
    assert LtFreePrefix(DealClose + rest) == 0;
    assert u[..|body|] == body;
    assert u[|body|..] == DealClose + rest;
    assert (DealClose + rest)[..|DealClose|] == DealClose;
    assert u[|body| + |DealClose|..] == rest;
  }

  /** Every `<DEAL>` + whitespace + non-empty `<`-free text + `</DEAL>` is a match, and the scan
      resumes right after `</DEAL>`. */
  lemma DealAtWrapped(ws: string, c: string, rest: string)
    requires AllSpace(ws) && c != [] && '<' !in c
    ensures DealAt(DealOpen + ws + c + DealClose + rest)
         == Some(DealMatch(SplitDealBody(ws + c).0, SplitDealBody(ws + c).1, rest))
  {
    SpaceThenLtFree(ws, c);
    assert DealOpen + ws + c + DealClose + rest == DealOpen + ((ws + c) + (DealClose + rest));
    DealAtOnBody(DealOpen + ws + c + DealClose + rest, ws + c, rest);
  }

  /** The capture is the text itself when it starts with a non-space, and its last character
      when it is all whitespace (Python: `<DEAL>  </DEAL>` yields `' '`). */
  lemma DealCaptureCases(ws: string, c: string)
    requires AllSpace(ws) && c != []
    ensures !IsSpace(c[0]) ==> SplitDealBody(ws + c).1 == c
    ensures AllSpace(c) ==> SplitDealBody(ws + c).1 == [c[|c| - 1]]
  {
    if !IsSpace(c[0]) {
      TrimStartSkips(ws, c);
    }
    if AllSpace(c) {
      assert AllSpace(ws + c) by {
        forall k | 0 <= k < |ws + c| ensures IsSpace((ws + c)[k]) {
          if k < |ws| { assert (ws + c)[k] == ws[k]; } else { assert (ws + c)[k] == c[k - |ws|]; }
        }
      }
      TrimStartSkips(ws + c, []);
      assert ws + c + [] == ws + c;
    }
  }

  /** `<DEAL></DEAL>` is not a match: the capture group needs at least one character. */
  lemma DealAtEmptyBody(rest: string)
    ensures DealAt(DealOpen + DealClose + rest) == None
  {
    var s := DealOpen + DealClose + rest;
    assert s[|DealOpen|..] == DealClose + rest;
  }

  /** `re.findall` of the deal pattern: the captures of all non-overlapping matches, left to right. */
  function Deals(s: string): seq<string>
    decreases |s|
  {
    if s == [] then []
    else
      match DealAt(s)
      case Some(m) => [m.capture] + Deals(m.rest)
      case None => Deals(s[1..])
  }

  /** Every deal found is non-empty and holds no `<`. */
  lemma {:induction false} DealsWellFormed(s: string)
    ensures forall i :: 0 <= i < |Deals(s)| ==> Deals(s)[i] != [] && '<' !in Deals(s)[i]
    decreases |s|
  {
    if s != [] {
      match DealAt(s)
      case Some(m) => DealsWellFormed(m.rest);
      case None => DealsWellFormed(s[1..]);
    }
  }

  /** No deal is found exactly when no position of `s` starts a match. */
  lemma {:induction false} DealsEmptyIff(s: string)
    ensures Deals(s) == [] <==> forall k :: 0 <= k <= |s| ==> DealAt(s[k..]).None?
    decreases |s|
  {
    if s == [] {
      assert DealAt(s[0..]) == None;
    } else if DealAt(s).Some? {
      assert s[0..] == s;
    } else {
      DealsEmptyIff(s[1..]);
      assert s[0..] == s;
      assert forall k :: 1 <= k <= |s| ==> s[1..][k - 1..] == s[k..];
      if forall k :: 0 <= k <= |s| ==> DealAt(s[k..]).None? {
        forall k | 0 <= k <= |s[1..]| ensures DealAt(s[1..][k..]).None? {
          assert s[1..][k..] == s[k + 1..];
        }
      }
      if Deals(s) == [] {
        forall k | 0 <= k <= |s| ensures DealAt(s[k..]).None? {
          if k > 0 { assert s[k..] == s[1..][k - 1..]; }
        }
      }
    }
  }

  /** Text holding no `<DEAL>` contributes no deal and does not disturb the ones after it. */
  lemma {:induction false} DealsSkip(pre: string, t: string)
    requires !Occurs(pre, DealOpen)
    requires t == [] || t[0] == '<'
    ensures Deals(pre + t) == Deals(t)
  {
    if pre != [] {
      TagsAreTags();
      NoTagStraddles(pre, t, DealOpen);
      assert (pre + t)[1..] == pre[1..] + t;
      DealsSkip(pre[1..], t);
    } else {
      assert pre + t == t;
    }
  }

  /** Text holding no `<DEAL>` has no deals. */
  lemma NoDealTagNoDeals(s: string)
    requires !Occurs(s, DealOpen)
    ensures Deals(s) == []
  {
    DealsSkip(s, []);
    assert s + [] == s;
  }

  /** A well-formed deal span contributes its text, then the scan goes on after `</DEAL>`. */
  lemma DealsCons(ws: string, c: string, rest: string)
    requires AllSpace(ws) && c != [] && '<' !in c && !IsSpace(c[0])
    ensures Deals(DealOpen + ws + c + DealClose + rest) == [c] + Deals(rest)
  {
    DealAtWrapped(ws, c, rest);
    DealCaptureCases(ws, c);
  }

  /** Whitespace after the deal text, before `</DEAL>`, stays in the capture: the greedy group
      has already taken it when the second `\s*` is tried. */
  lemma DealKeepsTrailingSpace(a: string, sp: string, rest: string)
    requires a != [] && '<' !in a && !IsSpace(a[0]) && AllSpace(sp)
    ensures Deals(DealOpen + a + sp + DealClose + rest) == [a + sp] + Deals(rest)
  {
    assert '<' !in a + sp by {
      forall k | 0 <= k < |a + sp| ensures (a + sp)[k] != '<' {
        if k < |a| { assert (a + sp)[k] == a[k]; } else { assert (a + sp)[k] == sp[k - |a|]; assert IsSpace(sp[k - |a|]); }
      }
    }
    assert (a + sp)[0] == a[0];
    assert DealOpen + a + sp + DealClose + rest == DealOpen + [] + (a + sp) + DealClose + rest;
    DealsCons([], a + sp, rest);
  }

  lemma Regroup(o: string, a: string, c: string, mid: string, b: string, post: string)
    ensures o + a + c + mid + o + b + c + post == o + a + c + (mid + (o + b + c + post))
  {
  }

  /** Two deal spans give their two texts, in source order. */
  lemma TwoDeals(a: string, mid: string, b: string, post: string)
    requires a != [] && '<' !in a && !IsSpace(a[0])
    requires b != [] && '<' !in b && !IsSpace(b[0])
    requires !Occurs(mid, DealOpen) && !Occurs(post, DealOpen)
    ensures Deals(DealOpen + a + DealClose + mid + DealOpen + b + DealClose + post) == [a, b]
  {
    var second := DealOpen + b + DealClose + post;
    var tail := mid + second;
    var s := DealOpen + a + DealClose + mid + DealOpen + b + DealClose + post;
    assert DealOpen + [] == DealOpen;
    Regroup(DealOpen, a, DealClose, mid, b, post);
    DealsCons([], a, mid + second);
    DealsSkip(mid, second);
    DealsCons([], b, post);
    NoDealTagNoDeals(post);
  }

  // ---------------------------------------------------------------------------
  // Lazy spans: <OPEN>(.*?)</CLOSE> with DOTALL, first match
  // ---------------------------------------------------------------------------

  /** The first position of `u` where `t` begins. */
  function Find(u: string, t: string): (r: Option<nat>)
    ensures r.Some? <==> Occurs(u, t)
    ensures r.Some? ==> r.value < |u| && StartsWith(u[r.value..], t) && !Occurs(u[..r.value], t)
  {
    if u == [] then None
    else if StartsWith(u, t) then Some(0)
    else
      match Find(u[1..], t)
      case None => None
      case Some(k) =>
        assert u[k + 1..] == u[1..][k..];
        assert u[..k + 1][1..] == u[1..][..k];
        assert !StartsWith(u[..k + 1], t) by {
          if |t| <= k + 1 { assert u[..k + 1][..|t|] == u[..|t|]; }
        }
        Some(k + 1)
  }

  /** The position `Find` returns is the first one: no earlier position of `u` starts with `t`,
      even when `t` overlaps itself. */
  lemma {:induction false} FindFirst(u: string, t: string)
    ensures Find(u, t).Some? ==> forall j :: 0 <= j < Find(u, t).value ==> !StartsWith(u[j..], t)
  {
    if u != [] && !StartsWith(u, t) {
      FindFirst(u[1..], t);
      forall j | 1 <= j < |u| ensures u[j..] == u[1..][j - 1..] { }
    }
  }

  /** `Find` stops at the first closing tag when the text before it does not hold one. */
  lemma {:induction false} FindAfter(x: string, tag: string, post: string)
    requires IsTag(tag) && !Occurs(x, tag)
    ensures Find(x + tag + post, tag) == Some(|x|)
  {
    if x != [] {
      assert x + tag + post == x + (tag + post);
      NoTagStraddles(x, tag + post, tag);
      assert (x + tag + post)[1..] == x[1..] + tag + post;
      FindAfter(x[1..], tag, post);
    } else {
      assert x + tag + post == tag + post;
      assert (tag + post)[..|tag|] == tag;
    }
  }

  /** The lazy match `open(.*?)close` at the start of `s`: the text up to the FIRST `close`. */
  function SpanAt(s: string, open: string, close: string): Option<string> {
    if !StartsWith(s, open) then None
    else
      var u := s[|open|..];
      match Find(u, close)
      case None => None
      case Some(k) => Some(u[..k])
  }

  /** A span starts at the head of `s` exactly when `s` starts with `open` and `close` occurs
      after it; the span is the text up to the first such `close`. */
  lemma SpanAtSound(s: string, open: string, close: string)
    ensures var r := SpanAt(s, open, close);
      && (r.Some? <==> StartsWith(s, open) && Occurs(s[|open|..], close))
      && (r.Some? ==>
        && |open| + |r.value| <= |s|
        && s[|open|..|open| + |r.value|] == r.value
        && StartsWith(s[|open| + |r.value|..], close)
        && !Occurs(r.value, close))
  {
    if StartsWith(s, open) {
      var u := s[|open|..];
      var k := Find(u, close);
      if k.Some? {
        assert u[k.value..] == s[|open| + k.value..];
      }
    }
  }

  /** `re.search` of `open(.*?)close`: the lazy match at the leftmost position that has one. */
  function FirstSpan(s: string, open: string, close: string): Option<string> {
    if s == [] then None
    else
      match SpanAt(s, open, close)
      case Some(x) => Some(x)
      case None => FirstSpan(s[1..], open, close)
  }

  /** The span found holds no closing tag. */
  lemma {:induction false} FirstSpanSound(s: string, open: string, close: string)
    ensures FirstSpan(s, open, close).Some? ==> !Occurs(FirstSpan(s, open, close).value, close)
  {
    if s != [] {
      SpanAtSound(s, open, close);
      if SpanAt(s, open, close).None? {
        FirstSpanSound(s[1..], open, close);
      }
    }
  }

  /** There is no span exactly when no position of `s` starts one. */
  lemma {:induction false} FirstSpanNoneIff(s: string, open: string, close: string)
    ensures FirstSpan(s, open, close).None? <==> forall k :: 0 <= k < |s| ==> SpanAt(s[k..], open, close).None?
  {
    if s != [] {
      assert s[0..] == s;
      if SpanAt(s, open, close).None? {
        FirstSpanNoneIff(s[1..], open, close);
        forall k | 1 <= k < |s| ensures s[k..] == s[1..][k - 1..] { }
        if FirstSpan(s, open, close).None? {
          forall k | 0 <= k < |s| ensures SpanAt(s[k..], open, close).None? {
            if k > 0 { assert s[k..] == s[1..][k - 1..]; }
          }
        } else {
          var k' :| 0 <= k' < |s[1..]| && SpanAt(s[1..][k'..], open, close).Some?;
          assert s[1..][k'..] == s[k' + 1..];
        }
      }
    }
  }

  /** With no opening tag in `s` there is no span. */
  lemma {:induction false} NoOpenNoSpan(s: string, open: string, close: string)
    requires !Occurs(s, open)
    ensures FirstSpan(s, open, close) == None
  {
    if s != [] {
      NoOpenNoSpan(s[1..], open, close);
    }
  }

  /** The first opening tag, followed by text without a closing tag, then the closing tag:
      the span is exactly that text. */
  lemma {:induction false} FirstSpanOf(pre: string, x: string, post: string, open: string, close: string)
    requires IsTag(open) && IsTag(close)
    requires !Occurs(pre, open) && !Occurs(x, close)
    ensures FirstSpan(pre + open + x + close + post, open, close) == Some(x)
  {
    var s := pre + open + x + close + post;
    if pre != [] {
      assert s == pre + (open + x + close + post);
      NoTagStraddles(pre, open + x + close + post, open);
      assert s[1..] == pre[1..] + open + x + close + post;
      FirstSpanOf(pre[1..], x, post, open, close);
    } else {
      assert s == open + (x + close + post);
      assert s[..|open|] == open;
      assert s[|open|..] == x + close + post;
      FindAfter(x, close, post);
      assert (x + close + post)[..|x|] == x;
    }
  }

  // ---------------------------------------------------------------------------
  // The two fields `_parse_round` derives from lazy spans
  // ---------------------------------------------------------------------------

  /** `scratchpad_reasoning`: the first scratchpad span, stripped, or None. */
  function Scratchpad(fullAnswer: string): Option<string> {
    match FirstSpan(fullAnswer, ScratchpadOpen, ScratchpadClose)
    case Some(x) => Some(Strip(x))
    case None => None
  }

  /** `public_answer`: the first answer span, stripped; otherwise the round's own field, or ''. */
  function PublicAnswer(fullAnswer: string, field: Option<string>): string {
    match FirstSpan(fullAnswer, AnswerOpen, AnswerClose)
    case Some(x) => Strip(x)
    case None => field.GetOr("")
  }

  /** A scratchpad span yields its text, stripped. */
  lemma ScratchpadFound(pre: string, x: string, post: string)
    requires !Occurs(pre, ScratchpadOpen) && !Occurs(x, ScratchpadClose)
    ensures Scratchpad(pre + ScratchpadOpen + x + ScratchpadClose + post) == Some(Strip(x))
  {
    TagsAreTags();
    FirstSpanOf(pre, x, post, ScratchpadOpen, ScratchpadClose);
  }

  /** The scratchpad is None exactly when no position starts a complete scratchpad span. */
  lemma ScratchpadAbsentIff(s: string)
    ensures Scratchpad(s).None? <==> forall k :: 0 <= k < |s| ==> SpanAt(s[k..], ScratchpadOpen, ScratchpadClose).None?
  {
    FirstSpanNoneIff(s, ScratchpadOpen, ScratchpadClose);
  }

  /** An answer span wins over the round's `public_answer` field, whatever that holds. */
  lemma AnswerTagWins(pre: string, x: string, post: string, field: Option<string>)
    requires !Occurs(pre, AnswerOpen) && !Occurs(x, AnswerClose)
    ensures PublicAnswer(pre + AnswerOpen + x + AnswerClose + post, field) == Strip(x)
  {
    TagsAreTags();
    FirstSpanOf(pre, x, post, AnswerOpen, AnswerClose);
  }

  /** Without an answer tag the field is used, and with neither the answer is ''. */
  lemma AnswerFallback(s: string, field: Option<string>)
    requires !Occurs(s, AnswerOpen)
    ensures PublicAnswer(s, field) == field.GetOr("")
    ensures field.None? ==> PublicAnswer(s, field) == ""
  {
    NoOpenNoSpan(s, AnswerOpen, AnswerClose);
  }
}
