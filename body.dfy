/**
 * `removeLineBreaks` and `extractBody` from lib/utils.js: the template text is
 * put on one line, with each line feed kept as the sentinel "BACKSLASHN", and
 * the content of its `<body>` element is cut out by the greedy, global,
 * case-insensitive pattern `(.*)<body[^>]*>(.*)<\/body>(.*)` and trimmed.
 */
module Body {
  import opened Basics
  import opened Strings

  /** The marker that stands for a line feed while the template is on one line. */
  const Sentinel := "BACKSLASHN"

  /** `s.replace(/\r/g, "")`. */
  function StripCarriageReturns(s: string): (r: string)
    ensures |r| <= |s|
    ensures forall c :: c in r <==> c in s && c != '\r'
    decreases |s|
  {
    if s == [] then []
    else (if s[0] == '\r' then [] else [s[0]]) + StripCarriageReturns(s[1..])
  }

  /** `s.replace(/\n/g, BACKSLASH_N)`. */
  function ReplaceNewlines(s: string): (r: string)
    ensures forall c :: c !in Sentinel ==> (c in r <==> c in s && c != '\n')
    decreases |s|
  {
    if s == [] then []
    else (if s[0] == '\n' then Sentinel else [s[0]]) + ReplaceNewlines(s[1..])
  }

  /** `removeLineBreaks(html)`: the result holds no carriage return and no line feed. */
  function RemoveLineBreaks(html: string): (r: string)
    ensures '\r' !in r && '\n' !in r
  {
    ReplaceNewlines(StripCarriageReturns(html))
  }

  lemma {:induction false} StripCarriageReturnsAppend(a: string, b: string)
    ensures StripCarriageReturns(a + b) == StripCarriageReturns(a) + StripCarriageReturns(b)
    decreases |a|
  {
    if a == [] {
      assert a + b == b;
    } else {
      var head := if a[0] == '\r' then [] else [a[0]];
      calc {
        StripCarriageReturns(a + b);
        { assert (a + b)[0] == a[0] && (a + b)[1..] == a[1..] + b; }
        head + StripCarriageReturns(a[1..] + b);
        { StripCarriageReturnsAppend(a[1..], b); }
        head + (StripCarriageReturns(a[1..]) + StripCarriageReturns(b));
        head + StripCarriageReturns(a[1..]) + StripCarriageReturns(b);
        StripCarriageReturns(a) + StripCarriageReturns(b);
      }
    }
  }

  lemma {:induction false} ReplaceNewlinesAppend(a: string, b: string)
    ensures ReplaceNewlines(a + b) == ReplaceNewlines(a) + ReplaceNewlines(b)
    decreases |a|
  {
    if a == [] {
      assert a + b == b;
    } else {
      var head := if a[0] == '\n' then Sentinel else [a[0]];
      calc {
        ReplaceNewlines(a + b);
        { assert (a + b)[0] == a[0] && (a + b)[1..] == a[1..] + b; }
        head + ReplaceNewlines(a[1..] + b);
        { ReplaceNewlinesAppend(a[1..], b); }
        head + (ReplaceNewlines(a[1..]) + ReplaceNewlines(b));
        head + ReplaceNewlines(a[1..]) + ReplaceNewlines(b);
        ReplaceNewlines(a) + ReplaceNewlines(b);
      }
    }
  }

  /** Line-break removal works piece by piece. */
  lemma {:induction false} RemoveLineBreaksAppend(a: string, b: string)
    ensures RemoveLineBreaks(a + b) == RemoveLineBreaks(a) + RemoveLineBreaks(b)
  {
    StripCarriageReturnsAppend(a, b);
    ReplaceNewlinesAppend(StripCarriageReturns(a), StripCarriageReturns(b));
  }

  lemma {:induction false} JoinPiecesReplacesNewlines(x: string, piece: string)
    ensures Join(SplitFrom(x, "\n", piece), Sentinel) == piece + ReplaceNewlines(x)
    decreases |x|
  {
    if x == "" {
      assert piece + ReplaceNewlines(x) == piece;
    } else if "\n" <= x {
      var rest := SplitFrom(x[1..], "\n", "");
      JoinPiecesReplacesNewlines(x[1..], "");
      assert ([piece] + rest)[1..] == rest;
      assert x[0] == '\n';
      assert ReplaceNewlines(x) == Sentinel + ReplaceNewlines(x[1..]);
    } else {
      assert x[0] != '\n';
      JoinPiecesReplacesNewlines(x[1..], piece + [x[0]]);
      assert piece + [x[0]] + ReplaceNewlines(x[1..]) == piece + ReplaceNewlines(x);
    }
  }

  /**
   * Each line feed becomes exactly one sentinel and every other character
   * except carriage returns stays, in order: the one-line text is the lines
   * joined by the sentinel.
   */
  lemma {:induction false} RemoveLineBreaksJoinsLines(html: string)
    ensures RemoveLineBreaks(html) == Join(Split(StripCarriageReturns(html), "\n"), Sentinel)
  {
    JoinPiecesReplacesNewlines(StripCarriageReturns(html), "");
  }

  lemma {:induction false} SentinelBorderless()
    ensures Borderless(Sentinel)
  {
    forall k | 0 < k < |Sentinel|
      ensures Sentinel[k..] != Sentinel[..|Sentinel| - k]
    {
      assert Sentinel[k..][0] != 'B';
    }
  }

  /** Unless the text already holds the sentinel, splitting the one-line text at the sentinels gives back its lines. */
  lemma {:induction false} RemoveLineBreaksLines(html: string)
    requires !Contains(StripCarriageReturns(html), Sentinel)
    ensures Split(RemoveLineBreaks(html), Sentinel) == Split(StripCarriageReturns(html), "\n")
  {
    var s := StripCarriageReturns(html);
    var lines := Split(s, "\n");
    RemoveLineBreaksJoinsLines(html);
    SentinelBorderless();
    assert "" + s == s;
    PiecesAvoid(s, "\n", "", Sentinel);
    SplitJoin(lines, Sentinel);
  }

  /** Case folding under the `i` flag without `u`: only ASCII letters fold. */
  function LowerAscii(c: char): char
  {
    if 'A' <= c <= 'Z' then (c as int + 32) as char else c
  }

  /** The lower-case literal `pat` matches `t` at `i`, ignoring case. */
  predicate MatchesAt(t: string, i: int, pat: string)
  {
    0 <= i && i + |pat| <= |t| && forall j :: 0 <= j < |pat| ==> LowerAscii(t[i + j]) == pat[j]
  }

  const OpenTag := "<body"
  const CloseTag := "</body>"

  /** The first '>' at or after `from`, or -1: where `[^>]*>` stops. */
  function FirstGt(t: string, from: nat): (r: int)
    requires from <= |t|
    ensures r == -1 ==> forall j :: from <= j < |t| ==> t[j] != '>'
    ensures r != -1 ==> from <= r < |t| && t[r] == '>' && forall j :: from <= j < r ==> t[j] != '>'
    decreases |t| - from
  {
    if from == |t| then -1
    else if t[from] == '>' then from
    else FirstGt(t, from + 1)
  }

  /**
   * The pattern matches with its `<body` at `p` and its `</body>` at `q`:
   * the opening tag runs to the first '>' after "<body", and the content
   * from there to `q`.
   */
  predicate IsBodyMatch(t: string, p: int, q: int)
  {
    && MatchesAt(t, p, OpenTag)
    && FirstGt(t, p + |OpenTag|) != -1
    && FirstGt(t, p + |OpenTag|) + 1 <= q
    && MatchesAt(t, q, CloseTag)
  }

  /** The last `</body>` starting in [lo, hi]. */
  function LastClose(t: string, lo: nat, hi: nat): (r: Option<nat>)
    ensures r.None? ==> forall q :: lo <= q <= hi ==> !MatchesAt(t, q, CloseTag)
    ensures r.Some? ==> lo <= r.value <= hi && MatchesAt(t, r.value, CloseTag)
    ensures r.Some? ==> forall q :: r.value < q <= hi ==> !MatchesAt(t, q, CloseTag)
    decreases hi
  {
    if hi < lo then None
    else if MatchesAt(t, hi, CloseTag) then Some(hi)
    else if hi == lo then None
    else LastClose(t, lo, hi - 1)
  }

  /** With the opening tag at `p`, the greedy content group ends at the last `</body>` after it. */
  function CloseFor(t: string, p: nat): (r: Option<nat>)
    ensures r.Some? ==> IsBodyMatch(t, p, r.value)
  {
    if !MatchesAt(t, p, OpenTag) then None
    else
      var g := FirstGt(t, p + |OpenTag|);
      if g == -1 then None else LastClose(t, g + 1, |t|)
  }

  lemma {:induction false} CloseForLongest(t: string, p: nat, q: int)
    requires IsBodyMatch(t, p, q)
    ensures CloseFor(t, p).Some? && q <= CloseFor(t, p).value
  {
  }

  /** The match the greedy first group picks among opening tags at or before `p`: the last one, then the last close. */
  function BodyFrom(t: string, p: nat): (r: Option<(nat, nat)>)
    ensures r.None? ==> forall p', q :: 0 <= p' <= p ==> !IsBodyMatch(t, p', q)
    ensures r.Some? ==> r.value.0 <= p && IsBodyMatch(t, r.value.0, r.value.1)
    ensures r.Some? ==> forall p', q :: r.value.0 < p' <= p ==> !IsBodyMatch(t, p', q)
    ensures r.Some? ==> forall q :: IsBodyMatch(t, r.value.0, q) ==> q <= r.value.1
    decreases p
  {
    match CloseFor(t, p)
    case Some(q) =>
      forall q' | IsBodyMatch(t, p, q') ensures q' <= q {
        CloseForLongest(t, p, q');
      }
      Some((p, q))
    case None =>
      forall q' ensures !IsBodyMatch(t, p, q') {
        if IsBodyMatch(t, p, q') {
          CloseForLongest(t, p, q');
        }
      }
      if p == 0 then None else BodyFrom(t, p - 1)
  }

  /**
   * The match `(.*)<body[^>]*>(.*)<\/body>(.*)` finds in a one-line text:
   * None iff there is none; otherwise the last opening tag that can be
   * completed and, for it, the last closing tag.
   */
  function BodyMatch(t: string): (r: Option<(nat, nat)>)
    ensures r.None? <==> forall p, q :: !IsBodyMatch(t, p, q)
    ensures r.Some? ==> IsBodyMatch(t, r.value.0, r.value.1)
    ensures r.Some? ==> forall p, q :: IsBodyMatch(t, p, q) ==> p < r.value.0 || (p == r.value.0 && q <= r.value.1)
  {
    BodyFrom(t, |t|)
  }

  /**
   * The replacement by "$2": the match spans the whole one-line text, so the
   * result is the content group; without a match the text is unchanged.
   */
  function Content(t: string): (r: string)
  {
    match BodyMatch(t)
    case None => t
    case Some((p, q)) => t[FirstGt(t, p + |OpenTag|) + 1..q]
  }

  /** `String.prototype.trim` strips WhiteSpace and LineTerminator characters. */
  predicate IsJsSpace(c: char)
  {
    || c == '\t' || c == '\U{000B}' || c == '\U{000C}' || c == ' ' || c == '\U{00A0}' || c == '\U{FEFF}'
    || c == '\U{1680}' || ('\U{2000}' <= c <= '\U{200A}') || c == '\U{202F}' || c == '\U{205F}' || c == '\U{3000}'
    || IsLineTerminator(c)
  }

  function SkipSpaces(s: string, i: nat): (r: nat)
    requires i <= |s|
    ensures i <= r <= |s| && (r < |s| ==> !IsJsSpace(s[r]))
    ensures forall j :: i <= j < r ==> IsJsSpace(s[j])
    decreases |s| - i
  {
    if i == |s| || !IsJsSpace(s[i]) then i else SkipSpaces(s, i + 1)
  }

  function SkipSpacesBack(s: string, lo: nat, j: nat): (r: nat)
    requires lo <= j <= |s|
    ensures lo <= r <= j && (r > lo ==> !IsJsSpace(s[r - 1]))
    ensures forall k :: r <= k < j ==> IsJsSpace(s[k])
    decreases j
  {
    if j == lo || !IsJsSpace(s[j - 1]) then j else SkipSpacesBack(s, lo, j - 1)
  }

  /** `r` is the infix of `s` at `a`, and everything before and after it is white space. */
  predicate InfixBetweenSpaces(s: string, a: int, r: string)
  {
    && 0 <= a && a + |r| <= |s| && s[a..a + |r|] == r
    && (forall j :: 0 <= j < a ==> IsJsSpace(s[j]))
    && (forall j :: a + |r| <= j < |s| ==> IsJsSpace(s[j]))
  }

  /** `s.trim()`: the infix left once leading and trailing white space is removed. */
  function Trim(s: string): (r: string)
    ensures r == "" || (!IsJsSpace(r[0]) && !IsJsSpace(r[|r| - 1]))
    ensures exists a :: InfixBetweenSpaces(s, a, r)
  {
    var a := SkipSpaces(s, 0);
    var b := SkipSpacesBack(s, a, |s|);
    assert b > a ==> s[a..b][0] == s[a];
    assert InfixBetweenSpaces(s, a, s[a..b]);
    s[a..b]
  }

  /** A text with no white space at either end is its own trim, so trimming twice changes nothing. */
  lemma {:induction false} TrimKeeps(s: string)
    requires s == "" || (!IsJsSpace(s[0]) && !IsJsSpace(s[|s| - 1]))
    ensures Trim(s) == s
  {
  }

  lemma {:induction false} TrimIdempotent(s: string)
    ensures Trim(Trim(s)) == Trim(s)
  {
    TrimKeeps(Trim(s));
  }

  /** `extractBody(html)`: the trimmed content of the body element, or the whole trimmed text; always one line. */
  function ExtractBody(html: string): (r: string)
    ensures '\r' !in r && '\n' !in r
    ensures forall ch :: ch in r && ch !in Sentinel ==> ch in html
  {
    var t := RemoveLineBreaks(html);
    var c := Content(t);
    assert forall ch :: ch in c ==> ch in t;
    var r := Trim(c);
    assert forall ch :: ch in r ==> ch in c;
    r
  }

  /** No tag can start where `t` has no '<'. */
  lemma {:induction false} TagStartsWithLt(t: string, i: int, pat: string)
    requires pat == OpenTag || pat == CloseTag
    requires 0 <= i < |t| && t[i] != '<'
    ensures !MatchesAt(t, i, pat)
  {
    assert pat[0] == '<';
  }

  /** No tag can start at `i` when the character after it is not a 'b', in either case. */
  lemma {:induction false} TagNeedsB(t: string, i: int, pat: string, k: int)
    requires (pat == OpenTag && k == 1) || (pat == CloseTag && k == 2)
    requires 0 <= i && (i + k < |t| ==> t[i + k] != 'b' && t[i + k] != 'B')
    ensures !MatchesAt(t, i, pat)
  {
    assert pat[k] == 'b';
  }

  /** A document with one body element: `a`, the tags around `c`, then `d`. */
  function SingleBodyDoc(a: string, c: string, d: string): string
  {
    a + "<body>" + c + "</body>" + d
  }

  /** Literal tags `<body>` at `p` and `</body>` at `q` make a match. */
  lemma {:induction false} BodyMatchAt(t: string, p: int, q: int)
    requires 0 <= p && p + 6 <= q && q + 7 <= |t|
    requires t[p..p + 6] == "<body>" && t[q..q + 7] == "</body>"
    ensures IsBodyMatch(t, p, q) && FirstGt(t, p + 5) == p + 5
  {
    assert t[p + 5] == t[p..p + 6][5];
    assert t[p..p + 5] == t[p..p + 6][..5];
    LiteralMatches(t, p, OpenTag);
    LiteralMatches(t, q, CloseTag);
  }

  /** The tags of a single-body document match, and the content sits between them. */
  lemma {:induction false} SingleBodyMatches(a: string, c: string, d: string)
    ensures IsBodyMatch(SingleBodyDoc(a, c, d), |a|, |a| + 6 + |c|)
    ensures FirstGt(SingleBodyDoc(a, c, d), |a| + 5) == |a| + 5
    ensures SingleBodyDoc(a, c, d)[|a| + 6..|a| + 6 + |c|] == c
  {
    SingleBodyParts(a, c, d);
    BodyMatchAt(SingleBodyDoc(a, c, d), |a|, |a| + 6 + |c|);
  }

  /** Where the tags and the content of a single-body document sit. */
  lemma {:induction false} SingleBodyParts(a: string, c: string, d: string)
    ensures |a| + 6 + |c| + 7 <= |SingleBodyDoc(a, c, d)|
    ensures SingleBodyDoc(a, c, d)[|a|..|a| + 6] == "<body>"
    ensures SingleBodyDoc(a, c, d)[|a| + 6..|a| + 6 + |c|] == c
    ensures SingleBodyDoc(a, c, d)[|a| + 6 + |c|..|a| + 6 + |c| + 7] == "</body>"
  {
    var t := SingleBodyDoc(a, c, d);
    var p, q := |a|, |a| + 6 + |c|;
    var tail := "</body>" + d;
    var mid := c + tail;
    var body := "<body>" + mid;
    assert t[p..] == body;
    assert t[p..p + 6] == body[..6];
    assert t[p + 6..] == mid;
    assert t[p + 6..q] == mid[..|c|];
    assert t[q..] == tail;
    assert t[q..q + 7] == tail[..7];
  }

  /** A lower-case literal matches where it occurs verbatim. */
  lemma {:induction false} LiteralMatches(t: string, i: int, pat: string)
    requires pat == OpenTag || pat == CloseTag
    requires 0 <= i && i + |pat| <= |t| && t[i..i + |pat|] == pat
    ensures MatchesAt(t, i, pat)
  {
    forall j | 0 <= j < |pat|
      ensures LowerAscii(t[i + j]) == pat[j]
    {
      assert t[i + j] == pat[j];
    }
  }

  lemma {:induction false} NoLaterOpen(a: string, c: string, d: string, i: int)
    requires '<' !in c && 'b' !in d && 'B' !in d
    requires |a| < i
    ensures !MatchesAt(SingleBodyDoc(a, c, d), i, OpenTag)
  {
    var t := SingleBodyDoc(a, c, d);
    var p, q := |a|, |a| + 6 + |c|;
    if i >= |t| {
    } else if i < p + 6 {
      assert t[p..p + 6] == "<body>";
      TagStartsWithLt(t, i, OpenTag);
    } else if i < q {
      assert t[i] == c[i - p - 6];
      TagStartsWithLt(t, i, OpenTag);
    } else if i == q {
      assert t[q..q + 7] == "</body>";
      TagNeedsB(t, i, OpenTag, 1);
    } else if i < q + 7 {
      assert t[q..q + 7] == "</body>";
      TagStartsWithLt(t, i, OpenTag);
    } else {
      assert i + 1 < |t| ==> t[i + 1] == d[i + 1 - q - 7];
      TagNeedsB(t, i, OpenTag, 1);
    }
  }

  lemma {:induction false} NoLaterClose(a: string, c: string, d: string, i: int)
    requires 'b' !in d && 'B' !in d
    requires |a| + 6 + |c| < i
    ensures !MatchesAt(SingleBodyDoc(a, c, d), i, CloseTag)
  {
    var t := SingleBodyDoc(a, c, d);
    var q := |a| + 6 + |c|;
    if i >= |t| {
    } else if i < q + 7 {
      assert t[q..q + 7] == "</body>";
      TagStartsWithLt(t, i, CloseTag);
    } else {
      assert i + 2 < |t| ==> t[i + 2] == d[i + 2 - q - 7];
      TagNeedsB(t, i, CloseTag, 2);
    }
  }

  /**
   * A document with one body element whose content holds no markup, and
   * with no 'b' after the closing tag: the content is exactly the text
   * between the tags.
   */
  lemma {:induction false} SingleBody(a: string, c: string, d: string)
    requires '<' !in c && 'b' !in d && 'B' !in d
    ensures Content(SingleBodyDoc(a, c, d)) == c
  {
    var t := SingleBodyDoc(a, c, d);
    var p, q := |a|, |a| + 6 + |c|;
    SingleBodyMatches(a, c, d);
    var m := BodyMatch(t);
    assert m.Some?;
    var p', q' := m.value.0, m.value.1;
    if p' > p {
      NoLaterOpen(a, c, d, p');
    }
    assert p' == p;
    if q' > q {
      NoLaterClose(a, c, d, q');
    }
    assert q' == q;
    assert t[p + 6..q] == c;
  }

  /** `extractBody` of such a document: the trimmed content, with its line feeds turned into sentinels. */
  lemma {:induction false} ExtractSingleBody(a: string, c: string, d: string)
    requires '<' !in c && 'b' !in d && 'B' !in d && '\n' !in d
    ensures ExtractBody(SingleBodyDoc(a, c, d)) == Trim(RemoveLineBreaks(c))
  {
    RemoveLineBreaksOfDoc(a, c, d);
    var rc, rd := RemoveLineBreaks(c), RemoveLineBreaks(d);
    SentinelHasNoLt();
    RemoveLineBreaksChars(c, '<');
    RemoveLineBreaksChars(d, 'b');
    RemoveLineBreaksChars(d, 'B');
    SingleBody(RemoveLineBreaks(a), rc, rd);
  }

  lemma {:induction false} SentinelHasNoLt()
    ensures '<' !in Sentinel
  {
    assert Sentinel == ['B', 'A', 'C', 'K', 'S', 'L', 'A', 'S', 'H', 'N'];
  }

  lemma {:induction false} RemoveLineBreaksOfDoc(a: string, c: string, d: string)
    ensures RemoveLineBreaks(SingleBodyDoc(a, c, d))
      == SingleBodyDoc(RemoveLineBreaks(a), RemoveLineBreaks(c), RemoveLineBreaks(d))
  {
    RemoveLineBreaksKeeps("<body>");
    RemoveLineBreaksKeeps("</body>");
    RemoveLineBreaksOfParts(a, "<body>", c, "</body>", d);
  }

  /** Removing line breaks from five concatenated parts, the outer two fixed by it. */
  lemma {:induction false} RemoveLineBreaksOfParts(a: string, o: string, c: string, e: string, d: string)
    requires RemoveLineBreaks(o) == o && RemoveLineBreaks(e) == e
    ensures RemoveLineBreaks(a + o + c + e + d) == RemoveLineBreaks(a) + o + RemoveLineBreaks(c) + e + RemoveLineBreaks(d)
  {
    RemoveLineBreaksAppend(a, o);
    RemoveLineBreaksAppend(a + o, c);
    RemoveLineBreaksAppend(a + o + c, e);
    RemoveLineBreaksAppend(a + o + c + e, d);
  }

  /** Line-break removal introduces no character except those of the sentinel, and those only for line feeds. */
  lemma {:induction false} RemoveLineBreaksChars(s: string, ch: char)
    requires ch !in s && (ch in Sentinel ==> '\n' !in s)
    ensures ch !in RemoveLineBreaks(s)
  {
    var t := StripCarriageReturns(s);
    if ch in Sentinel {
      ReplaceNewlinesKeeps(t);
    }
  }

  lemma {:induction false} ReplaceNewlinesKeeps(s: string)
    requires '\n' !in s
    ensures ReplaceNewlines(s) == s
    decreases |s|
  {
    if s != [] {
      assert s == [s[0]] + s[1..];
      ReplaceNewlinesKeeps(s[1..]);
    }
  }

  lemma {:induction false} RemoveLineBreaksKeeps(s: string)
    requires '\r' !in s && '\n' !in s
    ensures RemoveLineBreaks(s) == s
    decreases |s|
  {
    if s != [] {
      RemoveLineBreaksAppend([s[0]], s[1..]);
      assert [s[0]] + s[1..] == s;
      RemoveLineBreaksKeeps(s[1..]);
    }
  }
}
