/**
 * `flattenString` and `convertHTMLtoJS` from lib/utils.js: the body of an
 * HTML template becomes a JavaScript expression, one quoted literal per kept
 * line, wrapped in a `getSnippets` function.
 */
module Snippets {
  import opened Basics
  import opened Strings
  import opened Body
  import JsLiteral

  /** The comment markers of a template: START opens an excluded block, LINE drops its own line, END closes the block. */
  datatype Markers = Markers(start: string, line: string, end: string)

  const Exclude := Markers("<!-- exclude START -->", "<!-- exclude LINE -->", "<!-- exclude END -->")

  /** `s.replace(/"/g, "\\\"")`: every double quote gets a backslash in front. */
  function EscapeQuotes(s: string): (r: string)
    ensures |r| >= |s|
    decreases |s|
  {
    if s == [] then []
    else (if s[0] == '"' then "\\\"" else [s[0]]) + EscapeQuotes(s[1..])
  }

  /** The state after one line: a START marker opens a block, an END marker closes it. */
  function NextState(mk: Markers, inBlock: bool, line: string): bool
  {
    if Contains(line, mk.end) then false else inBlock || Contains(line, mk.start)
  }

  /** The line is written: it is outside a block, opens none, and carries no LINE marker. */
  predicate Writes(mk: Markers, inBlock: bool, line: string)
  {
    !(inBlock || Contains(line, mk.start)) && !Contains(line, mk.line)
  }

  /** The lines the loop of `flattenString` writes, starting in state `inBlock`. */
  function KeptFrom(mk: Markers, lines: seq<string>, inBlock: bool): seq<string>
    decreases |lines|
  {
    if lines == [] then []
    else (if Writes(mk, inBlock, lines[0]) then [lines[0]] else []) + KeptFrom(mk, lines[1..], NextState(mk, inBlock, lines[0]))
  }

  /** The lines `flattenString` writes: outside blocks, with the template markers. */
  function KeptLines(lines: seq<string>): seq<string>
  {
    KeptFrom(Exclude, lines, false)
  }

  /** One written line: `"` + line + `\n" + ` and a line feed. */
  function LiteralLine(line: string): string
  {
    "\"" + line + "\\n\" + \n"
  }

  function LiteralLines(lines: seq<string>): string
    decreases |lines|
  {
    if lines == [] then "" else LiteralLine(lines[0]) + LiteralLines(lines[1..])
  }

  /** What `flattenString(html)` returns. */
  function Flattened(html: string): string
  {
    LiteralLines(KeptLines(Split(EscapeQuotes(html), Sentinel))) + "\"\""
  }

  /** `flattenString(html)`. */
  method FlattenString(html: string) returns (sb: string)
    ensures sb == Flattened(html)
  {
    var escapedQuotes := EscapeQuotes(html);
    var lines := Split(escapedQuotes, Sentinel);
    var inExcludeBlock := false;
    sb := "";
    assert lines[0..] == lines;
    for i := 0 to |lines|
      invariant sb + LiteralLines(KeptFrom(Exclude, lines[i..], inExcludeBlock)) == LiteralLines(KeptLines(lines))
    {
      var line := lines[i];
      KeptFromStep(Exclude, sb, lines, i, inExcludeBlock);
      ghost var before, written := inExcludeBlock, sb;
      var opens, dropped, closes := IndexOf(line, Exclude.start) != -1, IndexOf(line, Exclude.line) != -1, IndexOf(line, Exclude.end) != -1;
      if opens {
        inExcludeBlock := true;
      }
      if !inExcludeBlock && !dropped {
        sb := sb + LiteralLine(line);
      }
      if closes {
        inExcludeBlock := false;
      }
      assert inExcludeBlock == NextState(Exclude, before, line);
      assert sb == written + Piece(Exclude, before, line);
    }
    assert lines[|lines|..] == [];
    sb := sb + "\"\"";
  }

  /** What one line adds to the output in state `inBlock`. */
  function Piece(mk: Markers, inBlock: bool, line: string): string
  {
    if Writes(mk, inBlock, line) then LiteralLine(line) else ""
  }

  lemma {:induction false} KeptFromStep(mk: Markers, written: string, lines: seq<string>, i: int, inBlock: bool)
    requires 0 <= i < |lines|
    ensures written + LiteralLines(KeptFrom(mk, lines[i..], inBlock))
      == (written + Piece(mk, inBlock, lines[i])) + LiteralLines(KeptFrom(mk, lines[i + 1..], NextState(mk, inBlock, lines[i])))
  {
    assert lines[i..][1..] == lines[i + 1..];
    var rest := KeptFrom(mk, lines[i + 1..], NextState(mk, inBlock, lines[i]));
    if Writes(mk, inBlock, lines[i]) {
      assert ([lines[i]] + rest)[1..] == rest;
    } else {
      assert [] + rest == rest;
    }
  }

  // An independent description of the lines kept: by the markers on earlier lines.

  /** Which of the lines carry marker `m`. */
  function Marks(lines: seq<string>, m: string): seq<bool>
  {
    seq(|lines|, j requires 0 <= j < |lines| => Contains(lines[j], m))
  }

  /**
   * A block is open at position `i` of a run of lines: some earlier line
   * opened one without closing it, and no line since closed it.
   */
  predicate OpenAt(opens: seq<bool>, closes: seq<bool>, i: int)
    requires |closes| == |opens| && 0 <= i <= |opens|
  {
    exists j :: 0 <= j < i && opens[j] && !closes[j] && forall k :: j < k < i ==> !closes[k]
  }

  /**
   * An exclude block is open when line `i` is reached: some earlier line
   * carried START without END, and no line since carried END.
   */
  predicate OpenBefore(mk: Markers, lines: seq<string>, i: int)
    requires 0 <= i <= |lines|
  {
    OpenAt(Marks(lines, mk.start), Marks(lines, mk.end), i)
  }

  /** Line `i` is written iff no block is open, it does not open one, and it carries no LINE marker. */
  predicate Emitted(mk: Markers, lines: seq<string>, i: int)
    requires 0 <= i < |lines|
  {
    !OpenBefore(mk, lines, i) && !Contains(lines[i], mk.start) && !Contains(lines[i], mk.line)
  }

  /** The emitted lines from index `i` on, in order. */
  function Selected(mk: Markers, lines: seq<string>, i: nat): seq<string>
    requires i <= |lines|
    decreases |lines| - i
  {
    if i == |lines| then [] else (if Emitted(mk, lines, i) then [lines[i]] else []) + Selected(mk, lines, i + 1)
  }

  /**
   * How the open state moves past line `i`. In particular a line with END
   * leaves no block open after it, even when it also carries START.
   */
  lemma {:induction false} OpenAtStep(opens: seq<bool>, closes: seq<bool>, i: int)
    requires |closes| == |opens| && 0 <= i < |opens|
    ensures OpenAt(opens, closes, i + 1) == if closes[i] then false else OpenAt(opens, closes, i) || opens[i]
  {
    if !closes[i] {
      if OpenAt(opens, closes, i) {
        var j :| 0 <= j < i && opens[j] && !closes[j] && forall k :: j < k < i ==> !closes[k];
        assert forall k :: j < k < i + 1 ==> !closes[k];
      }
      if OpenAt(opens, closes, i + 1) && !opens[i] {
        var j :| 0 <= j < i + 1 && opens[j] && !closes[j] && forall k :: j < k < i + 1 ==> !closes[k];
        assert j < i;
        assert forall k :: j < k < i ==> !closes[k];
      }
    }
  }

  lemma {:induction false} OpenBeforeStep(mk: Markers, lines: seq<string>, i: int)
    requires 0 <= i < |lines|
    ensures OpenBefore(mk, lines, i + 1) == NextState(mk, OpenBefore(mk, lines, i), lines[i])
  {
    OpenAtStep(Marks(lines, mk.start), Marks(lines, mk.end), i);
  }

  lemma {:induction false} KeptFromSelected(mk: Markers, lines: seq<string>, i: nat)
    requires i <= |lines|
    ensures KeptFrom(mk, lines[i..], OpenBefore(mk, lines, i)) == Selected(mk, lines, i)
    decreases |lines| - i
  {
    if i < |lines| {
      assert lines[i..][1..] == lines[i + 1..];
      OpenBeforeStep(mk, lines, i);
      KeptFromSelected(mk, lines, i + 1);
    }
  }

  /** The loop keeps exactly the emitted lines, in their order. */
  lemma {:induction false} KeptLinesSelected(lines: seq<string>)
    ensures KeptLines(lines) == Selected(Exclude, lines, 0)
  {
    KeptFromSelected(Exclude, lines, 0);
    assert lines[0..] == lines;
  }

  /**
   * The marker lines themselves: a START line is never written; an END line
   * inside a block is not written; after an END line no block is open, so a
   * line carrying both markers suppresses only itself.
   */
  lemma {:induction false} MarkerLines(mk: Markers, lines: seq<string>, i: int)
    requires 0 <= i < |lines|
    ensures Contains(lines[i], mk.start) ==> !Emitted(mk, lines, i)
    ensures Contains(lines[i], mk.end) && OpenBefore(mk, lines, i) ==> !Emitted(mk, lines, i)
    ensures Contains(lines[i], mk.end) ==> !OpenBefore(mk, lines, i + 1)
    ensures !Contains(lines[i], mk.end) && Contains(lines[i], mk.start) ==> OpenBefore(mk, lines, i + 1)
  {
    OpenBeforeStep(mk, lines, i);
  }

  // The value of the emitted expression: evaluating it gives back the kept lines.

  /** Every line escaped, in order. */
  function EscapeAll(lines: seq<string>): (r: seq<string>)
    ensures |r| == |lines|
    decreases |lines|
  {
    if lines == [] then [] else [EscapeQuotes(lines[0])] + EscapeAll(lines[1..])
  }

  /** The kept lines, each followed by a line feed: the text the expression stands for. */
  function ConcatLines(lines: seq<string>): string
    decreases |lines|
  {
    if lines == [] then "" else lines[0] + "\n" + ConcatLines(lines[1..])
  }

  /** A string with no quote and no backslash is unchanged by escaping. */
  predicate Plain(t: string)
  {
    '"' !in t && '\\' !in t
  }

  lemma {:induction false} EscapeQuotesAppend(a: string, b: string)
    ensures EscapeQuotes(a + b) == EscapeQuotes(a) + EscapeQuotes(b)
    decreases |a|
  {
    if a == [] {
      assert a + b == b;
    } else {
      assert (a + b)[1..] == a[1..] + b;
      EscapeQuotesAppend(a[1..], b);
    }
  }

  lemma {:induction false} EscapeQuotesKeeps(s: string)
    requires '"' !in s
    ensures EscapeQuotes(s) == s
    decreases |s|
  {
    if s != [] {
      assert s == [s[0]] + s[1..];
      EscapeQuotesKeeps(s[1..]);
    }
  }

  /** A plain string starts the escaped text only if it starts the text itself. */
  lemma {:induction false} PrefixOfEscaped(t: string, s: string)
    requires Plain(t) && t <= EscapeQuotes(s)
    ensures t <= s
    decreases |t|
  {
    if t != [] {
      assert s != [];
      assert t[0] == EscapeQuotes(s)[0];
      assert EscapeQuotes(s)[0] == if s[0] == '"' then '\\' else s[0];
      assert t[0] in t;
      assert EscapeQuotes(s) == [s[0]] + EscapeQuotes(s[1..]);
      PrefixOfEscaped(t[1..], s[1..]);
    }
  }

  /** Escaping neither creates nor destroys an occurrence of a plain string. */
  lemma {:induction false} ContainsEscaped(l: string, m: string)
    requires m != [] && Plain(m)
    ensures Contains(EscapeQuotes(l), m) <==> Contains(l, m)
    decreases |l|
  {
    var e := EscapeQuotes(l);
    if m <= l {
      EscapeQuotesAppend(m, l[|m|..]);
      EscapeQuotesKeeps(m);
      assert l == m + l[|m|..];
      assert OccursAt(e, m, 0);
      assert OccursAt(l, m, 0);
    } else if l == [] {
    } else {
      if m <= e {
        PrefixOfEscaped(m, l);
      }
      ContainsStep(l, m);
      ContainsStep(e, m);
      ContainsEscaped(l[1..], m);
      if l[0] == '"' {
        assert e[1..] == ['"'] + EscapeQuotes(l[1..]);
        assert m[0] in m;
        assert !(m <= e[1..]);
        ContainsStep(e[1..], m);
        assert e[1..][1..] == EscapeQuotes(l[1..]);
      } else {
        assert e[1..] == EscapeQuotes(l[1..]);
      }
    }
  }

  /** Splitting at a plain separator commutes with escaping. */
  lemma {:induction false} SplitEscaped(s: string, sep: string, piece: string)
    requires sep != "" && Plain(sep)
    ensures SplitFrom(EscapeQuotes(s), sep, EscapeQuotes(piece)) == EscapeAll(SplitFrom(s, sep, piece))
    decreases |s|
  {
    if s == "" {
    } else if sep <= s {
      SeparatorEscaped(s, sep);
      SplitEscaped(s[|sep|..], sep, "");
    } else {
      CharEscaped(s, sep, piece);
      SplitEscaped(s[1..], sep, piece + [s[0]]);
    }
  }

  /** A plain separator at the front survives escaping, and so does the text after it. */
  lemma {:induction false} SeparatorEscaped(s: string, sep: string)
    requires Plain(sep) && sep <= s
    ensures sep <= EscapeQuotes(s) && EscapeQuotes(s)[|sep|..] == EscapeQuotes(s[|sep|..])
  {
    EscapeQuotesAppend(sep, s[|sep|..]);
    EscapeQuotesKeeps(sep);
    assert s == sep + s[|sep|..];
  }

  /** A character that does not start a separator is escaped into the current piece. */
  lemma {:induction false} CharEscaped(s: string, sep: string, piece: string)
    requires sep != "" && Plain(sep) && s != "" && !(sep <= s)
    ensures SplitFrom(EscapeQuotes(s), sep, EscapeQuotes(piece))
      == SplitFrom(EscapeQuotes(s[1..]), sep, EscapeQuotes(piece + [s[0]]))
  {
    var e := EscapeQuotes(s);
    if sep <= e {
      PrefixOfEscaped(sep, s);
    }
    EscapeQuotesAppend(piece, [s[0]]);
    if s[0] == '"' {
      assert e[1..] == ['"'] + EscapeQuotes(s[1..]);
      assert sep[0] in sep;
      assert !(sep <= e[1..]);
      assert e[1..][1..] == EscapeQuotes(s[1..]);
      assert EscapeQuotes(piece) + [e[0]] + [e[1..][0]] == EscapeQuotes(piece + [s[0]]);
    } else {
      assert e[1..] == EscapeQuotes(s[1..]);
      assert EscapeQuotes(piece) + [e[0]] == EscapeQuotes(piece + [s[0]]);
    }
  }

  /** Markers that escaping leaves alone and that can be searched for. */
  predicate PlainMarkers(mk: Markers)
  {
    && mk.start != [] && mk.line != [] && mk.end != []
    && Plain(mk.start) && Plain(mk.line) && Plain(mk.end)
  }

  lemma {:induction false} ExcludePlain()
    ensures PlainMarkers(Exclude) && Plain(Sentinel)
  {
    PlainText(Exclude.start);
    PlainText(Exclude.line);
    PlainText(Exclude.end);
    PlainText(Sentinel);
  }

  /** Plain by a scan of its characters. */
  lemma {:induction false} PlainText(t: string)
    requires forall i :: 0 <= i < |t| ==> t[i] != '"' && t[i] != '\\'
    ensures Plain(t)
  {
  }

  /** Escaping a line does not change which markers it carries. */
  lemma {:induction false} MarkersEscaped(mk: Markers, inBlock: bool, l: string)
    requires PlainMarkers(mk)
    ensures NextState(mk, inBlock, EscapeQuotes(l)) == NextState(mk, inBlock, l)
    ensures Writes(mk, inBlock, EscapeQuotes(l)) == Writes(mk, inBlock, l)
  {
    ContainsEscaped(l, mk.start);
    ContainsEscaped(l, mk.line);
    ContainsEscaped(l, mk.end);
  }

  /** Escaping the lines before the loop or the kept lines after it gives the same result. */
  lemma {:induction false} KeptEscaped(mk: Markers, lines: seq<string>, inBlock: bool)
    requires PlainMarkers(mk)
    ensures KeptFrom(mk, EscapeAll(lines), inBlock) == EscapeAll(KeptFrom(mk, lines, inBlock))
    decreases |lines|
  {
    if lines != [] {
      var l := lines[0];
      MarkersEscaped(mk, inBlock, l);
      assert EscapeAll(lines)[0] == EscapeQuotes(l);
      assert EscapeAll(lines)[1..] == EscapeAll(lines[1..]);
      KeptEscaped(mk, lines[1..], NextState(mk, inBlock, l));
      var rest := KeptFrom(mk, lines[1..], NextState(mk, inBlock, l));
      if Writes(mk, inBlock, l) {
        assert EscapeAll([l] + rest) == [EscapeQuotes(l)] + EscapeAll(rest);
      } else {
        assert [] + rest == rest;
      }
    }
  }

  lemma {:induction false} KeptFromSubset(mk: Markers, lines: seq<string>, inBlock: bool)
    ensures forall x :: x in KeptFrom(mk, lines, inBlock) ==> x in lines
    decreases |lines|
  {
    if lines != [] {
      KeptFromSubset(mk, lines[1..], NextState(mk, inBlock, lines[0]));
    }
  }

  /** The escaped text of a line, its `\n` and closing quote read back as the line and a line feed. */
  lemma {:induction false} ScanEscaped(l: string, rest: string)
    requires '\\' !in l && '\n' !in l && '\r' !in l
    ensures JsLiteral.ScanBody(EscapeQuotes(l) + "\\n\"" + rest) == Some((l + "\n", rest))
    decreases |l|
  {
    var s := EscapeQuotes(l) + "\\n\"" + rest;
    if l == [] {
      assert EscapeQuotes(l) == [] && l + "\n" == "\n";
      assert s == "\\n\"" + rest;
      ScanLineEnd(rest);
    } else {
      ScanEscaped(l[1..], rest);
      var tail := EscapeQuotes(l[1..]) + "\\n\"" + rest;
      if l[0] == '"' {
        assert s == "\\\"" + tail;
        assert s[2..] == tail;
      } else {
        assert s == [l[0]] + tail;
        assert s[1..] == tail;
      }
      assert [l[0]] + (l[1..] + "\n") == l + "\n";
    }
  }

  /** The escaped line feed and closing quote that end every literal. */
  lemma {:induction false} ScanLineEnd(rest: string)
    ensures JsLiteral.ScanBody("\\n\"" + rest) == Some(("\n", rest))
  {
    var s := "\\n\"" + rest;
    assert s[2..] == "\"" + rest;
    assert ("\"" + rest)[1..] == rest;
    assert JsLiteral.ScanBody(s[2..]) == Some(("", rest));
    assert s[0] == '\\' && s[1] == 'n';
    assert ['\n'] + "" == "\n";
  }

  lemma {:induction false} EvalLiteralLines(lines: seq<string>)
    requires forall x :: x in lines ==> '\\' !in x && '\n' !in x && '\r' !in x
    ensures JsLiteral.Eval(LiteralLines(EscapeAll(lines)) + "\"\"") == Some(ConcatLines(lines))
    decreases |lines|
  {
    if lines == [] {
      assert LiteralLines(EscapeAll(lines)) + "\"\"" == "\"\"";
      assert JsLiteral.ScanBody("\"") == Some(("", ""));
    } else {
      var l, rest := lines[0], lines[1..];
      var r := LiteralLines(EscapeAll(rest)) + "\"\"";
      assert LiteralLines(EscapeAll(lines)) + "\"\"" == LiteralLine(EscapeQuotes(l)) + r;
      LiteralLineShape(EscapeQuotes(l), r);
      EvalLiteralLine(l, r);
      EvalLiteralLines(rest);
    }
  }

  /** A literal line and what follows it, cut at the separator. */
  lemma {:induction false} LiteralLineShape(x: string, r: string)
    ensures LiteralLine(x) + r == "\"" + (x + "\\n\"" + (JsLiteral.Separator + r))
  {
    assert "\\n\" + \n" == "\\n\"" + JsLiteral.Separator;
  }

  /** Evaluating a sum that starts with the literal of an escaped line. */
  lemma {:induction false} EvalLiteralLine(l: string, r: string)
    requires '\\' !in l && '\n' !in l && '\r' !in l
    ensures JsLiteral.Eval("\"" + (EscapeQuotes(l) + "\\n\"" + (JsLiteral.Separator + r))) ==
      match JsLiteral.Eval(r)
      case None => None
      case Some(w) => Some(l + "\n" + w)
  {
    var s := "\"" + (EscapeQuotes(l) + "\\n\"" + (JsLiteral.Separator + r));
    ScanEscaped(l, JsLiteral.Separator + r);
    assert s[1..] == EscapeQuotes(l) + "\\n\"" + (JsLiteral.Separator + r);
    assert (JsLiteral.Separator + r)[|JsLiteral.Separator|..] == r;
  }

  /**
   * For a body with no backslash and on one line, the emitted expression
   * evaluates to the kept lines of the body, each with its line feed back:
   * the quoting loses nothing.
   */
  lemma {:induction false} FlattenedValue(body: string)
    requires '\\' !in body && '\n' !in body && '\r' !in body
    ensures JsLiteral.Eval(Flattened(body)) == Some(ConcatLines(KeptLines(Split(body, Sentinel))))
  {
    var lines := Split(body, Sentinel);
    ExcludePlain();
    SplitEscaped(body, Sentinel, "");
    assert EscapeQuotes("") == "";
    KeptEscaped(Exclude, lines, false);
    PiecesChars(body, Sentinel, "");
    assert "" + body == body;
    KeptFromSubset(Exclude, lines, false);
    EvalLiteralLines(KeptLines(lines));
  }

  /**
   * Why FlattenedValue excludes backslashes: `flattenString` does not escape
   * them, so the one-character body `\` is written as the literal `"\\n"`,
   * whose value is a backslash and the letter n; the kept line calls for a
   * backslash and a line feed.
   */
  lemma {:induction false} BackslashMisread()
    ensures JsLiteral.Eval(Flattened("\\")) == Some("\\n")
    ensures ConcatLines(KeptLines(Split("\\", Sentinel))) == "\\\n"
    ensures JsLiteral.Eval(Flattened("\\")) != Some(ConcatLines(KeptLines(Split("\\", Sentinel))))
  {
    OneLineFlattened("\\");
    LiteralLineShape("\\", "\"\"");
    EvalBackslashLine();
    assert "\\" + "\n" + "" == "\\\n";
  }

  /** A body of one line with no quote and no marker is kept whole and written unchanged. */
  lemma {:induction false} OneLineFlattened(x: string)
    requires '"' !in x && 'B' !in x && '<' !in x
    ensures KeptLines(Split(x, Sentinel)) == [x]
    ensures Flattened(x) == LiteralLine(x) + "\"\""
  {
    EscapeQuotesKeeps(x);
    MissingCharNotContained(x, Sentinel, 0);
    SplitFromNoSeparator(x, Sentinel, "");
    assert "" + x == x;
    OneLineKept(x);
    var lines := [x];
    assert lines[1..] == [];
    assert LiteralLines(lines) == LiteralLine(x) + "";
  }

  lemma {:induction false} OneLineKept(x: string)
    requires '<' !in x
    ensures KeptLines([x]) == [x]
  {
    MissingCharNotContained(x, Exclude.start, 0);
    MissingCharNotContained(x, Exclude.line, 0);
    MissingCharNotContained(x, Exclude.end, 0);
    var lines := [x];
    assert lines[1..] == [];
    assert Writes(Exclude, false, x);
    assert KeptFrom(Exclude, lines[1..], NextState(Exclude, false, x)) == [];
  }

  /** The literal `"\\n"` followed by the closing `""` evaluates to a backslash and n. */
  lemma {:induction false} EvalBackslashLine()
    ensures JsLiteral.Eval("\"" + ("\\" + "\\n\"" + (JsLiteral.Separator + "\"\""))) == Some("\\n")
  {
    var t := JsLiteral.Separator + "\"\"";
    var body := "\\" + "\\n\"" + t;
    var s := "\"" + body;
    ScanQuote(t);
    assert "n\"" + t == ['n'] + ("\"" + t);
    ScanPlainChar('n', "\"" + t);
    assert ['n'] + "" == "n";
    assert body == "\\\\" + ("n\"" + t);
    ScanEscapedBackslash("n\"" + t);
    assert JsLiteral.ScanBody("n\"" + t) == Some(("n", t));
    assert ['\\'] + "n" == "\\n";
    assert JsLiteral.ScanBody(body) == Some(("\\n", t));
    assert s[0] == '"';
    assert s[1..] == body;
    assert JsLiteral.Separator <= t && t[|JsLiteral.Separator|..] == "\"\"";
    ScanQuote("");
    assert "\"\""[1..] == "\"" + "";
    assert JsLiteral.Eval("\"\"") == Some("");
    assert "\\n" + "" == "\\n";
  }

  lemma {:induction false} ScanQuote(t: string)
    ensures JsLiteral.ScanBody("\"" + t) == Some(("", t))
  {
    assert ("\"" + t)[1..] == t;
  }

  lemma {:induction false} ScanPlainChar(c: char, t: string)
    requires c != '"' && c != '\\' && c != '\n' && c != '\r'
    ensures JsLiteral.ScanBody([c] + t) ==
      match JsLiteral.ScanBody(t)
      case None => None
      case Some((v, rest)) => Some(([c] + v, rest))
  {
    assert ([c] + t)[1..] == t;
  }

  lemma {:induction false} ScanEscapedBackslash(t: string)
    ensures JsLiteral.ScanBody("\\\\" + t) ==
      match JsLiteral.ScanBody(t)
      case None => None
      case Some((v, rest)) => Some((['\\'] + v, rest))
  {
    var s := "\\\\" + t;
    assert s[0] == '\\' && s[1] == '\\' && s[2..] == t;
  }

  // convertHTMLtoJS

  const SnippetHead := "\nvar snippetsRaw = "
  const GetterStart := ";\n\n\nfunction getSnippets(){\nvar snip = document.createElement('div');"
  const RenderWithLang := "\n$(snip).html(snippetsRaw.format(lang));\n"
  const RenderPlain := "\n$(snip).html(snippetsRaw);\n"
  const GetterEnd := "\nreturn snip;\n}\n"

  /** `convertHTMLtoJS(html, hasLangResources)`: the flattened body between a fixed head and a getter. */
  method ConvertHTMLtoJS(html: string, hasLangResources: bool) returns (sb: string)
    ensures sb == SnippetHead + Flattened(ExtractBody(html)) + GetterStart
      + (if hasLangResources then RenderWithLang else RenderPlain) + GetterEnd
  {
    sb := SnippetHead;
    var flat := FlattenString(ExtractBody(html));
    sb := sb + flat;
    sb := sb + GetterStart;
    if hasLangResources {
      sb := sb + RenderWithLang;
    } else {
      sb := sb + RenderPlain;
    }
    sb := sb + GetterEnd;
  }

  /**
   * For a template with no backslash, `snippetsRaw` holds the kept lines of
   * the template's body, each ended by a line feed.
   */
  lemma {:induction false} SnippetValue(html: string)
    requires '\\' !in html
    ensures JsLiteral.Eval(Flattened(ExtractBody(html))) == Some(ConcatLines(KeptLines(Split(ExtractBody(html), Sentinel))))
  {
    var body := ExtractBody(html);
    ExcludePlain();
    assert '\\' !in Sentinel;
    assert '\\' !in body;
    FlattenedValue(body);
  }

  /** A body of one line framed by line feeds becomes three separated lines on one line. */
  lemma {:induction false} FramedLineRemoved(x: string)
    requires '\n' !in x && '\r' !in x
    ensures RemoveLineBreaks("\n" + x + "\n") == Sentinel + x + Sentinel
  {
    RemoveLineBreaksAppend("\n" + x, "\n");
    RemoveLineBreaksAppend("\n", x);
    RemoveLineBreaksKeeps(x);
    assert RemoveLineBreaks("\n") == Sentinel;
  }

  /** Split at the sentinels, those are three lines: an empty one, the text, an empty one. */
  lemma {:induction false} FramedLineSplit(x: string)
    requires 'B' !in x
    ensures Split(Sentinel + x + Sentinel, Sentinel) == ["", x, ""]
  {
    var lines := ["", x, ""];
    assert Join(lines[2..], Sentinel) == "";
    assert Join(lines[1..], Sentinel) == x + Sentinel + "";
    assert Join(lines, Sentinel) == "" + Sentinel + (x + Sentinel + "");
    assert Join(lines, Sentinel) == Sentinel + x + Sentinel;
    SentinelBorderless();
    MissingCharNotContained(x, Sentinel, 0);
    SplitJoin(lines, Sentinel);
  }

  /** All three are kept. */
  lemma {:induction false} FramedLineKept(x: string)
    requires '<' !in x
    ensures KeptLines(["", x, ""]) == ["", x, ""]
  {
    var lines := ["", x, ""];
    MissingCharNotContained(x, Exclude.start, 0);
    MissingCharNotContained(x, Exclude.line, 0);
    MissingCharNotContained(x, Exclude.end, 0);
    assert KeptFrom(Exclude, lines[2..], false) == [""];
    assert KeptFrom(Exclude, lines[1..], false) == [x, ""];
  }

  /**
   * A template body made of a line feed, one line of text and a line feed
   * flattens to three literals and the closing empty one; the text
   * "    html template body" is such a line.
   */
  lemma {:induction false} FlattenedFramedLine(x: string)
    requires '\n' !in x && '\r' !in x && '"' !in x && 'B' !in x && '<' !in x
    ensures Flattened(Trim(RemoveLineBreaks("\n" + x + "\n")))
      == "\"\\n\" + \n" + "\"" + x + "\\n\" + \n" + "\"\\n\" + \n" + "\"\""
  {
    var b := Sentinel + x + Sentinel;
    FramedLineRemoved(x);
    assert b[0] == 'B' && b[|b| - 1] == 'N';
    TrimKeeps(b);
    EscapeQuotesKeeps(b);
    FramedLineSplit(x);
    FramedLineKept(x);
    FramedLineLiterals(x);
  }

  lemma {:induction false} FramedLineLiterals(x: string)
    ensures LiteralLines(["", x, ""]) + "\"\""
      == "\"\\n\" + \n" + "\"" + x + "\\n\" + \n" + "\"\\n\" + \n" + "\"\""
  {
    var lines := ["", x, ""];
    var empty := "\"\\n\" + \n";
    assert LiteralLine("") == empty;
    assert LiteralLines(lines[2..]) == empty;
    assert LiteralLines(lines[1..]) == LiteralLine(x) + empty;
    assert LiteralLines(lines) == empty + (LiteralLine(x) + empty);
    var open, close := "\"", "\\n\" + \n";
    assert LiteralLine(x) == open + x + close;
    Regroup(empty, open, x, close, empty, "\"\"");
  }

  lemma {:induction false} Regroup(a: string, b: string, c: string, d: string, e: string, f: string)
    ensures (a + ((b + c + d) + e)) + f == a + b + c + d + e + f
  {
  }

  /** The same for a whole document with one body element holding that framed line. */
  lemma {:induction false} FlattenedFramedTemplate(a: string, x: string, d: string)
    requires '\n' !in x && '\r' !in x && '"' !in x && 'B' !in x && '<' !in x
    requires 'b' !in d && 'B' !in d && '\n' !in d
    ensures Flattened(ExtractBody(SingleBodyDoc(a, "\n" + x + "\n", d)))
      == "\"\\n\" + \n" + "\"" + x + "\\n\" + \n" + "\"\\n\" + \n" + "\"\""
  {
    assert '<' !in "\n" + x + "\n";
    ExtractSingleBody(a, "\n" + x + "\n", d);
    FlattenedFramedLine(x);
  }

  /** A line of template text: the one in the expected snippet of the content resolver's test. */
  const SampleLine := "    html template body"

  /** A template such as `<html><body>`, a line feed, that line, a line feed, `</body></html>`. */
  lemma {:induction false} SampleTemplate()
    ensures Flattened(ExtractBody(SingleBodyDoc("<html>", "\n" + SampleLine + "\n", "</html>")))
      == "\"\\n\" + \n" + "\"" + SampleLine + "\\n\" + \n" + "\"\\n\" + \n" + "\"\""
  {
    SampleLineChars();
    SampleTail();
    FlattenedFramedTemplate("<html>", SampleLine, "</html>");
  }

  lemma {:induction false} SampleLineChars()
    ensures '\n' !in SampleLine && '\r' !in SampleLine && '"' !in SampleLine && 'B' !in SampleLine && '<' !in SampleLine
  {
    assert forall i :: 0 <= i < |SampleLine| ==> SampleLine[i] == ' ' || 'a' <= SampleLine[i] <= 'z';
  }

  lemma {:induction false} SampleTail()
    ensures var d := "</html>"; 'b' !in d && 'B' !in d && '\n' !in d
  {
  }
}
