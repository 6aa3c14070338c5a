/**
 * The JavaScript string operations the asset utilities rely on: `indexOf`,
 * a first-occurrence `replace`, `split` on a string separator, `join`, and
 * the LineTerminator class of the language grammar.
 */
module Strings {

  /** `t` occurs in `s` starting at index `i`. */
  predicate OccursAt(s: string, t: string, i: int)
  {
    0 <= i && i + |t| <= |s| && s[i..i + |t|] == t
  }

  lemma {:induction false} ShiftOccurs(s: string, t: string)
    requires |s| > 0
    ensures forall i :: 1 <= i ==> (OccursAt(s, t, i) <==> OccursAt(s[1..], t, i - 1))
  {
    forall i | 1 <= i
      ensures OccursAt(s, t, i) <==> OccursAt(s[1..], t, i - 1)
    {
      if i + |t| <= |s| {
        assert s[1..][i - 1..i - 1 + |t|] == s[i..i + |t|];
      }
    }
  }

  /** `s.indexOf(t)`: the first index at which `t` occurs in `s`, or -1. */
  function IndexOf(s: string, t: string): (r: int)
    ensures -1 <= r <= |s|
    ensures r == -1 ==> forall i :: !OccursAt(s, t, i)
    ensures r != -1 ==> OccursAt(s, t, r) && forall i :: 0 <= i < r ==> !OccursAt(s, t, i)
    decreases |s|
  {
    if t <= s then 0
    else if s == [] then -1
    else
      var k := IndexOf(s[1..], t);
      ShiftOccurs(s, t);
      if k == -1 then -1 else k + 1
  }

  /** `s.indexOf(t) !== -1`. */
  predicate Contains(s: string, t: string)
  {
    IndexOf(s, t) != -1
  }

  /** One step of the left-to-right search: when `t` does not start `s`, it occurs in `s` iff in `s[1..]`. */
  lemma {:induction false} ContainsStep(s: string, t: string)
    requires s != [] && !(t <= s)
    ensures Contains(s, t) <==> Contains(s[1..], t)
  {
  }

  /** An occurrence inside `b` is an occurrence inside `a + b + c`. */
  lemma {:induction false} ContainsInfix(a: string, b: string, c: string, t: string)
    requires Contains(b, t)
    ensures Contains(a + b + c, t)
  {
    var i := IndexOf(b, t);
    assert (a + b + c)[|a| + i..|a| + i + |t|] == b[i..i + |t|];
    assert OccursAt(a + b + c, t, |a| + i);
  }

  /** A string lacking some character of `t` cannot contain `t`. */
  lemma {:induction false} MissingCharNotContained(s: string, t: string, j: int)
    requires 0 <= j < |t| && t[j] !in s
    ensures !Contains(s, t)
  {
  }

  /** `s.replace(pat, rep)` with a non-global pattern: only the first occurrence is replaced. */
  function ReplaceFirst(s: string, pat: string, rep: string): string
  {
    var i := IndexOf(s, pat);
    if i == -1 then s else s[..i] + rep + s[i + |pat|..]
  }

  /**
   * `s.split(sep)` for a non-empty string separator: the pieces between the
   * non-overlapping occurrences of `sep` found scanning from the left.
   */
  function Split(s: string, sep: string): (r: seq<string>)
    requires sep != ""
    ensures |r| >= 1
  {
    SplitFrom(s, sep, "")
  }

  /** The scan behind Split, with `piece` the text read since the last separator. */
  function SplitFrom(s: string, sep: string, piece: string): (r: seq<string>)
    requires sep != ""
    ensures |r| >= 1
    decreases |s|
  {
    if s == "" then [piece]
    else if sep <= s then [piece] + SplitFrom(s[|sep|..], sep, "")
    else SplitFrom(s[1..], sep, piece + [s[0]])
  }

  /** `parts.join(sep)`. */
  function Join(parts: seq<string>, sep: string): string
    decreases |parts|
  {
    if |parts| == 0 then ""
    else if |parts| == 1 then parts[0]
    else parts[0] + sep + Join(parts[1..], sep)
  }

  /** No proper prefix of `sep` is also a suffix of it, so occurrences of `sep` never overlap. */
  predicate Borderless(sep: string)
  {
    forall k :: 0 < k < |sep| ==> sep[k..] != sep[..|sep| - k]
  }

  lemma {:induction false} JoinSplitFrom(s: string, sep: string, piece: string)
    requires sep != ""
    ensures Join(SplitFrom(s, sep, piece), sep) == piece + s
    decreases |s|
  {
    if s == "" {
    } else if sep <= s {
      var t := s[|sep|..];
      var rest := SplitFrom(t, sep, "");
      calc {
        Join(SplitFrom(s, sep, piece), sep);
        Join([piece] + rest, sep);
        { assert ([piece] + rest)[1..] == rest; }
        piece + sep + Join(rest, sep);
        { JoinSplitFrom(t, sep, ""); }
        piece + sep + t;
        { assert s == sep + t; }
        piece + s;
      }
    } else {
      calc {
        Join(SplitFrom(s, sep, piece), sep);
        Join(SplitFrom(s[1..], sep, piece + [s[0]]), sep);
        { JoinSplitFrom(s[1..], sep, piece + [s[0]]); }
        piece + [s[0]] + s[1..];
        { assert [s[0]] + s[1..] == s; }
        piece + s;
      }
    }
  }

  /** Joining the pieces of a split with the same separator gives back the string. */
  lemma {:induction false} JoinSplit(s: string, sep: string)
    requires sep != ""
    ensures Join(Split(s, sep), sep) == s
  {
    JoinSplitFrom(s, sep, "");
  }

  lemma {:induction false} SplitFromNoSeparator(s: string, sep: string, piece: string)
    requires sep != "" && !Contains(s, sep)
    ensures SplitFrom(s, sep, piece) == [piece + s]
    decreases |s|
  {
    if s != "" {
      assert !(sep <= s);
      ContainsStep(s, sep);
      assert SplitFrom(s, sep, piece) == SplitFrom(s[1..], sep, piece + [s[0]]);
      SplitFromNoSeparator(s[1..], sep, piece + [s[0]]);
      assert piece + [s[0]] + s[1..] == piece + s;
    } else {
      assert piece + s == piece;
    }
  }

  /** A separator that starts inside `line` and runs on into a following separator has a border. */
  lemma {:induction false} OverlapIsBorder(line: string, sep: string, rest: string)
    requires 0 < |line| < |sep| && sep <= line + sep + rest
    ensures sep[|line|..] == sep[..|sep| - |line|]
  {
    var s, k := line + sep + rest, |line|;
    forall j | 0 <= j < |sep| - k
      ensures sep[k..][j] == sep[..|sep| - k][j]
    {
      assert sep[k + j] == s[k + j];
      assert s[k + j] == (sep + rest)[j];
    }
  }

  /** A non-empty line free of a borderless separator is not the start of one, whatever follows. */
  lemma {:induction false} NoSeparatorAtFront(line: string, sep: string, rest: string)
    requires line != "" && Borderless(sep) && !Contains(line, sep)
    ensures !(sep <= line + sep + rest)
  {
    if sep <= line + sep + rest && |line| < |sep| {
      OverlapIsBorder(line, sep, rest);
    }
  }

  lemma {:induction false} SplitFromSeparator(line: string, rest: string, sep: string, piece: string)
    requires sep != "" && Borderless(sep) && !Contains(line, sep)
    ensures SplitFrom(line + sep + rest, sep, piece) == [piece + line] + Split(rest, sep)
    decreases |line|
  {
    var s := line + sep + rest;
    if line == "" {
      assert s == sep + rest;
      assert s[|sep|..] == rest;
      assert SplitFrom(s, sep, piece) == [piece] + SplitFrom(rest, sep, "");
      assert piece + line == piece;
    } else {
      NoSeparatorAtFront(line, sep, rest);
      assert SplitFrom(s, sep, piece) == SplitFrom(s[1..], sep, piece + [line[0]]);
      ContainsStep(line, sep);
      assert s[1..] == line[1..] + sep + rest;
      SplitFromSeparator(line[1..], rest, sep, piece + [line[0]]);
      assert piece + [line[0]] + line[1..] == piece + line;
    }
  }

  /** Splitting a join gives back the parts, when no part contains the (borderless) separator. */
  lemma {:induction false} SplitJoin(parts: seq<string>, sep: string)
    requires sep != "" && Borderless(sep) && |parts| >= 1
    requires forall i :: 0 <= i < |parts| ==> !Contains(parts[i], sep)
    ensures Split(Join(parts, sep), sep) == parts
    decreases |parts|
  {
    if |parts| == 1 {
      SplitFromNoSeparator(parts[0], sep, "");
      assert "" + parts[0] == parts[0];
      assert parts == [parts[0]];
    } else {
      SplitFromSeparator(parts[0], Join(parts[1..], sep), sep, "");
      assert "" + parts[0] == parts[0];
      SplitJoin(parts[1..], sep);
      assert parts == [parts[0]] + parts[1..];
    }
  }

  /** Every piece of a split is free of `t` when the text it came from is. */
  lemma {:induction false} PiecesAvoid(s: string, sep: string, piece: string, t: string)
    requires sep != "" && !Contains(piece + s, t)
    ensures forall p :: p in SplitFrom(s, sep, piece) ==> !Contains(p, t)
    decreases |s|
  {
    if s == "" {
      assert piece + s == piece;
    } else if sep <= s {
      if Contains(piece, t) {
        assert "" + piece + s == piece + s;
        ContainsInfix("", piece, s, t);
      }
      if Contains(s[|sep|..], t) {
        assert piece + s[..|sep|] + s[|sep|..] + "" == piece + s;
        ContainsInfix(piece + s[..|sep|], s[|sep|..], "", t);
      }
      assert "" + s[|sep|..] == s[|sep|..];
      PiecesAvoid(s[|sep|..], sep, "", t);
    } else {
      assert piece + [s[0]] + s[1..] == piece + s;
      PiecesAvoid(s[1..], sep, piece + [s[0]], t);
    }
  }

  /** Every character of a piece of a split comes from the text it came from. */
  lemma {:induction false} PiecesChars(s: string, sep: string, piece: string)
    requires sep != ""
    ensures forall p, c :: p in SplitFrom(s, sep, piece) && c in p ==> c in piece + s
    decreases |s|
  {
    if s == "" {
    } else if sep <= s {
      PiecesChars(s[|sep|..], sep, "");
      assert forall c :: c in s[|sep|..] ==> c in s;
    } else {
      assert piece + [s[0]] + s[1..] == piece + s;
      PiecesChars(s[1..], sep, piece + [s[0]]);
    }
  }

  /** ECMAScript LineTerminator: LF, CR, LINE SEPARATOR and PARAGRAPH SEPARATOR. */
  predicate IsLineTerminator(c: char)
  {
    c == '\n' || c == '\r' || c == '\U{2028}' || c == '\U{2029}'
  }
}
