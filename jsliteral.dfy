/**
 * The value of the JavaScript expression `flattenString` writes: double-quoted
 * string literals joined by " + " and a line feed. Only the escapes that
 * expression can hold are interpreted (\n, \" and \\); any other escape, a raw
 * CR or LF inside a literal, or any other layout gives None.
 */
module JsLiteral {
  import opened Basics

  /** The text between two literals of the sum. */
  const Separator := " + \n"

  /**
   * Reads a literal's body up to its closing quote: the string value so far
   * and the text after the quote.
   */
  function ScanBody(s: string): (r: Option<(string, string)>)
    ensures r.Some? ==> |r.value.1| < |s|
    decreases |s|
  {
    if s == [] then None
    else if s[0] == '"' then Some(("", s[1..]))
    else if s[0] == '\n' || s[0] == '\r' then None
    else if s[0] == '\\' then
      if |s| < 2 then None
      else if s[1] == 'n' || s[1] == '"' || s[1] == '\\' then
        var c := if s[1] == 'n' then '\n' else s[1];
        match ScanBody(s[2..])
        case None => None
        case Some((v, rest)) => Some(([c] + v, rest))
      else None
    else
      match ScanBody(s[1..])
      case None => None
      case Some((v, rest)) => Some(([s[0]] + v, rest))
  }

  /** The value of a sum of literals, or None when `s` is not one. */
  function Eval(s: string): Option<string>
    decreases |s|
  {
    if s == [] || s[0] != '"' then None
    else
      match ScanBody(s[1..])
      case None => None
      case Some((v, rest)) =>
        if rest == "" then Some(v)
        else if Separator <= rest then
          match Eval(rest[|Separator|..])
          case None => None
          case Some(w) => Some(v + w)
        else None
  }
}
