/**
 * The POSIX flavour of Node's `path.basename`, `path.dirname` and `path.join`
 * (with `path.normalize`), as lib/utils.js calls them.
 */
module NodePath {
  import opened Strings

  /** Index of the last '/' in `s[..end]`, or -1. */
  function LastSlash(s: string, end: nat): (r: int)
    requires end <= |s|
    ensures -1 <= r < end
    ensures r != -1 ==> s[r] == '/'
    ensures forall i :: r < i < end ==> s[i] != '/'
    decreases end
  {
    if end == 0 then -1 else if s[end - 1] == '/' then end - 1 else LastSlash(s, end - 1)
  }

  /** Length of `s` once its trailing slashes are dropped. */
  function StripTrailingSlashes(s: string, end: nat): (r: nat)
    requires end <= |s|
    ensures r <= end
    ensures r > 0 ==> s[r - 1] != '/'
    ensures forall i :: r <= i < end ==> s[i] == '/'
    decreases end
  {
    if end > 0 && s[end - 1] == '/' then StripTrailingSlashes(s, end - 1) else end
  }

  /** `path.basename(p)`: the last segment, trailing slashes ignored; '' when there is none. */
  function Basename(p: string): (r: string)
    ensures '/' !in r
  {
    var end := StripTrailingSlashes(p, |p|);
    p[LastSlash(p, end) + 1..end]
  }

  /**
   * The scan inside `path.dirname`: from index `i` down to 1, the first '/' met
   * after a non-slash character, or -1.
   */
  function DirnameEnd(p: string, i: int, matchedSlash: bool): (r: int)
    requires i < |p|
    ensures r == -1 || 1 <= r <= i
    decreases i
  {
    if i < 1 then -1
    else if p[i] == '/' then (if !matchedSlash then i else DirnameEnd(p, i - 1, matchedSlash))
    else DirnameEnd(p, i - 1, false)
  }

  /** `path.dirname(p)`. */
  function Dirname(p: string): (r: string)
    ensures r != ""
  {
    if p == "" then "."
    else
      var hasRoot := p[0] == '/';
      var end := DirnameEnd(p, |p| - 1, true);
      if end == -1 then (if hasRoot then "/" else ".")
      else if hasRoot && end == 1 then "//"
      else p[..end]
  }

  /** The segment stack `path.normalize` builds: '' and '.' vanish, '..' pops or, when allowed, stays. */
  function Resolve(segments: seq<string>, allowAboveRoot: bool, stack: seq<string>): seq<string>
    decreases |segments|
  {
    if segments == [] then stack
    else
      var seg := segments[0];
      if seg == "" || seg == "." then Resolve(segments[1..], allowAboveRoot, stack)
      else if seg == ".." then
        if stack != [] && stack[|stack| - 1] != ".." then Resolve(segments[1..], allowAboveRoot, stack[..|stack| - 1])
        else if allowAboveRoot then Resolve(segments[1..], allowAboveRoot, stack + [".."])
        else Resolve(segments[1..], allowAboveRoot, stack)
      else Resolve(segments[1..], allowAboveRoot, stack + [seg])
  }

  /** `path.normalize(p)`. */
  function Normalize(p: string): (r: string)
    ensures r != ""
  {
    if p == "" then "."
    else
      var isAbsolute := p[0] == '/';
      var trailingSeparator := p[|p| - 1] == '/';
      var body := Join(Resolve(Split(p, "/"), !isAbsolute, []), "/");
      if body == "" then (if isAbsolute then "/" else if trailingSeparator then "./" else ".")
      else (if isAbsolute then "/" else "") + body + (if trailingSeparator then "/" else "")
  }

  /** `path.join(a, b)`: the non-empty arguments joined by '/', then normalised; never ''. */
  function PathJoin(a: string, b: string): (r: string)
    ensures r != ""
  {
    var joined := if a == "" then b else if b == "" then a else a + "/" + b;
    if joined == "" then "." else Normalize(joined)
  }
}
