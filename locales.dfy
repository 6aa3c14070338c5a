/**
 * `readLocaleFiles(baseLocalePath, baseName)` from lib/utils.js: the locale
 * table built from the files `<baseName>_<lang>.json` of a directory. The
 * directory listing is an input; reading and parsing one file is the `load`
 * function (None when `JSON.parse` throws).
 */
module Locales {
  import opened Basics
  import opened Strings
  import Options

  /**
   * The file-name pattern `baseName + "_(.*).json"` matches at index `i` with
   * capture `lang`: the base name and '_' at `i`, then `lang`, one more
   * character (the unescaped '.') and "json"; regex `.` matches no line
   * terminator. The base name is taken literally.
   */
  predicate Matches(file: string, baseName: string, i: int, lang: string)
  {
    && OccursAt(file, baseName + "_" + lang, i)
    && OccursAt(file, "json", i + |baseName| + |lang| + 2)
    && forall j :: i + |baseName| + 1 <= j < i + |baseName| + |lang| + 2 ==> !IsLineTerminator(file[j])
  }

  /** The first index at or after `from` holding a line terminator, or |s|. */
  function LineEnd(s: string, from: nat): (e: nat)
    requires from <= |s|
    ensures from <= e <= |s|
    ensures forall j :: from <= j < e ==> !IsLineTerminator(s[j])
    ensures e < |s| ==> IsLineTerminator(s[e])
    decreases |s| - from
  {
    if from == |s| || IsLineTerminator(s[from]) then from else LineEnd(s, from + 1)
  }

  /** The last index in [lo, hi] at which "json" occurs. */
  function LastJson(s: string, lo: nat, hi: nat): (r: Option<nat>)
    ensures r.None? ==> forall k :: lo <= k <= hi ==> !OccursAt(s, "json", k)
    ensures r.Some? ==> lo <= r.value <= hi && OccursAt(s, "json", r.value)
    ensures r.Some? ==> forall k :: r.value < k <= hi ==> !OccursAt(s, "json", k)
    decreases hi
  {
    if hi < lo then None
    else if OccursAt(s, "json", hi) then Some(hi)
    else if hi == lo then None
    else LastJson(s, lo, hi - 1)
  }

  /** The greedy match of the pattern anchored at `i`: the longest capture, if any. */
  function MatchAt(file: string, baseName: string, i: nat): (r: Option<string>)
    ensures r.Some? ==> Matches(file, baseName, i, r.value)
  {
    if !OccursAt(file, baseName + "_", i) then None
    else
      var c := i + |baseName| + 1;
      var last := LastJson(file, c + 1, LineEnd(file, c));
      if last.None? then None
      else
        CaptureMatches(file, baseName, i, last.value);
        Some(file[c..last.value - 1])
  }

  /** Whenever the pattern matches at `i`, the greedy match there exists and its capture is at least as long. */
  lemma {:induction false} MatchAtLongest(file: string, baseName: string, i: nat, lang: string)
    requires Matches(file, baseName, i, lang)
    ensures MatchAt(file, baseName, i).Some?
    ensures |lang| <= |MatchAt(file, baseName, i).value|
  {
    assert file[i..i + |baseName| + 1] == file[i..i + |baseName + "_" + lang|][..|baseName| + 1];
    JsonBeforeLineEnd(file, baseName, i, lang);
  }

  /** A "json" after the capture start and before the end of the line yields a match. */
  lemma {:induction false} CaptureMatches(file: string, baseName: string, i: nat, k: nat)
    requires OccursAt(file, baseName + "_", i)
    requires i + |baseName| + 2 <= k <= LineEnd(file, i + |baseName| + 1)
    requires OccursAt(file, "json", k)
    ensures Matches(file, baseName, i, file[i + |baseName| + 1..k - 1])
  {
    var c := i + |baseName| + 1;
    assert file[i..k - 1] == file[i..c] + file[c..k - 1];
  }

  /** Every match anchored at `i` puts its "json" between the capture start + 1 and the end of the line. */
  lemma {:induction false} JsonBeforeLineEnd(file: string, baseName: string, i: nat, lang: string)
    requires Matches(file, baseName, i, lang)
    ensures i + |baseName| + |lang| + 2 <= LineEnd(file, i + |baseName| + 1)
  {
    var e := LineEnd(file, i + |baseName| + 1);
    assert e < |file| ==> IsLineTerminator(file[e]);
  }

  /** The leftmost index at or after `i` where the pattern matches, with its greedy capture. */
  function MatchFrom(file: string, baseName: string, i: nat): (r: Option<(nat, string)>)
    ensures r.Some? ==> i <= r.value.0 && Matches(file, baseName, r.value.0, r.value.1)
    ensures r.Some? ==> forall lang :: Matches(file, baseName, r.value.0, lang) ==> |lang| <= |r.value.1|
    ensures r.Some? ==> forall j, lang :: i <= j < r.value.0 ==> !Matches(file, baseName, j, lang)
    ensures r.None? ==> forall j, lang :: i <= j ==> !Matches(file, baseName, j, lang)
    decreases |file| + 1 - i
  {
    if i > |file| then None
    else
      match MatchAt(file, baseName, i)
      case Some(lang) =>
        forall lang' | Matches(file, baseName, i, lang') ensures |lang'| <= |lang| {
          MatchAtLongest(file, baseName, i, lang');
        }
        Some((i, lang))
      case None =>
        forall lang' ensures !Matches(file, baseName, i, lang') {
          if Matches(file, baseName, i, lang') {
            MatchAtLongest(file, baseName, i, lang');
          }
        }
        MatchFrom(file, baseName, i + 1)
  }

  /**
   * `file.match(re)` followed by `toks[1]`: the language of a locale file
   * name, None when the name does not match the pattern.
   */
  function LocaleLang(file: string, baseName: string): (r: Option<string>)
    ensures r.None? ==> forall i, lang :: !Matches(file, baseName, i, lang)
    ensures r.Some? ==> exists i :: (
      && 0 <= i
      && Matches(file, baseName, i, r.value)
      && (forall lang :: Matches(file, baseName, i, lang) ==> |lang| <= |r.value|)
      && (forall j, lang :: 0 <= j < i ==> !Matches(file, baseName, j, lang)))
  {
    match MatchFrom(file, baseName, 0)
    case None => None
    case Some((_, lang)) => Some(lang)
  }

  /** What one directory entry contributes to the table: `{lang: data}`, or nothing. */
  function LocaleArg<D>(file: string, baseName: string, load: string -> Option<D>): Options.Arg<D>
  {
    match LocaleLang(file, baseName)
    case None => None
    case Some(lang) =>
      match load(file)
      case None => None
      case Some(data) => Some(map[lang := data])
  }

  function LocaleArgs<D>(files: seq<string>, baseName: string, load: string -> Option<D>): seq<Options.Arg<D>>
  {
    seq(|files|, i requires 0 <= i < |files| => LocaleArg(files[i], baseName, load))
  }

  /**
   * `readLocaleFiles`: null for an empty directory; otherwise each matching
   * file that parses sets `langs[lang]`, in listing order.
   */
  method ReadLocaleFiles<D>(files: seq<string>, baseName: string, load: string -> Option<D>)
    returns (langs: Option<map<string, D>>)
    ensures files == [] ==> langs == None
    ensures files != [] ==> langs == Some(Options.Merged(LocaleArgs(files, baseName, load)))
  {
    if |files| == 0 {
      return None;
    }
    var table: map<string, D> := map[];
    for i := 0 to |files|
      invariant table == Options.Merged(LocaleArgs(files, baseName, load)[..i])
    {
      ReadStep(files, baseName, load, i);
      var toks := LocaleLang(files[i], baseName);
      if toks.Some? {
        var data := load(files[i]);
        if data.Some? {
          table := table[toks.value := data.value];
        }
      }
    }
    assert LocaleArgs(files, baseName, load)[..|files|] == LocaleArgs(files, baseName, load);
    langs := Some(table);
  }

  /** One directory entry read: the table gains `lang := data` when the name matches and the file parses. */
  lemma {:induction false} ReadStep<D>(files: seq<string>, baseName: string, load: string -> Option<D>, i: int)
    requires 0 <= i < |files|
    ensures var table := Options.Merged(LocaleArgs(files, baseName, load)[..i]);
      Options.Merged(LocaleArgs(files, baseName, load)[..i + 1]) ==
        match LocaleLang(files[i], baseName)
        case None => table
        case Some(lang) =>
          match load(files[i])
          case None => table
          case Some(data) => table[lang := data]
  {
    var args := LocaleArgs(files, baseName, load);
    assert args[..i + 1][..i] == args[..i];
    var table := Options.Merged(args[..i]);
    match LocaleLang(files[i], baseName)
    case None =>
    case Some(lang) =>
      match load(files[i])
      case None =>
      case Some(data) =>
        assert table[lang := data] == table + map[lang := data];
  }

  /** A language is in the table iff some listed file carries it in its name and parses. */
  lemma {:induction false} LocaleKeys<D>(files: seq<string>, baseName: string, load: string -> Option<D>, lang: string)
    ensures lang in Options.Merged(LocaleArgs(files, baseName, load)) <==>
      exists i :: 0 <= i < |files| && LocaleLang(files[i], baseName) == Some(lang) && load(files[i]).Some?
  {
    var args := LocaleArgs(files, baseName, load);
    Options.MergedKeys(args, lang);
    forall i | 0 <= i < |files|
      ensures lang in Options.Own(args[i]) <==> LocaleLang(files[i], baseName) == Some(lang) && load(files[i]).Some?
    {
      LocaleArgKeys(files[i], baseName, load, lang);
    }
  }

  /** One entry contributes `lang` iff its name carries `lang` and it parses. */
  lemma {:induction false} LocaleArgKeys<D>(file: string, baseName: string, load: string -> Option<D>, lang: string)
    ensures lang in Options.Own(LocaleArg(file, baseName, load)) <==> LocaleLang(file, baseName) == Some(lang) && load(file).Some?
    ensures lang in Options.Own(LocaleArg(file, baseName, load)) ==> Options.Own(LocaleArg(file, baseName, load))[lang] == load(file).value
  {
  }

  /** When several files carry the same language, the last one listed that parses supplies its data. */
  lemma {:induction false} LocaleLastFileWins<D>(files: seq<string>, baseName: string, load: string -> Option<D>, i: int, lang: string)
    requires 0 <= i < |files| && LocaleLang(files[i], baseName) == Some(lang) && load(files[i]).Some?
    requires forall j :: i < j < |files| && LocaleLang(files[j], baseName) == Some(lang) ==> load(files[j]).None?
    ensures lang in Options.Merged(LocaleArgs(files, baseName, load))
    ensures Options.Merged(LocaleArgs(files, baseName, load))[lang] == load(files[i]).value
  {
    var args := LocaleArgs(files, baseName, load);
    LocaleArgKeys(files[i], baseName, load, lang);
    forall j | i < j < |args|
      ensures lang !in Options.Own(args[j])
    {
      LocaleArgKeys(files[j], baseName, load, lang);
    }
    Options.MergedValue(args, i, lang);
  }

  /** The usual naming: "strings_en.json" under the base name "strings" is the English table. */
  lemma {:induction false} PlainLocaleName()
    ensures LocaleLang("strings_en.json", "strings") == Some("en")
  {
    var s := "strings_en.json";
    assert s[8..11] == "en." && s[11..15] == "json" && s[..8] == "strings_";
    assert LineEnd(s, 8) == 15 by {
      assert LineEnd(s, 15) == 15;
    }
    assert LastJson(s, 9, 15) == Some(11) by {
      assert !OccursAt(s, "json", 15) && !OccursAt(s, "json", 14);
      assert !OccursAt(s, "json", 13) && !OccursAt(s, "json", 12);
      assert LastJson(s, 9, 11) == Some(11);
    }
    assert s[8..10] == "en";
    assert OccursAt(s, "strings" + "_", 0);
    assert MatchAt(s, "strings", 0) == Some("en");
  }
}
