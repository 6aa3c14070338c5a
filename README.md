# asset-manager utilities, modelled in Dafny

This project models the string and collection layer of the asset manager's
`lib/utils.js`. The asset resolver uses these helpers to:

- merge option objects (`extend`);
- turn a stylesheet route into a media type and a path (`extractMediaMeta`);
- drop the files that belong to an assembly (`filterAssembliesFiles`);
- find module stylesheets (`findModuleCSSFiles`);
- build the ordered list of asset roots from configured specifiers, globs and `asset-manifest.json` redirects (`expandPaths`, `detectFoldersWithManifest`);
- collect locale tables (`readLocaleFiles`);
- turn an HTML template into an embeddable JavaScript snippet (`removeLineBreaks`, `extractBody`, `flattenString`, `convertHTMLtoJS`).

Code that updates variables step by step, with sequential updates or a loop, is modelled as a `method` with those updates and a contract that gives its result. This covers `extend`, `extractMediaMeta`, `findModuleCSSFiles`, the concatenation loop of `expandPaths`, `readLocaleFiles`, `flattenString` and `convertHTMLtoJS`. The map, filter and replace code is modelled as functions. Lemmas then state, about those functions, what the code promises.

The modules:

- `Basics`: `Option`.
- `Strings`: JavaScript `indexOf`, a first-occurrence `replace`, `split`/`join` on a string separator, and the LineTerminator class. It includes the split/join round trips.
- `NodePath`: the POSIX `path.basename`, `path.dirname` and `path.join`/`path.normalize`, as far as the calls in the utilities need them.
- `Options`: `extend` as a left-to-right fold of maps, and `extractMediaMeta`.
- `Assets`: `filterAssembliesFiles` and `findModuleCSSFiles`.
- `Roots`: the list logic of `expandPaths` and `detectFoldersWithManifest`.
- `Locales`: `readLocaleFiles`. It includes a model of the file-name regex `baseName + "_(.*).json"`, which is unanchored, greedy, and treats `.` as "any character except a line terminator".
- `Body`: `removeLineBreaks`, and `extractBody` with its regex `(.*)<body[^>]*>(.*)<\/body>(.*)` under the flags `gi`. The regex is modelled greedily: the last opening tag that has a closing tag after it, and the last closing tag. `String.prototype.trim` is modelled too.
- `JsLiteral`: the value of the JavaScript expression `flattenString` writes, a sum of double-quoted literals. It is used to state that the quoting loses nothing for a body without a backslash, and that a backslash is misread (`BackslashMisread`).
- `Snippets`: `flattenString`, with its exclude-block state machine, and `convertHTMLtoJS`.

Three behaviours of the code worth noting:

- `extractBody` is greedy: it picks the last `<body` that has a later `</body>`, and the last `</body>`. It is not a non-greedy match.
- `detectFoldersWithManifest` yields an entry for every manifest found. The entry is `''` when the manifest gives no redirect. Those empty entries are dropped later by the `aPath.length > 0` filter of `expandPaths`.
- `removeLineBreaks` marks each line feed with the text `BACKSLASHN`, and `flattenString` splits on that text. A template that already contains the literal text `BACKSLASHN` therefore gets a line break at that point. The model reproduces this.

## Model

| member | source | states |
|---|---|---|
| Options.Extend | lib/utils.js:16-26 | The nested copy loops build exactly the left-to-right merge of the arguments, with a falsy argument counting as `{}`. |
| Options.MergedAppend | lib/utils.js:19-24 | Merging a concatenation of argument lists equals merging each list and letting the second override the first, so the fold really runs left to right. |
| Options.NullArgumentIgnored | lib/utils.js:20 | A null or undefined argument, at any position, leaves the result unchanged. |
| Options.MergedKeys | lib/utils.js:19-24 | The result has key `k` iff some argument has `k`. |
| Options.MergedValue | lib/utils.js:21-23 | The value of `k` is the one in the rightmost argument that has `k`. |
| Options.ExtractMediaMeta | lib/utils.js:33-47 | A string route gives `screen` and the route. An object route gives its last key and that key's value. An empty object keeps `screen` with the route itself as the path. |
| Assets.AsFolder | lib/utils.js:74-76 | The normalised folder is the folder plus '/' only when the folder does not already end in '/', and the folder itself otherwise; it always ends in '/'. |
| Assets.UnderFolderIsPrefix | lib/utils.js:79 | `file.indexOf(folder) === 0` holds exactly when the normalised folder is a prefix of the file. |
| Assets.OutsideAssemblies | lib/utils.js:77-85 | The kept files are at most as many as the input, and a file is kept iff it is an input file under no assembly folder. |
| Assets.OutsideAssembliesAppend | lib/utils.js:77-85 | The filter works file by file: filtering a concatenation concatenates the filtered parts, so input order is kept. |
| Assets.FilterAssembliesFiles | lib/utils.js:73-91 | The output ends with `folder + ".js"` for each assembly folder, in order. Before those comes the filtered file list itself, in input order, and a file is in it iff it is an input file that starts with no normalised folder. The length lies between `|assemblyFolders|` and `|allFiles| + |assemblyFolders|`. |
| Assets.FindModuleCSSFiles | lib/utils.js:94-108 | The loop returns the rewritten stylesheet name of each module folder whose own stylesheet exists, in folder order. |
| Assets.ModuleCssFilesMembers | lib/utils.js:94-108 | At most one name per module folder. A name is listed iff some folder has its `<basename>.css` file and is recorded under that name. |
| Assets.CssOutputNameRewritesFolder | lib/utils.js:102-103 | `(folder + ".css").replace(/js/, 'css')` rewrites the first "js" of the folder path only, and never touches the appended ".css". |
| Roots.ManifestRedirect | lib/utils.js:168-186 | A manifest yields `''` iff its path contains "asset-manager", it does not parse, or its `assetPath` is missing, falsy or not a string. Otherwise it yields `path.join(path.dirname(file), assetPath)`. |
| Roots.DetectFoldersWithManifest | lib/utils.js:156-192 | With no scan directory or no file list the result is empty. Otherwise there is one entry per manifest, in discovery order, and an entry is `''` exactly for a skipped manifest. |
| Roots.DirectoryMatches | lib/utils.js:125-130 | Only glob matches with a trailing '/' survive, with that slash removed: `x` is kept iff `x + "/"` was a match. |
| Roots.DirectoryMatchesAppend | lib/utils.js:125-130 | The filter keeps the glob's order: it distributes over concatenation of the match list. |
| Roots.ExpandPath | lib/utils.js:116-134 | A specifier without '*' expands to exactly itself. A glob expands to its directory matches without their trailing slash. |
| Roots.Existing | lib/utils.js:147-149 | The final filter keeps a path iff it is non-empty and exists. |
| Roots.ExpandPaths | lib/utils.js:136-153 | The callback chain computes the root list: configured specifiers, then manifest redirects, each expanded in order, concatenated, and then filtered. |
| Roots.RootListOrder | lib/utils.js:137-149 | Every root from the configured specifiers comes before every root from the manifest redirects, so redirects have the lower priority. |
| Roots.FlattenMembers | lib/utils.js:142-145 | The concatenation of the per-specifier results holds `x` iff some result holds it. |
| Roots.RootListMembers | lib/utils.js:114-154 | A path is a root iff it is non-empty, exists, and is an expansion of a configured specifier or of a manifest redirect. |
| Locales.MatchFrom | lib/utils.js:260-268 | The search finds the leftmost index where the pattern matches, with the longest capture there; no match means the pattern matches nowhere. |
| Locales.MatchAtLongest | lib/utils.js:260 | When the pattern matches at an index, the greedy match there exists and its capture is at least as long. |
| Locales.LocaleLang | lib/utils.js:268-274 | `toks[1]` is the capture of the leftmost, greedy match, and a non-matching name gives no language. |
| Locales.PlainLocaleName | lib/utils.js:260-274 | For base name "strings", the file "strings_en.json" gives the language "en". |
| Locales.ReadLocaleFiles | lib/utils.js:258-287 | An empty listing gives null. Otherwise the result is the merge, in listing order, of `{lang: data}` for every matching file whose contents parse. |
| Locales.ReadStep | lib/utils.js:267-284 | One listing entry sets `langs[lang] = data` when its name matches and its contents parse, and otherwise leaves the table unchanged. |
| Locales.LocaleKeys | lib/utils.js:267-286 | The table has `lang` iff some listed file names `lang` and parses. |
| Locales.LocaleLastFileWins | lib/utils.js:279 | The entry for `lang` holds the data of the last listed file that names `lang` and parses. |
| Body.StripCarriageReturns | lib/utils.js:347 | The result holds exactly the characters of the input other than '\r'. |
| Body.ReplaceNewlines | lib/utils.js:348 | Apart from the sentinel's own letters, the result holds exactly the characters of the input other than '\n'. |
| Body.RemoveLineBreaks | lib/utils.js:346-350 | The result holds no '\r' and no '\n'. |
| Body.RemoveLineBreaksAppend | lib/utils.js:346-350 | The rewrite works character by character: it distributes over concatenation. |
| Body.RemoveLineBreaksJoinsLines | lib/utils.js:346-350 | The result is the lines of the CR-free input joined by `BACKSLASHN`: each '\n' becomes exactly one sentinel, and everything else is kept in order. |
| Body.RemoveLineBreaksLines | lib/utils.js:346-350 | When the CR-free input does not already contain `BACKSLASHN`, splitting the result on `BACKSLASHN` gives back the lines of the CR-free input. |
| Body.BodyMatch | lib/utils.js:359 | No match iff no `<body…>` has a later `</body>`. Otherwise the match uses the last opening tag that can be closed and, for it, the last `</body>`. |
| Body.Trim | lib/utils.js:359 | The result starts and ends with no JavaScript white space or line terminator, and is an infix of the input with only white space around it. |
| Body.TrimIdempotent | lib/utils.js:359 | Trimming twice gives the same as trimming once. |
| Body.ExtractBody | lib/utils.js:357-361 | The extracted body is on one line, and every character in it comes from the input or from the sentinel. |
| Body.SingleBody | lib/utils.js:359 | For a document `a<body>c</body>d`, where `c` holds no '<' and `d` no 'b' or 'B', the replacement gives exactly `c`. |
| Body.ExtractSingleBody | lib/utils.js:357-361 | For such a document with `d` on one line, `extractBody` is the trimmed, line-break-free form of `c`. |
| Strings.JoinSplit | lib/utils.js:318 | `s.split(sep).join(sep) == s` for every non-empty separator. |
| Strings.SplitJoin | lib/utils.js:318 | Splitting a join gives back the parts, when no part contains a separator whose occurrences cannot overlap. |
| Snippets.FlattenString | lib/utils.js:316-339 | The loop with its `inExcludeBlock` flag builds one `"line\n" + ` literal per kept line, in order, followed by `""`. |
| Snippets.OpenBeforeStep | lib/utils.js:322-335 | The flag before each line equals "some earlier line opened a block, and no line since closed one", with END winning over START on the same line. |
| Snippets.KeptLinesSelected | lib/utils.js:322-335 | The lines written are exactly the lines that are outside any open block, carry no START and carry no LINE marker, in their original order. |
| Snippets.MarkerLines | lib/utils.js:324-334 | A START line is never written. An END line inside a block is not written. After an END line no block is open, so a line with both markers suppresses only itself. |
| Snippets.KeptEscaped | lib/utils.js:317-318 | Escaping quotes before the split does not change which lines are kept, because the markers hold no quote. |
| Snippets.FlattenedValue | lib/utils.js:316-339 | For a one-line body with no backslash, evaluating the emitted JavaScript expression gives the kept lines, each followed by a line feed. |
| Snippets.SnippetValue | lib/utils.js:296-297 | For a template with no backslash, `snippetsRaw` holds the kept lines of the template's extracted body, each ended by a line feed. |
| Snippets.BackslashMisread | lib/utils.js:311-318 | Only `"` is escaped, so the one-character body `\` is written as the literal `"\\n"`, which evaluates to a backslash and n instead of the kept line's backslash and line feed. |
| Snippets.ConvertHTMLtoJS | lib/utils.js:292-309 | The output is the fixed head, the flattened body, and the getter. The getter renders `snippetsRaw.format(lang)` iff `hasLangResources`, and `snippetsRaw` otherwise. |
| Snippets.FlattenedFramedTemplate | lib/utils.js:296-297 | For a line `x` with no '"', '<', 'B' or line break, in a document whose tail `d` has no 'b', 'B' or '\n': a body made of a line feed, `x` and a line feed flattens to the literals for "", `x` and "", then `""`. |
| Snippets.SampleTemplate | test/contentResolver-test.js:60 | A template such as `<html><body>` then "\n    html template body\n" then `</body></html>`, gives `"\n" + \n"    html template body\n" + \n"\n" + \n""`. |

## Left out

- `mkdirRecursiveSync`, `writeToFile`, `generateHash`, `compressJS` and `gzipString`: file-system writes, MD5, minification and gzip. They are thin wrappers over libraries whose code is not part of this model.
- Glob expansion, `fs.existsSync`, `fs.readdirSync`, `fs.readFileSync` and `JSON.parse` are inputs of the model:
  - a function from a glob to its marked matches;
  - a predicate for existence;
  - the directory listing;
  - a function from a locale file to its parsed data (None when the parse throws);
  - the manifests found, with each manifest's parse outcome.
- The callbacks of `expandPaths` and `detectFoldersWithManifest` are return values. The `async.map` fan-out is a sequential map, since only its order-preserving result is used.
- Error paths:
  - A glob error in `expandPath` is not modelled. It leaves `files` undefined, so the source crashes at `files.filter`.
  - A glob error in `detectFoldersWithManifest` is modelled: it leaves no file list, which is `found == None`, and the result is `[]`.
  - The `er` argument of the `async.map` callback is ignored by the source and not modelled.
  - Exceptions thrown by `readFileSync` or `readdirSync` are not modelled.
  - The diagnostics are not modelled: the `console.warn` for a manifest without `assetPath` (lib/utils.js:180), and the `console.error` for a manifest or a locale file that does not parse (lib/utils.js:183, 281). Only the value each case produces is modelled: `''` for the manifest, no entry for the locale file.
- Locales.Matches: the base name is matched literally. Regex metacharacters inside `baseName` are not interpreted.
- Body.Content: assumes the one-line text holds no U+2028 or U+2029. In the source those two line terminators would stop the regex's `.` groups, and the model does not capture that.
- Body.LowerAscii: case-insensitive matching folds ASCII letters only. That is exact for the all-ASCII tags `<body` and `</body>`.
- Snippets.FlattenedValue: the round trip is stated only for bodies with no backslash. `flattenString` escapes quotes but not backslashes, so a backslash in a template changes the value of the emitted literal; `Snippets.BackslashMisread` gives an input for which the round trip fails. The model keeps the code's escaping as written.
- Snippets.SnippetValue: it has the same backslash restriction.
- JsLiteral.Eval: it evaluates only the fragment of JavaScript that `flattenString` emits: double-quoted literals with the escapes `\n`, `\"` and `\\`, joined by `" + "` and a line feed.
- JavaScript strings are sequences of UTF-16 code units. The model uses Unicode scalar values. For `Locales.LocaleLang` the difference shows: without the `u` flag, the `.` before `json` in the file-name pattern (lib/utils.js:260) matches one UTF-16 code unit. So for the file name `strings_x`, then U+1F600, then `json`, the source captures `x` followed by a lone high surrogate, while `Locales.MatchAt` captures `x`. File names with characters outside the Basic Multilingual Plane are therefore not modelled faithfully there. The other operations compare, split and copy whole characters only, so they do not depend on the difference.
- The enumeration order of object keys in `extractMediaMeta` is the order of the route's entries as given. Integer-like keys, which JavaScript enumerates first, are not treated specially.
- Options.Merged / Locales.ReadLocaleFiles: the results are maps, so the key insertion order of the object `extend` returns (lib/utils.js:22) and of the locale table (lib/utils.js:279) is not modelled. It shows only when the object is enumerated or serialised. In the same way, the key `__proto__` is modelled as an ordinary key. In the source, `merged[key] = …` and `langs[lang] = …` with that key call the inherited prototype setter and create no own key, so the key-membership rows (`Options.MergedKeys`, `Locales.LocaleKeys`) do not hold for it. Such a key can come from `JSON.parse` or from a locale file named `<baseName>___proto__.json`. Likewise, an argument's map stands for every property `for…in` enumerates in `extend`, inherited enumerable ones included, and each is modelled as an ordinary key.
- Options.MergedKeys: its key-iff statement holds of the source for every key except `__proto__`, as the line above explains.
- Locales.LocaleKeys: the same exception applies, for a locale file named `<baseName>___proto__.json`.
- NodePath: only the POSIX behaviour of `path` is modelled, and its contracts state only the facts the utilities rely on.
- `lib/contentResolver.js`, which the test file exercises, is not part of this model. Resolution order and assembly concatenation are therefore not covered.
