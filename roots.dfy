/**
 * The asset-root list: `detectFoldersWithManifest` (redirects read from
 * asset-manifest.json files) and `expandPaths` (glob expansion, concatenation
 * in specifier order, existence filter) from lib/utils.js. Globbing, file
 * reads, `JSON.parse` and `fs.existsSync` are inputs.
 */
module Roots {
  import opened Basics
  import opened Strings
  import NodePath

  /** The value of `manifest.assetPath` in a parsed asset-manifest.json. */
  datatype AssetPathValue = Absent | Text(s: string) | NonString(truthy: bool)

  /** What parsing one manifest file gave: `JSON.parse` threw, or an object. */
  datatype ManifestRead = Malformed | Parsed(assetPath: AssetPathValue)

  /** A manifest found by the scan: its path and the outcome of parsing its contents. */
  datatype Manifest = Manifest(file: string, read: ManifestRead)

  /**
   * The manifest yields no redirect: its path mentions "asset-manager" (the
   * tool's own manifest), it does not parse, or its `assetPath` is not a
   * non-empty string (falsy, or a value `path.join` rejects by throwing).
   */
  predicate Skipped(m: Manifest)
  {
    || Contains(m.file, "asset-manager")
    || !m.read.Parsed?
    || !m.read.assetPath.Text?
    || m.read.assetPath.s == ""
  }

  /** The callback that maps one manifest to its redirect folder, '' standing for none. */
  function ManifestRedirect(m: Manifest): (r: string)
    ensures r == "" <==> Skipped(m)
    ensures !Skipped(m) ==> r == NodePath.PathJoin(NodePath.Dirname(m.file), m.read.assetPath.s)
  {
    if IndexOf(m.file, "asset-manager") != -1 then ""
    else
      match m.read
      case Malformed => ""
      case Parsed(Absent) => ""
      case Parsed(NonString(_)) => ""
      case Parsed(Text(s)) => if s != "" then NodePath.PathJoin(NodePath.Dirname(m.file), s) else ""
  }

  /**
   * `detectFoldersWithManifest(scanDir, cb)`: one entry per manifest the scan
   * found, in discovery order. `scanDir` is '' when absent (any falsy value);
   * `found` is None when the glob reported no file list.
   */
  function DetectFoldersWithManifest(scanDir: string, found: Option<seq<Manifest>>): (r: seq<string>)
    ensures scanDir == "" || found.None? ==> r == []
    ensures scanDir != "" && found.Some? ==>
      |r| == |found.value| &&
      forall i :: 0 <= i < |r| ==> r[i] == ManifestRedirect(found.value[i]) && (r[i] == "" <==> Skipped(found.value[i]))
  {
    if scanDir == "" then []
    else
      match found
      case None => []
      case Some(files) =>
        if |files| == 0 then []
        else seq(|files|, i requires 0 <= i < |files| => ManifestRedirect(files[i]))
  }

  /** The glob callback's filter and map: directory matches (marked by a trailing '/') with the slash removed. */
  function DirectoryMatches(files: seq<string>): (r: seq<string>)
    ensures |r| <= |files|
    ensures forall x :: x in r <==> x + "/" in files
    decreases |files|
  {
    if files == [] then []
    else
      var f := files[0];
      var rest := DirectoryMatches(files[1..]);
      assert forall x :: x + "/" in files <==> x + "/" == f || x + "/" in files[1..];
      if |f| > 0 && f[|f| - 1] == '/' then
        assert f[..|f| - 1] + "/" == f;
        assert forall x :: x + "/" == f ==> x == f[..|f| - 1];
        [f[..|f| - 1]] + rest
      else
        rest
  }

  /** The filter keeps the glob's order: it distributes over concatenation. */
  lemma {:induction false} DirectoryMatchesAppend(a: seq<string>, b: seq<string>)
    ensures DirectoryMatches(a + b) == DirectoryMatches(a) + DirectoryMatches(b)
    decreases |a|
  {
    if a == [] {
      assert a + b == b;
    } else {
      assert (a + b)[0] == a[0];
      assert (a + b)[1..] == a[1..] + b;
      DirectoryMatchesAppend(a[1..], b);
    }
  }

  /** `expandPath(aPath)`: a specifier without '*' stands for itself; one with '*' for the folders it matches. */
  function ExpandPath(aPath: string, glob: string -> seq<string>): (r: seq<string>)
    ensures !Contains(aPath, "*") ==> r == [aPath]
    ensures Contains(aPath, "*") ==> forall x :: x in r <==> x + "/" in glob(aPath)
  {
    if IndexOf(aPath, "*") == -1 then [aPath] else DirectoryMatches(glob(aPath))
  }

  /** `async.map(paths, expandPath)`: one result per specifier, in specifier order. */
  function ExpandAll(paths: seq<string>, glob: string -> seq<string>): (r: seq<seq<string>>)
  {
    seq(|paths|, i requires 0 <= i < |paths| => ExpandPath(paths[i], glob))
  }

  /** The results concatenated in order. */
  function Flatten(results: seq<seq<string>>): seq<string>
    decreases |results|
  {
    if results == [] then [] else Flatten(results[..|results| - 1]) + results[|results| - 1]
  }

  /** `paths.filter(p => p.length > 0 && fs.existsSync(p))`. */
  function Existing(paths: seq<string>, pathExists: string -> bool): (r: seq<string>)
    ensures forall x :: x in r <==> x in paths && x != "" && pathExists(x)
    decreases |paths|
  {
    if paths == [] then []
    else (if paths[0] != "" && pathExists(paths[0]) then [paths[0]] else []) + Existing(paths[1..], pathExists)
  }

  /** The root list `expandPaths` hands to its callback. */
  function RootList(origPaths: seq<string>, scanDir: string, found: Option<seq<Manifest>>,
                    glob: string -> seq<string>, pathExists: string -> bool): seq<string>
  {
    Existing(Flatten(ExpandAll(origPaths + DetectFoldersWithManifest(scanDir, found), glob)), pathExists)
  }

  /**
   * `expandPaths(origPaths, scanDir, cb)`: the configured specifiers followed by
   * the manifest redirects, each expanded, concatenated in that order, and
   * filtered down to non-empty existing paths.
   */
  method ExpandPaths(origPaths: seq<string>, scanDir: string, found: Option<seq<Manifest>>,
                     glob: string -> seq<string>, pathExists: string -> bool) returns (paths: seq<string>)
    ensures paths == RootList(origPaths, scanDir, found, glob, pathExists)
  {
    var manifestPaths := DetectFoldersWithManifest(scanDir, found);
    var all := origPaths + manifestPaths;
    var results := ExpandAll(all, glob);
    paths := [];
    for i := 0 to |results|
      invariant paths == Flatten(results[..i])
    {
      FlattenPrefixStep(results, i);
      paths := paths + results[i];
    }
    assert results[..|results|] == results;
    paths := Existing(paths, pathExists);
  }

  /** One more result appended to the flattened prefix. */
  lemma {:induction false} FlattenPrefixStep(results: seq<seq<string>>, i: nat)
    requires i < |results|
    ensures Flatten(results[..i + 1]) == Flatten(results[..i]) + results[i]
  {
    assert results[..i + 1][..i] == results[..i];
  }

  lemma {:induction false} FlattenAppend(a: seq<seq<string>>, b: seq<seq<string>>)
    ensures Flatten(a + b) == Flatten(a) + Flatten(b)
    decreases |b|
  {
    if b == [] {
      assert a + b == a;
    } else {
      var b' := b[..|b| - 1];
      assert (a + b)[..|a + b| - 1] == a + b';
      FlattenAppend(a, b');
    }
  }

  lemma {:induction false} FlattenMembers(results: seq<seq<string>>, x: string)
    ensures x in Flatten(results) <==> exists i :: 0 <= i < |results| && x in results[i]
    decreases |results|
  {
    if results != [] {
      var init := results[..|results| - 1];
      FlattenMembers(init, x);
      if exists i :: 0 <= i < |results| && x in results[i] {
        var i :| 0 <= i < |results| && x in results[i];
        if i < |init| {
          assert init[i] == results[i];
        }
      }
      if exists i :: 0 <= i < |init| && x in init[i] {
        var i :| 0 <= i < |init| && x in init[i];
        assert results[i] == init[i];
      }
    }
  }

  lemma {:induction false} ExistingAppend(a: seq<string>, b: seq<string>, pathExists: string -> bool)
    ensures Existing(a + b, pathExists) == Existing(a, pathExists) + Existing(b, pathExists)
    decreases |a|
  {
    if a == [] {
      assert a + b == b;
    } else {
      assert (a + b)[0] == a[0];
      assert (a + b)[1..] == a[1..] + b;
      ExistingAppend(a[1..], b, pathExists);
    }
  }

  lemma {:induction false} ExpandAllAppend(a: seq<string>, b: seq<string>, glob: string -> seq<string>)
    ensures ExpandAll(a + b, glob) == ExpandAll(a, glob) + ExpandAll(b, glob)
  {
    var l, r := ExpandAll(a + b, glob), ExpandAll(a, glob) + ExpandAll(b, glob);
    assert |l| == |r|;
    forall i | 0 <= i < |l|
      ensures l[i] == r[i]
    {
      if i < |a| {
        assert (a + b)[i] == a[i];
      } else {
        assert (a + b)[i] == b[i - |a|];
      }
    }
  }

  /** The configured roots come first, then the manifest redirects: redirects have the lower priority. */
  lemma {:induction false} RootListOrder(origPaths: seq<string>, scanDir: string, found: Option<seq<Manifest>>,
                      glob: string -> seq<string>, pathExists: string -> bool)
    ensures RootList(origPaths, scanDir, found, glob, pathExists)
      == Existing(Flatten(ExpandAll(origPaths, glob)), pathExists)
       + Existing(Flatten(ExpandAll(DetectFoldersWithManifest(scanDir, found), glob)), pathExists)
  {
    var manifestPaths := DetectFoldersWithManifest(scanDir, found);
    ExpandAllAppend(origPaths, manifestPaths, glob);
    FlattenAppend(ExpandAll(origPaths, glob), ExpandAll(manifestPaths, glob));
    ExistingAppend(Flatten(ExpandAll(origPaths, glob)), Flatten(ExpandAll(manifestPaths, glob)), pathExists);
  }

  /** A root is listed iff it is non-empty, exists, and is an expansion of a configured specifier or of a redirect. */
  lemma {:induction false} RootListMembers(origPaths: seq<string>, scanDir: string, found: Option<seq<Manifest>>,
                        glob: string -> seq<string>, pathExists: string -> bool, x: string)
    ensures x in RootList(origPaths, scanDir, found, glob, pathExists) <==>
      var all := origPaths + DetectFoldersWithManifest(scanDir, found);
      x != "" && pathExists(x) && exists i :: 0 <= i < |all| && x in ExpandPath(all[i], glob)
  {
    var all := origPaths + DetectFoldersWithManifest(scanDir, found);
    var results := ExpandAll(all, glob);
    FlattenMembers(results, x);
    if exists i :: 0 <= i < |all| && x in ExpandPath(all[i], glob) {
      var i :| 0 <= i < |all| && x in ExpandPath(all[i], glob);
      assert x in results[i];
    }
  }
}
