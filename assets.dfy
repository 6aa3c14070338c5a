/**
 * Assembly-file filtering (`filterAssembliesFiles`) and module stylesheet
 * discovery (`findModuleCSSFiles`) from lib/utils.js.
 */
module Assets {
  import opened Strings
  import NodePath

  /** An assembly folder with a '/' appended unless it already ends in one ('' becomes "/"). */
  function AsFolder(folder: string): (f: string)
    ensures |folder| > 0 && folder[|folder| - 1] == '/' ==> f == folder
    ensures !(|folder| > 0 && folder[|folder| - 1] == '/') ==> f == folder + "/"
    ensures |f| > 0 && f[|f| - 1] == '/'
  {
    if |folder| > 0 && folder[|folder| - 1] == '/' then folder else folder + "/"
  }

  /** `file.indexOf(folder) === 0` for the normalised folder. */
  predicate UnderFolder(file: string, folder: string)
  {
    IndexOf(file, AsFolder(folder)) == 0
  }

  /** The `indexOf(...) === 0` test is exactly a prefix test. */
  lemma {:induction false} UnderFolderIsPrefix(file: string, folder: string)
    ensures UnderFolder(file, folder) <==> AsFolder(folder) <= file
  {
    var f := AsFolder(folder);
    if f <= file {
      assert OccursAt(file, f, 0);
    }
  }

  /** The filter callback's verdict: some assembly folder holds the file (its loop stops at the first). */
  predicate InAnyAssembly(file: string, folders: seq<string>)
  {
    exists i | 0 <= i < |folders| :: UnderFolder(file, folders[i])
  }

  /** `allFiles.filter(removeAssemblyFiles)`: the files outside every assembly folder, in order. */
  function OutsideAssemblies(files: seq<string>, folders: seq<string>): (r: seq<string>)
    ensures |r| <= |files|
    ensures forall f :: f in r <==> f in files && !InAnyAssembly(f, folders)
    decreases |files|
  {
    if files == [] then []
    else
      (if InAnyAssembly(files[0], folders) then [] else [files[0]])
      + OutsideAssemblies(files[1..], folders)
  }

  /** `assemblyFolders.map(f => f + ".js")`: one bundle per assembly folder. */
  function BundleNames(folders: seq<string>): (r: seq<string>)
    ensures |r| == |folders|
    ensures forall i :: 0 <= i < |folders| ==> r[i] == folders[i] + ".js"
  {
    seq(|folders|, i requires 0 <= i < |folders| => folders[i] + ".js")
  }

  /**
   * `filterAssembliesFiles(allFiles, assemblyFolders)`: the files that lie under
   * no assembly folder, in order, followed by one `.js` bundle per assembly folder.
   */
  function FilterAssembliesFiles(allFiles: seq<string>, assemblyFolders: seq<string>): (r: seq<string>)
    ensures |assemblyFolders| <= |r| <= |allFiles| + |assemblyFolders|
    ensures forall i :: 0 <= i < |assemblyFolders| ==>
      r[|r| - |assemblyFolders| + i] == assemblyFolders[i] + ".js"
    ensures r[..|r| - |assemblyFolders|] == OutsideAssemblies(allFiles, assemblyFolders)
    ensures forall f :: f in r[..|r| - |assemblyFolders|] <==>
      f in allFiles && !(exists j :: 0 <= j < |assemblyFolders| && AsFolder(assemblyFolders[j]) <= f)
  {
    var kept, bundles := OutsideAssemblies(allFiles, assemblyFolders), BundleNames(assemblyFolders);
    assert (kept + bundles)[..|kept|] == kept;
    assert forall i :: 0 <= i < |bundles| ==> (kept + bundles)[|kept| + i] == bundles[i];
    KeptByPrefix(allFiles, assemblyFolders);
    kept + bundles
  }

  /** The kept files, stated with the prefix test. */
  lemma {:induction false} KeptByPrefix(files: seq<string>, folders: seq<string>)
    ensures forall f :: f in OutsideAssemblies(files, folders) <==>
      f in files && !(exists j :: 0 <= j < |folders| && AsFolder(folders[j]) <= f)
  {
    forall f
      ensures InAnyAssembly(f, folders) <==> exists j :: 0 <= j < |folders| && AsFolder(folders[j]) <= f
    {
      forall j | 0 <= j < |folders| {
        UnderFolderIsPrefix(f, folders[j]);
      }
    }
  }

  /** The filter keeps the files' order: it acts on each part of a concatenation separately. */
  lemma {:induction false} OutsideAssembliesAppend(a: seq<string>, b: seq<string>, folders: seq<string>)
    ensures OutsideAssemblies(a + b, folders) == OutsideAssemblies(a, folders) + OutsideAssemblies(b, folders)
    decreases |a|
  {
    if a == [] {
      assert a + b == b;
    } else {
      assert (a + b)[0] == a[0];
      assert (a + b)[1..] == a[1..] + b;
      OutsideAssembliesAppend(a[1..], b, folders);
    }
  }

  /** The stylesheet whose presence marks a module folder: `path.join(folder, basename(folder) + ".css")`. */
  function ModuleStylesheet(folder: string): string
  {
    NodePath.PathJoin(folder, NodePath.Basename(folder) + ".css")
  }

  /** The name recorded for a module folder: `(folder + ".css").replace(/js/, 'css')`. */
  function CssOutputName(folder: string): string
  {
    ReplaceFirst(folder + ".css", "js", "css")
  }

  /** The names `name(f)` of the folders `f` that pass `keep`, in order. */
  function Collect(folders: seq<string>, keep: string -> bool, name: string -> string): seq<string>
    decreases |folders|
  {
    if folders == [] then []
    else
      var last := folders[|folders| - 1];
      Collect(folders[..|folders| - 1], keep, name) + (if keep(last) then [name(last)] else [])
  }

  /** The list `findModuleCSSFiles` returns, given which paths exist. */
  function ModuleCssFiles(folders: seq<string>, fileExists: string -> bool): seq<string>
  {
    Collect(folders, f => fileExists(ModuleStylesheet(f)), CssOutputName)
  }

  /**
   * `findModuleCSSFiles(moduleFolders)`: for each module folder holding its own
   * stylesheet, in order, the rewritten stylesheet name. `fileExists` stands for
   * `fs.existsSync`.
   */
  method FindModuleCSSFiles(moduleFolders: seq<string>, fileExists: string -> bool) returns (cssFiles: seq<string>)
    ensures cssFiles == ModuleCssFiles(moduleFolders, fileExists)
  {
    cssFiles := [];
    for i := 0 to |moduleFolders|
      invariant cssFiles == ModuleCssFiles(moduleFolders[..i], fileExists)
    {
      assert moduleFolders[..i + 1][..i] == moduleFolders[..i];
      assert ModuleCssFiles(moduleFolders[..i + 1], fileExists) == ModuleCssFiles(moduleFolders[..i], fileExists)
        + (if fileExists(ModuleStylesheet(moduleFolders[i])) then [CssOutputName(moduleFolders[i])] else []);
      var name := NodePath.Basename(moduleFolders[i]);
      var fileName := NodePath.PathJoin(moduleFolders[i], name + ".css");
      if fileExists(fileName) {
        fileName := moduleFolders[i] + ".css";
        cssFiles := cssFiles + [ReplaceFirst(fileName, "js", "css")];
      }
    }
    assert moduleFolders[..|moduleFolders|] == moduleFolders;
  }

  /** Some folder passes `keep` and has the name `x`. */
  ghost predicate NamedBy(folders: seq<string>, keep: string -> bool, name: string -> string, x: string)
  {
    exists i :: 0 <= i < |folders| && keep(folders[i]) && x == name(folders[i])
  }

  /** At most one name per folder. */
  lemma {:induction false} CollectLength(folders: seq<string>, keep: string -> bool, name: string -> string)
    ensures |Collect(folders, keep, name)| <= |folders|
    decreases |folders|
  {
    if folders != [] {
      CollectLength(folders[..|folders| - 1], keep, name);
    }
  }

  /** A name is listed iff some folder passes `keep` and has that name. */
  lemma {:induction false} CollectMembers(folders: seq<string>, keep: string -> bool, name: string -> string, x: string)
    ensures x in Collect(folders, keep, name) <==> NamedBy(folders, keep, name, x)
    decreases |folders|
  {
    if folders != [] {
      var n := |folders| - 1;
      var init := folders[..n];
      CollectMembers(init, keep, name, x);
      if NamedBy(init, keep, name, x) {
        var i :| 0 <= i < |init| && keep(init[i]) && x == name(init[i]);
        assert folders[i] == init[i];
      }
      if NamedBy(folders, keep, name, x) {
        var i :| 0 <= i < |folders| && keep(folders[i]) && x == name(folders[i]);
        if i < n {
          assert init[i] == folders[i];
        }
      }
    }
  }

  /** `findModuleCSSFiles` lists at most one name per module folder, and `x` exactly when some folder has its stylesheet and is recorded as `x`. */
  lemma {:induction false} ModuleCssFilesMembers(folders: seq<string>, fileExists: string -> bool, x: string)
    ensures |ModuleCssFiles(folders, fileExists)| <= |folders|
    ensures x in ModuleCssFiles(folders, fileExists) <==>
      exists i :: 0 <= i < |folders| && fileExists(ModuleStylesheet(folders[i])) && x == CssOutputName(folders[i])
  {
    var keep := f => fileExists(ModuleStylesheet(f));
    CollectLength(folders, keep, CssOutputName);
    CollectMembers(folders, keep, CssOutputName, x);
  }

  /** An occurrence in `a` keeps its place as the first occurrence in `a + b`. */
  lemma {:induction false} IndexOfExtend(a: string, b: string, t: string)
    requires IndexOf(a, t) != -1
    ensures IndexOf(a + b, t) == IndexOf(a, t)
  {
    var i := IndexOf(a, t);
    assert (a + b)[i..i + |t|] == a[i..i + |t|];
    assert OccursAt(a + b, t, i);
    forall j | 0 <= j < i
      ensures !OccursAt(a + b, t, j)
    {
      assert !OccursAt(a, t, j);
      assert (a + b)[j..j + |t|] == a[j..j + |t|];
    }
  }

  /** The `/js/` rewrite only ever touches the folder part: the appended ".css" is left alone. */
  lemma {:induction false} CssOutputNameRewritesFolder(folder: string)
    ensures CssOutputName(folder) == ReplaceFirst(folder, "js", "css") + ".css"
  {
    var s := folder + ".css";
    if IndexOf(folder, "js") != -1 {
      IndexOfExtend(folder, ".css", "js");
      var i := IndexOf(folder, "js");
      assert s[..i] == folder[..i];
      assert s[i + 2..] == folder[i + 2..] + ".css";
    } else {
      forall j ensures !OccursAt(s, "js", j) {
        if 0 <= j && j + 2 <= |folder| {
          assert !OccursAt(folder, "js", j);
          assert s[j..j + 2] == folder[j..j + 2];
        } else if 0 <= j && j + 2 <= |s| {
          if j == |folder| - 1 {
            assert s[j..j + 2][1] == '.';
          } else {
            assert s[j..j + 2][0] == ".css"[j - |folder|];
          }
        }
      }
    }
  }
}
