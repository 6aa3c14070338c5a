/**
 * Option merging (`extend`) and stylesheet route normalisation
 * (`extractMediaMeta`) from lib/utils.js.
 */
module Options {
  import opened Basics

  /**
   * One argument of `extend`: an object, or a falsy value (null, undefined, ...)
   * which `arguments[i] || {}` turns into the empty object.
   */
  type Arg<V> = Option<map<string, V>>

  /** The properties an argument contributes. */
  function Own<V>(arg: Arg<V>): map<string, V>
  {
    match arg
    case None => map[]
    case Some(obj) => obj
  }

  /** The object `extend(args...)` builds: the arguments merged from left to right. */
  function Merged<V>(args: seq<Arg<V>>): map<string, V>
    decreases |args|
  {
    if args == [] then map[] else Merged(args[..|args| - 1]) + Own(args[|args| - 1])
  }

  /**
   * `extend(...)`: copies every property of every argument, in argument order,
   * into a fresh object, so that later arguments overwrite earlier ones.
   */
  method Extend<V>(args: seq<Arg<V>>) returns (merged: map<string, V>)
    ensures merged == Merged(args)
  {
    merged := map[];
    for i := 0 to |args|
      invariant merged == Merged(args[..i])
    {
      var obj := Own(args[i]);
      ghost var before := merged;
      var keys := obj.Keys;
      while keys != {}
        invariant keys <= obj.Keys
        invariant merged == before + map k | k in obj.Keys - keys :: obj[k]
        decreases keys
      {
        var key :| key in keys;
        merged := merged[key := obj[key]];
        keys := keys - {key};
      }
      assert obj == map k | k in obj.Keys - keys :: obj[k];
      assert args[..i + 1][..i] == args[..i];
    }
    assert args[..|args|] == args;
  }

  /** Merging a concatenation merges the merges: the fold really runs left to right. */
  lemma {:induction false} MergedAppend<V>(a: seq<Arg<V>>, b: seq<Arg<V>>)
    ensures Merged(a + b) == Merged(a) + Merged(b)
    decreases |b|
  {
    if b == [] {
      assert a + b == a;
    } else {
      var b', last := b[..|b| - 1], Own(b[|b| - 1]);
      calc {
        Merged(a + b);
        { assert (a + b)[..|a + b| - 1] == a + b'; }
        Merged(a + b') + last;
        { MergedAppend(a, b'); }
        Merged(a) + Merged(b') + last;
        { UnionAssociative(Merged(a), Merged(b'), last); }
        Merged(a) + (Merged(b') + last);
        Merged(a) + Merged(b);
      }
    }
  }

  lemma {:induction false} UnionAssociative<V>(x: map<string, V>, y: map<string, V>, z: map<string, V>)
    ensures x + y + z == x + (y + z)
  {
  }

  /** A falsy argument, wherever it stands, changes nothing. */
  lemma {:induction false} NullArgumentIgnored<V>(a: seq<Arg<V>>, b: seq<Arg<V>>)
    ensures Merged(a + [None] + b) == Merged(a + b)
  {
    MergedAppend(a + [None], b);
    MergedAppend(a, [None]);
    MergedAppend(a, b);
    var none: seq<Arg<V>> := [None];
    assert none[..0] == [];
  }

  /** The result has key `k` iff some argument has it. */
  lemma {:induction false} MergedKeys<V>(args: seq<Arg<V>>, k: string)
    ensures k in Merged(args) <==> exists i :: 0 <= i < |args| && k in Own(args[i])
    decreases |args|
  {
    if args != [] {
      var init := args[..|args| - 1];
      MergedKeys(init, k);
      if k in Merged(init) {
        var i :| 0 <= i < |init| && k in Own(init[i]);
        assert args[i] == init[i];
      }
      if exists i :: 0 <= i < |args| && k in Own(args[i]) {
        var i :| 0 <= i < |args| && k in Own(args[i]);
        if i < |init| {
          assert init[i] == args[i];
        }
      }
    }
  }

  /** The value of `k` comes from the rightmost argument that has `k`. */
  lemma {:induction false} MergedValue<V>(args: seq<Arg<V>>, i: int, k: string)
    requires 0 <= i < |args| && k in Own(args[i])
    requires forall j :: i < j < |args| ==> k !in Own(args[j])
    ensures k in Merged(args) && Merged(args)[k] == Own(args[i])[k]
    decreases |args|
  {
    if i < |args| - 1 {
      var init := args[..|args| - 1];
      assert init[i] == args[i];
      MergedValue(init, i, k);
    }
  }

  /** A stylesheet route: a path string, or an object `{mediaType: path, ...}` (its properties in order). */
  datatype Route = Path(path: string) | Media(entries: seq<(string, string)>)

  /** What `extractMediaMeta` returns: `{mediaType, path}`; `path` is the route itself when nothing replaced it. */
  datatype MediaMeta = MediaMeta(mediaType: string, path: Route)

  /**
   * `extractMediaMeta(route)`: a string route is a screen stylesheet; for an
   * object route the loop over its properties leaves the last one in place.
   */
  method ExtractMediaMeta(route: Route) returns (meta: MediaMeta)
    ensures route.Path? ==> meta == MediaMeta("screen", route)
    ensures route.Media? && route.entries == [] ==> meta == MediaMeta("screen", route)
    ensures route.Media? && route.entries != [] ==>
      var last := route.entries[|route.entries| - 1];
      meta == MediaMeta(last.0, Path(last.1))
  {
    meta := MediaMeta("screen", route);
    if route.Media? {
      var entries := route.entries;
      for i := 0 to |entries|
        invariant i == 0 ==> meta == MediaMeta("screen", route)
        invariant i > 0 ==> meta == MediaMeta(entries[i - 1].0, Path(entries[i - 1].1))
      {
        var (key, value) := entries[i];
        meta := meta.(mediaType := key);
        meta := meta.(path := Path(value));
      }
    }
  }
}
