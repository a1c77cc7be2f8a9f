/** `autoLoadModules`: list a directory, import every eligible file in
    listing order, and store each module under a name derived from its
    file name. The listing and the dynamic import are host operations and
    come in as parameters: `listing` is what `readdir` settled with, and
    `imp(file)` is what importing that file of the directory settled with. */
module Loader {
  import opened JsValue
  import opened PlainObject

  const Extension: string := ".js"
  const EntryPoint: string := "index.js"

  /** `s.endsWith(suffix)`. */
  predicate EndsWith(s: string, suffix: string) {
    |suffix| <= |s| && s[|s| - |suffix|..] == suffix
  }

  /** A listed file is imported iff it ends in ".js" and is not the
      loader's own entry point. */
  predicate Eligible(file: string)
    ensures file == EntryPoint ==> !Eligible(file)
  {
    file != EntryPoint && EndsWith(file, Extension)
  }

  predicate OccursAt(s: string, pat: string, i: nat) {
    i + |pat| <= |s| && s[i..i + |pat|] == pat
  }

  /** `s.indexOf(pat, from)`: the first position at or after `from` where
      `pat` occurs, or -1. */
  function IndexOf(s: string, pat: string, from: nat): (r: int)
    requires from <= |s|
    decreases |s| - from
    ensures r == -1 || (from <= r && OccursAt(s, pat, r))
    ensures forall j: nat :: from <= j && (r == -1 || j < r) ==> !OccursAt(s, pat, j)
  {
    if |s| < from + |pat| then -1
    else if OccursAt(s, pat, from) then from
    else
      assert s[from..from] == [];
      IndexOf(s, pat, from + 1)
  }

  /** `s.replace(pat, '')` with a string pattern: the first occurrence of
      `pat`, if any, is cut out. (An empty replacement has no `$` patterns
      to expand.) */
  function CutFirst(s: string, pat: string): (r: string)
    ensures IndexOf(s, pat, 0) < 0 ==> r == s
    ensures IndexOf(s, pat, 0) >= 0 ==> |r| == |s| - |pat| && exists i: nat ::
      && OccursAt(s, pat, i)
      && (forall j: nat :: j < i ==> !OccursAt(s, pat, j))
      && r == s[..i] + s[i + |pat|..]
  {
    var i := IndexOf(s, pat, 0);
    if i < 0 then s else s[..i] + s[i + |pat|..]
  }

  /** `file.replace('.js', '')`: the module name of a file. A name without
      ".js" is left as it is; otherwise exactly one ".js" is cut out. */
  function ModuleName(file: string): (name: string)
    ensures IndexOf(file, Extension, 0) < 0 ==> name == file
    ensures IndexOf(file, Extension, 0) >= 0 ==> |name| == |file| - |Extension|
  {
    CutFirst(file, Extension)
  }

  /** The module name of a ".js" file is the file name with its FIRST ".js"
      cut out, which is not necessarily the extension. */
  lemma ModuleNameCutsFirstExtension(file: string)
    requires EndsWith(file, Extension)
    ensures |ModuleName(file)| == |file| - |Extension|
    ensures exists i: nat ::
      && OccursAt(file, Extension, i)
      && (forall j: nat :: j < i ==> !OccursAt(file, Extension, j))
      && ModuleName(file) == file[..i] + file[i + |Extension|..]
  {
    assert OccursAt(file, Extension, |file| - |Extension|);
  }

  /** When ".js" occurs only as the extension, the module name is the file
      name with the extension stripped. */
  lemma ModuleNameStripsExtension(file: string)
    requires EndsWith(file, Extension)
    requires forall j: nat :: j < |file| - |Extension| ==> !OccursAt(file, Extension, j)
    ensures ModuleName(file) == file[..|file| - |Extension|]
  {
    assert OccursAt(file, Extension, |file| - |Extension|);
    var i := IndexOf(file, Extension, 0);
    assert !(i < |file| - |Extension|);
  }

  /** An earlier ".js" is cut out instead of the extension. */
  lemma ModuleNameCutsFirstOccurrence()
    ensures ModuleName("foo.jsx.js") == "foox.js"
  {
    var file := "foo.jsx.js";
    assert file[..3] == "foo" && file[1..4] == "oo." && file[2..5] == "o.j" && file[3..6] == ".js";
    assert OccursAt(file, Extension, 3);
    assert !OccursAt(file, Extension, 0);
    assert !OccursAt(file, Extension, 1);
    assert !OccursAt(file, Extension, 2);
    assert IndexOf(file, Extension, 0) == 3;
  }

  /** Two different eligible files can get the same module name, so one
      directory can hold two modules under one key. */
  lemma ModuleNameCollision()
    ensures Eligible("foo.jsx.js") && Eligible("foox.js.js")
    ensures ModuleName("foo.jsx.js") == ModuleName("foox.js.js") == "foox.js"
  {
    ModuleNameCutsFirstOccurrence();
    ModuleNameOfDoubleExtension();
    assert "foo.jsx.js"[7..] == Extension;
    assert "foox.js.js"[7..] == Extension;
  }

  lemma ModuleNameOfDoubleExtension()
    ensures ModuleName("foox.js.js") == "foox.js"
  {
    var file := "foox.js.js";
    assert file[0..3] == "foo" && file[1..4] == "oox" && file[2..5] == "ox." && file[3..6] == "x.j";
    assert !OccursAt(file, Extension, 0);
    assert !OccursAt(file, Extension, 1);
    assert !OccursAt(file, Extension, 2);
    assert !OccursAt(file, Extension, 3);
    assert file[4..7] == Extension;
    assert IndexOf(file, Extension, 0) == 4;
    assert file[..4] + "" + file[7..] == "foox.js";
  }

  /** `loadModule`: import the file, rethrow an import failure unchanged,
      and prefer a truthy default export over the module namespace
      (`module?.default || module`). */
  function LoadModule(file: string, imp: string -> Result<Value>): (r: Result<Value>)
    ensures imp(file).Err? ==> r == Err(imp(file).error)
    ensures imp(file).Ok? ==> r.Ok?
    ensures imp(file).Ok? && Truthy(Get(imp(file).value, "default")) ==>
      r.value == Get(imp(file).value, "default")
    ensures imp(file).Ok? && !Truthy(Get(imp(file).value, "default")) ==>
      r.value == imp(file).value
  {
    match imp(file)
    case Err(e) => Err(e)
    case Ok(ns) => Ok(Or(Get(ns, "default"), ns))
  }

  /** What `autoLoadModules` settles with after the files of `files` were
      visited in order; the first failed import rejects the whole call. */
  function LoadAll(files: seq<string>, imp: string -> Result<Value>): (r: Result<Dict>)
    ensures r.Ok? ==> r.value.Valid()
  {
    if files == [] then Ok(Empty)
    else
      match LoadAll(files[..|files| - 1], imp)
      case Err(e) => Err(e)
      case Ok(modules) =>
        var file := files[|files| - 1];
        if !Eligible(file) then Ok(modules)
        else
          match LoadModule(file, imp)
          case Err(e) => Err(e)
          case Ok(m) => Ok(modules.Put(ModuleName(file), m))
  }

  /** `autoLoadModules(directory)`. */
  method AutoLoadModules(listing: Result<seq<string>>, imp: string -> Result<Value>)
    returns (r: Result<Dict>)
    ensures listing.Err? ==> r == Err(listing.error)
    ensures listing.Ok? ==> r == LoadAll(listing.value, imp)
    ensures r.Ok? ==> r.value.Valid()
  {
    if listing.Err? {
      return Err(listing.error);
    }
    var files := listing.value;
    var modules := Empty;
    var i := 0;
    while i < |files|
      invariant i <= |files|
      invariant LoadAll(files[..i], imp) == Ok(modules)
    {
      var file := files[i];
      assert files[..i + 1][..i] == files[..i];
      if file == EntryPoint || !EndsWith(file, Extension) {
        i := i + 1;
        continue;
      }
      var moduleName := CutFirst(file, Extension);
      var loaded := LoadModule(file, imp);
      if loaded.Err? {
        LoadAllFailurePersists(files, i + 1, imp);
        return Err(loaded.error);
      }
      modules := modules.Put(moduleName, loaded.value);
      i := i + 1;
    }
    assert files[..i] == files;
    return Ok(modules);
  }

  // ---------------------------------------------------------------------
  // Reference definitions the loader is compared with

  /** The module names of the eligible files, in listing order, with
      repetitions. */
  function EligibleNames(files: seq<string>): seq<string> {
    if files == [] then []
    else
      var file := files[|files| - 1];
      EligibleNames(files[..|files| - 1]) + if Eligible(file) then [ModuleName(file)] else []
  }

  /** The position of the first occurrence of `k` in `ks`. */
  function FirstIndex(ks: seq<string>, k: string): (r: nat)
    requires k in ks
    ensures r < |ks| && ks[r] == k
    ensures forall j :: 0 <= j < r ==> ks[j] != k
  {
    if ks[0] == k then 0 else 1 + FirstIndex(ks[1..], k)
  }

  /** Each element of `ks` once, ordered by where it first occurs
      (`FirstOccurrencesOrdered`). */
  function FirstOccurrences(ks: seq<string>): (r: seq<string>)
    ensures forall k :: k in r <==> k in ks
    ensures forall i, j :: 0 <= i < j < |r| ==> r[i] != r[j]
  {
    if ks == [] then []
    else
      var rest := FirstOccurrences(ks[..|ks| - 1]);
      var k := ks[|ks| - 1];
      assert forall x :: x in ks <==> x in ks[..|ks| - 1] || x == k;
      if k in rest then rest else rest + [k]
  }

  /** Appending to a sequence does not move the first occurrence of an
      element already in it. */
  lemma FirstIndexPrefix(init: seq<string>, k: string, x: string)
    requires x in init
    ensures FirstIndex(init + [k], x) == FirstIndex(init, x)
  {
    var ks := init + [k];
    var a, b := FirstIndex(ks, x), FirstIndex(init, x);
    assert ks[b] == x;
    assert a <= b;
    assert init[a] == x;
  }

  /** `FirstOccurrences` lists the elements in the order of their first
      occurrences: of two listed elements, the earlier one first occurs
      earlier. */
  lemma {:induction false} FirstOccurrencesOrdered(ks: seq<string>, i: nat, j: nat)
    requires i < j < |FirstOccurrences(ks)|
    ensures FirstIndex(ks, FirstOccurrences(ks)[i]) < FirstIndex(ks, FirstOccurrences(ks)[j])
  {
    var init, k := ks[..|ks| - 1], ks[|ks| - 1];
    assert ks == init + [k];
    var rest := FirstOccurrences(init);
    assert rest[i] in init;
    FirstIndexPrefix(init, k, rest[i]);
    if j < |rest| {
      assert FirstOccurrences(ks)[i] == rest[i] && FirstOccurrences(ks)[j] == rest[j];
      assert rest[j] in init;
      FirstIndexPrefix(init, k, rest[j]);
      FirstOccurrencesOrdered(init, i, j);
    } else {
      assert FirstOccurrences(ks) == rest + [k];
      assert FirstIndex(ks, k) == |init| by {
        assert forall m :: 0 <= m < |init| ==> ks[m] == init[m] != k;
      }
    }
  }

  // ---------------------------------------------------------------------
  // Properties of the loader

  /** Once a prefix of the listing has failed, the whole call fails with
      that same error: no later file can undo it. */
  lemma {:induction false} LoadAllFailurePersists(files: seq<string>, n: nat, imp: string -> Result<Value>)
    requires n <= |files|
    requires LoadAll(files[..n], imp).Err?
    ensures LoadAll(files, imp) == LoadAll(files[..n], imp)
  {
    if n < |files| {
      var init := files[..|files| - 1];
      assert init[..n] == files[..n];
      LoadAllFailurePersists(init, n, imp);
    } else {
      assert files[..n] == files;
    }
  }

  /** The eligible file at position `i` is the first one whose import
      rejects, and it rejects with `e`. */
  ghost predicate FirstFailure(files: seq<string>, imp: string -> Result<Value>, i: int, e: Error) {
    && 0 <= i < |files|
    && Eligible(files[i])
    && imp(files[i]) == Err(e)
    && forall j :: 0 <= j < i && Eligible(files[j]) ==> imp(files[j]).Ok?
  }

  /** The call fulfils exactly when every eligible file imports. */
  lemma {:induction false} LoadAllSucceeds(files: seq<string>, imp: string -> Result<Value>)
    ensures LoadAll(files, imp).Ok? <==>
      forall j :: 0 <= j < |files| && Eligible(files[j]) ==> imp(files[j]).Ok?
  {
    if files != [] {
      var init := files[..|files| - 1];
      assert forall j :: 0 <= j < |init| ==> init[j] == files[j];
      LoadAllSucceeds(init, imp);
    }
  }

  /** The call rejects with `e` exactly when the first eligible file whose
      import rejects does so with `e`. */
  lemma {:induction false} LoadAllFails(files: seq<string>, imp: string -> Result<Value>, e: Error)
    ensures LoadAll(files, imp) == Err(e) <==> exists i :: FirstFailure(files, imp, i, e)
  {
    if files != [] {
      var init := files[..|files| - 1];
      var last := |files| - 1;
      assert forall j :: 0 <= j < |init| ==> init[j] == files[j];
      LoadAllSucceeds(init, imp);
      LoadAllFails(init, imp, e);
      if LoadAll(files, imp) == Err(e) {
        if LoadAll(init, imp).Err? {
          var i :| FirstFailure(init, imp, i, e);
          assert FirstFailure(files, imp, i, e);
        } else {
          assert FirstFailure(files, imp, last, e);
        }
      }
      if i :| FirstFailure(files, imp, i, e) {
        if i < last {
          assert FirstFailure(init, imp, i, e);
        } else {
          assert LoadAll(init, imp).Ok?;
        }
      }
    }
  }

  /** Files that are not eligible are never imported: what importing them
      would do has no effect on the result. */
  lemma {:induction false} LoadAllImportsOnlyEligible(files: seq<string>, imp: string -> Result<Value>, imp': string -> Result<Value>)
    requires forall i :: 0 <= i < |files| && Eligible(files[i]) ==> imp(files[i]) == imp'(files[i])
    ensures LoadAll(files, imp) == LoadAll(files, imp')
  {
    if files != [] {
      var init := files[..|files| - 1];
      assert forall i :: 0 <= i < |init| ==> init[i] == files[i];
      LoadAllImportsOnlyEligible(init, imp, imp');
    }
  }

  /** The module names of the eligible files of a listing. */
  ghost function NamesOf(files: seq<string>): set<string> {
    set i | 0 <= i < |files| && Eligible(files[i]) :: ModuleName(files[i])
  }

  /** The loaded names are exactly the names of the eligible files: no
      other file's name becomes a key. */
  lemma {:induction false} LoadAllNames(files: seq<string>, imp: string -> Result<Value>)
    requires LoadAll(files, imp).Ok?
    ensures LoadAll(files, imp).value.vals.Keys == NamesOf(files)
  {
    if files != [] {
      var n := |files| - 1;
      var init, last := files[..n], files[n];
      LoadAllNames(init, imp);
      var t := LoadAll(init, imp).value;
      var s', s := NamesOf(init), NamesOf(files);
      assert s' == set i | 0 <= i < n && Eligible(files[i]) :: ModuleName(files[i]) by {
        assert forall i :: 0 <= i < n ==> init[i] == files[i];
      }
      if Eligible(last) {
        assert LoadAll(files, imp).value.vals.Keys == t.vals.Keys + {ModuleName(last)};
        assert s == s' + {ModuleName(last)};
      } else {
        assert LoadAll(files, imp).value == t;
        assert s == s';
      }
    }
  }

  /** The keys are in the order in which their names first occur among the
      eligible files; a repeated name keeps its first place. */
  lemma {:induction false} LoadAllOrder(files: seq<string>, imp: string -> Result<Value>)
    requires LoadAll(files, imp).Ok?
    ensures LoadAll(files, imp).value.keys == FirstOccurrences(EligibleNames(files))
  {
    if files != [] {
      var init := files[..|files| - 1];
      LoadAllOrder(init, imp);
      var last := files[|files| - 1];
      if Eligible(last) {
        var ks := EligibleNames(files);
        assert ks[..|ks| - 1] == EligibleNames(init);
      } else {
        assert EligibleNames(files) == EligibleNames(init);
      }
    }
  }

  /** Each name holds the module of the LAST eligible file with that name:
      a later file overwrites an earlier one. */
  lemma {:induction false} LoadAllLastWins(files: seq<string>, imp: string -> Result<Value>, i: nat)
    requires LoadAll(files, imp).Ok?
    requires i < |files| && Eligible(files[i])
    requires forall j :: i < j < |files| && Eligible(files[j]) ==> ModuleName(files[j]) != ModuleName(files[i])
    ensures imp(files[i]).Ok? && ModuleName(files[i]) in LoadAll(files, imp).value.vals
    ensures LoadAll(files, imp).value.vals[ModuleName(files[i])] == LoadModule(files[i], imp).value
  {
    LoadAllSucceeds(files, imp);
    var init := files[..|files| - 1];
    if i < |files| - 1 {
      assert init[i] == files[i];
      assert forall j :: i < j < |init| ==> init[j] == files[j];
      LoadAllLastWins(init, imp, i);
    }
  }

  /** A listing without eligible files loads nothing. */
  lemma {:induction false} LoadAllNothingEligible(files: seq<string>, imp: string -> Result<Value>)
    requires forall i :: 0 <= i < |files| ==> !Eligible(files[i])
    ensures LoadAll(files, imp) == Ok(Empty)
  {
    if files != [] {
      var init := files[..|files| - 1];
      assert forall i :: 0 <= i < |init| ==> init[i] == files[i];
      LoadAllNothingEligible(init, imp);
    }
  }
}
