/** `requireDirectory`: load the directory's modules, walk them in key
    order appending what each contributes to one route list, and store that
    list under the key `routes` of the module object. */
module Aggregator {
  import opened JsValue
  import opened PlainObject
  import opened Loader
  import opened Routes

  /** The route list after the entries of `es` were visited in order; the
      first entry whose contribution throws rejects the whole call. Only
      spreading a `routes` property can throw, and it throws a TypeError. */
  function Collect(es: seq<(string, Value)>): (r: Result<seq<Value>>)
    ensures r.Err? ==> r.error.TypeError?
  {
    if es == [] then Ok([])
    else
      match Collect(es[..|es| - 1])
      case Err(e) => Err(e)
      case Ok(routes) =>
        match Contribution(es[|es| - 1].1)
        case Err(e) => Err(e)
        case Ok(batch) => Ok(routes + batch)
  }

  /** The loop of `requireDirectory` over `Object.entries(dirModules)`. */
  method CollectRoutes(dirModules: Dict) returns (r: Result<seq<Value>>)
    requires dirModules.Valid()
    ensures r == Collect(dirModules.Entries())
  {
    var entries := dirModules.Entries();
    var routes: seq<Value> := [];
    var i := 0;
    while i < |entries|
      invariant i <= |entries|
      invariant Collect(entries[..i]) == Ok(routes)
    {
      var (file, routeModule) := entries[i];
      assert entries[..i + 1][..i] == entries[..i];
      if Truthy(Get(routeModule, "routes")) {
        var spread := Spread(Get(routeModule, "routes"));
        if spread.Err? {
          CollectFailurePersists(entries, i + 1);
          return Err(spread.error);
        }
        routes := routes + spread.value;
      } else if routeModule.Arr? && |routeModule.elems| > 0 && IsRoute(routeModule.elems[0]) {
        routes := routes + routeModule.elems;
      } else if IsRoute(routeModule) {
        routes := routes + [routeModule];
      } else {
        assert Contribution(routeModule) == Ok([]);
        assert routes + [] == routes;
      }
      i := i + 1;
    }
    assert entries[..i] == entries;
    return Ok(routes);
  }

  /** What `requireDirectory` settles with, given what `readdir` settled
      with and what importing each file would settle with. */
  function Aggregate(listing: Result<seq<string>>, imp: string -> Result<Value>): (r: Result<Dict>)
    ensures r.Ok? ==> r.value.Valid()
    ensures listing.Err? ==> r == Err(listing.error)
    ensures listing.Ok? ==>
      (r.Ok? <==> LoadAll(listing.value, imp).Ok? && Collect(LoadAll(listing.value, imp).value.Entries()).Ok?)
    ensures listing.Ok? && LoadAll(listing.value, imp).Err? ==> r == Err(LoadAll(listing.value, imp).error)
    ensures listing.Ok? && LoadAll(listing.value, imp).Ok? && Collect(LoadAll(listing.value, imp).value.Entries()).Err? ==>
      r == Err(Collect(LoadAll(listing.value, imp).value.Entries()).error)
  {
    match listing
    case Err(e) => Err(e)
    case Ok(files) =>
      match LoadAll(files, imp)
      case Err(e) => Err(e)
      case Ok(dirModules) =>
        match Collect(dirModules.Entries())
        case Err(e) => Err(e)
        case Ok(routes) => Ok(dirModules.Put("routes", Arr(routes)))
  }

  /** `requireDirectory(directory)`. */
  method RequireDirectory(listing: Result<seq<string>>, imp: string -> Result<Value>)
    returns (r: Result<Dict>)
    ensures r == Aggregate(listing, imp)
  {
    var loaded := AutoLoadModules(listing, imp);
    if loaded.Err? {
      return Err(loaded.error);
    }
    var dirModules := loaded.value;
    var routes := CollectRoutes(dirModules);
    if routes.Err? {
      return Err(routes.error);
    }
    dirModules := dirModules.Put("routes", Arr(routes.value));
    return Ok(dirModules);
  }

  // ---------------------------------------------------------------------
  // Properties of the aggregation

  /** Sequencing of two settled route lists: the first rejection wins,
      otherwise the lists are concatenated. */
  function Then(x: Result<seq<Value>>, y: Result<seq<Value>>): Result<seq<Value>> {
    match x
    case Err(e) => Err(e)
    case Ok(xs) =>
      match y
      case Err(e) => Err(e)
      case Ok(ys) => Ok(xs + ys)
  }

  /** Once a prefix of the entries has thrown, the whole call rejects with
      that error. */
  lemma {:induction false} CollectFailurePersists(es: seq<(string, Value)>, n: nat)
    requires n <= |es|
    requires Collect(es[..n]).Err?
    ensures Collect(es) == Collect(es[..n])
  {
    if n < |es| {
      var init := es[..|es| - 1];
      assert init[..n] == es[..n];
      CollectFailurePersists(init, n);
    } else {
      assert es[..n] == es;
    }
  }

  /** The route list of a concatenation of entries is the concatenation of
      their route lists: entry order is preserved and nothing is dropped,
      added or checked again. */
  lemma {:induction false} CollectConcat(a: seq<(string, Value)>, b: seq<(string, Value)>)
    ensures Collect(a + b) == Then(Collect(a), Collect(b))
  {
    if b == [] {
      assert a + b == a;
      match Collect(a)
      case Err(_) =>
      case Ok(xs) => assert xs + [] == xs;
    } else {
      var b', last := b[..|b| - 1], b[|b| - 1];
      assert a + b == (a + b') + [last];
      CollectConcat(a, b');
      CollectSnoc(a + b', last);
      CollectSnoc(b', last);
      ThenAssociative(Collect(a), Collect(b'), Contribution(last.1));
    }
  }

  /** One more entry appends its contribution. */
  lemma CollectSnoc(es: seq<(string, Value)>, e: (string, Value))
    ensures Collect(es + [e]) == Then(Collect(es), Contribution(e.1))
  {
    assert (es + [e])[..|es|] == es;
  }

  /** Sequencing of settled route lists is associative. */
  lemma ThenAssociative(x: Result<seq<Value>>, y: Result<seq<Value>>, z: Result<seq<Value>>)
    ensures Then(Then(x, y), z) == Then(x, Then(y, z))
  {
    if x.Ok? && y.Ok? && z.Ok? {
      assert x.value + y.value + z.value == x.value + (y.value + z.value);
    }
  }

  /** One entry contributes exactly what its shape says. */
  lemma CollectSingle(name: string, v: Value)
    ensures Collect([(name, v)]) == Contribution(v)
  {
    assert [(name, v)][..0] == [];
    match Contribution(v)
    case Err(_) =>
    case Ok(batch) => assert [] + batch == batch;
  }

  /** The call rejects exactly when some entry's contribution throws. */
  lemma {:induction false} CollectSucceeds(es: seq<(string, Value)>)
    ensures Collect(es).Ok? <==> forall i :: 0 <= i < |es| ==> Contribution(es[i].1).Ok?
  {
    if es != [] {
      var init := es[..|es| - 1];
      assert forall i :: 0 <= i < |init| ==> init[i] == es[i];
      CollectSucceeds(init);
    }
  }

  /** Modules that match none of the rules add nothing. */
  lemma {:induction false} CollectNonRoutes(es: seq<(string, Value)>)
    requires forall i :: 0 <= i < |es| ==> Classify(es[i].1) == NonRoute
    ensures Collect(es) == Ok([])
  {
    if es != [] {
      var init := es[..|es| - 1];
      assert forall i :: 0 <= i < |init| ==> init[i] == es[i];
      CollectNonRoutes(init);
      assert Contribution(es[|es| - 1].1) == Ok([]);
      var none: seq<Value> := [];
      assert none + none == none;
    }
  }

  /** The keys of the result are the names of the eligible files plus
      `routes`, which holds the route list whatever a module of that name
      held. */
  lemma AggregateKeys(files: seq<string>, imp: string -> Result<Value>)
    requires Aggregate(Ok(files), imp).Ok?
    ensures LoadAll(files, imp).Ok?
    ensures Aggregate(Ok(files), imp).value.vals.Keys ==
      NamesOf(files) + {"routes"}
    ensures Aggregate(Ok(files), imp).value.vals["routes"] ==
      Arr(Collect(LoadAll(files, imp).value.Entries()).value)
  {
    LoadAllNames(files, imp);
    var t := LoadAll(files, imp).value;
    var routes := Collect(t.Entries()).value;
    var d := t.Put("routes", Arr(routes));
    assert Aggregate(Ok(files), imp).value == d by {
      assert Collect(t.Entries()) == Ok(routes);
    }
    assert d.vals.Keys == t.vals.Keys + {"routes"};
  }

  /** Every loaded module other than one named `routes` stays in the
      result under its name, holding the module of the last file of that
      name, whether it contributed routes or not. */
  lemma AggregateKeepsModules(files: seq<string>, imp: string -> Result<Value>, i: nat)
    requires Aggregate(Ok(files), imp).Ok?
    requires i < |files| && Eligible(files[i]) && ModuleName(files[i]) != "routes"
    requires forall j :: i < j < |files| && Eligible(files[j]) ==> ModuleName(files[j]) != ModuleName(files[i])
    ensures imp(files[i]).Ok? && ModuleName(files[i]) in Aggregate(Ok(files), imp).value.vals
    ensures Aggregate(Ok(files), imp).value.vals[ModuleName(files[i])] == LoadModule(files[i], imp).value
  {
    LoadAllLastWins(files, imp, i);
  }

  /** A failed import rejects the whole call with that import's error
      (the first one in listing order): no partial object is returned. */
  lemma AggregateImportFailure(files: seq<string>, imp: string -> Result<Value>, i: nat, e: Error)
    requires FirstFailure(files, imp, i, e)
    ensures Aggregate(Ok(files), imp) == Err(e)
  {
    LoadAllFails(files, imp, e);
  }

  /** A directory without eligible files yields an object whose only key
      is `routes`, holding an empty list. */
  lemma AggregateNothingEligible(files: seq<string>, imp: string -> Result<Value>)
    requires forall i :: 0 <= i < |files| ==> !Eligible(files[i])
    ensures Aggregate(Ok(files), imp) == Ok(Dict(["routes"], map["routes" := Arr([])]))
  {
    LoadAllNothingEligible(files, imp);
    assert Empty.Entries() == [];
    assert Collect([]) == Ok([]);
    assert Empty.Put("routes", Arr([])) == Dict(["routes"], map["routes" := Arr([])]);
  }
}
