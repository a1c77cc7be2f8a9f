/** `isRoute` and the four-way classification of a loaded module that
    decides what it adds to the aggregated route list. */
module Routes {
  import opened JsValue

  /** `isRoute(route)`: the JS value `(route?.handler ||
      route?.config?.handler) && route?.path`, tested for truthiness. */
  function IsRoute(v: Value): (b: bool)
    ensures b <==>
      (Truthy(Get(v, "handler")) || Truthy(Get(Get(v, "config"), "handler"))) &&
      Truthy(Get(v, "path"))
    ensures b ==> v.Obj?
  {
    Truthy(And(Or(Get(v, "handler"), Get(Get(v, "config"), "handler")), Get(v, "path")))
  }

  /** The rule that handles a module, in priority order. */
  datatype Shape = RoutesProperty | RouteArray | SingleRoute | NonRoute

  /** `Array.isArray(v) && v.length > 0 && isRoute(v[0])` */
  predicate LeadsWithRoute(v: Value)
    ensures LeadsWithRoute(v) ==> !IsRoute(v) && !Truthy(Get(v, "routes"))
  {
    v.Arr? && |v.elems| > 0 && IsRoute(v.elems[0])
  }

  /** The first rule that matches. Because an array has no `routes`
      property and is never a route itself, each rule is characterised by
      its own test alone, except that a truthy `routes` property overrides
      the module being a route itself. */
  function Classify(v: Value): (sh: Shape)
    ensures sh == RoutesProperty <==> Truthy(Get(v, "routes"))
    ensures sh == RouteArray <==> LeadsWithRoute(v)
    ensures sh == SingleRoute <==> IsRoute(v) && !Truthy(Get(v, "routes"))
    ensures sh == NonRoute <==> !Truthy(Get(v, "routes")) && !LeadsWithRoute(v) && !IsRoute(v)
  {
    if Truthy(Get(v, "routes")) then RoutesProperty
    else if LeadsWithRoute(v) then RouteArray
    else if IsRoute(v) then SingleRoute
    else NonRoute
  }

  /** `[...v]`: an array spreads into its elements, a string into its
      characters; any other value is not iterable and throws a TypeError. */
  function Spread(v: Value): (r: Result<seq<Value>>)
    ensures r.Ok? <==> v.Arr? || v.Str?
    ensures r.Err? ==> r.error.TypeError?
    ensures v.Arr? ==> r == Ok(v.elems)
    ensures v.Str? ==> |r.value| == |v.s| && forall i :: 0 <= i < |v.s| ==> r.value[i] == Str([v.s[i]])
  {
    match v
    case Arr(elems) => Ok(elems)
    case Str(s) => Ok(seq(|s|, i requires 0 <= i < |s| => Str([s[i]])))
    case _ => Err(TypeError("spread of a non-iterable value"))
  }

  /** What one module adds to the route list. Whole batches are taken as
      they are: the elements of `routes` are not checked at all, and of an
      array only the first element is. */
  function Contribution(v: Value): (r: Result<seq<Value>>)
    ensures r.Err? ==> Classify(v) == RoutesProperty && r.error.TypeError?
    ensures Classify(v) == RoutesProperty ==> r == Spread(Get(v, "routes"))
    ensures Classify(v) == RouteArray ==> r == Ok(v.elems)
    ensures Classify(v) == SingleRoute ==> r == Ok([v])
    ensures Classify(v) == NonRoute ==> r == Ok([])
    ensures Classify(v) == RouteArray || Classify(v) == SingleRoute ==>
      |r.value| > 0 && IsRoute(r.value[0])
  {
    match Classify(v)
    case RoutesProperty => Spread(Get(v, "routes"))
    case RouteArray => Ok(v.elems)
    case SingleRoute => Ok([v])
    case NonRoute => Ok([])
  }

  /** The elements of a `routes` array are added whatever they are, and a
      module that also looks like a route itself is not added. */
  lemma RoutesPropertyUnchecked(v: Value, xs: seq<Value>)
    requires v.Obj? && "routes" in v.props && v.props["routes"] == Arr(xs)
    ensures Contribution(v) == Ok(xs)
  {
  }

  /** The elements of a route array after the first are added whatever
      they are. */
  lemma RouteArrayTailUnchecked(first: Value, rest: seq<Value>)
    requires IsRoute(first)
    ensures Contribution(Arr([first] + rest)) == Ok([first] + rest)
  {
  }

  /** An object with a path but no handler anywhere is not a route and
      adds nothing. */
  lemma PathOnlyAddsNothing(p: string)
    requires p != ""
    ensures Contribution(Obj(map["path" := Str(p)])) == Ok([])
  {
  }

  /** A handler under `config` makes an object with a path a route. */
  lemma ConfigHandlerRoute(p: string, h: nat)
    requires p != ""
    ensures var v := Obj(map["path" := Str(p), "config" := Obj(map["handler" := Func(h)])]);
      Contribution(v) == Ok([v])
  {
  }
}
