/** The route table: registration, and the lookup of the handler of a path. */
module Routing {
  import opened Text
  import opened PathUtils

  const MAX_ROUTES: nat := 128

  /** Handlers are told apart by a number. */
  datatype Route = Route(path: string, handler: nat, usingSession: bool, dynamicSubpath: bool, dynamicParam: bool)

  /** has_path_subpath: another slash after the first one and before the query. */
  function HasSubpath(path: string): bool {
    var query := FindChar(path, 0, '?');
    var first := FindChar(path, 0, '/');
    var end := if query.Some? then query.value else |path|;
    first.Some? && first.value + 1 <= end && '/' in path[first.value + 1..end]
  }

  /** The loop of has_path_subpath. */
  method HasPathSubpath(path: string) returns (r: bool)
    ensures r == HasSubpath(path)
  {
    if path == "" {
      return false;
    }
    var query := FindChar(path, 0, '?');
    var first := FindChar(path, 0, '/');
    if first.None? {
      return false;
    }
    var end := if query.Some? then query.value else |path|;
    var p := first.value + 1;
    while p < end
      invariant first.value + 1 <= p
      invariant forall k :: first.value + 1 <= k < p ==> k < end && path[k] != '/'
      decreases end - p
    {
      if path[p] == '/' {
        assert path[first.value + 1..end][p - first.value - 1] == '/';
        return true;
      }
      p := p + 1;
    }
    r := false;
  }

  /** has_path_param */
  function HasParam(path: string): bool {
    FindChar(path, 0, '?').Some?
  }

  /** The condition of the second search loop. */
  predicate Accepts(r: Route, path: string) {
    var subpath, param := HasSubpath(path), HasParam(path);
    || (r.dynamicSubpath && subpath
        && ((param && r.dynamicParam) || (!r.dynamicParam && !param) || !param))
    || (r.dynamicParam && param
        && ((subpath && r.dynamicSubpath) || (!r.dynamicSubpath && !subpath) || !subpath))
  }

  /** The two nested tests of the second search loop. */
  method Admits(r: Route, path: string) returns (b: bool)
    ensures b == Accepts(r, path)
  {
    hide HasSubpath, HasParam;
    var subpath := HasPathSubpath(path);
    if r.dynamicSubpath && subpath {
      if (HasParam(path) && r.dynamicParam) || (!r.dynamicParam && !HasParam(path)) || !HasParam(path) {
        return true;
      }
    }
    if r.dynamicParam && HasParam(path) {
      if (subpath && r.dynamicSubpath) || (!r.dynamicSubpath && !subpath) || !subpath {
        return true;
      }
    }
    b := false;
  }

  // --------------------------------------------------------------- the specification

  /** Every feature of the path is one the route allows. */
  predicate Permits(r: Route, path: string) {
    (HasSubpath(path) ==> r.dynamicSubpath) && (HasParam(path) ==> r.dynamicParam)
  }

  /** The first route of exactly that path. */
  function FirstSame(routes: seq<Route>, path: string): (k: Option<nat>)
    ensures k.Some? ==>
              && k.value < |routes| && routes[k.value].path == path
              && forall j :: 0 <= j < k.value ==> routes[j].path != path
    ensures k.None? ==> forall j :: 0 <= j < |routes| ==> routes[j].path != path
  {
    if routes == [] then None
    else
      var n := |routes| - 1;
      var k := FirstSame(routes[..n], path);
      if k.Some? then k else if routes[n].path == path then Some(n) else None
  }

  /** A route of the base of the path that permits its features. */
  predicate Serves(r: Route, path: string) {
    r.path == RouteBase(path) && Permits(r, path)
  }

  function FirstServing(routes: seq<Route>, path: string): (k: Option<nat>)
    ensures k.Some? ==>
              && k.value < |routes| && Serves(routes[k.value], path)
              && forall j :: 0 <= j < k.value ==> !Serves(routes[j], path)
    ensures k.None? ==> forall j :: 0 <= j < |routes| ==> !Serves(routes[j], path)
  {
    if routes == [] then None
    else
      var n := |routes| - 1;
      var k := FirstServing(routes[..n], path);
      if k.Some? then k else if Serves(routes[n], path) then Some(n) else None
  }

  /** What the lookup of a path that starts with a slash is for: the route of exactly that
      path; or else the first route of its base that permits its features; or else the
      fallback. */
  function HandlerOf(routes: seq<Route>, fallback: Option<nat>, path: string): Option<nat> {
    var same, serving := FirstSame(routes, path), FirstServing(routes, path);
    if same.Some? then Some(routes[same.value].handler)
    else if serving.Some? then Some(routes[serving.value].handler)
    else fallback
  }

  /** In terms of the table alone: the first route of exactly that path answers; without
      one, the first route that permits the path; without any, the fallback. */
  lemma HandlerReads(routes: seq<Route>, fallback: Option<nat>, path: string, k: nat)
    requires k < |routes|
    ensures routes[k].path == path && (forall j :: 0 <= j < k ==> routes[j].path != path)
            ==> HandlerOf(routes, fallback, path) == Some(routes[k].handler)
    ensures (forall j :: 0 <= j < |routes| ==> routes[j].path != path)
            && Serves(routes[k], path) && (forall j :: 0 <= j < k ==> !Serves(routes[j], path))
            ==> HandlerOf(routes, fallback, path) == Some(routes[k].handler)
    ensures (forall j :: 0 <= j < |routes| ==> routes[j].path != path && !Serves(routes[j], path))
            ==> HandlerOf(routes, fallback, path) == fallback
  {
    hide Serves, FirstSame, FirstServing;
  }

  // ------------------------------------------------------------------------ the table

  class Router {
    var routes: array<Route>
    var routeCount: nat
    var fallback: Option<nat>

    ghost predicate Valid()
      reads this
    {
      routes.Length == MAX_ROUTES && routeCount <= MAX_ROUTES
    }

    ghost function Table(): seq<Route>
      requires Valid()
      reads this, routes
    {
      routes[..routeCount]
    }

    constructor ()
      ensures Valid() && fresh(routes) && Table() == [] && fallback == None
    {
      routes := new Route[MAX_ROUTES](_ => Route("", 0, false, false, false));
      routeCount := 0;
      fallback := None;
    }

    /** cweb_add_route; a full table takes no more. */
    method AddRoute(path: string, handler: nat, usingSession: bool)
      requires Valid()
      modifies this`routeCount, routes
      ensures Valid() && routes == old(routes)
      ensures Table() == if old(routeCount) < 128
              then old(Table()) + [Route(path, handler, usingSession, false, false)]
                         else old(Table())
    {
      if routeCount < MAX_ROUTES {
        routes[routeCount] := Route(path, handler, usingSession, false, false);
        routeCount := routeCount + 1;
      }
    }

    /** cweb_set_dynamic_subpath: of the first route with that path. */
    method SetDynamicSubpath(path: string, dynamic: bool)
      requires Valid()
      modifies routes
      ensures Valid() && routes == old(routes)
      ensures var k := FirstSame(old(Table()), path);
              Table() == if k.Some? then old(Table())[k.value := old(Table())[k.value].(dynamicSubpath := dynamic)]
                else old(Table())
    {
      for i := 0 to routeCount
        invariant Table() == old(Table())
        invariant forall j :: 0 <= j < i ==> Table()[j].path != path
      {
        assert routes[i] == Table()[i];
        if routes[i].path == path {
          routes[i] := routes[i].(dynamicSubpath := dynamic);
          return;
        }
      }
    }

    /** cweb_set_dynamic_param: of the first route with that path. */
    method SetDynamicParam(path: string, dynamic: bool)
      requires Valid()
      modifies routes
      ensures Valid() && routes == old(routes)
      ensures var k := FirstSame(old(Table()), path);
              Table() == if k.Some? then old(Table())[k.value := old(Table())[k.value].(dynamicParam := dynamic)]
                else old(Table())
    {
      for i := 0 to routeCount
        invariant Table() == old(Table())
        invariant forall j :: 0 <= j < i ==> Table()[j].path != path
      {
        assert routes[i] == Table()[i];
        if routes[i].path == path {
          routes[i] := routes[i].(dynamicParam := dynamic);
          return;
        }
      }
    }

    /** cweb_get_route_handler: an exact match also takes over the caller's session flag. */
    method GetRouteHandler(path: string, usingSession: Option<bool>) returns (handler: Option<nat>)
      requires Valid()
      modifies routes
      ensures Valid() && routes == old(routes)
      ensures path == "" ==> handler == None && Table() == old(Table())
      ensures path != "" && path[0] == '/' ==> handler == HandlerOf(old(Table()), fallback, path)
      ensures path != "" ==>
                var k := FirstSame(old(Table()), path);
                Table() == if k.Some? && usingSession.Some? then
                             old(Table())[k.value := old(Table())[k.value].(usingSession := usingSession.value)]
                           else old(Table())
    {
      if path == "" {
        return None;
      }
      hide Permits, Accepts, RouteBase;
      var basePath := RouteBase(path);
      ghost var table := Table();
      for i := 0 to routeCount
        invariant Table() == table
        invariant forall j :: 0 <= j < i ==> table[j].path != path
      {
        assert routes[i] == table[i];
        if routes[i].path == path {
          handler := Some(routes[i].handler);
          if usingSession.Some? {
            routes[i] := routes[i].(usingSession := usingSession.value);
          }
          return;
        }
      }
      for i := 0 to routeCount
        invariant Table() == table
        invariant path[0] == '/' ==> forall j :: 0 <= j < i ==> !Serves(table[j], path)
      {
        assert routes[i] == table[i];
        if routes[i].path == basePath {
          if path[0] == '/' {
            NestedCondition(table, i, path);
          }
          var admits := Admits(routes[i], path);
          if admits {
            return Some(routes[i].handler);
          }
        }
      }
      handler := fallback;
    }
  }

  // ------------------------------------------------------------------------- theorems

  /** The base of a path is its first segment: it ends at the first slash or question
      mark behind the leading slash. */
  lemma BaseIsFirstSegment(path: string)
    requires path != "" && path[0] == '/'
    ensures var base := RouteBase(path);
            && 1 <= |base| <= |path| && base == path[..|base|]
            && (forall k :: 1 <= k < |base| ==> base[k] != '/' && base[k] != '?')
            && (|base| < |path| ==> path[|base|] == '/' || path[|base|] == '?')
  {}

  /** A path has a parameter when a question mark is in it, and a subpath when a second
      slash comes before any question mark. */
  lemma FeaturesAre(path: string)
    requires path != "" && path[0] == '/'
    ensures HasParam(path) <==> '?' in path
    ensures HasSubpath(path) <==> exists k :: 1 <= k < |path| && path[k] == '/' && '?' !in path[..k]
  {}

  /** The nested condition: some feature, and every feature permitted. */
  lemma AcceptsIffPermits(r: Route, path: string)
    ensures Accepts(r, path) <==> (HasSubpath(path) || HasParam(path)) && Permits(r, path)
  {
    hide HasSubpath, HasParam;
  }

  /** A path that starts with a slash is its own base exactly when it has neither a
      subpath nor a parameter. */
  lemma BaseIffPlain(path: string)
    requires path != "" && path[0] == '/'
    ensures RouteBase(path) == path <==> !HasSubpath(path) && !HasParam(path)
  {}

  lemma NestedCondition(table: seq<Route>, i: nat, path: string)
    requires i < |table| && path != "" && path[0] == '/' && table[i].path == RouteBase(path)
    requires forall j :: 0 <= j < |table| ==> table[j].path != path
    ensures Accepts(table[i], path) <==> Permits(table[i], path)
  {
    hide RouteBase, HasSubpath, HasParam;
    BaseIffPlain(path);
  }
}
