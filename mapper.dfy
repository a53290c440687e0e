/**
 * The handler table (`AbstractHandlerMapper`) and the factories of its two
 * implementations, `MethodMapper` and `RouteMapper`: a table from method
 * names to bindings, consulted by the default matcher unless a custom
 * matcher replaces it.
 */
module Mapper {
  import opened Wrappers
  import opened Json
  import opened Requests

  /**
   * What a method name is bound to (`RpcMethod`): a local handler, which may
   * declare the type its params decode to, or a route to an endpoint
   * (`HttpRouteMethod`), which never declares one.
   */
  datatype Binding =
    | Local(name: string, paramsType: Option<TypeRef>)
    | Route(name: string, endpoint: string)
  {
    /** `getParamsType()`: a route declares no params type. */
    function ParamsType(): (t: Option<TypeRef>)
      ensures Route? ==> t.None?
      ensures Local? ==> t == paramsType
    {
      match this
      case Local(_, paramsType) => paramsType
      case Route(_, _) => None
    }
  }

  /** The matcher: the default table lookup, or a function supplied by the caller. */
  datatype Matcher = Default | Custom(f: Request -> Option<Binding>)

  /** The names of a sequence of bindings. */
  function Names(methods: seq<Binding>): set<string> {
    set b | b in methods :: b.name
  }

  /**
   * The table `setMethod` leaves: the bindings inserted one after the other
   * into an empty table, each overwriting an earlier one of the same name.
   */
  function LastWins(methods: seq<Binding>): map<string, Binding>
    decreases |methods|
  {
    if |methods| == 0 then map[]
    else
      var last := methods[|methods| - 1];
      LastWins(methods[..|methods| - 1])[last.name := last]
  }

  /**
   * The table `addMethods` (and every `putIfAbsent` loop) leaves: the
   * bindings inserted one after the other into `base`, each only when its
   * name is not there yet.
   */
  function FirstWins(base: map<string, Binding>, methods: seq<Binding>): map<string, Binding>
    decreases |methods|
  {
    if |methods| == 0 then base
    else
      var last := methods[|methods| - 1];
      var before := FirstWins(base, methods[..|methods| - 1]);
      if last.name in before then before else before[last.name := last]
  }

  /** After `setMethod`, the names in the table are exactly the given names. */
  lemma {:induction false} LastWinsKeys(methods: seq<Binding>)
    ensures LastWins(methods).Keys == Names(methods)
    decreases |methods|
  {
    if |methods| > 0 {
      var init := methods[..|methods| - 1];
      LastWinsKeys(init);
      assert methods == init + [methods[|methods| - 1]];
      assert Names(methods) == Names(init) + {methods[|methods| - 1].name};
    }
  }

  /** After `setMethod`, a name is bound to the last binding of that name. */
  lemma {:induction false} LastWinsValue(methods: seq<Binding>, i: nat)
    requires i < |methods|
    requires forall j :: i < j < |methods| ==> methods[j].name != methods[i].name
    ensures methods[i].name in LastWins(methods)
    ensures LastWins(methods)[methods[i].name] == methods[i]
    decreases |methods|
  {
    if i < |methods| - 1 {
      var init := methods[..|methods| - 1];
      LastWinsValue(init, i);
    }
  }

  /** `putIfAbsent` never touches a binding that is already in the table. */
  lemma {:induction false} FirstWinsKeepsBase(base: map<string, Binding>, methods: seq<Binding>)
    ensures FirstWins(base, methods).Keys == base.Keys + Names(methods)
    ensures forall n :: n in base ==> FirstWins(base, methods)[n] == base[n]
    decreases |methods|
  {
    if |methods| > 0 {
      var init := methods[..|methods| - 1];
      FirstWinsKeepsBase(base, init);
      assert methods == init + [methods[|methods| - 1]];
      assert Names(methods) == Names(init) + {methods[|methods| - 1].name};
    }
  }

  /** Among new names, `putIfAbsent` keeps the first binding of each name. */
  lemma {:induction false} FirstWinsValue(base: map<string, Binding>, methods: seq<Binding>, i: nat)
    requires i < |methods|
    requires methods[i].name !in base
    requires forall j :: 0 <= j < i ==> methods[j].name != methods[i].name
    ensures methods[i].name in FirstWins(base, methods)
    ensures FirstWins(base, methods)[methods[i].name] == methods[i]
    decreases |methods|
  {
    var init := methods[..|methods| - 1];
    if i < |methods| - 1 {
      FirstWinsValue(base, init, i);
    } else {
      FirstWinsKeepsBase(base, init);
      assert methods[i].name !in Names(init);
    }
  }

  /** With pairwise distinct names, keeping the first or the last gives the same table. */
  lemma {:induction false} DistinctNamesAgree(methods: seq<Binding>)
    requires DistinctNames(methods)
    ensures FirstWins(map[], methods) == LastWins(methods)
    decreases |methods|
  {
    if |methods| > 0 {
      var init := methods[..|methods| - 1];
      DistinctNamesAgree(init);
      LastWinsKeys(init);
      assert methods[|methods| - 1].name !in Names(init);
    }
  }

  /**
   * The `putIfAbsent` loop of `MethodMapper.from(methods)` and of the private
   * `RouteMapper.from(methods)`, run on a fresh map.
   */
  method FirstWinsTable(methods: seq<Binding>) returns (t: map<string, Binding>)
    ensures t == FirstWins(map[], methods)
  {
    t := map[];
    for i := 0 to |methods|
      invariant t == FirstWins(map[], methods[..i])
    {
      assert methods[..i + 1][..i] == methods[..i];
      if methods[i].name !in t {
        t := t[methods[i].name := methods[i]];
      }
    }
    assert methods[..|methods|] == methods;
  }

  /**
   * `AbstractHandlerMapper`: the live table and the matcher. The default
   * matcher looks the request's method name up in the table as it is at the
   * time of the lookup.
   */
  class HandlerMapper {
    var table: map<string, Binding>
    var matcher: Matcher

    /** The constructor copies the initial map into the table. */
    constructor (matcher: Matcher, methodMap: map<string, Binding>)
      ensures this.table == methodMap && this.matcher == matcher
    {
      this.table := methodMap;
      this.matcher := matcher;
    }

    /**
     * The matcher applied to a request: a custom matcher decides alone;
     * the default one returns the binding stored under the method name,
     * nothing when the table is empty or lacks that name.
     */
    function Resolve(req: Request): (r: Option<Binding>)
      reads this
      ensures matcher.Custom? ==> r == matcher.f(req)
      ensures matcher.Default? ==> (r.Some? <==> req.methodName in table)
      ensures matcher.Default? && r.Some? ==> r.value == table[req.methodName]
    {
      match matcher
      case Custom(f) => f(req)
      case Default =>
        if |table| > 0 && req.methodName in table then Some(table[req.methodName]) else None
    }

    /** Assigning the `matcher` property. */
    method SetMatcher(m: Matcher)
      modifies this
      ensures matcher == m && table == old(table)
    {
      matcher := m;
    }

    /** `setMethod`: clear the table, then insert every binding, later ones overwriting earlier ones. */
    method SetMethod(methods: seq<Binding>)
      modifies this
      ensures table == LastWins(methods) && matcher == old(matcher)
    {
      table := map[];
      for i := 0 to |methods|
        invariant table == LastWins(methods[..i]) && matcher == old(matcher)
      {
        assert methods[..i + 1][..i] == methods[..i];
        table := table[methods[i].name := methods[i]];
      }
      assert methods[..|methods|] == methods;
    }

    /** `addMethod`: insert or overwrite the one binding's name. */
    method AddMethod(m: Binding)
      modifies this
      ensures table == old(table)[m.name := m] && matcher == old(matcher)
    {
      table := table[m.name := m];
    }

    /** `addMethods`: insert each binding whose name is not in the table yet. */
    method AddMethods(methods: seq<Binding>)
      modifies this
      ensures table == FirstWins(old(table), methods) && matcher == old(matcher)
    {
      ghost var base := table;
      for i := 0 to |methods|
        invariant table == FirstWins(base, methods[..i]) && matcher == old(matcher)
      {
        assert methods[..i + 1][..i] == methods[..i];
        if methods[i].name !in table {
          table := table[methods[i].name := methods[i]];
        }
      }
      assert methods[..|methods|] == methods;
    }
  }

  /** `MethodMapper.empty()` and `RouteMapper.empty()`: default matcher, empty table. */
  method NewEmpty() returns (m: HandlerMapper)
    ensures fresh(m) && m.matcher.Default? && m.table == map[]
  {
    m := new HandlerMapper(Default, map[]);
  }

  /** `MethodMapper.from(matcher)` and `RouteMapper.from(matcher)`: the given matcher, empty table. */
  method NewWithMatcher(f: Request -> Option<Binding>) returns (m: HandlerMapper)
    ensures fresh(m) && m.matcher == Custom(f) && m.table == map[]
  {
    m := new HandlerMapper(Custom(f), map[]);
  }

  /**
   * `MethodMapper.from(methods)` (and `from(vararg methods)`, which passes the
   * same list): default matcher, the first binding of each name.
   */
  method NewFromMethods(methods: seq<Binding>) returns (m: HandlerMapper)
    ensures fresh(m) && m.matcher.Default? && m.table == FirstWins(map[], methods)
  {
    var t := FirstWinsTable(methods);
    m := new HandlerMapper(Default, t);
  }

  /** The route table an endpoint map stands for: each name bound to a route to its endpoint. */
  function RoutesTable(endpoints: map<string, string>): map<string, Binding> {
    map n | n in endpoints :: Route(n, endpoints[n])
  }

  /** Every binding is a route named by a key of `endpoints` and pointing at that key's endpoint. */
  predicate RoutesTo(routes: seq<Binding>, endpoints: map<string, string>) {
    forall i :: 0 <= i < |routes| ==> routes[i].name in endpoints && routes[i] == Route(routes[i].name, endpoints[routes[i].name])
  }

  /** No two bindings share a name. */
  predicate DistinctNames(methods: seq<Binding>) {
    forall i, j :: 0 <= i < j < |methods| ==> methods[i].name != methods[j].name
  }

  /** `endpointMap.map { (name, endpoint) -> HttpRouteMethod(name, endpoint) }`, in some entry order. */
  method RoutesOf(endpoints: map<string, string>) returns (routes: seq<Binding>)
    ensures RoutesTo(routes, endpoints) && DistinctNames(routes)
    ensures Names(routes) == endpoints.Keys
  {
    routes := [];
    var rest := endpoints.Keys;
    while rest != {}
      invariant rest <= endpoints.Keys
      invariant Names(routes) == endpoints.Keys - rest
      invariant RoutesTo(routes, endpoints) && DistinctNames(routes)
      decreases rest
    {
      var n :| n in rest;
      assert forall i :: 0 <= i < |routes| ==> routes[i] in routes && routes[i].name != n;
      var r := Route(n, endpoints[n]);
      assert Names(routes + [r]) == Names(routes) + {n} by {
        assert forall b :: b in routes + [r] <==> b in routes || b == r;
      }
      routes := routes + [r];
      rest := rest - {n};
    }
  }

  /** Routes built from an endpoint map have distinct names, so the first-wins table holds every entry. */
  lemma RoutesTableOfDistinct(endpoints: map<string, string>, routes: seq<Binding>)
    requires RoutesTo(routes, endpoints) && DistinctNames(routes)
    requires Names(routes) == endpoints.Keys
    ensures FirstWins(map[], routes) == RoutesTable(endpoints)
  {
    DistinctNamesAgree(routes);
    LastWinsKeys(routes);
    forall n | n in endpoints
      ensures LastWins(routes)[n] == Route(n, endpoints[n])
    {
      var i :| 0 <= i < |routes| && routes[i].name == n;
      LastWinsValue(routes, i);
    }
  }

  /**
   * `RouteMapper.fromEndpointMap`: default matcher, one route per entry,
   * named by the key and pointing at the value.
   */
  method NewFromEndpointMap(endpoints: map<string, string>) returns (m: HandlerMapper)
    ensures fresh(m) && m.matcher.Default? && m.table == RoutesTable(endpoints)
  {
    var routes := RoutesOf(endpoints);
    var t := FirstWinsTable(routes);
    RoutesTableOfDistinct(endpoints, routes);
    m := new HandlerMapper(Default, t);
  }

  /** A binding added after construction is what the default lookup finds for its name. */
  method AddedBindingIsFound(b: Binding, req: Request) returns (found: Option<Binding>)
    requires req.methodName == b.name
    ensures found == Some(b)
  {
    var m := NewEmpty();
    assert m.Resolve(req).None?;
    m.AddMethod(b);
    found := m.Resolve(req);
  }

  /** An empty mapper with the default matcher finds nothing for any request. */
  method EmptyFindsNothing(req: Request) returns (found: Option<Binding>)
    ensures found.None?
  {
    var m := NewEmpty();
    found := m.Resolve(req);
  }
}
