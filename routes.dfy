/** Route projections and the route-enabling transformation. Prefix parsing
    (`netip.ParsePrefix`) and the uniqueness check behind primary marking
    (`isUniquePrefix`) are collaborators, passed in as functions. The
    uniqueness check is handed the route rows of the OTHER nodes only: it
    asks whether any other node offers the prefix. */
module Routes {
  import opened Types
  import opened Tables

  /** `GetAdvertisedRoutes`: the prefixes of the node's advertised route rows. */
  function AdvertisedRoutes(routes: seq<Route>, node: Node): (r: seq<Prefix>)
    ensures forall p :: p in r <==>
              exists rt :: rt in routes && rt.nodeId == node.id && rt.advertised && rt.prefix == p
    ensures |r| <= |routes|
  {
    if routes == [] then []
    else
      var rest := AdvertisedRoutes(routes[1..], node);
      var rt := routes[0];
      assert forall x :: x in routes <==> x == rt || x in routes[1..];
      if rt.nodeId == node.id && rt.advertised then [rt.prefix] + rest else rest
  }

  /** `GetEnabledRoutes`: the prefixes of the node's route rows that are both
      advertised and enabled. */
  function EnabledRoutes(routes: seq<Route>, node: Node): (r: seq<Prefix>)
    ensures forall p :: p in r <==>
              exists rt :: rt in routes && rt.nodeId == node.id && rt.advertised && rt.enabled && rt.prefix == p
    ensures |r| <= |routes|
  {
    if routes == [] then []
    else
      var rest := EnabledRoutes(routes[1..], node);
      var rt := routes[0];
      assert forall x :: x in routes <==> x == rt || x in routes[1..];
      if rt.nodeId == node.id && rt.advertised && rt.enabled then [rt.prefix] + rest else rest
  }

  /** Every enabled prefix is also advertised. */
  lemma EnabledAreAdvertised(routes: seq<Route>, node: Node)
    ensures forall p :: p in EnabledRoutes(routes, node) ==> p in AdvertisedRoutes(routes, node)
  {
  }

  /** `IsRoutesEnabled`: false for a string that does not parse; otherwise
      whether the parsed prefix is one of the node's enabled routes. */
  function IsRoutesEnabled(routes: seq<Route>, node: Node, routeStr: string, parse: string -> Option<Prefix>): (b: bool)
    ensures parse(routeStr).None? ==> !b
    ensures parse(routeStr).Some? ==>
              (b <==> exists rt :: rt in routes && rt.nodeId == node.id && rt.advertised && rt.enabled &&
                                   rt.prefix == parse(routeStr).value)
  {
    match parse(routeStr)
    case None => false
    case Some(route) => route in EnabledRoutes(routes, node)
  }

  /** `GetNodeRoutes`: every route row of the node, in table order. */
  function NodeRoutes(routes: seq<Route>, nodeId: NodeId): (r: seq<Route>)
    ensures forall rt :: rt in r <==> rt in routes && rt.nodeId == nodeId
  {
    if routes == [] then []
    else if routes[0].nodeId == nodeId then [routes[0]] + NodeRoutes(routes[1..], nodeId)
    else NodeRoutes(routes[1..], nodeId)
  }

  /** The parse step of `enableRoutes`: the first string that does not parse
      is the error; otherwise the parsed prefixes, position by position. */
  function ParseRoutes(routeStrs: seq<string>, parse: string -> Option<Prefix>): (r: Result<seq<Prefix>>)
    ensures r.Ok? <==> forall s :: s in routeStrs ==> parse(s).Some?
    ensures r.Ok? ==> |r.value| == |routeStrs| &&
                      forall i :: 0 <= i < |routeStrs| ==> parse(routeStrs[i]) == Some(r.value[i])
    ensures r.Err? ==> exists k :: 0 <= k < |routeStrs| && parse(routeStrs[k]).None? &&
                                   r.error == PrefixParseError(routeStrs[k]) &&
                                   forall j :: 0 <= j < k ==> parse(routeStrs[j]).Some?
  {
    if routeStrs == [] then Ok([])
    else
      match parse(routeStrs[0])
      case None => Err(PrefixParseError(routeStrs[0]))
      case Some(p) =>
        var rest := ParseRoutes(routeStrs[1..], parse);
        assert forall s :: s in routeStrs <==> s == routeStrs[0] || s in routeStrs[1..];
        if rest.Err? then
          var k :| 0 <= k < |routeStrs[1..]| && parse(routeStrs[1..][k]).None? &&
                   rest.error == PrefixParseError(routeStrs[1..][k]) &&
                   forall j :: 0 <= j < k ==> parse(routeStrs[1..][j]).Some?;
          assert routeStrs[k + 1] == routeStrs[1..][k];
          assert forall j :: 1 <= j < k + 1 ==> routeStrs[j] == routeStrs[1..][j - 1];
          Err(rest.error)
        else Ok([p] + rest.value)
  }

  /** The validation step of `enableRoutes`: every requested prefix is among
      the node's advertised routes. */
  predicate AllAdvertised(routes: seq<Route>, node: Node, prefixes: seq<Prefix>) {
    forall p :: p in prefixes ==> p in AdvertisedRoutes(routes, node)
  }

  /** `Where("node_id = ? AND prefix = ?").First(&route)`: the position of the
      lowest-keyed row of the node with that prefix, advertised or not. */
  function FindRoute(routes: seq<Route>, nodeId: NodeId, p: Prefix): (r: Option<nat>)
    ensures r.None? <==> forall rt :: rt in routes ==> !(rt.nodeId == nodeId && rt.prefix == p)
    ensures r.Some? ==> r.value < |routes| && routes[r.value].nodeId == nodeId && routes[r.value].prefix == p
    ensures r.Some? ==> forall j :: 0 <= j < r.value ==> !(routes[j].nodeId == nodeId && routes[j].prefix == p)
  {
    if routes == [] then None
    else if routes[0].nodeId == nodeId && routes[0].prefix == p then Some(0)
    else
      var rest := FindRoute(routes[1..], nodeId, p);
      assert forall x :: x in routes <==> x == routes[0] || x in routes[1..];
      if rest.Some? then Some(rest.value + 1) else None
  }

  /** In a route table in key order, the row found is the lowest-keyed one
      of the node with the prefix. */
  lemma FindRouteLowestKey(routes: seq<Route>, nodeId: NodeId, p: Prefix)
    requires RoutesKeyOrdered(routes) && FindRoute(routes, nodeId, p).Some?
    ensures forall rt :: rt in routes && rt.nodeId == nodeId && rt.prefix == p ==>
              routes[FindRoute(routes, nodeId, p).value].id <= rt.id
  {
    var k := FindRoute(routes, nodeId, p).value;
    forall rt | rt in routes && rt.nodeId == nodeId && rt.prefix == p ensures routes[k].id <= rt.id {
      var j :| 0 <= j < |routes| && routes[j] == rt;
      assert k <= j;
    }
  }

  /** The rows of all nodes other than `nodeId`: what the uniqueness check reads. */
  function OtherNodesRoutes(routes: seq<Route>, nodeId: NodeId): seq<Route> {
    RemoveRoutesOf(routes, {nodeId})
  }

  /** One iteration of the mutation loop of `enableRoutes`: the found row
      becomes enabled and, unless it is an exit route, primary exactly when
      no other node offers its prefix. No row found: nothing changes. */
  function EnableOne(routes: seq<Route>, nodeId: NodeId, p: Prefix, isUniquePrefix: (seq<Route>, Prefix) -> bool): seq<Route> {
    match FindRoute(routes, nodeId, p)
    case None => routes
    case Some(k) =>
      var row := routes[k].(enabled := true);
      var row := if IsExitRoute(row.prefix) then row
                 else row.(isPrimary := isUniquePrefix(OtherNodesRoutes(routes, nodeId), row.prefix));
      routes[k := row]
  }

  /** The whole mutation loop: `EnableOne` for each requested prefix in turn. */
  function EnableAll(routes: seq<Route>, nodeId: NodeId, prefixes: seq<Prefix>, isUniquePrefix: (seq<Route>, Prefix) -> bool): seq<Route> {
    if prefixes == [] then routes
    else EnableOne(EnableAll(routes, nodeId, prefixes[..|prefixes| - 1], isUniquePrefix), nodeId, prefixes[|prefixes| - 1], isUniquePrefix)
  }

  /** Two route tables agree on everything but the enabled and primary flags. */
  ghost predicate SameRows(a: seq<Route>, b: seq<Route>) {
    |a| == |b| &&
    forall i :: 0 <= i < |a| ==>
      a[i].id == b[i].id && a[i].nodeId == b[i].nodeId && a[i].prefix == b[i].prefix && a[i].advertised == b[i].advertised
  }

  lemma {:induction false} FindRouteSameRows(a: seq<Route>, b: seq<Route>, nodeId: NodeId, p: Prefix)
    requires SameRows(a, b)
    ensures FindRoute(a, nodeId, p) == FindRoute(b, nodeId, p)
  {
    if a != [] {
      assert SameRows(a[1..], b[1..]) by {
        forall i | 0 <= i < |a| - 1
          ensures a[1..][i].id == b[1..][i].id && a[1..][i].nodeId == b[1..][i].nodeId
          ensures a[1..][i].prefix == b[1..][i].prefix && a[1..][i].advertised == b[1..][i].advertised
        {
          assert a[1..][i] == a[i + 1] && b[1..][i] == b[i + 1];
        }
      }
      FindRouteSameRows(a[1..], b[1..], nodeId, p);
    }
  }

  lemma {:induction false} OtherNodesRoutesFrame(a: seq<Route>, b: seq<Route>, nodeId: NodeId)
    requires |a| == |b|
    requires forall i :: 0 <= i < |a| ==> a[i].nodeId == b[i].nodeId
    requires forall i :: 0 <= i < |a| && a[i].nodeId != nodeId ==> a[i] == b[i]
    ensures OtherNodesRoutes(a, nodeId) == OtherNodesRoutes(b, nodeId)
  {
    if a != [] {
      OtherNodesRoutesFrame(a[1..], b[1..], nodeId);
    }
  }

  /** Rows of other nodes are untouched. */
  ghost predicate OthersUnchanged(before: seq<Route>, after: seq<Route>, nodeId: NodeId)
    requires |before| == |after|
  {
    forall i :: 0 <= i < |before| && before[i].nodeId != nodeId ==> after[i] == before[i]
  }

  /** Rows that no requested prefix finds are untouched. */
  ghost predicate UnrequestedUnchanged(before: seq<Route>, after: seq<Route>, nodeId: NodeId, prefixes: seq<Prefix>)
    requires |before| == |after|
  {
    forall i :: 0 <= i < |before| && (forall p :: p in prefixes ==> FindRoute(before, nodeId, p) != Some(i)) ==>
      after[i] == before[i]
  }

  /** Every requested prefix finds a row, which is enabled, and whose primary
      flag is the uniqueness verdict over the other nodes' rows, or, for an
      exit route, what it was. */
  ghost predicate RequestsMet(
    before: seq<Route>, after: seq<Route>, nodeId: NodeId, prefixes: seq<Prefix>,
    isUniquePrefix: (seq<Route>, Prefix) -> bool)
    requires |before| == |after|
  {
    forall p :: p in prefixes ==>
      FindRoute(before, nodeId, p).Some? &&
      var k := FindRoute(before, nodeId, p).value;
      && after[k].enabled
      && after[k].isPrimary == if IsExitRoute(p) then before[k].isPrimary
                               else isUniquePrefix(OtherNodesRoutes(before, nodeId), p)
  }

  /** What enabling `prefixes` on node `nodeId` must leave. */
  ghost predicate EnabledAsRequested(
    before: seq<Route>, after: seq<Route>, nodeId: NodeId, prefixes: seq<Prefix>,
    isUniquePrefix: (seq<Route>, Prefix) -> bool)
  {
    && SameRows(before, after)
    && OthersUnchanged(before, after, nodeId)
    && UnrequestedUnchanged(before, after, nodeId, prefixes)
    && RequestsMet(before, after, nodeId, prefixes, isUniquePrefix)
  }

  /** When every requested prefix has a row of the node, the mutation loop
      leaves exactly the state `EnabledAsRequested` describes. */
  lemma {:induction false} EnableAllMeetsRequest(
    routes: seq<Route>, nodeId: NodeId, prefixes: seq<Prefix>, isUniquePrefix: (seq<Route>, Prefix) -> bool)
    requires forall p :: p in prefixes ==> FindRoute(routes, nodeId, p).Some?
    ensures EnabledAsRequested(routes, EnableAll(routes, nodeId, prefixes, isUniquePrefix), nodeId, prefixes, isUniquePrefix)
  {
    if prefixes != [] {
      var init, p := prefixes[..|prefixes| - 1], prefixes[|prefixes| - 1];
      assert prefixes == init + [p];
      EnableAllMeetsRequest(routes, nodeId, init, isUniquePrefix);
      var mid := EnableAll(routes, nodeId, init, isUniquePrefix);
      EnableOneStep(routes, mid, nodeId, init, p, isUniquePrefix);
    }
  }

  /** One more iteration keeps `EnabledAsRequested`, with the new prefix added to the request. */
  lemma EnableOneStep(
    routes: seq<Route>, mid: seq<Route>, nodeId: NodeId, init: seq<Prefix>, p: Prefix,
    isUniquePrefix: (seq<Route>, Prefix) -> bool)
    requires EnabledAsRequested(routes, mid, nodeId, init, isUniquePrefix)
    requires FindRoute(routes, nodeId, p).Some?
    ensures EnabledAsRequested(routes, EnableOne(mid, nodeId, p, isUniquePrefix), nodeId, init + [p], isUniquePrefix)
  {
    FindRouteSameRows(routes, mid, nodeId, p);
    var k := FindRoute(routes, nodeId, p).value;
    var after := EnableOne(mid, nodeId, p, isUniquePrefix);
    assert after == mid[k := after[k]];
    assert SameRows(routes, after);
    assert OthersUnchanged(routes, after, nodeId) by {
      forall i | 0 <= i < |routes| && routes[i].nodeId != nodeId ensures after[i] == routes[i] {
        assert i != k;
      }
    }
    StepUnrequested(routes, mid, after, nodeId, init, p, k);
    StepRequests(routes, mid, nodeId, init, p, isUniquePrefix);
  }

  lemma StepUnrequested(
    routes: seq<Route>, mid: seq<Route>, after: seq<Route>, nodeId: NodeId, init: seq<Prefix>, p: Prefix, k: nat)
    requires |routes| == |mid| && UnrequestedUnchanged(routes, mid, nodeId, init)
    requires FindRoute(routes, nodeId, p) == Some(k)
    requires |after| == |mid| && after == mid[k := after[k]]
    ensures UnrequestedUnchanged(routes, after, nodeId, init + [p])
  {
    forall i | 0 <= i < |routes| && (forall q :: q in init + [p] ==> FindRoute(routes, nodeId, q) != Some(i))
      ensures after[i] == routes[i]
    {
      assert p in init + [p];
      assert forall q :: q in init ==> q in init + [p];
    }
  }

  lemma StepRequests(
    routes: seq<Route>, mid: seq<Route>, nodeId: NodeId, init: seq<Prefix>, p: Prefix,
    isUniquePrefix: (seq<Route>, Prefix) -> bool)
    requires EnabledAsRequested(routes, mid, nodeId, init, isUniquePrefix)
    requires FindRoute(routes, nodeId, p).Some?
    ensures |EnableOne(mid, nodeId, p, isUniquePrefix)| == |routes|
    ensures RequestsMet(routes, EnableOne(mid, nodeId, p, isUniquePrefix), nodeId, init + [p], isUniquePrefix)
  {
    FindRouteSameRows(routes, mid, nodeId, p);
    var k := FindRoute(routes, nodeId, p).value;
    OtherNodesRoutesFrame(routes, mid, nodeId);
    var after := EnableOne(mid, nodeId, p, isUniquePrefix);
    assert after == mid[k := after[k]];
    // The found row's primary flag: an exit route keeps whatever the row had
    // before this call, whether or not an earlier request already found it.
    assert after[k].isPrimary == if IsExitRoute(p) then routes[k].isPrimary
                                 else isUniquePrefix(OtherNodesRoutes(routes, nodeId), p) by {
      if p !in init {
        forall q | q in init ensures FindRoute(routes, nodeId, q) != Some(k) {
          FoundRowHasPrefix(routes, nodeId, q);
        }
      }
    }
    forall q | q in init + [p]
      ensures FindRoute(routes, nodeId, q).Some? &&
              var j := FindRoute(routes, nodeId, q).value;
              && after[j].enabled
              && after[j].isPrimary == if IsExitRoute(q) then routes[j].isPrimary
                                       else isUniquePrefix(OtherNodesRoutes(routes, nodeId), q)
    {
      if q != p {
        assert q in init;
        FoundRowHasPrefix(routes, nodeId, q);
      }
    }
  }

  lemma FoundRowHasPrefix(routes: seq<Route>, nodeId: NodeId, q: Prefix)
    requires FindRoute(routes, nodeId, q).Some?
    ensures routes[FindRoute(routes, nodeId, q).value].prefix == q
  {
  }
}
