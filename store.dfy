/** The registry's database as a mutable object: the node, route and user
    tables, and the operations that change them. Each method runs as one
    transaction; the value it leaves is stated in terms of the functions of
    the other modules. The pending-registration cache is a second object. */
module Store {
  import opened Types
  import opened Tables
  import opened Tags
  import opened Routes
  import opened Registration
  import opened Sweeps

  /** The pending registrations, keyed by machine key. */
  class RegistrationCache {
    var entries: map<MachineKey, CacheValue>

    constructor ()
      ensures entries == map[]
    {
      entries := map[];
    }
  }

  class Store {
    var nodes: seq<Node>
    var routes: seq<Route>
    var users: seq<User>

    /** Every table is in primary-key order, so its keys are unique. */
    ghost predicate Valid()
      reads this
    {
      NodesKeyOrdered(nodes) && UsersKeyOrdered(users) && RoutesKeyOrdered(routes)
    }

    constructor (users: seq<User>)
      requires UsersKeyOrdered(users)
      ensures Valid()
      ensures nodes == [] && routes == [] && this.users == users
    {
      nodes := [];
      routes := [];
      this.users := users;
    }

    /** `SetTags`: an empty request changes nothing; otherwise the node's
        forced tags become the request without repeats, in first-occurrence
        order. */
    method SetTags(nodeId: NodeId, tags: seq<string>)
      requires Valid()
      modifies this
      ensures Valid()
      ensures tags == [] ==> nodes == old(nodes)
      ensures tags != [] ==> nodes == UpdateById(old(nodes), nodeId, SetForcedTags(Dedup(tags)))
      ensures routes == old(routes) && users == old(users)
    {
      if |tags| == 0 {
        return;
      }
      var newTags: seq<string> := [];
      for i := 0 to |tags|
        invariant newTags == Dedup(tags[..i])
      {
        assert tags[..i + 1][..i] == tags[..i];
        if tags[i] !in newTags {
          newTags := newTags + [tags[i]];
        }
      }
      assert tags[..|tags|] == tags;
      nodes := UpdateById(nodes, nodeId, SetForcedTags(newTags));
    }

    /** `RenameNode`: a name the label rules reject is refused with their
        error and nothing changes; otherwise the node's given name is set. */
    method RenameNode(nodeId: NodeId, newName: string, checkLabel: string -> Option<Error>) returns (err: Option<Error>)
      requires Valid()
      modifies this
      ensures Valid()
      ensures err == checkLabel(newName)
      ensures err.Some? ==> nodes == old(nodes)
      ensures err.None? ==> nodes == UpdateById(old(nodes), nodeId, SetGivenName(newName))
      ensures routes == old(routes) && users == old(users)
    {
      err := checkLabel(newName);
      if err.Some? {
        return;
      }
      nodes := UpdateById(nodes, nodeId, SetGivenName(newName));
    }

    /** `NodeSetExpiry`: the node's expiry is set. */
    method NodeSetExpiry(nodeId: NodeId, expiry: Time)
      requires Valid()
      modifies this
      ensures Valid()
      ensures nodes == UpdateById(old(nodes), nodeId, SetExpiry(expiry))
      ensures routes == old(routes) && users == old(users)
    {
      nodes := UpdateById(nodes, nodeId, SetExpiry(expiry));
    }

    /** `UpdateLastSeen`: the node's last-seen instant is set. */
    method UpdateLastSeen(nodeId: NodeId, lastSeen: Time)
      requires Valid()
      modifies this
      ensures Valid()
      ensures nodes == UpdateById(old(nodes), nodeId, SetLastSeen(lastSeen))
      ensures routes == old(routes) && users == old(users)
    {
      nodes := UpdateById(nodes, nodeId, SetLastSeen(lastSeen));
    }

    /** `NodeSetNodeKey`: the stored row of the node gets the new node key. */
    method NodeSetNodeKey(node: Node, nodeKey: NodeKey)
      requires Valid()
      modifies this
      ensures Valid()
      ensures nodes == UpdateById(old(nodes), node.id, SetNodeKey(nodeKey))
      ensures routes == old(routes) && users == old(users)
    {
      nodes := UpdateById(nodes, node.id, SetNodeKey(nodeKey));
    }

    /** `NodeSetMachineKey`: the stored row of the node gets the new machine key. */
    method NodeSetMachineKey(node: Node, machineKey: MachineKey)
      requires Valid()
      modifies this
      ensures Valid()
      ensures nodes == UpdateById(old(nodes), node.id, SetMachineKey(machineKey))
      ensures routes == old(routes) && users == old(users)
    {
      nodes := UpdateById(nodes, node.id, SetMachineKey(machineKey));
    }

    /** `DeleteNode`: first the node's routes go, then its row. A failed
        route deletion stops it with nothing changed; a failed row deletion
        leaves the routes deleted and the row in place. */
    method DeleteNode(node: Node, fault: DeleteFault) returns (err: Option<Error>)
      requires Valid()
      modifies this
      ensures Valid()
      ensures err.None? <==> fault == NoFault
      ensures routes == if fault == RouteDeletionFails then old(routes) else RemoveRoutesOf(old(routes), {node.id})
      ensures nodes == if fault == NoFault then RemoveNodes(old(nodes), {node.id}) else old(nodes)
      ensures users == old(users)
    {
      if fault == RouteDeletionFails {
        return Some(DatabaseError("delete routes"));
      }
      routes := RemoveRoutesOf(routes, {node.id});
      if fault == NodeDeletionFails {
        return Some(DatabaseError("delete node"));
      }
      nodes := RemoveNodes(nodes, {node.id});
      return None;
    }

    /** `RegisterNode`: the node is saved as `RegisterOutcome` describes; on
        an allocator error nothing is saved. */
    method RegisterNode(node: Node, ipPrefixes: seq<Prefix>, allocate: (seq<Node>, seq<Prefix>) -> Result<seq<Addr>>)
      returns (r: Result<Node>)
      requires Valid()
      modifies this
      ensures Valid()
      ensures var outcome := RegisterOutcome(old(nodes), node, ipPrefixes, allocate);
              && (outcome.Err? ==> r == Err(outcome.error) && nodes == old(nodes))
              && (outcome.Ok? ==> r == Ok(outcome.value.node) && nodes == outcome.value.table)
      ensures routes == old(routes) && users == old(users)
    {
      var toSave := node;
      if |node.ipAddresses| == 0 {
        var ips := allocate(nodes, ipPrefixes);
        if ips.Err? {
          return Err(ips.error);
        }
        toSave := node.(ipAddresses := ips.value);
      }
      var saved := Save(nodes, toSave);
      nodes := saved.table;
      return Ok(saved.node);
    }

    /** `RegisterNodeFromAuthCallback`: the pending node for the machine key
        is given the user and the method (and the expiry, when one is
        given) and registered. The cache entry is removed only when the
        registration succeeds; on every error nothing is written. */
    method RegisterNodeFromAuthCallback(
      cache: RegistrationCache,
      mkey: MachineKey,
      userName: string,
      nodeExpiry: Option<Time>,
      registrationMethod: string,
      ipPrefixes: seq<Prefix>,
      allocate: (seq<Node>, seq<Prefix>) -> Result<seq<Addr>>
    ) returns (r: Result<Node>)
      requires Valid()
      modifies this, cache
      ensures Valid()
      ensures var prepared := PrepareRegistration(old(cache.entries), old(users), mkey, userName, nodeExpiry, registrationMethod);
              && (prepared.Err? ==> r == Err(prepared.error) && nodes == old(nodes))
              && (prepared.Ok? ==>
                    var outcome := RegisterOutcome(old(nodes), prepared.value, ipPrefixes, allocate);
                    && (outcome.Err? ==> r == Err(outcome.error) && nodes == old(nodes))
                    && (outcome.Ok? ==> r == Ok(outcome.value.node) && nodes == outcome.value.table))
      ensures cache.entries == if r.Ok? then old(cache.entries) - {mkey} else old(cache.entries)
      ensures routes == old(routes) && users == old(users)
    {
      var prepared := PrepareRegistration(cache.entries, users, mkey, userName, nodeExpiry, registrationMethod);
      if prepared.Err? {
        return Err(prepared.error);
      }
      r := RegisterNode(prepared.value, ipPrefixes, allocate);
      if r.Ok? {
        cache.entries := cache.entries - {mkey};
      }
    }

    /** `enableRoutes`: all requested strings must parse and name advertised
        routes of the node, or nothing changes; then each is enabled as
        `EnabledAsRequested` describes, and the node is announced to its
        peers with its routes read back. */
    method EnableRoutes(
      node: Node,
      routeStrs: seq<string>,
      parse: string -> Option<Prefix>,
      isUniquePrefix: (seq<Route>, Prefix) -> bool
    ) returns (r: Result<StateUpdate>)
      requires Valid()
      modifies this
      ensures Valid()
      ensures nodes == old(nodes) && users == old(users)
      ensures ParseRoutes(routeStrs, parse).Err? ==>
                r == Err(ParseRoutes(routeStrs, parse).error) && routes == old(routes)
      ensures ParseRoutes(routeStrs, parse).Ok? && !AllAdvertised(old(routes), node, ParseRoutes(routeStrs, parse).value) ==>
                r == Err(NodeRouteIsNotAvailable) && routes == old(routes)
      ensures ParseRoutes(routeStrs, parse).Ok? && AllAdvertised(old(routes), node, ParseRoutes(routeStrs, parse).value) ==>
                var prefixes := ParseRoutes(routeStrs, parse).value;
                && routes == EnableAll(old(routes), node.id, prefixes, isUniquePrefix)
                && EnabledAsRequested(old(routes), routes, node.id, prefixes, isUniquePrefix)
                && r == Ok(PeerChanged([ChangedNode(node, NodeRoutes(routes, node.id))]))
    {
      var parsed := ParsePrefixes(routeStrs, parse);
      if parsed.Err? {
        return Err(parsed.error);
      }
      var newRoutes := parsed.value;
      // Validate every prefix before changing anything.
      var available := AllAvailable(newRoutes, AdvertisedRoutes(routes, node));
      if !available {
        return Err(NodeRouteIsNotAvailable);
      }
      AdvertisedAreFound(routes, node, newRoutes);
      EnableAllMeetsRequest(routes, node.id, newRoutes, isUniquePrefix);
      EnableFound(node.id, newRoutes, isUniquePrefix);
      return Ok(PeerChanged([ChangedNode(node, NodeRoutes(routes, node.id))]));
    }

    /** The mutation loop of `enableRoutes`, once every prefix is known to
        have a row of the node. */
    method EnableFound(nodeId: NodeId, prefixes: seq<Prefix>, isUniquePrefix: (seq<Route>, Prefix) -> bool)
      requires forall p :: p in prefixes ==> FindRoute(routes, nodeId, p).Some?
      modifies this
      ensures routes == EnableAll(old(routes), nodeId, prefixes, isUniquePrefix)
      ensures nodes == old(nodes) && users == old(users)
    {
      for i := 0 to |prefixes|
        invariant nodes == old(nodes) && users == old(users)
        invariant routes == EnableAll(old(routes), nodeId, prefixes[..i], isUniquePrefix)
      {
        assert prefixes[..i + 1][..i] == prefixes[..i];
        EnableAllMeetsRequest(old(routes), nodeId, prefixes[..i], isUniquePrefix);
        FindRouteSameRows(old(routes), routes, nodeId, prefixes[i]);
        var k := FindRoute(routes, nodeId, prefixes[i]).value;
        var row := routes[k].(enabled := true);
        if !IsExitRoute(row.prefix) {
          row := row.(isPrimary := isUniquePrefix(OtherNodesRoutes(routes, nodeId), row.prefix));
        }
        routes := routes[k := row];
      }
      assert prefixes[..|prefixes|] == prefixes;
    }

    /** `ExpireEphemeralNodes`: walk the users in order and, for each, delete
        every ephemeral node not seen within the threshold, collecting its id
        whether or not the deletion succeeded. A listing failure ends the
        sweep without a notification, keeping the deletions made so far. */
    method ExpireEphemeralNodes(
      threshold: Duration,
      now: Time,
      listUsersFails: bool,
      listNodesFails: UserId -> bool,
      fault: NodeId -> DeleteFault
    ) returns (update: StateUpdate, changed: bool)
      requires Valid()
      modifies this
      ensures Valid()
      ensures users == old(users)
      ensures var walked := if listUsersFails then 0 else ListedUsers(old(users), listNodesFails);
              var expired := EphemeralCandidates(old(nodes), old(users)[..walked], now, threshold);
              && nodes == RemoveNodes(old(nodes), NodesGone(expired, fault))
              && routes == RemoveRoutesOf(old(routes), RoutesGone(expired, fault))
              && (listUsersFails || walked < |old(users)| ==> update == NoUpdate && !changed)
              && (!listUsersFails && walked == |old(users)| ==>
                    changed == (expired != []) && update == if expired != [] then PeerRemoved(expired) else NoUpdate)
    {
      NothingGone(nodes, routes, fault);
      assert old(users)[..0] == [];
      if listUsersFails {
        return NoUpdate, false;
      }
      ghost var nodes0, routes0 := nodes, routes;
      var expired: seq<NodeId> := [];
      for ui := 0 to |users|
        invariant users == old(users) && Valid()
        invariant forall j :: 0 <= j < ui ==> !listNodesFails(users[j].id)
        invariant expired == EphemeralCandidates(nodes0, users[..ui], now, threshold)
        invariant nodes == RemoveNodes(nodes0, NodesGone(expired, fault))
        invariant routes == RemoveRoutesOf(routes0, RoutesGone(expired, fault))
      {
        var user := users[ui];
        if listNodesFails(user.id) {
          UsersWalkedSoFar(users, listNodesFails, ui);
          return NoUpdate, false;
        }
        var ids := SweepUser(nodes0, routes0, ui, expired, now, threshold, fault);
        expired := expired + ids;
      }
      assert users[..|users|] == users;
      UsersWalkedSoFar(users, listNodesFails, |users|);
      if |expired| > 0 {
        return PeerRemoved(expired), true;
      }
      return NoUpdate, false;
    }

    /** One user's turn in `ExpireEphemeralNodes`: the listing is the one
        taken before the sweep, since earlier deletions removed only other
        users' nodes, and its deletions add to those made so far. */
    method SweepUser(
      ghost nodes0: seq<Node>, ghost routes0: seq<Route>, ui: nat, ghost expired: seq<NodeId>,
      now: Time, threshold: Duration, fault: NodeId -> DeleteFault
    ) returns (ids: seq<NodeId>)
      requires Valid() && UniqueNodeIds(nodes0) && ui < |users|
      requires expired == EphemeralCandidates(nodes0, users[..ui], now, threshold)
      requires nodes == RemoveNodes(nodes0, NodesGone(expired, fault))
      requires routes == RemoveRoutesOf(routes0, RoutesGone(expired, fault))
      modifies this
      ensures Valid() && users == old(users)
      ensures expired + ids == EphemeralCandidates(nodes0, users[..ui + 1], now, threshold)
      ensures nodes == RemoveNodes(nodes0, NodesGone(expired + ids, fault))
      ensures routes == RemoveRoutesOf(routes0, RoutesGone(expired + ids, fault))
    {
      UntouchedListing(nodes0, users, ui, now, threshold, NodesGone(expired, fault));
      ids := DeleteExpiredOf(NodesOfUser(nodes, users[ui].id), now, threshold, fault);
      GoneConcat(nodes0, routes0, expired, ids, fault);
      assert users[..ui + 1][..ui] == users[..ui];
    }

    /** The inner loop of `ExpireEphemeralNodes`: delete each expired
        ephemeral node of one user's listing, reporting its id whatever
        the deletion's outcome. */
    method DeleteExpiredOf(listing: seq<Node>, now: Time, threshold: Duration, fault: NodeId -> DeleteFault)
      returns (ids: seq<NodeId>)
      requires Valid()
      modifies this
      ensures Valid()
      ensures ids == ExpiredIds(listing, now, threshold)
      ensures nodes == RemoveNodes(old(nodes), NodesGone(ids, fault))
      ensures routes == RemoveRoutesOf(old(routes), RoutesGone(ids, fault))
      ensures users == old(users)
    {
      NothingGone(nodes, routes, fault);
      ids := [];
      for j := 0 to |listing|
        invariant users == old(users) && Valid()
        invariant ids == ExpiredIds(listing[..j], now, threshold)
        invariant nodes == RemoveNodes(old(nodes), NodesGone(ids, fault))
        invariant routes == RemoveRoutesOf(old(routes), RoutesGone(ids, fault))
      {
        assert listing[..j + 1][..j] == listing[..j];
        var n := listing[j];
        if EphemeralExpired(n, now, threshold) {
          GoneAfterOneMore(old(nodes), old(routes), ids, n.id, fault);
          ids := ids + [n.id];
          var _ := DeleteNode(n, fault(n.id));
        }
      }
      assert listing[..|listing|] == listing;
    }

    /** One row of `ExpireExpiredNodes`: a selected node whose update
        succeeds gets the clock as its expiry. */
    method StampRow(listing: seq<Node>, i: nat, lastCheck: Time, now: Time, updateFails: NodeId -> bool)
      requires Valid() && i < |listing| && StampedUpTo(listing, nodes, i, lastCheck, now, updateFails)
      modifies this
      ensures Valid() && routes == old(routes) && users == old(users)
      ensures StampedUpTo(listing, nodes, i + 1, lastCheck, now, updateFails)
    {
      var n := listing[i];
      if ReportedExpired(n, lastCheck, now) && !updateFails(n.id) {
        StampOne(listing, nodes, i, lastCheck, now, updateFails);
        nodes := UpdateById(nodes, n.id, SetExpiry(now));
      } else {
        StampNone(listing, nodes, i, lastCheck, now, updateFails);
      }
    }

    /** `ExpireExpiredNodes`: report every node whose key expired since the
        previous sweep's cursor and stamp its expiry with the clock; a failed
        stamp is still reported. Returns the sweep's start as the next
        cursor, or the Unix epoch when the nodes cannot be listed. */
    method ExpireExpiredNodes(
      lastCheck: Time,
      started: Time,
      now: Time,
      listFails: bool,
      updateFails: NodeId -> bool
    ) returns (cursor: Time, update: StateUpdate, changed: bool)
      requires Valid()
      modifies this
      ensures Valid()
      ensures routes == old(routes) && users == old(users)
      ensures listFails ==> cursor == UnixEpoch && update == NoUpdate && !changed && nodes == old(nodes)
      ensures !listFails ==>
                var patches := ExpiryPatches(old(nodes), lastCheck, now);
                && cursor == started
                && nodes == StampExpired(old(nodes), lastCheck, now, now, updateFails)
                && changed == (patches != [])
                && update == if patches != [] then PeerChangedPatch(patches) else NoUpdate
    {
      if listFails {
        return UnixEpoch, NoUpdate, false;
      }
      var listing := nodes;
      var expired: seq<PeerChange> := [];
      assert listing[..0] == [];
      for i := 0 to |listing|
        invariant Valid() && routes == old(routes) && users == old(users)
        invariant expired == ExpiryPatches(listing[..i], lastCheck, now)
        invariant StampedUpTo(listing, nodes, i, lastCheck, now, updateFails)
      {
        PatchesStep(listing, i, lastCheck, now);
        var n := listing[i];
        if ReportedExpired(n, lastCheck, now) {
          expired := expired + [PeerChange(n.id, n.expiry)];
        }
        StampRow(listing, i, lastCheck, now, updateFails);
      }
      assert listing[..|listing|] == listing;
      StampedAll(listing, nodes, lastCheck, now, updateFails);
      if |expired| > 0 {
        return started, PeerChangedPatch(expired), true;
      }
      return started, NoUpdate, false;
    }
  }

  /** The parse loop of `enableRoutes`: the first string that does not
      parse is the error. */
  method ParsePrefixes(routeStrs: seq<string>, parse: string -> Option<Prefix>) returns (r: Result<seq<Prefix>>)
    ensures r == ParseRoutes(routeStrs, parse)
  {
    var newRoutes: seq<Prefix> := [];
    for i := 0 to |routeStrs|
      invariant |newRoutes| == i
      invariant forall j :: 0 <= j < i ==> parse(routeStrs[j]) == Some(newRoutes[j])
    {
      var parsed := parse(routeStrs[i]);
      if parsed.None? {
        ParseFailsFirstAt(routeStrs, parse, i);
        return Err(PrefixParseError(routeStrs[i]));
      }
      newRoutes := newRoutes + [parsed.value];
    }
    ParseSucceeds(routeStrs, parse, newRoutes);
    return Ok(newRoutes);
  }

  /** The validation loop of `enableRoutes`: every prefix is available. */
  method AllAvailable(prefixes: seq<Prefix>, available: seq<Prefix>) returns (ok: bool)
    ensures ok <==> forall p :: p in prefixes ==> p in available
  {
    for i := 0 to |prefixes|
      invariant forall j :: 0 <= j < i ==> prefixes[j] in available
    {
      if prefixes[i] !in available {
        return false;
      }
    }
    return true;
  }

  /** The first `i` rows are stamped, the rest are as listed. */
  ghost predicate StampedUpTo(listing: seq<Node>, nodes: seq<Node>, i: nat, lastCheck: Time, now: Time, updateFails: NodeId -> bool) {
    && UniqueNodeIds(listing)
    && |nodes| == |listing|
    && i <= |listing|
    && forall j :: 0 <= j < |listing| ==>
         nodes[j] == if j < i then Stamped(listing[j], lastCheck, now, now, updateFails) else listing[j]
  }

  lemma PatchesStep(listing: seq<Node>, i: nat, lastCheck: Time, now: Time)
    requires i < |listing|
    ensures ExpiryPatches(listing[..i + 1], lastCheck, now) ==
              ExpiryPatches(listing[..i], lastCheck, now) +
              (if ReportedExpired(listing[i], lastCheck, now) then [PeerChange(listing[i].id, listing[i].expiry)] else [])
  {
    assert listing[..i + 1][..i] == listing[..i];
  }

  lemma StampedAll(listing: seq<Node>, nodes: seq<Node>, lastCheck: Time, now: Time, updateFails: NodeId -> bool)
    requires StampedUpTo(listing, nodes, |listing|, lastCheck, now, updateFails)
    ensures nodes == StampExpired(listing, lastCheck, now, now, updateFails)
  {
  }

  /** Stamping row `i` by its id touches that row alone. */
  lemma StampOne(listing: seq<Node>, nodes: seq<Node>, i: nat, lastCheck: Time, now: Time, updateFails: NodeId -> bool)
    requires StampedUpTo(listing, nodes, i, lastCheck, now, updateFails) && i < |listing|
    requires ReportedExpired(listing[i], lastCheck, now) && !updateFails(listing[i].id)
    ensures StampedUpTo(listing, UpdateById(nodes, listing[i].id, SetExpiry(now)), i + 1, lastCheck, now, updateFails)
  {
    var after := UpdateById(nodes, listing[i].id, SetExpiry(now));
    forall j | 0 <= j < |listing|
      ensures after[j] == if j < i + 1 then Stamped(listing[j], lastCheck, now, now, updateFails) else listing[j]
    {
      if j == i {
        assert after[j] == listing[i].(expiry := Some(now));
      } else {
        var before := if j < i then Stamped(listing[j], lastCheck, now, now, updateFails) else listing[j];
        assert nodes[j] == before;
        assert before.id == listing[j].id != listing[i].id;
        assert after[j] == nodes[j];
      }
    }
  }

  /** A row that is not stamped is left as listed. */
  lemma StampNone(listing: seq<Node>, nodes: seq<Node>, i: nat, lastCheck: Time, now: Time, updateFails: NodeId -> bool)
    requires StampedUpTo(listing, nodes, i, lastCheck, now, updateFails) && i < |listing|
    requires !(ReportedExpired(listing[i], lastCheck, now) && !updateFails(listing[i].id))
    ensures StampedUpTo(listing, nodes, i + 1, lastCheck, now, updateFails)
  {
    assert Stamped(listing[i], lastCheck, now, now, updateFails) == listing[i];
  }

  /** Deleting no reported node removes nothing. */
  lemma NothingGone(nodes: seq<Node>, routes: seq<Route>, fault: NodeId -> DeleteFault)
    ensures RemoveNodes(nodes, NodesGone([], fault)) == nodes
    ensures RemoveRoutesOf(routes, RoutesGone([], fault)) == routes
  {
    assert NodesGone([], fault) == {} && RoutesGone([], fault) == {};
    RemoveNodesNone(nodes);
    RemoveRoutesNone(routes);
  }

  lemma {:induction false} RemoveNodesNone(nodes: seq<Node>)
    ensures RemoveNodes(nodes, {}) == nodes
  {
    if nodes != [] {
      assert RemoveNodes(nodes, {}) == [nodes[0]] + RemoveNodes(nodes[1..], {});
      RemoveNodesNone(nodes[1..]);
      assert nodes == [nodes[0]] + nodes[1..];
    }
  }

  lemma {:induction false} RemoveRoutesNone(routes: seq<Route>)
    ensures RemoveRoutesOf(routes, {}) == routes
  {
    if routes != [] {
      assert RemoveRoutesOf(routes, {}) == [routes[0]] + RemoveRoutesOf(routes[1..], {});
      RemoveRoutesNone(routes[1..]);
      assert routes == [routes[0]] + routes[1..];
    }
  }

  /** One user's deletions compose with those of the users before. */
  lemma GoneConcat(nodes0: seq<Node>, routes0: seq<Route>, expired: seq<NodeId>, ids: seq<NodeId>, fault: NodeId -> DeleteFault)
    ensures RemoveNodes(RemoveNodes(nodes0, NodesGone(expired, fault)), NodesGone(ids, fault)) ==
              RemoveNodes(nodes0, NodesGone(expired + ids, fault))
    ensures RemoveRoutesOf(RemoveRoutesOf(routes0, RoutesGone(expired, fault)), RoutesGone(ids, fault)) ==
              RemoveRoutesOf(routes0, RoutesGone(expired + ids, fault))
  {
    RemoveNodesTwice(nodes0, NodesGone(expired, fault), NodesGone(ids, fault));
    RemoveRoutesOfTwice(routes0, RoutesGone(expired, fault), RoutesGone(ids, fault));
    assert NodesGone(expired + ids, fault) == NodesGone(expired, fault) + NodesGone(ids, fault);
    assert RoutesGone(expired + ids, fault) == RoutesGone(expired, fault) + RoutesGone(ids, fault);
  }

  /** Deleting one more reported node composes with the deletions so far. */
  lemma GoneAfterOneMore(nodes0: seq<Node>, routes0: seq<Route>, expired: seq<NodeId>, id: NodeId, fault: NodeId -> DeleteFault)
    ensures RemoveNodes(nodes0, NodesGone(expired + [id], fault)) ==
              if fault(id) == NoFault then RemoveNodes(RemoveNodes(nodes0, NodesGone(expired, fault)), {id})
              else RemoveNodes(nodes0, NodesGone(expired, fault))
    ensures RemoveRoutesOf(routes0, RoutesGone(expired + [id], fault)) ==
              if fault(id) != RouteDeletionFails then RemoveRoutesOf(RemoveRoutesOf(routes0, RoutesGone(expired, fault)), {id})
              else RemoveRoutesOf(routes0, RoutesGone(expired, fault))
  {
    NodesGoneSnoc(expired, id, fault);
    RoutesGoneSnoc(expired, id, fault);
    RemoveNodesTwice(nodes0, NodesGone(expired, fault), {id});
    RemoveRoutesOfTwice(routes0, RoutesGone(expired, fault), {id});
  }

  lemma NodesGoneSnoc(expired: seq<NodeId>, id: NodeId, fault: NodeId -> DeleteFault)
    ensures NodesGone(expired + [id], fault) ==
              if fault(id) == NoFault then NodesGone(expired, fault) + {id} else NodesGone(expired, fault)
  {
    forall x ensures x in NodesGone(expired + [id], fault) <==> x in NodesGone(expired, fault) || (x == id && fault(id) == NoFault) {
      assert x in expired + [id] <==> x in expired || x == id;
    }
  }

  lemma RoutesGoneSnoc(expired: seq<NodeId>, id: NodeId, fault: NodeId -> DeleteFault)
    ensures RoutesGone(expired + [id], fault) ==
              if fault(id) != RouteDeletionFails then RoutesGone(expired, fault) + {id} else RoutesGone(expired, fault)
  {
    forall x ensures x in RoutesGone(expired + [id], fault) <==> x in RoutesGone(expired, fault) || (x == id && fault(id) != RouteDeletionFails) {
      assert x in expired + [id] <==> x in expired || x == id;
    }
  }

  /** The listing of user `ui` is not affected by deleting nodes reported for earlier users. */
  lemma UntouchedListing(nodes0: seq<Node>, users: seq<User>, ui: nat, now: Time, threshold: Duration, gone: set<NodeId>)
    requires UniqueNodeIds(nodes0) && UniqueUserIds(users) && ui < |users|
    requires forall id :: id in gone ==> id in EphemeralCandidates(nodes0, users[..ui], now, threshold)
    ensures NodesOfUser(RemoveNodes(nodes0, gone), users[ui].id) == NodesOfUser(nodes0, users[ui].id)
  {
    EarlierUsersDiffer(users, ui);
    forall m | m in nodes0 && m.userId == users[ui].id ensures m.id !in gone {
      CandidateIdOwner(nodes0, users[..ui], now, threshold, m);
    }
    NodesOfUserAfterRemove(nodes0, gone, users[ui].id);
  }

  lemma CandidateIdOwner(nodes: seq<Node>, users: seq<User>, now: Time, threshold: Duration, m: Node)
    requires UniqueNodeIds(nodes) && m in nodes
    ensures m.id in EphemeralCandidates(nodes, users, now, threshold) ==> exists u :: u in users && m.userId == u.id
  {
    if m.id in EphemeralCandidates(nodes, users, now, threshold) {
      var n :| n in nodes && n.id == m.id && EphemeralExpired(n, now, threshold) &&
               exists u :: u in users && n.userId == u.id;
      var a :| 0 <= a < |nodes| && nodes[a] == n;
      var b :| 0 <= b < |nodes| && nodes[b] == m;
      assert a == b;
    }
  }

  lemma EarlierUsersDiffer(users: seq<User>, ui: nat)
    requires UniqueUserIds(users) && ui < |users|
    ensures forall u :: u in users[..ui] ==> u.id != users[ui].id
  {
    forall u | u in users[..ui] ensures u.id != users[ui].id {
      var k :| 0 <= k < ui && users[..ui][k] == u;
      assert users[k] == u;
    }
  }

  /** Where the user walk stops is `ListedUsers`. */
  lemma {:induction false} UsersWalkedSoFar(users: seq<User>, listNodesFails: UserId -> bool, ui: nat)
    requires ui <= |users|
    requires forall j :: 0 <= j < ui ==> !listNodesFails(users[j].id)
    requires ui < |users| ==> listNodesFails(users[ui].id)
    ensures ListedUsers(users, listNodesFails) == ui
  {
    if ui > 0 {
      assert !listNodesFails(users[0].id);
      UsersWalkedSoFar(users[1..], listNodesFails, ui - 1);
    }
  }

  /** The loop's parse failure is `ParseRoutes`'s error. */
  lemma {:induction false} ParseFailsFirstAt(routeStrs: seq<string>, parse: string -> Option<Prefix>, i: nat)
    requires i < |routeStrs| && parse(routeStrs[i]).None?
    requires forall j :: 0 <= j < i ==> parse(routeStrs[j]).Some?
    ensures ParseRoutes(routeStrs, parse) == Err(PrefixParseError(routeStrs[i]))
  {
    if i > 0 {
      assert parse(routeStrs[0]).Some?;
      ParseFailsFirstAt(routeStrs[1..], parse, i - 1);
    }
  }

  /** The loop's parsed list is `ParseRoutes`'s value. */
  lemma ParseSucceeds(routeStrs: seq<string>, parse: string -> Option<Prefix>, parsed: seq<Prefix>)
    requires |parsed| == |routeStrs|
    requires forall j :: 0 <= j < |routeStrs| ==> parse(routeStrs[j]) == Some(parsed[j])
    ensures ParseRoutes(routeStrs, parse) == Ok(parsed)
  {
    forall s | s in routeStrs ensures parse(s).Some? {
      var j :| 0 <= j < |routeStrs| && routeStrs[j] == s;
    }
    var r := ParseRoutes(routeStrs, parse);
    assert r.value == parsed by {
      forall j | 0 <= j < |routeStrs| ensures r.value[j] == parsed[j] {
        assert parse(routeStrs[j]) == Some(r.value[j]);
      }
    }
  }

  /** An advertised prefix of the node has a row the mutation loop finds. */
  lemma AdvertisedAreFound(routes: seq<Route>, node: Node, prefixes: seq<Prefix>)
    requires AllAdvertised(routes, node, prefixes)
    ensures forall p :: p in prefixes ==> FindRoute(routes, node.id, p).Some?
  {
    forall p | p in prefixes ensures FindRoute(routes, node.id, p).Some? {
      assert p in AdvertisedRoutes(routes, node);
      var rt :| rt in routes && rt.nodeId == node.id && rt.advertised && rt.prefix == p;
    }
  }
}
