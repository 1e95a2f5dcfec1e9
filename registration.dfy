/** Registration: what `RegisterNodeFromAuthCallback` does with a pending
    entry before it saves, and what `RegisterNode` saves. The address
    allocator (`getAvailableIPs`) is a collaborator, passed in as a function
    of the node table and the configured prefixes. */
module Registration {
  import opened Types
  import opened Tables

  /** A value in the pending-registration cache: normally a node, but the
      cache holds untyped values, so anything else is possible too. */
  datatype CacheValue = PendingNode(node: Node) | Foreign

  /** The node the auth callback hands on to `RegisterNode`, or why it
      stops first: no pending entry for the machine key, an entry that is
      not a node, an unknown user, or a node already stored under another
      user. */
  function PrepareRegistration(
    entries: map<MachineKey, CacheValue>,
    users: seq<User>,
    mkey: MachineKey,
    userName: string,
    nodeExpiry: Option<Time>,
    registrationMethod: string
  ): (r: Result<Node>)
    ensures mkey !in entries ==> r == Err(NodeNotFoundRegistrationCache)
    ensures mkey in entries && entries[mkey].Foreign? ==> r == Err(CouldNotConvertNodeInterface)
    ensures mkey in entries && entries[mkey].PendingNode? ==>
              var cached := entries[mkey].node;
              && ((forall u :: u in users ==> u.name != userName) ==> r == Err(UserNotFound))
              && ((exists u :: u in users && u.name == userName) ==>
                    var user := GetUser(users, userName).value;
                    && (r == Err(DifferentRegisteredUser) <==> cached.id != 0 && cached.userId != user.id)
                    && (r.Ok? <==> !(cached.id != 0 && cached.userId != user.id)))
    ensures r.Ok? ==>
              var cached := entries[mkey].node;
              && r.value.userId == GetUser(users, userName).value.id
              && r.value.registerMethod == registrationMethod
              && r.value.expiry == (if nodeExpiry.Some? then nodeExpiry else cached.expiry)
              && r.value.(userId := cached.userId, registerMethod := cached.registerMethod, expiry := cached.expiry) == cached
  {
    if mkey !in entries then Err(NodeNotFoundRegistrationCache)
    else
      match entries[mkey]
      case Foreign => Err(CouldNotConvertNodeInterface)
      case PendingNode(cached) =>
        match GetUser(users, userName)
        case Err(e) => Err(e)
        case Ok(user) =>
          if cached.id != 0 && cached.userId != user.id then Err(DifferentRegisteredUser)
          else
            var node := cached.(userId := user.id, registerMethod := registrationMethod);
            Ok(if nodeExpiry.Some? then node.(expiry := nodeExpiry) else node)
  }

  /** A node that was stored once (its id is set) is only re-registered by
      the user who owns it; a node that was never stored may go to anyone. */
  lemma ReRegistrationKeepsOwner(
    entries: map<MachineKey, CacheValue>, users: seq<User>, mkey: MachineKey, userName: string,
    nodeExpiry: Option<Time>, registrationMethod: string)
    requires mkey in entries && entries[mkey].PendingNode?
    requires PrepareRegistration(entries, users, mkey, userName, nodeExpiry, registrationMethod).Ok?
    ensures var cached := entries[mkey].node;
            cached.id != 0 ==>
              PrepareRegistration(entries, users, mkey, userName, nodeExpiry, registrationMethod).value.userId == cached.userId
  {
  }

  /** What `RegisterNode` stores: a node that already has addresses is saved
      as it is, without consulting the allocator; otherwise it is saved with
      exactly the allocated addresses, and an allocator error stops it
      before anything is saved. */
  function RegisterOutcome(
    nodes: seq<Node>,
    node: Node,
    ipPrefixes: seq<Prefix>,
    allocate: (seq<Node>, seq<Prefix>) -> Result<seq<Addr>>
  ): (r: Result<Saved>)
    ensures |node.ipAddresses| > 0 ==> r.Ok? && r.value.node.ipAddresses == node.ipAddresses
    ensures |node.ipAddresses| == 0 && allocate(nodes, ipPrefixes).Err? ==>
              r == Err(allocate(nodes, ipPrefixes).error)
    ensures |node.ipAddresses| == 0 && allocate(nodes, ipPrefixes).Ok? ==>
              r.Ok? && r.value.node.ipAddresses == allocate(nodes, ipPrefixes).value
    ensures r.Ok? ==> r.value.node.(id := node.id, ipAddresses := node.ipAddresses) == node
    ensures r.Ok? ==> r.value.node.id != 0 && (node.id != 0 ==> r.value.node.id == node.id)
    ensures r.Ok? ==> r.value.node in r.value.table
    ensures r.Ok? ==> r.value.table == Save(nodes, r.value.node).table
  {
    if |node.ipAddresses| > 0 then
      SaveAgainSameTable(nodes, node);
      Ok(Save(nodes, node))
    else
      match allocate(nodes, ipPrefixes)
      case Err(e) => Err(e)
      case Ok(ips) =>
        var withIps := node.(ipAddresses := ips);
        SaveAgainSameTable(nodes, withIps);
        Ok(Save(nodes, withIps))
  }

  /** Saving the stored form of a node (with its id filled in) into the
      table before the save produces the same table. */
  lemma SaveAgainSameTable(nodes: seq<Node>, node: Node)
    ensures Save(nodes, Save(nodes, node).node).table == Save(nodes, node).table
  {
    var s := Save(nodes, node);
    if node.id == 0 {
      assert !HasNodeId(nodes, s.node.id);
    }
  }

  /** Which allocator is plugged in makes no difference to a node that already has addresses. */
  lemma ExistingAddressesSkipAllocator(
    nodes: seq<Node>, node: Node, ipPrefixes: seq<Prefix>,
    a1: (seq<Node>, seq<Prefix>) -> Result<seq<Addr>>, a2: (seq<Node>, seq<Prefix>) -> Result<seq<Addr>>)
    requires |node.ipAddresses| > 0
    ensures RegisterOutcome(nodes, node, ipPrefixes, a1) == RegisterOutcome(nodes, node, ipPrefixes, a2)
  {
  }

  /** Registering the node a registration returned, against the table it
      left, changes nothing: registration is idempotent. */
  lemma RegisterIdempotent(
    nodes: seq<Node>, node: Node, ipPrefixes: seq<Prefix>,
    allocate: (seq<Node>, seq<Prefix>) -> Result<seq<Addr>>)
    requires RegisterOutcome(nodes, node, ipPrefixes, allocate).Ok?
    requires |RegisterOutcome(nodes, node, ipPrefixes, allocate).value.node.ipAddresses| > 0
    ensures var first := RegisterOutcome(nodes, node, ipPrefixes, allocate).value;
            RegisterOutcome(first.table, first.node, ipPrefixes, allocate) == Ok(first)
  {
    var first := RegisterOutcome(nodes, node, ipPrefixes, allocate).value;
    SaveIdempotent(nodes, first.node);
    assert Save(nodes, first.node).node == first.node;
  }
}
