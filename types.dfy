/** Value types of the node registry: users, nodes, routes, keys, prefixes,
    errors and the change notifications handed to the distribution layer. */
module Types {

  datatype Option<+T> = None | Some(value: T)

  /** The errors the registry returns. `Collaborator` stands for an error
      produced by code outside the registry (normaliser, label validator,
      address allocator, random source) and passed through unchanged;
      `DatabaseError` stands for a failed database statement. */
  datatype Error =
    | NodeNotFound
    | NodeRouteIsNotAvailable
    | NodeNotFoundRegistrationCache
    | CouldNotConvertNodeInterface
    | DifferentRegisteredUser
    | UserNotFound
    | PrefixParseError(input: string)
    | Collaborator(message: string)
    | DatabaseError(statement: string)

  datatype Result<+T> = Ok(value: T) | Err(error: Error)

  /** Instants are nanoseconds since the Unix epoch; durations are nanoseconds. */
  type Time = int
  type Duration = int

  /** `time.Unix(0, 0)`, returned as the cursor when the expiry sweep fails. */
  const UnixEpoch: Time := 0

  /** Go's zero `time.Time` (January 1 of year 1), which counts as "no expiry". */
  const GoZeroTime: Time := -62135596800 * 1000000000

  /** Primary keys. A node whose id is 0 has never been stored. */
  type NodeId = nat
  type UserId = nat

  /** Keys are opaque; only their equality matters here. */
  datatype MachineKey = MachineKey(raw: nat)
  datatype NodeKey = NodeKey(raw: nat)

  datatype Family = IPv4 | IPv6
  datatype Addr = Addr(family: Family, bits: nat)
  datatype Prefix = Prefix(addr: Addr, length: nat)

  /** The default routes `0.0.0.0/0` and `::/0`, which take no part in primary election. */
  predicate IsExitRoute(p: Prefix) {
    p.addr.bits == 0 && p.length == 0
  }

  datatype User = User(id: UserId, name: string)

  /** A row of the node table. `ephemeral` stands for "registered with an
      ephemeral pre-auth key". */
  datatype Node = Node(
    id: NodeId,
    machineKey: MachineKey,
    nodeKey: NodeKey,
    hostname: string,
    givenName: string,
    userId: UserId,
    ipAddresses: seq<Addr>,
    forcedTags: seq<string>,
    expiry: Option<Time>,
    lastSeen: Option<Time>,
    ephemeral: bool,
    registerMethod: string
  )

  /** A node is expired when it has an expiry, that expiry is not Go's zero
      time, and the clock has passed it. */
  predicate IsExpired(n: Node, now: Time) {
    n.expiry.Some? && n.expiry.value != GoZeroTime && now > n.expiry.value
  }

  /** A row of the route table. */
  datatype Route = Route(
    id: nat,
    nodeId: NodeId,
    prefix: Prefix,
    advertised: bool,
    enabled: bool,
    isPrimary: bool
  )

  /** A minimal per-node delta: the node and its key expiry. */
  datatype PeerChange = PeerChange(nodeId: NodeId, keyExpiry: Option<Time>)

  /** A node as carried in a notification, with its route association loaded. */
  datatype ChangedNode = ChangedNode(node: Node, routes: seq<Route>)

  /** The change notification. `NoUpdate` is the zero value returned beside
      a `false` flag. */
  datatype StateUpdate =
    | NoUpdate
    | PeerChanged(changeNodes: seq<ChangedNode>)
    | PeerRemoved(removed: seq<NodeId>)
    | PeerChangedPatch(changePatches: seq<PeerChange>)
}
