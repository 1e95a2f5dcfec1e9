/** The node, user and route tables as sequences in primary-key order, and
    the row-level statements the registry issues against them: update by
    id, delete by id, save (upsert), and the simple listings. */
module Tables {
  import opened Types

  ghost predicate UniqueNodeIds(nodes: seq<Node>) {
    forall i, j :: 0 <= i < j < |nodes| ==> nodes[i].id != nodes[j].id
  }

  ghost predicate UniqueUserIds(users: seq<User>) {
    forall i, j :: 0 <= i < j < |users| ==> users[i].id != users[j].id
  }

  /** A table in primary-key order, the order in which a query without an
      explicit ordering returns its rows; keys are then unique as well. */
  ghost predicate NodesKeyOrdered(nodes: seq<Node>) {
    forall i, j :: 0 <= i < j < |nodes| ==> nodes[i].id < nodes[j].id
  }

  ghost predicate UsersKeyOrdered(users: seq<User>) {
    forall i, j :: 0 <= i < j < |users| ==> users[i].id < users[j].id
  }

  ghost predicate RoutesKeyOrdered(routes: seq<Route>) {
    forall i, j :: 0 <= i < j < |routes| ==> routes[i].id < routes[j].id
  }

  /** The single-column updates issued with `Where("id = ?", id).Update(...)`
      or `Model(node).Updates(...)`. */
  datatype NodeUpdate =
    | SetForcedTags(tags: seq<string>)
    | SetGivenName(name: string)
    | SetExpiry(expiry: Time)
    | SetLastSeen(lastSeen: Time)
    | SetNodeKey(nodeKey: NodeKey)
    | SetMachineKey(machineKey: MachineKey)

  /** The row after one column update; the primary key never changes. */
  function Apply(n: Node, u: NodeUpdate): (r: Node)
    ensures r.id == n.id
  {
    match u
    case SetForcedTags(t) => n.(forcedTags := t)
    case SetGivenName(name) => n.(givenName := name)
    case SetExpiry(t) => n.(expiry := Some(t))
    case SetLastSeen(t) => n.(lastSeen := Some(t))
    case SetNodeKey(k) => n.(nodeKey := k)
    case SetMachineKey(k) => n.(machineKey := k)
  }

  /** `UPDATE nodes SET ... WHERE id = ?`: the matching rows change, all
      others stay as they were, in place. No row matches: nothing changes. */
  function UpdateById(nodes: seq<Node>, id: NodeId, u: NodeUpdate): (r: seq<Node>)
    ensures |r| == |nodes|
    ensures forall i :: 0 <= i < |r| ==>
              r[i] == if nodes[i].id == id then Apply(nodes[i], u) else nodes[i]
    ensures forall i :: 0 <= i < |r| ==> r[i].id == nodes[i].id
    ensures UniqueNodeIds(nodes) ==> UniqueNodeIds(r)
  {
    if nodes == [] then []
    else
      var head := if nodes[0].id == id then Apply(nodes[0], u) else nodes[0];
      var rest := UpdateById(nodes[1..], id, u);
      assert forall i :: 1 <= i <= |rest| ==> ([head] + rest)[i] == rest[i - 1];
      [head] + rest
  }

  /** `DELETE FROM nodes WHERE id IN ids`, keeping the order of the rest. */
  function RemoveNodes(nodes: seq<Node>, ids: set<NodeId>): (r: seq<Node>)
    ensures forall n :: n in r <==> n in nodes && n.id !in ids
    ensures |r| <= |nodes|
    ensures UniqueNodeIds(nodes) ==> UniqueNodeIds(r)
    ensures NodesKeyOrdered(nodes) ==> NodesKeyOrdered(r)
  {
    if nodes == [] then []
    else if nodes[0].id in ids then RemoveNodes(nodes[1..], ids)
    else
      var rest := RemoveNodes(nodes[1..], ids);
      assert UniqueNodeIds(nodes) ==> UniqueNodeIds([nodes[0]] + rest) by {
        if UniqueNodeIds(nodes) {
          HeadOutsideTail(nodes);
          PrependUnique(nodes[0], rest);
        }
      }
      assert NodesKeyOrdered(nodes) ==> NodesKeyOrdered([nodes[0]] + rest) by {
        if NodesKeyOrdered(nodes) {
          HeadBelowTail(nodes);
          PrependOrdered(nodes[0], rest);
        }
      }
      [nodes[0]] + rest
  }

  lemma HeadOutsideTail(nodes: seq<Node>)
    requires UniqueNodeIds(nodes) && nodes != []
    ensures UniqueNodeIds(nodes[1..])
    ensures forall m :: m in nodes[1..] ==> m.id != nodes[0].id
  {
    forall m | m in nodes[1..] ensures m.id != nodes[0].id {
      var k :| 0 <= k < |nodes[1..]| && nodes[1..][k] == m;
      assert nodes[k + 1] == m;
    }
  }

  lemma HeadBelowTail(nodes: seq<Node>)
    requires NodesKeyOrdered(nodes) && nodes != []
    ensures NodesKeyOrdered(nodes[1..])
    ensures forall m :: m in nodes[1..] ==> nodes[0].id < m.id
  {
    forall m | m in nodes[1..] ensures nodes[0].id < m.id {
      var k :| 0 <= k < |nodes[1..]| && nodes[1..][k] == m;
      assert nodes[k + 1] == m;
    }
  }

  lemma PrependUnique(h: Node, rest: seq<Node>)
    requires UniqueNodeIds(rest) && forall m :: m in rest ==> m.id != h.id
    ensures UniqueNodeIds([h] + rest)
  {
    forall i, j | 0 <= i < j < |[h] + rest| ensures ([h] + rest)[i].id != ([h] + rest)[j].id {
      assert ([h] + rest)[j] == rest[j - 1];
      if i > 0 {
        assert ([h] + rest)[i] == rest[i - 1];
      }
    }
  }

  lemma PrependOrdered(h: Node, rest: seq<Node>)
    requires NodesKeyOrdered(rest) && forall m :: m in rest ==> h.id < m.id
    ensures NodesKeyOrdered([h] + rest)
  {
    forall i, j | 0 <= i < j < |[h] + rest| ensures ([h] + rest)[i].id < ([h] + rest)[j].id {
      assert ([h] + rest)[j] == rest[j - 1];
      if i > 0 {
        assert ([h] + rest)[i] == rest[i - 1];
      }
    }
  }

  lemma RouteHeadBelowTail(routes: seq<Route>)
    requires RoutesKeyOrdered(routes) && routes != []
    ensures RoutesKeyOrdered(routes[1..])
    ensures forall rt :: rt in routes[1..] ==> routes[0].id < rt.id
  {
    forall rt | rt in routes[1..] ensures routes[0].id < rt.id {
      var k :| 0 <= k < |routes[1..]| && routes[1..][k] == rt;
      assert routes[k + 1] == rt;
    }
  }

  lemma PrependRouteOrdered(h: Route, rest: seq<Route>)
    requires RoutesKeyOrdered(rest) && forall rt :: rt in rest ==> h.id < rt.id
    ensures RoutesKeyOrdered([h] + rest)
  {
    forall i, j | 0 <= i < j < |[h] + rest| ensures ([h] + rest)[i].id < ([h] + rest)[j].id {
      assert ([h] + rest)[j] == rest[j - 1];
      if i > 0 {
        assert ([h] + rest)[i] == rest[i - 1];
      }
    }
  }

  /** Deleting one batch of ids after another is deleting their union. */
  lemma {:induction false} RemoveNodesTwice(nodes: seq<Node>, a: set<NodeId>, b: set<NodeId>)
    ensures RemoveNodes(RemoveNodes(nodes, a), b) == RemoveNodes(nodes, a + b)
  {
    if nodes != [] {
      RemoveNodesTwice(nodes[1..], a, b);
    }
  }

  /** `DELETE FROM routes WHERE node_id IN ids`, keeping the order of the rest. */
  function RemoveRoutesOf(routes: seq<Route>, ids: set<NodeId>): (r: seq<Route>)
    ensures forall rt :: rt in r <==> rt in routes && rt.nodeId !in ids
    ensures |r| <= |routes|
    ensures RoutesKeyOrdered(routes) ==> RoutesKeyOrdered(r)
  {
    if routes == [] then []
    else if routes[0].nodeId in ids then RemoveRoutesOf(routes[1..], ids)
    else
      var rest := RemoveRoutesOf(routes[1..], ids);
      assert RoutesKeyOrdered(routes) ==> RoutesKeyOrdered([routes[0]] + rest) by {
        if RoutesKeyOrdered(routes) {
          RouteHeadBelowTail(routes);
          PrependRouteOrdered(routes[0], rest);
        }
      }
      [routes[0]] + rest
  }

  lemma {:induction false} RemoveRoutesOfTwice(routes: seq<Route>, a: set<NodeId>, b: set<NodeId>)
    ensures RemoveRoutesOf(RemoveRoutesOf(routes, a), b) == RemoveRoutesOf(routes, a + b)
  {
    if routes != [] {
      RemoveRoutesOfTwice(routes[1..], a, b);
    }
  }

  /** The primary key an insert of a key-less row receives: larger than every stored key. */
  function NextId(nodes: seq<Node>): (id: NodeId)
    ensures id > 0
    ensures forall n :: n in nodes ==> n.id < id
  {
    if nodes == [] then 1
    else
      var rest := NextId(nodes[1..]);
      if nodes[0].id >= rest then nodes[0].id + 1 else rest
  }

  predicate HasNodeId(nodes: seq<Node>, id: NodeId) {
    exists n :: n in nodes && n.id == id
  }

  /** An insert: the row goes before the first row with a larger key, so a
      table in key order stays in key order. */
  function InsertByKey(nodes: seq<Node>, node: Node): (r: seq<Node>)
    ensures |r| == |nodes| + 1
    ensures forall n :: n in r <==> n in nodes || n == node
    ensures (forall n :: n in nodes ==> n.id < node.id) ==> r == nodes + [node]
  {
    if nodes == [] then [node]
    else if node.id < nodes[0].id then [node] + nodes
    else [nodes[0]] + InsertByKey(nodes[1..], node)
  }

  /** Inserting a row whose key is not stored keeps the table in key order. */
  lemma {:induction false} InsertByKeyOrdered(nodes: seq<Node>, node: Node)
    requires NodesKeyOrdered(nodes) && !HasNodeId(nodes, node.id)
    ensures NodesKeyOrdered(InsertByKey(nodes, node))
  {
    if nodes == [] {
    } else if node.id < nodes[0].id {
      HeadBelowTail(nodes);
      assert forall m :: m in nodes ==> m == nodes[0] || m in nodes[1..] by {
        assert nodes == [nodes[0]] + nodes[1..];
      }
      PrependOrdered(node, nodes);
    } else {
      HeadBelowTail(nodes);
      assert nodes[0] in nodes;
      InsertByKeyOrdered(nodes[1..], node);
      PrependOrdered(nodes[0], InsertByKey(nodes[1..], node));
    }
  }

  /** Inserting a row whose key is not stored keeps keys unique. */
  lemma {:induction false} InsertByKeyUnique(nodes: seq<Node>, node: Node)
    requires UniqueNodeIds(nodes) && !HasNodeId(nodes, node.id)
    ensures UniqueNodeIds(InsertByKey(nodes, node))
  {
    if nodes == [] {
    } else if node.id < nodes[0].id {
      PrependUnique(node, nodes);
    } else {
      HeadOutsideTail(nodes);
      assert nodes[0] in nodes;
      InsertByKeyUnique(nodes[1..], node);
      PrependUnique(nodes[0], InsertByKey(nodes[1..], node));
    }
  }

  /** An update in place: every row with the key of `node` becomes `node`. */
  function ReplaceById(nodes: seq<Node>, node: Node): (r: seq<Node>)
    requires HasNodeId(nodes, node.id)
    ensures |r| == |nodes|
    ensures forall i :: 0 <= i < |nodes| ==> r[i] == if nodes[i].id == node.id then node else nodes[i]
    ensures node in r
    ensures forall n :: n in r && n.id == node.id ==> n == node
    ensures UniqueNodeIds(nodes) ==> UniqueNodeIds(r)
    ensures NodesKeyOrdered(nodes) ==> NodesKeyOrdered(r)
  {
    var r := seq(|nodes|, i requires 0 <= i < |nodes| => if nodes[i].id == node.id then node else nodes[i]);
    var n :| n in nodes && n.id == node.id;
    var k :| 0 <= k < |nodes| && nodes[k] == n;
    assert r[k] == node;
    r
  }

  datatype Saved = Saved(table: seq<Node>, node: Node)

  /** gorm `Save`: a row with key 0 is inserted under a fresh key (which the
      saved value then carries); a row with a key replaces the stored row
      with that key in place, or is inserted at its key's place when there
      is none. */
  function Save(nodes: seq<Node>, node: Node): (r: Saved)
    ensures r.node == if node.id == 0 then node.(id := NextId(nodes)) else node
    ensures r.node.id != 0
    ensures r.node in r.table
    ensures forall n :: n in r.table && n.id == r.node.id ==> n == r.node
    ensures HasNodeId(nodes, r.node.id) ==>
              |r.table| == |nodes| &&
              forall i :: 0 <= i < |nodes| ==> r.table[i] == if nodes[i].id == r.node.id then r.node else nodes[i]
    ensures !HasNodeId(nodes, r.node.id) ==>
              |r.table| == |nodes| + 1 && forall n :: n in r.table <==> n in nodes || n == r.node
    ensures node.id == 0 ==> r.table == nodes + [r.node]
    ensures UniqueNodeIds(nodes) ==> UniqueNodeIds(r.table)
    ensures NodesKeyOrdered(nodes) ==> NodesKeyOrdered(r.table)
  {
    var stored := if node.id == 0 then node.(id := NextId(nodes)) else node;
    if HasNodeId(nodes, stored.id) then
      Saved(ReplaceById(nodes, stored), stored)
    else
      assert UniqueNodeIds(nodes) ==> UniqueNodeIds(InsertByKey(nodes, stored)) by {
        if UniqueNodeIds(nodes) { InsertByKeyUnique(nodes, stored); }
      }
      assert NodesKeyOrdered(nodes) ==> NodesKeyOrdered(InsertByKey(nodes, stored)) by {
        if NodesKeyOrdered(nodes) { InsertByKeyOrdered(nodes, stored); }
      }
      Saved(InsertByKey(nodes, stored), stored)
  }

  /** Saving the value a save returned changes nothing: re-registering an
      already stored node is idempotent. */
  lemma SaveIdempotent(nodes: seq<Node>, node: Node)
    ensures Save(Save(nodes, node).table, Save(nodes, node).node) == Save(nodes, node)
  {
    var s := Save(nodes, node);
    assert HasNodeId(s.table, s.node.id);
    var again := Save(s.table, s.node);
    forall i | 0 <= i < |s.table| ensures again.table[i] == s.table[i] {
      assert s.table[i] in s.table;
    }
  }

  /** `First(&user, "name = ?", name)`: the lowest-keyed user with that name. */
  function GetUser(users: seq<User>, name: string): (r: Result<User>)
    ensures r.Ok? ==> r.value in users && r.value.name == name
    ensures r.Ok? ==> exists k :: 0 <= k < |users| && users[k] == r.value &&
                        forall j :: 0 <= j < k ==> users[j].name != name
    ensures r.Err? <==> forall u :: u in users ==> u.name != name
    ensures r.Err? ==> r.error == UserNotFound
  {
    if users == [] then Err(UserNotFound)
    else if users[0].name == name then Ok(users[0])
    else
      var r := GetUser(users[1..], name);
      if r.Ok? then
        var k :| 0 <= k < |users[1..]| && users[1..][k] == r.value &&
                 forall j :: 0 <= j < k ==> users[1..][j].name != name;
        assert users[k + 1] == r.value;
        r
      else r
  }

  /** In a user table in key order, the user found is the lowest-keyed one with the name. */
  lemma {:induction false} GetUserLowestKey(users: seq<User>, name: string)
    requires UsersKeyOrdered(users) && GetUser(users, name).Ok?
    ensures forall u :: u in users && u.name == name ==> GetUser(users, name).value.id <= u.id
  {
    UserHeadBelowTail(users);
    if users[0].name != name {
      assert GetUser(users, name) == GetUser(users[1..], name);
      GetUserLowestKey(users[1..], name);
    }
  }

  lemma UserHeadBelowTail(users: seq<User>)
    requires UsersKeyOrdered(users) && users != []
    ensures UsersKeyOrdered(users[1..])
    ensures forall u :: u in users ==> u == users[0] || u in users[1..]
    ensures forall u :: u in users[1..] ==> users[0].id < u.id
  {
    forall u | u in users[1..] ensures users[0].id < u.id {
      var k :| 0 <= k < |users[1..]| && users[1..][k] == u;
      assert users[k + 1] == u;
    }
    assert users == [users[0]] + users[1..];
  }

  /** The nodes owned by one user, in table order. */
  function NodesOfUser(nodes: seq<Node>, userId: UserId): (r: seq<Node>)
    ensures forall n :: n in r <==> n in nodes && n.userId == userId
    ensures |r| <= |nodes|
  {
    if nodes == [] then []
    else if nodes[0].userId == userId then [nodes[0]] + NodesOfUser(nodes[1..], userId)
    else NodesOfUser(nodes[1..], userId)
  }

  /** Deleting nodes none of which belongs to a user leaves that user's listing as it was. */
  lemma {:induction false} NodesOfUserAfterRemove(nodes: seq<Node>, ids: set<NodeId>, userId: UserId)
    requires forall n :: n in nodes && n.userId == userId ==> n.id !in ids
    ensures NodesOfUser(RemoveNodes(nodes, ids), userId) == NodesOfUser(nodes, userId)
  {
    if nodes != [] {
      NodesOfUserAfterRemove(nodes[1..], ids, userId);
    }
  }

  /** A user's listing of a table with unique keys has unique keys. */
  lemma {:induction false} NodesOfUserUnique(nodes: seq<Node>, userId: UserId)
    requires UniqueNodeIds(nodes)
    ensures UniqueNodeIds(NodesOfUser(nodes, userId))
  {
    if nodes != [] {
      HeadOutsideTail(nodes);
      NodesOfUserUnique(nodes[1..], userId);
      if nodes[0].userId == userId {
        PrependUnique(nodes[0], NodesOfUser(nodes[1..], userId));
      }
    }
  }

  /** A user's listing of a key-ordered table is in key order. */
  lemma {:induction false} NodesOfUserOrdered(nodes: seq<Node>, userId: UserId)
    requires NodesKeyOrdered(nodes)
    ensures NodesKeyOrdered(NodesOfUser(nodes, userId))
  {
    if nodes != [] {
      HeadBelowTail(nodes);
      NodesOfUserOrdered(nodes[1..], userId);
      if nodes[0].userId == userId {
        PrependOrdered(nodes[0], NodesOfUser(nodes[1..], userId));
      }
    }
  }
}
