/** Read-only lookups over the node table: the peer list of a node and the
    lookup of a node by owner and hostname. */
module Peers {
  import opened Types
  import opened Tables

  ghost predicate SortedById(s: seq<Node>) {
    forall i, j :: 0 <= i < j < |s| ==> s[i].id <= s[j].id
  }

  function InsertById(sorted: seq<Node>, n: Node): seq<Node> {
    if sorted == [] || n.id <= sorted[0].id then [n] + sorted
    else [sorted[0]] + InsertById(sorted[1..], n)
  }

  lemma {:induction false} InsertByIdContents(sorted: seq<Node>, n: Node)
    ensures multiset(InsertById(sorted, n)) == multiset(sorted) + multiset{n}
  {
    if sorted != [] && n.id > sorted[0].id {
      InsertByIdContents(sorted[1..], n);
      assert sorted == [sorted[0]] + sorted[1..];
    }
  }

  lemma {:induction false} InsertByIdMembers(sorted: seq<Node>, n: Node)
    ensures forall x :: x in InsertById(sorted, n) <==> x in sorted || x == n
  {
    if sorted != [] && n.id > sorted[0].id {
      InsertByIdMembers(sorted[1..], n);
      assert sorted == [sorted[0]] + sorted[1..];
    }
  }

  lemma {:induction false} InsertByIdSorted(sorted: seq<Node>, n: Node)
    requires SortedById(sorted)
    ensures SortedById(InsertById(sorted, n))
  {
    var r := InsertById(sorted, n);
    if sorted == [] || n.id <= sorted[0].id {
      forall i, j | 0 <= i < j < |r| ensures r[i].id <= r[j].id {
        if i > 0 {
          assert r[i] == sorted[i - 1] && r[j] == sorted[j - 1];
        } else {
          assert r[j] == sorted[j - 1];
        }
      }
    } else {
      var rest := InsertById(sorted[1..], n);
      assert SortedById(sorted[1..]) by {
        forall i, j | 0 <= i < j < |sorted[1..]| ensures sorted[1..][i].id <= sorted[1..][j].id {
          assert sorted[1..][i] == sorted[i + 1] && sorted[1..][j] == sorted[j + 1];
        }
      }
      InsertByIdSorted(sorted[1..], n);
      InsertByIdMembers(sorted[1..], n);
      forall x | x in rest ensures sorted[0].id <= x.id {
        if x != n {
          var k :| 0 <= k < |sorted[1..]| && sorted[1..][k] == x;
          assert sorted[k + 1] == x;
        }
      }
      forall i, j | 0 <= i < j < |r| ensures r[i].id <= r[j].id {
        assert r[j] == rest[j - 1] && r[j] in rest;
        if i > 0 {
          assert r[i] == rest[i - 1];
        }
      }
    }
  }

  /** An insertion sort by node id: the `sort.Slice` of `ListPeers`. */
  function SortById(s: seq<Node>): (r: seq<Node>)
    ensures SortedById(r)
    ensures multiset(r) == multiset(s)
  {
    if s == [] then []
    else
      var rest := SortById(s[1..]);
      InsertByIdContents(rest, s[0]);
      InsertByIdSorted(rest, s[0]);
      assert s == [s[0]] + s[1..];
      InsertById(rest, s[0])
  }

  /** The rows whose node key differs from `nodeKey`, in table order. */
  function NodesWithOtherKey(nodes: seq<Node>, nodeKey: NodeKey): (r: seq<Node>)
    ensures forall n :: n in r <==> n in nodes && n.nodeKey != nodeKey
    ensures UniqueNodeIds(nodes) ==> UniqueNodeIds(r)
  {
    if nodes == [] then []
    else
      var rest := NodesWithOtherKey(nodes[1..], nodeKey);
      if nodes[0].nodeKey != nodeKey then
        assert UniqueNodeIds(nodes) ==> UniqueNodeIds([nodes[0]] + rest) by {
          if UniqueNodeIds(nodes) {
            HeadOutsideTail(nodes);
            PrependUnique(nodes[0], rest);
          }
        }
        [nodes[0]] + rest
      else rest
  }

  /** `ListPeers`: every stored node whose node key differs from the given
      node's, ordered by id. With unique ids the order is strict, so the
      result does not depend on how the sort breaks ties. */
  function ListPeers(nodes: seq<Node>, node: Node): (r: seq<Node>)
    ensures forall n :: n in r <==> n in nodes && n.nodeKey != node.nodeKey
    ensures multiset(r) == multiset(NodesWithOtherKey(nodes, node.nodeKey))
    ensures SortedById(r)
    ensures UniqueNodeIds(nodes) ==> NodesKeyOrdered(r)
  {
    var peers := NodesWithOtherKey(nodes, node.nodeKey);
    var r := SortById(peers);
    assert forall n :: n in r <==> n in multiset(r);
    assert UniqueNodeIds(nodes) ==> NodesKeyOrdered(r) by {
      if UniqueNodeIds(nodes) {
        SortedPermutationOfUniqueIsStrict(peers, r);
      }
    }
    r
  }

  lemma {:induction false} UniqueIdsOccurOnce(s: seq<Node>, x: Node)
    requires UniqueNodeIds(s)
    ensures multiset(s)[x] <= 1
  {
    if s != [] {
      assert s == [s[0]] + s[1..];
      UniqueIdsOccurOnce(s[1..], x);
      forall k | 0 <= k < |s[1..]| ensures s[1..][k] != s[0] {
        assert s[1..][k] == s[k + 1];
      }
    }
  }

  /** A sorted rearrangement of rows with unique ids is strictly sorted. */
  lemma SortedPermutationOfUniqueIsStrict(s: seq<Node>, r: seq<Node>)
    requires UniqueNodeIds(s)
    requires multiset(r) == multiset(s)
    requires SortedById(r)
    ensures NodesKeyOrdered(r)
  {
    forall i, j | 0 <= i < j < |r| ensures r[i].id < r[j].id {
      assert r[i] in multiset(s) && r[j] in multiset(s);
      assert r == r[..j] + r[j..];
      assert r[i] in r[..j] && r[j] in r[j..];
      if r[i] == r[j] {
        UniqueIdsOccurOnce(s, r[i]);
        assert multiset(r)[r[i]] == multiset(r[..j])[r[i]] + multiset(r[j..])[r[i]];
      } else {
        var a :| 0 <= a < |s| && s[a] == r[i];
        var b :| 0 <= b < |s| && s[b] == r[j];
        assert a != b;
      }
    }
  }

  lemma SameHeadById(a: seq<Node>, b: seq<Node>)
    requires forall x :: x in a <==> x in b
    requires NodesKeyOrdered(a) && NodesKeyOrdered(b)
    requires a != [] && b != []
    ensures a[0] == b[0]
  {
    var x, y := a[0], b[0];
    assert x in a && y in b;
    var ka :| 0 <= ka < |b| && b[ka] == x;
    var kb :| 0 <= kb < |a| && a[kb] == y;
    assert a[0].id <= a[kb].id && b[0].id <= b[ka].id;
    assert b[0].id == b[ka].id;
  }

  /** Any strictly id-ordered arrangement of the same rows is the one
      `ListPeers` returns: the order of the peer list is fully determined. */
  lemma {:induction false} StrictlySortedUnique(a: seq<Node>, b: seq<Node>)
    requires forall x :: x in a <==> x in b
    requires NodesKeyOrdered(a) && NodesKeyOrdered(b)
    ensures a == b
    decreases |a|
  {
    if a != [] { var x := a[0]; assert x in a; }
    if b != [] { var x := b[0]; assert x in b; }
    if a != [] && b != [] {
      SameHeadById(a, b);
      HeadBelowTail(a);
      HeadBelowTail(b);
      assert a == [a[0]] + a[1..] && b == [b[0]] + b[1..];
      forall x ensures x in a[1..] <==> x in b[1..] {
        if x in a[1..] {
          assert x in b && x != b[0];
        }
        if x in b[1..] {
          assert x in a && x != a[0];
        }
      }
      StrictlySortedUnique(a[1..], b[1..]);
    }
  }

  /** `n` is the first node of `listing` carrying the hostname. */
  ghost predicate IsFirstWithHostname(listing: seq<Node>, name: string, n: Node) {
    exists k :: 0 <= k < |listing| && listing[k] == n && n.hostname == name &&
      forall j :: 0 <= j < k ==> listing[j].hostname != name
  }

  /** The first node of a listing that carries the hostname. */
  function FirstByHostname(listing: seq<Node>, name: string): (r: Option<Node>)
    ensures r.None? <==> forall n :: n in listing ==> n.hostname != name
    ensures r.Some? ==> IsFirstWithHostname(listing, name, r.value)
  {
    if listing == [] then None
    else if listing[0].hostname == name then Some(listing[0])
    else
      var r := FirstByHostname(listing[1..], name);
      assert forall n :: n in listing <==> n == listing[0] || n in listing[1..];
      if r.Some? then
        var k :| 0 <= k < |listing[1..]| && listing[1..][k] == r.value && r.value.hostname == name &&
                 forall j :: 0 <= j < k ==> listing[1..][j].hostname != name;
        assert listing[k + 1] == r.value;
        r
      else r
  }

  /** `getNode`: list the nodes of the named user and return the first with
      the hostname. An unknown user is the lookup's error; no match is
      `NodeNotFound`. */
  function GetNode(nodes: seq<Node>, users: seq<User>, userName: string, name: string): (r: Result<Node>)
    ensures r == Err(UserNotFound) <==> forall u :: u in users ==> u.name != userName
    ensures GetUser(users, userName).Ok? ==>
              (r == Err(NodeNotFound) <==>
                forall n :: n in nodes && n.userId == GetUser(users, userName).value.id ==> n.hostname != name)
    ensures r.Err? ==> r.error in {UserNotFound, NodeNotFound}
    ensures r.Ok? ==> GetUser(users, userName).Ok?
    ensures r.Ok? ==> r.value in nodes && r.value.userId == GetUser(users, userName).value.id
    ensures r.Ok? ==> IsFirstWithHostname(NodesOfUser(nodes, GetUser(users, userName).value.id), name, r.value)
  {
    match GetUser(users, userName)
    case Err(e) => Err(e)
    case Ok(user) =>
      var listing := NodesOfUser(nodes, user.id);
      match FirstByHostname(listing, name)
      case None => Err(NodeNotFound)
      case Some(n) =>
        assert n in listing by {
          var k :| 0 <= k < |listing| && listing[k] == n && n.hostname == name &&
                   forall j :: 0 <= j < k ==> listing[j].hostname != name;
        }
        Ok(n)
  }

  /** In a key-ordered listing, the first node with the hostname has the
      lowest key among the nodes with that hostname. */
  lemma FirstByHostnameLowestKey(listing: seq<Node>, name: string)
    requires NodesKeyOrdered(listing) && FirstByHostname(listing, name).Some?
    ensures forall n :: n in listing && n.hostname == name ==> FirstByHostname(listing, name).value.id <= n.id
  {
    var found := FirstByHostname(listing, name).value;
    var k :| 0 <= k < |listing| && listing[k] == found && found.hostname == name &&
             forall j :: 0 <= j < k ==> listing[j].hostname != name;
    forall n | n in listing && n.hostname == name ensures found.id <= n.id {
      var m :| 0 <= m < |listing| && listing[m] == n;
      assert k <= m;
    }
  }

  /** In a key-ordered table, the node `getNode` finds has the lowest key
      among the user's nodes with that hostname. */
  lemma GetNodeLowestKey(nodes: seq<Node>, users: seq<User>, userName: string, name: string)
    requires NodesKeyOrdered(nodes)
    requires GetNode(nodes, users, userName, name).Ok?
    ensures var found := GetNode(nodes, users, userName, name).value;
            forall n :: n in nodes && n.userId == found.userId && n.hostname == name ==> found.id <= n.id
  {
    var user := GetUser(users, userName).value;
    var listing := NodesOfUser(nodes, user.id);
    NodesOfUserOrdered(nodes, user.id);
    FirstByHostnameLowestKey(listing, name);
    assert GetNode(nodes, users, userName, name) == Ok(FirstByHostname(listing, name).value);
  }
}
