/** What the two periodic sweeps compute: the ephemeral-node garbage
    collection and the key-expiry notification. The sweeps themselves are
    `Store` methods; this module gives the values they must produce and the
    properties of those values. The clock is a parameter. */
module Sweeps {
  import opened Types
  import opened Tables

  /** How one `DeleteNode` call goes: its route deletion or its row deletion
      may fail. The ephemeral sweep logs such a failure and carries on. */
  datatype DeleteFault = NoFault | RouteDeletionFails | NodeDeletionFails

  /** An ephemeral node that has been seen, and not within `threshold` of `now`. */
  predicate EphemeralExpired(n: Node, now: Time, threshold: Duration) {
    n.ephemeral && n.lastSeen.Some? && now > n.lastSeen.value + threshold
  }

  /** The ids one user's listing contributes to the removal notification, in listing order. */
  function ExpiredIds(listing: seq<Node>, now: Time, threshold: Duration): (r: seq<NodeId>)
    ensures forall id :: id in r <==>
              exists n :: n in listing && n.id == id && EphemeralExpired(n, now, threshold)
    ensures |r| <= |listing|
  {
    if listing == [] then []
    else
      var init, last := listing[..|listing| - 1], listing[|listing| - 1];
      assert listing == init + [last];
      var r := ExpiredIds(init, now, threshold);
      if EphemeralExpired(last, now, threshold) then r + [last.id] else r
  }

  /** The ids the ephemeral sweep reports after walking `users` in order:
      each user's expired ephemeral nodes, user after user. */
  function EphemeralCandidates(nodes: seq<Node>, users: seq<User>, now: Time, threshold: Duration): (r: seq<NodeId>)
    ensures forall id :: id in r <==>
              exists n :: n in nodes && n.id == id && EphemeralExpired(n, now, threshold) &&
                          exists u :: u in users && n.userId == u.id
  {
    if users == [] then []
    else
      var init, last := users[..|users| - 1], users[|users| - 1];
      assert users == init + [last];
      EphemeralCandidates(nodes, init, now, threshold) +
        ExpiredIds(NodesOfUser(nodes, last.id), now, threshold)
  }

  /** The number of users whose nodes the ephemeral sweep lists before a
      listing fails (all of them when none fails). */
  function ListedUsers(users: seq<User>, listNodesFails: UserId -> bool): (k: nat)
    ensures k <= |users|
    ensures forall j :: 0 <= j < k ==> !listNodesFails(users[j].id)
    ensures k < |users| ==> listNodesFails(users[k].id)
  {
    if users == [] || listNodesFails(users[0].id) then 0
    else 1 + ListedUsers(users[1..], listNodesFails)
  }

  /** The nodes whose row the sweep deletes: reported ones whose deletion succeeded. */
  function NodesGone(ids: seq<NodeId>, fault: NodeId -> DeleteFault): set<NodeId> {
    set id | id in ids && fault(id) == NoFault
  }

  /** The nodes whose routes the sweep deletes: reported ones whose route deletion succeeded. */
  function RoutesGone(ids: seq<NodeId>, fault: NodeId -> DeleteFault): set<NodeId> {
    set id | id in ids && fault(id) != RouteDeletionFails
  }

  /** With no failure, the sweep leaves no owned node that is an expired
      ephemeral node, and removes no other node. */
  lemma EphemeralSweepRemovesExactlyExpired(nodes: seq<Node>, users: seq<User>, now: Time, threshold: Duration)
    requires UniqueNodeIds(nodes)
    ensures var after := RemoveNodes(nodes, NodesGone(EphemeralCandidates(nodes, users, now, threshold), _ => NoFault));
            forall n :: n in nodes ==>
              (n in after <==> !(EphemeralExpired(n, now, threshold) && exists u :: u in users && n.userId == u.id))
  {
    var expired := EphemeralCandidates(nodes, users, now, threshold);
    var gone := NodesGone(expired, _ => NoFault);
    assert forall id :: id in gone <==> id in expired;
    var after := RemoveNodes(nodes, gone);
    forall n | n in nodes
      ensures n in after <==> !(EphemeralExpired(n, now, threshold) && exists u :: u in users && n.userId == u.id)
    {
      ReportedIdIsThisNode(nodes, users, now, threshold, n);
    }
  }

  /** With unique ids, a stored node whose id is reported is itself an owned expired ephemeral node. */
  lemma ReportedIdIsThisNode(nodes: seq<Node>, users: seq<User>, now: Time, threshold: Duration, n: Node)
    requires UniqueNodeIds(nodes) && n in nodes
    ensures n.id in EphemeralCandidates(nodes, users, now, threshold) <==>
              EphemeralExpired(n, now, threshold) && exists u :: u in users && n.userId == u.id
  {
    if n.id in EphemeralCandidates(nodes, users, now, threshold) {
      var m :| m in nodes && m.id == n.id && EphemeralExpired(m, now, threshold) &&
               exists u :: u in users && m.userId == u.id;
      var i :| 0 <= i < |nodes| && nodes[i] == n;
      var j :| 0 <= j < |nodes| && nodes[j] == m;
      assert i == j;
    }
  }

  /** A node is reported by the ephemeral sweep even when its deletion fails. */
  lemma ReportedDespiteFailedDeletion(nodes: seq<Node>, users: seq<User>, now: Time, threshold: Duration,
                                      fault: NodeId -> DeleteFault, n: Node, u: User)
    requires n in nodes && u in users && n.userId == u.id && EphemeralExpired(n, now, threshold)
    ensures n.id in EphemeralCandidates(nodes, users, now, threshold)
    ensures n.id in NodesGone(EphemeralCandidates(nodes, users, now, threshold), fault) <==> fault(n.id) == NoFault
  {
  }

  /** Every reported id belongs to a stored node of one of the walked users. */
  lemma CandidatesOwned(nodes: seq<Node>, users: seq<User>, now: Time, threshold: Duration, id: NodeId)
    requires id in EphemeralCandidates(nodes, users, now, threshold)
    ensures exists n :: n in nodes && n.id == id && exists u :: u in users && n.userId == u.id
  {
  }

  /** A list of node ids without repeats. */
  ghost predicate DistinctIds(ids: seq<NodeId>) {
    forall i, j :: 0 <= i < j < |ids| ==> ids[i] != ids[j]
  }

  lemma DistinctConcat(a: seq<NodeId>, b: seq<NodeId>)
    requires DistinctIds(a) && DistinctIds(b) && forall x :: x in a ==> x !in b
    ensures DistinctIds(a + b)
  {
    forall i, j | 0 <= i < j < |a + b| ensures (a + b)[i] != (a + b)[j] {
      if j >= |a| {
        assert (a + b)[j] == b[j - |a|];
        if i < |a| {
          assert (a + b)[i] == a[i] && a[i] in a;
        } else {
          assert (a + b)[i] == b[i - |a|];
        }
      }
    }
  }

  /** With unique keys in the listing, no id is reported twice for one user. */
  lemma {:induction false} ExpiredIdsDistinct(listing: seq<Node>, now: Time, threshold: Duration)
    requires UniqueNodeIds(listing)
    ensures DistinctIds(ExpiredIds(listing, now, threshold))
  {
    if listing != [] {
      var init, last := listing[..|listing| - 1], listing[|listing| - 1];
      assert listing == init + [last];
      ExpiredIdsDistinct(init, now, threshold);
      if EphemeralExpired(last, now, threshold) {
        forall x | x in ExpiredIds(init, now, threshold) ensures x !in [last.id] {
          var n :| n in init && n.id == x && EphemeralExpired(n, now, threshold);
          var k :| 0 <= k < |init| && init[k] == n;
          assert listing[k] == n;
        }
        DistinctConcat(ExpiredIds(init, now, threshold), [last.id]);
      }
    }
  }

  /** With unique node and user keys, the ephemeral sweep reports each node at most once. */
  lemma {:induction false} CandidatesDistinct(nodes: seq<Node>, users: seq<User>, now: Time, threshold: Duration)
    requires UniqueNodeIds(nodes) && UniqueUserIds(users)
    ensures DistinctIds(EphemeralCandidates(nodes, users, now, threshold))
  {
    if users != [] {
      var init, last := users[..|users| - 1], users[|users| - 1];
      assert users == init + [last];
      CandidatesDistinct(nodes, init, now, threshold);
      var listing := NodesOfUser(nodes, last.id);
      NodesOfUserUnique(nodes, last.id);
      ExpiredIdsDistinct(listing, now, threshold);
      forall x | x in EphemeralCandidates(nodes, init, now, threshold) ensures x !in ExpiredIds(listing, now, threshold) {
        OwnersDiffer(nodes, init, last, now, threshold, x);
      }
      DistinctConcat(EphemeralCandidates(nodes, init, now, threshold), ExpiredIds(listing, now, threshold));
    }
  }

  /** An id reported for an earlier user is not one of a later user's nodes. */
  lemma OwnersDiffer(nodes: seq<Node>, init: seq<User>, last: User, now: Time, threshold: Duration, x: NodeId)
    requires UniqueNodeIds(nodes) && UniqueUserIds(init + [last])
    requires x in EphemeralCandidates(nodes, init, now, threshold)
    ensures x !in ExpiredIds(NodesOfUser(nodes, last.id), now, threshold)
  {
    var n :| n in nodes && n.id == x && EphemeralExpired(n, now, threshold) &&
             exists u :: u in init && n.userId == u.id;
    var u :| u in init && n.userId == u.id;
    var ku :| 0 <= ku < |init| && init[ku] == u;
    assert (init + [last])[ku] == u && (init + [last])[|init|] == last;
    assert u.id != last.id;
    if x in ExpiredIds(NodesOfUser(nodes, last.id), now, threshold) {
      assert false;
    }
  }

  /** The expiry sweep's selection: expired at `now`, with an expiry after
      the previous sweep's cursor. */
  predicate ReportedExpired(n: Node, lastCheck: Time, now: Time) {
    IsExpired(n, now) && n.expiry.value > lastCheck
  }

  /** The patches the expiry sweep sends: one per selected node, carrying
      the expiry the node had, in table order. */
  function ExpiryPatches(nodes: seq<Node>, lastCheck: Time, now: Time): (r: seq<PeerChange>)
    ensures |r| <= |nodes|
    ensures forall pc :: pc in r <==>
              exists n :: n in nodes && ReportedExpired(n, lastCheck, now) && pc == PeerChange(n.id, n.expiry)
  {
    if nodes == [] then []
    else
      var init, last := nodes[..|nodes| - 1], nodes[|nodes| - 1];
      assert nodes == init + [last];
      var r := ExpiryPatches(init, lastCheck, now);
      if ReportedExpired(last, lastCheck, now) then r + [PeerChange(last.id, last.expiry)] else r
  }

  /** No two patches in `patches` name the same node. */
  ghost predicate OnePatchPerNode(patches: seq<PeerChange>) {
    forall i, j :: 0 <= i < j < |patches| ==> patches[i].nodeId != patches[j].nodeId
  }

  /** With unique keys, the expiry sweep sends at most one patch per node. */
  lemma {:induction false} ExpiryPatchesOnePerNode(nodes: seq<Node>, lastCheck: Time, now: Time)
    requires UniqueNodeIds(nodes)
    ensures OnePatchPerNode(ExpiryPatches(nodes, lastCheck, now))
  {
    if nodes != [] {
      var init, last := nodes[..|nodes| - 1], nodes[|nodes| - 1];
      assert nodes == init + [last];
      ExpiryPatchesOnePerNode(init, lastCheck, now);
      var r0 := ExpiryPatches(init, lastCheck, now);
      if ReportedExpired(last, lastCheck, now) {
        var r := r0 + [PeerChange(last.id, last.expiry)];
        assert ExpiryPatches(nodes, lastCheck, now) == r;
        forall i, j | 0 <= i < j < |r| ensures r[i].nodeId != r[j].nodeId {
          if j == |r0| {
            assert r[j].nodeId == last.id && nodes[|nodes| - 1] == last;
            assert r[i] == r0[i] && r0[i] in r0;
            var n :| n in init && ReportedExpired(n, lastCheck, now) && r0[i] == PeerChange(n.id, n.expiry);
            var k :| 0 <= k < |init| && init[k] == n;
            assert nodes[k] == n;
            assert n.id != last.id;
          } else {
            assert r[i] == r0[i] && r[j] == r0[j];
          }
        }
      } else {
        assert ExpiryPatches(nodes, lastCheck, now) == r0;
      }
    }
  }

  /** A node after the expiry sweep: a selected node whose update succeeds
      gets `stamp` as its expiry. */
  function Stamped(n: Node, lastCheck: Time, now: Time, stamp: Time, updateFails: NodeId -> bool): (r: Node)
    ensures ReportedExpired(n, lastCheck, now) && !updateFails(n.id) ==> r.expiry == Some(stamp)
    ensures !(ReportedExpired(n, lastCheck, now) && !updateFails(n.id)) ==> r == n
    ensures r.(expiry := n.expiry) == n
  {
    if ReportedExpired(n, lastCheck, now) && !updateFails(n.id) then n.(expiry := Some(stamp)) else n
  }

  /** The node table after the expiry sweep: rows keep their place and
      their key; every selected row whose update succeeds has the stamp as
      its expiry and no other change; every other row is unchanged. */
  function StampExpired(nodes: seq<Node>, lastCheck: Time, now: Time, stamp: Time, updateFails: NodeId -> bool): (r: seq<Node>)
    ensures |r| == |nodes|
    ensures forall i :: 0 <= i < |nodes| ==> r[i].(expiry := nodes[i].expiry) == nodes[i]
    ensures forall i :: 0 <= i < |nodes| && ReportedExpired(nodes[i], lastCheck, now) && !updateFails(nodes[i].id) ==>
              r[i].expiry == Some(stamp)
    ensures forall i :: 0 <= i < |nodes| && !(ReportedExpired(nodes[i], lastCheck, now) && !updateFails(nodes[i].id)) ==>
              r[i] == nodes[i]
    ensures NodesKeyOrdered(nodes) ==> NodesKeyOrdered(r)
  {
    seq(|nodes|, i requires 0 <= i < |nodes| => Stamped(nodes[i], lastCheck, now, stamp, updateFails))
  }

  /** The sweep as written stamps a selected node with the clock read after
      the sweep started, yet returns the start as the next cursor. So when
      that cursor is passed back, every node the first pass stamped is
      selected, and reported, again by the next pass. */
  lemma {:induction false} StampedNodeReportedAgain(
    nodes: seq<Node>, lastCheck: Time, started: Time, now: Time, next: Time,
    updateFails: NodeId -> bool, k: nat)
    requires UnixEpoch <= started < now < next
    requires k < |nodes| && ReportedExpired(nodes[k], lastCheck, now) && !updateFails(nodes[k].id)
    ensures PeerChange(nodes[k].id, nodes[k].expiry) in ExpiryPatches(nodes, lastCheck, now)
    ensures var after := StampExpired(nodes, lastCheck, now, now, updateFails);
            PeerChange(nodes[k].id, Some(now)) in ExpiryPatches(after, started, next)
  {
    assert nodes[k] in nodes;
    var after := StampExpired(nodes, lastCheck, now, now, updateFails);
    assert after[k] == nodes[k].(expiry := Some(now));
    assert after[k] in after;
    assert ReportedExpired(after[k], started, next);
  }

  /** A concrete run: a node whose key expired at 5 is reported by the pass
      that starts at 10 and by the pass that starts at 20. */
  lemma ReportedAgainExample()
    ensures var n := Node(1, MachineKey(1), NodeKey(1), "laptop", "laptop", 1, [], [], Some(5), None, false, "cli");
            && ExpiryPatches([n], 0, 11) == [PeerChange(1, Some(5))]
            && ExpiryPatches(StampExpired([n], 0, 11, 11, _ => false), 10, 21) == [PeerChange(1, Some(11))]
  {
    var n := Node(1, MachineKey(1), NodeKey(1), "laptop", "laptop", 1, [], [], Some(5), None, false, "cli");
    assert [n][..0] == [];
    var after := StampExpired([n], 0, 11, 11, _ => false);
    assert after == [n.(expiry := Some(11))];
    assert after[..0] == [];
  }

  /** Stamping with the start instant instead, which is the cursor the sweep
      returns, a stamped node is not selected by the next pass: each
      expiry is reported once. */
  lemma {:induction false} StampAtStartReportsOnce(
    nodes: seq<Node>, lastCheck: Time, started: Time, now: Time, next: Time,
    updateFails: NodeId -> bool, k: nat)
    requires UniqueNodeIds(nodes)
    requires k < |nodes| && ReportedExpired(nodes[k], lastCheck, now) && !updateFails(nodes[k].id)
    ensures var after := StampExpired(nodes, lastCheck, now, started, updateFails);
            && after[k].expiry == Some(started)
            && forall pc :: pc in ExpiryPatches(after, started, next) ==> pc.nodeId != nodes[k].id
  {
    var after := StampExpired(nodes, lastCheck, now, started, updateFails);
    assert after[k] == nodes[k].(expiry := Some(started));
    forall pc | pc in ExpiryPatches(after, started, next) ensures pc.nodeId != nodes[k].id {
      var n :| n in after && ReportedExpired(n, started, next) && pc == PeerChange(n.id, n.expiry);
      var i :| 0 <= i < |after| && after[i] == n;
      if i != k {
        assert after[i].id == nodes[i].id != nodes[k].id;
      }
    }
  }
}
