# headscale node registry, modelled in Dafny

This project models the node registry of headscale, a self-hosted control
server for a WireGuard mesh network. The registry is `hscontrol/db/node.go`.
It stores the devices ("nodes") that have joined the network and the subnet
routes they advertise. It offers these operations:

- registering a node, either directly or from a pending entry left by an
  interactive login ("auth callback");
- setting a node's tags, display name ("given name"), keys, expiry and
  last-seen time;
- deleting a node together with its routes;
- listing a node's peers and looking a node up by owner and hostname;
- reading and enabling a node's routes;
- generating a DNS-safe given name that no other machine holds;
- two periodic sweeps: one garbage-collects ephemeral nodes that have gone
  quiet, the other tells peers about nodes whose key has expired.

The database holds three tables: nodes, routes and users. Each table is a
sequence in primary-key order. `Store.Store.Valid` requires this, and every
operation keeps it: updates keep each row's key in place, deletions keep the
order of the rest, and inserts go to their key's place. So "the first row that
matches" is the lowest-keyed one, as a SQL `First` query returns it.

The database is the class `Store.Store`. Its methods change the tables, each
as one transaction. Each method states the tables it leaves in terms of
functions of the other modules:

- `Tables`: the row-level statements (update by id, delete, save/upsert).
- `Tags`: tag de-duplication.
- `Naming`: given-name generation.
- `Routes`: route queries and route enabling.
- `Peers`: peer listing and lookup.
- `Registration`: what a registration saves.
- `Sweeps`: what the two sweeps compute.

The pending-registration cache is a second class, `Store.RegistrationCache`.
It is a map from machine key to the cached value.

Code outside the registry becomes a parameter:

- the clock: instants are integers in nanoseconds;
- the IP address allocator: a function of the node table and the configured
  prefixes;
- the prefix parser;
- the hostname normaliser and the random suffix it would produce;
- the DNS-label validator;
- the route uniqueness check behind primary-route election. It receives the
  other nodes' route rows.

Database failures are modelled only in the two sweeps and in `DeleteNode`,
where each possible failure is a parameter; see "## Left out".

## Model

| member | source | states |
|---|---|---|
| Tables.UpdateById | hscontrol/db/node.go:269 | `UPDATE … WHERE id = ?`: rows carrying the id get the new column value; every other row, the length, the row order and every id are unchanged; unique ids stay unique |
| Tables.RemoveNodes | hscontrol/db/node.go:289 | deleting rows by id keeps exactly the rows whose id is not deleted, never grows the table and keeps ids unique |
| Tables.RemoveNodesTwice | hscontrol/db/node.go:717-736 | deleting one batch of ids after another equals deleting their union (the sweep deletes node by node) |
| Tables.RemoveRoutesOf | hscontrol/db/node.go:284 | deleting a node's routes keeps exactly the route rows of other nodes |
| Tables.RemoveRoutesOfTwice | hscontrol/db/node.go:717-736 | route deletions for successive nodes compose into one deletion of the union |
| Tables.NextId | hscontrol/db/node.go:409 | the key an insert receives is positive and larger than every stored key |
| Tables.ReplaceById | hscontrol/db/node.go:381 | saving a node whose key is stored replaces exactly the rows with that key, in place; key order and unique keys are kept |
| Tables.InsertByKey | hscontrol/db/node.go:381 | an insert adds exactly the new row; a row whose key exceeds every stored key is appended |
| Tables.InsertByKeyOrdered | hscontrol/db/node.go:381 | inserting a row whose key is not stored keeps the table in key order |
| Tables.InsertByKeyUnique | hscontrol/db/node.go:381 | inserting a row whose key is not stored keeps keys unique |
| Tables.Save | hscontrol/db/node.go:381 | `Save` of a key-less node appends it under a fresh key, which the saved node carries. A keyed node replaces the stored row with its key in place, or is inserted at its key's place when there is none. Afterwards the saved node is the only row with its key, and the table stays in key order with unique keys |
| Tables.SaveIdempotent | hscontrol/db/node.go:377-393 | saving the node a save returned, into the table it left, changes nothing |
| Tables.GetUser | hscontrol/db/node.go:321 | the first user in table order with the name; `UserNotFound` exactly when no user has it |
| Tables.GetUserLowestKey | hscontrol/db/node.go:321 | in a user table in key order, the user found has the lowest key among the users with the name |
| Tables.NodesOfUser | hscontrol/db/node.go:108 | a user's listing holds exactly the stored nodes with that owner |
| Tables.NodesOfUserAfterRemove | hscontrol/db/node.go:706-707 | deleting nodes none of which belongs to a user leaves that user's listing as it was |
| Tags.Dedup | hscontrol/db/node.go:218-223 | the de-duplicated list holds exactly the requested tags, with no repeats and no more entries than requested |
| Tags.DedupKeepsFirstOccurrenceOrder | hscontrol/db/node.go:218-223 | tags appear in the order of their first occurrence in the request |
| Tags.DedupUnique | hscontrol/db/node.go:218-223 | any repeat-free list of the same tags in first-occurrence order is the de-duplicated list: the three properties determine it |
| Tags.DedupIdempotent | hscontrol/db/node.go:214-225 | de-duplicating twice equals de-duplicating once, so setting the same tags twice stores the same list |
| Store.Store.SetTags | hscontrol/db/node.go:209-230 | an empty request changes nothing; otherwise the node's forced tags become the de-duplicated request and nothing else changes |
| Store.Store.RenameNode | hscontrol/db/node.go:234-257 | a name the label rules reject is refused with their error and nothing changes; otherwise only the node's given name changes |
| Store.Store.NodeSetExpiry | hscontrol/db/node.go:266-270 | only the node's expiry changes, to the given instant |
| Store.Store.UpdateLastSeen | hscontrol/db/node.go:299-301 | only the node's last-seen instant changes |
| Store.Store.NodeSetNodeKey | hscontrol/db/node.go:423-427 | only the stored row of the node gets the new node key |
| Store.Store.NodeSetMachineKey | hscontrol/db/node.go:439-447 | only the stored row of the node gets the new machine key |
| Store.Store.DeleteNode | hscontrol/db/node.go:280-295 | the node's routes are deleted, then its row. A route-deletion failure changes nothing. A row-deletion failure leaves the routes gone and the row in place. An error is returned exactly when a step fails |
| Registration.RegisterOutcome | hscontrol/db/node.go:369-420 | a node with addresses is saved with them; otherwise it is saved with exactly the allocated addresses; an allocator error saves nothing. Every other field is saved as given, and the id is kept or freshly assigned |
| Registration.ExistingAddressesSkipAllocator | hscontrol/db/node.go:377-394 | for a node that already has addresses, the allocator makes no difference to the outcome |
| Registration.RegisterIdempotent | hscontrol/db/node.go:377-393 | registering the returned node again, against the table left behind, returns the same node and table |
| Store.Store.RegisterNode | hscontrol/db/node.go:369-420 | the node table becomes the one `RegisterOutcome` describes, and the saved node is returned; on an allocator error the table is unchanged |
| Registration.PrepareRegistration | hscontrol/db/node.go:319-359 | the error cases, each stated: no cache entry gives `NodeNotFoundRegistrationCache`; a non-node entry gives `CouldNotConvertNodeInterface`; an unknown user gives `UserNotFound`; a stored node (id ≠ 0) of another user gives `DifferentRegisteredUser`, exactly then. On success: the user's id and the method are set, the expiry is replaced only when one is given, and nothing else changes |
| Registration.ReRegistrationKeepsOwner | hscontrol/db/node.go:329-333 | a successful re-registration of a stored node keeps its owner |
| Store.Store.RegisterNodeFromAuthCallback | hscontrol/db/node.go:303-360 | on any error before saving, nothing is written. Otherwise the prepared node is registered as `RegisterNode` does. The cache entry is removed exactly when the result is a success |
| Routes.AdvertisedRoutes | hscontrol/db/node.go:463-485 | the prefixes are exactly those of the node's advertised route rows |
| Routes.EnabledRoutes | hscontrol/db/node.go:494-517 | the prefixes are exactly those of the node's advertised and enabled route rows |
| Routes.EnabledAreAdvertised | hscontrol/db/node.go:494-517 | every enabled prefix is also advertised |
| Routes.IsRoutesEnabled | hscontrol/db/node.go:519-539 | false for an unparsable string; otherwise true exactly when some advertised, enabled row of the node carries the prefix |
| Routes.NodeRoutes | hscontrol/db/node.go:609 | the node's route rows are read back: exactly the rows with its id |
| Routes.ParseRoutes | hscontrol/db/node.go:554-562 | Ok exactly when every string parses, position by position; otherwise the error names the first string that does not |
| Store.ParsePrefixes | hscontrol/db/node.go:554-562 | the parse loop returns what `ParseRoutes` specifies |
| Store.AllAvailable | hscontrol/db/node.go:569-577 | the validation loop succeeds exactly when every requested prefix is available |
| Routes.FindRoute | hscontrol/db/node.go:581-584 | the first row in table order with the node's id and the prefix, or none exactly when no such row exists |
| Routes.FindRouteLowestKey | hscontrol/db/node.go:581-584 | in a route table in key order, the row found has the lowest key among the node's rows with the prefix |
| Routes.FindRouteSameRows | hscontrol/db/node.go:580-602 | changing enabled and primary flags never changes which row a lookup finds |
| Store.AdvertisedAreFound | hscontrol/db/node.go:569-601 | after validation every requested prefix has a row, so the route-not-found error cannot occur |
| Routes.EnableAllMeetsRequest | hscontrol/db/node.go:580-602 | after the mutation loop, each requested prefix's row is enabled. A non-exit route's primary flag is the uniqueness verdict over the other nodes' rows; an exit route keeps its flag. Other nodes' rows, unrequested rows, and every column but the two flags are unchanged |
| Store.Store.EnableFound | hscontrol/db/node.go:580-602 | the mutation loop leaves the route table `EnableAll` describes |
| Store.Store.EnableRoutes | hscontrol/db/node.go:551-623 | all or nothing: a parse error or an unavailable prefix leaves the routes unchanged with that error. Otherwise the routes are enabled as `EnabledAsRequested` states, and the result announces the node with its routes read back |
| Naming.BuildGivenName | hscontrol/db/node.go:625-649 | normaliser errors are passed through, and so are random-source errors when a suffix is asked for. Without a suffix the result is the normalised name. With one, it is the first min(len, 53) characters, a hyphen and the 8-character suffix: at most 62 characters |
| Naming.NodesWithGivenName | hscontrol/db/node.go:86-98 | the listing holds exactly the nodes with that given name |
| Naming.LastHolder | hscontrol/db/node.go:674-679 | the last node in table order holding the name, or none exactly when no node holds it |
| Naming.LastHolderHighestKey | hscontrol/db/node.go:674-679 | in a node table in key order, the last holder has the highest key among the holders |
| Naming.LastHolderOfListing | hscontrol/db/node.go:668-679 | scanning the name's listing finds the same last holder as scanning the whole table |
| Naming.GenerateGivenName | hscontrol/db/node.go:660-693 | when the last holder of the normalised name is a different machine, the result is the suffixed name; otherwise it is the normalised name. Errors are passed through |
| Peers.NodesWithOtherKey | hscontrol/db/node.go:50-58 | exactly the nodes whose node key differs from the given node's; unique ids stay unique |
| Peers.SortById | hscontrol/db/node.go:61 | the sort yields an id-ordered permutation of its input |
| Peers.ListPeers | hscontrol/db/node.go:44-64 | the peers are exactly the nodes with another node key, as a multiset, ordered by id; strictly ordered when ids are unique |
| Peers.SortedPermutationOfUniqueIsStrict | hscontrol/db/node.go:61 | an id-ordered rearrangement of rows with unique ids is strictly ordered |
| Peers.StrictlySortedUnique | hscontrol/db/node.go:61 | two strictly id-ordered lists of the same rows are equal, so the peer order does not depend on how the sort breaks ties |
| Peers.FirstByHostname | hscontrol/db/node.go:113-117 | the first node of the listing with the hostname, or none exactly when no node has it |
| Peers.FirstByHostnameLowestKey | hscontrol/db/node.go:113-117 | in a key-ordered listing the first node with the hostname has the lowest key among those with it |
| Peers.GetNode | hscontrol/db/node.go:107-120 | `UserNotFound` exactly when no user has the name. For a known user, `NodeNotFound` exactly when none of the user's nodes has the hostname. Otherwise the first such node of the user's listing |
| Peers.GetNodeLowestKey | hscontrol/db/node.go:107-120 | in a key-ordered table the node found has the lowest key among the user's nodes with that hostname |
| Sweeps.ExpiredIds | hscontrol/db/node.go:717-721 | one user's contribution: exactly the ids of the listed nodes that are ephemeral and not seen within the threshold |
| Sweeps.EphemeralCandidates | hscontrol/db/node.go:705-739 | the reported ids are exactly those of stored expired ephemeral nodes owned by a walked user |
| Sweeps.ExpiredIdsDistinct | hscontrol/db/node.go:717-721 | with unique node keys in the listing, one user's contribution names no node twice |
| Tables.NodesOfUserUnique | hscontrol/db/node.go:108 | a user's listing of a table with unique keys has unique keys |
| Tables.NodesOfUserOrdered | hscontrol/db/node.go:108 | a user's listing of a key-ordered table is in key order |
| Sweeps.CandidatesDistinct | hscontrol/db/node.go:705-739 | with unique node and user keys, the ephemeral sweep reports each removed node at most once, across all users |
| Sweeps.OwnersDiffer | hscontrol/db/node.go:705-721 | an id reported for an earlier user is never one of a later user's nodes, since each node has one owner |
| Sweeps.ListedUsers | hscontrol/db/node.go:706-715 | the walk covers the users before the first listing failure, and all of them when there is none |
| Sweeps.EphemeralSweepRemovesExactlyExpired | hscontrol/db/node.go:717-736 | with no failures, a stored node survives exactly when it is not an owned, expired ephemeral node |
| Sweeps.ReportedIdIsThisNode | hscontrol/db/node.go:717-721 | with unique ids, a node's id is reported exactly when that node is an owned, expired ephemeral node |
| Sweeps.ReportedDespiteFailedDeletion | hscontrol/db/node.go:721-734 | an expired node is reported whatever its deletion does; its row goes exactly when the deletion succeeds |
| Sweeps.CandidatesOwned | hscontrol/db/node.go:705-739 | every reported id is that of a stored node of a walked user |
| Store.Store.SweepUser | hscontrol/db/node.go:706-736 | one user's turn: the reports grow by exactly that user's expired ephemeral nodes (`EphemeralCandidates` over one more user), and the node and route tables lose the rows of those whose deletion succeeded, as `DeleteNode` removes them |
| Store.Store.DeleteExpiredOf | hscontrol/db/node.go:717-736 | one user's inner loop reports `ExpiredIds` of the listing and deletes as `DeleteNode` does, node by node |
| Store.Store.ExpireEphemeralNodes | hscontrol/db/node.go:695-748 | deletes each reported node as `DeleteNode` does. A listing failure ends the sweep with no notification and false, keeping the deletions made so far. Otherwise the result is the removal notification of all reported ids, and true, when there are any |
| Sweeps.ExpiryPatches | hscontrol/db/node.go:768-777 | the patches are exactly those for the nodes that are expired now with an expiry after the cursor, carrying the expiry it had |
| Sweeps.ExpiryPatchesOnePerNode | hscontrol/db/node.go:768-777 | with unique node keys, no two patches name the same node: one patch per selected node |
| Sweeps.Stamped | hscontrol/db/node.go:779-785 | a selected node whose update succeeds gets the stamp as its expiry. Every other node is unchanged, and no field but the expiry ever changes |
| Sweeps.StampExpired | hscontrol/db/node.go:768-798 | the sweep's node table. Each row keeps its place and every field but the expiry. Each selected row whose update succeeds has the stamp as its expiry, and every other row is unchanged; key order is kept |
| Store.Store.StampRow | hscontrol/db/node.go:779-785 | one iteration's update: the rows up to and including this one are stamped as `Stamped` says, and the rest are as listed |
| Store.Store.ExpireExpiredNodes | hscontrol/db/node.go:750-808 | a listing failure returns the Unix epoch, no notification and false, with nothing changed. Otherwise: every selected node is reported, and stamped with the clock unless its update fails; the start instant is returned as the cursor; the result is true exactly when something was reported |
| Sweeps.StampedNodeReportedAgain | hscontrol/db/node.go:756-807 | as written: a stamped node is reported in one pass and, with the returned cursor, again in the next |
| Sweeps.ReportedAgainExample | hscontrol/db/node.go:756-807 | a concrete pair of passes that reports the same node twice |
| Sweeps.StampAtStartReportsOnce | hscontrol/db/node.go:756-807 | stamping with the start instant instead, the next pass reports no patch for a stamped node |

## Left out

- The `HSDatabase` wrappers and the read/write transaction plumbing: each `Store` method is one transaction.
- Concurrency, logging, preloading of associations and the cache's expiry timer.
- `GetNodeByID`, `GetNodeByMachineKey`, `GetNodeByAnyKey`, `ListNodes` as an operation of its own, and `NodeSave`.
- Database errors of single statements outside the sweeps and `DeleteNode`: saves, updates and listings are taken to succeed.
- The allocator's own rules for choosing free addresses, and uniqueness of addresses and given names across nodes: both rest on the allocator and the random source.
- Store.Store.DeleteNode: route deletion is modelled as removing the node's route rows. The failover that `deleteNodeRoutes` performs on other nodes' primary routes is not part of this model, because it lives outside this file.
- Store.Store.NodeSetNodeKey: the update that also writes the new key into the caller's in-memory node is not modelled. The same goes for the rule that skips a zero-valued key.
- Store.Store.NodeSetMachineKey: the same two points as for `NodeSetNodeKey`.
- Store.Store.ExpireEphemeralNodes: one clock reading `now` stands for the clock read once per node. Users' nodes are listed by the user's id rather than looked up again by name; with unique user names these agree.
- Store.Store.ExpireExpiredNodes: one reading `now` serves both for the expiry check and for the stamp, where the code reads the clock for each.
- Naming.BuildGivenName: lengths and the trim count characters, where Go counts bytes. The two agree for the ASCII names the normaliser produces.
- Naming.GenerateGivenName: the listing's database error is not modelled.
- Peers.GetNode: the listing's database error is not modelled.
- Peers.ListPeers: the query's database error is not modelled. Node keys are compared as values, where the code compares their string forms.
- Store.Store.RegisterNodeFromAuthCallback: the cache is keyed by the machine key rather than by its string form. The user association that is copied onto the node is reduced to the owner's id.
- Listings made with `Find` and no ORDER BY (`ListUsers`, `ListNodesByUser`, `listNodesByGivenName`, `ListNodes`) are taken to return rows in primary-key order. SQL leaves that order to the database, and the code relies on it: `getNode` returns the first hostname match of such a listing (hscontrol/db/node.go:108-117), and `GenerateGivenName` looks at the last given-name holder. The ephemeral sweep walks the users of `ListUsers` (hscontrol/db/node.go:698) in that order, which fixes the order of the ids in `PeerRemoved` and, through `Sweeps.ListedUsers`, which users are swept before a listing failure stops the walk. The route lookup at hscontrol/db/node.go:581-584 uses gorm's `First`, which itself orders by primary key, so `Routes.FindRoute` taking the lowest-keyed matching row follows from gorm. `GetUser` (called at hscontrol/db/node.go:321) is defined outside the node registry and is not part of this model; it is modelled as a `First` lookup by name in key order.
- Instants are unbounded integers, so time arithmetic cannot overflow as Go's `time.Time` can in principle.

## Findings

| source | as written | input that shows it | evidently intended | confidence | as-written member | corrected member |
|---|---|---|---|---|---|---|
| hscontrol/db/node.go:756-807 | each selected node's expiry is overwritten with a clock reading taken after `started`, while `started` is returned as the cursor for the next pass | one node with expiry 5. The pass with cursor 0 starts at 10 and stamps at 11. The next pass, with cursor 10, runs at 21 and reports the node again (now with expiry 11). Every later pass does the same | report each expiry once, as the cursor comment says, for example by stamping with `started` | not executed; medium | Sweeps.StampedNodeReportedAgain | Sweeps.StampAtStartReportsOnce |
