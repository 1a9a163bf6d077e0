# Verification of the Chord ring

This project models the Chord distributed hash table of package `chord` and
proves properties of it in Dafny: the stabilisation protocol over all
interleavings, routing, successor lists with failover, finger ids, and the
replicated key-value store.

`dafny verify dfyconfig.toml` checks everything.

## Layout

| file | content |
|---|---|
| Circle.dfy | the identifier circle: arcs, ring neighbours, owners, chains |
| Ident.dfy | ids as byte strings; byte comparisons are arc tests on numbers and on positions |
| Walks.dfy | reachability along successor pointers without overshooting |
| Stabilize.dfy | create, join, stabilize and notify as interleaved steps; one ring for ever |
| Converge.dfy | the measure that every pointer change lowers; quiescence; convergence of fair runs |
| Routing.dfy | findSuccessor across nodes; safety, termination, agreement with the slow walk |
| Hops.dfy | the number of remote calls of a lookup with exact successor lists |
| SuccLists.dfy | list reconciliation, its convergence, and failover after crashes |
| Fingers.dfy | finger ids, and exactly when looking them up by bytes is right |
| Store.dfy | the store: groups, handlers, messages, put and get |
| Groups.dfy | 64-bit group keys, and group membership at one node over all its events |
| Replication.dfy | effect of replica messages; agreement of copies with their owner |
| Refine.dfy | the cluster refines one map: put, get, join |
| Crash.dfy | one crash and its failover |
| History.dfy | all histories of writes, messages, joins, crashes and take-overs |
| Whole.dfy | one machine of the protocol and the lists, up to exact routing |
| Node.dfy | one node as a class with the code's fields, methods and loops |

## How the model is built

* **Ids.** An id is a byte string in `Ident`. The other modules use its
  position, an integer with the same order; `Ident.BetweenIsPosition` and
  `Ident.CompareIsPosition` show that the byte tests and the tests on positions
  agree, also for finger ids that are shorter than node ids.
* **One node.** `ChordNode.Node` has the fields of the code's node that the
  protocols use. Its methods are proved against functions on values
  (`Routing.Closest`, `SuccLists.Failover`, `Store.Coordinated`, ...); the claims
  about many nodes are lemmas about the same functions.
* **Remote calls.** In the class, a remote call is a function parameter that
  gives each node's reply, `None` when the call fails, and messages whose reply is
  ignored are returned in sending order. Across nodes, a lookup is a recursion
  with a `budget` that stands for the call's time limit, and a crashed node is
  one that is not in the map of live nodes.
* **Interleaving.** `Stabilize` splits `stabilize` where it waits for a remote
  call. Notifications stay in flight and may be delivered late, twice or never,
  and a `GetPredecessor` call may be given up. A `GetSuccessorList` call may fail
  although the successor is alive; the node then takes another node as successor.
  A run is any sequence of events; an event that cannot happen changes nothing.
  `Whole` adds the steps of the lists (reading a reply, taking it over) and of the
  fingers to the same runs.
* **Groups.** Replica groups are found by the low 64 bits of an id, in the class
  and in the handlers, for ids of any width. Two ids can share a group; the
  results about clusters ask that no two of the ids that take part do
  (`Store.KeysApart`), which holds of any ids exactly up to eight bytes
  (`Groups.ApartIffShort`).
* **Histories.** A cluster stands for the one map of what the owners of the keys
  hold (`History.Serves`). Every event of a history changes that map in a
  definite way (`History.Changed`): crashes may lose keys, and a take-over brings
  back what the copy holds, over what was written since. `History.Lossless` says
  when the writes alone make the map.
* **Hash and distance.** The hash of a key is an arbitrary function to
  positions. The ring distance used for evicting groups is an arbitrary function
  of group numbers that is zero exactly for equal ones.
* **Lists.** `successorList[0] == successor` is an explicit hypothesis
  (`Routing.HeadIsSucc`): between node.go:370 and the next reconciliation it can
  be false. `SuccLists.ListsConverge` and `SuccLists.FailoverRestoresRing`
  re-establish it.

## Where the code and its documentation differ

* node.go:615-616 says that `initSuccessorList` is only used by the creator of
  the ring; `join` uses it too (node.go:319). The model follows the code.
* scripts/experiments/README.md:64-66 says that replicas are spread only by the
  periodic rounds; `put` also sends the new entry at once (node.go:687-688). The
  model follows the code.
* `closestPrecedingNode` tests a finger's start id, not its node
  (node.go:524), so the finger's node may lie beyond the key. The comparison at
  node.go:555 makes the choice safe as long as some usable list entry exists;
  that is the hypothesis of `Routing.ClosestInside`.
* finger.go:49 promises (n+2^i) mod 2^m. `fingerMath` drops leading zero bytes
  (finger.go:62), and a lookup by bytes then misses the node that the number
  names. `Fingers.FingerReadingIff` gives the exact condition, and
  `Fingers.ShortIdMisleads` a ring on which it fails.
* Replica groups are keyed by 64 bits of an id. `Ident.GroupKeysDistinctIff`
  and `Groups.ApartIffShort` show that this keeps ids apart exactly up to eight
  bytes; beyond, a leader's replica messages can reach another node's own group
  (`Groups.ReplicaSparesOwnIff`).
* node.go:306-307 says that a newcomer announces itself on its first `stabilize`.
  It does so only if the reconciled list differs from the one that `join` filled
  with its successor (node.go:446-462): `Store.NewcomerAnnouncesIff`. With
  `SuccessorListSize` 1 that does not happen until the successor changes, and the
  old owner keeps the keys it handed over: `Refine.JoinConservesIff`.
* replica.go:44-45 keeps a node in r + 1 groups. With r = 0 and the group number 0
  the eviction takes the node's own group: `Groups.OwnGroupIff`.
* node.go:400-412 takes the next list entry when a `GetSuccessorList` call fails,
  also when the successor is alive. It is then on no cycle of successors until
  the node's next `stabilize`: `Whole.FailedCallLeavesRing` and
  `Converge.TimeoutHeals`. The invariant of the ring survives such a call exactly
  when the entry does not lie beyond the creator: `Stabilize.FailedCallIff`.
* node.go:383-389 says that a failed successor is replaced by the next list entry.
  The loop starts at the second entry, as if the first were the successor; after
  an adoption (node.go:370) it is not, and is never asked
  (`SuccLists.FailoverRepliesIff`). With `SuccessorListSize` 1 the node then keeps
  a dead successor although its list entry is alive.
* node.go:582-583 moves the copy of a dead predecessor into the own group. A key
  of it that was written at the successor since the crash goes back to its old
  value, there and at the replicas: `History.LateTakeOverOverwrites`;
  `History.LateTakeOverIff` has the exact condition under which nothing is lost.

## Model

| member | source | states |
|---|---|---|
| Ident.BetweenIsClockwise | util.go:88-98 | for ids of one width, strictly between is: distance from a to the key modulo 256^width is positive and below the distance from a to b, a full turn when a = b |
| Ident.CompareIsNumeric | util.go:88-98 | byte order is numeric order on ids of one width, and equal numbers are equal ids |
| Ident.BetweenIsPosition | util.go:79-98 | byte tests are arc tests on positions, for strings of any width up to w |
| Ident.ArcsPartition | util.go:79-98 | for a != b the arcs (a,b] and (b,a] split all byte strings |
| Ident.CircularOrder | util.go:88-98 | the test is a cyclic order: cyclicity, asymmetry, transitivity |
| Ident.Uint64RoundTrip | util.go:160-168 | a 64-bit group key survives the trip through its byte string, and no string of the same number is shorter |
| Ident.GroupKeysDistinctIff | util.go:160-163 | group keys keep ids of w bytes apart if and only if w is at most 8 |
| Stabilize.StepInv | node.go:267-380 | every step but a failed GetSuccessorList call keeps the inductive invariant and every walk, in any interleaving |
| Stabilize.ReachForever | node.go:358-379 | in runs without failed calls, once p reaches q along successor pointers it does so in every later state |
| Stabilize.StepKeepsRing | node.go:267-419 | every step, failed GetSuccessorList calls to live successors included, keeps the invariant that all nodes walk to the creator, as long as no failed call makes a node pass over the creator |
| Stabilize.FailedCallIff | node.go:398-412 | a failed call keeps that invariant if and only if the entry taken does not lie beyond the creator |
| Stabilize.OneRing | node.go:267-419 | in every state of such a run there is one cycle, through the creator, once round the circle clockwise, and every node arrives at it |
| Stabilize.RingIsOrdered | node.go:358-379 | on that ring every successor is the next ring node clockwise |
| Stabilize.JoinTakesAnswer | node.go:287-317 | a newcomer's successor is the one that the node that answered its lookup had then, however much happens in between; nobody else's pointers change, and it knows no predecessor |
| Converge.JoinFindsPlace | node.go:287-317 | a newcomer that joins an ideal ring through any node gets the next node of the larger ring |
| Stabilize.PredsWereNotified | rpc.go:314-323 | in any run from one create a node knows as predecessor only a node that has notified it |
| Stabilize.GivenUpIsOver | node.go:358-363 | a call that was given up and a notification that was lost have no effect |
| Walks.AdoptKeepsReach | node.go:365-372 | adopting a node that lies between and still reaches the old successor keeps every walk |
| Walks.OneCycle | node.go:369-371 | a node on any cycle lies on the one cycle that all nodes walk to |
| Converge.StepLowersMeasure | node.go:367-379 | a step other than a join or a failed call changes no pointer or lowers the sum of clockwise distances, once every waiting node has asked its current successor |
| Converge.NoFailuresCalm | node.go:347-357 | in runs without failed calls every waiting node has asked its current successor |
| Converge.ChangesBounded | rpc.go:318-321 | once joins and failed calls stop, a run of any length changes at most as many pointers as the measure says |
| Converge.QuietIffIdeal | node.go:332-380 | a full stabilize by every node changes nothing if and only if all successors and predecessors are the true neighbours |
| Converge.IdealIsStill | node.go:365-379 | on an ideal ring only joins and failed calls change pointers, whatever replies and notifications are under way |
| Converge.StillIsIdeal | node.go:332-380 | an undisturbed stretch of a run that changes no pointer, and in which every node completes a stabilize with its notification, in any interleaving, starts from an ideal ring |
| Converge.FairRunConverges | node.go:186-199 | an undisturbed run of more such fair stretches than the measure ends in an ideal ring of the same nodes |
| Converge.FairRunRecovers | node.go:186-199 | so does any state that failed calls have led to, after one fair stretch more |
| Converge.RoundIsFair | node.go:186-199 | a round of undisturbed stabilizes of all nodes in any order is a fair stretch |
| Converge.RoundsConverge | node.go:186-199 | in particular more rounds than the measure, each node stabilising in any order, make the ring ideal |
| Converge.TimeoutHeals | node.go:352-379 | after a failed call on an ideal ring the node's next undisturbed stabilize gives back exactly the pointers from before |
| Converge.FailoverIsKept | node.go:347-379 | a failover made in the same tick is kept even if the old successor still answers: the node ends with the entry it took, or a node that the old successor names in between, and notifies that one |
| Routing.ClosestInside | node.go:513-561 | with a usable list entry inside (n, key) the chosen node lies strictly inside and is not excluded, whatever the fingers hold |
| Routing.FingerScanFound | node.go:519-528 | the finger scan finds the last finger that starts in (n, key) and whose node is not excluded |
| Routing.ListScanFound | node.go:533-542 | the list scan finds the last entry inside (n, key) that is not excluded |
| Routing.ClosestIsNearer | node.go:545-559 | neither found candidate inside (n, key) lies between the chosen node and the key |
| Routing.ClosestKnown | node.go:545-559 | the chosen node is the node itself or one of its entries |
| Routing.SecondTry | node.go:486-495 | when the best choice does not answer, the best one without it is asked, fingers included; it is another node inside (n, key) as long as the list has one |
| Routing.AnswerHasWitness | node.go:478-503 | every answer is the successor of a live node whose successor arc holds the key |
| Routing.StableAnswerIsOwner | node.go:478-503 | on a stable ring no lookup returns a wrong node, with any fingers, lists, crashed entries and time limits |
| Routing.ForwardIsNearer | node.go:486-495 | a forward goes to a live node strictly nearer to the key, at the latest on the second try |
| Routing.LookupCompletes | node.go:478-503 | lookups end with an answer on rings that are not ideal, with one crashed node still in the tables |
| Routing.LookupFindsOwner | rpc.go:289-291 | on a stable ring every lookup returns the first node at or after the key |
| Routing.LongerLimit | rpc.go:84-100 | a longer time limit never makes a lookup fail that ends with an answer |
| Routing.FastRouteIsWalk | node.go:470-503 | the fast route equals the successor-by-successor walk |
| Hops.LookupHops | node.go:478-561 | with exact lists of length r, a lookup with k nodes in between makes at most ceil(k/r) remote calls in all, failed ones counted, and finds the owner |
| Hops.EnoughCalls | node.go:478-503 | as many nested calls as a lookup makes in all are enough for it to end |
| Hops.HopSkips | node.go:531-543 | one forward passes r live nodes or all that are left |
| SuccLists.MoveKeepsLists | node.go:397-443 | no step of the lists, reading a reply or taking over one read earlier, shortens the smallest right prefix |
| SuccLists.StretchGrows | node.go:391-443 | a stretch in which every node reads and takes over a list, in any interleaving, makes one entry more right everywhere |
| SuccLists.ListsConverge | rpc.go:340-344 | after r such stretches all successor lists are exact, whatever lists and replies under way held |
| SuccLists.ReplyUsedOnce | node.go:397-415 | a reply is used once, and not at all when it was given up |
| SuccLists.FailoverRepliesIff | node.go:391-417 | the retry loop gets a reply if and only if the current successor or an entry after the first is alive (the first is not asked unless it is the successor), and else ends on the last entry |
| SuccLists.FailoverStops | node.go:394-416 | a current successor that answers stays, whatever the list says; otherwise the loop stops at the first live entry after the index |
| SuccLists.RecoveredGrows | node.go:428-443 | the list taken over is right in one entry more than the reply was |
| SuccLists.RetryRecovers | node.go:394-408 | a node that gets no reply keeps its list and recovers as soon as an entry after the first is alive again |
| SuccLists.FailoverFindsNextSurvivor | node.go:391-419 | from an exact list with a live entry the loop sets the next survivor as successor |
| SuccLists.FailoverRestoresRing | node.go:391-443 | after any such crashes the survivors form a stable ring whose list heads agree with the successors |
| Fingers.FingerReadingIff | finger.go:52-63 | looking a finger id up by bytes is right on every ring if and only if its number is zero or fills all bytes |
| Fingers.ShortIdMisleads | finger.go:62 | for every short non-zero finger id, a ring on which the byte lookup misses the node of that number |
| Fingers.FixFingerFindsNode | finger.go:70-80 | on a stable ring fixFinger finds the first node at or after (n + 2^i) mod 2^m under that condition |
| Fingers.FixFingerMisses | finger.go:70-80 | for every other finger id there are rings on which what fixFinger finds, on any stable net, is not that node |
| Fingers.Pow2Laws | finger.go:52-54 | the powers in the finger formula: 2^0 = 1, 2^1 = 2, 2^(i+j) = 2^i * 2^j |
| Fingers.FingerIsAhead | finger.go:47-63 | the i-th finger id lies exactly 2^i ahead of the node on the ring of 256^w numbers |
| Groups.FarthestIsOther | replica.go:58-83 | with another group present any farthest group is present and is not the node's own |
| Groups.MessageSetsMembership | rpc.go:356-428 | the exact groups after any message: unchanged after the node's own; else the new leader's is there, with its data or empty; a new node costs the farthest group once there are r + 1, never the own; a leader change costs the old leader's; all others are untouched |
| Groups.AddRgKeeps | replica.go:15-29 | an added group is empty unless it was there already, and no other is touched |
| Groups.NewNodeGroupCount | rpc.go:364-381 | the new-node branch does not raise the number of groups above the larger of its old value and r + 1 |
| Groups.OwnGroupStaysIff | rpc.go:358-428 | a message takes the receiver's own group if and only if it names that group as failed and another as leader |
| Groups.OwnGroupIff | replica.go:41-83 | over all events of a node, except those that name its own group as that of a failed node, its own group exists if and only if r >= 1 or its group number is not 0 |
| Groups.ApartIffShort | util.go:160-163 | group keys keep any ids of w bytes apart if and only if w is at most 8 |
| Groups.ReplicaSparesOwnIff | rpc.go:469-515 | replica and removal messages leave the receiver's own group alone if and only if the leader has another key |
| Store.NewcomerAnnouncesIff | node.go:446-462 | a newcomer announces itself to its successor if and only if that node's list does not start with r - 1 times itself, so not with r = 1; otherwise it sends nothing |
| Store.NewAtFirstChange | node.go:446-462 | at the first change of its list a newcomer announces itself as new to every node of the list, however many ticks changed nothing before |
| Store.NewOnlyOnce | node.go:451-455 | over any sequence of list changes all later announcements name the node itself as the old leader |
| Replication.ReplicasDelivered | rpc.go:469-488 | after a broadcast each listed copy holds the entries, and nothing else has changed anywhere |
| Replication.RemovalsDelivered | rpc.go:496-515 | the same for removals |
| Replication.PutKeepsAgreement | replica.go:86-112 | every owner's copies still equal its own map after any put |
| Replication.RemovalKeepsAgreement | rpc.go:389-397 | the receiver's copies still equal its own map after the key removal that a new predecessor causes |
| Replication.EvictionAgreementIff | rpc.go:375-381 | copies of any other owner stay exact if and only if the receiver is none of them or does not evict that group |
| Replication.AnnounceMakesAgreement | node.go:446-466 | announcing, as a newcomer or again, and then sending all data leaves exact copies at all live nodes of the list, if and only if none of them held a key that the node does not have |
| Replication.ListNewsMakesAgreement | node.go:446-466 | the same of what is really sent at any list change, first or later |
| Replication.DistantNodeTakesNothing | rpc.go:383 | a new node that lies before the known predecessor takes no key, whatever the receiver holds, and no removals are sent |
| Refine.LocateIsOwner | node.go:703-711 | every node locates the owner, so the owner's own locate names itself |
| Refine.PutReachesOwner | node.go:672-695 | a put at any node is the local put at the owner |
| Refine.PutRefines | node.go:684-689 | a put is a write to the abstract map; routing is untouched |
| Refine.GetReachesOwner | node.go:634-662 | a get at any node is the local read at the owner |
| Refine.ServesAsOneMap | node.go:634-695 | any sequence of puts and gets at any nodes is answered as one map would |
| Refine.NewNodeKeepsOwnedKey | rpc.go:383-398 | no new-node message makes the receiver delete a key that it owns, whatever predecessor it holds |
| Refine.NewNodeMessageSafe | rpc.go:364-398 | the abstract map is unchanged by such a message |
| Refine.ShareSplits | rpc.go:453-459 | what is handed over and what is kept are disjoint, together everything, and the two new shares |
| Refine.JoinHandsOver | node.go:298-313 | a node that joins at the owner of its id starts with exactly the keys it owns on the larger ring, and all others still hold theirs |
| Refine.JoinConservesIff | rpc.go:364-398 | after join, the newcomer's first list change and its messages, the abstract map is kept on the larger ring if and only if nothing was handed over, or the list change is announced and the old owner gives way |
| Refine.JoinConserves | rpc.go:383-398 | so it is kept when the old owner's list shows another node early enough, holds no group of the newcomer and knows no predecessor outside the ring |
| Refine.HandOverEnds | rpc.go:383-398 | while the hand-over is pending, the newcomer's message to the old owner ends it, also when the newcomer already is its predecessor |
| Crash.ShareMerges | replica.go:165-167 | the shares of the dead node and its successor are disjoint and make the successor's new share |
| Crash.CrashConservesIff | node.go:569-609 | a crash and the successor's failover, with an exact, outdated or missing copy: the two own groups were disjoint, and the abstract map is kept if and only if merging the copy gives what merging the dead node's data would give |
| Crash.CrashRestoresAgreement | node.go:588-600 | the live nodes of the successor's list then hold exact copies of the merged group, if and only if none held a key of the successor outside it |
| Crash.CrashDropsDeadGroup | rpc.go:401-428 | neither the successor nor its list keeps a group of the dead node |
| Crash.CrashKeepsOtherAgreement | rpc.go:401-428 | copies of every other owner are not disturbed |
| Crash.CheckedIsDelivery | node.go:580-600 | checkPredecessor is the local take-over followed by the delivery of all that it sends |
| Crash.CheckedNothingIff | node.go:570-578 | it changes something if and only if the predecessor is dead |
| History.NextKeeps | rpc.go:356-515 | after each write, message (none that tells a node it has failed itself), rewiring, join, crash and take-over (from a dead or a live predecessor), at any time, the cluster stands for the map that `History.Changed` gives |
| History.ReactIsNext | rpc.go:356-515 | a node of a cluster reacts to each event as `Groups.OwnGroupIff` takes a single node to do |
| History.CheckedIsEvents | node.go:569-609 | the take-over event, followed by the messages it sends, is checkPredecessor |
| History.ServesUnique | node.go:644-654 | a cluster stands for one map only |
| History.PutIsWritten | node.go:672-695 | a put at any node, with any routing state, is a write at one live node or fails |
| History.PlausibleKeepsMap | rpc.go:356-515 | messages as the handlers send them leave the map alone |
| History.RightJoinKeepsMap | node.go:292-313 | a join at the owner of the newcomer's id leaves the map alone |
| History.CrashKeepsMapIff | node.go:569-609 | a crash and the successor's take-over leave the map alone if and only if its copy agrees with the dead node's data on the keys taken over |
| History.ExactCopySuffices | node.go:581-583 | an exact copy does, when own groups are exact |
| History.LateTakeOver | node.go:569-609 | with writes and other harmless events between a crash and its take-over, the map is what was left after the crash, the writes, and over them the old copy |
| History.LateTakeOverIff | node.go:569-609 | that is what the writes alone make if and only if no value written in between is replaced by another and the copy gives back what was lost of the other keys |
| History.LateTakeOverKeeps | node.go:569-609 | so when the copy sufficed at the crash, is unchanged, no node has joined and no key of it was written in between |
| History.LateTakeOverOverwrites | replica.go:165-167 | a key of the dead node that its successor has accepted a write for in between goes back to the old value |
| History.LosslessHistory | node.go:672-695 | with writes at owners, right joins, messages as the handlers send them, and after each crash, sooner or later, a take-over that gives back what was lost and replaces nothing written in between, the map after any history is what the writes alone make |
| History.HistoryIsOneMap | node.go:634-695 | after any history, crashes without copies included, a get at any node of a stable ring returns what that one map holds |
| History.HistoryFromCreate | node.go:64-68 | the same for every history from one create; when it is lossless in that sense the map is what the writes alone make |
| Whole.LookupIsProtocolStep | node.go:292-317 | a newcomer's lookup, by any route, is a step of the protocol |
| Whole.LookupFindsNode | finger.go:70-80 | what a lookup finds, so what fixFinger stores, is a node of the ring |
| Whole.FingerStored | finger.go:70-80 | on a stable ring, storing what the lookup finds makes the finger name the first node at or after its id, and changes nothing else |
| Whole.CreateToExactRouting | node.go:186-212 | from any state of any run of one create, failed calls included, once joins and failed calls stop, fair stretches of protocol, list and finger steps, interleaved in any way, lead to lookups that find the owner with at most ceil(k/r) remote calls |
| Whole.FailedCallLeavesRing | node.go:391-419 | on an ideal ring with exact lists, a failed call to a live successor leaves it in place when lists have one entry, and else makes its successor the new one, with the old one on no cycle |
| ChordNode.Contains | util.go:105-112 | true exactly for members |
| ChordNode.CompareSuccessorLists | util.go:177-183 | true exactly when the second list starts with the first |
| ChordNode.Node.constructor | node.go:95-124 | own empty group under the low 64 bits of the id, flag set, all fingers with their ids n + 2^i at the node itself |
| ChordNode.Node.InitSuccessorList | node.go:618-624 | every entry becomes the successor |
| ChordNode.Node.Create | node.go:267-277 | no predecessor, itself as successor and in the whole list |
| ChordNode.Node.Join | node.go:287-322 | whole new state, or nothing but the predecessor changed when a call fails |
| ChordNode.Node.Notify | rpc.go:314-323 | the new predecessor |
| ChordNode.Node.ReconcileSuccessorList | node.go:428-468 | the overlapping shift, entry by entry from the end, gives the successor followed by its list without the last entry; flag and messages sent |
| ChordNode.Node.UpdateSuccessorList | node.go:391-419 | the retry loop computes the failover function; list, flag and messages |
| ChordNode.Node.StabilizeOnce | node.go:332-380 | successor, list, flag, messages and notification, with every failed call |
| ChordNode.Node.ClosestPrecedingNode | node.go:513-561 | the two downward scans with early exit compute the choice function |
| ChordNode.Node.FindSuccessorOf | node.go:478-503 | answer, forward, or one more try with the first node excluded |
| ChordNode.Node.FixFinger | finger.go:70-80 | only entry `next` changes, to the node found for its finger id |
| ChordNode.Node.AddRgMembership | replica.go:15-29 | a new empty group, or nothing when it exists |
| ChordNode.Node.RemoveRgMembership | replica.go:31-39 | the group is gone |
| ChordNode.Node.GetFarthestRgMembership | replica.go:58-83 | an id of greatest positive distance, 0 when there is none |
| ChordNode.Node.RemoveFarthestRgMembership | replica.go:41-56 | evicts a farthest group only with r + 1 groups or more |
| ChordNode.Node.MoveReplicas | replica.go:149-169 | the target group gains the entries of the source group |
| ChordNode.Node.RemoveKeys | replica.go:198-216 | keeps exactly the arc that stays and returns exactly the rest |
| ChordNode.Node.GetKeys | rpc.go:442-461 | returns what removeKeys would delete |
| ChordNode.Node.SendReplicas | rpc.go:469-488 | entries merged into the leader's group, refused when there is none |
| ChordNode.Node.RemoveReplicas | rpc.go:496-515 | entries removed from the leader's group, refused when there is none |
| ChordNode.Node.SendReplica | replica.go:86-112 | one message with the entry for each list entry but the node itself; a missing key is sent without a value |
| ChordNode.Node.SendAllReplicas | replica.go:114-145 | the same with all entries, none when there is no data |
| ChordNode.Node.RecvCoordinatorMsg | rpc.go:356-433 | groups and removal messages in every branch, and exactly when the own group is gone or is missed |
| ChordNode.Node.CheckPredecessor | node.go:569-609 | take-over, announcement and replicas when the call fails, nothing otherwise, and what is done when the node's own group is the dead one |
| ChordNode.Node.LocateKey | node.go:703-711 | the lookup of the key's hash |
| ChordNode.Node.Get | node.go:634-662 | local read, remote reply or failure |
| ChordNode.Node.Put | node.go:672-695 | local write with its replica messages, or the remote result |

## Left out

- gRPC clients, the connection pool, timeouts as clock values, sockets, signals, tickers, mutexes and logging: handlers are atomic steps, a call succeeds or fails.
- SHA-1 and `GetPeerID`: the hash of a key is any function, node ids are distinct.
- `Distance` (util.go:170-174): its unsigned subtraction wraps before it becomes a float; the model takes any distance that is zero exactly for equal group numbers.
- `run` and automation.go: a remote command whose output is then put; it adds only easy members.
- `moveKeys` and `GetLocationOnRing`: no caller in the protocols. Print helpers: output only.
- Client, server, configuration files, generated protobuf code and scripts.
- Logarithmic hop counts: the finger scan starts at a byte count (node.go:519), so the code does not give them.
- Conditions under which copies are exact after several adjacent crashes: only the immediate predecessor's group is promoted (node.go:583); histories with any crashes are covered with what survives.
- Writes between `GetKeys` and `removeKeys`: `Refine.JoinConservesIff` takes the hand-over without a write in between; `History` allows them.
- Nodes as objects that call each other: the class takes replies as parameters; the claims about many nodes are about maps of node values, so sharing of lists between nodes is not captured.
- Entry order in replica messages: an entry list with unique keys is modelled as a map.
- Successor-list entries before `create` or `join` has set them: the code holds nil there, and nothing reads them.
- Stabilize.OneRing: a failed call that makes a node pass over the creator is not covered; exactly those break the invariant (`Stabilize.FailedCallIff`), and the creator can then be off the ring.
- ChordNode.Node.ReconcileSuccessorList: requires a reply that is not empty and does not end while it still agrees with a longer current list; on any other the code indexes out of range.
- ChordNode.Node.UpdateSuccessorList: the same of the replies it may get, and a list of at least the configured length, which the retry loop indexes.
- ChordNode.Node.StabilizeOnce: the same.
- ChordNode.Node.ClosestPrecedingNode: a list of at least the configured length, which the scan indexes; the methods that look keys up ask the same.
- History.LosslessHistory: takes one crash and its take-over after the other; with several dead nodes at once the map is the one of `History.NextKeeps`.
- History.HistoryIsOneMap: nobody is told that it has failed itself; a node that is alive but was taken for dead loses its own group, and the code then fails on the next access.
- Store.Config: ties between equally far groups are broken by one function of the node and its groups, where the code's map order could differ from call to call; the class method allows any tie-break.
