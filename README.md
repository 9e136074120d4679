# metaverse: a verified model of the proximity engine, the space and user managers, the client world geometry and the client message router

The repository is a 2-D virtual office. A WebSocket server (`wss/`) keeps the connected
users, the players of each space and, per space, *proximity rooms*: groups of users standing
close enough to talk. A Next.js client (`next-app/`) draws a tile map with furniture and
routes the server's frames to listeners. This project models, in Dafny:

- **Proximity engine** (`ProximityManager.ts`). `checkUserProximity` builds a neighbour graph
  from squared distances. A stack work-list search breaks the graph into connected components,
  and only components of two or more are kept. Each component is keyed by its sorted ids
  joined with `-`. Three tables are then reconciled: rooms by key, the room key of each user,
  and the set of live keys. `removeUser` evicts a user, re-keys or destroys the user's room, and
  sweeps away every key that contains the id as a substring.
  - Module `ProximityGraph` holds the graph and the component search; both are methods with
    loops, proved against specification functions.
  - Module `ProximityTables` gives the table steps as functions on a value, with the lemmas
    about them.
  - Module `Proximity` holds class `ProximityManager`. Its fields are the tables, and each
    method is proved to perform exactly the step function on them.
- **Space membership** (`SpaceManager.ts`, module `Space`): a player list of at most six,
  reconnection by user id, a default colour, and the fan-out rules of chat and move.
- **User registry** (`UserManager.ts`, module `Users`): the counter-based id allocator with
  alternating colours and a spawn offset, over a map of user records.
- **Client geometry and tile map**:
  - box and point collision tests (`WorldObject.ts`, module `Geometry`);
  - the furniture table and its viewport filter (`worldObjects.ts`, module `WorldTable`);
  - the generated tile grid and the world-to-tile lookup (`mapData.ts`, module `MapData`);
  - the tile definition table (`tileset.ts`, module `Tileset`);
  - visible tile bounds and their enumeration (`tilemap.ts`, module `Tilemap`).
- **Client message router** (`WebSocketContext.tsx`, module `Router`, class `Provider`): the
  listener registry, the reconnect backoff, the `connect` guard, the routing of frames to
  listener keys, and the `sendMessage` drop rule.
- Modules `Common` and `Strings` hold the shared record shapes: JavaScript Set and Map
  operations on sequences, the default `sort()` order on strings (lexicographic on UTF-16
  code units, so a character outside the Basic Multilingual Plane sorts by its high
  surrogate), `join`, `includes`, and decimal rendering of a counter.

Abstractions used throughout:
- A socket is an identity with an "open" flag.
- `send` appends to an outbox sequence.
- A room's `setInterval`/`clearInterval` is a heartbeat flag.
- The id and colour sources ( `Date.now`, `Math.random`) are parameters: `ids: nat -> string`
  for sub-room ids, six digits in 0..15 for a colour.
- `JSON.parse` is a parameter, and callbacks are names.
- Coordinates are integers.

Some proved facts describe the code as it is, not as its comments intend:
- `ProximityTables.ReconcileUnmapsMovedUser`: a user who moves from a group that broke up into a
  new group ends the pass with no room mapping. The stale room is destroyed after the new room
  was written, and destroying it deletes the mappings of all its former members.
- `ProximityTables.RemoveUserPrefixId`: removing `user_1` also destroys the room of `user_10`
  and `user_11`, because the sweep matches keys by substring.
- `ProximityTables.PartitionFamily` and `CheckUserProximity` assume that no id contains `-`.
  With such ids, two groups could share a key.
- `MapData.IsWorldPosWalkable` is true for every position: the tile is looked up and ignored.

## Model

| member | source | states |
|---|---|---|
| Common.Without | wss/src/managers/ProximityManager.ts:267 | `Set.delete(x)` on an insertion-ordered set: exactly the other members stay, repeats never appear, and one fewer element remains when `x` was present; nothing changes otherwise |
| Common.AddLast | wss/src/managers/ProximityManager.ts:237 | `Set.add(x)`: the members are the old ones plus `x`, still without repeats |
| Strings.LessIsUtf16Order | wss/src/managers/ProximityManager.ts:203 | the order `sort()` uses, compared character by character, is exactly the lexicographic order of the two strings' UTF-16 code units |
| Strings.SurrogateOrder | wss/src/managers/ProximityManager.ts:203 | U+1F600 sorts before U+FF61 although its scalar value is larger, because its high surrogate 0xD83D is smaller |
| Strings.LessTransitive | wss/src/managers/ProximityManager.ts:203 | the string order `sort()` uses is transitive |
| Strings.LessTotal | wss/src/managers/ProximityManager.ts:203 | any two different strings are ordered one way or the other, so `sort()` is deterministic |
| Strings.Sort | wss/src/managers/ProximityManager.ts:203 | `sort()` returns a permutation of its input, strictly increasing when the input has no repeats |
| Strings.InsertSorted | wss/src/managers/ProximityManager.ts:203 | inserting a new element at its place keeps a sequence sorted |
| Strings.SortedUnique | wss/src/managers/ProximityManager.ts:247 | two sorted sequences with the same elements are equal, so re-sorting a group gives the same key |
| Strings.SortOfSorted | wss/src/managers/ProximityManager.ts:247 | `sort()` leaves a sorted array as it is |
| Strings.WithoutSorted | wss/src/managers/ProximityManager.ts:267 | deleting a member keeps a sorted room sorted |
| Strings.JoinInjective | wss/src/managers/ProximityManager.ts:209 | when no part contains the one-character separator, two joins are equal only for equal part lists |
| Strings.JoinIncludesParts | wss/src/managers/ProximityManager.ts:295 | every id of a group key occurs in the key as a substring |
| Strings.ParseNatToString | wss/src/managers/UserManager.ts:9 | the decimal rendering of a counter reads back to that counter |
| Strings.NatToStringInjective | wss/src/managers/UserManager.ts:9 | different counters render differently |
| ProximityGraph.AdjacentSymmetric | wss/src/managers/ProximityManager.ts:158-170 | the neighbour relation (different users, squared distance at most the square of twice the collision distance, bound included) is symmetric |
| ProximityGraph.NeighboursInMembers | wss/src/managers/ProximityManager.ts:159-170 | the neighbour set of a user holds exactly the other users within the proximity distance, each once, never the user itself |
| ProximityGraph.NodesInMembers | wss/src/managers/ProximityManager.ts:158-174 | the graph keys are exactly the users with at least one neighbour, each once |
| ProximityGraph.NodeIffNeighbour | wss/src/managers/ProximityManager.ts:171-173 | two users within the proximity distance are both graph nodes |
| ProximityGraph.GraphNodesPositioned | wss/src/managers/ProximityManager.ts:158-174 | every graph node has a position |
| ProximityGraph.BuildProximityGraph | wss/src/managers/ProximityManager.ts:155-174 | the two nested loops build exactly the specification graph, with its keys in insertion order |
| ProximityGraph.CollectNeighbours | wss/src/managers/ProximityManager.ts:159-170 | the inner loop collects exactly the specified neighbour set |
| ProximityGraph.EdgeIffAdjacent | wss/src/managers/ProximityManager.ts:155-174 | the graph's edges are exactly the pairs within the proximity distance, and every neighbour is a key |
| ProximityGraph.BuiltGraphProper | wss/src/managers/ProximityManager.ts:155-174 | the built graph is symmetric, has no self-loops and no key with an empty neighbour set |
| ProximityGraph.BuildStep | wss/src/managers/ProximityManager.ts:158-173 | one turn of the outer loop adds the user, with its neighbours, exactly when it has any |
| ProximityGraph.WalkReverse | wss/src/managers/ProximityManager.ts:176-205 | on the symmetric graph, every walk can be reversed |
| ProximityGraph.WalkConcat | wss/src/managers/ProximityManager.ts:176-205 | walks that meet can be joined |
| ProximityGraph.ClosedKeepsWalk | wss/src/managers/ProximityManager.ts:176-205 | a walk starting in a closed group stays in it |
| ProximityGraph.CoveredMember | wss/src/managers/ProximityManager.ts:177-205 | a user is visited by the groups once it lies in one of them |
| ProximityGraph.FindGroups | wss/src/managers/ProximityManager.ts:176-205 | the component search returns a partition of the graph's keys into sorted groups of two or more; the groups are pairwise disjoint, each is closed under adjacency and connected, and together they cover exactly the users with a neighbour |
| ProximityGraph.AddComponent | wss/src/managers/ProximityManager.ts:180-204 | one outer turn from an unvisited key adds the key's component, sorted, and keeps the partition invariant |
| ProximityGraph.ExploreFrom | wss/src/managers/ProximityManager.ts:184-199 | the work-list loop returns a duplicate-free, closed group of two or more containing the root, with every member reachable from the root and none visited before |
| ProximityGraph.ExploreNext | wss/src/managers/ProximityManager.ts:188-198 | one pop and push round keeps the search invariant and lowers the termination measure |
| ProximityGraph.SearchDone | wss/src/managers/ProximityManager.ts:188-199 | with the work-list empty, the group is a whole component |
| ProximityGraph.SearchStep | wss/src/managers/ProximityManager.ts:189-198 | popping a user and pushing its unvisited neighbours keeps the search invariant |
| ProximityGraph.SearchStepClosed | wss/src/managers/ProximityManager.ts:189-198 | after the round, every popped member has all its neighbours visited |
| ProximityGraph.SearchStepWalks | wss/src/managers/ProximityManager.ts:189-198 | after the round, every member still has a recorded walk from the root |
| ProximityGraph.VisitNeighbours | wss/src/managers/ProximityManager.ts:192-198 | the neighbour loop visits, appends and pushes exactly the neighbours not yet visited, each once |
| ProximityGraph.SearchMeasure | wss/src/managers/ProximityManager.ts:188-199 | the unvisited keys plus the work-list length decrease in each round, so the loop ends |
| ProximityGraph.RemainingAfter | wss/src/managers/ProximityManager.ts:193-194 | marking a duplicate-free list of unvisited keys leaves that many fewer unvisited |
| ProximityGraph.ComponentClosed | wss/src/managers/ProximityManager.ts:188-199 | a group whose neighbours all lie in it or in earlier groups is closed |
| ProximityGraph.SortKeepsMembers | wss/src/managers/ProximityManager.ts:203 | `group.sort()` keeps the group's members and sorts it strictly |
| ProximityGraph.SortedGroupKeepsInvariant | wss/src/managers/ProximityManager.ts:201-204 | pushing the sorted component keeps the partition invariant and grows the visited set by exactly the component |
| ProximityGraph.ConnectedInsideClosed | wss/src/managers/ProximityManager.ts:176-205 | a connected group that meets a closed group lies inside it |
| ProximityGraph.PartitionUnique | wss/src/managers/ProximityManager.ts:176-205 | any two component partitions of the graph hold the same groups, so the result does not depend on the visiting order |
| ProximityTables.OpenIn | wss/src/managers/ProximityManager.ts:41-42 | the members that receive a frame are exactly those with a present, open socket |
| ProximityTables.NotifyExactly | wss/src/managers/ProximityManager.ts:40-50 | the fan-out sends exactly one frame per member with an open socket, in member order, and nothing else |
| ProximityTables.NotifyReaches | wss/src/managers/ProximityManager.ts:56-65 | every member with an open socket receives the frame |
| ProximityTables.NotifyOnlyOpen | wss/src/managers/ProximityManager.ts:56-65 | every frame sent is the room's frame and goes to an open member's socket |
| ProximityTables.Dedup | wss/src/managers/ProximityManager.ts:70 | `new Set(userIds)` keeps each id once, and exactly the given ids |
| ProximityTables.DedupOfDistinct | wss/src/managers/ProximityManager.ts:70 | a duplicate-free array makes a Set with the same order |
| ProximityTables.Missing | wss/src/managers/ProximityManager.ts:115-116 | the `filter` keeps exactly the ids absent from the other collection; it is empty exactly when all are present |
| ProximityTables.Assign | wss/src/managers/ProximityManager.ts:145-147 | mapping a list of ids to a key gives each listed id that key and leaves the others as they were |
| ProximityTables.Unmap | wss/src/managers/ProximityManager.ts:99-101 | deleting a list of ids removes exactly those and leaves the other mappings unchanged |
| ProximityTables.DestroyRoomEffect | wss/src/managers/ProximityManager.ts:89-104 | destroying a room sends PROXIMITY_LEFT to its open members, stops the heartbeat with it, deletes the room and every member's mapping, and touches nothing else; an absent key changes nothing |
| ProximityTables.UpdateRoomNew | wss/src/managers/ProximityManager.ts:141-148 | a new key gets one room with a fresh id, exactly the group as members and a running heartbeat; every member is mapped to the key, and each open member is greeted once with the room id and the member list |
| ProximityTables.UpdateRoomSame | wss/src/managers/ProximityManager.ts:109-118 | a room whose members are already the group is left alone: nothing is sent and no table changes |
| ProximityTables.UpdateRoomChanged | wss/src/managers/ProximityManager.ts:109-140 | a changed room keeps its id and heartbeat and takes the new members; the leavers lose their mappings, the joiners are mapped to the key, and the new list is announced once |
| ProximityTables.UpdateRoomFrame | wss/src/managers/ProximityManager.ts:106-149 | whatever the prior state, the key then holds a room with exactly the group's members, and the other rooms are unchanged |
| ProximityTables.UpdateRoomFine | wss/src/managers/ProximityManager.ts:106-149 | updating a sorted group of two or more under its own key keeps every room live: running heartbeat, two or more sorted members, and stored under the join of its members |
| ProximityTables.CurrentKeysOfSorted | wss/src/managers/ProximityManager.ts:247 | re-sorting the already sorted groups gives the keys already processed |
| ProximityTables.ProcessGroupsKeys | wss/src/managers/ProximityManager.ts:208-244 | after the groups are processed, `userProximityGroups` has gained exactly their keys |
| ProximityTables.ProcessGroupsOther | wss/src/managers/ProximityManager.ts:208-244 | processing the groups leaves the room under any other key as it was |
| ProximityTables.ProcessGroupsOwn | wss/src/managers/ProximityManager.ts:208-244 | after processing, each group's key holds a room with exactly that group's members |
| ProximityTables.ProcessGroupFrame | wss/src/managers/ProximityManager.ts:209-243 | one group's step leaves its key holding its members, and every other room as it was |
| ProximityTables.ProcessGroupsRoomKeys | wss/src/managers/ProximityManager.ts:208-244 | when the key set matched the rooms before, it still matches them after processing |
| ProximityTables.ProcessGroupsFine | wss/src/managers/ProximityManager.ts:208-244 | processing keeps every room live and leaves each group's key holding exactly that group |
| ProximityTables.SweepKeys | wss/src/managers/ProximityManager.ts:250-259 | a sweep drops exactly the doomed keys among those it visits |
| ProximityTables.SweepRoomAt | wss/src/managers/ProximityManager.ts:250-259 | a sweep removes a key's room exactly when it visits the key and the key is doomed, and never changes a room it keeps |
| ProximityTables.SweepRest | wss/src/managers/ProximityManager.ts:250-259 | a sweep adds or changes no room mapping, draws no id, and only appends frames |
| ProximityTables.SweepDestroys | wss/src/managers/ProximityManager.ts:250-258 | every doomed key visited loses its room; each open former member gets PROXIMITY_LEFT, and each former member loses its mapping, whatever key it held |
| ProximityTables.SweepNothingDoomed | wss/src/managers/ProximityManager.ts:250-259 | a sweep that finds nothing doomed changes nothing |
| ProximityTables.SweepConsistent | wss/src/managers/ProximityManager.ts:250-259 | a sweep over all live keys keeps the tables consistent |
| ProximityTables.ReconcileTables | wss/src/managers/ProximityManager.ts:208-259 | after `checkUserProximity`, `userProximityGroups` holds exactly the current group keys, each once; the rooms are exactly those of the current groups |
| ProximityTables.ReconcileKeys | wss/src/managers/ProximityManager.ts:208-259 | the live key set equals the set of current group keys, each the sorted ids joined with `-` |
| ProximityTables.ReconcileRooms | wss/src/managers/ProximityManager.ts:208-259 | only current keys keep rooms, and each current key's room has exactly its group's members |
| ProximityTables.ReconcileRoomOf | wss/src/managers/ProximityManager.ts:208-259 | each group's key ends holding a room with exactly that group's members |
| ProximityTables.ReconcileRoomKeys | wss/src/managers/ProximityManager.ts:208-259 | with the key set matching the rooms beforehand, the room keys end equal to the current keys |
| ProximityTables.ReconcileConsistent | wss/src/managers/ProximityManager.ts:151-260 | reconciling keeps consistent tables consistent: the live keys, each once, are the room keys, and every room is live |
| ProximityTables.ReconcileDropsStale | wss/src/managers/ProximityManager.ts:250-258 | a key no longer current loses its room; its open former members get PROXIMITY_LEFT and all former members lose their mapping |
| ProximityTables.ReconcileUnmapsMovedUser | wss/src/managers/ProximityManager.ts:99-101 | a user who moved from a stale group into a current one ends without a mapping, because the stale room's destruction deletes it |
| ProximityTables.ProcessGroupsSettled | wss/src/managers/ProximityManager.ts:208-244 | groups that already have their keys and rooms with their members change nothing |
| ProximityTables.ReconcileSettled | wss/src/managers/ProximityManager.ts:106-140 | when every group already has its key and a room with its members and no other key is live, nothing is sent and no table changes |
| ProximityTables.ReconcileIdempotent | wss/src/managers/ProximityManager.ts:151-260 | reconciling twice with the same groups equals reconciling once, and the second pass sends nothing |
| ProximityTables.PartitionFamily | wss/src/managers/ProximityManager.ts:203-209 | when no id contains `-`, the groups of a component partition are sorted, of two or more, and have distinct keys |
| ProximityTables.CheckTwiceChangesNothing | wss/src/managers/ProximityManager.ts:151-260 | running the proximity check again on the same positions, with any component partition, changes no table and sends nothing |
| ProximityTables.EvictSmallRoom | wss/src/managers/ProximityManager.ts:266-271 | a room that drops below two is destroyed: PROXIMITY_LEFT to its open remaining members, their mappings deleted, and its key dropped |
| ProximityTables.EvictRekeys | wss/src/managers/ProximityManager.ts:272-287 | with two or more left, the same room (same id and heartbeat) is stored under the key of its sorted remaining members, they are mapped to it, and nothing is sent |
| ProximityTables.TradeKey | wss/src/managers/ProximityManager.ts:285-286 | trading the old key for the new one in the key set keeps the keys distinct and changes only those two |
| ProximityTables.UnseatUnmaps | wss/src/managers/ProximityManager.ts:263-291 | the user never gains a mapping, and keeps one only when it held the empty key, which `if (userRoomKey)` treats as absent |
| ProximityTables.UnseatConsistent | wss/src/managers/ProximityManager.ts:263-291 | the eviction half of `removeUser` keeps consistent tables consistent |
| ProximityTables.EvictSmallConsistent | wss/src/managers/ProximityManager.ts:266-271 | destroying a room that dropped below two keeps the tables consistent |
| ProximityTables.EvictRekeyConsistent | wss/src/managers/ProximityManager.ts:272-287 | re-keying a room keeps the tables consistent |
| ProximityTables.SweepIncludingClears | wss/src/managers/ProximityManager.ts:294-299 | the substring sweep drops every key containing the id, and leaves no room with the user as a member |
| ProximityTables.RemoveUserEffect | wss/src/managers/ProximityManager.ts:262-300 | after `removeUser` on consistent tables, they stay consistent, no room holds the user, no key contains the id, and the user has no mapping (unless it was mapped to the empty key) |
| ProximityTables.RemoveUserSweeps | wss/src/managers/ProximityManager.ts:294-299 | whatever the tables, no key containing the id as a substring survives, every such key the sweep visits loses its room, and the user keeps no mapping unless it held the empty key |
| ProximityTables.RemoveUserSmallRoom | wss/src/managers/ProximityManager.ts:262-300 | a room that drops below two is destroyed and its key dropped, with PROXIMITY_LEFT to its open remaining members |
| ProximityTables.RemoveUserRekeys | wss/src/managers/ProximityManager.ts:262-300 | the remaining members keep their room under the key re-derived from their sorted ids, unless that key itself contains the id |
| ProximityTables.UnseatRekeyed | wss/src/managers/ProximityManager.ts:272-291 | re-keying only trades the key in the key list and sends nothing |
| ProximityTables.RemoveUserQuiet | wss/src/managers/ProximityManager.ts:262-300 | when no other live key contains the id and the re-derived key does not, removing a user from a room of three or more sends nothing |
| ProximityTables.RemoveEmptyIdClearsAll | wss/src/managers/ProximityManager.ts:294-299 | `removeUser("")` destroys every room, since every key contains the empty string |
| ProximityTables.PrefixIdsKey | wss/src/managers/ProximityManager.ts:275 | the key of `user_10` and `user_11` is `user_10-user_11`, and it contains `user_1` |
| ProximityTables.RemoveUserPrefixId | wss/src/managers/ProximityManager.ts:262-300 | removing `user_1` from the room of `user_1`, `user_10` and `user_11` re-keys the room to `user_10-user_11`, and the substring sweep then destroys it |
| Proximity.ProximityManager.constructor | wss/src/managers/ProximityManager.ts:22-30 | empty tables, and the proximity distance is twice the collision distance |
| Proximity.ProximityManager.GenerateSubRoomId | wss/src/managers/ProximityManager.ts:32-34 | returns the next id of the id source, which moves on by one |
| Proximity.ProximityManager.SendProximityMessage | wss/src/managers/ProximityManager.ts:36-51 | appends exactly the PROXIMITY_MESSAGE fan-out to the outbox |
| Proximity.ProximityManager.SendProximityLeftMessage | wss/src/managers/ProximityManager.ts:53-66 | appends exactly the PROXIMITY_LEFT fan-out to the outbox |
| Proximity.ProximityManager.MapUsers | wss/src/managers/ProximityManager.ts:145-147 | the loop maps every listed id to the key |
| Proximity.ProximityManager.UnmapUsers | wss/src/managers/ProximityManager.ts:99-101 | the loop deletes every listed id |
| Proximity.ProximityManager.CreateProximityRoom | wss/src/managers/ProximityManager.ts:68-87 | builds the room from a fresh id, the member Set and a running heartbeat, and greets it once |
| Proximity.ProximityManager.DestroyProximityRoom | wss/src/managers/ProximityManager.ts:89-104 | performs exactly the room destruction step on the fields |
| Proximity.ProximityManager.UpdateProximityRoom | wss/src/managers/ProximityManager.ts:106-149 | performs exactly the room update step on the fields |
| Proximity.ProximityManager.SweepGroups | wss/src/managers/ProximityManager.ts:250-259 | visits every key present when the sweep starts, in insertion order, and drops the doomed ones with their rooms |
| Proximity.ProximityManager.ProcessProximityGroups | wss/src/managers/ProximityManager.ts:208-244 | adds each new key to the key set, then creates or updates its room, exactly as the group step says |
| Proximity.ProximityManager.CheckUserProximity | wss/src/managers/ProximityManager.ts:151-260 | the groups found are the graph's component partition, the tables end as the reconciliation says for them, and consistent tables stay consistent when no id contains `-` |
| Proximity.ProximityManager.EvictUser | wss/src/managers/ProximityManager.ts:265-289 | performs exactly the eviction step on the fields |
| Proximity.ProximityManager.DropRoom | wss/src/managers/ProximityManager.ts:270-271 | destroys the room, then drops its key |
| Proximity.ProximityManager.MoveRoom | wss/src/managers/ProximityManager.ts:279-287 | moves the room to the new key, maps its members there, and trades the keys in the key set |
| Proximity.ProximityManager.RemoveUser | wss/src/managers/ProximityManager.ts:262-300 | performs exactly the `removeUser` step; on consistent tables they stay consistent, no room holds the user and no key contains the id |
| Proximity.ProximityManager.UpdateParticipants | wss/src/managers/ProximityManager.ts:302-304 | only the socket table changes |
| Proximity.MissingSameMembers | wss/src/managers/ProximityManager.ts:111-116 | the `filter` against a Set and against the array it was built from give the same result |
| Users.IdForInjective | wss/src/managers/UserManager.ts:9 | two counters give the same id only when they are equal |
| Users.ColourFor | wss/src/managers/UserManager.ts:10-12 | red (`#ef4444`) for an odd counter, blue (`#3b82f6`) for an even one |
| Users.StartXSteps | wss/src/managers/UserManager.ts:17-21 | the first user starts at x = 2000, and each later one 150 further left |
| Users.ValuesInOrder | wss/src/managers/UserManager.ts:53-55 | `Array.from(users.values())` lists each stored record once, in insertion order |
| Users.UserManager.constructor | wss/src/managers/UserManager.ts:5-6 | no users, and the counter at zero |
| Users.UserManager.AddUser | wss/src/managers/UserManager.ts:8-33 | the counter moves on by one; the new record has id `user_<counter>`, the alternating colour and the spawn position, and its id was never in use; it is stored, `getUser` finds it, and the count grows by one |
| Users.UserManager.RemoveUser | wss/src/managers/UserManager.ts:35-37 | deletes only the given id and keeps the counter, so ids are never reused; an absent id changes nothing |
| Users.UserManager.GetUser | wss/src/managers/UserManager.ts:39-41 | the stored record exactly when the id is present |
| Users.UserManager.UpdateUserPosition | wss/src/managers/UserManager.ts:43-51 | true exactly when the user exists; then only that user's x and y change, and otherwise nothing does |
| Users.UserManager.GetAllUsers | wss/src/managers/UserManager.ts:53-55 | every stored record once, in insertion order |
| Users.UserManager.GetUserCount | wss/src/managers/UserManager.ts:57-59 | the number of stored ids |
| Users.UserManager.AllUsersCounted | wss/src/managers/UserManager.ts:53-59 | the list of all users is as long as the count and holds exactly the stored records |
| Space.HexColor | wss/src/managers/SpaceManager.ts:22-30 | the colour is `#` followed by six characters of `0123456789ABCDEF` |
| Space.HexColorInjective | wss/src/managers/SpaceManager.ts:26-28 | different draws give different colours |
| Space.GenerateRandomColor | wss/src/managers/SpaceManager.ts:22-30 | the loop builds exactly the colour of its six draws |
| Space.FindPlayer | wss/src/managers/SpaceManager.ts:59 | `find` returns a listed player with the id exactly when one exists |
| Space.ToBoundReaches | wss/src/managers/SpaceManager.ts:79-85 | a CHAT or PLAYER_LIST frame reaches a socket exactly when some listed player is bound to it |
| Space.ToOthersReaches | wss/src/managers/SpaceManager.ts:129-138 | a MOVE reaches a socket exactly when a listed player is bound to it and it is not the sender's socket; player ids play no part |
| Space.UserColour | wss/src/managers/SpaceManager.ts:120-123 | the colour of the first player with the id, or `#888888` when there is none or it is empty |
| Space.JoinReconnect | wss/src/managers/SpaceManager.ts:56-64 | joining under a listed id leaves the list alone, rebinds the id to the new socket, and replies "You are already in the space" with the stored colour |
| Space.JoinWhenFull | wss/src/managers/SpaceManager.ts:66-69 | a new id at a full space is refused with "Space is full", and nothing else changes |
| Space.JoinNewPlayer | wss/src/managers/SpaceManager.ts:72-76 | otherwise exactly one player is appended, with the drawn colour and an empty name when none is given; it is bound to the socket and welcomed |
| Space.JoinKeepsRoster | wss/src/managers/SpaceManager.ts:55-77 | joining keeps the list at six or fewer, with unique ids and a socket bound for each |
| Space.AppendIds | wss/src/managers/SpaceManager.ts:75 | appending a player with a new id keeps ids unique |
| Space.JoinBroadcastsList | wss/src/managers/SpaceManager.ts:104-109 | after any successful join, every listed player with a bound socket receives the current player list |
| Space.SpaceManager.constructor | wss/src/managers/SpaceManager.ts:40-53 | the host is the only player, with a drawn colour, bound to the host socket; the colour argument is ignored |
| Space.SpaceManager.SendJoinSpaceEvents | wss/src/managers/SpaceManager.ts:96-110 | the join reply to the joining socket, then the player list to every bound player |
| Space.SpaceManager.SendJoinSpaceFailure | wss/src/managers/SpaceManager.ts:112-118 | one refusal frame to the joining socket |
| Space.SpaceManager.JoinSpace | wss/src/managers/SpaceManager.ts:55-77 | performs exactly the join step and keeps the roster invariant |
| Space.SpaceManager.GetJoinEvents | wss/src/managers/SpaceManager.ts:88-94 | the join events, as a reconnect exactly when the id is listed |
| Space.SpaceManager.GetUserColour | wss/src/managers/SpaceManager.ts:120-123 | the first matching player's colour, else the default |
| Space.SpaceManager.SendChat | wss/src/managers/SpaceManager.ts:79-85 | CHAT to every listed player with a bound socket, the sender included |
| Space.SpaceManager.Move | wss/src/managers/SpaceManager.ts:125-139 | MOVE, with the mover's colour, to every bound socket other than the sender's |
| Geometry.AABBIffSharedPixel | next-app/lib/world/WorldObject.ts:20-30 | two boxes of positive size collide exactly when some pixel lies inside both |
| Geometry.AABBSymmetric | next-app/lib/world/WorldObject.ts:24-29 | the box test does not depend on the order of its boxes |
| Geometry.TouchingBoxesDoNotCollide | next-app/lib/world/WorldObject.ts:24-29 | boxes that only share an edge, or lie apart on one axis, do not collide |
| Geometry.PointTestClosed | next-app/lib/world/WorldObject.ts:35-46 | the point test includes the rectangle's edges and corners, and excludes the pixels just outside |
| Geometry.UserIffGrownRect | next-app/lib/world/WorldObject.ts:52-70 | the user test holds exactly when the centre lies strictly inside the object grown by the radius |
| Geometry.PointImpliesUser | next-app/lib/world/WorldObject.ts:35-70 | a user of positive radius whose centre is on the object collides with it |
| WorldTable.CollidableMembers | next-app/lib/world/worldObjects.ts:195-197 | the filter keeps exactly the collidable objects |
| WorldTable.CollidableInOrder | next-app/lib/world/worldObjects.ts:195-197 | the filter keeps the table's order |
| WorldTable.GetCollidableObjects | next-app/lib/world/worldObjects.ts:195-197 | the collidable objects of the table, as an order-preserving subsequence |
| WorldTable.TableIdsDistinct | next-app/lib/world/worldObjects.ts:8-190 | the table's ids are pairwise different |
| WorldTable.TableObjectsSolid | next-app/lib/world/worldObjects.ts:8-190 | every table object has positive width and height and is collidable |
| WorldTable.AllObjectsCollidable | next-app/lib/world/worldObjects.ts:8-197 | `getCollidableObjects()` is the whole table |
| WorldTable.VisibleMembers | next-app/lib/world/worldObjects.ts:202-223 | the viewport filter keeps exactly the objects that pass the box test against the viewport |
| WorldTable.GetVisibleObjects | next-app/lib/world/worldObjects.ts:202-223 | the loop returns the objects overlapping the viewport under the same strict test as `checkAABBCollision`, in table order, never more than the table holds |
| Tileset.TilesKeyedById | next-app/lib/map/tileset.ts:13-27 | the table defines ids 0, 1, 2, 3, 4, 10, 11 and 20, each entry under its own id |
| Tileset.GetTile | next-app/lib/map/tileset.ts:32-34 | the entry of a defined id, and grass for any other; its id is the argument or 0 |
| Tileset.IsTileWalkable | next-app/lib/map/tileset.ts:39-42 | false exactly for 10, 11 and 20, unknown ids included in the true case |
| MapData.CellAt | next-app/lib/map/mapData.ts:24-46 | each cell is 0, 1, 2 or 10; 10 exactly on the wall square's border, 2 exactly on the two carpets, and otherwise floor inside the wall and grass outside |
| MapData.Map | next-app/lib/map/mapData.ts:53 | `MAP_DATA` has 125 rows of 125 cells, cell (x, y) in row y, column x |
| MapData.GenerateMapData | next-app/lib/map/mapData.ts:15-51 | the nested loops with their overwrites build exactly that grid |
| MapData.GetTileAtWorldPos | next-app/lib/map/mapData.ts:58-68 | on the map, the cell under the floored tile coordinates; any coordinate below 0 or from 4000 on reads 0 |
| MapData.IsWorldPosWalkable | next-app/lib/map/mapData.ts:74-79 | every position counts as walkable |
| Tilemap.GetVisibleTiles | next-app/lib/map/tilemap.ts:19-43 | the bounds are clamped to the map: minima at least 0, maxima at most 124 |
| Tilemap.VisibleTilesTouchViewport | next-app/lib/map/tilemap.ts:26-35 | a map column (row) is in the bounds exactly when its pixels reach past the viewport's left (top) edge and it starts no further than the right (bottom) edge |
| Tilemap.GetVisibleTileData | next-app/lib/map/tilemap.ts:49-75 | every tile of the bounds exactly once, rows outer and columns inner, with its map cell and pixel position; (maxY−minY+1)·(maxX−minX+1) entries, none when the bounds are empty, every grid index in range |
| Tilemap.VisitRow | next-app/lib/map/tilemap.ts:59-71 | the inner loop appends exactly the row's tiles, left to right |
| Router.ReconnectDelay | next-app/contexts/WebSocketContext.tsx:57 | the delay lies between one second and the 30-second cap |
| Router.DelayMonotone | next-app/contexts/WebSocketContext.tsx:57 | later attempts never wait less |
| Router.DelaySchedule | next-app/contexts/WebSocketContext.tsx:57 | the delays double from 1000 ms and reach 30000 ms from the sixth attempt on |
| Router.ReconnectAfterClose | next-app/contexts/WebSocketContext.tsx:46-64 | no reconnect after code 1000 or once ten attempts are used; otherwise a reconnect after the backoff delay |
| Router.ClosesScheduleBounded | next-app/contexts/WebSocketContext.tsx:46-64 | without an open in between, at most ten reconnects follow one another, their delays never shrink, and none exceeds 30 seconds |
| Router.Subscribe | next-app/contexts/WebSocketContext.tsx:276-280 | the type's set gains the callback, created when absent; the other types keep their sets |
| Router.Unsubscribe | next-app/contexts/WebSocketContext.tsx:285-289 | the callback leaves its type's set, the type is deleted once empty, and the other types keep their sets |
| Router.SubscribeValid | next-app/contexts/WebSocketContext.tsx:276-280 | subscribing keeps every set non-empty and without repeats |
| Router.UnsubscribeValid | next-app/contexts/WebSocketContext.tsx:285-289 | unsubscribing never leaves a type mapped to an empty set |
| Router.UnsubscribeUndoesSubscribe | next-app/contexts/WebSocketContext.tsx:276-292 | the returned unsubscribe restores the table exactly, including the absence of a type that had no listeners |
| Router.Or | next-app/contexts/WebSocketContext.tsx:101-238 | `v \|\| d` is `v` when truthy and `d` otherwise |
| Router.Converted | next-app/contexts/WebSocketContext.tsx:101-238 | a renamed message has the new type and exactly the carried fields |
| Router.Renamed | next-app/contexts/WebSocketContext.tsx:99-238 | a renamed server type yields its listener key; a JOIN_SPACE_RESPONSE with a false status also fires `joinSpaceError` |
| Router.Route | next-app/contexts/WebSocketContext.tsx:93-244 | pings and frames without a string type go nowhere, the ten server types are renamed, and any other type goes unchanged to its own listeners |
| Router.RouteCarries | next-app/contexts/WebSocketContext.tsx:99-238 | each renamed message carries exactly the fields listed for its server type |
| Router.Fire | next-app/contexts/WebSocketContext.tsx:243 | one call per registered callback of the key, in Set order, and none for an unknown key |
| Router.DeliverReaches | next-app/contexts/WebSocketContext.tsx:71-248 | a callback receives a message exactly when a dispatch carries it to a type the callback is registered for |
| Router.TrimBlank | next-app/contexts/WebSocketContext.tsx:79-83 | trimming leaves nothing exactly when the text is empty or whitespace |
| Router.Trim | next-app/contexts/WebSocketContext.tsx:79 | the trimmed text neither starts nor ends with whitespace and is no longer than the text |
| Router.TrimCuts | next-app/contexts/WebSocketContext.tsx:79 | the trimmed text is a slice `s[i..j]` of the text, and everything before `i` and from `j` on is whitespace |
| Router.DroppedFrames | next-app/contexts/WebSocketContext.tsx:74-97 | non-text payloads, blank text, unparsable text, values other than objects, and pings reach no listener |
| Router.ObjectFramesRouted | next-app/contexts/WebSocketContext.tsx:71-248 | a non-blank text frame that parses to an object reaches exactly the listeners its routing names |
| Router.Provider.constructor | next-app/contexts/WebSocketContext.tsx:19-26 | no socket, no listeners, no attempts, not connected |
| Router.Provider.Connect | next-app/contexts/WebSocketContext.tsx:28-37 | nothing while the socket is open or connecting; otherwise a new socket starts connecting |
| Router.Provider.OnOpen | next-app/contexts/WebSocketContext.tsx:39-44 | connected, and the attempts reset to zero |
| Router.Provider.OnClose | next-app/contexts/WebSocketContext.tsx:46-64 | disconnected; the timer scheduled is the backoff decision, and scheduling one uses up an attempt |
| Router.Provider.OnError | next-app/contexts/WebSocketContext.tsx:66-69 | disconnected |
| Router.Provider.SendMessage | next-app/contexts/WebSocketContext.tsx:263-271 | the message is written only when the socket is open, and dropped otherwise |
| Router.Provider.AddMessageListener | next-app/contexts/WebSocketContext.tsx:276-283 | the registry becomes the subscribed table and stays valid |
| Router.Provider.RemoveMessageListener | next-app/contexts/WebSocketContext.tsx:285-291 | the registry becomes the unsubscribed table and stays valid |
| Router.Provider.Receive | next-app/contexts/WebSocketContext.tsx:71-248 | every callback the frame calls is registered for some type |

## Left out

- Floating point: coordinates, sizes and distances are integers. The `Math.sqrt`/`toFixed` distance logging in `checkUserProximity` (ProximityManager.ts:215-235) and every other `console` call are log output and are not modelled.
- Timers: a room's 30-second `setInterval` is a heartbeat flag, so the repeated PROXIMITY_MESSAGE frames it would send are not in the outbox. The reconnect `setTimeout` becomes the delay `OnClose` returns, and firing it is a later `Connect` call. The unmount cleanup of `useEffect` (WebSocketContext.tsx:251-261) is not modelled.
- Randomness and clocks: `Date.now` and `Math.random` in sub-room ids are the parameter `ids: nat -> string`, and the six colour draws are a parameter. Freshness of sub-room ids is whatever that source provides.
- JSON: the frames are datatypes, and their encoding by `JSON.stringify` is not modelled. `JSON.parse` is a parameter, and a thrown parse error is an absent result. Numbers in parsed values are integers, with no `NaN`.
- Socket I/O: `send` appends to an outbox. Handlers of a socket that `connect` has already replaced are not modelled, and `Connect` only records that a new socket starts connecting, with no URL (`NEXT_PUBLIC_WS_URL`).
- React: `useState`, `forceRender` and the context provider plumbing are not modelled. Callbacks are names; calling one is a record in the result, and callbacks that throw or re-enter the router are not modelled.
- Router.Trim: removes ASCII whitespace only, not the Unicode spaces and line terminators `String.prototype.trim` also removes.
- JavaScript object semantics: inherited prototype keys in `participants[...]` lookups are not modelled. `ProximityRoom` objects are values, so the aliasing by which `removeUser` mutates the same room object that stays in the map is modelled by storing the updated value back. A `User` record returned by `addUser` is a value, not an alias of the stored one.
- Geometry.AABBIffSharedPixel: stated only for boxes of positive size; the other lemmas hold for all sizes.
- Users.UserManager.Valid: the "ids are never reused" promise is stated as "no id the counter has yet to issue is in use", together with the counter never decreasing.
- ProximityGraph.FindGroups: the order of the groups is not stated, so the order of the frames and of the sub-room ids across groups in `checkUserProximity` is not tied to the order of the search.
- Strings.Sort: `sort()` is specified on the duplicate-free arrays the managers pass it (component groups and room members); on arrays with repeats only the permutation is stated.
- The rest of the repository (the server's `index.ts` wiring, the pages, and the WebRTC modal) is not part of this model. In particular nothing connects `SpaceManager` to `ProximityManager`, as in the source.
