/** The three tables of `ProximityManager` (rooms by group key, the room key of each user, and
    the set of live group keys) together with the frames written to sockets, as values, and the
    step functions that `checkUserProximity` and `removeUser` apply to them. The class
    `ProximityManager` in module `Proximity` is proved to perform exactly these steps. */
module ProximityTables {
  import opened Common
  import opened Strings
  import opened ProximityGraph

  /** A proximity room: its sub-room id, its members (a JS Set, in insertion order) and whether
      its 30-second heartbeat timer is running. */
  datatype Room = Room(roomId: string, userIds: seq<UserId>, heartbeat: bool)

  /** The two frames the manager writes (their JSON encoding is not modelled). */
  datatype Notice =
    | ProximityMessage(roomId: string, message: string, userIds: seq<UserId>)
    | ProximityLeft(roomId: string, message: string)

  /** The socket bound to each user id. */
  type Participants = map<UserId, Socket>

  /** `proximityRooms`, `userToProximityRoom`, `userProximityGroups` (insertion order kept), the
      frames sent so far, and how many sub-room ids have been drawn from the id source. */
  datatype Tables = Tables(rooms: map<string, Room>, userToRoom: map<UserId, string>,
                           groupKeys: seq<string>, outbox: seq<Sent<Notice>>, created: nat)

  function EmptyTables(): Tables {
    Tables(map[], map[], [], [], 0)
  }

  /** The key of a group: its ids joined with `-`. */
  function GroupKey(group: seq<UserId>): string {
    Join(group, "-")
  }

  // ---------------------------------------------------------------------------------------
  // Frames

  function ProximityText(userIds: seq<UserId>): string {
    "You are in proximity with " + Join(userIds, ", ")
  }

  const LeftText: string := "You have left proximity with other users"

  function ProximityNotice(room: Room): Notice {
    ProximityMessage(room.roomId, ProximityText(room.userIds), room.userIds)
  }

  function LeftNotice(room: Room): Notice {
    ProximityLeft(room.roomId, LeftText)
  }

  /** The members whose socket is present and OPEN, in order. */
  function OpenIn(p: Participants, userIds: seq<UserId>): (r: seq<UserId>)
    ensures forall u :: u in r <==> u in userIds && u in p && p[u].open
  {
    if userIds == [] then []
    else
      var init, u := userIds[..|userIds| - 1], userIds[|userIds| - 1];
      assert userIds == init + [u];
      if u in p && p[u].open then OpenIn(p, init) + [u] else OpenIn(p, init)
  }

  /** The frame one member receives, if any. */
  function NotifyOne(p: Participants, u: UserId, n: Notice): seq<Sent<Notice>> {
    if u in p && p[u].open then [Sent(p[u].id, n)] else []
  }

  /** `userIdsArray.forEach(...)` sending `n` to each member with an open socket. */
  function Notify(p: Participants, userIds: seq<UserId>, n: Notice): seq<Sent<Notice>> {
    if userIds == [] then []
    else Notify(p, userIds[..|userIds| - 1], n) + NotifyOne(p, userIds[|userIds| - 1], n)
  }

  /** Exactly one frame per member with an open socket, in member order, and nothing else. */
  lemma {:induction false} NotifyExactly(p: Participants, userIds: seq<UserId>, n: Notice)
    ensures var r, o := Notify(p, userIds, n), OpenIn(p, userIds);
      |r| == |o| && forall k :: 0 <= k < |r| ==> r[k] == Sent(p[o[k]].id, n)
  {
    if userIds != [] {
      var init := userIds[..|userIds| - 1];
      assert userIds == init + [userIds[|userIds| - 1]];
      NotifyExactly(p, init, n);
    }
  }

  /** Every member with an open socket gets the frame. */
  lemma NotifyReaches(p: Participants, userIds: seq<UserId>, n: Notice, u: UserId)
    requires u in userIds && u in p && p[u].open
    ensures Sent(p[u].id, n) in Notify(p, userIds, n)
  {
    NotifyExactly(p, userIds, n);
    var o := OpenIn(p, userIds);
    var k :| 0 <= k < |o| && o[k] == u;
    assert Notify(p, userIds, n)[k] == Sent(p[u].id, n);
  }

  /** Nothing is sent when no member has an open socket, and never to anyone else. */
  lemma NotifyOnlyOpen(p: Participants, userIds: seq<UserId>, n: Notice, s: Sent<Notice>)
    requires s in Notify(p, userIds, n)
    ensures s.msg == n && exists u :: u in OpenIn(p, userIds) && p[u].id == s.to
  {
    NotifyExactly(p, userIds, n);
    var r, o := Notify(p, userIds, n), OpenIn(p, userIds);
    var k :| 0 <= k < |r| && r[k] == s;
    assert o[k] in o;
  }

  // ---------------------------------------------------------------------------------------
  // Set and Map updates

  /** `new Set(userIds)`: first occurrences, in order. */
  function Dedup(s: seq<UserId>): (r: seq<UserId>)
    ensures Distinct(r)
    ensures forall u :: u in r <==> u in s
  {
    if s == [] then []
    else
      assert s == s[..|s| - 1] + [s[|s| - 1]];
      AddLast(Dedup(s[..|s| - 1]), s[|s| - 1])
  }

  /** A duplicate-free array makes a Set with the same iteration order. */
  lemma {:induction false} DedupOfDistinct(s: seq<UserId>)
    requires Distinct(s)
    ensures Dedup(s) == s
  {
    if s != [] {
      var init := s[..|s| - 1];
      assert s == init + [s[|s| - 1]];
      assert Distinct(init) by {
        forall i, j | 0 <= i < j < |init| ensures init[i] != init[j] { assert init[i] == s[i] && init[j] == s[j]; }
      }
      DedupOfDistinct(init);
      assert s[|s| - 1] !in init by {
        forall i | 0 <= i < |init| ensures init[i] != s[|s| - 1] { assert init[i] == s[i]; }
      }
    }
  }

  /** `s.filter(id => !from.has(id))`. */
  function Missing(s: seq<UserId>, from: seq<UserId>): (r: seq<UserId>)
    ensures forall u :: u in r <==> u in s && u !in from
    ensures r == [] <==> forall u :: u in s ==> u in from
  {
    if s == [] then []
    else
      var init, u := s[..|s| - 1], s[|s| - 1];
      assert s == init + [u];
      if u in from then Missing(init, from) else Missing(init, from) + [u]
  }

  /** `s.forEach(id => m.set(id, key))`. */
  function Assign(m: map<UserId, string>, s: seq<UserId>, key: string): (r: map<UserId, string>)
    ensures r.Keys == m.Keys + Members(s)
    ensures forall u :: u in r ==> r[u] == if u in s then key else m[u]
  {
    if s == [] then m
    else
      assert s == s[..|s| - 1] + [s[|s| - 1]];
      Assign(m, s[..|s| - 1], key)[s[|s| - 1] := key]
  }

  /** `s.forEach(id => m.delete(id))`. */
  function Unmap(m: map<UserId, string>, s: seq<UserId>): (r: map<UserId, string>)
    ensures r.Keys == m.Keys - Members(s)
    ensures forall u :: u in r ==> r[u] == m[u]
  {
    if s == [] then m
    else
      assert s == s[..|s| - 1] + [s[|s| - 1]];
      Unmap(m, s[..|s| - 1]) - {s[|s| - 1]}
  }

  // ---------------------------------------------------------------------------------------
  // Rooms

  /** `sendProximityMessage(room)`. */
  function SendProximity(t: Tables, p: Participants, room: Room): Tables {
    t.(outbox := t.outbox + Notify(p, room.userIds, ProximityNotice(room)))
  }

  /** `sendProximityLeftMessage(room)`. */
  function SendLeft(t: Tables, p: Participants, room: Room): Tables {
    t.(outbox := t.outbox + Notify(p, room.userIds, LeftNotice(room)))
  }

  /** The room `createProximityRoom` builds: the next id from the id source, the members as a
      Set, and a running heartbeat. */
  function NewRoom(t: Tables, ids: nat -> string, userIds: seq<UserId>): Room {
    Room(ids(t.created), Dedup(userIds), true)
  }

  /** `createProximityRoom`: draws an id and greets the new room once. */
  function CreateRoom(t: Tables, p: Participants, ids: nat -> string, userIds: seq<UserId>): Tables {
    SendProximity(t.(created := t.created + 1), p, NewRoom(t, ids, userIds))
  }

  /** `destroyProximityRoom(key)`. */
  function DestroyRoom(t: Tables, p: Participants, key: string): Tables {
    if key !in t.rooms then t
    else
      var room := t.rooms[key];
      var t1 := SendLeft(t, p, room);
      t1.(userToRoom := Unmap(t1.userToRoom, room.userIds), rooms := t1.rooms - {key})
  }

  /** `updateProximityRoom(key, userIds)`. */
  function UpdateRoom(t: Tables, p: Participants, ids: nat -> string, key: string, userIds: seq<UserId>): Tables {
    if key in t.rooms then
      var existing := t.rooms[key];
      var added := Missing(userIds, existing.userIds);
      var removed := Missing(existing.userIds, userIds);
      if |added| > 0 || |removed| > 0 then
        var room := existing.(userIds := Dedup(userIds));
        var t1 := t.(rooms := t.rooms[key := room],
                     userToRoom := Assign(Unmap(t.userToRoom, removed), added, key));
        SendProximity(t1, p, room)
      else t
    else
      var room := NewRoom(t, ids, userIds);
      var t1 := CreateRoom(t, p, ids, userIds);
      t1.(rooms := t1.rooms[key := room], userToRoom := Assign(t1.userToRoom, userIds, key))
  }

  /** Destroying a room sends PROXIMITY_LEFT to its open members, stops its heartbeat with it,
      deletes it, and deletes the room mapping of every member, whatever key that mapping held;
      an absent key changes nothing. */
  lemma DestroyRoomEffect(t: Tables, p: Participants, key: string)
    ensures var r := DestroyRoom(t, p, key);
      && r.groupKeys == t.groupKeys && r.created == t.created
      && (key !in t.rooms ==> r == t)
      && (key in t.rooms ==>
            var room := t.rooms[key];
            && r.rooms == t.rooms - {key}
            && r.outbox == t.outbox + Notify(p, room.userIds, ProximityLeft(room.roomId, LeftText))
            && (forall u :: u in room.userIds ==> u !in r.userToRoom)
            && (forall u :: u in r.userToRoom <==> u in t.userToRoom && u !in room.userIds)
            && (forall u :: u in r.userToRoom ==> r.userToRoom[u] == t.userToRoom[u]))
  {
  }

  /** A key seen for the first time gets one new room: a fresh sub-room id, exactly the group's
      members, a running heartbeat and every member mapped to the key; the members with an open
      socket are greeted once with the room id and the member list. */
  lemma UpdateRoomNew(t: Tables, p: Participants, ids: nat -> string, key: string, userIds: seq<UserId>)
    requires key !in t.rooms
    ensures var r := UpdateRoom(t, p, ids, key, userIds);
      var room := r.rooms[key];
      && r.rooms == t.rooms[key := NewRoom(t, ids, userIds)]
      && room.roomId == ids(t.created) && room.heartbeat
      && (forall u :: u in room.userIds <==> u in userIds) && Distinct(room.userIds)
      && r.created == t.created + 1 && r.groupKeys == t.groupKeys
      && (forall u :: u in userIds ==> u in r.userToRoom && r.userToRoom[u] == key)
      && (forall u :: u !in userIds ==> (u in r.userToRoom <==> u in t.userToRoom))
      && (forall u :: u in t.userToRoom && u !in userIds ==> r.userToRoom[u] == t.userToRoom[u])
      && r.outbox == t.outbox + Notify(p, room.userIds, ProximityMessage(room.roomId, ProximityText(room.userIds), room.userIds))
  {
  }

  /** A room whose members are already exactly the group is left alone: nothing is sent and no
      table changes. */
  lemma UpdateRoomSame(t: Tables, p: Participants, ids: nat -> string, key: string, userIds: seq<UserId>)
    requires key in t.rooms && Members(t.rooms[key].userIds) == Members(userIds)
    ensures UpdateRoom(t, p, ids, key, userIds) == t
  {
    var existing := t.rooms[key];
    var added := Missing(userIds, existing.userIds);
    var removed := Missing(existing.userIds, userIds);
  }

  /** A room whose membership changed keeps its id and heartbeat and takes the new members;
      the users who left lose their mapping, those who joined are mapped to the key, and the
      new member list is announced once. */
  lemma UpdateRoomChanged(t: Tables, p: Participants, ids: nat -> string, key: string, userIds: seq<UserId>)
    requires key in t.rooms && Members(t.rooms[key].userIds) != Members(userIds)
    ensures var r, prev := UpdateRoom(t, p, ids, key, userIds), t.rooms[key];
      && r.rooms == t.rooms[key := prev.(userIds := Dedup(userIds))]
      && r.created == t.created && r.groupKeys == t.groupKeys
      && (forall u :: u in userIds && u !in prev.userIds ==> u in r.userToRoom && r.userToRoom[u] == key)
      && (forall u :: u in prev.userIds && u !in userIds ==> u !in r.userToRoom)
      && (forall u :: (u in prev.userIds <==> u in userIds) ==>
            (u in r.userToRoom <==> u in t.userToRoom) && (u in t.userToRoom ==> r.userToRoom[u] == t.userToRoom[u]))
      && r.outbox == t.outbox + Notify(p, Dedup(userIds), ProximityNotice(prev.(userIds := Dedup(userIds))))
  {
    var existing := t.rooms[key];
    var added := Missing(userIds, existing.userIds);
    var removed := Missing(existing.userIds, userIds);
    assert |added| > 0 || |removed| > 0 by {
      var u :| u in Members(existing.userIds) - Members(userIds) || u in Members(userIds) - Members(existing.userIds);
      assert u in added || u in removed;
    }
    var room := existing.(userIds := Dedup(userIds));
    var m := Assign(Unmap(t.userToRoom, removed), added, key);
    assert UpdateRoom(t, p, ids, key, userIds) == SendProximity(t.(rooms := t.rooms[key := room], userToRoom := m), p, room);
  }

  /** Overwriting a key and then deleting it is deleting it. */
  lemma UpdateThenRemove(m: map<string, Room>, key: string, room: Room)
    ensures m[key := room] - {key} == m - {key}
  {
  }

  /** What `updateProximityRoom(key, group)` guarantees whatever happened before: the key holds
      a room with exactly the group's members, and no other room and no key of
      `userProximityGroups` is touched. */
  lemma UpdateRoomFrame(t: Tables, p: Participants, ids: nat -> string, key: string, userIds: seq<UserId>)
    ensures var r := UpdateRoom(t, p, ids, key, userIds);
      && r.groupKeys == t.groupKeys
      && key in r.rooms && Members(r.rooms[key].userIds) == Members(userIds)
      && (forall k :: k != key ==> (k in r.rooms <==> k in t.rooms))
      && (forall k :: k != key && k in t.rooms ==> r.rooms[k] == t.rooms[k])
  {
    if key in t.rooms && Members(t.rooms[key].userIds) == Members(userIds) {
      UpdateRoomSame(t, p, ids, key, userIds);
    }
  }

  /** Every room is live: its heartbeat runs, it has two or more members, sorted, and it is
      stored under the key made from them. */
  ghost predicate RoomsFine(rooms: map<string, Room>) {
    forall k :: k in rooms ==>
      && rooms[k].heartbeat && |rooms[k].userIds| >= 2 && Sorted(rooms[k].userIds)
      && k == GroupKey(rooms[k].userIds)
  }

  /** The invariant the two public operations keep: `userProximityGroups` lists, once each,
      exactly the keys of `proximityRooms`, and every room is live. */
  ghost predicate Consistent(t: Tables) {
    Distinct(t.groupKeys) && Members(t.groupKeys) == t.rooms.Keys && RoomsFine(t.rooms)
  }

  /** Updating the room of a sorted group of two or more under its own key keeps every room
      live and leaves that room with exactly the group as members. */
  lemma UpdateRoomFine(t: Tables, p: Participants, ids: nat -> string, key: string, group: seq<UserId>)
    requires RoomsFine(t.rooms) && |group| >= 2 && Sorted(group) && key == GroupKey(group)
    ensures var r := UpdateRoom(t, p, ids, key, group);
      RoomsFine(r.rooms) && key in r.rooms && r.rooms[key].userIds == group
  {
    SortedDistinct(group);
    DedupOfDistinct(group);
    if key !in t.rooms {
      UpdateRoomNew(t, p, ids, key, group);
      RoomsFineUpdate(t.rooms, key, NewRoom(t, ids, group));
    } else if Members(t.rooms[key].userIds) == Members(group) {
      UpdateRoomSame(t, p, ids, key, group);
      SortedUnique(t.rooms[key].userIds, group);
    } else {
      UpdateRoomChanged(t, p, ids, key, group);
      RoomsFineUpdate(t.rooms, key, t.rooms[key].(userIds := group));
    }
  }

  lemma RoomsFineUpdate(rooms: map<string, Room>, key: string, room: Room)
    requires RoomsFine(rooms)
    requires room.heartbeat && |room.userIds| >= 2 && Sorted(room.userIds) && key == GroupKey(room.userIds)
    ensures RoomsFine(rooms[key := room])
  {
  }

  // ---------------------------------------------------------------------------------------
  // checkUserProximity: the groups

  /** One kept group in the `groups.forEach` of `checkUserProximity`: its key joins
      `userProximityGroups` if new, then its room is created or updated. */
  function ProcessGroup(t: Tables, p: Participants, ids: nat -> string, group: seq<UserId>): Tables {
    var key := GroupKey(group);
    UpdateRoom(t.(groupKeys := AddLast(t.groupKeys, key)), p, ids, key, group)
  }

  function ProcessGroups(t: Tables, p: Participants, ids: nat -> string, groups: seq<seq<UserId>>): Tables {
    if groups == [] then t
    else ProcessGroup(ProcessGroups(t, p, ids, groups[..|groups| - 1]), p, ids, groups[|groups| - 1])
  }

  /** The keys of the groups as they are processed. */
  function KeysOf(groups: seq<seq<UserId>>): set<string> {
    set k | 0 <= k < |groups| :: GroupKey(groups[k])
  }

  /** `new Set(groups.map(g => g.sort().join('-')))`. */
  function CurrentKeys(groups: seq<seq<UserId>>): set<string> {
    set k | 0 <= k < |groups| :: GroupKey(Sort(groups[k]))
  }

  /** No two groups share a key. */
  ghost predicate DistinctKeys(groups: seq<seq<UserId>>) {
    forall i, j :: 0 <= i < j < |groups| ==> GroupKey(groups[i]) != GroupKey(groups[j])
  }

  /** What the component search hands over: sorted groups of two or more with distinct keys. */
  ghost predicate GroupFamily(groups: seq<seq<UserId>>) {
    && (forall i :: 0 <= i < |groups| ==> |groups[i]| >= 2 && Sorted(groups[i]))
    && DistinctKeys(groups)
  }

  lemma KeysOfAppend(groups: seq<seq<UserId>>)
    requires |groups| > 0
    ensures KeysOf(groups) == KeysOf(groups[..|groups| - 1]) + {GroupKey(groups[|groups| - 1])}
  {
    var init := groups[..|groups| - 1];
    forall k | k in KeysOf(groups) ensures k in KeysOf(init) + {GroupKey(groups[|groups| - 1])} {
      var i :| 0 <= i < |groups| && GroupKey(groups[i]) == k;
      if i < |init| { assert init[i] == groups[i]; }
    }
    forall k | k in KeysOf(init) ensures k in KeysOf(groups) {
      var i :| 0 <= i < |init| && GroupKey(init[i]) == k;
      assert groups[i] == init[i];
    }
  }

  /** Sorting the already sorted groups again does not change their keys. */
  lemma CurrentKeysOfSorted(groups: seq<seq<UserId>>)
    requires forall i :: 0 <= i < |groups| ==> Sorted(groups[i])
    ensures CurrentKeys(groups) == KeysOf(groups)
  {
    forall i | 0 <= i < |groups| ensures Sort(groups[i]) == groups[i] { SortOfSorted(groups[i]); }
  }

  lemma DistinctKeysInit(groups: seq<seq<UserId>>)
    requires |groups| > 0 && DistinctKeys(groups)
    ensures DistinctKeys(groups[..|groups| - 1])
    ensures GroupKey(groups[|groups| - 1]) !in KeysOf(groups[..|groups| - 1])
  {
    var init := groups[..|groups| - 1];
    forall i, j | 0 <= i < j < |init| ensures GroupKey(init[i]) != GroupKey(init[j]) {
      assert init[i] == groups[i] && init[j] == groups[j];
    }
    forall i | 0 <= i < |init| ensures GroupKey(init[i]) != GroupKey(groups[|groups| - 1]) {
      assert init[i] == groups[i];
    }
  }

  /** After the groups are processed, `userProximityGroups` has gained their keys. */
  lemma {:induction false} ProcessGroupsKeys(t: Tables, p: Participants, ids: nat -> string, groups: seq<seq<UserId>>)
    ensures var r := ProcessGroups(t, p, ids, groups);
      && Members(r.groupKeys) == Members(t.groupKeys) + KeysOf(groups)
      && (Distinct(t.groupKeys) ==> Distinct(r.groupKeys))
  {
    if groups != [] {
      var init, g := groups[..|groups| - 1], groups[|groups| - 1];
      var key := GroupKey(g);
      ProcessGroupsKeys(t, p, ids, init);
      KeysOfAppend(groups);
      var t1 := ProcessGroups(t, p, ids, init);
      var t2 := t1.(groupKeys := AddLast(t1.groupKeys, key));
      UpdateRoomFrame(t2, p, ids, key, g);
      assert Members(t2.groupKeys) == Members(t1.groupKeys) + {key};
    }
  }

  /** Processing the groups leaves the room under any other key as it was. */
  lemma {:induction false} ProcessGroupsOther(t: Tables, p: Participants, ids: nat -> string, groups: seq<seq<UserId>>, k: string)
    requires k !in KeysOf(groups)
    ensures var r := ProcessGroups(t, p, ids, groups);
      (k in r.rooms <==> k in t.rooms) && (k in t.rooms ==> r.rooms[k] == t.rooms[k])
  {
    if groups != [] {
      var init, g := groups[..|groups| - 1], groups[|groups| - 1];
      KeysOfAppend(groups);
      ProcessGroupsOther(t, p, ids, init, k);
      var t1 := ProcessGroups(t, p, ids, init);
      UpdateRoomFrame(t1.(groupKeys := AddLast(t1.groupKeys, GroupKey(g))), p, ids, GroupKey(g), g);
    }
  }

  /** After the groups are processed, each group's key holds a room with exactly its members. */
  lemma {:induction false} ProcessGroupsOwn(t: Tables, p: Participants, ids: nat -> string, groups: seq<seq<UserId>>, i: nat)
    requires DistinctKeys(groups) && i < |groups|
    ensures var r, key := ProcessGroups(t, p, ids, groups), GroupKey(groups[i]);
      key in r.rooms && Members(r.rooms[key].userIds) == Members(groups[i])
  {
    var init := groups[..|groups| - 1];
    if i < |init| {
      assert init[i] == groups[i] && GroupKey(groups[i]) != GroupKey(groups[|groups| - 1]) by {
        DistinctKeysInit(groups);
      }
      ProcessGroupsOwn(t, p, ids, init, i);
      ProcessGroupsKeepsEarlier(t, p, ids, groups, GroupKey(groups[i]));
    } else {
      ProcessGroupsOwnLast(t, p, ids, groups);
    }
  }

  lemma ProcessGroupsOwnLast(t: Tables, p: Participants, ids: nat -> string, groups: seq<seq<UserId>>)
    requires |groups| > 0
    ensures var r, g := ProcessGroups(t, p, ids, groups), groups[|groups| - 1];
      GroupKey(g) in r.rooms && Members(r.rooms[GroupKey(g)].userIds) == Members(g)
  {
    ProcessGroupFrame(ProcessGroups(t, p, ids, groups[..|groups| - 1]), p, ids, groups[|groups| - 1]);
  }

  lemma ProcessGroupsKeepsEarlier(t: Tables, p: Participants, ids: nat -> string, groups: seq<seq<UserId>>, key: string)
    requires |groups| > 0 && key != GroupKey(groups[|groups| - 1])
    requires key in ProcessGroups(t, p, ids, groups[..|groups| - 1]).rooms
    ensures var r, t1 := ProcessGroups(t, p, ids, groups), ProcessGroups(t, p, ids, groups[..|groups| - 1]);
      key in r.rooms && r.rooms[key] == t1.rooms[key]
  {
    ProcessGroupFrame(ProcessGroups(t, p, ids, groups[..|groups| - 1]), p, ids, groups[|groups| - 1]);
  }

  /** Processing one group leaves its key holding a room with exactly its members, and every
      other room as it was. */
  lemma ProcessGroupFrame(t: Tables, p: Participants, ids: nat -> string, g: seq<UserId>)
    ensures var r, key := ProcessGroup(t, p, ids, g), GroupKey(g);
      && key in r.rooms && Members(r.rooms[key].userIds) == Members(g)
      && (forall k :: k != key ==> (k in r.rooms <==> k in t.rooms))
      && (forall k :: k != key && k in t.rooms ==> r.rooms[k] == t.rooms[k])
  {
    UpdateRoomFrame(t.(groupKeys := AddLast(t.groupKeys, GroupKey(g))), p, ids, GroupKey(g), g);
  }

  /** With `userProximityGroups` matching the rooms beforehand, it still matches them after
      the groups are processed. */
  lemma ProcessGroupsRoomKeys(t: Tables, p: Participants, ids: nat -> string, groups: seq<seq<UserId>>)
    requires DistinctKeys(groups) && Members(t.groupKeys) == t.rooms.Keys
    ensures var r := ProcessGroups(t, p, ids, groups);
      r.rooms.Keys == Members(r.groupKeys)
  {
    var r := ProcessGroups(t, p, ids, groups);
    ProcessGroupsKeys(t, p, ids, groups);
    forall k ensures k in r.rooms <==> k in Members(t.groupKeys) + KeysOf(groups) {
      if k in KeysOf(groups) {
        var i :| 0 <= i < |groups| && GroupKey(groups[i]) == k;
        ProcessGroupsOwn(t, p, ids, groups, i);
      } else {
        ProcessGroupsOther(t, p, ids, groups, k);
      }
    }
  }

  /** Both of the above, for all keys at once. */
  lemma ProcessGroupsRooms(t: Tables, p: Participants, ids: nat -> string, groups: seq<seq<UserId>>)
    requires DistinctKeys(groups)
    ensures var r := ProcessGroups(t, p, ids, groups);
      && (forall k :: k !in KeysOf(groups) ==> (k in r.rooms <==> k in t.rooms))
      && (forall k :: k !in KeysOf(groups) && k in t.rooms ==> r.rooms[k] == t.rooms[k])
      && (forall i :: 0 <= i < |groups| ==> GroupKey(groups[i]) in r.rooms)
      && (forall i :: 0 <= i < |groups| ==> Members(r.rooms[GroupKey(groups[i])].userIds) == Members(groups[i]))
  {
    forall k | k !in KeysOf(groups)
      ensures var r := ProcessGroups(t, p, ids, groups);
        (k in r.rooms <==> k in t.rooms) && (k in t.rooms ==> r.rooms[k] == t.rooms[k])
    {
      ProcessGroupsOther(t, p, ids, groups, k);
    }
    forall i | 0 <= i < |groups|
      ensures var r, key := ProcessGroups(t, p, ids, groups), GroupKey(groups[i]);
        key in r.rooms && Members(r.rooms[key].userIds) == Members(groups[i])
    {
      ProcessGroupsOwn(t, p, ids, groups, i);
    }
  }

  /** With every room live beforehand, processing the groups keeps every room live and leaves
      each group's key holding exactly that group. */
  lemma {:induction false} ProcessGroupsFine(t: Tables, p: Participants, ids: nat -> string, groups: seq<seq<UserId>>)
    requires GroupFamily(groups) && RoomsFine(t.rooms)
    ensures var r := ProcessGroups(t, p, ids, groups);
      && RoomsFine(r.rooms)
      && (forall i :: 0 <= i < |groups| ==> GroupKey(groups[i]) in r.rooms && r.rooms[GroupKey(groups[i])].userIds == groups[i])
  {
    if groups != [] {
      var init, g := groups[..|groups| - 1], groups[|groups| - 1];
      var key := GroupKey(g);
      DistinctKeysInit(groups);
      assert GroupFamily(init) by {
        forall i | 0 <= i < |init| ensures |init[i]| >= 2 && Sorted(init[i]) { assert init[i] == groups[i]; }
      }
      ProcessGroupsFine(t, p, ids, init);
      var t1 := ProcessGroups(t, p, ids, init);
      var t2 := t1.(groupKeys := AddLast(t1.groupKeys, key));
      UpdateRoomFrame(t2, p, ids, key, g);
      UpdateRoomFine(t2, p, ids, key, g);
      forall i | 0 <= i < |groups| - 1
        ensures GroupKey(groups[i]) != key && groups[i] == init[i]
      {
      }
    }
  }

  // ---------------------------------------------------------------------------------------
  // Sweeps over `userProximityGroups`

  /** Which keys a sweep drops: those not among the current group keys (`checkUserProximity`),
      or those containing a user id as a substring (`removeUser`). */
  datatype Criterion = NotCurrent(current: set<string>) | Including(userId: UserId)

  predicate Doomed(c: Criterion, key: string) {
    match c
    case NotCurrent(current) => key !in current
    case Including(userId) => Includes(key, userId)
  }

  /** `userProximityGroups.forEach(key => if doomed { delete(key); destroyProximityRoom(key) })`.
      The callback only deletes the key being visited, so the keys visited are those present
      when the sweep starts, in insertion order: `keys`. */
  function Sweep(t: Tables, p: Participants, c: Criterion, keys: seq<string>): Tables {
    if keys == [] then t
    else
      var t1 := Sweep(t, p, c, keys[..|keys| - 1]);
      var key := keys[|keys| - 1];
      if Doomed(c, key) then DestroyRoom(t1.(groupKeys := Without(t1.groupKeys, key)), p, key)
      else t1
  }

  /** A sweep drops exactly the doomed keys among those it visits. */
  lemma {:induction false} SweepKeys(t: Tables, p: Participants, c: Criterion, keys: seq<string>)
    ensures var r := Sweep(t, p, c, keys);
      && (forall k :: k in r.groupKeys <==> k in t.groupKeys && !(k in keys && Doomed(c, k)))
      && (Distinct(t.groupKeys) ==> Distinct(r.groupKeys))
  {
    if keys != [] {
      var init, key := keys[..|keys| - 1], keys[|keys| - 1];
      assert keys == init + [key];
      SweepKeys(t, p, c, init);
      var t1 := Sweep(t, p, c, init);
      if Doomed(c, key) {
        DestroyRoomEffect(t1.(groupKeys := Without(t1.groupKeys, key)), p, key);
      }
    }
  }

  /** A sweep removes the room of a key exactly when it visits the key and the key is doomed,
      and never changes a room it keeps. */
  lemma {:induction false} SweepRoomAt(t: Tables, p: Participants, c: Criterion, keys: seq<string>, k: string)
    ensures var r := Sweep(t, p, c, keys);
      && (k in r.rooms <==> k in t.rooms && !(k in keys && Doomed(c, k)))
      && (k in r.rooms ==> r.rooms[k] == t.rooms[k])
  {
    if keys != [] {
      var init, key := keys[..|keys| - 1], keys[|keys| - 1];
      assert keys == init + [key];
      SweepRoomAt(t, p, c, init, k);
      var t1 := Sweep(t, p, c, init);
      if Doomed(c, key) {
        DestroyRoomEffect(t1.(groupKeys := Without(t1.groupKeys, key)), p, key);
      }
    }
  }

  lemma SweepRooms(t: Tables, p: Participants, c: Criterion, keys: seq<string>)
    ensures var r := Sweep(t, p, c, keys);
      && (forall k :: k in r.rooms <==> k in t.rooms && !(k in keys && Doomed(c, k)))
      && (forall k :: k in r.rooms ==> r.rooms[k] == t.rooms[k])
  {
    forall k ensures var r := Sweep(t, p, c, keys);
      && (k in r.rooms <==> k in t.rooms && !(k in keys && Doomed(c, k)))
      && (k in r.rooms ==> r.rooms[k] == t.rooms[k])
    {
      SweepRoomAt(t, p, c, keys, k);
    }
  }

  /** A sweep never adds or changes a room mapping, draws no id, and only appends frames. */
  lemma {:induction false} SweepRest(t: Tables, p: Participants, c: Criterion, keys: seq<string>)
    ensures var r := Sweep(t, p, c, keys);
      && r.created == t.created
      && (forall u :: u in r.userToRoom ==> u in t.userToRoom && r.userToRoom[u] == t.userToRoom[u])
      && t.outbox <= r.outbox
  {
    if keys != [] {
      var init, key := keys[..|keys| - 1], keys[|keys| - 1];
      SweepRest(t, p, c, init);
      var t1 := Sweep(t, p, c, init);
      if Doomed(c, key) {
        DestroyRoomEffect(t1.(groupKeys := Without(t1.groupKeys, key)), p, key);
      }
    }
  }

  /** Every doomed key visited loses its room: each former member with an open socket is told
      PROXIMITY_LEFT, and each former member loses its room mapping, whatever key it held. */
  lemma {:induction false} SweepDestroys(t: Tables, p: Participants, c: Criterion, keys: seq<string>, key: string)
    requires key in keys && Doomed(c, key) && key in t.rooms
    ensures var r, room := Sweep(t, p, c, keys), t.rooms[key];
      && (forall u :: u in room.userIds ==> u !in r.userToRoom)
      && (forall u :: u in room.userIds && u in p && p[u].open ==> Sent(p[u].id, LeftNotice(room)) in r.outbox)
  {
    var init, last := keys[..|keys| - 1], keys[|keys| - 1];
    assert keys == init + [last];
    var t1 := Sweep(t, p, c, init);
    var room := t.rooms[key];
    if key in init {
      SweepDestroys(t, p, c, init, key);
      if Doomed(c, last) {
        DestroyRoomEffect(t1.(groupKeys := Without(t1.groupKeys, last)), p, last);
      }
    } else {
      SweepRooms(t, p, c, init);
      assert t1.rooms[key] == room;
      DestroyRoomEffect(t1.(groupKeys := Without(t1.groupKeys, key)), p, key);
      forall u | u in room.userIds && u in p && p[u].open
        ensures Sent(p[u].id, LeftNotice(room)) in Sweep(t, p, c, keys).outbox
      {
        NotifyReaches(p, room.userIds, LeftNotice(room), u);
      }
    }
  }

  /** A sweep that finds nothing doomed changes nothing. */
  lemma {:induction false} SweepNothingDoomed(t: Tables, p: Participants, c: Criterion, keys: seq<string>)
    requires forall k :: k in keys ==> !Doomed(c, k)
    ensures Sweep(t, p, c, keys) == t
  {
    if keys != [] {
      assert keys == keys[..|keys| - 1] + [keys[|keys| - 1]];
      SweepNothingDoomed(t, p, c, keys[..|keys| - 1]);
    }
  }

  /** With the tables consistent beforehand, a sweep over all of `userProximityGroups` keeps
      them consistent. */
  lemma SweepConsistent(t: Tables, p: Participants, c: Criterion)
    requires Consistent(t)
    ensures Consistent(Sweep(t, p, c, t.groupKeys))
  {
    SweepKeys(t, p, c, t.groupKeys);
    SweepRooms(t, p, c, t.groupKeys);
  }

  // ---------------------------------------------------------------------------------------
  // checkUserProximity: the whole reconciliation

  /** Everything `checkUserProximity` does to the tables once the groups are known. */
  function Reconcile(t: Tables, p: Participants, ids: nat -> string, groups: seq<seq<UserId>>): Tables {
    var t1 := ProcessGroups(t, p, ids, groups);
    Sweep(t1, p, NotCurrent(CurrentKeys(groups)), t1.groupKeys)
  }

  /** After a reconciliation `userProximityGroups` holds exactly the current group keys, each
      of them holds a room with exactly its group's members, and when the key set used to match
      the rooms, the rooms are exactly those of the current groups. */
  lemma ReconcileTables(t: Tables, p: Participants, ids: nat -> string, groups: seq<seq<UserId>>)
    requires GroupFamily(groups)
    ensures var r := Reconcile(t, p, ids, groups);
      && Members(r.groupKeys) == CurrentKeys(groups)
      && (Distinct(t.groupKeys) ==> Distinct(r.groupKeys))
      && (forall i :: 0 <= i < |groups| ==> GroupKey(groups[i]) in r.rooms)
      && (forall i :: 0 <= i < |groups| ==> Members(r.rooms[GroupKey(groups[i])].userIds) == Members(groups[i]))
      && (Members(t.groupKeys) == t.rooms.Keys ==> r.rooms.Keys == CurrentKeys(groups))
  {
    ReconcileKeys(t, p, ids, groups);
    ReconcileRooms(t, p, ids, groups);
  }

  lemma ReconcileKeys(t: Tables, p: Participants, ids: nat -> string, groups: seq<seq<UserId>>)
    requires GroupFamily(groups)
    ensures var r := Reconcile(t, p, ids, groups);
      && Members(r.groupKeys) == CurrentKeys(groups)
      && (Distinct(t.groupKeys) ==> Distinct(r.groupKeys))
  {
    var t1 := ProcessGroups(t, p, ids, groups);
    var cur := CurrentKeys(groups);
    var r := Sweep(t1, p, NotCurrent(cur), t1.groupKeys);
    ProcessGroupsKeys(t, p, ids, groups);
    CurrentKeysOfSorted(groups);
    SweepKeys(t1, p, NotCurrent(cur), t1.groupKeys);
    KeptKeys(t1.groupKeys, Members(r.groupKeys), cur);
  }

  lemma ReconcileRooms(t: Tables, p: Participants, ids: nat -> string, groups: seq<seq<UserId>>)
    requires GroupFamily(groups)
    ensures var r := Reconcile(t, p, ids, groups);
      && (forall i :: 0 <= i < |groups| ==> GroupKey(groups[i]) in r.rooms)
      && (forall i :: 0 <= i < |groups| ==> Members(r.rooms[GroupKey(groups[i])].userIds) == Members(groups[i]))
      && (Members(t.groupKeys) == t.rooms.Keys ==> r.rooms.Keys == CurrentKeys(groups))
  {
    forall i | 0 <= i < |groups|
      ensures var r, key := Reconcile(t, p, ids, groups), GroupKey(groups[i]);
        key in r.rooms && Members(r.rooms[key].userIds) == Members(groups[i])
    {
      ReconcileRoomOf(t, p, ids, groups, i);
    }
    if Members(t.groupKeys) == t.rooms.Keys {
      ReconcileRoomKeys(t, p, ids, groups);
    }
  }

  lemma ReconcileRoomOf(t: Tables, p: Participants, ids: nat -> string, groups: seq<seq<UserId>>, i: nat)
    requires GroupFamily(groups) && i < |groups|
    ensures var r, key := Reconcile(t, p, ids, groups), GroupKey(groups[i]);
      key in r.rooms && Members(r.rooms[key].userIds) == Members(groups[i])
  {
    var t1 := ProcessGroups(t, p, ids, groups);
    var cur := CurrentKeys(groups);
    var key := GroupKey(groups[i]);
    ProcessGroupsOwn(t, p, ids, groups, i);
    CurrentKeysOfSorted(groups);
    assert key in KeysOf(groups);
    SweepRoomAt(t1, p, NotCurrent(cur), t1.groupKeys, key);
  }

  lemma ReconcileRoomKeys(t: Tables, p: Participants, ids: nat -> string, groups: seq<seq<UserId>>)
    requires GroupFamily(groups) && Members(t.groupKeys) == t.rooms.Keys
    ensures Reconcile(t, p, ids, groups).rooms.Keys == CurrentKeys(groups)
  {
    var t1 := ProcessGroups(t, p, ids, groups);
    var cur := CurrentKeys(groups);
    var r := Sweep(t1, p, NotCurrent(cur), t1.groupKeys);
    ProcessGroupsRoomKeys(t, p, ids, groups);
    ProcessGroupsKeys(t, p, ids, groups);
    CurrentKeysOfSorted(groups);
    SweepRooms(t1, p, NotCurrent(cur), t1.groupKeys);
    KeptKeys(t1.groupKeys, r.rooms.Keys, cur);
  }

  /** What is left of `keys` after dropping every key outside `cur`, when all of `cur` was
      among them. */
  lemma KeptKeys(keys: seq<string>, after: set<string>, cur: set<string>)
    requires cur <= Members(keys)
    requires forall k :: k in after <==> k in keys && !(k in keys && k !in cur)
    ensures after == cur
  {
  }

  /** Reconciling consistent tables leaves them consistent, with each group's key holding
      exactly that group. */
  lemma ReconcileConsistent(t: Tables, p: Participants, ids: nat -> string, groups: seq<seq<UserId>>)
    requires Consistent(t) && GroupFamily(groups)
    ensures var r := Reconcile(t, p, ids, groups);
      && Consistent(r)
      && (forall i :: 0 <= i < |groups| ==> GroupKey(groups[i]) in r.rooms && r.rooms[GroupKey(groups[i])].userIds == groups[i])
  {
    var t1 := ProcessGroups(t, p, ids, groups);
    var cur := CurrentKeys(groups);
    ReconcileTables(t, p, ids, groups);
    ProcessGroupsFine(t, p, ids, groups);
    SweepRooms(t1, p, NotCurrent(cur), t1.groupKeys);
  }

  /** A key that is no longer current loses its room: its open former members are told
      PROXIMITY_LEFT and every former member loses its mapping. */
  lemma ReconcileDropsStale(t: Tables, p: Participants, ids: nat -> string, groups: seq<seq<UserId>>, key: string)
    requires GroupFamily(groups)
    requires key in t.groupKeys && key in t.rooms && key !in CurrentKeys(groups)
    ensures var r, room := Reconcile(t, p, ids, groups), t.rooms[key];
      && key !in r.rooms && key !in r.groupKeys
      && (forall u :: u in room.userIds ==> u !in r.userToRoom)
      && (forall u :: u in room.userIds && u in p && p[u].open ==> Sent(p[u].id, LeftNotice(room)) in r.outbox)
  {
    var t1 := ProcessGroups(t, p, ids, groups);
    var cur := CurrentKeys(groups);
    ProcessGroupsKeys(t, p, ids, groups);
    ProcessGroupsRooms(t, p, ids, groups);
    CurrentKeysOfSorted(groups);
    assert key !in KeysOf(groups);
    assert key in Members(t1.groupKeys);
    SweepKeys(t1, p, NotCurrent(cur), t1.groupKeys);
    SweepRooms(t1, p, NotCurrent(cur), t1.groupKeys);
    SweepDestroys(t1, p, NotCurrent(cur), t1.groupKeys, key);
  }

  /** A user who moved from a group that broke up into a new group is left without a room
      mapping, although the user is a member of the new group's room: the destruction of the
      old room deletes the mapping the new group had just written. */
  lemma ReconcileUnmapsMovedUser(t: Tables, p: Participants, ids: nat -> string, groups: seq<seq<UserId>>,
                                 key: string, i: nat, u: UserId)
    requires GroupFamily(groups)
    requires key in t.groupKeys && key in t.rooms && key !in CurrentKeys(groups)
    requires i < |groups| && u in groups[i] && u in t.rooms[key].userIds
    ensures var r := Reconcile(t, p, ids, groups);
      && GroupKey(groups[i]) in r.rooms && u in r.rooms[GroupKey(groups[i])].userIds
      && u !in r.userToRoom
  {
    ReconcileTables(t, p, ids, groups);
    ReconcileDropsStale(t, p, ids, groups, key);
    assert u in Members(groups[i]);
  }

  lemma {:induction false} ProcessGroupsSettled(t: Tables, p: Participants, ids: nat -> string, groups: seq<seq<UserId>>)
    requires forall i :: 0 <= i < |groups| ==> GroupKey(groups[i]) in t.groupKeys && GroupKey(groups[i]) in t.rooms
    requires forall i :: 0 <= i < |groups| ==> Members(t.rooms[GroupKey(groups[i])].userIds) == Members(groups[i])
    ensures ProcessGroups(t, p, ids, groups) == t
  {
    if groups != [] {
      var init, g := groups[..|groups| - 1], groups[|groups| - 1];
      forall i | 0 <= i < |init| ensures init[i] == groups[i] { }
      ProcessGroupsSettled(t, p, ids, init);
      UpdateRoomSame(t, p, ids, GroupKey(g), g);
    }
  }

  /** When every group already has its key and a room with its members, and no other key is
      live, `checkUserProximity` sends nothing and changes no table. */
  lemma ReconcileSettled(t: Tables, p: Participants, ids: nat -> string, groups: seq<seq<UserId>>)
    requires forall i :: 0 <= i < |groups| ==> GroupKey(groups[i]) in t.groupKeys && GroupKey(groups[i]) in t.rooms
    requires forall i :: 0 <= i < |groups| ==> Members(t.rooms[GroupKey(groups[i])].userIds) == Members(groups[i])
    requires forall k :: k in t.groupKeys ==> k in CurrentKeys(groups)
    ensures Reconcile(t, p, ids, groups) == t
  {
    ProcessGroupsSettled(t, p, ids, groups);
    SweepNothingDoomed(t, p, NotCurrent(CurrentKeys(groups)), t.groupKeys);
  }

  /** Reconciling twice with the same groups is the same as reconciling once. */
  lemma ReconcileIdempotent(t: Tables, p: Participants, ids: nat -> string, groups: seq<seq<UserId>>)
    requires GroupFamily(groups)
    ensures var r := Reconcile(t, p, ids, groups);
      Reconcile(r, p, ids, groups) == r
  {
    var r := Reconcile(t, p, ids, groups);
    ReconcileKeys(t, p, ids, groups);
    CurrentKeysOfSorted(groups);
    forall i | 0 <= i < |groups|
      ensures var key := GroupKey(groups[i]);
        key in r.groupKeys && key in r.rooms && Members(r.rooms[key].userIds) == Members(groups[i])
    {
      assert GroupKey(groups[i]) in KeysOf(groups);
      ReconcileRoomOf(t, p, ids, groups, i);
    }
    ReconcileSettled(r, p, ids, groups);
  }

  /** The groups of a component partition have distinct keys as long as no user id contains
      `-`; two different groups could otherwise share a key. */
  lemma PartitionFamily(graph: map<UserId, seq<UserId>>, groups: seq<seq<UserId>>)
    requires IsComponentPartition(graph, groups)
    requires forall u :: u in graph ==> '-' !in u
    ensures GroupFamily(groups)
  {
    forall i, j | 0 <= i < j < |groups| ensures GroupKey(groups[i]) != GroupKey(groups[j]) {
      forall u | u in groups[i] ensures '-' !in u { CoveredMember(groups, u); }
      forall u | u in groups[j] ensures '-' !in u { CoveredMember(groups, u); }
      assert groups[i][0] in groups[i] && groups[i][0] !in groups[j];
      if GroupKey(groups[i]) == GroupKey(groups[j]) {
        JoinInjective(groups[i], groups[j], '-');
      }
    }
  }

  /** Running `checkUserProximity` a second time on the same positions changes no table and
      sends nothing: any two component partitions of the graph hold the same groups. */
  lemma CheckTwiceChangesNothing(t: Tables, p: Participants, ids: nat -> string,
                                 graph: map<UserId, seq<UserId>>, first: seq<seq<UserId>>, second: seq<seq<UserId>>)
    requires IsComponentPartition(graph, first) && IsComponentPartition(graph, second)
    requires forall u :: u in graph ==> '-' !in u
    ensures var r := Reconcile(t, p, ids, first);
      Reconcile(r, p, ids, second) == r
  {
    var r := Reconcile(t, p, ids, first);
    PartitionFamily(graph, first);
    PartitionFamily(graph, second);
    PartitionUnique(graph, first, second);
    PartitionUnique(graph, second, first);
    ReconcileKeys(t, p, ids, first);
    CurrentKeysOfSorted(first);
    CurrentKeysOfSorted(second);
    forall i | 0 <= i < |second|
      ensures var key := GroupKey(second[i]);
        key in r.groupKeys && key in r.rooms && Members(r.rooms[key].userIds) == Members(second[i])
    {
      assert second[i] in second;
      var j :| 0 <= j < |first| && first[j] == second[i];
      assert GroupKey(first[j]) in KeysOf(first);
      ReconcileRoomOf(t, p, ids, first, j);
    }
    forall k | k in r.groupKeys ensures k in CurrentKeys(second) {
      var j :| 0 <= j < |first| && GroupKey(first[j]) == k;
      assert first[j] in first;
      var i :| 0 <= i < |second| && second[i] == first[j];
    }
    ReconcileSettled(r, p, ids, second);
  }

  // ---------------------------------------------------------------------------------------
  // removeUser

  /** What `removeUser` does to the room of the key the user is mapped to: the user leaves
      it; a room left with fewer than two members is destroyed and its key dropped; otherwise
      the room moves to the key of its sorted remaining members, which are mapped to it, and
      the key set follows. No frame is sent in the last case. */
  function Evict(t: Tables, p: Participants, u: UserId, key: string): Tables {
    if key !in t.rooms then t
    else
      var room := t.rooms[key].(userIds := Without(t.rooms[key].userIds, u));
      if |room.userIds| < 2 then
        var r := DestroyRoom(t.(rooms := t.rooms[key := room]), p, key);
        r.(groupKeys := Without(r.groupKeys, key))
      else
        var remaining := Sort(room.userIds);
        var newKey := GroupKey(remaining);
        if newKey != key then
          t.(rooms := (t.rooms - {key})[newKey := room],
             userToRoom := Assign(t.userToRoom, remaining, newKey),
             groupKeys := AddLast(Without(t.groupKeys, key), newKey))
        else
          t.(rooms := t.rooms[key := room])
  }

  /** The first half of `removeUser`: only a user mapped to a non-empty key (JavaScript
      truthiness) is evicted, and only then is the user's own mapping deleted. */
  function Unseat(t: Tables, p: Participants, u: UserId): Tables {
    if u in t.userToRoom && t.userToRoom[u] != "" then
      var e := Evict(t, p, u, t.userToRoom[u]);
      e.(userToRoom := e.userToRoom - {u})
    else t
  }

  /** `removeUser(u)`: unseat the user, then sweep away every key containing `u` as a
      substring. */
  function RemoveUser(t: Tables, p: Participants, u: UserId): Tables {
    var t1 := Unseat(t, p, u);
    Sweep(t1, p, Including(u), t1.groupKeys)
  }

  /** The room drops below two members: it is destroyed, with PROXIMITY_LEFT to the remaining
      members that are open and their mappings deleted, and its key leaves the key set. */
  lemma EvictSmallRoom(t: Tables, p: Participants, u: UserId, key: string)
    requires key in t.rooms && |Without(t.rooms[key].userIds, u)| < 2
    ensures var r, room := Evict(t, p, u, key), t.rooms[key].(userIds := Without(t.rooms[key].userIds, u));
      && r.rooms == t.rooms - {key}
      && Members(r.groupKeys) == Members(t.groupKeys) - {key}
      && (Distinct(t.groupKeys) ==> Distinct(r.groupKeys))
      && r.outbox == t.outbox + Notify(p, room.userIds, LeftNotice(room))
      && (forall v :: v in room.userIds ==> v !in r.userToRoom)
      && (forall v :: v in r.userToRoom ==> v in t.userToRoom && r.userToRoom[v] == t.userToRoom[v])
  {
    var room := t.rooms[key].(userIds := Without(t.rooms[key].userIds, u));
    DestroyRoomEffect(t.(rooms := t.rooms[key := room]), p, key);
  }

  /** Two or more remain: the same room (same id, same heartbeat) is stored under the key of
      its sorted remaining members, and nothing is sent. */
  lemma EvictRekeys(t: Tables, p: Participants, u: UserId, key: string)
    requires key in t.rooms && |Without(t.rooms[key].userIds, u)| >= 2
    ensures var r, rest := Evict(t, p, u, key), Without(t.rooms[key].userIds, u);
      var newKey := GroupKey(Sort(rest));
      && r.rooms == (t.rooms - {key})[newKey := t.rooms[key].(userIds := rest)]
      && r.outbox == t.outbox && r.created == t.created
      && (newKey == key ==> r.groupKeys == t.groupKeys && r.userToRoom == t.userToRoom)
      && (newKey != key ==> r.groupKeys == AddLast(Without(t.groupKeys, key), newKey))
      && (newKey != key ==> r.userToRoom == Assign(t.userToRoom, Sort(rest), newKey))
  {
    var rest := Without(t.rooms[key].userIds, u);
    var room := t.rooms[key].(userIds := rest);
    var newKey := GroupKey(Sort(rest));
    if newKey == key {
      assert Evict(t, p, u, key) == t.(rooms := t.rooms[key := room]);
      assert (t.rooms - {key})[key := room] == t.rooms[key := room];
    } else {
      assert Evict(t, p, u, key) == t.(rooms := (t.rooms - {key})[newKey := room],
                                        userToRoom := Assign(t.userToRoom, Sort(rest), newKey),
                                        groupKeys := AddLast(Without(t.groupKeys, key), newKey));
    }
  }

  /** Trading `key` for `newKey` in the key set. */
  lemma TradeKey(keys: seq<string>, key: string, newKey: string)
    ensures Members(AddLast(Without(keys, key), newKey)) == Members(keys) - {key} + {newKey}
    ensures Distinct(keys) ==> Distinct(AddLast(Without(keys, key), newKey))
  {
    assert Members(Without(keys, key)) == Members(keys) - {key};
  }

  /** The user is never left with a mapping the user did not already have, and keeps one only
      when it held the empty key, which `if (userRoomKey)` treats as absent. */
  lemma UnseatUnmaps(t: Tables, p: Participants, u: UserId)
    ensures var r := Unseat(t, p, u);
      u in r.userToRoom ==> u in t.userToRoom && t.userToRoom[u] == "" && r == t
  {
  }

  /** Unseating keeps consistent tables consistent. */
  lemma UnseatConsistent(t: Tables, p: Participants, u: UserId)
    requires Consistent(t)
    ensures Consistent(Unseat(t, p, u))
  {
    if u in t.userToRoom && t.userToRoom[u] != "" {
      var key := t.userToRoom[u];
      if key in t.rooms {
        if |Without(t.rooms[key].userIds, u)| < 2 {
          EvictSmallConsistent(t, p, u, key);
        } else {
          EvictRekeyConsistent(t, p, u, key);
        }
      }
    }
  }

  lemma EvictSmallConsistent(t: Tables, p: Participants, u: UserId, key: string)
    requires Consistent(t) && key in t.rooms && |Without(t.rooms[key].userIds, u)| < 2
    ensures Consistent(Evict(t, p, u, key))
  {
    EvictSmallRoom(t, p, u, key);
  }

  lemma EvictRekeyConsistent(t: Tables, p: Participants, u: UserId, key: string)
    requires Consistent(t) && key in t.rooms && |Without(t.rooms[key].userIds, u)| >= 2
    ensures Consistent(Evict(t, p, u, key))
  {
    var rest := Without(t.rooms[key].userIds, u);
    WithoutSorted(t.rooms[key].userIds, u);
    SortOfSorted(rest);
    EvictRekeys(t, p, u, key);
    RoomsFineMove(t.rooms, key, t.rooms[key].(userIds := rest));
    if GroupKey(rest) != key {
      EvictMovedConsistent(t, Evict(t, p, u, key), key, GroupKey(rest));
    }
  }

  /** The key bookkeeping of a room that moves from `key` to `newKey`. */
  lemma EvictMovedConsistent(t: Tables, r: Tables, key: string, newKey: string)
    requires Consistent(t) && key in t.rooms && RoomsFine(r.rooms)
    requires r.rooms.Keys == t.rooms.Keys - {key} + {newKey}
    requires r.groupKeys == AddLast(Without(t.groupKeys, key), newKey)
    ensures Consistent(r)
  {
    TradeKey(t.groupKeys, key, newKey);
  }

  lemma RoomsFineMove(rooms: map<string, Room>, key: string, room: Room)
    requires RoomsFine(rooms)
    requires room.heartbeat && |room.userIds| >= 2 && Sorted(room.userIds)
    ensures RoomsFine((rooms - {key})[GroupKey(room.userIds) := room])
  {
  }

  /** When every room sits under the join of its members, sweeping away the keys containing
      `u` leaves no room with `u` as a member. */
  lemma SweepIncludingClears(t: Tables, p: Participants, u: UserId)
    requires Consistent(t)
    ensures var r := Sweep(t, p, Including(u), t.groupKeys);
      && Consistent(r)
      && (forall k :: k in r.groupKeys ==> !Includes(k, u))
      && (forall k :: k in r.rooms ==> u !in r.rooms[k].userIds)
  {
    var r := Sweep(t, p, Including(u), t.groupKeys);
    SweepConsistent(t, p, Including(u));
    SweepKeys(t, p, Including(u), t.groupKeys);
    SweepRooms(t, p, Including(u), t.groupKeys);
    forall k | k in r.rooms ensures u !in r.rooms[k].userIds {
      var ids := r.rooms[k].userIds;
      if u in ids {
        var i :| 0 <= i < |ids| && ids[i] == u;
        JoinIncludesParts(ids, "-", i);
      }
    }
  }

  /** After `removeUser(u)` on consistent tables, the tables are still consistent, no room has
      `u` as a member, no live key contains `u`, and `u` has no room mapping unless it was
      mapped to the empty key. */
  lemma RemoveUserEffect(t: Tables, p: Participants, u: UserId)
    requires Consistent(t)
    ensures var r := RemoveUser(t, p, u);
      && Consistent(r)
      && (forall k :: k in r.rooms ==> u !in r.rooms[k].userIds)
      && (forall k :: k in r.groupKeys ==> !Includes(k, u))
      && (u in r.userToRoom ==> u in t.userToRoom && t.userToRoom[u] == "")
  {
    var t1 := Unseat(t, p, u);
    UnseatConsistent(t, p, u);
    UnseatUnmaps(t, p, u);
    SweepIncludingClears(t1, p, u);
    SweepRest(t1, p, Including(u), t1.groupKeys);
  }

  /** Whatever the tables, `removeUser(u)` drops every key containing `u` as a substring, and
      destroys the room of every such key the sweep visits (the keys left after unseating `u`);
      `u` keeps no mapping unless it held the empty key. */
  lemma RemoveUserSweeps(t: Tables, p: Participants, u: UserId)
    ensures var r := RemoveUser(t, p, u);
      && (forall k :: k in r.groupKeys ==> !Includes(k, u))
      && (forall k :: k in Unseat(t, p, u).groupKeys && Includes(k, u) ==> k !in r.rooms)
      && (u in r.userToRoom ==> u in t.userToRoom && t.userToRoom[u] == "")
  {
    var t1 := Unseat(t, p, u);
    UnseatUnmaps(t, p, u);
    SweepKeys(t1, p, Including(u), t1.groupKeys);
    SweepRooms(t1, p, Including(u), t1.groupKeys);
    SweepRest(t1, p, Including(u), t1.groupKeys);
  }

  /** The user's room dropping below two members is destroyed and its key dropped. */
  lemma RemoveUserSmallRoom(t: Tables, p: Participants, u: UserId)
    requires u in t.userToRoom && t.userToRoom[u] != "" && t.userToRoom[u] in t.rooms
    requires |Without(t.rooms[t.userToRoom[u]].userIds, u)| < 2
    ensures var r, key := RemoveUser(t, p, u), t.userToRoom[u];
      var room := t.rooms[key].(userIds := Without(t.rooms[key].userIds, u));
      && key !in r.rooms && key !in r.groupKeys
      && (forall v :: v in room.userIds ==> v !in r.userToRoom)
      && (forall v :: v in room.userIds && v in p && p[v].open ==> Sent(p[v].id, LeftNotice(room)) in r.outbox)
  {
    var key := t.userToRoom[u];
    var t1 := Unseat(t, p, u);
    var e := Evict(t, p, u, key);
    var room := t.rooms[key].(userIds := Without(t.rooms[key].userIds, u));
    EvictSmallRoom(t, p, u, key);
    assert t1 == e.(userToRoom := e.userToRoom - {u});
    assert key !in t1.rooms && key !in Members(t1.groupKeys);
    assert forall v :: v in room.userIds ==> v !in t1.userToRoom;
    assert t1.outbox == t.outbox + Notify(p, room.userIds, LeftNotice(room));
    RemoveUserAfterSmallRoom(t1, p, u, key, room);
  }

  lemma RemoveUserAfterSmallRoom(t1: Tables, p: Participants, u: UserId, key: string, room: Room)
    requires key !in t1.rooms && key !in t1.groupKeys
    requires forall v :: v in room.userIds ==> v !in t1.userToRoom
    requires exists before :: t1.outbox == before + Notify(p, room.userIds, LeftNotice(room))
    ensures var r := Sweep(t1, p, Including(u), t1.groupKeys);
      && key !in r.rooms && key !in r.groupKeys
      && (forall v :: v in room.userIds ==> v !in r.userToRoom)
      && (forall v :: v in room.userIds && v in p && p[v].open ==> Sent(p[v].id, LeftNotice(room)) in r.outbox)
  {
    SweepRoomAt(t1, p, Including(u), t1.groupKeys, key);
    SweepKeys(t1, p, Including(u), t1.groupKeys);
    SweepRest(t1, p, Including(u), t1.groupKeys);
    var before :| t1.outbox == before + Notify(p, room.userIds, LeftNotice(room));
    forall v | v in room.userIds && v in p && p[v].open
      ensures Sent(p[v].id, LeftNotice(room)) in Sweep(t1, p, Including(u), t1.groupKeys).outbox
    {
      NotifyReaches(p, room.userIds, LeftNotice(room), v);
      assert Sent(p[v].id, LeftNotice(room)) in t1.outbox;
    }
  }

  /** Two or more remaining members keep their room under the key re-derived from their
      sorted ids, unless that key itself contains `u` as a substring. */
  lemma RemoveUserRekeys(t: Tables, p: Participants, u: UserId)
    requires Consistent(t)
    requires u in t.userToRoom && t.userToRoom[u] != "" && t.userToRoom[u] in t.rooms
    requires |Without(t.rooms[t.userToRoom[u]].userIds, u)| >= 2
    requires !Includes(GroupKey(Sort(Without(t.rooms[t.userToRoom[u]].userIds, u))), u)
    ensures var r, key := RemoveUser(t, p, u), t.userToRoom[u];
      var rest := Without(t.rooms[key].userIds, u);
      var newKey := GroupKey(Sort(rest));
      && newKey in r.rooms && r.rooms[newKey] == t.rooms[key].(userIds := rest)
      && newKey in r.groupKeys
      && (newKey != key ==> key !in r.rooms)
  {
    var key := t.userToRoom[u];
    var rest := Without(t.rooms[key].userIds, u);
    var newKey := GroupKey(Sort(rest));
    var t1 := Unseat(t, p, u);
    EvictRekeys(t, p, u, key);
    TradeKey(t.groupKeys, key, newKey);
    assert newKey in Members(t1.groupKeys);
    SweepRoomAt(t1, p, Including(u), t1.groupKeys, newKey);
    SweepRoomAt(t1, p, Including(u), t1.groupKeys, key);
    SweepKeys(t1, p, Including(u), t1.groupKeys);
  }

  /** Re-keying a room of three or more only trades its key in the key list and sends nothing. */
  lemma UnseatRekeyed(t: Tables, p: Participants, u: UserId)
    requires u in t.userToRoom && t.userToRoom[u] != "" && t.userToRoom[u] in t.rooms
    requires |Without(t.rooms[t.userToRoom[u]].userIds, u)| >= 2
    ensures var key := t.userToRoom[u];
      var newKey := GroupKey(Sort(Without(t.rooms[key].userIds, u)));
      && Unseat(t, p, u).outbox == t.outbox
      && Unseat(t, p, u).groupKeys
         == if newKey != key then AddLast(Without(t.groupKeys, key), newKey) else t.groupKeys
  {
    EvictRekeys(t, p, u, t.userToRoom[u]);
  }

  /** When no other live key contains `u` and the re-derived key does not either, removing
      `u` from a room of three or more sends nothing at all: the remaining members are not told. */
  lemma RemoveUserQuiet(t: Tables, p: Participants, u: UserId)
    requires u in t.userToRoom && t.userToRoom[u] != "" && t.userToRoom[u] in t.rooms
    requires |Without(t.rooms[t.userToRoom[u]].userIds, u)| >= 2
    requires !Includes(GroupKey(Sort(Without(t.rooms[t.userToRoom[u]].userIds, u))), u)
    requires forall k :: k in t.groupKeys && k != t.userToRoom[u] ==> !Includes(k, u)
    ensures RemoveUser(t, p, u).outbox == t.outbox
  {
    var key := t.userToRoom[u];
    var newKey := GroupKey(Sort(Without(t.rooms[key].userIds, u)));
    var t1 := Unseat(t, p, u);
    UnseatRekeyed(t, p, u);
    TradedKeysSpare(t.groupKeys, key, newKey, u);
    SweepNothingDoomed(t1, p, Including(u), t1.groupKeys);
  }

  /** Trading `key` for a `newKey` that does not contain `u` leaves no key containing `u`,
      when `key` was the only one. */
  lemma TradedKeysSpare(keys: seq<string>, key: string, newKey: string, u: UserId)
    requires forall k :: k in keys && k != key ==> !Includes(k, u)
    requires !Includes(newKey, u)
    ensures var traded := if newKey != key then AddLast(Without(keys, key), newKey) else keys;
      forall k :: k in traded ==> !Doomed(Including(u), k)
  {
    TradeKey(keys, key, newKey);
    var traded := if newKey != key then AddLast(Without(keys, key), newKey) else keys;
    forall k | k in traded ensures !Doomed(Including(u), k) {
      assert k in Members(traded);
    }
  }

  /** Every string contains the empty string. */
  lemma IncludesEmpty(s: string)
    ensures Includes(s, "")
  {
    assert OccursAt(s, "", 0);
  }

  /** `removeUser("")` destroys every room, since every key contains the empty string. */
  lemma RemoveEmptyIdClearsAll(t: Tables, p: Participants)
    requires Consistent(t)
    ensures RemoveUser(t, p, "").rooms == map[] && RemoveUser(t, p, "").groupKeys == []
  {
    var r := RemoveUser(t, p, "");
    RemoveUserEffect(t, p, "");
    forall k ensures k !in r.groupKeys {
      IncludesEmpty(k);
    }
    NoMembersEmpty(r.groupKeys);
  }

  /** The ids `user_10` and `user_11` are already in `sort()` order. */
  lemma PrefixIdsSorted()
    ensures Sort(["user_10", "user_11"]) == ["user_10", "user_11"]
  {
    assert Less("user_10", "user_11") by {
      assert "user_10"[1..] == "ser_10" && "user_11"[1..] == "ser_11";
      assert Less("_10", "_11") by { assert "_10"[1..] == "10" && "_11"[1..] == "11"; }
    }
    SortOfSorted(["user_10", "user_11"]);
  }

  /** Their room key is `user_10-user_11`, and it contains `user_1`. */
  lemma PrefixIdsKey()
    ensures GroupKey(["user_10", "user_11"]) == "user_10-user_11"
    ensures Includes("user_10-user_11", "user_1")
  {
    assert OccursAt("user_10-user_11", "user_1", 0);
  }

  /** Removing `user_1` from the room of `user_1`, `user_10` and `user_11` re-keys it to
      `user_10-user_11`, and the substring sweep then destroys that room too, because the new
      key contains `user_1`. */
  lemma RemoveUserPrefixId(t: Tables, p: Participants)
    requires Consistent(t)
    requires "user_1" in t.userToRoom && t.userToRoom["user_1"] == "user_1-user_10-user_11"
    requires "user_1-user_10-user_11" in t.rooms
    requires t.rooms["user_1-user_10-user_11"].userIds == ["user_1", "user_10", "user_11"]
    ensures "user_10-user_11" in Unseat(t, p, "user_1").rooms
    ensures "user_10-user_11" !in RemoveUser(t, p, "user_1").rooms
  {
    var key := "user_1-user_10-user_11";
    assert Without(t.rooms[key].userIds, "user_1") == ["user_10", "user_11"];
    PrefixIdsSorted();
    PrefixIdsKey();
    EvictRekeys(t, p, "user_1", key);
    RemoveUserEffect(t, p, "user_1");
  }
}
