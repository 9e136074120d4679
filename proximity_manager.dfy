/** The `ProximityManager` class of the WebSocket server: its tables are fields that its methods
    update in place, and each method is proved to perform exactly the step function of module
    `ProximityTables` on the value of those fields. */
module Proximity {
  import opened Common
  import opened Strings
  import opened ProximityGraph
  import opened ProximityTables

  class ProximityManager {
    /** `proximityRooms`, keyed by group key. */
    var rooms: map<string, Room>
    /** `userToProximityRoom`: the group key of each user. */
    var userToRoom: map<UserId, string>
    /** `userProximityGroups`, in insertion order. */
    var groupKeys: seq<string>
    /** The socket of each user id. */
    var participants: Participants
    /** Every frame written to a socket so far, in order. */
    var outbox: seq<Sent<Notice>>
    /** How many sub-room ids have been drawn. */
    var created: nat

    const spaceId: string
    const collisionDistance: int
    const proximityDistance: int := collisionDistance * 2
    /** The source of sub-room ids: the n-th id drawn is `ids(n)`. */
    const ids: nat -> string

    /** The fields the step functions work on, as one value. */
    function State(): Tables
      reads this
    {
      Tables(rooms, userToRoom, groupKeys, outbox, created)
    }

    /** Empty tables; the proximity distance is twice the collision distance, so the
        neighbour test compares with its square. */
    constructor(participants: Participants, spaceId: string, collisionDistance: int, ids: nat -> string)
      ensures State() == EmptyTables() && Consistent(State())
      ensures this.participants == participants && this.spaceId == spaceId && this.ids == ids
      ensures this.collisionDistance == collisionDistance && proximityDistance == 2 * collisionDistance
      ensures proximityDistance * proximityDistance == ProximitySq(collisionDistance)
    {
      this.rooms := map[];
      this.userToRoom := map[];
      this.groupKeys := [];
      this.participants := participants;
      this.outbox := [];
      this.created := 0;
      this.spaceId := spaceId;
      this.collisionDistance := collisionDistance;
      this.ids := ids;
    }

    /** `generateSubRoomId`: the next id of the id source. */
    method GenerateSubRoomId() returns (id: string)
      modifies this`created
      ensures id == ids(old(created)) && created == old(created) + 1
    {
      id := ids(created);
      created := created + 1;
    }

    /** `sendProximityMessage(room)`: one PROXIMITY_MESSAGE per member with an open socket. */
    method SendProximityMessage(room: Room)
      modifies this`outbox
      ensures State() == SendProximity(old(State()), participants, room)
    {
      var userIdsArray := room.userIds;
      var message := ProximityText(userIdsArray);
      var n := ProximityMessage(room.roomId, message, userIdsArray);
      for i := 0 to |userIdsArray|
        invariant outbox == old(outbox) + Notify(participants, userIdsArray[..i], n)
      {
        var userId := userIdsArray[i];
        if userId in participants && participants[userId].open {
          outbox := outbox + [Sent(participants[userId].id, n)];
        }
        assert userIdsArray[..i + 1][..i] == userIdsArray[..i];
      }
      assert userIdsArray[..|userIdsArray|] == userIdsArray;
    }

    /** `sendProximityLeftMessage(room)`: one PROXIMITY_LEFT per member with an open socket. */
    method SendProximityLeftMessage(room: Room)
      modifies this`outbox
      ensures State() == SendLeft(old(State()), participants, room)
    {
      var userIdsArray := room.userIds;
      var n := ProximityLeft(room.roomId, LeftText);
      for i := 0 to |userIdsArray|
        invariant outbox == old(outbox) + Notify(participants, userIdsArray[..i], n)
      {
        var userId := userIdsArray[i];
        if userId in participants && participants[userId].open {
          outbox := outbox + [Sent(participants[userId].id, n)];
        }
        assert userIdsArray[..i + 1][..i] == userIdsArray[..i];
      }
      assert userIdsArray[..|userIdsArray|] == userIdsArray;
    }

    /** `userIds.forEach(id => userToProximityRoom.set(id, key))`. */
    method MapUsers(userIds: seq<UserId>, key: string)
      modifies this`userToRoom
      ensures userToRoom == Assign(old(userToRoom), userIds, key)
    {
      for i := 0 to |userIds|
        invariant userToRoom == Assign(old(userToRoom), userIds[..i], key)
      {
        userToRoom := userToRoom[userIds[i] := key];
        assert userIds[..i + 1][..i] == userIds[..i];
      }
      assert userIds[..|userIds|] == userIds;
    }

    /** `userIds.forEach(id => userToProximityRoom.delete(id))`. */
    method UnmapUsers(userIds: seq<UserId>)
      modifies this`userToRoom
      ensures userToRoom == Unmap(old(userToRoom), userIds)
    {
      for i := 0 to |userIds|
        invariant userToRoom == Unmap(old(userToRoom), userIds[..i])
      {
        userToRoom := userToRoom - {userIds[i]};
        assert userIds[..i + 1][..i] == userIds[..i];
      }
      assert userIds[..|userIds|] == userIds;
    }

    /** `createProximityRoom(key, userIds)`: a room with a fresh id, the members as a Set and
        a running heartbeat, greeted once. The caller stores it. */
    method CreateProximityRoom(groupKey: string, userIds: seq<UserId>) returns (room: Room)
      modifies this`outbox, this`created
      ensures room == NewRoom(old(State()), ids, userIds)
      ensures State() == CreateRoom(old(State()), participants, ids, userIds)
    {
      var roomId := GenerateSubRoomId();
      var userIdsSet := Dedup(userIds);
      room := Room(roomId, userIdsSet, false);
      room := room.(heartbeat := true);
      SendProximityMessage(room);
    }

    /** `destroyProximityRoom(key)`. */
    method DestroyProximityRoom(groupKey: string)
      modifies this`outbox, this`userToRoom, this`rooms
      ensures State() == DestroyRoom(old(State()), participants, groupKey)
    {
      if groupKey in rooms {
        var room := rooms[groupKey];
        SendProximityLeftMessage(room);
        if room.heartbeat {
          rooms := rooms[groupKey := room.(heartbeat := false)];
        }
        UnmapUsers(room.userIds);
        rooms := rooms - {groupKey};
      }
    }

    /** `updateProximityRoom(key, userIds)`. */
    method UpdateProximityRoom(groupKey: string, userIds: seq<UserId>)
      modifies this`outbox, this`userToRoom, this`rooms, this`created
      ensures State() == UpdateRoom(old(State()), participants, ids, groupKey, userIds)
    {
      if groupKey in rooms {
        var existingRoom := rooms[groupKey];
        var newUserIdsSet := Dedup(userIds);
        var added := Missing(userIds, existingRoom.userIds);
        var removed := Missing(existingRoom.userIds, newUserIdsSet);
        assert removed == Missing(existingRoom.userIds, userIds) by {
          MissingSameMembers(existingRoom.userIds, newUserIdsSet, userIds);
        }
        if |added| > 0 || |removed| > 0 {
          existingRoom := existingRoom.(userIds := newUserIdsSet);
          rooms := rooms[groupKey := existingRoom];
          UnmapUsers(removed);
          MapUsers(added, groupKey);
          SendProximityMessage(existingRoom);
        }
      } else {
        var room := CreateProximityRoom(groupKey, userIds);
        rooms := rooms[groupKey := room];
        MapUsers(userIds, groupKey);
      }
    }

    /** The `userProximityGroups.forEach` sweeps: every key present when the sweep starts is
        visited in insertion order, and a doomed key is deleted and its room destroyed. */
    method SweepGroups(c: Criterion)
      modifies this`outbox, this`userToRoom, this`rooms, this`groupKeys
      ensures State() == Sweep(old(State()), participants, c, old(groupKeys))
    {
      var keys := groupKeys;
      for i := 0 to |keys|
        invariant State() == Sweep(old(State()), participants, c, keys[..i])
      {
        var groupKey := keys[i];
        assert keys[..i + 1][..i] == keys[..i];
        if Doomed(c, groupKey) {
          groupKeys := Without(groupKeys, groupKey);
          DestroyProximityRoom(groupKey);
        }
      }
      assert keys[..|keys|] == keys;
    }

    /** The `groups.forEach` of `checkUserProximity`: each key joins `userProximityGroups`
        when new, then its room is created or updated. */
    method ProcessProximityGroups(groups: seq<seq<UserId>>)
      modifies this`outbox, this`userToRoom, this`rooms, this`created, this`groupKeys
      ensures State() == ProcessGroups(old(State()), participants, ids, groups)
    {
      for i := 0 to |groups|
        invariant State() == ProcessGroups(old(State()), participants, ids, groups[..i])
      {
        var group := groups[i];
        var groupKey := GroupKey(group);
        ghost var before := State();
        assert groups[..i + 1][..i] == groups[..i] && groups[..i + 1][i] == group;
        assert ProcessGroups(old(State()), participants, ids, groups[..i + 1])
            == ProcessGroup(before, participants, ids, group);
        if groupKey !in groupKeys {
          groupKeys := groupKeys + [groupKey];
        }
        assert State() == before.(groupKeys := AddLast(before.groupKeys, groupKey));
        UpdateProximityRoom(groupKey, group);
      }
      assert groups[..|groups|] == groups;
    }

    /** `checkUserProximity(userPositions)`: build the neighbour graph, find its components
        of two or more, create or update their rooms, then destroy the rooms of the keys that
        are no longer current. The tables end up exactly as `Reconcile` says for the groups
        found, which are a partition of the graph into its connected components; when no id
        contains `-`, consistent tables stay consistent. */
    method CheckUserProximity(userPositions: Positions) returns (ghost groups: seq<seq<UserId>>)
      requires WellFormed(userPositions)
      modifies this`outbox, this`userToRoom, this`rooms, this`created, this`groupKeys
      ensures IsComponentPartition(GraphOf(userPositions, collisionDistance), groups)
      ensures State() == Reconcile(old(State()), participants, ids, groups)
      ensures Consistent(old(State())) && (forall u :: u in userPositions.at ==> '-' !in u) ==>
                Consistent(State())
    {
      var nodes, proximityGraph := BuildProximityGraph(userPositions, collisionDistance);
      BuiltGraphProper(userPositions, collisionDistance);
      var found := FindGroups(nodes, proximityGraph);
      groups := found;
      ProcessProximityGroups(found);
      var currentGroupKeys := CurrentKeys(found);
      SweepGroups(NotCurrent(currentGroupKeys));
      if Consistent(old(State())) && (forall u :: u in userPositions.at ==> '-' !in u) {
        GraphNodesPositioned(userPositions, collisionDistance);
        PartitionFamily(proximityGraph, found);
        ReconcileConsistent(old(State()), participants, ids, found);
      }
    }

    /** The room part of `removeUser`: the user leaves the room of `userRoomKey`; below two
        members the room is destroyed and its key deleted, otherwise it moves to the key of
        its sorted remaining members. */
    method EvictUser(userId: UserId, userRoomKey: string)
      modifies this`outbox, this`userToRoom, this`rooms, this`groupKeys
      ensures State() == Evict(old(State()), participants, userId, userRoomKey)
    {
      ghost var t := State();
      if userRoomKey in rooms {
        var room := rooms[userRoomKey];
        room := room.(userIds := Without(room.userIds, userId));
        rooms := rooms[userRoomKey := room];
        if |room.userIds| < 2 {
          ghost var r := DestroyRoom(t.(rooms := t.rooms[userRoomKey := room]), participants, userRoomKey);
          assert Evict(t, participants, userId, userRoomKey) == r.(groupKeys := Without(r.groupKeys, userRoomKey));
          DropRoom(userRoomKey);
        } else {
          var remainingUsers := Sort(room.userIds);
          var newGroupKey := GroupKey(remainingUsers);
          if newGroupKey != userRoomKey {
            assert Evict(t, participants, userId, userRoomKey) ==
              t.(rooms := (t.rooms - {userRoomKey})[newGroupKey := room],
                 userToRoom := Assign(t.userToRoom, remainingUsers, newGroupKey),
                 groupKeys := AddLast(Without(t.groupKeys, userRoomKey), newGroupKey));
            UpdateThenRemove(t.rooms, userRoomKey, room);
            MoveRoom(userRoomKey, newGroupKey, room, remainingUsers);
          } else {
            assert Evict(t, participants, userId, userRoomKey) == t.(rooms := t.rooms[userRoomKey := room]);
          }
        }
      }
    }

    /** A room of `removeUser` left with fewer than two members: destroyed, then its key deleted. */
    method DropRoom(key: string)
      modifies this`outbox, this`userToRoom, this`rooms, this`groupKeys
      ensures var r := DestroyRoom(old(State()), participants, key);
        State() == r.(groupKeys := Without(r.groupKeys, key))
    {
      DestroyProximityRoom(key);
      groupKeys := Without(groupKeys, key);
    }

    /** The re-keying in `removeUser`: the room moves from `oldKey` to `newKey`, its members
        are mapped to the new key, and the key set trades the old key for the new one. */
    method MoveRoom(oldKey: string, newKey: string, room: Room, members: seq<UserId>)
      modifies this`rooms, this`userToRoom, this`groupKeys
      ensures rooms == (old(rooms) - {oldKey})[newKey := room]
      ensures userToRoom == Assign(old(userToRoom), members, newKey)
      ensures groupKeys == AddLast(Without(old(groupKeys), oldKey), newKey)
    {
      rooms := rooms - {oldKey};
      rooms := rooms[newKey := room];
      MapUsers(members, newKey);
      groupKeys := Without(groupKeys, oldKey);
      groupKeys := AddLast(groupKeys, newKey);
    }

    /** `removeUser(userId)`: the user leaves its room, which is destroyed below two members
        and otherwise re-keyed; then every key containing the id as a substring is dropped
        with its room. Consistent tables stay consistent, the user is in no room and no key
        contains the id. */
    method RemoveUser(userId: UserId)
      modifies this`outbox, this`userToRoom, this`rooms, this`groupKeys
      ensures State() == ProximityTables.RemoveUser(old(State()), participants, userId)
      ensures Consistent(old(State())) ==>
        && Consistent(State())
        && (forall k :: k in rooms ==> userId !in rooms[k].userIds)
        && (forall k :: k in groupKeys ==> !Includes(k, userId))
    {
      var userRoomKey := if userId in userToRoom then userToRoom[userId] else "";
      if userRoomKey != "" {
        EvictUser(userId, userRoomKey);
        userToRoom := userToRoom - {userId};
      }
      assert State() == Unseat(old(State()), participants, userId);
      SweepGroups(Including(userId));
      if Consistent(old(State())) {
        RemoveUserEffect(old(State()), participants, userId);
      }
    }

    /** `updateParticipants(participants)`: only the socket table changes. */
    method UpdateParticipants(participants: Participants)
      modifies this`participants
      ensures this.participants == participants
    {
      this.participants := participants;
    }
  }

  /** Filtering against two sequences with the same members gives the same result. */
  lemma {:induction false} MissingSameMembers(s: seq<UserId>, a: seq<UserId>, b: seq<UserId>)
    requires forall u :: u in a <==> u in b
    ensures Missing(s, a) == Missing(s, b)
  {
    if s != [] {
      MissingSameMembers(s[..|s| - 1], a, b);
    }
  }
}
