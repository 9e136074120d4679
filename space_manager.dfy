/** `SpaceManager`: the players of one space (at most six, each with a colour drawn at random),
    the socket bound to each user id, and the frames it writes for joins, chat and moves. The
    pure functions say what each operation does to the state; the class performs it in place. */
module Space {
  import opened Common

  /** The most players a space takes. */
  const Capacity: nat := 6
  const Letters: string := "0123456789ABCDEF"
  /** The colour reported for a user without a colour. */
  const DefaultColour: string := "#888888"
  const AlreadyText: string := "You are already in the space"
  const JoinedText: string := "You have joined the space successfully"
  const FullText: string := "Space is full"
  const NotFoundText: string := "Space not found"

  datatype Player = Player(userId: UserId, username: string, userColour: string)

  datatype Reason = Full | NotFound

  /** The frames `SpaceManager` writes (their JSON encoding is not modelled). */
  datatype Frame =
    | JoinSpaceResponse(status: bool, message: string, spaceId: string, colour: Option<string>)
    | PlayerList(playerList: seq<Player>)
    | Chat(chat: string, userId: UserId)
    | Move(position: Pos, userId: UserId, userColour: string)

  /** The fields of a join message the space reads; an absent `username` is `None`. */
  datatype JoinRequest = JoinRequest(userId: UserId, username: Option<string>)

  /** `message.username || ""`. */
  function Username(m: JoinRequest): string {
    match m.username
    case None => ""
    case Some(name) => name
  }

  // ---------------------------------------------------------------------------------------
  // Colours

  /** Six draws of `Math.floor(Math.random() * 16)`. */
  predicate Digits(d: seq<int>) {
    |d| == 6 && forall i :: 0 <= i < 6 ==> 0 <= d[i] < 16
  }

  /** The colour `generateRandomColor` builds from its six draws. */
  function HexColor(d: seq<int>): (r: string)
    requires Digits(d)
    ensures |r| == 7 && r[0] == '#'
    ensures forall i :: 1 <= i < 7 ==> r[i] in Letters
  {
    "#" + seq(6, k requires 0 <= k < 6 => Letters[d[k]])
  }

  /** Different draws give different colours: the colour records its draws. */
  lemma HexColorInjective(a: seq<int>, b: seq<int>)
    requires Digits(a) && Digits(b) && HexColor(a) == HexColor(b)
    ensures a == b
  {
    forall k | 0 <= k < 6 ensures a[k] == b[k] {
      assert HexColor(a)[k + 1] == Letters[a[k]] && HexColor(b)[k + 1] == Letters[b[k]];
      assert Letters[a[k]] == Letters[b[k]];
    }
  }

  /** `generateRandomColor()`, with the random draws passed in. */
  method GenerateRandomColor(digits: seq<int>) returns (color: string)
    requires Digits(digits)
    ensures color == HexColor(digits)
  {
    color := "#";
    for i := 0 to 6
      invariant |color| == i + 1 && color[0] == '#'
      invariant forall k :: 0 <= k < i ==> color[k + 1] == Letters[digits[k]]
    {
      color := color + [Letters[digits[i]]];
    }
  }

  // ---------------------------------------------------------------------------------------
  // The player list

  /** `playerList.some(p => p.userId === userId)`. */
  predicate HasPlayer(players: seq<Player>, userId: UserId) {
    exists i :: 0 <= i < |players| && players[i].userId == userId
  }

  /** `playerList.find(p => p.userId === userId)`: the first matching player. */
  function FindPlayer(players: seq<Player>, userId: UserId): (r: Option<Player>)
    ensures r.None? <==> !HasPlayer(players, userId)
    ensures r.Some? ==> exists i :: 0 <= i < |players| && players[i] == r.value && players[i].userId == userId
                                    && forall j :: 0 <= j < i ==> players[j].userId != userId
  {
    if players == [] then None
    else if players[0].userId == userId then Some(players[0])
    else
      var r := FindPlayer(players[1..], userId);
      assert HasPlayer(players[1..], userId) ==> HasPlayer(players, userId) by {
        if HasPlayer(players[1..], userId) {
          var i :| 0 <= i < |players[1..]| && players[1..][i].userId == userId;
          assert players[i + 1].userId == userId;
        }
      }
      assert HasPlayer(players, userId) ==> HasPlayer(players[1..], userId) by {
        if HasPlayer(players, userId) {
          var i :| 0 <= i < |players| && players[i].userId == userId;
          assert players[1..][i - 1].userId == userId;
        }
      }
      assert r.Some? ==> exists i :: 0 <= i < |players| && players[i] == r.value && players[i].userId == userId
                                     && forall j :: 0 <= j < i ==> players[j].userId != userId by {
        if r.Some? {
          var i :| 0 <= i < |players[1..]| && players[1..][i] == r.value && players[1..][i].userId == userId
                    && forall j :: 0 <= j < i ==> players[1..][j].userId != userId;
          assert players[i + 1] == r.value;
          assert forall j :: 1 <= j < i + 1 ==> players[j] == players[1..][j - 1];
        }
      }
      r
  }

  /** The user ids on the list. */
  function Ids(players: seq<Player>): set<UserId> {
    set i | 0 <= i < |players| :: players[i].userId
  }

  predicate DistinctIds(players: seq<Player>) {
    forall i, j :: 0 <= i < j < |players| ==> players[i].userId != players[j].userId
  }

  // ---------------------------------------------------------------------------------------
  // Fan-out

  /** `playerList.forEach(p => { if (participants[p.userId]) participants[p.userId].send(f) })`. */
  function ToBound(participants: map<UserId, Socket>, players: seq<Player>, f: Frame): seq<Sent<Frame>> {
    if players == [] then []
    else
      var u := players[|players| - 1].userId;
      ToBound(participants, players[..|players| - 1], f) + (if u in participants then [Sent(participants[u].id, f)] else [])
  }

  /** The `move` fan-out: `participants[p.userId] !== socket`, then `participants[p.userId]?.send`. */
  function ToOthers(participants: map<UserId, Socket>, players: seq<Player>, sender: Socket, f: Frame): seq<Sent<Frame>> {
    if players == [] then []
    else
      var u := players[|players| - 1].userId;
      ToOthers(participants, players[..|players| - 1], sender, f)
        + (if u in participants && participants[u].id != sender.id then [Sent(participants[u].id, f)] else [])
  }

  lemma ToOthersStep(participants: map<UserId, Socket>, players: seq<Player>, sender: Socket, f: Frame, i: int)
    requires 0 <= i < |players|
    ensures var u := players[i].userId;
      ToOthers(participants, players[..i + 1], sender, f) == ToOthers(participants, players[..i], sender, f)
        + (if u in participants && participants[u].id != sender.id then [Sent(participants[u].id, f)] else [])
  {
    assert players[..i + 1][..i] == players[..i];
  }

  /** A frame reaches a socket exactly when some listed player is bound to that socket. */
  lemma {:induction false} ToBoundReaches(participants: map<UserId, Socket>, players: seq<Player>, f: Frame, s: Sent<Frame>)
    ensures s in ToBound(participants, players, f) <==>
      s.msg == f && exists i :: 0 <= i < |players| && players[i].userId in participants
                                && participants[players[i].userId].id == s.to
  {
    if players != [] {
      var init := players[..|players| - 1];
      ToBoundReaches(participants, init, f, s);
      if s.msg == f && exists i :: 0 <= i < |players| && players[i].userId in participants && participants[players[i].userId].id == s.to {
        var i :| 0 <= i < |players| && players[i].userId in participants && participants[players[i].userId].id == s.to;
        if i < |init| { assert init[i] == players[i]; }
      }
      if exists i :: 0 <= i < |init| && init[i].userId in participants && participants[init[i].userId].id == s.to {
        var i :| 0 <= i < |init| && init[i].userId in participants && participants[init[i].userId].id == s.to;
        assert players[i] == init[i];
      }
    }
  }

  /** A MOVE reaches a socket exactly when some listed player is bound to it and it is not the
      sender's socket; the player's user id plays no part. */
  lemma {:induction false} ToOthersReaches(participants: map<UserId, Socket>, players: seq<Player>, sender: Socket,
                                           f: Frame, s: Sent<Frame>)
    ensures s in ToOthers(participants, players, sender, f) <==>
      s.msg == f && s.to != sender.id
      && exists i :: 0 <= i < |players| && players[i].userId in participants
                     && participants[players[i].userId].id == s.to
  {
    if players != [] {
      var init := players[..|players| - 1];
      ToOthersReaches(participants, init, sender, f, s);
      if s.msg == f && s.to != sender.id && exists i :: 0 <= i < |players| && players[i].userId in participants && participants[players[i].userId].id == s.to {
        var i :| 0 <= i < |players| && players[i].userId in participants && participants[players[i].userId].id == s.to;
        if i < |init| { assert init[i] == players[i]; }
      }
      if exists i :: 0 <= i < |init| && init[i].userId in participants && participants[init[i].userId].id == s.to {
        var i :| 0 <= i < |init| && init[i].userId in participants && participants[init[i].userId].id == s.to;
        assert players[i] == init[i];
      }
    }
  }

  // ---------------------------------------------------------------------------------------
  // The state and its operations

  datatype SpaceState = SpaceState(participants: map<UserId, Socket>, playerList: seq<Player>,
                                   outbox: seq<Sent<Frame>>)

  /** What every operation keeps: at most six players, each id once, and a socket bound to
      exactly the listed ids. */
  predicate Roster(s: SpaceState) {
    |s.playerList| <= Capacity && DistinctIds(s.playerList) && s.participants.Keys == Ids(s.playerList)
  }

  /** `sendJoinSpaceEvents`: the join reply to the joining socket, then the player list to
      every listed player with a bound socket. */
  function JoinEvents(s: SpaceState, spaceId: string, socket: Socket, isReconnect: bool, colour: string): SpaceState {
    var reply := JoinSpaceResponse(true, if isReconnect then AlreadyText else JoinedText, spaceId, Some(colour));
    s.(outbox := s.outbox + [Sent(socket.id, reply)] + ToBound(s.participants, s.playerList, PlayerList(s.playerList)))
  }

  /** `sendJoinSpaceFailure`: a refusal to the joining socket only. */
  function JoinFailure(s: SpaceState, spaceId: string, socket: Socket, reason: Reason): SpaceState {
    var text := if reason == Full then FullText else NotFoundText;
    s.(outbox := s.outbox + [Sent(socket.id, JoinSpaceResponse(false, text, spaceId, None))])
  }

  /** `joinSpace(socket, message)` with the colour draws it would use. */
  function Join(s: SpaceState, spaceId: string, socket: Socket, m: JoinRequest, digits: seq<int>): SpaceState
    requires Digits(digits)
  {
    if HasPlayer(s.playerList, m.userId) then
      var existing := FindPlayer(s.playerList, m.userId).value;
      JoinEvents(s.(participants := s.participants[m.userId := socket]), spaceId, socket, true, existing.userColour)
    else if |s.playerList| >= Capacity then
      JoinFailure(s, spaceId, socket, Full)
    else
      var colour := HexColor(digits);
      var s1 := s.(participants := s.participants[m.userId := socket],
                   playerList := s.playerList + [Player(m.userId, Username(m), colour)]);
      JoinEvents(s1, spaceId, socket, false, colour)
  }

  /** `getUserColour(userId)`: the colour of the first player with that id, unless it is empty
      or there is none. */
  function UserColour(players: seq<Player>, userId: UserId): (r: string)
    ensures !HasPlayer(players, userId) ==> r == DefaultColour
    ensures forall i :: 0 <= i < |players| && players[i].userId == userId && (forall j :: 0 <= j < i ==> players[j].userId != userId)
                        ==> r == if players[i].userColour == "" then DefaultColour else players[i].userColour
  {
    var found := FindPlayer(players, userId);
    if found.Some? && found.value.userColour != "" then found.value.userColour else DefaultColour
  }

  /** Joining again under a listed id leaves the list alone, rebinds the id to the new socket
      and answers "already in the space" with the colour on record. */
  lemma JoinReconnect(s: SpaceState, spaceId: string, socket: Socket, m: JoinRequest, digits: seq<int>)
    requires Digits(digits) && HasPlayer(s.playerList, m.userId)
    ensures var r := Join(s, spaceId, socket, m, digits);
      && r.playerList == s.playerList
      && r.participants == s.participants[m.userId := socket]
      && |r.outbox| > |s.outbox|
      && r.outbox[|s.outbox|] == Sent(socket.id, JoinSpaceResponse(true, AlreadyText, spaceId, Some(FindPlayer(s.playerList, m.userId).value.userColour)))
  {
  }

  /** A new id arriving at a full space is refused with "Space is full" and nothing else
      changes. */
  lemma JoinWhenFull(s: SpaceState, spaceId: string, socket: Socket, m: JoinRequest, digits: seq<int>)
    requires Digits(digits) && !HasPlayer(s.playerList, m.userId) && |s.playerList| >= Capacity
    ensures var r := Join(s, spaceId, socket, m, digits);
      && r.playerList == s.playerList && r.participants == s.participants
      && r.outbox == s.outbox + [Sent(socket.id, JoinSpaceResponse(false, FullText, spaceId, None))]
  {
  }

  /** Otherwise exactly one player is appended, with the drawn colour and an empty name when
      none is given; the newcomer is bound to the socket and welcomed. */
  lemma JoinNewPlayer(s: SpaceState, spaceId: string, socket: Socket, m: JoinRequest, digits: seq<int>)
    requires Digits(digits) && !HasPlayer(s.playerList, m.userId) && |s.playerList| < Capacity
    ensures var r := Join(s, spaceId, socket, m, digits);
      && r.playerList == s.playerList + [Player(m.userId, Username(m), HexColor(digits))]
      && (m.username.None? ==> r.playerList[|s.playerList|].username == "")
      && r.participants == s.participants[m.userId := socket]
      && |r.outbox| > |s.outbox|
      && r.outbox[|s.outbox|] == Sent(socket.id, JoinSpaceResponse(true, JoinedText, spaceId, Some(HexColor(digits))))
      && UserColour(r.playerList, m.userId) == HexColor(digits)
  {
    var r := Join(s, spaceId, socket, m, digits);
    var i := |s.playerList|;
    forall j | 0 <= j < i ensures r.playerList[j].userId != m.userId {
      assert r.playerList[j] == s.playerList[j];
    }
  }

  /** Joining keeps the roster invariant: the list never exceeds six and ids stay unique. */
  lemma JoinKeepsRoster(s: SpaceState, spaceId: string, socket: Socket, m: JoinRequest, digits: seq<int>)
    requires Digits(digits) && Roster(s)
    ensures Roster(Join(s, spaceId, socket, m, digits))
  {
    var r := Join(s, spaceId, socket, m, digits);
    if HasPlayer(s.playerList, m.userId) {
      assert m.userId in Ids(s.playerList);
    } else if |s.playerList| < Capacity {
      AppendIds(s.playerList, Player(m.userId, Username(m), HexColor(digits)));
    }
  }

  /** Appending a player with a new id keeps ids unique and adds that id. */
  lemma AppendIds(players: seq<Player>, p: Player)
    requires DistinctIds(players) && p.userId !in Ids(players)
    ensures DistinctIds(players + [p]) && Ids(players + [p]) == Ids(players) + {p.userId}
  {
    var list := players + [p];
    forall u | u in Ids(list) ensures u in Ids(players) + {p.userId} {
      var i :| 0 <= i < |list| && list[i].userId == u;
      if i < |players| { assert list[i] == players[i]; }
    }
    forall u | u in Ids(players) ensures u in Ids(list) {
      var i :| 0 <= i < |players| && players[i].userId == u;
      assert list[i] == players[i];
    }
    assert list[|players|] == p;
    forall i, j | 0 <= i < j < |list| ensures list[i].userId != list[j].userId {
      assert list[i] == players[i];
      if j == |players| {
        assert players[i].userId in Ids(players);
      } else {
        assert list[j] == players[j];
      }
    }
    assert Ids(list) == Ids(players) + {p.userId};
  }

  /** After a successful join, new or reconnecting, every listed player with a bound socket
      is sent the current player list. */
  lemma JoinBroadcastsList(s: SpaceState, spaceId: string, socket: Socket, m: JoinRequest, digits: seq<int>, i: nat)
    requires Digits(digits) && (HasPlayer(s.playerList, m.userId) || |s.playerList| < Capacity)
    ensures var r := Join(s, spaceId, socket, m, digits);
      i < |r.playerList| && r.playerList[i].userId in r.participants ==>
        Sent(r.participants[r.playerList[i].userId].id, PlayerList(r.playerList)) in r.outbox
  {
    var r := Join(s, spaceId, socket, m, digits);
    if i < |r.playerList| && r.playerList[i].userId in r.participants {
      var before := if HasPlayer(s.playerList, m.userId) then s.(participants := s.participants[m.userId := socket])
                    else s.(participants := s.participants[m.userId := socket],
                            playerList := s.playerList + [Player(m.userId, Username(m), HexColor(digits))]);
      var f := Sent(r.participants[r.playerList[i].userId].id, PlayerList(r.playerList));
      ToBoundReaches(r.participants, r.playerList, PlayerList(r.playerList), f);
      assert r.outbox == before.outbox + [r.outbox[|s.outbox|]] + ToBound(r.participants, r.playerList, PlayerList(r.playerList));
    }
  }

  // ---------------------------------------------------------------------------------------
  // The class

  class SpaceManager {
    const hostSocket: Socket
    const hostUserId: UserId
    const spaceId: string
    const spaceName: string
    var participants: map<UserId, Socket>
    var playerList: seq<Player>
    /** Every frame written to a socket so far, in order. */
    var outbox: seq<Sent<Frame>>

    function State(): SpaceState
      reads this
    {
      SpaceState(participants, playerList, outbox)
    }

    /** The host is the only player, with a drawn colour; the `userColour` argument is
        ignored. */
    constructor(socket: Socket, spaceId: string, userId: UserId, spaceName: string, username: string,
                userColour: string, digits: seq<int>)
      requires Digits(digits)
      ensures playerList == [Player(userId, username, HexColor(digits))]
      ensures participants == map[userId := socket] && outbox == []
      ensures hostSocket == socket && hostUserId == userId && this.spaceId == spaceId && this.spaceName == spaceName
      ensures Roster(State())
    {
      this.spaceId := spaceId;
      this.spaceName := spaceName;
      this.hostSocket := socket;
      this.hostUserId := userId;
      this.participants := map[userId := socket];
      var assignedColor := GenerateRandomColor(digits);
      this.playerList := [Player(userId, username, assignedColor)];
      this.outbox := [];
      new;
      assert Ids(playerList) == {userId} by { assert playerList[0].userId == userId; }
    }

    /** `sendJoinSpaceEvents(socket, userId, isReconnect, userColour)`. */
    method SendJoinSpaceEvents(socket: Socket, userId: UserId, isReconnect: bool, userColour: string)
      modifies this`outbox
      ensures State() == JoinEvents(old(State()), spaceId, socket, isReconnect, userColour)
    {
      var message := if isReconnect then AlreadyText else JoinedText;
      outbox := outbox + [Sent(socket.id, JoinSpaceResponse(true, message, spaceId, Some(userColour)))];
      ghost var start := outbox;
      var f := PlayerList(playerList);
      for i := 0 to |playerList|
        invariant outbox == start + ToBound(participants, playerList[..i], f)
      {
        var u := playerList[i].userId;
        if u in participants {
          outbox := outbox + [Sent(participants[u].id, f)];
        }
        assert playerList[..i + 1][..i] == playerList[..i];
      }
      assert playerList[..|playerList|] == playerList;
    }

    /** `sendJoinSpaceFailure(socket, reason)`. */
    method SendJoinSpaceFailure(socket: Socket, reason: Reason)
      modifies this`outbox
      ensures State() == JoinFailure(old(State()), spaceId, socket, reason)
    {
      if reason == Full {
        outbox := outbox + [Sent(socket.id, JoinSpaceResponse(false, FullText, spaceId, None))];
      } else {
        outbox := outbox + [Sent(socket.id, JoinSpaceResponse(false, NotFoundText, spaceId, None))];
      }
    }

    /** `joinSpace(socket, message)`: reconnect, refusal when full, or a new player. */
    method JoinSpace(socket: Socket, message: JoinRequest, digits: seq<int>)
      requires Digits(digits)
      modifies this`participants, this`playerList, this`outbox
      ensures State() == Join(old(State()), spaceId, socket, message, digits)
      ensures Roster(old(State())) ==> Roster(State())
    {
      ghost var s := State();
      if HasPlayer(playerList, message.userId) {
        participants := participants[message.userId := socket];
        var existingPlayer := FindPlayer(playerList, message.userId);
        if existingPlayer.Some? {
          SendJoinSpaceEvents(socket, message.userId, true, existingPlayer.value.userColour);
        }
      } else if |playerList| >= Capacity {
        SendJoinSpaceFailure(socket, Full);
      } else {
        participants := participants[message.userId := socket];
        var assignedColor := GenerateRandomColor(digits);
        playerList := playerList + [Player(message.userId, Username(message), assignedColor)];
        SendJoinSpaceEvents(socket, message.userId, false, assignedColor);
      }
      if Roster(s) {
        JoinKeepsRoster(s, spaceId, socket, message, digits);
      }
    }

    /** `getJoinEvents(socket, message, userColour)`: the join events, as a reconnect when the
        id is listed. */
    method GetJoinEvents(socket: Socket, userId: UserId, userColour: string)
      modifies this`outbox
      ensures State() == JoinEvents(old(State()), spaceId, socket, HasPlayer(playerList, userId), userColour)
    {
      if HasPlayer(playerList, userId) {
        SendJoinSpaceEvents(socket, userId, true, userColour);
      } else {
        SendJoinSpaceEvents(socket, userId, false, userColour);
      }
    }

    /** `getUserColour(userId)`. */
    function GetUserColour(userId: UserId): (r: string)
      reads this
      ensures r == UserColour(playerList, userId)
    {
      var player := FindPlayer(playerList, userId);
      if player.Some? && player.value.userColour != "" then player.value.userColour else DefaultColour
    }

    /** `sendChat(message)`: CHAT to every listed player with a bound socket, the sender
        included. */
    method SendChat(chat: string, userId: UserId)
      modifies this`outbox
      ensures outbox == old(outbox) + ToBound(participants, playerList, Chat(chat, userId))
    {
      var f := Chat(chat, userId);
      for i := 0 to |playerList|
        invariant outbox == old(outbox) + ToBound(participants, playerList[..i], f)
      {
        var u := playerList[i].userId;
        if u in participants {
          outbox := outbox + [Sent(participants[u].id, f)];
        }
        assert playerList[..i + 1][..i] == playerList[..i];
      }
      assert playerList[..|playerList|] == playerList;
    }

    /** `move(socket, message)`: MOVE, with the mover's colour, to every bound socket other
        than the one the move came from. */
    method Move(socket: Socket, position: Pos, userId: UserId)
      modifies this`outbox
      ensures outbox == old(outbox) + ToOthers(participants, playerList, socket, Frame.Move(position, userId, UserColour(playerList, userId)))
    {
      var userColour := GetUserColour(userId);
      var f := Frame.Move(position, userId, userColour);
      for i := 0 to |playerList|
        invariant outbox == old(outbox) + ToOthers(participants, playerList[..i], socket, f)
      {
        var u := playerList[i].userId;
        ToOthersStep(participants, playerList, socket, f, i);
        if u in participants && participants[u].id != socket.id {
          outbox := outbox + [Sent(participants[u].id, f)];
        }
      }
      assert playerList[..|playerList|] == playerList;
    }
  }
}
