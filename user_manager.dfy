/** `UserManager`: the connected users of the WebSocket server, keyed by ids drawn from a
    counter, each with an alternating colour and a spawn position further left for every
    later user. */
module Users {
  import opened Common
  import opened Strings

  /** `colors[0]` and `colors[1]` of `addUser`. */
  const Red: string := "#ef4444"
  const Blue: string := "#3b82f6"

  /** A user record (`types/user.ts`): id, socket, position and colour. */
  datatype User = User(id: UserId, ws: Socket, x: int, y: int, color: string)

  /** The id of the `n`-th user: `` `user_${n}` ``. */
  function IdFor(n: nat): string {
    "user_" + NatToString(n)
  }

  /** Two counters give the same id only when they are equal, so no id is ever issued twice. */
  lemma IdForInjective(a: nat, b: nat)
    requires IdFor(a) == IdFor(b)
    ensures a == b
  {
    assert NatToString(a) == IdFor(a)[5..] && NatToString(b) == IdFor(b)[5..];
    NatToStringInjective(a, b);
  }

  /** `colors[(n - 1) % colors.length]`: red for odd counters, blue for even ones. */
  function ColourFor(n: nat): (r: string)
    requires n >= 1
    ensures n % 2 == 1 ==> r == Red
    ensures n % 2 == 0 ==> r == Blue
  {
    [Red, Blue][(n - 1) % 2]
  }

  /** `centerX - spacing * (n - 1)` with centre 2000 and spacing 150. */
  function StartX(n: nat): int {
    2000 - 150 * (n - 1)
  }

  const StartY: int := 2000

  /** The first user starts at the centre, and each later one 150 further left. */
  lemma StartXSteps(n: nat)
    requires n >= 1
    ensures StartX(1) == 2000 && StartX(n + 1) == StartX(n) - 150 && StartX(n) <= 2000
  {
  }

  /** `Array.from(users.values())`: the records in insertion order. */
  function ValuesInOrder(order: seq<UserId>, users: map<UserId, User>): (r: seq<User>)
    ensures (forall k :: k in order ==> k in users) ==>
      |r| == |order| && forall i :: 0 <= i < |order| ==> r[i] == users[order[i]]
  {
    if order == [] then []
    else
      var init, k := order[..|order| - 1], order[|order| - 1];
      assert forall x :: x in init ==> x in order;
      ValuesInOrder(init, users) + (if k in users then [users[k]] else [])
  }

  class UserManager {
    /** The keys of `users` in insertion order. */
    var order: seq<UserId>
    var users: map<UserId, User>
    var userIdCounter: nat

    /** The Map's keys are listed once each in `order`, every record sits under its own id, and
        no id the counter has yet to issue is in use. */
    ghost predicate Valid()
      reads this
    {
      && Distinct(order) && users.Keys == Members(order)
      && (forall u :: u in users ==> users[u].id == u)
      && (forall n: nat :: n > userIdCounter ==> IdFor(n) !in users)
    }

    constructor()
      ensures order == [] && users == map[] && userIdCounter == 0 && Valid()
    {
      order := [];
      users := map[];
      userIdCounter := 0;
    }

    /** `addUser(ws)`: the counter moves on by one and a new record is stored under a fresh id. */
    method AddUser(ws: Socket) returns (user: User)
      requires Valid()
      modifies this
      ensures userIdCounter == old(userIdCounter) + 1
      ensures user == User(IdFor(userIdCounter), ws, StartX(userIdCounter), StartY, ColourFor(userIdCounter))
      ensures user.id !in old(users)
      ensures users == old(users)[user.id := user] && order == old(order) + [user.id]
      ensures GetUser(user.id) == Some(user) && GetUserCount() == old(GetUserCount()) + 1
      ensures Valid()
    {
      userIdCounter := userIdCounter + 1;
      var userId := IdFor(userIdCounter);
      var colors := [Red, Blue];
      var colorIndex := (userIdCounter - 1) % |colors|;
      var color := colors[colorIndex];
      var startX := 2000 - 150 * (userIdCounter - 1);
      var startY := StartY;
      user := User(userId, ws, startX, startY, color);
      order := AddLast(order, userId);
      users := users[userId := user];
      forall n: nat | n > userIdCounter ensures IdFor(n) !in users {
        if IdFor(n) == userId {
          IdForInjective(n, userIdCounter);
        }
      }
    }

    /** `removeUser(userId)`: only that id is deleted; an absent id changes nothing. */
    method RemoveUser(userId: UserId)
      requires Valid()
      modifies this
      ensures users == old(users) - {userId} && order == Without(old(order), userId)
      ensures userIdCounter == old(userIdCounter)
      ensures userId !in old(users) ==> users == old(users) && order == old(order)
      ensures Valid()
    {
      order := Without(order, userId);
      users := users - {userId};
    }

    /** `getUser(userId)`. */
    function GetUser(userId: UserId): (r: Option<User>)
      reads this
      ensures r.Some? <==> userId in users
      ensures r.Some? ==> r.value == users[userId]
    {
      if userId in users then Some(users[userId]) else None
    }

    /** `updateUserPosition(userId, x, y)`: true exactly when the user exists; then only that
        user's coordinates change, and otherwise nothing does. */
    method UpdateUserPosition(userId: UserId, x: int, y: int) returns (updated: bool)
      requires Valid()
      modifies this
      ensures updated <==> userId in old(users)
      ensures updated ==> users == old(users)[userId := old(users)[userId].(x := x, y := y)]
      ensures !updated ==> users == old(users)
      ensures order == old(order) && userIdCounter == old(userIdCounter)
      ensures Valid()
    {
      if userId in users {
        var user := users[userId];
        user := user.(x := x);
        user := user.(y := y);
        users := users[userId := user];
        updated := true;
      } else {
        updated := false;
      }
    }

    /** `getAllUsers()`: every stored record once, in insertion order. */
    function GetAllUsers(): (r: seq<User>)
      reads this
      ensures Valid() ==> |r| == |order| && forall i :: 0 <= i < |order| ==> r[i] == users[order[i]]
    {
      ValuesInOrder(order, users)
    }

    /** `getUserCount()`. */
    function GetUserCount(): (r: nat)
      reads this
      ensures r == |users.Keys|
    {
      |users.Keys|
    }

    /** The list of all users is as long as the count says and holds exactly the stored
        records. */
    lemma AllUsersCounted()
      requires Valid()
      ensures |GetAllUsers()| == GetUserCount()
      ensures forall u :: u in GetAllUsers() <==> exists k :: k in users && users[k] == u
    {
      DistinctCard(order);
      var r := GetAllUsers();
      forall u ensures u in r <==> exists k :: k in users && users[k] == u {
        if u in r {
          var i :| 0 <= i < |r| && r[i] == u;
          assert order[i] in users;
        }
        if exists k :: k in users && users[k] == u {
          var k :| k in users && users[k] == u;
          var i :| 0 <= i < |order| && order[i] == k;
          assert r[i] == u;
        }
      }
    }
  }

  /** A duplicate-free sequence has as many elements as its set of members. */
  lemma {:induction false} DistinctCard(s: seq<string>)
    requires Distinct(s)
    ensures |Members(s)| == |s|
  {
    if s != [] {
      var init := s[..|s| - 1];
      assert s == init + [s[|s| - 1]];
      assert Distinct(init) by {
        forall i, j | 0 <= i < j < |init| ensures init[i] != init[j] { assert init[i] == s[i] && init[j] == s[j]; }
      }
      DistinctCard(init);
      MembersAppend(init, s[|s| - 1]);
      assert s[|s| - 1] !in init by {
        forall i | 0 <= i < |init| ensures init[i] != s[|s| - 1] { assert init[i] == s[i]; }
      }
    }
  }
}
