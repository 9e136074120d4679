/** `contexts/WebSocketContext.tsx`: the client's single connection to the server. It keeps a
    table of message listeners per frame type, reconnects with exponential backoff, renames the
    server's frame types to the names the pages listen for, and forwards outgoing frames only
    while the socket is open. Callbacks are identified by names; JSON parsing is a parameter. */
module Router {
  import opened Common

  const MaxReconnectAttempts: nat := 10
  const BaseReconnectDelay: nat := 1000
  const MaxReconnectDelay: nat := 30000
  /** The close code of a clean close. */
  const NormalClosure: int := 1000

  function Pow2(n: nat): (r: nat)
    ensures r >= 1
  {
    if n == 0 then 1 else 2 * Pow2(n - 1)
  }

  lemma {:induction false} Pow2Monotone(a: nat, b: nat)
    requires a <= b
    ensures Pow2(a) <= Pow2(b)
    decreases b
  {
    if a < b {
      Pow2Monotone(a, b - 1);
    }
  }

  /** `Math.min(baseReconnectDelay * Math.pow(2, attempts), 30000)`. */
  function ReconnectDelay(attempts: nat): (d: nat)
    ensures BaseReconnectDelay <= d <= MaxReconnectDelay
  {
    var delay := BaseReconnectDelay * Pow2(attempts);
    if delay <= MaxReconnectDelay then delay else MaxReconnectDelay
  }

  /** Later attempts never wait less. */
  lemma DelayMonotone(a: nat, b: nat)
    requires a <= b
    ensures ReconnectDelay(a) <= ReconnectDelay(b)
  {
    Pow2Monotone(a, b);
  }

  /** The waits double from one second and reach the 30-second cap at the sixth attempt. */
  lemma DelaySchedule(attempts: nat)
    ensures attempts < 5 ==> ReconnectDelay(attempts) == BaseReconnectDelay * Pow2(attempts)
    ensures attempts >= 5 ==> ReconnectDelay(attempts) == MaxReconnectDelay
  {
    if attempts < 5 {
      Pow2Monotone(attempts, 4);
      assert Pow2(4) == 16;
    } else {
      Pow2Monotone(5, attempts);
      assert Pow2(5) == 32;
    }
  }

  /** The decision `ws.onclose` takes: no reconnect after a clean close or once the attempts
      are used up, and otherwise a reconnect after the backoff delay. */
  function ReconnectAfterClose(attempts: nat, code: int): (r: Option<nat>)
    ensures r.None? <==> code == NormalClosure || attempts >= MaxReconnectAttempts
    ensures r.Some? ==> r.value == ReconnectDelay(attempts)
  {
    if code == NormalClosure || attempts >= MaxReconnectAttempts then None
    else Some(ReconnectDelay(attempts))
  }

  /** The reconnect delays scheduled by a run of closes with the given codes and no successful
      open in between, starting from `attempts`. */
  function ClosesSchedule(attempts: nat, codes: seq<int>): seq<nat>
    decreases |codes|
  {
    if codes == [] then []
    else
      match ReconnectAfterClose(attempts, codes[0])
      case None => ClosesSchedule(attempts, codes[1..])
      case Some(d) => [d] + ClosesSchedule(attempts + 1, codes[1..])
  }

  /** However the connection keeps failing, at most ten reconnects follow one another without
      an open, their delays never shrink, and none exceeds 30 seconds. */
  lemma {:induction false} ClosesScheduleBounded(attempts: nat, codes: seq<int>)
    requires attempts <= MaxReconnectAttempts
    ensures |ClosesSchedule(attempts, codes)| <= MaxReconnectAttempts - attempts
    ensures forall i :: 0 <= i < |ClosesSchedule(attempts, codes)| ==>
      ReconnectDelay(attempts) <= ClosesSchedule(attempts, codes)[i] <= MaxReconnectDelay
    ensures forall i, j :: 0 <= i < j < |ClosesSchedule(attempts, codes)| ==>
      ClosesSchedule(attempts, codes)[i] <= ClosesSchedule(attempts, codes)[j]
    decreases |codes|
  {
    if codes != [] {
      match ReconnectAfterClose(attempts, codes[0])
      case None =>
        ClosesScheduleBounded(attempts, codes[1..]);
      case Some(d) =>
        ClosesScheduleBounded(attempts + 1, codes[1..]);
        DelayMonotone(attempts, attempts + 1);
    }
  }

  // ---- The listener table ----

  /** A listener callback, identified by name. */
  type CallbackId = string

  /** `messageListeners`: for each frame type, its callbacks in the Set's insertion order. */
  type Listeners = map<string, seq<CallbackId>>

  /** No type is mapped to an empty set, and no callback is listed twice for a type. */
  ghost predicate ListenersValid(l: Listeners) {
    forall t :: t in l ==> l[t] != [] && Distinct(l[t])
  }

  /** `addMessageListener(type, callback)`: creates the type's set when absent, then adds the
      callback to it; the other types keep their sets. */
  function Subscribe(l: Listeners, t: string, c: CallbackId): (r: Listeners)
    ensures t in r && c in r[t]
    ensures forall x :: x in r[t] <==> x == c || (t in l && x in l[t])
    ensures forall k :: k != t ==> (k in r <==> k in l) && (k in l ==> r[k] == l[k])
  {
    var callbacks := if t in l then l[t] else [];
    l[t := AddLast(callbacks, c)]
  }

  /** The function `addMessageListener` returns: removes the callback from its type's set and
      deletes the type once its set is empty; the other types keep their sets. */
  function Unsubscribe(l: Listeners, t: string, c: CallbackId): (r: Listeners)
    ensures t in r ==> t in l && c !in r[t] && forall x :: x in r[t] <==> x in l[t] && x != c
    ensures t !in r ==> t !in l || forall x :: x in l[t] ==> x == c
    ensures forall k :: k != t ==> (k in r <==> k in l) && (k in l ==> r[k] == l[k])
  {
    if t !in l then l
    else
      var rest := Without(l[t], c);
      if |rest| == 0 then l - {t} else l[t := rest]
  }

  /** Subscribing keeps every set non-empty and free of repeats. */
  lemma SubscribeValid(l: Listeners, t: string, c: CallbackId)
    requires ListenersValid(l)
    ensures ListenersValid(Subscribe(l, t, c))
  {
  }

  /** Unsubscribing never leaves a type mapped to an empty set. */
  lemma UnsubscribeValid(l: Listeners, t: string, c: CallbackId)
    requires ListenersValid(l)
    ensures ListenersValid(Unsubscribe(l, t, c))
  {
  }

  /** Removing an element that was just appended gives back the original sequence. */
  lemma {:induction false} WithoutLast(s: seq<string>, c: string)
    requires c !in s
    ensures Without(s + [c], c) == s
  {
    if s != [] {
      assert (s + [c])[1..] == s[1..] + [c];
      WithoutLast(s[1..], c);
    }
  }

  /** Unsubscribing a callback that was not yet registered for the type restores the table
      exactly, including the absence of a type that had no listeners. */
  lemma UnsubscribeUndoesSubscribe(l: Listeners, t: string, c: CallbackId)
    requires ListenersValid(l)
    requires t in l ==> c !in l[t]
    ensures Unsubscribe(Subscribe(l, t, c), t, c) == l
  {
    if t in l {
      UndoSubscribeListed(l, t, c);
    } else {
      UndoSubscribeUnlisted(l, t, c);
    }
  }

  lemma UndoSubscribeListed(l: Listeners, t: string, c: CallbackId)
    requires t in l && l[t] != [] && c !in l[t]
    ensures Unsubscribe(Subscribe(l, t, c), t, c) == l
  {
    var l1 := Subscribe(l, t, c);
    assert l1 == l[t := l[t] + [c]];
    WithoutLast(l[t], c);
    assert Unsubscribe(l1, t, c) == l1[t := l[t]];
    assert l1[t := l[t]] == l;
  }

  lemma UndoSubscribeUnlisted(l: Listeners, t: string, c: CallbackId)
    requires t !in l
    ensures Unsubscribe(Subscribe(l, t, c), t, c) == l
  {
    var l1 := Subscribe(l, t, c);
    assert AddLast([], c) == [c];
    assert l1 == l[t := [c]];
    assert Without([c], c) == [];
    assert Unsubscribe(l1, t, c) == l1 - {t};
    assert l1 - {t} == l;
  }

  // ---- Incoming frames ----

  /** A JavaScript value as `JSON.parse` produces it; numbers are integers here. */
  datatype Value =
    | Undefined
    | Null
    | Bool(b: bool)
    | Num(n: int)
    | Str(s: string)
    | Arr(items: seq<Value>)
    | Obj(fields: map<string, Value>)

  /** JavaScript truthiness. */
  predicate Truthy(v: Value) {
    match v
    case Undefined => false
    case Null => false
    case Bool(b) => b
    case Num(n) => n != 0
    case Str(s) => s != ""
    case Arr(_) => true
    case Obj(_) => true
  }

  /** The property access `v.k`. */
  function Get(v: Value, k: string): Value {
    if v.Obj? && k in v.fields then v.fields[k] else Undefined
  }

  /** `v || d`. */
  function Or(v: Value, d: Value): (r: Value)
    ensures Truthy(v) ==> r == v
    ensures !Truthy(v) ==> r == d
  {
    if Truthy(v) then v else d
  }

  /** The server types that are renamed on the client, and the listener type each goes to. */
  const Renames: map<string, string> := map[
    "CREATE_SPACE_RESPONSE" := "spaceCreated",
    "JOIN_SPACE_RESPONSE" := "spaceJoined",
    "PLAYER_LIST" := "playersList",
    "QUICK_JOIN_RESPONSE" := "quickJoinSpaceResponse",
    "SPACE_NOT_FOUND" := "joinSpaceError",
    "MOVE" := "userMoved",
    "CHAT" := "chat",
    "USER_POSITIONS" := "userPositions",
    "PROXIMITY_MESSAGE" := "proximityMessage",
    "PROXIMITY_LEFT" := "proximityLeft"
  ]

  /** The fields of the server frame each renamed message carries over. */
  const Carried: map<string, set<string>> := map[
    "CREATE_SPACE_RESPONSE" := {"spaceId", "status", "message"},
    "JOIN_SPACE_RESPONSE" := {"spaceId", "status", "message", "userColour", "position"},
    "PLAYER_LIST" := {"playerList"},
    "QUICK_JOIN_RESPONSE" := {"status", "spaceId", "message"},
    "SPACE_NOT_FOUND" := {},
    "MOVE" := {"userId", "position", "userColour"},
    "CHAT" := {"userId", "chat"},
    "USER_POSITIONS" := {"positions"},
    "PROXIMITY_MESSAGE" := {"roomId", "message", "userIds"},
    "PROXIMITY_LEFT" := {"roomId", "message"}
  ]

  /** The carried fields that default to an empty list when missing or falsy. */
  const ListFields: set<string> := {"playerList", "positions", "userIds"}

  /** A message handed to the listeners of one type. */
  datatype Dispatch = Dispatch(key: string, msg: Value)

  /** The renamed message: its new `type` and the carried fields of `data`. */
  function Converted(data: Value, rename: string, fields: set<string>): (m: Value)
    ensures m.Obj? && m.fields.Keys == fields + {"type"} && m.fields["type"] == Str(rename)
  {
    Obj(map k | k in fields + {"type"} ::
      if k == "type" then Str(rename) else if k in ListFields then Or(Get(data, k), Arr([])) else Get(data, k))
  }

  /** The error message a failed join also fires. */
  function JoinError(data: Value): Value {
    Obj(map["type" := Str("joinSpaceError"), "error" := Or(Get(data, "message"), Str("Failed to join space"))])
  }

  /** The branch of the routing chain for a renamed server type `s`: one converted message
      for the renamed listener type, and for a join response whose `status` is falsy a second
      one for `joinSpaceError`. */
  function Renamed(data: Value, s: string): (r: seq<Dispatch>)
    requires s in Renames
    ensures 0 < |r| <= 2 && r[0].key == Renames[s] && Get(r[0].msg, "type") == Str(Renames[s])
    ensures |r| == 2 <==> s == "JOIN_SPACE_RESPONSE" && !Truthy(Get(data, "status"))
    ensures |r| == 2 ==> r[1] == Dispatch("joinSpaceError", JoinError(data))
  {
    if s == "SPACE_NOT_FOUND" then
      [Dispatch("joinSpaceError", Obj(map["type" := Str("joinSpaceError"), "error" := Str("Space not found")]))]
    else
      var first := Dispatch(Renames[s], Converted(data, Renames[s], Carried[s]));
      if s == "JOIN_SPACE_RESPONSE" && !Truthy(Get(data, "status")) then
        [first, Dispatch("joinSpaceError", JoinError(data))]
      else [first]
  }

  /** The routing chain of `ws.onmessage`, for a frame that parsed to an object (or array):
      pings are dropped, the ten server types are renamed, and any other non-empty string
      type goes unchanged to its own listeners with the frame itself. */
  function Route(data: Value): (r: seq<Dispatch>)
    ensures Get(data, "type") == Str("PING") || Get(data, "type") == Str("ping") ==> r == []
    ensures !Get(data, "type").Str? || Get(data, "type").s == "" ==> r == []
    ensures Get(data, "type").Str? && Get(data, "type").s in Renames ==> r == Renamed(data, Get(data, "type").s)
    ensures var t := Get(data, "type");
      t.Str? && t.s != "" && t.s !in Renames && t.s != "PING" && t.s != "ping" ==> r == [Dispatch(t.s, data)]
  {
    var t := Get(data, "type");
    if t == Str("PING") || t == Str("ping") then []
    else if t.Str? && t.s in Renames then Renamed(data, t.s)
    else if t.Str? && t.s != "" then [Dispatch(t.s, data)]
    else []
  }

  /** Each renamed message carries exactly the fields the table lists for its server type,
      copied from the frame, with missing lists replaced by empty ones; `SPACE_NOT_FOUND`
      carries a fixed error text instead. */
  lemma RouteCarries(data: Value, s: string)
    requires Get(data, "type") == Str(s) && s in Renames
    ensures var m := Route(data)[0].msg;
      && m.Obj? && m.fields.Keys == Carried[s] + (if s == "SPACE_NOT_FOUND" then {"type", "error"} else {"type"})
      && (forall k :: k in Carried[s] ==> m.fields[k] == if k in ListFields then Or(Get(data, k), Arr([])) else Get(data, k))
      && (s == "SPACE_NOT_FOUND" ==> m.fields["error"] == Str("Space not found"))
  {
  }

  /** A call of one callback with one message. */
  datatype Call = Call(callback: CallbackId, msg: Value)

  /** `messageListeners.current.get(key)?.forEach(callback => callback(msg))`. */
  function Fire(l: Listeners, d: Dispatch): (r: seq<Call>)
    ensures d.key !in l ==> r == []
    ensures d.key in l ==> |r| == |l[d.key]| && forall i :: 0 <= i < |r| ==> r[i] == Call(l[d.key][i], d.msg)
  {
    if d.key in l then seq(|l[d.key]|, i requires 0 <= i < |l[d.key]| => Call(l[d.key][i], d.msg)) else []
  }

  /** The dispatches in order, each to every callback registered for its type. */
  function Deliver(l: Listeners, ds: seq<Dispatch>): seq<Call> {
    if ds == [] then [] else Deliver(l, ds[..|ds| - 1]) + Fire(l, ds[|ds| - 1])
  }

  /** A callback receives a message exactly when one of the dispatches carries that message
      to a type the callback is registered for. */
  lemma {:induction false} DeliverReaches(l: Listeners, ds: seq<Dispatch>, c: CallbackId, m: Value)
    ensures Call(c, m) in Deliver(l, ds) <==>
      exists i :: 0 <= i < |ds| && ds[i].msg == m && ds[i].key in l && c in l[ds[i].key]
  {
    if ds != [] {
      var init, last := ds[..|ds| - 1], ds[|ds| - 1];
      DeliverReaches(l, init, c, m);
      assert forall i :: 0 <= i < |init| ==> init[i] == ds[i];
      if Call(c, m) in Fire(l, last) {
        var j :| 0 <= j < |Fire(l, last)| && Fire(l, last)[j] == Call(c, m);
        assert l[last.key][j] == c;
      }
      if last.msg == m && last.key in l && c in l[last.key] {
        var j :| 0 <= j < |l[last.key]| && l[last.key][j] == c;
        assert Fire(l, last)[j] == Call(c, m);
      }
    }
  }

  // ---- Trimming ----

  /** The whitespace `String.prototype.trim` removes, restricted to ASCII. */
  predicate IsWhite(c: char) {
    c == ' ' || c == '\t' || c == '\n' || c == '\r' || c == '\U{000B}' || c == '\U{000C}'
  }

  /** `s` without its leading whitespace. */
  function TrimStart(s: string): (r: string)
    ensures r == [] || !IsWhite(r[0])
    ensures |r| <= |s| && r == s[|s| - |r|..]
    ensures forall k :: 0 <= k < |s| - |r| ==> IsWhite(s[k])
  {
    if s != [] && IsWhite(s[0]) then TrimStart(s[1..]) else s
  }

  /** `s` without its trailing whitespace. */
  function TrimEnd(s: string): (r: string)
    ensures r == [] || !IsWhite(r[|r| - 1])
    ensures |r| <= |s| && r == s[..|r|]
    ensures forall k :: |r| <= k < |s| ==> IsWhite(s[k])
  {
    if s != [] && IsWhite(s[|s| - 1]) then TrimEnd(s[..|s| - 1]) else s
  }

  /** `r` is `s` with a whitespace prefix and a whitespace suffix cut off. */
  predicate CutFrom(s: string, r: string) {
    exists i, j ::
      && 0 <= i <= j <= |s| && r == s[i..j]
      && (forall k :: 0 <= k < i ==> IsWhite(s[k]))
      && (forall k :: j <= k < |s| ==> IsWhite(s[k]))
  }

  /** `s.trim()`. */
  function Trim(s: string): (r: string)
    ensures r == [] || (!IsWhite(r[0]) && !IsWhite(r[|r| - 1]))
    ensures |r| <= |s|
  {
    TrimEnd(TrimStart(s))
  }

  /** Trimming cuts a slice out of the text and removes nothing but whitespace. */
  lemma TrimCuts(s: string)
    ensures CutFrom(s, Trim(s))
  {
    var t := TrimStart(s);
    CutTwice(s, t, TrimEnd(t));
  }

  /** Cutting a whitespace prefix off `s` and then a whitespace suffix off the rest cuts both
      from `s`. */
  lemma CutTwice(s: string, t: string, r: string)
    requires |t| <= |s| && t == s[|s| - |t|..]
    requires forall k :: 0 <= k < |s| - |t| ==> IsWhite(s[k])
    requires |r| <= |t| && r == t[..|r|]
    requires forall k :: |r| <= k < |t| ==> IsWhite(t[k])
    ensures CutFrom(s, r)
  {
    var i, j := |s| - |t|, |s| - |t| + |r|;
    assert r == s[i..j];
    forall k | j <= k < |s| ensures IsWhite(s[k]) { assert s[k] == t[k - i]; }
  }

  /** Trimming leaves nothing exactly when the text is empty or only whitespace. */
  lemma TrimBlank(s: string)
    ensures Trim(s) == [] <==> forall i :: 0 <= i < |s| ==> IsWhite(s[i])
  {
  }

  /** What `ws.onmessage` receives: a non-string payload, or text. */
  datatype Event = NonText | Text(data: string)

  /** `ws.onmessage`: drops payloads that are not text, empty after trimming, unparsable
      (`parse` stands for `JSON.parse`, returning `None` where it throws) or not objects, and
      otherwise delivers the routed messages. */
  function OnMessage(l: Listeners, event: Event, parse: string -> Option<Value>): seq<Call> {
    if !event.Text? || event.data == "" then []
    else
      var dataString := Trim(event.data);
      if dataString == "" then []
      else
        match parse(dataString)
        case None => []
        case Some(data) =>
          if !Truthy(data) || !(data.Obj? || data.Arr?) then [] else Deliver(l, Route(data))
  }

  /** Frames that reach no listener: non-text payloads, empty or whitespace-only text, text
      that does not parse, values other than objects, and pings. */
  lemma DroppedFrames(l: Listeners, event: Event, parse: string -> Option<Value>)
    requires
      || event.NonText?
      || (forall i :: 0 <= i < |event.data| ==> IsWhite(event.data[i]))
      || parse(Trim(event.data)).None?
      || !parse(Trim(event.data)).value.Obj?
      || Get(parse(Trim(event.data)).value, "type") in {Str("PING"), Str("ping")}
    ensures OnMessage(l, event, parse) == []
  {
    if event.Text? {
      TrimBlank(event.data);
    }
  }

  /** A text frame that is not blank and parses to an object reaches exactly the listeners its routing names. */
  lemma ObjectFramesRouted(l: Listeners, s: string, parse: string -> Option<Value>)
    requires Trim(s) != [] && parse(Trim(s)).Some? && parse(Trim(s)).value.Obj?
    ensures OnMessage(l, Text(s), parse) == Deliver(l, Route(parse(Trim(s)).value))
  {
    assert s != "";
    var data := parse(Trim(s)).value;
    assert Truthy(data) && (data.Obj? || data.Arr?);
    assert OnMessage(l, Text(s), parse) == Deliver(l, Route(data));
  }

  // ---- The provider ----

  /** `WebSocket.readyState`. */
  datatype ReadyState = Connecting | Open | Closing | Closed

  /** The state `WebSocketProvider` keeps in its refs and its `isConnected` flag. */
  class Provider {
    /** The ready state of `socketRef.current`, `None` before the first connect. */
    var socket: Option<ReadyState>
    /** How many sockets `connect` has opened. */
    var sockets: nat
    var listeners: Listeners
    var attempts: nat
    var isConnected: bool
    /** The frames written with `socket.send`. */
    var sent: seq<string>

    ghost predicate Valid()
      reads this
    {
      attempts <= MaxReconnectAttempts && ListenersValid(listeners)
    }

    constructor()
      ensures socket == None && sockets == 0 && listeners == map[] && attempts == 0
      ensures !isConnected && sent == [] && Valid()
    {
      socket := None;
      sockets := 0;
      listeners := map[];
      attempts := 0;
      isConnected := false;
      sent := [];
    }

    /** `connect()`: nothing while the socket is open or connecting; otherwise a new socket
        replaces the old one and starts connecting. */
    method Connect()
      modifies this`socket, this`sockets
      ensures old(socket) == Some(Open) || old(socket) == Some(Connecting) ==>
        socket == old(socket) && sockets == old(sockets)
      ensures old(socket) != Some(Open) && old(socket) != Some(Connecting) ==>
        socket == Some(Connecting) && sockets == old(sockets) + 1
    {
      if socket == Some(Open) || socket == Some(Connecting) {
        return;
      }
      socket := Some(Connecting);
      sockets := sockets + 1;
    }

    /** `ws.onopen`: connected, and the attempts start again from zero. */
    method OnOpen()
      requires Valid()
      modifies this`socket, this`isConnected, this`attempts
      ensures socket == Some(Open) && isConnected && attempts == 0 && Valid()
    {
      socket := Some(Open);
      isConnected := true;
      attempts := 0;
    }

    /** `ws.onclose`: disconnected; `delay` is the reconnect timer it schedules, if any, and
        scheduling one uses up an attempt. */
    method OnClose(code: int) returns (delay: Option<nat>)
      requires Valid()
      modifies this`socket, this`isConnected, this`attempts
      ensures socket == Some(Closed) && !isConnected
      ensures delay == ReconnectAfterClose(old(attempts), code)
      ensures attempts == if delay.Some? then old(attempts) + 1 else old(attempts)
      ensures Valid()
    {
      socket := Some(Closed);
      isConnected := false;
      if code == NormalClosure || attempts >= MaxReconnectAttempts {
        delay := None;
        return;
      }
      var d := ReconnectDelay(attempts);
      attempts := attempts + 1;
      delay := Some(d);
    }

    /** `ws.onerror`. */
    method OnError()
      modifies this`isConnected
      ensures !isConnected
    {
      isConnected := false;
    }

    /** `sendMessage(message)`: written to the socket only when it is open, dropped otherwise. */
    method SendMessage(message: string)
      modifies this`sent
      ensures sent == if socket == Some(Open) then old(sent) + [message] else old(sent)
    {
      if socket == Some(Open) {
        sent := sent + [message];
      }
    }

    /** `addMessageListener(type, callback)`. */
    method AddMessageListener(t: string, callback: CallbackId)
      requires Valid()
      modifies this`listeners
      ensures listeners == Subscribe(old(listeners), t, callback) && Valid()
    {
      if t !in listeners {
        listeners := listeners[t := []];
      }
      listeners := listeners[t := AddLast(listeners[t], callback)];
      SubscribeValid(old(listeners), t, callback);
    }

    /** The unsubscribe function `addMessageListener` returns. */
    method RemoveMessageListener(t: string, callback: CallbackId)
      requires Valid()
      modifies this`listeners
      ensures listeners == Unsubscribe(old(listeners), t, callback) && Valid()
    {
      if t in listeners {
        listeners := listeners[t := Without(listeners[t], callback)];
        if |listeners[t]| == 0 {
          listeners := listeners - {t};
        }
      }
      UnsubscribeValid(old(listeners), t, callback);
    }

    /** `ws.onmessage(event)`: the callback calls the frame causes. */
    function Receive(event: Event, parse: string -> Option<Value>): (calls: seq<Call>)
      reads this
      ensures forall c, m :: Call(c, m) in calls ==> exists t :: t in listeners && c in listeners[t]
    {
      var calls := OnMessage(listeners, event, parse);
      assert forall c, m :: Call(c, m) in calls ==> exists t :: t in listeners && c in listeners[t] by {
        forall c, m | Call(c, m) in calls ensures exists t :: t in listeners && c in listeners[t] {
          if event.Text? && event.data != "" && Trim(event.data) != "" {
            var data := parse(Trim(event.data)).value;
            DeliverReaches(listeners, Route(data), c, m);
          }
        }
      }
      calls
    }
  }
}
