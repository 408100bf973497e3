/** The offline queue and the handlers that fill and empty it: server/db/messages.py,
    server/offline.py, server/rooms.py, server/router.py and the MESSAGE, ROOM_MESSAGE and login
    branches of server/ws_server.py. */
module MessageQueue {
  import opened Text

  /** A JSON packet: its id, the sender the server stamps on it, and the rest. */
  datatype Packet = Packet(id: string, sender: string, body: string)

  /** A packet on its way to one user. */
  datatype Letter = Letter(to: string, packet: Packet)

  /** A row of offline_queue; `id` is its primary key. */
  datatype Row = Row(id: string, to: string, packet: Packet, createdAt: int)

  /** `live`: packets sent to a user's socket by a handler; `synced`: those sent inside a SYNC_RESPONSE. */
  datatype State = State(
    queue: seq<Row>,
    online: set<string>,
    rooms: map<string, set<string>>,
    live: seq<Letter>,
    synced: seq<Letter>)

  const START := State([], {}, map[], [], [])

  // ---------------------------------------------------------------- the tables

  function LetterOf(r: Row): Letter {
    Letter(r.to, r.packet)
  }

  function Letters(rows: seq<Row>): seq<Letter>
    decreases |rows|
  {
    if |rows| == 0 then [] else Letters(rows[..|rows| - 1]) + [LetterOf(rows[|rows| - 1])]
  }

  predicate HasId(queue: seq<Row>, id: string) {
    exists i :: 0 <= i < |queue| && queue[i].id == id
  }

  /** INSERT OR IGNORE INTO offline_queue */
  function Enqueue(queue: seq<Row>, row: Row): seq<Row> {
    if HasId(queue, row.id) then queue else queue + [row]
  }

  /** WHERE to_user = user AND created_at > since */
  function Select(queue: seq<Row>, user: string, since: int): seq<Row>
    decreases |queue|
  {
    if |queue| == 0 then []
    else
      var n := |queue| - 1;
      Select(queue[..n], user, since)
      + if queue[n].to == user && queue[n].createdAt > since then [queue[n]] else []
  }

  /** What DELETE ... WHERE to_user = user leaves. */
  function Without(queue: seq<Row>, user: string): seq<Row>
    decreases |queue|
  {
    if |queue| == 0 then []
    else
      var n := |queue| - 1;
      Without(queue[..n], user) + if queue[n].to != user then [queue[n]] else []
  }

  /** What get_queued may return: the selected rows by time, equal times in any order. */
  ghost predicate IsQueued(rows: seq<Row>, queue: seq<Row>, user: string) {
    && multiset(rows) == multiset(Select(queue, user, 0))
    && forall i, j :: 0 <= i < j < |rows| ==> rows[i].createdAt <= rows[j].createdAt
  }

  function MembersOf(s: State, room: string): set<string> {
    if room in s.rooms then s.rooms[room] else {}
  }

  predicate Distinct<T(==)>(xs: seq<T>) {
    forall i, j :: 0 <= i < j < |xs| ==> xs[i] != xs[j]
  }

  /** What get_members may return: each member once, in any order. */
  ghost predicate IsListing(members: seq<string>, s: State, room: string) {
    Distinct(members) && forall m :: m in members <==> m in MembersOf(s, room)
  }

  // ---------------------------------------------------------------- the handlers

  predicate Reachable(s: State, user: string, broken: set<string>) {
    user in s.online && user !in broken
  }

  /** Send on the user's socket; queue when there is none or its send raises. */
  function SendOrQueue(s: State, id: string, l: Letter, broken: set<string>, now: int): State {
    if Reachable(s, l.to, broken) then s.(live := s.live + [l])
    else s.(queue := Enqueue(s.queue, Row(id, l.to, l.packet, now)))
  }

  function RoomRowId(pkt: Packet, member: string): string {
    pkt.id + [':'] + member
  }

  /** route_room_message over the members still to come. */
  function FanOut(s: State, pkt: Packet, members: seq<string>, broken: set<string>, now: string -> int): State
    decreases |members|
  {
    if |members| == 0 then s
    else
      var m := members[0];
      var t := if m == pkt.sender then s
               else SendOrQueue(s, RoomRowId(pkt, m), Letter(m, pkt), broken, now(m));
      FanOut(t, pkt, members[1..], broken, now)
  }

  /** One atomic handler step. `broken` are the sockets whose send raises during it, `now` the
      clock, `rows` and `members` the answers of the database. A packet comes stamped. */
  datatype Event =
    | Direct(to: string, pkt: Packet, broken: set<string>, time: int)
    | RoomMessage(room: string, pkt: Packet, members: seq<string>, broken: set<string>, now: string -> int)
    | Login(user: string, rows: seq<Row>, authSent: bool, syncSent: bool)
    | Disconnect(user: string)
    | CreateRoom(room: string, user: string)
    | Join(room: string, user: string)
    | Leave(room: string, user: string)

  ghost predicate Possible(s: State, e: Event) {
    && (e.RoomMessage? ==> IsListing(e.members, s, e.room))
    && (e.Login? ==> IsQueued(e.rows, s.queue, e.user))
  }

  /** Does the login reach offline.clear? */
  predicate Clears(e: Event)
    requires e.Login?
  {
    e.authSent && (|e.rows| == 0 || e.syncSent)
  }

  function Step(s: State, e: Event): State {
    match e
    case Direct(to, pkt, broken, time) =>
      if to == "" then s else SendOrQueue(s, pkt.id, Letter(to, pkt), broken, time)
    case RoomMessage(room, pkt, members, broken, now) =>
      if room == "" || pkt.sender !in members then s else FanOut(s, pkt, members, broken, now)
    case Login(user, rows, _, _) =>
      var t := s.(online := s.online + {user});
      if Clears(e) then t.(synced := s.synced + Letters(rows), queue := Without(s.queue, user)) else t
    case Disconnect(user) => s.(online := s.online - {user})
    case CreateRoom(room, user) => if room in s.rooms then s else s.(rooms := s.rooms[room := {user}])
    case Join(room, user) =>
      if room !in s.rooms then s else s.(rooms := s.rooms[room := s.rooms[room] + {user}])
    case Leave(room, user) =>
      if room !in s.rooms then s else s.(rooms := s.rooms[room := s.rooms[room] - {user}])
  }

  datatype Reply = Ignored | Delivered | Queued | NotInRoom

  class MessageServer {
    var queue: seq<Row>
    var online: set<string>
    var rooms: map<string, set<string>>
    var live: seq<Letter>
    var synced: seq<Letter>

    function View(): State
      reads this
    {
      State(queue, online, rooms, live, synced)
    }

    constructor ()
      ensures View() == START
    {
      queue, online, rooms, live, synced := [], {}, map[], [], [];
    }

    /** The MESSAGE branch of handle, and the status of its DELIVERY reply. */
    method Message(to: string, pkt: Packet, broken: set<string>, time: int) returns (reply: Reply)
      modifies this
      ensures View() == Step(old(View()), Direct(to, pkt, broken, time))
      ensures reply == if to == "" then Ignored
                       else if to in old(online) && to !in broken then Delivered
                       else Queued
    {
      if to == "" {
        return Ignored;
      }
      if to in online && to !in broken {
        live := live + [Letter(to, pkt)];
        return Delivered;
      }
      queue := Enqueue(queue, Row(pkt.id, to, pkt, time));
      return Queued;
    }

    /** The ROOM_MESSAGE branch of handle, with route_room_message's loop. */
    method ToRoom(room: string, pkt: Packet, members: seq<string>, broken: set<string>, now: string -> int)
      returns (reply: Reply)
      requires IsListing(members, View(), room)
      modifies this
      ensures View() == Step(old(View()), RoomMessage(room, pkt, members, broken, now))
      ensures reply == if room == "" then Ignored
                       else if pkt.sender !in MembersOf(old(View()), room) then NotInRoom
                       else Delivered
    {
      if room == "" {
        return Ignored;
      }
      if pkt.sender !in members {
        return NotInRoom;
      }
      for i := 0 to |members|
        invariant FanOut(View(), pkt, members[i..], broken, now) == FanOut(old(View()), pkt, members, broken, now)
      {
        var member := members[i];
        assert members[i..][0] == member && members[i..][1..] == members[i + 1..];
        if member != pkt.sender {
          if member in online && member !in broken {
            live := live + [Letter(member, pkt)];
          } else {
            queue := Enqueue(queue, Row(RoomRowId(pkt, member), member, pkt, now(member)));
          }
        }
      }
      return Delivered;
    }

    /** create_room; the table refuses an id it already has. */
    method CreateRoom(room: string, user: string)
      modifies this
      ensures View() == Step(old(View()), Event.CreateRoom(room, user))
    {
      if room !in rooms {
        rooms := rooms[room := {user}];
      }
    }

    /** join_room: true when the room exists, whether or not the user was a member already. */
    method JoinRoom(room: string, user: string) returns (joined: bool)
      modifies this
      ensures View() == Step(old(View()), Join(room, user))
      ensures joined <==> user in MembersOf(View(), room)
    {
      if room !in rooms {
        return false;
      }
      rooms := rooms[room := rooms[room] + {user}];
      return true;
    }

    method LeaveRoom(room: string, user: string)
      modifies this
      ensures View() == Step(old(View()), Leave(room, user))
      ensures user !in MembersOf(View(), room)
    {
      if room in rooms {
        rooms := rooms[room := rooms[room] - {user}];
      }
    }

    /** The end of a connection: router.unregister. */
    method Disconnect(user: string)
      modifies this
      ensures View() == Step(old(View()), Event.Disconnect(user))
    {
      online := online - {user};
    }

    /** _on_auth_success with _flush_offline; false when one of its sends raises. */
    method OnAuthSuccess(user: string, rows: seq<Row>, authSent: bool, syncSent: bool) returns (ok: bool)
      requires IsQueued(rows, queue, user)
      modifies this
      ensures View() == Step(old(View()), Login(user, rows, authSent, syncSent))
      ensures ok == (authSent && (rows == [] || syncSent))
    {
      online := online + {user};
      if !authSent {
        return false;
      }
      if |rows| > 0 {
        if !syncSent {
          return false;
        }
        synced := synced + Letters(rows);
      } else {
        assert synced + Letters(rows) == synced;
      }
      queue := Without(queue, user);
      return true;
    }
  }

  // ---------------------------------------------------------------- the balance of one step

  /** How many queued rows hold this letter. */
  function Pending(queue: seq<Row>, l: Letter): nat
    decreases |queue|
  {
    if |queue| == 0 then 0
    else
      var n := |queue| - 1;
      Pending(queue[..n], l) + if LetterOf(queue[n]) == l then 1 else 0
  }

  /** How many of them a flush cannot see, though its clear deletes them. */
  function Unseen(queue: seq<Row>, l: Letter): nat
    decreases |queue|
  {
    if |queue| == 0 then 0
    else
      var n := |queue| - 1;
      Unseen(queue[..n], l) + if LetterOf(queue[n]) == l && queue[n].createdAt <= 0 then 1 else 0
  }

  /** In how many places a letter is: sent live, sent in a SYNC_RESPONSE, or queued. */
  function Held(s: State, l: Letter): nat {
    multiset(s.live)[l] + multiset(s.synced)[l] + Pending(s.queue, l)
  }

  /** Is this letter one that the room message sends? Every member but the sender gets one. */
  predicate InRoom(pkt: Packet, members: seq<string>, l: Letter) {
    pkt.sender in members && l.to in members && l.to != pkt.sender && l.packet == pkt
  }

  /** Does the step address this letter? */
  predicate Addresses(e: Event, l: Letter) {
    match e
    case Direct(to, pkt, _, _) => to != "" && l == Letter(to, pkt)
    case RoomMessage(room, pkt, members, _, _) => room != "" && InRoom(pkt, members, l)
    case _ => false
  }

  function RowIdOf(e: Event, l: Letter): string {
    if e.RoomMessage? then RoomRowId(l.packet, l.to) else l.packet.id
  }

  /** How many copies of a letter a step loses: the one it should queue, exactly when its row id is
      taken; and, in a flush, those queued with a time that is not positive. */
  function Lost(s: State, e: Event, l: Letter): nat {
    match e
    case Direct(_, _, broken, _) =>
      if Addresses(e, l) && !(l.to in s.online && l.to !in broken) && HasId(s.queue, RowIdOf(e, l)) then 1 else 0
    case RoomMessage(_, _, _, broken, _) =>
      if Addresses(e, l) && !(l.to in s.online && l.to !in broken) && HasId(s.queue, RowIdOf(e, l)) then 1 else 0
    case Login(user, _, _, _) => if Clears(e) && l.to == user then Unseen(s.queue, l) else 0
    case _ => 0
  }

  lemma PendingSnoc(rows: seq<Row>, r: Row, l: Letter)
    ensures Pending(rows + [r], l) == Pending(rows, l) + if LetterOf(r) == l then 1 else 0
  {
    assert (rows + [r])[..|rows|] == rows;
  }

  lemma {:induction false} PendingAppend(a: seq<Row>, b: seq<Row>, l: Letter)
    ensures Pending(a + b, l) == Pending(a, l) + Pending(b, l)
    decreases |b|
  {
    if |b| == 0 {
      assert a + b == a;
    } else {
      var n := |b| - 1;
      PendingAppend(a, b[..n], l);
      PendingSnoc(a + b[..n], b[n], l);
      assert a + b[..n] + [b[n]] == a + b;
    }
  }

  lemma {:induction false} LettersCount(rows: seq<Row>, l: Letter)
    ensures multiset(Letters(rows))[l] == Pending(rows, l)
    decreases |rows|
  {
    if |rows| > 0 {
      LettersCount(rows[..|rows| - 1], l);
    }
  }

  lemma WithoutOne<T>(s: seq<T>, k: nat)
    requires k < |s|
    ensures multiset(s[..k] + s[k + 1..]) == multiset(s) - multiset{s[k]}
  {
    assert s == s[..k] + ([s[k]] + s[k + 1..]);
  }

  /** The last element of one permutation, found in the other. */
  lemma Removal<T>(a: seq<T>, b: seq<T>) returns (k: nat)
    requires multiset(a) == multiset(b) && |a| > 0
    ensures k < |b| && b[k] == a[|a| - 1]
    ensures multiset(a[..|a| - 1]) == multiset(b[..k] + b[k + 1..])
  {
    var n := |a| - 1;
    var x := a[n];
    assert x in multiset(a);
    assert x in b;
    k :| 0 <= k < |b| && b[k] == x;
    WithoutOne(a, n);
    WithoutOne(b, k);
    assert a[..n] + a[n + 1..] == a[..n];
  }

  lemma {:induction false} PendingPermutation(a: seq<Row>, b: seq<Row>, l: Letter)
    requires multiset(a) == multiset(b)
    ensures Pending(a, l) == Pending(b, l)
    decreases |a|
  {
    if |a| == 0 {
      assert |multiset(b)| == 0;
    } else {
      var k := Removal(a, b);
      PendingPermutation(a[..|a| - 1], b[..k] + b[k + 1..], l);
      PendingAppend(b[..k], b[k + 1..], l);
      PendingAppend(b[..k] + [b[k]], b[k + 1..], l);
      PendingSnoc(b[..k], b[k], l);
      assert b == b[..k] + [b[k]] + b[k + 1..];
    }
  }

  /** A flush takes the rows of the user, */
  lemma {:induction false} SelectTakes(queue: seq<Row>, user: string, l: Letter)
    ensures Pending(Select(queue, user, 0), l) == if l.to == user then Pending(queue, l) - Unseen(queue, l) else 0
    decreases |queue|
  {
    if |queue| > 0 {
      var n := |queue| - 1;
      var before := Select(queue[..n], user, 0);
      SelectTakes(queue[..n], user, l);
      PendingSnoc(before, queue[n], l);
      assert before + [] == before;
    }
  }

  /** and its clear leaves everybody else's. */
  lemma {:induction false} ClearLeaves(queue: seq<Row>, user: string, l: Letter)
    ensures Pending(Without(queue, user), l) == if l.to == user then 0 else Pending(queue, l)
    decreases |queue|
  {
    if |queue| > 0 {
      var n := |queue| - 1;
      var before := Without(queue[..n], user);
      ClearLeaves(queue[..n], user, l);
      PendingSnoc(before, queue[n], l);
      assert before + [] == before;
    }
  }

  lemma SameRoomIds(pkt: Packet, m: string, n: string)
    ensures RoomRowId(pkt, m) == RoomRowId(pkt, n) <==> m == n
  {
    var k := |pkt.id| + 1;
    assert RoomRowId(pkt, m)[k..] == m && RoomRowId(pkt, n)[k..] == n;
  }

  lemma SendKeepsOtherIds(s: State, id: string, l: Letter, broken: set<string>, now: int, other: string)
    requires other != id
    ensures HasId(SendOrQueue(s, id, l, broken, now).queue, other) == HasId(s.queue, other)
  {
    var row := Row(id, l.to, l.packet, now);
    var q := s.queue + [row];
    assert forall i :: 0 <= i < |s.queue| ==> q[i] == s.queue[i];
    assert q[|s.queue|] == row;
    if HasId(s.queue, other) {
      var i :| 0 <= i < |s.queue| && s.queue[i].id == other;
      assert q[i].id == other;
    }
  }

  /** Where a room message puts each letter: live when the member's socket takes it, queued when
      not and its row id is free, once, and to no one else; the rest of the state is as it was. */
  lemma {:induction false} FanOutCounts(s: State, pkt: Packet, members: seq<string>, broken: set<string>,
                                        now: string -> int, l: Letter)
    requires Distinct(members)
    ensures var t := FanOut(s, pkt, members, broken, now);
            var mine := l.packet == pkt && l.to in members && l.to != pkt.sender;
            var open := l.to in s.online && l.to !in broken;
            && multiset(t.live)[l] == multiset(s.live)[l] + (if mine && open then 1 else 0)
            && Pending(t.queue, l) == Pending(s.queue, l)
               + (if mine && !open && !HasId(s.queue, l.packet.id + [':'] + l.to) then 1 else 0)
            && t.synced == s.synced && t.online == s.online && t.rooms == s.rooms
    decreases |members|
  {
    if |members| > 0 {
      var m, rest := members[0], members[1..];
      assert members == [m] + rest && m !in rest;
      if m == pkt.sender {
        FanOutCounts(s, pkt, rest, broken, now, l);
      } else {
        var row := Row(RoomRowId(pkt, m), m, pkt, now(m));
        var t := SendOrQueue(s, row.id, Letter(m, pkt), broken, row.createdAt);
        PendingSnoc(s.queue, row, l);
        SameRoomIds(pkt, l.to, m);
        if l.to != m {
          SendKeepsOtherIds(s, row.id, Letter(m, pkt), broken, row.createdAt, RoomRowId(pkt, l.to));
        }
        FanOutCounts(t, pkt, rest, broken, now, l);
      }
    }
  }

  lemma LoginBalance(s: State, e: Event, l: Letter)
    requires e.Login? && Possible(s, e)
    ensures Held(Step(s, e), l) + Lost(s, e, l) == Held(s, l)
  {
    if Clears(e) {
      SelectTakes(s.queue, e.user, l);
      ClearLeaves(s.queue, e.user, l);
      PendingPermutation(e.rows, Select(s.queue, e.user, 0), l);
      LettersCount(e.rows, l);
    }
  }

  /** The exact account of every step, whatever its input: each copy of a letter held before or
      addressed now is held afterwards or lost, and Lost says when. */
  lemma StepBalance(s: State, e: Event, l: Letter)
    requires Possible(s, e)
    ensures Held(Step(s, e), l) + Lost(s, e, l) == Held(s, l) + if Addresses(e, l) then 1 else 0
  {
    match e
    case Direct(to, pkt, broken, time) => PendingSnoc(s.queue, Row(pkt.id, to, pkt, time), l);
    case RoomMessage(room, pkt, members, broken, now) => FanOutCounts(s, pkt, members, broken, now, l);
    case Login(_, _, _, _) => LoginBalance(s, e, l);
    case _ =>
  }

  /** The loss at an input: of two packets with one id for users who are offline the first is
      queued, the second is not held anywhere. */
  lemma ReusedIdIsLost(p: Packet, q: Packet, a: string, b: string)
    requires p.id == q.id && p != q && a != "" && b != ""
    ensures Held(Step(Step(START, Direct(a, p, {}, 1)), Direct(b, q, {}, 2)), Letter(a, p)) == 1
    ensures Held(Step(Step(START, Direct(a, p, {}, 1)), Direct(b, q, {}, 2)), Letter(b, q)) == 0
    ensures Lost(Step(START, Direct(a, p, {}, 1)), Direct(b, q, {}, 2), Letter(b, q)) == 1
  {
    var first := Direct(a, p, {}, 1);
    var s := Step(START, first);
    assert s.queue == [Row(p.id, a, p, 1)] && s.queue[0].id == q.id;
    StepBalance(START, first, Letter(a, p));
    StepBalance(START, first, Letter(b, q));
    StepBalance(s, Direct(b, q, {}, 2), Letter(a, p));
    StepBalance(s, Direct(b, q, {}, 2), Letter(b, q));
  }

  /** The other loss: a packet queued for an offline user outlives the next login exactly when its
      time is positive; otherwise the flush does not see it, and the clear deletes it. */
  lemma TimedSurvives(pkt: Packet, user: string, time: int, rows: seq<Row>)
    requires user != "" && Possible(Step(START, Direct(user, pkt, {}, time)), Login(user, rows, true, true))
    ensures Held(Step(Step(START, Direct(user, pkt, {}, time)), Login(user, rows, true, true)), Letter(user, pkt))
         == if time > 0 then 1 else 0
  {
    var send, login, l := Direct(user, pkt, {}, time), Login(user, rows, true, true), Letter(user, pkt);
    var s, row := Step(START, send), Row(pkt.id, user, pkt, time);
    assert s.queue == [row] && s.queue[..0] == [];
    StepBalance(START, send, l);
    StepBalance(s, login, l);
    assert Unseen(s.queue, l) == if time > 0 then 0 else 1;
  }

  // ---------------------------------------------------------------- nothing is lost

  predicate ColonFree(id: string) {
    ':' !in id
  }

  ghost predicate KnownRow(r: Row, used: set<string>) {
    && r.createdAt > 0 && r.packet.id in used && ColonFree(r.packet.id)
    && (r.id == r.packet.id || r.id == RoomRowId(r.packet, r.to))
  }

  /** Every queued row comes from a packet whose id has been used, and has a positive time. */
  ghost predicate Known(queue: seq<Row>, used: set<string>) {
    forall i :: 0 <= i < |queue| ==> KnownRow(queue[i], used)
  }

  /** Row ids determine the packet id, and for room rows the member. */
  lemma RowIds(p: string, q: string, m: string, n: string)
    requires ColonFree(p) && ColonFree(q)
    ensures p != q + [':'] + n
    ensures p + [':'] + m == q + [':'] + n ==> p == q && m == n
  {
    var a, b := p + [':'] + m, q + [':'] + n;
    assert b[|q|] == ':';
    if a == b {
      assert a[|p|] == ':';
      assert forall i :: 0 <= i < |p| ==> a[i] == p[i];
      assert forall i :: 0 <= i < |q| ==> b[i] == q[i];
      assert |p| == |q|;
      assert p == a[..|p|] == b[..|q|] == q;
      assert m == a[|p| + 1..] == b[|q| + 1..] == n;
    }
  }

  /** The packet a step sends, if it sends one. */
  function PacketOf(e: Event): Option<Packet> {
    match e
    case Direct(_, pkt, _, _) => Some(pkt)
    case RoomMessage(_, pkt, _, _, _) => Some(pkt)
    case _ => None
  }

  ghost predicate FreshStep(e: Event, used: set<string>) {
    && (PacketOf(e).Some? ==> ColonFree(PacketOf(e).value.id) && PacketOf(e).value.id !in used)
    && (e.Direct? ==> e.time > 0)
    && (e.RoomMessage? ==> forall m :: e.now(m) > 0)
  }

  function UsedAfter(used: set<string>, e: Event): set<string> {
    used + if PacketOf(e).Some? then {PacketOf(e).value.id} else {}
  }

  /** A packet id that was never used is in no row id, alone or with a member. */
  lemma FreshId(queue: seq<Row>, used: set<string>, id: string, member: string)
    requires Known(queue, used) && ColonFree(id) && id !in used
    ensures !HasId(queue, id) && !HasId(queue, id + [':'] + member)
  {
    forall i | 0 <= i < |queue|
      ensures queue[i].id != id && queue[i].id != id + [':'] + member
    {
      var r := queue[i];
      assert KnownRow(r, used);
      RowIds(id, r.packet.id, member, r.to);
      RowIds(r.packet.id, id, r.to, member);
    }
  }

  lemma {:induction false} FanOutKeepsKnown(s: State, pkt: Packet, members: seq<string>, broken: set<string>,
                                            now: string -> int, used: set<string>)
    requires Known(s.queue, used) && pkt.id in used && ColonFree(pkt.id) && forall m :: now(m) > 0
    ensures Known(FanOut(s, pkt, members, broken, now).queue, used)
    decreases |members|
  {
    if |members| > 0 {
      var m := members[0];
      if m == pkt.sender {
        FanOutKeepsKnown(s, pkt, members[1..], broken, now, used);
      } else {
        assert KnownRow(Row(RoomRowId(pkt, m), m, pkt, now(m)), used);
        var t := SendOrQueue(s, RoomRowId(pkt, m), Letter(m, pkt), broken, now(m));
        FanOutKeepsKnown(t, pkt, members[1..], broken, now, used);
      }
    }
  }

  lemma {:induction false} FilterKnown(queue: seq<Row>, user: string, used: set<string>, l: Letter)
    requires Known(queue, used)
    ensures Unseen(queue, l) == 0
    ensures Known(Without(queue, user), used)
    decreases |queue|
  {
    if |queue| > 0 {
      var n := |queue| - 1;
      FilterKnown(queue[..n], user, used, l);
      assert KnownRow(queue[n], used);
    }
  }

  lemma KnownGrows(queue: seq<Row>, used: set<string>, more: set<string>)
    requires Known(queue, used)
    ensures Known(queue, used + more)
  {
    forall i | 0 <= i < |queue|
      ensures KnownRow(queue[i], used + more)
    {
      assert KnownRow(queue[i], used);
    }
  }

  /** A step with a fresh, colon-free packet id and a positive clock loses nothing. */
  lemma FreshStepLosesNothing(s: State, e: Event, used: set<string>, l: Letter)
    requires Possible(s, e) && FreshStep(e, used) && Known(s.queue, used)
    ensures Lost(s, e, l) == 0
  {
    match e
    case Direct(to, pkt, _, _) => FreshId(s.queue, used, pkt.id, "");
    case RoomMessage(_, pkt, _, _, _) => FreshId(s.queue, used, pkt.id, l.to);
    case Login(user, _, _, _) => FilterKnown(s.queue, user, used, l);
    case _ =>
  }

  lemma StepKeepsKnown(s: State, e: Event, used: set<string>)
    requires Possible(s, e) && FreshStep(e, used) && Known(s.queue, used)
    ensures Known(Step(s, e).queue, UsedAfter(used, e))
  {
    var after := UsedAfter(used, e);
    KnownGrows(s.queue, used, after - used);
    assert used + (after - used) == after;
    match e
    case Direct(to, pkt, broken, time) => assert KnownRow(Row(pkt.id, to, pkt, time), after);
    case RoomMessage(room, pkt, members, broken, now) => FanOutKeepsKnown(s, pkt, members, broken, now, after);
    case Login(user, _, _, _) => FilterKnown(s.queue, user, after, Letter(user, Packet("", "", "")));
    case _ =>
  }

  // ---------------------------------------------------------------- runs

  function Run(s: State, es: seq<Event>): State
    decreases |es|
  {
    if |es| == 0 then s else Run(Step(s, es[0]), es[1..])
  }

  ghost predicate PossibleRun(s: State, es: seq<Event>)
    decreases |es|
  {
    |es| > 0 ==> Possible(s, es[0]) && PossibleRun(Step(s, es[0]), es[1..])
  }

  ghost predicate FreshRun(es: seq<Event>, used: set<string>)
    decreases |es|
  {
    |es| > 0 ==> FreshStep(es[0], used) && FreshRun(es[1..], UsedAfter(used, es[0]))
  }

  /** How many times a run addresses a letter. */
  function AddressedBy(es: seq<Event>, l: Letter): nat
    decreases |es|
  {
    if |es| == 0 then 0 else (if Addresses(es[0], l) then 1 else 0) + AddressedBy(es[1..], l)
  }

  function AllUsed(es: seq<Event>, used: set<string>): set<string>
    decreases |es|
  {
    if |es| == 0 then used else AllUsed(es[1..], UsedAfter(used, es[0]))
  }

  lemma {:induction false} RunBalance(s: State, es: seq<Event>, used: set<string>, l: Letter)
    requires PossibleRun(s, es) && FreshRun(es, used) && Known(s.queue, used)
    ensures Held(Run(s, es), l) == Held(s, l) + AddressedBy(es, l)
    ensures Known(Run(s, es).queue, AllUsed(es, used))
    decreases |es|
  {
    if |es| > 0 {
      StepBalance(s, es[0], l);
      FreshStepLosesNothing(s, es[0], used, l);
      StepKeepsKnown(s, es[0], used);
      RunBalance(Step(s, es[0]), es[1..], UsedAfter(used, es[0]), l);
    }
  }

  /** No letter is addressed twice when packet ids are not reused. */
  lemma {:induction false} AddressedOnce(es: seq<Event>, used: set<string>, l: Letter)
    requires FreshRun(es, used)
    ensures AddressedBy(es, l) <= 1
    ensures l.packet.id in used ==> AddressedBy(es, l) == 0
    decreases |es|
  {
    if |es| > 0 {
      AddressedOnce(es[1..], UsedAfter(used, es[0]), l);
    }
  }

  /** Conservation: with packet ids distinct and free of colons, and a positive clock, after any run
      of handler steps every packet addressed to a user is in exactly one place, once, and nothing
      else is anywhere. */
  lemma Conservation(es: seq<Event>, l: Letter)
    requires PossibleRun(START, es) && FreshRun(es, {})
    ensures Held(Run(START, es), l) == AddressedBy(es, l) <= 1
  {
    RunBalance(START, es, {}, l);
    AddressedOnce(es, {}, l);
  }

  /** After a login whose sends succeed, everything addressed to the user so far has been sent. */
  lemma LoginDelivers(es: seq<Event>, e: Event, l: Letter)
    requires PossibleRun(START, es) && FreshRun(es, {}) && Possible(Run(START, es), e)
    requires e.Login? && e.authSent && (e.rows == [] || e.syncSent) && l.to == e.user
    ensures var t := Step(Run(START, es), e);
            multiset(t.live)[l] + multiset(t.synced)[l] == AddressedBy(es, l) && Pending(t.queue, l) == 0
  {
    var s := Run(START, es);
    RunBalance(START, es, {}, l);
    FilterKnown(s.queue, e.user, AllUsed(es, {}), l);
    LoginBalance(s, e, l);
    ClearLeaves(s.queue, e.user, l);
  }

  // ---------------------------------------------------------------- in which order

  lemma {:induction false} LettersAt(rows: seq<Row>)
    ensures |Letters(rows)| == |rows|
    ensures forall i :: 0 <= i < |rows| ==> Letters(rows)[i] == Letter(rows[i].to, rows[i].packet)
    decreases |rows|
  {
    if |rows| > 0 {
      LettersAt(rows[..|rows| - 1]);
    }
  }

  lemma {:induction false} FanOutAppends(s: State, pkt: Packet, members: seq<string>, broken: set<string>,
                                         now: string -> int)
    ensures s.live <= FanOut(s, pkt, members, broken, now).live
    ensures s.synced == FanOut(s, pkt, members, broken, now).synced
    decreases |members|
  {
    if |members| > 0 {
      var m := members[0];
      var t := if m == pkt.sender then s else SendOrQueue(s, RoomRowId(pkt, m), Letter(m, pkt), broken, now(m));
      FanOutAppends(t, pkt, members[1..], broken, now);
    }
  }

  /** `sent` goes on from `before` with one letter for each of `rows`, in their order. */
  ghost predicate Continues(before: seq<Letter>, sent: seq<Letter>, rows: seq<Row>) {
    && |sent| == |before| + |rows| && before <= sent
    && forall i :: 0 <= i < |rows| ==> sent[|before| + i] == Letter(rows[i].to, rows[i].packet)
  }

  lemma LettersContinue(before: seq<Letter>, rows: seq<Row>)
    ensures Continues(before, before + Letters(rows), rows)
  {
    LettersAt(rows);
  }

  /** What is sent later comes after what was sent earlier, and a flush sends the rows in the order
      in which the database gives them, by time. */
  lemma SentInOrder(s: State, e: Event)
    requires Possible(s, e)
    ensures s.live <= Step(s, e).live && s.synced <= Step(s, e).synced
    ensures e.Login? && e.authSent && e.syncSent ==> Continues(s.synced, Step(s, e).synced, e.rows)
  {
    if e.RoomMessage? {
      FanOutAppends(s, e.pkt, e.members, e.broken, e.now);
    } else if e.Login? {
      LettersContinue(s.synced, e.rows);
    }
  }

  // ---------------------------------------------------------------- who is online, who is a member

  lemma {:induction false} RunLast(s: State, es: seq<Event>, e: Event)
    ensures Run(s, es + [e]) == Step(Run(s, es), e)
    decreases |es|
  {
    if |es| == 0 {
      assert es + [e] == [e] && [e][1..] == [];
    } else {
      assert (es + [e])[0] == es[0] && (es + [e])[1..] == es[1..] + [e];
      RunLast(Step(s, es[0]), es[1..], e);
    }
  }

  lemma {:induction false} FanOutLeaves(s: State, pkt: Packet, members: seq<string>, broken: set<string>,
                                        now: string -> int)
    ensures FanOut(s, pkt, members, broken, now).online == s.online
    ensures FanOut(s, pkt, members, broken, now).rooms == s.rooms
    decreases |members|
  {
    if |members| > 0 {
      var m := members[0];
      var t := if m == pkt.sender then s else SendOrQueue(s, RoomRowId(pkt, m), Letter(m, pkt), broken, now(m));
      FanOutLeaves(t, pkt, members[1..], broken, now);
    }
  }

  /** A message changes neither. */
  lemma MessagesLeave(s: State, e: Event)
    requires PacketOf(e).Some?
    ensures Step(s, e).online == s.online && Step(s, e).rooms == s.rooms
  {
    if e.RoomMessage? {
      FanOutLeaves(s, e.pkt, e.members, e.broken, e.now);
    }
  }

  /** Event i is a login of the user with no disconnection after it. */
  ghost predicate LastLogin(es: seq<Event>, user: string, i: nat) {
    && i < |es| && es[i].Login? && es[i].user == user
    && forall j: nat :: i < j < |es| ==> es[j] != Disconnect(user)
  }

  lemma LastLoginNext(front: seq<Event>, e: Event, user: string, i: nat)
    ensures LastLogin(front + [e], user, i)
       <==> if i == |front| then e.Login? && e.user == user
            else LastLogin(front, user, i) && e != Disconnect(user)
  {
    var es := front + [e];
    assert es[|front|] == e && forall j: nat :: j < |front| ==> es[j] == front[j];
  }

  /** After any run exactly those users are online who have logged in, whether or not the sends of
      that login succeeded, and have not disconnected since. */
  lemma {:induction false} OnlineIff(es: seq<Event>, user: string)
    ensures user in Run(START, es).online <==> exists i :: LastLogin(es, user, i)
    decreases |es|
  {
    if |es| > 0 {
      var front, e := es[..|es| - 1], es[|es| - 1];
      assert es == front + [e];
      RunLast(START, front, e);
      OnlineIff(front, user);
      if PacketOf(e).Some? {
        MessagesLeave(Run(START, front), e);
      }
      forall i: nat
        ensures LastLogin(es, user, i)
           <==> if i == |front| then e.Login? && e.user == user
                else LastLogin(front, user, i) && e != Disconnect(user)
      {
        LastLoginNext(front, e, user, i);
      }
      if e.Login? && e.user == user {
        assert LastLogin(es, user, |front|);
      } else if exists i :: LastLogin(front, user, i) {
        var i :| LastLogin(front, user, i);
        assert e != Disconnect(user) ==> LastLogin(es, user, i);
      }
    }
  }

  predicate Creates(e: Event, room: string) {
    e.CreateRoom? && e.room == room
  }

  /** The room exists after the first n events. */
  predicate Created(es: seq<Event>, room: string, n: nat) {
    exists k: nat :: k < n && k < |es| && Creates(es[k], room)
  }

  /** Event i makes the user a member: the creation of the room by the user, or a join of the room
      once it exists; and the user has not left since. */
  ghost predicate LastEntry(es: seq<Event>, room: string, user: string, i: nat) {
    && i < |es|
    && (es[i] == CreateRoom(room, user) || es[i] == Join(room, user))
    && (es[i].Join? <==> Created(es, room, i))
    && forall j: nat :: i < j < |es| ==> es[j] != Leave(room, user)
  }

  lemma CreatedNext(front: seq<Event>, e: Event, room: string, n: nat)
    requires n <= |front|
    ensures Created(front + [e], room, n) <==> Created(front, room, n)
    ensures Created(front + [e], room, |front| + 1) <==> Created(front, room, |front|) || Creates(e, room)
  {
    var es := front + [e];
    assert es[|front|] == e && forall j: nat :: j < |front| ==> es[j] == front[j];
    if Created(front, room, n) {
      var k: nat :| k < n && k < |front| && Creates(front[k], room);
      assert Creates(es[k], room);
    }
    if Created(front, room, |front|) {
      var k: nat :| k < |front| && Creates(front[k], room);
      assert Creates(es[k], room);
    }
    assert Creates(e, room) ==> Creates(es[|front|], room);
  }

  lemma {:induction false} ExistsIff(es: seq<Event>, room: string)
    ensures room in Run(START, es).rooms <==> Created(es, room, |es|)
    decreases |es|
  {
    if |es| > 0 {
      var front, e := es[..|es| - 1], es[|es| - 1];
      assert es == front + [e];
      RunLast(START, front, e);
      ExistsIff(front, room);
      CreatedNext(front, e, room, |front|);
      if PacketOf(e).Some? {
        MessagesLeave(Run(START, front), e);
      }
    }
  }

  lemma LastEntryNext(front: seq<Event>, e: Event, room: string, user: string, i: nat)
    ensures LastEntry(front + [e], room, user, i)
       <==> if i == |front|
            then (e == CreateRoom(room, user) || e == Join(room, user))
                 && (e.Join? <==> Created(front, room, |front|))
            else LastEntry(front, room, user, i) && e != Leave(room, user)
  {
    var es := front + [e];
    assert es[|front|] == e && forall j: nat :: j < |front| ==> es[j] == front[j];
    if i <= |front| {
      CreatedNext(front, e, room, i);
    }
  }

  /** How one step changes the membership of one user in one room that has been created or not. */
  lemma MemberStep(s: State, e: Event, room: string, user: string)
    ensures user in MembersOf(Step(s, e), room)
       <==> || ((e == CreateRoom(room, user) || e == Join(room, user)) && (e.Join? <==> room in s.rooms))
            || (user in MembersOf(s, room) && e != Leave(room, user))
  {
    if PacketOf(e).Some? {
      MessagesLeave(s, e);
    }
  }

  /** After any run exactly those users are members of a room who created it, or joined it when it
      existed, and have not left it since: nobody else's joining, leaving or messages matter. */
  lemma {:induction false} MemberIff(es: seq<Event>, room: string, user: string)
    ensures user in MembersOf(Run(START, es), room) <==> exists i :: LastEntry(es, room, user, i)
    decreases |es|
  {
    if |es| > 0 {
      var front, e := es[..|es| - 1], es[|es| - 1];
      assert es == front + [e];
      RunLast(START, front, e);
      MemberIff(front, room, user);
      ExistsIff(front, room);
      MemberStep(Run(START, front), e, room, user);
      LastEntryNext(front, e, room, user, |front|);
      if i: nat :| i < |front| && LastEntry(es, room, user, i) {
        LastEntryNext(front, e, room, user, i);
      }
      if i: nat :| LastEntry(front, room, user, i) {
        LastEntryNext(front, e, room, user, i);
      }
    }
  }
}
