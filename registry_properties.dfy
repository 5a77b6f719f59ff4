/** What the handshake and the active loop of the chat server guarantee,
    stated about the step functions of module Registry. */
module RegistryProperties {
  import opened Protocol
  import opened Ordering
  import opened Registry

  // Fan-out

  /** A fan-out sends m once per registered name, to that name's connection,
      and sends nothing else. */
  lemma FanoutReachesEveryClient(clients: map<string, int>, m: Message)
    ensures |Fanout(clients, m)| == |clients|
    ensures forall d :: d in Fanout(clients, m) ==> d.msg == m && d.conn in clients.Values
    ensures forall u :: u in clients ==> Delivery(clients[u], m) in Fanout(clients, m)
  {
    var names := SortedSet(clients.Keys);
    var r := Fanout(clients, m);
    assert |clients.Keys| == |clients|;
    forall d | d in r
      ensures d.msg == m && d.conn in clients.Values
    {
      var i :| 0 <= i < |r| && r[i] == d;
      assert names[i] in clients;
    }
    forall u | u in clients
      ensures Delivery(clients[u], m) in r
    {
      var i :| 0 <= i < |names| && names[i] == u;
      assert r[i] == Delivery(clients[u], m);
    }
  }

  /** A fan-out visits the registered names in ascending order. */
  lemma FanoutInNameOrder(clients: map<string, int>, m: Message, u: string, v: string)
    requires u in clients && v in clients && Below(u, v)
    ensures exists i, j ::
      && 0 <= i < j < |Fanout(clients, m)|
      && Fanout(clients, m)[i] == Delivery(clients[u], m)
      && Fanout(clients, m)[j] == Delivery(clients[v], m)
  {
    var names := SortedSet(clients.Keys);
    var i :| 0 <= i < |names| && names[i] == u;
    var j :| 0 <= j < |names| && names[j] == v;
    if j <= i {
      BelowIrreflexive(u);
      if j < i {
        BelowTransitive(u, v, u);
      }
      assert false;
    }
    assert Fanout(clients, m)[i] == Delivery(clients[u], m);
    assert Fanout(clients, m)[j] == Delivery(clients[v], m);
  }

  /** The LEFT_ROOM fan-out sends, for each room in turn, one LEFT_ROOM to
      every registered connection. */
  lemma LeftRoomFanoutShape(roomNames: seq<string>, clients: map<string, int>, name: string)
    ensures |LeftRoomFanout(roomNames, clients, name)| == |roomNames| * |clients|
    ensures forall d :: d in LeftRoomFanout(roomNames, clients, name) ==>
      d.msg.LeftRoom? && d.msg.username == name && d.msg.roomname in roomNames && d.conn in clients.Values
  {
    LeftRoomFanoutLength(roomNames, clients, name);
    LeftRoomFanoutContents(roomNames, clients, name);
  }

  lemma {:induction false} LeftRoomFanoutLength(roomNames: seq<string>, clients: map<string, int>, name: string)
    ensures |LeftRoomFanout(roomNames, clients, name)| == |roomNames| * |clients|
    decreases |roomNames|
  {
    if roomNames != [] {
      var n := |roomNames| - 1;
      LeftRoomFanoutLength(roomNames[..n], clients, name);
      FanoutReachesEveryClient(clients, LeftRoom(roomNames[n], name));
      MultiplySuccessor(n, |clients|);
    }
  }

  lemma {:induction false} LeftRoomFanoutContents(roomNames: seq<string>, clients: map<string, int>, name: string)
    ensures forall d :: d in LeftRoomFanout(roomNames, clients, name) ==>
      d.msg.LeftRoom? && d.msg.username == name && d.msg.roomname in roomNames && d.conn in clients.Values
    decreases |roomNames|
  {
    if roomNames != [] {
      var n := |roomNames| - 1;
      var front := roomNames[..n];
      var earlier := LeftRoomFanout(front, clients, name);
      var last := Fanout(clients, LeftRoom(roomNames[n], name));
      assert LeftRoomFanout(roomNames, clients, name) == earlier + last;
      LeftRoomFanoutContents(front, clients, name);
      FanoutReachesEveryClient(clients, LeftRoom(roomNames[n], name));
      forall d: Delivery | d in earlier + last
        ensures d.msg.LeftRoom? && d.msg.username == name && d.msg.roomname in roomNames && d.conn in clients.Values
      {
        if d in earlier {
          var k :| 0 <= k < n && front[k] == d.msg.roomname;
          assert roomNames[k] == d.msg.roomname;
        } else {
          assert d in last;
        }
      }
    }
  }

  lemma MultiplySuccessor(n: nat, c: nat)
    ensures (n + 1) * c == n * c + c
  {
  }

  lemma MultiplyDistributes(a: nat, b: nat)
    ensures a * (1 + b) == a + b * a
  {
  }

  /** The message types the active loop compares against differ. */
  lemma TypesDistinct()
    ensures "PUBLIC_TEXT" != "DISCONNECT" && "PUBLIC_TEXT" != "STATUS" && "PUBLIC_TEXT" != "USER_LIST"
    ensures "DISCONNECT" != "STATUS" && "DISCONNECT" != "USER_LIST" && "STATUS" != "USER_LIST"
  {
    assert "PUBLIC_TEXT"[0] == 'P' && "DISCONNECT"[0] == 'D' && "STATUS"[0] == 'S' && "USER_LIST"[0] == 'U';
  }

  // The handshake

  /** An IDENTIFY whose username is longer than 8 bytes gets INVALID_USERNAME
      and nothing else, registers nothing, and closes the connection. */
  lemma IdentifyTooLong(st: State, conn: int, members: map<string, JsonValue>, name: string)
    requires HasType(members, "IDENTIFY") && "username" in members
    requires members["username"] == JString(name) && |name| > MaxUsernameLength
    ensures var (after, next) := Identify(st, conn, Document(members));
      && next == Close
      && after.clients == st.clients && after.statuses == st.statuses && after.rooms == st.rooms
      && after.outbox == st.outbox + [Delivery(conn, Response(IdentifyOp, InvalidUsername, None, Some(UsernameTooLongNote)))]
  {
  }

  /** A short enough name is admitted exactly when nobody holds it: then it
      is mapped to the connection with status ACTIVE and SUCCESS is sent;
      otherwise nothing changes but the USER_ALREADY_EXISTS reply. */
  lemma IdentifyAdmitsIffFree(st: State, conn: int, members: map<string, JsonValue>, name: string)
    requires HasType(members, "IDENTIFY") && "username" in members
    requires members["username"] == JString(name) && |name| <= MaxUsernameLength
    ensures var (after, next) := Identify(st, conn, Document(members));
      && (next == Admitted(name) <==> name !in st.clients)
      && (next != Admitted(name) ==> next == Close)
      && after.rooms == st.rooms
      && (name !in st.clients ==>
            && after.clients == st.clients[name := conn]
            && after.statuses == st.statuses[name := "ACTIVE"]
            && after.outbox == st.outbox + [Delivery(conn, Response(IdentifyOp, Success, Some(name), None))])
      && (name in st.clients ==>
            && after.clients == st.clients && after.statuses == st.statuses
            && after.outbox == st.outbox + [Delivery(conn, Response(IdentifyOp, UserAlreadyExists, Some(name), None))])
  {
  }

  /** A first message that is not an IDENTIFY with a username registers
      nothing and gets a single RESPONSE{INVALID, ERROR}; a first read that
      yields nothing parsable sends nothing at all. Either way the connection
      is closed. */
  lemma IdentifyRejectsOtherInput(st: State, conn: int, input: Received)
    requires !(input.Document? && HasType(input.members, "IDENTIFY") && "username" in input.members)
    ensures var (after, next) := Identify(st, conn, input);
      && next == Close
      && after.clients == st.clients && after.statuses == st.statuses && after.rooms == st.rooms
      && after.outbox == st.outbox + (if input.Document?
                                      then [Delivery(conn, Response(InvalidOp, ErrorResult, None, Some(UnrecognisedNote)))]
                                      else [])
  {
  }

  /** The check-and-insert never replaces an entry: every registered name
      keeps its connection, at most the admitted name is added, no room
      entry changes, and the outbox only grows. */
  lemma IdentifyNeverOverwrites(st: State, conn: int, input: Received)
    ensures var (after, next) := Identify(st, conn, input);
      && (forall u :: u in st.clients ==> u in after.clients && after.clients[u] == st.clients[u])
      && (forall u :: u in after.clients && u !in st.clients ==> next == Admitted(u) && after.clients[u] == conn)
      && after.rooms == st.rooms
      && st.outbox <= after.outbox
  {
  }

  /** Once a name is admitted, an IDENTIFY of the same name from any other
      connection is refused with USER_ALREADY_EXISTS and the name stays with
      the first connection. */
  lemma SecondIdentifyRefused(st: State, first: int, second: int, members: map<string, JsonValue>, name: string)
    requires HasType(members, "IDENTIFY") && "username" in members
    requires members["username"] == JString(name) && |name| <= MaxUsernameLength
    requires name !in st.clients
    ensures var (mid, next1) := Identify(st, first, Document(members));
      var (after, next2) := Identify(mid, second, Document(members));
      && next1 == Admitted(name) && next2 == Close
      && after.clients == mid.clients && after.clients[name] == first
      && after.outbox == mid.outbox + [Delivery(second, Response(IdentifyOp, UserAlreadyExists, Some(name), None))]
  {
    IdentifyAdmitsIffFree(st, first, members, name);
    var mid := Identify(st, first, Document(members)).0;
    IdentifyAdmitsIffFree(mid, second, members, name);
  }

  // The active loop

  /** PUBLIC_TEXT from u sends PUBLIC_TEXT_FROM{u, text} to every registered
      connection, u's own included, and changes no map. */
  lemma PublicTextReachesEveryone(st: State, u: string, conn: int, members: map<string, JsonValue>, text: string)
    requires HasType(members, "PUBLIC_TEXT") && Member(members, "text") == JString(text)
    ensures var (after, next) := Dispatch(st, u, conn, Document(members));
      && next == KeepReading
      && after == st.(outbox := st.outbox + Fanout(st.clients, PublicTextFrom(u, text)))
      && |after.outbox| == |st.outbox| + |st.clients|
      && (u in st.clients ==> Delivery(st.clients[u], PublicTextFrom(u, text)) in after.outbox[|st.outbox|..])
  {
    FanoutReachesEveryClient(st.clients, PublicTextFrom(u, text));
    var after := Dispatch(st, u, conn, Document(members)).0;
    assert after.outbox[|st.outbox|..] == Fanout(st.clients, PublicTextFrom(u, text));
  }

  /** A STATUS with ACTIVE, AWAY or BUSY records it and announces NEW_STATUS
      to every registered connection; any other value changes nothing and
      gets INVALID_STATUS, to the sender only. */
  lemma StatusChange(st: State, u: string, conn: int, members: map<string, JsonValue>, status: string)
    requires HasType(members, "STATUS") && Member(members, "status") == JString(status)
    ensures var (after, next) := Dispatch(st, u, conn, Document(members));
      && next == KeepReading
      && after.clients == st.clients && after.rooms == st.rooms
      && (IsStatus(status) ==>
            && after.statuses == st.statuses[u := status]
            && after.outbox == st.outbox + Fanout(st.clients, NewStatus(u, status)))
      && (!IsStatus(status) ==>
            && after.statuses == st.statuses
            && after.outbox == st.outbox + [Delivery(conn, Response(StatusOp, InvalidStatus, None, None))])
  {
  }

  /** USER_LIST is answered, to the sender only, with the whole status map,
      and changes nothing else. */
  lemma UserListReply(st: State, u: string, conn: int, members: map<string, JsonValue>)
    requires HasType(members, "USER_LIST")
    ensures var (after, next) := Dispatch(st, u, conn, Document(members));
      && next == KeepReading
      && after == st.(outbox := st.outbox + [Delivery(conn, UserList(st.statuses))])
  {
  }

  lemma DisconnectStep(st: State, u: string, conn: int, members: map<string, JsonValue>)
    requires HasType(members, "DISCONNECT")
    ensures Dispatch(st, u, conn, Document(members)) == (Depart(st, u), Close)
  {
    TypesDistinct();
  }

  /** DISCONNECT from u removes u from the registry only (its status stays,
      its room entry is created empty if missing), then sends DISCONNECTED{u}
      and, after it, one LEFT_ROOM per room of u, each to every remaining
      connection; the loop ends. */
  lemma DisconnectEffects(st: State, u: string, conn: int, members: map<string, JsonValue>)
    requires HasType(members, "DISCONNECT")
    ensures var (after, next) := Dispatch(st, u, conn, Document(members));
      var remaining := st.clients - {u};
      var rooms := RoomsWithEntry(st.rooms, u);
      && next == Close
      && after.clients == remaining
      && after.statuses == st.statuses
      && after.rooms == rooms && rooms[u] == (if u in st.rooms then st.rooms[u] else {})
      && after.outbox == st.outbox + Fanout(remaining, Disconnected(u)) + LeftRoomFanout(SortedSet(rooms[u]), remaining, u)
  {
    DisconnectStep(st, u, conn, members);
  }

  /** What a DISCONNECT sends: for the DISCONNECTED and again for each room,
      one message per remaining name, each to the connection of a remaining
      name; what was sent before stays as it was. */
  lemma DisconnectSends(st: State, u: string)
    ensures var after := Depart(st, u);
      var remaining := st.clients - {u};
      var joined := if u in st.rooms then st.rooms[u] else {};
      && st.outbox <= after.outbox
      && |after.outbox| == |st.outbox| + |remaining| * (1 + |joined|)
      && (forall d :: d in after.outbox[|st.outbox|..] ==> d.conn in remaining.Values)
  {
    var joined := if u in st.rooms then st.rooms[u] else {};
    DepartOutbox(st, u);
    DepartureShape(st.outbox, st.clients - {u}, joined, u);
  }

  lemma DepartOutbox(st: State, u: string)
    ensures var joined := if u in st.rooms then st.rooms[u] else {};
      Depart(st, u).outbox == st.outbox + Fanout(st.clients - {u}, Disconnected(u))
                              + LeftRoomFanout(SortedSet(joined), st.clients - {u}, u)
  {
    assert RoomsWithEntry(st.rooms, u)[u] == if u in st.rooms then st.rooms[u] else {};
  }

  /** The sends of a departure, appended to what was already sent. */
  lemma DepartureShape(sent: seq<Delivery>, remaining: map<string, int>, joined: set<string>, u: string)
    ensures var announced := Fanout(remaining, Disconnected(u));
      var left := LeftRoomFanout(SortedSet(joined), remaining, u);
      var after := sent + announced + left;
      && sent <= after
      && |after| == |sent| + |remaining| * (1 + |joined|)
      && (forall d :: d in after[|sent|..] ==> d.conn in remaining.Values)
  {
    var announced := Fanout(remaining, Disconnected(u));
    var left := LeftRoomFanout(SortedSet(joined), remaining, u);
    Regroup(sent, announced, left);
    assert (sent + announced + left)[|sent|..] == announced + left;
    assert |announced + left| == |remaining| * (1 + |joined|) by {
      FanoutReachesEveryClient(remaining, Disconnected(u));
      LeftRoomFanoutLength(SortedSet(joined), remaining, u);
      MultiplyDistributes(|remaining|, |joined|);
    }
    assert forall d: Delivery :: d in announced + left ==> d.conn in remaining.Values by {
      FanoutReachesEveryClient(remaining, Disconnected(u));
      LeftRoomFanoutContents(SortedSet(joined), remaining, u);
    }
  }

  /** An unparsable message, or one whose type the loop does not know, is
      dropped: nothing changes, nothing is sent, and the loop goes on. The
      end of the stream ends the loop, also without any change. */
  lemma IgnoredInputs(st: State, u: string, conn: int, input: Received)
    requires input.EndOfStream? || input.Unparsable? ||
      (input.Document? && !HasType(input.members, "PUBLIC_TEXT") && !HasType(input.members, "DISCONNECT")
                       && !HasType(input.members, "STATUS") && !HasType(input.members, "USER_LIST"))
    ensures Dispatch(st, u, conn, input) == (st, if input.EndOfStream? then Close else KeepReading)
  {
  }

  /** The end of the stream does not unregister the user: the name stays
      taken, so an IDENTIFY of it from a later connection is refused. */
  lemma ClosedStreamKeepsName(st: State, u: string, conn: int, later: int, members: map<string, JsonValue>)
    requires u in st.clients
    requires HasType(members, "IDENTIFY") && "username" in members
    requires members["username"] == JString(u) && |u| <= MaxUsernameLength
    ensures var (mid, next) := Dispatch(st, u, conn, EndOfStream);
      && next == Close && u in mid.clients
      && Identify(mid, later, Document(members)).1 == Close
      && Identify(mid, later, Document(members)).0.outbox
         == mid.outbox + [Delivery(later, Response(IdentifyOp, UserAlreadyExists, Some(u), None))]
  {
    IdentifyAdmitsIffFree(st, later, members, u);
  }

  /** After DISCONNECT, the status map still holds the departed user, so a
      later USER_LIST from anyone lists it with its last status. */
  lemma DepartedUserStillListed(st: State, u: string, conn: int, bye: map<string, JsonValue>,
                                v: string, vconn: int, ask: map<string, JsonValue>)
    requires u in st.statuses
    requires HasType(bye, "DISCONNECT") && HasType(ask, "USER_LIST")
    ensures var mid := Dispatch(st, u, conn, Document(bye)).0;
      var after := Dispatch(mid, v, vconn, Document(ask)).0;
      && u !in mid.clients
      && after.outbox[|after.outbox| - 1] == Delivery(vconn, UserList(st.statuses))
      && u in after.outbox[|after.outbox| - 1].msg.users
      && after.outbox[|after.outbox| - 1].msg.users[u] == st.statuses[u]
  {
    DisconnectEffects(st, u, conn, bye);
    var mid := Dispatch(st, u, conn, Document(bye)).0;
    UserListReply(mid, v, vconn, ask);
  }

  // Invariants

  lemma InitialConsistent()
    ensures Consistent(Initial)
  {
  }

  /** The handshake keeps the state consistent. */
  lemma IdentifyPreservesConsistent(st: State, conn: int, input: Received)
    requires Consistent(st)
    ensures Consistent(Identify(st, conn, input).0)
  {
    var after := Identify(st, conn, input).0;
    if input.Document? && HasType(input.members, "IDENTIFY") && "username" in input.members {
      match input.members["username"]
      case JOther =>
        ConsistentUnderSameRegistry(st, after);
      case JString(name) =>
        if |name| > MaxUsernameLength {
          IdentifyTooLong(st, conn, input.members, name);
          ConsistentUnderSameRegistry(st, after);
        } else {
          IdentifyAdmitsIffFree(st, conn, input.members, name);
          if name in st.clients {
            ConsistentUnderSameRegistry(st, after);
          } else {
            ConsistentUnderRegistration(st, name, conn, after);
          }
        }
    } else {
      IdentifyRejectsOtherInput(st, conn, input);
      ConsistentUnderSameRegistry(st, after);
    }
  }

  lemma ConsistentUnderSameRegistry(st: State, after: State)
    requires Consistent(st)
    requires after.clients == st.clients && after.statuses == st.statuses
    ensures Consistent(after)
  {
  }

  lemma ConsistentUnderRegistration(st: State, name: string, conn: int, after: State)
    requires Consistent(st) && |name| <= MaxUsernameLength
    requires after.clients == st.clients[name := conn] && after.statuses == st.statuses[name := "ACTIVE"]
    ensures Consistent(after)
  {
  }

  /** What one pass of the active loop may change: only DISCONNECT changes
      the registry, and then only by removing the sender; the sender's status may be set to a valid one, the
      sender's room entry may be created empty, and sends are only appended. */
  lemma DispatchFrame(st: State, u: string, conn: int, input: Received)
    ensures var after := Dispatch(st, u, conn, input).0;
      && (after.clients == st.clients ||
          (input.Document? && HasType(input.members, "DISCONNECT") && after.clients == st.clients - {u}))
      && (after.statuses == st.statuses || (exists s :: IsStatus(s) && after.statuses == st.statuses[u := s]))
      && (after.rooms == st.rooms || after.rooms == RoomsWithEntry(st.rooms, u))
      && st.outbox <= after.outbox
  {
    match input
    case EndOfStream =>
    case Unparsable =>
    case Document(members) =>
      if HasType(members, "PUBLIC_TEXT") {
        match Member(members, "text")
        case JOther =>
        case JString(text) => PublicTextReachesEveryone(st, u, conn, members, text);
      } else if HasType(members, "DISCONNECT") {
        DisconnectEffects(st, u, conn, members);
        DisconnectSends(st, u);
      } else if HasType(members, "STATUS") {
        match Member(members, "status")
        case JOther =>
        case JString(status) => StatusChange(st, u, conn, members, status);
      } else if HasType(members, "USER_LIST") {
        UserListReply(st, u, conn, members);
      } else {
        IgnoredInputs(st, u, conn, input);
      }
  }

  /** One pass of the active loop keeps the state consistent. */
  lemma DispatchPreservesConsistent(st: State, u: string, conn: int, input: Received)
    requires Consistent(st)
    ensures Consistent(Dispatch(st, u, conn, input).0)
  {
    DispatchFrame(st, u, conn, input);
  }

  /** A whole session keeps the state consistent, and only ever appends to
      what was sent. */
  lemma {:induction false} SessionPreservesConsistent(st: State, u: string, conn: int, inputs: seq<Received>)
    requires Consistent(st)
    ensures Consistent(Session(st, u, conn, inputs).0)
    ensures st.outbox <= Session(st, u, conn, inputs).0.outbox
    decreases |inputs|
  {
    if inputs != [] {
      DispatchPreservesConsistent(st, u, conn, inputs[0]);
      DispatchFrame(st, u, conn, inputs[0]);
      var after := Dispatch(st, u, conn, inputs[0]).0;
      SessionPreservesConsistent(after, u, conn, inputs[1..]);
    }
  }

  /** No room entry ever holds a room: the handshake and the active loop
      only ever create empty entries. */
  ghost predicate NoRoomJoined(st: State)
  {
    forall u :: u in st.rooms ==> st.rooms[u] == {}
  }

  /** Neither the handshake nor the active loop ever puts a room in an
      entry. */
  lemma {:induction false} NoRoomEverJoined(st: State, u: string, conn: int, inputs: seq<Received>)
    requires NoRoomJoined(st)
    ensures NoRoomJoined(Session(st, u, conn, inputs).0)
    ensures forall c, input :: NoRoomJoined(Identify(st, c, input).0)
    decreases |inputs|
  {
    forall c, input
      ensures NoRoomJoined(Identify(st, c, input).0)
    {
      IdentifyNeverOverwrites(st, c, input);
    }
    if inputs != [] {
      var after := Dispatch(st, u, conn, inputs[0]).0;
      DispatchFrame(st, u, conn, inputs[0]);
      NoRoomEverJoined(after, u, conn, inputs[1..]);
    }
  }

  /** So a DISCONNECT announces no LEFT_ROOM at all: only DISCONNECTED. */
  lemma DisconnectWithoutRooms(st: State, u: string, conn: int, members: map<string, JsonValue>)
    requires NoRoomJoined(st) && HasType(members, "DISCONNECT")
    ensures Dispatch(st, u, conn, Document(members)).0.outbox
         == st.outbox + Fanout(st.clients - {u}, Disconnected(u))
  {
    DisconnectEffects(st, u, conn, members);
    var rooms := RoomsWithEntry(st.rooms, u);
    assert rooms[u] == {};
    assert SortedSet(rooms[u]) == [];
  }
}
