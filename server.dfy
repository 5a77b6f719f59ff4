/** The server's global state and handler code, updated in place. Each
    method performs one step of `Servidor.cpp` and is proved to leave the
    object in the state the corresponding function of module Registry
    describes. Each call is one atomic step: the interleaving of the
    connections' threads is the order in which a caller issues the calls. */
module Server {
  import opened Protocol
  import opened Ordering
  import opened Registry

  class ChatServer {
    var clients: map<string, int>
    var statuses: map<string, string>
    var rooms: map<string, set<string>>
    var outbox: seq<Delivery>

    /** The object's state as a Registry.State value. */
    function Snapshot(): State
      reads this
    {
      State(clients, statuses, rooms, outbox)
    }

    /** Three empty maps and nothing sent. */
    constructor ()
      ensures Snapshot() == Initial
    {
      clients, statuses, rooms, outbox := map[], map[], map[], [];
    }

    /** `send(conn, m)`. */
    method SendTo(conn: int, m: Message)
      modifies this`outbox
      ensures outbox == old(outbox) + [Delivery(conn, m)]
    {
      outbox := outbox + [Delivery(conn, m)];
    }

    /** The loop `for (const auto& cliente : clientes) send(cliente.second, ...)`
        that every notification repeats. */
    method SendToAll(m: Message)
      modifies this`outbox
      ensures outbox == old(outbox) + Fanout(clients, m)
    {
      var names := InOrder(clients.Keys);
      SendToEach(names, m);
    }

    /** The body of that loop, over the names in the order given. */
    method SendToEach(names: seq<string>, m: Message)
      requires forall u :: u in names ==> u in clients
      modifies this`outbox
      ensures outbox == old(outbox) + DeliverTo(names, clients, m)
    {
      for i := 0 to |names|
        invariant outbox == old(outbox) + DeliverTo(names[..i], clients, m)
      {
        DeliverToStep(names, i, clients, m);
        Regroup(old(outbox), DeliverTo(names[..i], clients, m), [Delivery(clients[names[i]], m)]);
        outbox := outbox + [Delivery(clients[names[i]], m)];
      }
      assert names[..|names|] == names;
    }

    /** `broadcastMensaje(text, sender)`. */
    method BroadcastMessage(text: string, sender: string)
      modifies this`outbox
      ensures Snapshot() == BroadcastText(old(Snapshot()), text, sender)
    {
      SendToAll(PublicTextFrom(sender, text));
    }

    /** `notificarDesconexion(name)`. */
    method NotifyDisconnection(name: string)
      modifies this`outbox
      ensures Snapshot() == AnnounceDisconnection(old(Snapshot()), name)
    {
      SendToAll(Disconnected(name));
    }

    /** `notificarSalidaCuartos(name)`: `cuartos[name]` creates an empty entry
        when there is none, then every room is announced to every client. */
    method NotifyRoomsLeft(name: string)
      modifies this`rooms, this`outbox
      ensures Snapshot() == AnnounceRoomsLeft(old(Snapshot()), name)
    {
      if name !in rooms {
        rooms := rooms[name := {}];
      }
      assert rooms == RoomsWithEntry(old(rooms), name);
      var joined := InOrder(rooms[name]);
      AnnounceEachRoom(joined, name);
    }

    /** The loop of `notificarSalidaCuartos` over the rooms, in the order
        given. */
    method AnnounceEachRoom(joined: seq<string>, name: string)
      modifies this`outbox
      ensures outbox == old(outbox) + LeftRoomFanout(joined, clients, name)
    {
      for k := 0 to |joined|
        invariant outbox == old(outbox) + LeftRoomFanout(joined[..k], clients, name)
      {
        ghost var announced := LeftRoomFanout(joined[..k], clients, name);
        SendToAll(LeftRoom(joined[k], name));
        LeftRoomFanoutStep(joined, k, clients, name);
        Regroup(old(outbox), announced, Fanout(clients, LeftRoom(joined[k], name)));
      }
      assert joined[..|joined|] == joined;
    }

    /** `notificarCambioEstado(name, status)`. */
    method NotifyStatusChange(name: string, status: string)
      modifies this`outbox
      ensures Snapshot() == AnnounceStatus(old(Snapshot()), name, status)
    {
      SendToAll(NewStatus(name, status));
    }

    /** The handshake of `manejarCliente(conn)`, given what its first `recv`
        yields. */
    method HandleIdentify(conn: int, input: Received) returns (next: Next)
      modifies this`clients, this`statuses, this`outbox
      ensures (Snapshot(), next) == Identify(old(Snapshot()), conn, input)
    {
      match input
      case EndOfStream =>
        next := Close;
      case Unparsable =>
        next := Close;
      case Document(members) =>
        if HasType(members, "IDENTIFY") && "username" in members {
          match members["username"]
          case JOther =>
            next := Abort;
          case JString(name) =>
            if |name| > MaxUsernameLength {
              SendTo(conn, Response(IdentifyOp, InvalidUsername, None, Some(UsernameTooLongNote)));
              next := Close;
            } else if name !in clients {
              clients := clients[name := conn];
              statuses := statuses[name := "ACTIVE"];
              SendTo(conn, Response(IdentifyOp, Success, Some(name), None));
              next := Admitted(name);
            } else {
              SendTo(conn, Response(IdentifyOp, UserAlreadyExists, Some(name), None));
              next := Close;
            }
        } else {
          SendTo(conn, Response(InvalidOp, ErrorResult, None, Some(UnrecognisedNote)));
          next := Close;
        }
    }

    /** One pass of the active loop of user name on connection conn, given
        what its `recv` yields. */
    method HandleMessage(name: string, conn: int, input: Received) returns (next: Next)
      modifies this
      ensures (Snapshot(), next) == Dispatch(old(Snapshot()), name, conn, input)
    {
      match input
      case EndOfStream =>
        next := Close;
      case Unparsable =>
        next := KeepReading;
      case Document(members) =>
        if HasType(members, "PUBLIC_TEXT") {
          match Member(members, "text")
          case JOther =>
            next := Abort;
          case JString(text) =>
            BroadcastMessage(text, name);
            next := KeepReading;
        } else if HasType(members, "DISCONNECT") {
          clients := clients - {name};
          NotifyDisconnection(name);
          NotifyRoomsLeft(name);
          next := Close;
        } else if HasType(members, "STATUS") {
          match Member(members, "status")
          case JOther =>
            next := Abort;
          case JString(status) =>
            if IsStatus(status) {
              statuses := statuses[name := status];
              NotifyStatusChange(name, status);
            } else {
              SendTo(conn, Response(StatusOp, InvalidStatus, None, None));
            }
            next := KeepReading;
        } else if HasType(members, "USER_LIST") {
          SendTo(conn, UserList(statuses));
          next := KeepReading;
        } else {
          next := KeepReading;
        }
    }

    /** The `while (true)` loop of the thread that serves user name after its
        handshake, over the inputs its `recv` calls yield. */
    method Serve(name: string, conn: int, inputs: seq<Received>) returns (next: Next)
      modifies this
      ensures (Snapshot(), next) == Session(old(Snapshot()), name, conn, inputs)
    {
      var i := 0;
      while i < |inputs|
        invariant 0 <= i <= |inputs|
        invariant Session(Snapshot(), name, conn, inputs[i..]) == Session(old(Snapshot()), name, conn, inputs)
      {
        assert inputs[i..][0] == inputs[i] && inputs[i..][1..] == inputs[i + 1..];
        next := HandleMessage(name, conn, inputs[i]);
        if next != KeepReading {
          return;
        }
        i := i + 1;
      }
      next := KeepReading;
    }
  }
}
