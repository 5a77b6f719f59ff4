/** The server's shared bookkeeping as a value, and each handler step as a
    function from the state before to the state after. The class in
    server.dfy performs the same steps in place and is proved equal to these
    functions; the lemmas in registry_properties.dfy are stated about them. */
module Registry {
  import opened Protocol
  import opened Ordering

  /** Usernames longer than this many bytes are refused at the handshake. */
  const MaxUsernameLength: nat := 8

  /** The statuses a STATUS request may set. */
  predicate IsStatus(s: string)
  {
    s == "ACTIVE" || s == "AWAY" || s == "BUSY"
  }

  /** The three global maps and everything sent so far.
      clients:  username -> connection (`clientes`)
      statuses: username -> status (`estadosClientes`)
      rooms:    username -> room names (`cuartos`)
      outbox:   every `send`, in the order issued */
  datatype State = State(
    clients: map<string, int>,
    statuses: map<string, string>,
    rooms: map<string, set<string>>,
    outbox: seq<Delivery>)

  /** The state when the server starts. */
  const Initial: State := State(map[], map[], map[], [])

  /** One copy of m to the connection of each name in names, in that order. */
  function DeliverTo(names: seq<string>, clients: map<string, int>, m: Message): (r: seq<Delivery>)
    requires forall u :: u in names ==> u in clients
    ensures |r| == |names|
    ensures forall i :: 0 <= i < |names| ==> r[i] == Delivery(clients[names[i]], m)
  {
    if names == [] then []
    else DeliverTo(names[..|names| - 1], clients, m) + [Delivery(clients[names[|names| - 1]], m)]
  }

  lemma DeliverToStep(names: seq<string>, i: nat, clients: map<string, int>, m: Message)
    requires i < |names| && forall u :: u in names ==> u in clients
    ensures forall u :: u in names[..i] ==> u in clients
    ensures DeliverTo(names[..i + 1], clients, m) == DeliverTo(names[..i], clients, m) + [Delivery(clients[names[i]], m)]
  {
    assert names[..i + 1][..i] == names[..i];
  }

  /** The sends of one loop over `clientes`: m to every registered
      connection, in ascending username order. */
  ghost function Fanout(clients: map<string, int>, m: Message): seq<Delivery>
  {
    DeliverTo(SortedSet(clients.Keys), clients, m)
  }

  /** The sends of `notificarSalidaCuartos`: for each room in turn, a LEFT_ROOM
      to every registered connection. */
  ghost function LeftRoomFanout(roomNames: seq<string>, clients: map<string, int>, name: string): seq<Delivery>
  {
    if roomNames == [] then []
    else LeftRoomFanout(roomNames[..|roomNames| - 1], clients, name)
         + Fanout(clients, LeftRoom(roomNames[|roomNames| - 1], name))
  }

  lemma LeftRoomFanoutStep(roomNames: seq<string>, k: nat, clients: map<string, int>, name: string)
    requires k < |roomNames|
    ensures LeftRoomFanout(roomNames[..k + 1], clients, name)
         == LeftRoomFanout(roomNames[..k], clients, name) + Fanout(clients, LeftRoom(roomNames[k], name))
  {
    assert roomNames[..k + 1][..k] == roomNames[..k];
  }

  /** A single `send` to one connection. */
  function Send(st: State, conn: int, m: Message): State
  {
    st.(outbox := st.outbox + [Delivery(conn, m)])
  }

  /** `broadcastMensaje(text, sender)` */
  ghost function BroadcastText(st: State, text: string, sender: string): State
  {
    st.(outbox := st.outbox + Fanout(st.clients, PublicTextFrom(sender, text)))
  }

  /** `notificarDesconexion(name)` */
  ghost function AnnounceDisconnection(st: State, name: string): State
  {
    st.(outbox := st.outbox + Fanout(st.clients, Disconnected(name)))
  }

  /** `cuartos[name]`: the entry, created empty when missing. */
  function RoomsWithEntry(rooms: map<string, set<string>>, name: string): map<string, set<string>>
  {
    if name in rooms then rooms else rooms[name := {}]
  }

  /** `notificarSalidaCuartos(name)` */
  ghost function AnnounceRoomsLeft(st: State, name: string): State
  {
    var rooms := RoomsWithEntry(st.rooms, name);
    st.(rooms := rooms, outbox := st.outbox + LeftRoomFanout(SortedSet(rooms[name]), st.clients, name))
  }

  /** The DISCONNECT branch: `clientes.erase(name)`, then the two
      notifications, in this order. */
  ghost function Depart(st: State, name: string): State
  {
    var erased := st.(clients := st.clients - {name});
    AnnounceRoomsLeft(AnnounceDisconnection(erased, name), name)
  }

  /** `notificarCambioEstado(name, status)` */
  ghost function AnnounceStatus(st: State, name: string, status: string): State
  {
    st.(outbox := st.outbox + Fanout(st.clients, NewStatus(name, status)))
  }

  /** The handshake of `manejarCliente` on the first input of connection conn. */
  ghost function Identify(st: State, conn: int, input: Received): (State, Next)
  {
    match input
    case EndOfStream => (st, Close)
    case Unparsable => (st, Close)
    case Document(members) =>
      if HasType(members, "IDENTIFY") && "username" in members then
        match members["username"]
        case JOther => (st, Abort)
        case JString(name) =>
          if |name| > MaxUsernameLength then
            (Send(st, conn, Response(IdentifyOp, InvalidUsername, None, Some(UsernameTooLongNote))), Close)
          else if name !in st.clients then
            var registered := st.(clients := st.clients[name := conn], statuses := st.statuses[name := "ACTIVE"]);
            (Send(registered, conn, Response(IdentifyOp, Success, Some(name), None)), Admitted(name))
          else
            (Send(st, conn, Response(IdentifyOp, UserAlreadyExists, Some(name), None)), Close)
      else
        (Send(st, conn, Response(InvalidOp, ErrorResult, None, Some(UnrecognisedNote))), Close)
  }

  /** One pass of the active loop of user name on connection conn. */
  ghost function Dispatch(st: State, name: string, conn: int, input: Received): (State, Next)
  {
    match input
    case EndOfStream => (st, Close)
    case Unparsable => (st, KeepReading)
    case Document(members) =>
      if HasType(members, "PUBLIC_TEXT") then
        match Member(members, "text")
        case JOther => (st, Abort)
        case JString(text) => (BroadcastText(st, text, name), KeepReading)
      else if HasType(members, "DISCONNECT") then
        (Depart(st, name), Close)
      else if HasType(members, "STATUS") then
        match Member(members, "status")
        case JOther => (st, Abort)
        case JString(status) =>
          if IsStatus(status) then
            (AnnounceStatus(st.(statuses := st.statuses[name := status]), name, status), KeepReading)
          else
            (Send(st, conn, Response(StatusOp, InvalidStatus, None, None)), KeepReading)
      else if HasType(members, "USER_LIST") then
        (Send(st, conn, UserList(st.statuses)), KeepReading)
      else
        (st, KeepReading)
  }

  /** The active loop over a run of inputs: it stops at the first input that
      does not leave it reading, and is still reading when the inputs run out. */
  ghost function Session(st: State, name: string, conn: int, inputs: seq<Received>): (State, Next)
    decreases |inputs|
  {
    if inputs == [] then (st, KeepReading)
    else
      var (after, next) := Dispatch(st, name, conn, inputs[0]);
      if next == KeepReading then Session(after, name, conn, inputs[1..]) else (after, next)
  }

  /** What every reachable state satisfies: every registered name has a
      status, every status is one STATUS accepts, and every registered name
      passed the length check. */
  ghost predicate Consistent(st: State)
  {
    && (forall u :: u in st.clients ==> u in st.statuses && |u| <= MaxUsernameLength)
    && (forall u :: u in st.statuses ==> IsStatus(st.statuses[u]))
  }
}
