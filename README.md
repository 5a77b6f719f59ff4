# Chat server bookkeeping, in Dafny

A model of `src/modelado/Servidor.cpp`, a multi-threaded TCP chat server
that speaks a JSON protocol, with proofs about it. The model covers two
parts of the server:

- **`esPuertoValido`**: the check `main` applies to its port argument. It
  is modelled on `strtol` in base 10 as section 7.22.1.4 of the C11
  standard describes it, for a 64-bit `long`. The string is first cut at
  its first NUL byte, as `c_str()` does.
- **The session bookkeeping**:
  - the three global maps:
    - `clientes`: username → socket;
    - `estadosClientes`: username → status;
    - `cuartos`: username → set of rooms;
  - the four fan-out helpers;
  - the handshake of `manejarCliente`;
  - the dispatch of each session's receive loop.

  Every `send` is appended to an outbox as a (connection, message) pair.
  Every `recv` is an input value: end of stream, text that does not parse,
  or a parsed document given as its members.

Modules:

- `PortValidation` (port_validation.dfy): the `strtol` model, `IsValidPort`,
  and an independent description of the accepted strings, proved
  equivalent.
- `Ordering` (ordering.dfy): `std::string`'s `operator<` and the ascending
  order in which `std::map` and `std::set` are visited. Every fan-out loop
  sends in this order. `InOrder` enumerates a set in that order.
- `Protocol` (protocol.dfy): received inputs, outgoing messages, and what a
  handler does next:
  - `Admitted`;
  - `KeepReading`;
  - `Close`;
  - `Abort`: a member read as a string was not one, so the JSON library
    throws `type_error`, nothing catches it, and the process terminates.
- `Registry` (registry.dfy):
  - the server state as a value;
  - each handler step as a function from the old state to the new state and
    the next step:
    - `Identify`: the handshake;
    - `Dispatch`: one pass of the receive loop;
    - `Session`: the loop over a run of inputs.
- `Server` (server.dfy): `ChatServer`, a class holding the maps and the
  outbox. Its methods update these in place with the same loops as the
  source. Each method is proved to leave the object in the state that the
  corresponding `Registry` function gives.
- `RegistryProperties` (registry_properties.dfy): what the handshake, the
  receive loop and the fan-outs guarantee, proved about the `Registry`
  functions.

Strings are byte strings, one `char` per byte. So the username limit of
8 counts bytes, as `std::string::length` does.

Servidor.cpp is modelled as written, including where it differs from the
protocol's documented intent:

- DISCONNECT erases the user from `clientes` only (:200). Its status and
  its room entry stay, so a later USER_LIST still lists the user.
- DISCONNECTED is sent before the LEFT_ROOM messages (:201-202). Both go
  only to the remaining users, because the erase comes first.
- The end of the stream (:178-182) ends the loop and unregisters nothing.
  The name stays taken for good.
- A parse failure at the handshake (:137-141) closes the connection without
  any reply.
- `cuartos[name]` (:92) inserts an empty set when the name has no entry.
  Nothing else ever adds to `cuartos`, so every entry stays empty, and a
  DISCONNECT never actually sends LEFT_ROOM (`NoRoomEverJoined`,
  `DisconnectWithoutRooms`).

## Model

| member | source | states |
|---|---|---|
| PortValidation.Strtol | src/modelado/Servidor.cpp:27 | the conversion never reads past the string, its value lies within the range of `long`, and when nothing is consumed the value is 0 with no range error |
| PortValidation.CString | src/modelado/Servidor.cpp:27 | what `c_str()` shows a C routine is the prefix before the first NUL, contains no NUL, and is followed by a NUL when shorter than the string |
| PortValidation.PortCharacterisation | src/modelado/Servidor.cpp:24-29 | a port string is accepted exactly when its part before the first NUL is whitespace, an optional '+', and a decimal numeral whose value is in 1..65535, with nothing after it |
| PortValidation.StrtolOfNumeral | src/modelado/Servidor.cpp:27 | `strtol` on whitespace, an optional '+' and a port numeral consumes the whole string, sets no range error, and yields the numeral's value |
| PortValidation.DigitsValidIffInRange | src/modelado/Servidor.cpp:28 | a string of nothing but digits is accepted exactly when its value lies in 1..65535 |
| PortValidation.ValidEndsInDigit | src/modelado/Servidor.cpp:28 | every accepted string is non-empty before its first NUL and ends there in a decimal digit, so trailing non-digits are rejected |
| PortValidation.NumeralAccepted | src/modelado/Servidor.cpp:24-29 | a NUL-free string of whitespace followed by a signed port numeral is accepted |
| PortValidation.PrefixTolerated | src/modelado/Servidor.cpp:27 | leading whitespace, and a '+' after it, do not stop a port numeral from being accepted |
| PortValidation.RejectedExamples | src/modelado/Servidor.cpp:28 | the empty string, "0" and "65536" are rejected |
| PortValidation.NegativeRejected | src/modelado/Servidor.cpp:28 | no string that starts with '-' is accepted |
| Ordering.SortedSet | src/modelado/Servidor.cpp:20-21 | the visiting order of a `std::set` or of a `std::map`'s keys lists each element exactly once, in strictly ascending `std::string` order |
| Ordering.SortedSetUnique | src/modelado/Servidor.cpp:20-21 | any strictly ascending enumeration of a set is that visiting order, so the order depends on the set alone |
| Ordering.InOrder | src/modelado/Servidor.cpp:92 | the range-for over a set, or over a map's keys, yields the elements in ascending order |
| Registry.DeliverTo | src/modelado/Servidor.cpp:70-72 | one delivery per name, in the given order, each of the same message to that name's socket |
| Server.ChatServer.constructor | src/modelado/Servidor.cpp:20-22 | the server starts with three empty maps and nothing sent |
| Server.ChatServer.SendTo | src/modelado/Servidor.cpp:217 | a single `send` appends exactly one delivery and changes nothing else |
| Server.ChatServer.SendToAll | src/modelado/Servidor.cpp:84-86 | the loop over `clientes` appends one copy of the message per registered name, in ascending name order, and changes no map |
| Server.ChatServer.SendToEach | src/modelado/Servidor.cpp:70-72 | the loop body sends to the socket of each name in turn |
| Server.ChatServer.BroadcastMessage | src/modelado/Servidor.cpp:59-73 | `broadcastMensaje` appends PUBLIC_TEXT_FROM{sender, text} to every registered socket and changes no map |
| Server.ChatServer.NotifyDisconnection | src/modelado/Servidor.cpp:75-87 | `notificarDesconexion` appends DISCONNECTED{name} to every registered socket and changes no map |
| Server.ChatServer.NotifyRoomsLeft | src/modelado/Servidor.cpp:89-104 | `notificarSalidaCuartos` creates an empty room entry for the name if it has none, then announces each of its rooms in ascending order to every registered socket |
| Server.ChatServer.AnnounceEachRoom | src/modelado/Servidor.cpp:92-103 | the outer loop sends, room after room, one LEFT_ROOM{room, name} per registered socket |
| Server.ChatServer.NotifyStatusChange | src/modelado/Servidor.cpp:106-119 | `notificarCambioEstado` appends NEW_STATUS{name, status} to every registered socket and changes no map |
| Server.ChatServer.HandleIdentify | src/modelado/Servidor.cpp:121-268 | the handshake updates the maps and the outbox exactly as `Registry.Identify` says and returns the same next step |
| Server.ChatServer.HandleMessage | src/modelado/Servidor.cpp:184-229 | one pass of the receive loop updates the maps and the outbox exactly as `Registry.Dispatch` says and returns the same next step |
| Server.ChatServer.Serve | src/modelado/Servidor.cpp:176-232 | the receive loop over a run of inputs reaches the state and outcome `Registry.Session` gives, stopping at the first input that ends it |
| RegistryProperties.FanoutReachesEveryClient | src/modelado/Servidor.cpp:70-72 | a fan-out sends exactly one message per registered name, each to a registered socket; every registered name's socket receives the message |
| RegistryProperties.FanoutInNameOrder | src/modelado/Servidor.cpp:84-86 | a name that sorts earlier receives its copy before a name that sorts later |
| RegistryProperties.LeftRoomFanoutShape | src/modelado/Servidor.cpp:92-103 | the room announcements are rooms × registered names in number; each is a LEFT_ROOM for the departing name and one of its rooms, sent to a registered socket |
| RegistryProperties.IdentifyTooLong | src/modelado/Servidor.cpp:147-158 | a username longer than 8 bytes gets exactly one RESPONSE{IDENTIFY, INVALID_USERNAME} with the fixed note, changes no map, and closes the connection |
| RegistryProperties.IdentifyAdmitsIffFree | src/modelado/Servidor.cpp:160-164 | a short enough name is admitted exactly when no one holds it. It is then mapped to the socket with status ACTIVE and gets SUCCESS with the username. Otherwise no map changes, the only send is USER_ALREADY_EXISTS with the username, and the connection closes |
| RegistryProperties.IdentifyRejectsOtherInput | src/modelado/Servidor.cpp:257-267 | a first input that is not an IDENTIFY with a username registers nothing and closes the connection. A parsed document gets exactly one RESPONSE{INVALID, ERROR}; end of stream or text that does not parse gets nothing |
| RegistryProperties.IdentifyNeverOverwrites | src/modelado/Servidor.cpp:162-163 | the handshake never replaces a registry entry, adds at most the admitted name with its own socket, changes no room entry, and only appends to the outbox |
| RegistryProperties.SecondIdentifyRefused | src/modelado/Servidor.cpp:245-255 | after a name is admitted, an IDENTIFY of the same name from another socket is refused with USER_ALREADY_EXISTS, and the name keeps its first socket |
| RegistryProperties.PublicTextReachesEveryone | src/modelado/Servidor.cpp:194-196 | PUBLIC_TEXT from u sends PUBLIC_TEXT_FROM{u, text} once to every registered socket, u's own included, changes no map, and keeps reading |
| RegistryProperties.StatusChange | src/modelado/Servidor.cpp:205-218 | a STATUS of ACTIVE, AWAY or BUSY is recorded and announced to every registered socket. Any other value changes nothing and gets only RESPONSE{STATUS, INVALID_STATUS}, sent to the sender |
| RegistryProperties.UserListReply | src/modelado/Servidor.cpp:219-228 | USER_LIST is answered, to the sender only, with the whole status map, and nothing else changes |
| RegistryProperties.DisconnectEffects | src/modelado/Servidor.cpp:197-204 | DISCONNECT removes u from `clientes` only and creates u's room entry empty if missing. It then sends DISCONNECTED{u} and, after it, the LEFT_ROOM announcements, all to the remaining sockets, and ends the loop |
| RegistryProperties.DisconnectSends | src/modelado/Servidor.cpp:199-202 | a departure appends (1 + number of rooms) × (remaining names) messages, all to sockets of remaining names, and keeps what was sent before |
| RegistryProperties.IgnoredInputs | src/modelado/Servidor.cpp:186-192 | text that does not parse, or a document of no handled type, changes nothing, sends nothing, and keeps reading. End of stream changes nothing and ends the loop |
| RegistryProperties.ClosedStreamKeepsName | src/modelado/Servidor.cpp:178-182 | after end of stream the name is still registered, so an IDENTIFY of it from a later connection gets USER_ALREADY_EXISTS |
| RegistryProperties.DepartedUserStillListed | src/modelado/Servidor.cpp:200 | after u's DISCONNECT, u is no longer registered, yet a USER_LIST from anyone lists u with its last status |
| RegistryProperties.InitialConsistent | src/modelado/Servidor.cpp:20-22 | the empty start state satisfies the invariant: every registered name has a status and at most 8 bytes, and every status is ACTIVE, AWAY or BUSY |
| RegistryProperties.IdentifyPreservesConsistent | src/modelado/Servidor.cpp:160-164 | the handshake preserves that invariant |
| RegistryProperties.DispatchFrame | src/modelado/Servidor.cpp:194-229 | one pass of the loop changes `clientes` only on DISCONNECT, and then only by removing the sender. It changes at most the sender's status, to a valid one, and at most creates the sender's empty room entry. It only appends to the outbox |
| RegistryProperties.DispatchPreservesConsistent | src/modelado/Servidor.cpp:205-208 | one pass of the loop preserves the invariant |
| RegistryProperties.SessionPreservesConsistent | src/modelado/Servidor.cpp:176-232 | a whole session preserves the invariant and only appends to what was sent |
| RegistryProperties.NoRoomEverJoined | src/modelado/Servidor.cpp:92 | if no room entry holds a room, none does after a handshake or after any session |
| RegistryProperties.DisconnectWithoutRooms | src/modelado/Servidor.cpp:89-104 | while no entry holds a room, a DISCONNECT sends only DISCONNECTED{u} to the remaining sockets |

## Left out

- Sockets and OS calls are not modelled: `socket`, `bind`, `listen`, `accept`, `close`, and `obtenerIPLocal` with `getifaddrs` (:31-57). `send` is an outbox append and `recv` is an input value. Closing a connection is the `Close` outcome.
- `main` (:270-323) is left out: the argument count, `stoi`, and the accept loop are process plumbing. Only its use of `esPuertoValido` is modelled.
- Threads and mutexes are left out. Each handler call is one atomic step, and the interleaving of sessions is the order in which a caller issues the calls.
- The lock at :199 is held while `notificarDesconexion` (:76) and `notificarSalidaCuartos` (:90) take the same non-recursive `clientMutex` again. This is undefined behaviour, in practice a self-deadlock. The model lets DISCONNECT proceed as written, because locking is not modelled.
- The write to `estadosClientes` at :208 happens without the lock, so it races with other sessions. The model does not capture this, because it has no concurrency.
- Server.ChatServer.HandleIdentify: the handshake starts the session thread (:169-235) before it sends SUCCESS (:244). In the real server, messages that session sends could precede that SUCCESS. The model sends SUCCESS first, as one step with the registration.
- JSON parsing and serialisation (nlohmann::json) are left out. A parse is its outcome: members of a document, or a parse failure. A message is a datatype value, not its serialised text.
- The 1024-byte single-`recv`-per-message framing (:122, :170) is not modelled: each input is one whole message.
- A JSON document that is not an object is modelled as having no members, since `contains` is false on it. A "type" that is not a string compares unequal to every type name.
- A member read as a string that is missing or not a string yields `Abort` with the state unchanged. The process termination that follows is not modelled further.
- Console logging (`cout`/`cerr`, `coutMutex`) is left out.
- Server.ChatServer.Serve and Registry.Session model the `while (true)` loop over a finite run of inputs. When the run ends without the loop ending, the outcome is `KeepReading`.
