/** The messages the chat server reads and writes. The server exchanges JSON
    objects; here a received object is the map of its members, and an
    outgoing message is a datatype value rather than its serialised text.
    Strings are byte strings: one `char` per byte of the UTF-8 text. */
module Protocol {

  datatype Option<+T> = None | Some(value: T)

  /** A JSON member value as the server inspects it: a string, or any other
      JSON value (number, boolean, null, array, object). */
  datatype JsonValue = JString(text: string) | JOther

  /** What one `recv` on a connection yields. */
  datatype Received =
    | EndOfStream                                // recv returned 0 or less: peer closed or transport error
    | Unparsable                                 // json::parse threw parse_error
    | Document(members: map<string, JsonValue>)  // a parsed document; one that is not an object has no members

  /** `mensajeJson.contains("type") && mensajeJson["type"] == t` */
  predicate HasType(members: map<string, JsonValue>, t: string)
  {
    "type" in members && members["type"] == JString(t)
  }

  /** `mensajeJson[key]` on a document: a missing member reads as null. */
  function Member(members: map<string, JsonValue>, key: string): JsonValue
  {
    if key in members then members[key] else JOther
  }

  /** The "operation" of a RESPONSE. */
  datatype Operation = IdentifyOp | StatusOp | InvalidOp

  /** The "result" of a RESPONSE. */
  datatype ResultCode = Success | InvalidUsername | UserAlreadyExists | ErrorResult | InvalidStatus

  /** What the server sends. A RESPONSE carries its "username" member, when
      it has one, as subject, and its "message" member as note. */
  datatype Message =
    | Response(operation: Operation, result: ResultCode, subject: Option<string>, note: Option<string>)
    | PublicTextFrom(username: string, text: string)
    | NewStatus(username: string, status: string)
    | UserList(users: map<string, string>)
    | Disconnected(username: string)
    | LeftRoom(roomname: string, username: string)

  /** One `send`: the connection (socket descriptor) and the message. */
  datatype Delivery = Delivery(conn: int, msg: Message)

  /** The "message" member of the two RESPONSEs that carry one. */
  const UsernameTooLongNote: string := "El nombre de usuario debe tener 8 caracteres o menos"
  const UnrecognisedNote: string := "Tipo de mensaje no reconocido"

  /** What the connection's handler does after one received input.
      Admitted: the handshake registered the name and the active loop starts.
      KeepReading: the active loop reads the next input.
      Close: the handler closes the connection and returns.
      Abort: a member read as a string was not one; the `type_error` thrown
      by the JSON library is not caught, so the whole process terminates. */
  datatype Next = Admitted(username: string) | KeepReading | Close | Abort
}
