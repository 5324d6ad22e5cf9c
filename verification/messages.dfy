/** The connections and the wire records the server exchanges with its clients.
    Every record has a `messageType` field whose value is fixed by its default,
    as in the Kotlin data classes. JSON encoding is not modelled: a message is
    sent as the record itself. On the wire the discriminator appears only where
    the encoder writes defaults: in the `PlayerState` frames, which the round
    encodes with `encodeDefaults = true`, and not in the roster frames, which
    `updatePlayers` encodes with the library's default settings. */
module Messages {

  /** A WebSocket session. Only its identity matters to the server: two
      sessions are the same connection exactly when their ids agree. */
  datatype Conn = Conn(id: nat)

  /** The admin's round configuration. `numSpies` is carried but never read. */
  datatype GameInput = GameInput(
    messageType: string := "GameInput",
    theme: string,
    subjects: seq<string>,
    spySubjects: seq<string>,
    spyHints: seq<string>,
    showSubjectsToNonSpies: bool,
    numSpies: int)

  /** The roster broadcast: the display names of the connected players. */
  datatype ConnectedPlayers = ConnectedPlayers(
    messageType: string := "ConnectedPlayers",
    connectedPlayers: seq<string>)

  /** One player's view of a round. */
  datatype PlayerState = PlayerState(
    messageType: string := "PlayerState",
    isSpy: bool,
    theme: string,
    subject: string,
    subjectList: seq<string>,
    hint: string,
    allPlayers: seq<string>)

  /** A text frame as the server writes it. */
  datatype Message =
    | Roster(roster: ConnectedPlayers)
    | State(state: PlayerState)
    | Text(text: string)

  /** The acknowledgment the initiating admin gets after a round. */
  const GameStarted: string := "Game Started"

  /** One frame written to one connection. */
  datatype Send = Send(to: Conn, msg: Message)

  /** The connections a trace writes to, in the order it writes them. */
  function Recipients(sends: seq<Send>): (r: seq<Conn>)
    ensures |r| == |sends|
    ensures forall i :: 0 <= i < |r| ==> r[i] == sends[i].to
  {
    seq(|sends|, i requires 0 <= i < |sends| => sends[i].to)
  }
}
