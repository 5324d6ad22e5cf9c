/** The two WebSocket endpoints as a state machine over `GameState`. Every
    suspension point of a handler becomes an `Event`; what arrives on the wire
    (a frame, a decoded `GameInput` with the round's draws, a closed channel) is
    part of the event, so the server is a total function from events to steps. */
module Server {
  import opened Seqs
  import opened Messages
  import opened Registry
  import opened Round
  import opened Wrappers

  /** The first thing a player connection receives. */
  datatype FirstFrame =
    | NameFrame(name: string)  // a text frame: the player's name
    | OtherFrame               // a binary, ping or close frame
    | Closed                   // the channel closed before any frame arrived

  /** A frame an admin connection receives. */
  datatype AdminFrame =
    | NonText                                // ignored
    | Undecodable                            // a text frame that is not a `GameInput`
    | Start(input: GameInput, draws: Draws)  // a decoded `GameInput`, with the round's shuffles

  datatype Event =
    | PlayerOpened(conn: Conn, first: FirstFrame)  // `/socket/play` receives its first frame
    | PlayerSent(conn: Conn)                       // a registered player sends another frame
    | PlayerClosed(conn: Conn)                     // a registered player's channel ends
    | AdminOpened(conn: Conn)                      // `/socket/admin` accepts a connection
    | AdminSent(conn: Conn, frame: AdminFrame)     // an admin's channel delivers a frame
    | AdminClosed(conn: Conn)                      // an admin's channel ends

  /** A connection the server writes to on its own: a session or an admin. */
  predicate Known(gs: GameState, c: Conn) {
    c in Keys(gs.connectedPlayers) || c in gs.admins
  }

  /** Every roster frame of a step carries the names of the state it leaves. */
  predicate RostersCurrent(s: Step) {
    forall i :: 0 <= i < |s.sends| && s.sends[i].msg.Roster? ==>
      s.sends[i].msg.roster.connectedPlayers == Names(s.state.connectedPlayers)
  }

  /** One event. A player's name registers it and rebroadcasts the roster; any
      other first frame ends the connection unregistered. A player's later
      frames are ignored; its end removes it and rebroadcasts. An admin joining
      gets the roster; an admin leaving is dropped silently. A game input starts
      a round and leaves the registry as it is; an input that cannot be decoded
      or that asks for more spies than there are sessions throws out of the
      admin's frame loop, which drops the admin before anything is sent. */
  function Apply(gs: GameState, ev: Event): (r: Step)
    requires Valid(gs)
    ensures Valid(r.state)
    ensures RostersCurrent(r)
    ensures forall i :: 0 <= i < |r.sends| ==>
              Known(r.state, r.sends[i].to) || (ev.AdminSent? && r.sends[i].to == ev.conn)
  {
    match ev
    case PlayerOpened(c, first) =>
      if first.NameFrame? then NewPlayer(gs, first.name, c) else Step(gs, [])
    case PlayerSent(_) => Step(gs, [])
    case PlayerClosed(c) => RemovePlayer(gs, c)
    case AdminOpened(c) => AdminJoin(gs, c)
    case AdminClosed(c) => AdminLeave(gs, c)
    case AdminSent(c, frame) =>
      match frame
      case NonText => Step(gs, [])
      case Undecodable => AdminLeave(gs, c)
      case Start(input, d) =>
        match StartRound(gs, c, input, d)
        case Failure(_) => AdminLeave(gs, c)
        case Success(sends) =>
          RoundKnownRecipients(gs, c, input, d);
          Step(gs, sends)
  }

  /** A round that gets past `subList` leaves the registry as it is and writes
      exactly the round's frames. */
  lemma RoundKeepsState(gs: GameState, c: Conn, input: GameInput, d: Draws)
    requires Valid(gs)
    requires |input.spyHints| <= |gs.connectedPlayers|
    ensures Apply(gs, AdminSent(c, Start(input, d))).state == gs
    ensures Apply(gs, AdminSent(c, Start(input, d))).sends == StartRound(gs, c, input, d).value
  {
  }

  /** An input that cannot be decoded, or a round with more hints than
      sessions, drops the admin with nothing sent and the sessions untouched. */
  lemma BadInputDropsAdmin(gs: GameState, c: Conn, frame: AdminFrame)
    requires Valid(gs)
    requires frame.Undecodable? || (frame.Start? && |frame.input.spyHints| > |gs.connectedPlayers|)
    ensures Apply(gs, AdminSent(c, frame)).sends == []
    ensures Apply(gs, AdminSent(c, frame)).state.connectedPlayers == gs.connectedPlayers
    ensures forall a :: a in Apply(gs, AdminSent(c, frame)).state.admins <==> a in gs.admins && a != c
  {
  }

  /** Frames the server does not act on: a player's first frame that is not a
      name, a registered player's later frames, an admin's non-text frames. */
  lemma IgnoredFrames(gs: GameState, ev: Event)
    requires Valid(gs)
    requires (ev.PlayerOpened? && !ev.first.NameFrame?) || ev.PlayerSent? || (ev.AdminSent? && ev.frame.NonText?)
    ensures Apply(gs, ev).state == gs
    ensures Apply(gs, ev).sends == []
  {
  }

  /** A successful round writes only to sessions and to the admin that started it,
      and carries no roster. */
  lemma RoundKnownRecipients(gs: GameState, admin: Conn, input: GameInput, d: Draws)
    requires UniqueKeys(gs.connectedPlayers)
    requires |input.spyHints| <= |gs.connectedPlayers|
    ensures StartRound(gs, admin, input, d).Success?
    ensures var sends := StartRound(gs, admin, input, d).value;
            forall i :: 0 <= i < |sends| ==>
              !sends[i].msg.Roster? && (sends[i].to in Keys(gs.connectedPlayers) || sends[i].to == admin)
  {
    var sends := StartRound(gs, admin, input, d).value;
    var k := |input.spyHints|;
    var m := Matched(gs, input, d);
    RoundRecipients(gs, admin, input, d);
    var players := Recipients(sends[..k + m]);
    forall i | 0 <= i < |sends|
      ensures !sends[i].msg.Roster? && (sends[i].to in Keys(gs.connectedPlayers) || sends[i].to == admin)
    {
      if i < k + m {
        assert players[i] == sends[i].to;
      }
    }
  }

  /** The steps a sequence of events produces: the first from the initial
      state, each later one from the state the previous step left. The registry
      stays well formed and every roster frame carries the names of the
      registry as it stands after the step that sent it. */
  function Run(gs: GameState, events: seq<Event>): (r: seq<Step>)
    requires Valid(gs)
    ensures |r| == |events|
    ensures forall i :: 0 <= i < |r| ==> Valid(r[i].state) && RostersCurrent(r[i])
    ensures |r| > 0 ==> r[0] == Apply(gs, events[0])
    ensures forall i {:trigger r[i]} :: 0 < i < |r| ==> r[i] == Apply(r[i - 1].state, events[i])
    decreases |events|
  {
    if events == [] then []
    else
      var first := Apply(gs, events[0]);
      var rest := Run(first.state, events[1..]);
      assert forall i :: 0 < i <= |rest| ==> ([first] + rest)[i] == rest[i - 1];
      [first] + rest
  }
}
