/** The round started by an admin's `GameInput`: spies are drawn from the
    connected sessions and each gets a hint, the other sessions are paired
    with shuffled subjects, and every recipient gets its own `PlayerState`.
    Each `shuffled()` call of the server is an explicit order in `Draws`, so
    the round is a total, deterministic function of its inputs. */
module Round {
  import opened Seqs
  import opened Messages
  import opened Registry
  import opened Wrappers

  /** The outcomes of the `shuffled()` calls one round makes. An order that is
      not a permutation of the indices it is applied to is read as the identity. */
  datatype Draws = Draws(
    sessionOrder: seq<nat>,       // sessions.shuffled(), before the spies are cut off
    subjectOrder: seq<nat>,       // gameInput.subjects.shuffled()
    rosterOrders: seq<seq<nat>>,  // names.shuffled(), one per PlayerState in send order
    revealOrders: seq<seq<nat>>)  // fulList.shuffled(), one per non-spy that gets a subject

  /** The i-th order of a list of draws, or the empty order when none is left. */
  function OrderAt(orders: seq<seq<nat>>, i: nat): seq<nat> {
    if i < |orders| then orders[i] else []
  }

  /** `subList(0, spyHints.size)` on a list that is too short throws. */
  datatype RoundError = SubListOutOfBounds(toIndex: nat, size: nat)

  function Min(a: nat, b: nat): nat {
    if a <= b then a else b
  }

  predicate IsLowerAscii(ch: char) {
    'a' <= ch <= 'z'
  }

  /** `replaceFirstChar { if (it.isLowerCase()) it.titlecase() else it.toString() }`
      on the ASCII letters: a leading lower-case letter becomes upper-case and
      nothing else changes. */
  function TitleCase(s: string): (r: string)
    ensures |r| == |s|
    ensures |s| > 0 ==> r[1..] == s[1..]
    ensures |r| > 0 ==> !IsLowerAscii(r[0])
    ensures |s| > 0 && IsLowerAscii(s[0]) ==>
              'A' <= r[0] <= 'Z' && r[0] as int - 'A' as int == s[0] as int - 'a' as int
    ensures (|s| == 0 || !IsLowerAscii(s[0])) ==> r == s
  {
    if |s| > 0 && IsLowerAscii(s[0]) then [(s[0] as int - 32) as char] + s[1..] else s
  }

  /** Title-casing twice is title-casing once. */
  lemma TitleCaseIdempotent(s: string)
    ensures TitleCase(TitleCase(s)) == TitleCase(s)
  {
  }

  /** `fulList`: the subjects followed by the spy subjects, each title-cased. */
  function FullList(input: GameInput): (r: seq<string>)
    ensures |r| == |input.subjects| + |input.spySubjects|
    ensures forall i :: 0 <= i < |input.subjects| ==> r[i] == TitleCase(input.subjects[i])
    ensures forall j :: 0 <= j < |input.spySubjects| ==>
              r[|input.subjects| + j] == TitleCase(input.spySubjects[j])
  {
    var all := input.subjects + input.spySubjects;
    seq(|all|, i requires 0 <= i < |all| => TitleCase(all[i]))
  }

  /** No entry of the reveal list starts with a lower-case letter, and so
      title-casing the list again changes nothing. */
  lemma FullListTitleCased(input: GameInput)
    ensures forall i :: 0 <= i < |FullList(input)| ==> TitleCase(FullList(input)[i]) == FullList(input)[i]
    ensures forall i :: 0 <= i < |FullList(input)| && |FullList(input)[i]| > 0 ==> !IsLowerAscii(FullList(input)[i][0])
  {
    var r := FullList(input);
    forall i | 0 <= i < |r| ensures TitleCase(r[i]) == r[i] {
      var all := input.subjects + input.spySubjects;
      assert r[i] == TitleCase(all[i]);
    }
  }

  /** `sessions.shuffled().subList(0, spyHints.size).toSet()`: the first
      `|spyHints|` sessions in the drawn order. */
  function Spies(gs: GameState, input: GameInput, d: Draws): (r: seq<Conn>)
    requires UniqueKeys(gs.connectedPlayers)
    requires |input.spyHints| <= |gs.connectedPlayers|
    ensures |r| == |input.spyHints|
    ensures NoDuplicates(r)
    ensures forall c :: c in r ==> c in Keys(gs.connectedPlayers)
  {
    var sessions := Keys(gs.connectedPlayers);
    var order := Shuffled(sessions, d.sessionOrder);
    UniqueKeysNoDuplicates(gs.connectedPlayers);
    SameMultisetNoDuplicates(sessions, order);
    var r := order[..|input.spyHints|];
    assert forall c :: c in r ==> c in multiset(order);
    r
  }

  /** `sessions - spies`: the sessions that are not spies, in registry order
      (the position of a connection's key in the registry is when it registered). */
  function NonSpies(gs: GameState, input: GameInput, d: Draws): (r: seq<Conn>)
    requires UniqueKeys(gs.connectedPlayers)
    requires |input.spyHints| <= |gs.connectedPlayers|
    ensures NoDuplicates(r)
    ensures forall c :: c in r <==> c in Keys(gs.connectedPlayers) && c !in Spies(gs, input, d)
    ensures |r| == |gs.connectedPlayers| - |input.spyHints|
    ensures forall i, j :: 0 <= i < j < |r| ==>
              FirstIndex(Keys(gs.connectedPlayers), r[i]) < FirstIndex(Keys(gs.connectedPlayers), r[j])
  {
    var sessions := Keys(gs.connectedPlayers);
    var spies := Spies(gs, input, d);
    UniqueKeysNoDuplicates(gs.connectedPlayers);
    MinusNoDuplicates(sessions, spies);
    MinusKeepsOrder(sessions, spies);
    var r := Minus(sessions, spies);
    NonSpiesCount(gs, input, d);
    r
  }

  /** The non-spies are the drawn order with the spies cut off, as a multiset;
      so there are `|sessions| - |spyHints|` of them. */
  lemma NonSpiesCount(gs: GameState, input: GameInput, d: Draws)
    requires UniqueKeys(gs.connectedPlayers)
    requires |input.spyHints| <= |gs.connectedPlayers|
    ensures |Minus(Keys(gs.connectedPlayers), Spies(gs, input, d))| == |gs.connectedPlayers| - |input.spyHints|
  {
    var sessions := Keys(gs.connectedPlayers);
    var order := Shuffled(sessions, d.sessionOrder);
    UniqueKeysNoDuplicates(gs.connectedPlayers);
    MinusPrefix(sessions, order, |input.spyHints|);
    assert |Minus(sessions, order[..|input.spyHints|])| == |multiset(order[|input.spyHints|..])|;
  }

  /** `gameInput.subjects.shuffled()`. */
  function ShuffledSubjects(input: GameInput, d: Draws): (r: seq<string>)
    ensures multiset(r) == multiset(input.subjects)
    ensures |r| == |input.subjects|
  {
    var r := Shuffled(input.subjects, d.subjectOrder);
    assert |multiset(r)| == |multiset(input.subjects)|;
    r
  }

  /** How many non-spies `zip` pairs with a subject. */
  function Matched(gs: GameState, input: GameInput, d: Draws): nat
    requires UniqueKeys(gs.connectedPlayers)
    requires |input.spyHints| <= |gs.connectedPlayers|
  {
    Min(|NonSpies(gs, input, d)|, |input.subjects|)
  }

  /** `fulList.shuffled() - subject` when the list is shown, else empty. */
  function SubjectList(fulList: seq<string>, order: seq<nat>, subject: string, show: bool): (r: seq<string>)
    ensures !show ==> r == []
    ensures show ==> multiset(r) == multiset(fulList) - multiset{subject}
  {
    if show then
      var shuffled := Shuffled(fulList, order);
      RemoveFirstMultiset(shuffled, subject);
      RemoveFirst(shuffled, subject)
    else []
  }

  /** What a spy is sent. */
  function SpyState(hint: string, allPlayers: seq<string>): PlayerState {
    PlayerState(isSpy := true, hint := hint, subject := "", theme := "",
                subjectList := [], allPlayers := allPlayers)
  }

  /** What a non-spy is sent. */
  function NonSpyState(theme: string, subject: string, subjectList: seq<string>, allPlayers: seq<string>): PlayerState {
    PlayerState(isSpy := false, subject := subject, theme := theme,
                subjectList := subjectList, hint := "", allPlayers := allPlayers)
  }

  /** The frame a spy is owed: "spy", its hint, no theme, subject or subject
      list, and the roster in some order. */
  predicate IsSpyFrame(s: Send, to: Conn, hint: string, names: seq<string>) {
    && s.to == to
    && s.msg.State?
    && s.msg.state.isSpy
    && s.msg.state.hint == hint
    && s.msg.state.subject == ""
    && s.msg.state.theme == ""
    && s.msg.state.subjectList == []
    && multiset(s.msg.state.allPlayers) == multiset(names)
  }

  /** The frame a matched non-spy is owed: "not a spy", its subject, the theme,
      no hint, the roster in some order, and either no subject list or the
      reveal list less one copy of the raw subject. */
  predicate IsNonSpyFrame(s: Send, to: Conn, subject: string, theme: string, names: seq<string>,
                          fulList: seq<string>, show: bool) {
    && s.to == to
    && s.msg.State?
    && !s.msg.state.isSpy
    && s.msg.state.subject == subject
    && s.msg.state.theme == theme
    && s.msg.state.hint == ""
    && multiset(s.msg.state.allPlayers) == multiset(names)
    && (!show ==> s.msg.state.subjectList == [])
    && (show ==> multiset(s.msg.state.subjectList) == multiset(fulList) - multiset{subject})
  }

  /** What a round has settled before it writes anything: who the spies are
      and their hints, the non-spies and the shuffled subjects, the roster
      names, the reveal list, the theme and whether the list is shown. */
  datatype Plan = Plan(
    spies: seq<Conn>, hints: seq<string>,
    nonSpies: seq<Conn>, subjects: seq<string>,
    names: seq<string>, fulList: seq<string>,
    theme: string, show: bool)

  /** The round's plan, read off the registry, the input and the draws. */
  function PlanOf(gs: GameState, input: GameInput, d: Draws): Plan
    requires UniqueKeys(gs.connectedPlayers)
    requires |input.spyHints| <= |gs.connectedPlayers|
  {
    Plan(Spies(gs, input, d), input.spyHints, NonSpies(gs, input, d), ShuffledSubjects(input, d),
         Names(gs.connectedPlayers), FullList(input), input.theme, input.showSubjectsToNonSpies)
  }

  /** The spies and the non-spies are two disjoint sets of connections. */
  predicate DisjointPlayers(p: Plan) {
    && NoDuplicates(p.spies)
    && NoDuplicates(p.nonSpies)
    && forall c :: c in p.spies ==> c !in p.nonSpies
  }

  /** How many frames `spies.zip(spyHints)` writes. */
  function SpyCount(p: Plan): nat {
    Min(|p.spies|, |p.hints|)
  }

  /** How many frames `(sessions - spies).zip(subjects)` writes. */
  function PairCount(p: Plan): nat {
    Min(|p.nonSpies|, |p.subjects|)
  }

  /** The frames written to the spies: spy `i` gets hint `i` and the i-th
      roster order. */
  function SpySends(p: Plan, d: Draws): (r: seq<Send>)
    ensures |r| == SpyCount(p)
  {
    var k := SpyCount(p);
    seq(k, i requires 0 <= i < k =>
      Send(p.spies[i], State(SpyState(p.hints[i], Shuffled(p.names, OrderAt(d.rosterOrders, i))))))
  }

  /** The frames written to the non-spies that `zip` pairs with a subject; the
      roster orders carry on after the spies' ones. */
  function NonSpySends(p: Plan, d: Draws): (r: seq<Send>)
    ensures |r| == PairCount(p)
  {
    var k := SpyCount(p);
    var m := PairCount(p);
    seq(m, j requires 0 <= j < m =>
      Send(p.nonSpies[j], State(NonSpyState(p.theme, p.subjects[j],
        SubjectList(p.fulList, OrderAt(d.revealOrders, j), p.subjects[j], p.show),
        Shuffled(p.names, OrderAt(d.rosterOrders, k + j))))))
  }

  /** Everything a round that gets past `subList` writes: the spies, the
      matched non-spies, then "Game Started" to the admin. */
  function RoundSends(p: Plan, d: Draws, admin: Conn): (r: seq<Send>)
    ensures |r| == SpyCount(p) + PairCount(p) + 1
    ensures r[|r| - 1] == Send(admin, Text(GameStarted))
  {
    SpySends(p, d) + NonSpySends(p, d) + [Send(admin, Text(GameStarted))]
  }

  /** The admin's start-game message: fails before anything is sent when there
      are more spy hints than sessions; otherwise the spies, then the matched
      non-spies, then the acknowledgment to the admin. */
  function StartRound(gs: GameState, admin: Conn, input: GameInput, d: Draws): (r: Result<seq<Send>, RoundError>)
    requires UniqueKeys(gs.connectedPlayers)
    ensures r.Failure? <==> |input.spyHints| > |gs.connectedPlayers|
    ensures r.Failure? ==> r.error == SubListOutOfBounds(|input.spyHints|, |gs.connectedPlayers|)
    ensures r.Success? ==> |r.value| == |input.spyHints| + Matched(gs, input, d) + 1
    ensures r.Success? ==> r.value[|r.value| - 1] == Send(admin, Text(GameStarted))
  {
    var k := |input.spyHints|;
    if k > |gs.connectedPlayers| then Failure(SubListOutOfBounds(k, |gs.connectedPlayers|))
    else Success(RoundSends(PlanOf(gs, input, d), d, admin))
  }

  /** A round that gets past `subList` writes the frames of its plan, and the
      plan's spies and non-spies are disjoint, one per hint and the rest. */
  lemma StartRoundPlan(gs: GameState, admin: Conn, input: GameInput, d: Draws)
    requires UniqueKeys(gs.connectedPlayers)
    requires |input.spyHints| <= |gs.connectedPlayers|
    ensures StartRound(gs, admin, input, d) == Success(RoundSends(PlanOf(gs, input, d), d, admin))
    ensures DisjointPlayers(PlanOf(gs, input, d))
    ensures SpyCount(PlanOf(gs, input, d)) == |input.spyHints|
    ensures PairCount(PlanOf(gs, input, d)) == Matched(gs, input, d)
  {
    var p := PlanOf(gs, input, d);
    assert forall c :: c in p.spies ==> c !in p.nonSpies;
  }

  /** What spy `i`'s frame says. */
  lemma SpySendAt(p: Plan, d: Draws, i: nat)
    requires i < SpyCount(p)
    ensures IsSpyFrame(SpySends(p, d)[i], p.spies[i], p.hints[i], p.names)
  {
  }

  /** What the j-th matched non-spy's frame says. */
  lemma NonSpySendAt(p: Plan, d: Draws, j: nat)
    requires j < PairCount(p)
    ensures IsNonSpyFrame(NonSpySends(p, d)[j], p.nonSpies[j], p.subjects[j], p.theme, p.names, p.fulList, p.show)
  {
  }

  /** Frame `i` of the round is spy frame `i`. */
  lemma RoundSendsSpyAt(p: Plan, d: Draws, admin: Conn, i: nat)
    requires i < SpyCount(p)
    ensures RoundSends(p, d, admin)[i] == SpySends(p, d)[i]
  {
    ConcatIndices(SpySends(p, d), NonSpySends(p, d), Send(admin, Text(GameStarted)));
  }

  /** Frame `SpyCount + j` of the round is non-spy frame `j`. */
  lemma RoundSendsNonSpyAt(p: Plan, d: Draws, admin: Conn, j: nat)
    requires j < PairCount(p)
    ensures RoundSends(p, d, admin)[SpyCount(p) + j] == NonSpySends(p, d)[j]
  {
    ConcatIndices(SpySends(p, d), NonSpySends(p, d), Send(admin, Text(GameStarted)));
  }

  lemma SpyFrameAt(p: Plan, d: Draws, admin: Conn, i: nat)
    requires i < SpyCount(p)
    ensures IsSpyFrame(RoundSends(p, d, admin)[i], p.spies[i], p.hints[i], p.names)
  {
    RoundSendsSpyAt(p, d, admin, i);
    SpySendAt(p, d, i);
  }

  lemma NonSpyFrameAt(p: Plan, d: Draws, admin: Conn, j: nat)
    requires j < PairCount(p)
    ensures IsNonSpyFrame(RoundSends(p, d, admin)[SpyCount(p) + j], p.nonSpies[j], p.subjects[j],
                          p.theme, p.names, p.fulList, p.show)
  {
    RoundSendsNonSpyAt(p, d, admin, j);
    NonSpySendAt(p, d, j);
  }

  /** The spy frames of a plan, read off the whole round. */
  lemma PlanSpyFrames(p: Plan, d: Draws, admin: Conn)
    ensures forall i :: 0 <= i < SpyCount(p) ==>
              IsSpyFrame(RoundSends(p, d, admin)[i], p.spies[i], p.hints[i], p.names)
  {
    forall i | 0 <= i < SpyCount(p) {
      SpyFrameAt(p, d, admin, i);
    }
  }

  /** The non-spy frames of a plan, read off the whole round. */
  lemma PlanNonSpyFrames(p: Plan, d: Draws, admin: Conn)
    ensures forall j :: 0 <= j < PairCount(p) ==>
              IsNonSpyFrame(RoundSends(p, d, admin)[SpyCount(p) + j], p.nonSpies[j], p.subjects[j],
                            p.theme, p.names, p.fulList, p.show)
  {
    forall j | 0 <= j < PairCount(p) {
      NonSpyFrameAt(p, d, admin, j);
    }
  }

  /** The PlayerState frames of a plan go, in order, to the spies and then to
      the matched non-spies, and the spy frames and only they say "spy". */
  lemma PlanPlayers(p: Plan, d: Draws, admin: Conn)
    ensures var sends := RoundSends(p, d, admin);
            var k := SpyCount(p);
            && (forall i :: 0 <= i < k ==>
                  sends[i].to == p.spies[i] && sends[i].msg.State? && sends[i].msg.state.isSpy)
            && (forall j :: 0 <= j < PairCount(p) ==>
                  sends[k + j].to == p.nonSpies[j] && sends[k + j].msg.State? && !sends[k + j].msg.state.isSpy)
  {
    PlanSpyFrames(p, d, admin);
    PlanNonSpyFrames(p, d, admin);
  }

  /** A trace whose first `k` frames go to `spies` and whose next `m` go to
      `nonSpies` has those as its first `k + m` recipients. */
  lemma RecipientsInOrder(sends: seq<Send>, spies: seq<Conn>, nonSpies: seq<Conn>, k: nat, m: nat)
    requires k <= |spies| && m <= |nonSpies| && k + m <= |sends|
    requires forall i :: 0 <= i < k ==> sends[i].to == spies[i]
    requires forall j :: 0 <= j < m ==> sends[k + j].to == nonSpies[j]
    ensures Recipients(sends[..k + m]) == spies[..k] + nonSpies[..m]
  {
    var players := Recipients(sends[..k + m]);
    forall i | 0 <= i < k ensures players[i] == spies[..k][i] {}
    forall j | 0 <= j < m ensures players[k + j] == nonSpies[..m][j] {
      assert players[k + j] == sends[k + j].to;
    }
    ConcatOfParts(players, spies[..k], nonSpies[..m]);
  }

  /** A trace whose first `k` frames are spy states for `spies` and whose next
      `m` are non-spy states for `nonSpies` writes to those, in that order. */
  lemma FramesInOrder(sends: seq<Send>, spies: seq<Conn>, nonSpies: seq<Conn>, k: nat, m: nat)
    requires k <= |spies| && m <= |nonSpies| && k + m <= |sends|
    requires forall i :: 0 <= i < k ==>
               sends[i].to == spies[i] && sends[i].msg.State? && sends[i].msg.state.isSpy
    requires forall j :: 0 <= j < m ==>
               sends[k + j].to == nonSpies[j] && sends[k + j].msg.State? && !sends[k + j].msg.state.isSpy
    ensures Recipients(sends[..k + m]) == spies[..k] + nonSpies[..m]
    ensures forall i :: 0 <= i < k + m ==> sends[i].msg.State? && (sends[i].msg.state.isSpy <==> i < k)
  {
    RecipientsInOrder(sends, spies, nonSpies, k, m);
    forall i | k <= i < k + m ensures sends[i].msg.State? && !sends[i].msg.state.isSpy {
      var j := i - k;
      assert sends[k + j].msg.State? && !sends[k + j].msg.state.isSpy;
    }
  }

  /** The PlayerState frames' recipients, in order: the spies, then the
      matched non-spies; exactly the spies' frames say "spy". */
  lemma PlanRecipientList(p: Plan, d: Draws, admin: Conn)
    ensures var sends := RoundSends(p, d, admin);
            && Recipients(sends[..SpyCount(p) + PairCount(p)]) == p.spies[..SpyCount(p)] + p.nonSpies[..PairCount(p)]
            && forall i :: 0 <= i < SpyCount(p) + PairCount(p) ==>
                 sends[i].msg.State? && (sends[i].msg.state.isSpy <==> i < SpyCount(p))
  {
    PlanPlayers(p, d, admin);
    FramesInOrder(RoundSends(p, d, admin), p.spies, p.nonSpies, SpyCount(p), PairCount(p));
  }

  /** Disjoint, duplicate-free players give duplicate-free recipients. */
  lemma PlanRecipientsDistinct(p: Plan)
    requires DisjointPlayers(p)
    ensures NoDuplicates(p.spies[..SpyCount(p)] + p.nonSpies[..PairCount(p)])
  {
    var k := SpyCount(p);
    var m := PairCount(p);
    NoDuplicatesPrefix(p.spies, k);
    NoDuplicatesPrefix(p.nonSpies, m);
    forall x | x in p.spies[..k] ensures x !in p.nonSpies[..m] {
      assert x in p.spies;
    }
    NoDuplicatesConcat(p.spies[..k], p.nonSpies[..m]);
  }

  lemma SpyPayloadAt(gs: GameState, admin: Conn, input: GameInput, d: Draws, i: nat)
    requires UniqueKeys(gs.connectedPlayers)
    requires i < |input.spyHints| <= |gs.connectedPlayers|
    ensures StartRound(gs, admin, input, d).Success?
    ensures IsSpyFrame(StartRound(gs, admin, input, d).value[i], Spies(gs, input, d)[i],
                       input.spyHints[i], Names(gs.connectedPlayers))
  {
    StartRoundPlan(gs, admin, input, d);
    SpyFrameAt(PlanOf(gs, input, d), d, admin, i);
  }

  lemma NonSpyPayloadAt(gs: GameState, admin: Conn, input: GameInput, d: Draws, j: nat)
    requires UniqueKeys(gs.connectedPlayers)
    requires |input.spyHints| <= |gs.connectedPlayers|
    requires j < Matched(gs, input, d)
    ensures StartRound(gs, admin, input, d).Success?
    ensures IsNonSpyFrame(StartRound(gs, admin, input, d).value[|input.spyHints| + j],
                          NonSpies(gs, input, d)[j], ShuffledSubjects(input, d)[j], input.theme,
                          Names(gs.connectedPlayers), FullList(input), input.showSubjectsToNonSpies)
  {
    StartRoundPlan(gs, admin, input, d);
    NonSpyFrameAt(PlanOf(gs, input, d), d, admin, j);
  }

  /** Spy `i` is the i-th session of the drawn order; it is told it is a spy,
      gets hint `i`, no theme, no subject and no subject list, and a
      reordering of the whole roster. */
  lemma SpyPayloads(gs: GameState, admin: Conn, input: GameInput, d: Draws)
    requires UniqueKeys(gs.connectedPlayers)
    requires |input.spyHints| <= |gs.connectedPlayers|
    ensures StartRound(gs, admin, input, d).Success?
    ensures forall i :: 0 <= i < |input.spyHints| ==>
              IsSpyFrame(StartRound(gs, admin, input, d).value[i], Spies(gs, input, d)[i],
                         input.spyHints[i], Names(gs.connectedPlayers))
  {
    forall i | 0 <= i < |input.spyHints| {
      SpyPayloadAt(gs, admin, input, d, i);
    }
  }

  /** The j-th matched non-spy gets the j-th shuffled subject, the theme, no
      hint, a reordering of the whole roster, and, when the list is shown, the
      reveal list less one copy of its raw subject. */
  lemma NonSpyPayloads(gs: GameState, admin: Conn, input: GameInput, d: Draws)
    requires UniqueKeys(gs.connectedPlayers)
    requires |input.spyHints| <= |gs.connectedPlayers|
    ensures StartRound(gs, admin, input, d).Success?
    ensures forall j :: 0 <= j < Matched(gs, input, d) ==>
              IsNonSpyFrame(StartRound(gs, admin, input, d).value[|input.spyHints| + j],
                            NonSpies(gs, input, d)[j], ShuffledSubjects(input, d)[j], input.theme,
                            Names(gs.connectedPlayers), FullList(input), input.showSubjectsToNonSpies)
  {
    forall j | 0 <= j < Matched(gs, input, d) {
      NonSpyPayloadAt(gs, admin, input, d, j);
    }
  }

  /** Every session hears from the round at most once; exactly the spies and
      the first `Matched` non-spies do; the first `|spyHints|` of them are told
      they are spies and the rest are told they are not. */
  lemma RoundRecipients(gs: GameState, admin: Conn, input: GameInput, d: Draws)
    requires UniqueKeys(gs.connectedPlayers)
    requires |input.spyHints| <= |gs.connectedPlayers|
    ensures StartRound(gs, admin, input, d).Success?
    ensures var sends := StartRound(gs, admin, input, d).value;
            var k := |input.spyHints|;
            var m := Matched(gs, input, d);
            var players := Recipients(sends[..k + m]);
            && NoDuplicates(players)
            && (forall c :: c in players <==> c in Spies(gs, input, d) || c in NonSpies(gs, input, d)[..m])
            && (forall c :: c in players ==> c in Keys(gs.connectedPlayers))
            && (forall i :: 0 <= i < k + m ==> sends[i].msg.State? && (sends[i].msg.state.isSpy <==> i < k))
  {
    var p := PlanOf(gs, input, d);
    StartRoundPlan(gs, admin, input, d);
    PlanRecipientList(p, d, admin);
    PlanRecipientsDistinct(p);
    assert p.spies[..|input.spyHints|] == Spies(gs, input, d);
  }

  /** With at least as many subjects as non-spies, every session hears from the
      round exactly once: the first `|spyHints|` frames say "spy" and the rest
      of the PlayerState frames do not. */
  lemma AllSessionsServed(gs: GameState, admin: Conn, input: GameInput, d: Draws)
    requires UniqueKeys(gs.connectedPlayers)
    requires |input.spyHints| <= |gs.connectedPlayers|
    requires |gs.connectedPlayers| - |input.spyHints| <= |input.subjects|
    ensures StartRound(gs, admin, input, d).Success?
    ensures |StartRound(gs, admin, input, d).value| == |gs.connectedPlayers| + 1
    ensures var sends := StartRound(gs, admin, input, d).value;
            var players := Recipients(sends[..|gs.connectedPlayers|]);
            && NoDuplicates(players)
            && (forall c :: c in players <==> c in Keys(gs.connectedPlayers))
            && (forall i :: 0 <= i < |players| ==>
                  sends[i].msg.State? && (sends[i].msg.state.isSpy <==> i < |input.spyHints|))
  {
    var nonSpies := NonSpies(gs, input, d);
    RoundRecipients(gs, admin, input, d);
    assert nonSpies[..Matched(gs, input, d)] == nonSpies;
  }

  /** `zip` pairs subjects with the non-spies in registry order, so when the
      subjects run short it is the latest-registered non-spies that get none:
      every non-spy frame goes to a session registered before every unmatched
      non-spy. */
  lemma LatestNonSpiesUnmatched(gs: GameState, admin: Conn, input: GameInput, d: Draws)
    requires UniqueKeys(gs.connectedPlayers)
    requires |input.spyHints| <= |gs.connectedPlayers|
    ensures StartRound(gs, admin, input, d).Success?
    ensures var sends := StartRound(gs, admin, input, d).value;
            var k := |input.spyHints|;
            var nonSpies := NonSpies(gs, input, d);
            var keys := Keys(gs.connectedPlayers);
            forall j, l :: 0 <= j < Matched(gs, input, d) <= l < |nonSpies| ==>
              sends[k + j].to == nonSpies[j] && FirstIndex(keys, nonSpies[j]) < FirstIndex(keys, nonSpies[l])
  {
    forall j | 0 <= j < Matched(gs, input, d) {
      NonSpyPayloadAt(gs, admin, input, d, j);
    }
  }

  /** A non-spy past the `Matched` cut, and every connection that is not a
      session, hears nothing from the round except the admin's acknowledgment. */
  lemma UnmatchedGetNothing(gs: GameState, admin: Conn, input: GameInput, d: Draws, c: Conn)
    requires UniqueKeys(gs.connectedPlayers)
    requires |input.spyHints| <= |gs.connectedPlayers|
    requires c in NonSpies(gs, input, d)[Matched(gs, input, d)..] || c !in Keys(gs.connectedPlayers)
    ensures StartRound(gs, admin, input, d).Success?
    ensures var sends := StartRound(gs, admin, input, d).value;
            forall i :: 0 <= i < |sends| && sends[i].to == c ==> sends[i] == Send(admin, Text(GameStarted))
  {
    var sends := StartRound(gs, admin, input, d).value;
    var k := |input.spyHints|;
    var m := Matched(gs, input, d);
    var nonSpies := NonSpies(gs, input, d);
    RoundRecipients(gs, admin, input, d);
    var players := Recipients(sends[..k + m]);
    if c in nonSpies[m..] {
      NoDuplicatesPrefix(nonSpies, m);
      assert c !in Spies(gs, input, d);
    }
    assert c !in players;
    OnlyLastTo(sends, c);
  }

  /** A connection none of whose frames come before the last gets at most the last. */
  lemma OnlyLastTo(sends: seq<Send>, c: Conn)
    requires |sends| > 0 && c !in Recipients(sends[..|sends| - 1])
    ensures forall i :: 0 <= i < |sends| && sends[i].to == c ==> sends[i] == sends[|sends| - 1]
  {
    var players := Recipients(sends[..|sends| - 1]);
    forall i | 0 <= i < |sends| - 1 ensures sends[i].to != c {
      assert players[i] == sends[i].to;
    }
  }

  /** The subject a frame tells its recipient, or "" for a frame that is not a `PlayerState`. */
  function SubjectOf(s: Send): string {
    if s.msg.State? then s.msg.state.subject else ""
  }

  /** The subjects of the `m` frames that follow the first `k`. */
  function SubjectsFrom(sends: seq<Send>, k: nat, m: nat): (r: seq<string>)
    requires k + m <= |sends|
    ensures |r| == m
  {
    seq(m, j requires 0 <= j < m => SubjectOf(sends[k + j]))
  }

  /** Frames that each carry their subject list `subjects` in order. */
  lemma SubjectsFromFrames(sends: seq<Send>, k: nat, m: nat, subjects: seq<string>)
    requires k + m <= |sends| && m <= |subjects|
    requires forall j :: 0 <= j < m ==> sends[k + j].msg.State? && sends[k + j].msg.state.subject == subjects[j]
    ensures SubjectsFrom(sends, k, m) == subjects[..m]
  {
    var given := SubjectsFrom(sends, k, m);
    forall j | 0 <= j < m ensures given[j] == subjects[..m][j] {
      assert given[j] == SubjectOf(sends[k + j]);
    }
  }

  /** The subjects handed out, in send order, are the first `Matched` of the
      shuffled subjects. */
  lemma GivenSubjects(gs: GameState, admin: Conn, input: GameInput, d: Draws)
    requires UniqueKeys(gs.connectedPlayers)
    requires |input.spyHints| <= |gs.connectedPlayers|
    ensures StartRound(gs, admin, input, d).Success?
    ensures var sends := StartRound(gs, admin, input, d).value;
            var k := |input.spyHints|;
            var m := Matched(gs, input, d);
            SubjectsFrom(sends, k, m) == ShuffledSubjects(input, d)[..m]
  {
    StartRoundPlan(gs, admin, input, d);
    PlanSubjects(PlanOf(gs, input, d), d, admin);
  }

  /** The subjects a plan hands out, in send order. */
  lemma PlanSubjects(p: Plan, d: Draws, admin: Conn)
    ensures var sends := RoundSends(p, d, admin);
            var k := SpyCount(p);
            var m := PairCount(p);
            SubjectsFrom(sends, k, m) == p.subjects[..m]
  {
    PlanNonSpyFrames(p, d, admin);
    SubjectsFromFrames(RoundSends(p, d, admin), SpyCount(p), PairCount(p), p.subjects);
  }

  /** The subjects handed out are taken from the subject list without reuse,
      and all of it is handed out when there are enough non-spies. */
  lemma SubjectsHandedOut(gs: GameState, admin: Conn, input: GameInput, d: Draws)
    requires UniqueKeys(gs.connectedPlayers)
    requires |input.spyHints| <= |gs.connectedPlayers|
    ensures StartRound(gs, admin, input, d).Success?
    ensures var sends := StartRound(gs, admin, input, d).value;
            var k := |input.spyHints|;
            var m := Matched(gs, input, d);
            var given := SubjectsFrom(sends, k, m);
            && multiset(given) <= multiset(input.subjects)
            && (|input.subjects| <= |NonSpies(gs, input, d)| ==> multiset(given) == multiset(input.subjects))
  {
    GivenSubjects(gs, admin, input, d);
    PrefixOfReordering(ShuffledSubjects(input, d), input.subjects, Matched(gs, input, d));
  }

  /** The raw subject is looked up in the title-cased reveal list, so a subject
      that starts with a lower-case letter is never found: the non-spy sees
      every entry of the reveal list, its own subject's title-cased form included. */
  lemma LowercaseSubjectNotRemoved(input: GameInput, order: seq<nat>, subject: string)
    requires |subject| > 0 && IsLowerAscii(subject[0])
    ensures subject !in FullList(input)
    ensures multiset(SubjectList(FullList(input), order, subject, true)) == multiset(FullList(input))
  {
    FullListTitleCased(input);
    var full := FullList(input);
    assert subject !in full by {
      forall i | 0 <= i < |full| ensures full[i] != subject {
        if |full[i]| > 0 {
          assert !IsLowerAscii(full[i][0]);
        }
      }
    }
    assert multiset(full)[subject] == 0;
  }

  /** `numSpies` plays no part: the number of spies is the number of hints. */
  lemma NumSpiesIgnored(gs: GameState, admin: Conn, input: GameInput, d: Draws, n: int)
    requires UniqueKeys(gs.connectedPlayers)
    ensures StartRound(gs, admin, input.(numSpies := n), d) == StartRound(gs, admin, input, d)
  {
    var input' := input.(numSpies := n);
    if |input.spyHints| <= |gs.connectedPlayers| {
      assert Spies(gs, input', d) == Spies(gs, input, d);
      assert NonSpies(gs, input', d) == NonSpies(gs, input, d);
      assert FullList(input') == FullList(input);
      assert ShuffledSubjects(input', d) == ShuffledSubjects(input, d);
      assert PlanOf(gs, input', d) == PlanOf(gs, input, d);
    }
  }
}
