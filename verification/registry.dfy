/** The connection registry (`GameState` in the server): the connected players
    as an insertion-ordered map from connection to display name, and the admin
    connections as an insertion-ordered set. Every mutation that touches the
    players is followed by a roster broadcast, returned here as a trace of sends. */
module Registry {
  import opened Seqs
  import opened Messages
  import opened Wrappers

  /** The players as (connection, name) entries in the map's iteration order,
      and the admins in the set's iteration order. */
  datatype GameState = GameState(connectedPlayers: seq<(Conn, string)>, admins: seq<Conn>)

  /** The state after an operation, and what the operation wrote. */
  datatype Step = Step(state: GameState, sends: seq<Send>)

  /** The empty registry the server starts with. */
  const Empty: GameState := GameState([], [])

  /** The map's `keys`, in iteration order. */
  function Keys(ps: seq<(Conn, string)>): (r: seq<Conn>)
    ensures |r| == |ps|
    ensures forall i :: 0 <= i < |ps| ==> r[i] == ps[i].0
  {
    seq(|ps|, i requires 0 <= i < |ps| => ps[i].0)
  }

  /** The map's `values`, in iteration order. */
  function Names(ps: seq<(Conn, string)>): (r: seq<string>)
    ensures |r| == |ps|
    ensures forall i :: 0 <= i < |ps| ==> r[i] == ps[i].1
  {
    seq(|ps|, i requires 0 <= i < |ps| => ps[i].1)
  }

  /** No connection has two entries. */
  predicate UniqueKeys(ps: seq<(Conn, string)>) {
    forall a, b :: 0 <= a < b < |ps| ==> ps[a].0 != ps[b].0
  }

  lemma UniqueKeysNoDuplicates(ps: seq<(Conn, string)>)
    requires UniqueKeys(ps)
    ensures NoDuplicates(Keys(ps))
  {
  }

  /** A map holds each key once and a set each element once. */
  predicate Valid(gs: GameState) {
    UniqueKeys(gs.connectedPlayers) && NoDuplicates(gs.admins)
  }

  /** Position of the entry for `c`, or `|ps|` when there is none. */
  function KeyIndex(ps: seq<(Conn, string)>, c: Conn): (i: nat)
    ensures i <= |ps|
    ensures i < |ps| ==> ps[i].0 == c
    ensures forall k :: 0 <= k < i ==> ps[k].0 != c
  {
    if |ps| == 0 then 0
    else if ps[0].0 == c then 0
    else 1 + KeyIndex(ps[1..], c)
  }

  /** `connectedPlayers[c]`: the name registered for `c`, if any. */
  function Lookup(ps: seq<(Conn, string)>, c: Conn): (r: Option<string>)
    ensures r.Some? <==> c in Keys(ps)
  {
    var i := KeyIndex(ps, c);
    if i < |ps| then Some(ps[i].1)
    else
      assert c !in Keys(ps) by {
        forall k | 0 <= k < |ps| ensures Keys(ps)[k] != c {}
      }
      None
  }

  /** The entry for `c` is at the only position where `c` occurs. */
  lemma KeyIndexOfUnique(ps: seq<(Conn, string)>, j: nat)
    requires UniqueKeys(ps) && j < |ps|
    ensures KeyIndex(ps, ps[j].0) == j
  {

  }

  /** Cutting an entry out keeps the keys unique. */
  lemma SpliceUniqueKeys(ps: seq<(Conn, string)>, i: nat)
    requires UniqueKeys(ps) && i < |ps|
    ensures UniqueKeys(ps[..i] + ps[i + 1..])
  {
    var r := ps[..i] + ps[i + 1..];
    forall a, b | 0 <= a < b < |r| ensures r[a].0 != r[b].0 {
      var a' := if a < i then a else a + 1;
      var b' := if b < i then b else b + 1;
      assert r[a] == ps[a'] && r[b] == ps[b'];
    }
  }

  /** The first entry whose key is `d` is found where it stands. */
  lemma KeyIndexAt(ps: seq<(Conn, string)>, j: nat, d: Conn)
    requires j < |ps| && ps[j].0 == d
    requires forall k :: 0 <= k < j ==> ps[k].0 != d
    ensures KeyIndex(ps, d) == j
  {
  }

  /** Two registries that agree on the keys up to the length of the first, on
      the names stored under `d`, and where the second adds no `d`, give the
      same answer for `d`. */
  lemma LookupSameKeys(ps: seq<(Conn, string)>, qs: seq<(Conn, string)>, d: Conn)
    requires |ps| <= |qs|
    requires forall k :: 0 <= k < |ps| ==> qs[k].0 == ps[k].0
    requires forall k :: 0 <= k < |ps| && ps[k].0 == d ==> qs[k].1 == ps[k].1
    requires forall k :: |ps| <= k < |qs| ==> qs[k].0 != d
    ensures Lookup(qs, d) == Lookup(ps, d)
  {
    var i := KeyIndex(ps, d);
    var j := KeyIndex(qs, d);
    if i < |ps| {
      assert qs[i].0 == d;
      assert j <= i;
      assert qs[j].0 == ps[j].0;
    } else {
      assert forall k :: 0 <= k < |qs| ==> qs[k].0 != d;
    }
  }

  /** `connectedPlayers[session] = name` on a LinkedHashMap: a known key keeps
      its position and gets the new name; an unknown key is appended. */
  function Put(ps: seq<(Conn, string)>, c: Conn, name: string): (r: seq<(Conn, string)>)
    ensures Lookup(r, c) == Some(name)
    ensures forall d :: d != c ==> Lookup(r, d) == Lookup(ps, d)
    ensures Keys(r) == if c in Keys(ps) then Keys(ps) else Keys(ps) + [c]
    ensures UniqueKeys(ps) ==> UniqueKeys(r)
  {
    var i := KeyIndex(ps, c);
    var r := if i < |ps| then ps[i := (c, name)] else ps + [(c, name)];
    KeyIndexAt(r, i, c);
    forall d | d != c
      ensures Lookup(r, d) == Lookup(ps, d)
    {
      LookupSameKeys(ps, r, d);
    }
    assert Keys(r) == if c in Keys(ps) then Keys(ps) else Keys(ps) + [c] by {
      if c in Keys(ps) {
        var k :| 0 <= k < |ps| && Keys(ps)[k] == c;
        assert i <= k;
      } else {
        assert i == |ps|;
      }
    }
    r
  }

  /** `connectedPlayers.remove(session)`: the entry for `c` goes and the others
      keep their relative order; an unknown key changes nothing. */
  function Remove(ps: seq<(Conn, string)>, c: Conn): (r: seq<(Conn, string)>)
    requires UniqueKeys(ps)
    ensures Lookup(r, c) == None
    ensures forall d :: d != c ==> Lookup(r, d) == Lookup(ps, d)
    ensures Keys(r) == Minus(Keys(ps), [c])
    ensures c !in Keys(ps) ==> r == ps
    ensures UniqueKeys(r)
  {
    var i := KeyIndex(ps, c);
    if i < |ps| then
      var r := ps[..i] + ps[i + 1..];
      RemoveAt(ps, i);
      SpliceUniqueKeys(ps, i);
      r
    else
      assert c !in Keys(ps) by {
        forall k | 0 <= k < |ps| ensures Keys(ps)[k] != c {}
      }
      MinusAbsent(Keys(ps), [c]);
      ps
  }

  /** Cutting entry `i` out of a registry with unique keys. */
  lemma RemoveAt(ps: seq<(Conn, string)>, i: nat)
    requires UniqueKeys(ps) && i < |ps|
    ensures var r := ps[..i] + ps[i + 1..];
            && Keys(r) == Minus(Keys(ps), [ps[i].0])
            && Lookup(r, ps[i].0) == None
            && forall d :: d != ps[i].0 ==> Lookup(r, d) == Lookup(ps, d)
  {
    var c := ps[i].0;
    var r := ps[..i] + ps[i + 1..];
    var ks := Keys(ps);
    assert Keys(r) == ks[..i] + ks[i + 1..];
    UniqueKeysNoDuplicates(ps);
    SpliceIsMinus(ks, i);
    SpliceUniqueKeys(ps, i);
    assert c !in Keys(r);
    forall d | d != c
      ensures Lookup(r, d) == Lookup(ps, d)
    {
      RemoveAtOther(ps, i, d);
    }
  }

  /** Cutting entry `i` out leaves the lookup of every other key as it was. */
  lemma RemoveAtOther(ps: seq<(Conn, string)>, i: nat, d: Conn)
    requires UniqueKeys(ps) && i < |ps| && d != ps[i].0
    ensures Lookup(ps[..i] + ps[i + 1..], d) == Lookup(ps, d)
  {
    var r := ps[..i] + ps[i + 1..];
    SpliceUniqueKeys(ps, i);
    var j := KeyIndex(ps, d);
    if j < |ps| {
      KeyIndexOfUnique(ps, j);
      if j < i {
        assert r[j] == ps[j];
        KeyIndexAt(r, j, d);
      } else {
        assert r[j - 1] == ps[j];
        KeyIndexOfUnique(r, j - 1);
      }
    } else {
      assert d !in Keys(ps) by {
        forall k | 0 <= k < |ps| ensures Keys(ps)[k] != d {}
      }
      assert d !in Keys(r) by {
        forall k | 0 <= k < |r| ensures Keys(r)[k] != d {
          if k < i { assert r[k] == ps[k]; } else { assert r[k] == ps[k + 1]; }
        }
      }
    }
  }

  /** The lookup view of the registry agrees with the map it stands for. */
  function ToMap(ps: seq<(Conn, string)>): (m: map<Conn, string>)
    ensures forall c :: c in m <==> Lookup(ps, c).Some?
    ensures forall c :: c in m ==> Lookup(ps, c) == Some(m[c])
  {
    map c | c in Keys(ps) :: Lookup(ps, c).value
  }

  /** Registering maps the connection to the name and leaves every other entry
      as it was. */
  lemma PutUpdatesMap(ps: seq<(Conn, string)>, c: Conn, name: string)
    ensures ToMap(Put(ps, c, name)) == ToMap(ps)[c := name]
  {
  }

  /** Removing a connection deletes its entry only. */
  lemma RemoveUpdatesMap(ps: seq<(Conn, string)>, c: Conn)
    requires UniqueKeys(ps)
    ensures ToMap(Remove(ps, c)) == ToMap(ps) - {c}
  {
  }

  /** The roster frame: the players' display names in registry order. */
  function RosterOf(gs: GameState): Message {
    Roster(ConnectedPlayers(connectedPlayers := Names(gs.connectedPlayers)))
  }

  /** `connectedPlayers.keys + admins`: the player connections, then the admins
      that are not also players. */
  function RosterRecipients(gs: GameState): (r: seq<Conn>)
    ensures |r| >= |gs.connectedPlayers|
    ensures forall c :: c in r <==> c in Keys(gs.connectedPlayers) || c in gs.admins
    ensures r[..|gs.connectedPlayers|] == Keys(gs.connectedPlayers)
    ensures Valid(gs) ==> NoDuplicates(r)
  {
    var keys := Keys(gs.connectedPlayers);
    AppendMissingNoDuplicates(keys, gs.admins);
    keys + Minus(gs.admins, keys)
  }

  /** `updatePlayers()`: the current roster, written once to every player and
      every admin. */
  function UpdatePlayers(gs: GameState): (r: seq<Send>)
    ensures |r| >= |gs.connectedPlayers|
    ensures forall i :: 0 <= i < |r| ==> r[i].msg == Roster(ConnectedPlayers(connectedPlayers := Names(gs.connectedPlayers)))
    ensures forall c :: c in Recipients(r) <==> c in Keys(gs.connectedPlayers) || c in gs.admins
    ensures Recipients(r)[..|gs.connectedPlayers|] == Keys(gs.connectedPlayers)
    ensures Valid(gs) ==> NoDuplicates(Recipients(r))
  {
    var to := RosterRecipients(gs);
    var msg := RosterOf(gs);
    var r := seq(|to|, i requires 0 <= i < |to| => Send(to[i], msg));
    assert forall i :: 0 <= i < |r| ==> r[i] == Send(to[i], msg);
    assert Recipients(r) == to;
    r
  }

  /** `newPlayer(name, session)`: register the player, then broadcast. */
  function NewPlayer(gs: GameState, name: string, c: Conn): (r: Step)
    requires Valid(gs)
    ensures Valid(r.state)
    ensures ToMap(r.state.connectedPlayers) == ToMap(gs.connectedPlayers)[c := name]
    ensures Keys(r.state.connectedPlayers) == if c in Keys(gs.connectedPlayers) then Keys(gs.connectedPlayers) else Keys(gs.connectedPlayers) + [c]
    ensures r.state.admins == gs.admins
    ensures r.sends == UpdatePlayers(r.state)
  {
    PutUpdatesMap(gs.connectedPlayers, c, name);
    var s := gs.(connectedPlayers := Put(gs.connectedPlayers, c, name));
    Step(s, UpdatePlayers(s))
  }

  /** `removePlayer(session)`: drop the player, then broadcast, even when the
      connection was not registered. */
  function RemovePlayer(gs: GameState, c: Conn): (r: Step)
    requires Valid(gs)
    ensures Valid(r.state)
    ensures ToMap(r.state.connectedPlayers) == ToMap(gs.connectedPlayers) - {c}
    ensures Keys(r.state.connectedPlayers) == Minus(Keys(gs.connectedPlayers), [c])
    ensures c !in Keys(gs.connectedPlayers) ==> r.state == gs
    ensures r.state.admins == gs.admins
    ensures r.sends == UpdatePlayers(r.state)
  {
    RemoveUpdatesMap(gs.connectedPlayers, c);
    var s := gs.(connectedPlayers := Remove(gs.connectedPlayers, c));
    Step(s, UpdatePlayers(s))
  }

  /** An admin connecting: `admins.add(this)` then `updatePlayers()`. */
  function AdminJoin(gs: GameState, c: Conn): (r: Step)
    requires Valid(gs)
    ensures Valid(r.state)
    ensures forall a :: a in r.state.admins <==> a in gs.admins || a == c
    ensures |r.state.admins| >= |gs.admins| && r.state.admins[..|gs.admins|] == gs.admins
    ensures r.state.connectedPlayers == gs.connectedPlayers
    ensures r.sends == UpdatePlayers(r.state)
  {
    if c in gs.admins then Step(gs, UpdatePlayers(gs))
    else
      NoDuplicatesConcat(gs.admins, [c]);
      var s := gs.(admins := gs.admins + [c]);
      Step(s, UpdatePlayers(s))
  }

  /** An admin disconnecting: `admins.remove(this)`, with no broadcast. */
  function AdminLeave(gs: GameState, c: Conn): (r: Step)
    requires Valid(gs)
    ensures Valid(r.state)
    ensures forall a :: a in r.state.admins <==> a in gs.admins && a != c
    ensures r.state.admins == Minus(gs.admins, [c])
    ensures r.state.connectedPlayers == gs.connectedPlayers
    ensures r.sends == []
  {
    var admins := RemoveFirst(gs.admins, c);
    RemoveFirstIsMinus(gs.admins, c);
    MinusNoDuplicates(gs.admins, [c]);
    Step(gs.(admins := admins), [])
  }
}
