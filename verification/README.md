# Spy game server — a Dafny model

This project models the game server of the spy party game: the registry of
connected players and admins, the roster broadcast, and the round an admin
starts. At the start of a round, spies are drawn from the connected sessions,
each spy gets a hint, each non-spy gets a subject, and every recipient is sent
its own `PlayerState`.

The server is a state machine over `GameState` (module `Server`). Each
suspension point of the two WebSocket handlers is an `Event`: a player's first
frame, later frames and disconnect, and an admin's connect, frames and
disconnect. Each event yields a `Step`, which is the new state plus the frames
written, in order, as `Send(to, message)` records.

Randomness is an input. Every `shuffled()` call the round makes is an explicit
index order in `Draws`, so a round is a total, deterministic function of its
inputs. An order that is not a permutation of the indices is read as the
identity.

Modules:

- `Wrappers`: `Option` and `Result`.
- `Messages`:
  - the connection identity `Conn`;
  - the three data classes `GameInput`, `ConnectedPlayers` and `PlayerState`, each with its fixed `messageType` default (which the roster frames leave out on the wire; see "Left out");
  - the frames the server writes.
- `Seqs`: the Kotlin collection operations the server relies on:
  - `shuffled()` by an explicit order;
  - `List - element`, which removes the first occurrence;
  - `Set - Iterable`, which filters and keeps order.
- `Registry`: `GameState` as insertion-ordered sequences.
  - `connectedPlayers` is a LinkedHashMap: `Put` overwrites a known key in place and appends a new key.
  - `admins` is a LinkedHashSet.
  - The module also holds `newPlayer`, `removePlayer`, `updatePlayers` and an admin joining and leaving.
- `Round`: the admin's start-game handler, as `StartRound`.
  - It fails with `SubListOutOfBounds` exactly when there are more spy hints than sessions.
  - Otherwise it returns the spy frames, then the matched non-spy frames, then `"Game Started"` to the admin.
- `Server`: the event dispatcher `Apply` and the run of a whole event sequence.

Behaviour of the program worth knowing, each stated by a lemma:

- The number of spies is `|spyHints|`. `numSpies` is decoded but never read (`Round.NumSpiesIgnored`).
- A non-spy's reveal list is `fulList.shuffled() - subject`. This removes the first occurrence of the raw subject from the title-cased list.
  - A subject that starts with a lower-case letter is therefore never removed.
  - A non-spy whose subject starts with a lower-case letter sees its own subject, title-cased, in its list (`Round.LowercaseSubjectNotRemoved`).
- The non-spies are paired with subjects in registration order. When the subjects run short, the latest-registered non-spies get no frame at all (`Round.LatestNonSpiesUnmatched`, `Round.UnmatchedGetNothing`).
- Some admin frames throw inside the frame loop:
  - a text frame that does not decode as a `GameInput`;
  - a `GameInput` with more hints than sessions.

  In both cases the `finally` block removes the admin, nothing is sent, and the admin's connection ends (`Server.BadInputDropsAdmin`).

## Model

| member | source | states |
|---|---|---|
| Registry.Put | src/main/kotlin/Server.kt:134 | The key maps to the new name and every other key's lookup is unchanged. A known key keeps its position; an unknown key is appended. Unique keys stay unique. |
| Registry.PutUpdatesMap | src/main/kotlin/Server.kt:134 | Seen as a map, registering is `m[c := name]`. |
| Registry.Remove | src/main/kotlin/Server.kt:151 | The key is gone and other lookups are unchanged. The keys are the old keys filtered, order kept. Removing an unknown key changes nothing. |
| Registry.RemoveUpdatesMap | src/main/kotlin/Server.kt:151 | Seen as a map, removal is `m - {c}`. |
| Registry.RosterRecipients | src/main/kotlin/Server.kt:145 | `keys + admins`: the player keys first, in order. Membership is exactly keys ∪ admins, with no duplicates in a valid state. |
| Registry.UpdatePlayers | src/main/kotlin/Server.kt:141-148 | Every frame carries the current names in registry order. The recipients are exactly keys ∪ admins, each once, players first. |
| Registry.NewPlayer | src/main/kotlin/Server.kt:132-139 | The registry map gains `c := name`; the key order is kept, or `c` is appended if new. Admins are unchanged. The frames sent are the roster of the new state. |
| Registry.RemovePlayer | src/main/kotlin/Server.kt:150-153 | The registry map loses `c`; the key order is filtered. An unknown connection leaves the state as it is but the roster is still sent. |
| Registry.AdminJoin | src/main/kotlin/Server.kt:61-62 | Admins become old ∪ {c}, with old admins keeping their order. Players are unchanged. The roster is sent, including to the new admin. |
| Registry.AdminLeave | src/main/kotlin/Server.kt:116-119 | Admins become old minus `c`, the others keeping their order. Players are unchanged and nothing is sent. |
| Seqs.Shuffled | src/main/kotlin/Server.kt:81 | A shuffle is a reordering: the multiset is kept, and a valid order permutes exactly as given. |
| Seqs.PermuteKeepsMultiset | src/main/kotlin/Server.kt:91 | Permuting by an index permutation keeps the multiset (induction on length). |
| Seqs.RemoveFirst | src/main/kotlin/Server.kt:99 | `List - element`: no change when absent; otherwise the first occurrence is cut and the rest is kept in order. |
| Seqs.RemoveFirstMultiset | src/main/kotlin/Server.kt:99 | Removing the first occurrence takes exactly one copy off the multiset. |
| Seqs.Minus | src/main/kotlin/Server.kt:97 | `Set - Iterable`: an element is kept exactly when it is in the left operand and not the right. |
| Seqs.MinusKeepsOrder | src/main/kotlin/Server.kt:97 | On a duplicate-free left operand, the kept elements stay in their original order. |
| Seqs.RemoveFirstIsMinus | src/main/kotlin/Server.kt:118 | On a duplicate-free sequence, removing the first occurrence equals filtering the element out. |
| Round.TitleCase | src/main/kotlin/Server.kt:69-73 | The length and the tail are kept. The result never starts with a lower-case letter. A leading lower-case letter maps to its upper-case partner; anything else is unchanged. |
| Round.TitleCaseIdempotent | src/main/kotlin/Server.kt:68-74 | Title-casing twice is title-casing once. |
| Round.FullList | src/main/kotlin/Server.kt:68-74 | The reveal list has the subjects then the spy subjects, each title-cased, with length |subjects| + |spySubjects|. |
| Round.FullListTitleCased | src/main/kotlin/Server.kt:68-74 | No entry of the reveal list starts with a lower-case letter. |
| Round.Spies | src/main/kotlin/Server.kt:78-81 | There are exactly |spyHints| spies, all distinct and all connected sessions. |
| Round.NonSpies | src/main/kotlin/Server.kt:97 | A session is a non-spy exactly when it is connected and not a spy. There are no duplicates, the count is |sessions| - |spyHints|, and they stay in registration order. |
| Round.ShuffledSubjects | src/main/kotlin/Server.kt:97 | The shuffled subjects are a permutation of the subjects. |
| Round.SubjectList | src/main/kotlin/Server.kt:98-99 | Empty when not shown. Otherwise a reordering of the reveal list less one copy of the subject. |
| Round.StartRound | src/main/kotlin/Server.kt:66-113 | Fails exactly when |spyHints| > |sessions|, with that error. Otherwise it writes |spyHints| + min(non-spies, subjects) + 1 frames, the last being "Game Started" to the admin. |
| Round.StartRoundPlan | src/main/kotlin/Server.kt:77-113 | A successful round writes its plan's frames. The plan's spies and non-spies are disjoint and duplicate-free. The zips pair |spyHints| spies and `Matched` non-spies. |
| Round.SpyPayloads | src/main/kotlin/Server.kt:82-95 | Frame i goes to spy i, with isSpy, hint i, empty theme, subject and list, and a permutation of the names. |
| Round.NonSpyPayloads | src/main/kotlin/Server.kt:97-112 | Frame |spyHints|+j goes to non-spy j, with subject j of the shuffled subjects, the theme, no hint and a permutation of the names. Its list is empty when not shown; otherwise it is the reveal list less one copy of the subject. |
| Round.RoundRecipients | src/main/kotlin/Server.kt:81-112 | Each PlayerState goes to a distinct session. The recipients are exactly the spies plus the matched non-spies. isSpy holds exactly for the first |spyHints| frames. |
| Round.AllSessionsServed | src/main/kotlin/Server.kt:97 | When the subjects suffice, every session gets exactly one PlayerState and exactly |spyHints| of them say "spy". |
| Round.LatestNonSpiesUnmatched | src/main/kotlin/Server.kt:97 | Every non-spy frame goes to a session registered before every non-spy the zip leaves out. |
| Round.UnmatchedGetNothing | src/main/kotlin/Server.kt:97 | A non-spy beyond the zip's length, or any connection that is not a session, gets nothing except possibly the admin acknowledgment. |
| Round.GivenSubjects | src/main/kotlin/Server.kt:97-104 | The subjects handed out, in send order, are the first `Matched` of the shuffled subjects. |
| Round.SubjectsHandedOut | src/main/kotlin/Server.kt:97-104 | The subjects handed out are a sub-multiset of the input subjects, and all of them when there are enough non-spies. |
| Round.LowercaseSubjectNotRemoved | src/main/kotlin/Server.kt:99 | A subject starting with a lower-case letter is not in the reveal list, so that non-spy's list is the whole reveal list. |
| Round.NumSpiesIgnored | src/main/kotlin/Server.kt:160-168 | Changing `numSpies` does not change the round. |
| Server.Apply | src/main/kotlin/Server.kt:34-124 | Every event keeps the registry well formed. Every roster frame carries the names of the resulting registry. Frames go only to known connections or to the admin whose frame is handled. |
| Server.RoundKeepsState | src/main/kotlin/Server.kt:64-113 | A round that passes `subList` leaves the registry unchanged and writes exactly the round's frames. |
| Server.BadInputDropsAdmin | src/main/kotlin/Server.kt:63-119 | An undecodable frame or a round with too many hints sends nothing, keeps the players, and removes that admin. |
| Server.IgnoredFrames | src/main/kotlin/Server.kt:37-65 | A first frame that is not text, a player's later frames, and an admin's non-text frames change nothing and send nothing. |
| Server.RoundKnownRecipients | src/main/kotlin/Server.kt:81-113 | A round writes only to sessions and to its admin, and never a roster. |
| Server.Run | src/main/kotlin/Server.kt:33-124 | Step 0 is the first event applied to the initial state, and step i is event i applied to the state step i-1 left. Every step leaves a well-formed registry whose roster frames carry its current names. |

## Left out

- The Ktor application, the HTTP/WebSocket plumbing, CORS, content negotiation and static resources are not modelled. A connection is an opaque identity.
- JSON encoding and decoding are not modelled: a message is sent as the record itself, and an admin frame that does not decode is the event `Undecodable`. On the wire, only the `PlayerState` frames carry `messageType`: the round encodes them with `encodeDefaults = true`. The roster frames of `updatePlayers` use the library's default encoder, which leaves out default-valued fields, so they carry no `messageType`. The model does not distinguish the two.
- Concurrency is not modelled. Handlers run one event at a time over shared state without locking in the source; here, events are applied in sequence.
- Send failures are not modelled: a closed outgoing channel would throw from `send`, but every send is treated as succeeding.
- The uniformity of `shuffled()` is not modelled. Each outcome is an explicit index order, and nothing is claimed about its distribution.
- The logging calls (`println`, `printStackTrace`) are left out because they have no effect on state or frames.
- Round.TitleCase: only ASCII letters are title-cased. Locale-dependent Unicode title-casing is not modelled because Dafny strings carry no case tables. As a result, a subject whose first letter is a non-ASCII lower-case letter ("éclair") stays as it is in the reveal list and IS removed from that non-spy's list. The program would list it as "Éclair" and leave it in.
- Messages.GameInput: `numSpies` is an unbounded `int`, not a 32-bit value, because the value is never read.
- The single-spy configuration (one shared hint plus an omitted subject), the web client and the build script are not part of this model.
