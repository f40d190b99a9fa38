# niri-thing-doer: the event handler, in Dafny

niri-thing-doer is a small daemon for the niri compositor. It subscribes to niri's
event stream and, whenever a window whose application id is `librewolf` and whose
title mentions `Bitwarden` is reported (in a `WindowsChanged` list or a
`WindowOpenedOrChanged` event), it asks niri to move that window to floating. It
keeps a set `matched_windows` of the ids it has floated and drops an id when
`WindowClosed` reports it; the set is never read.

This project models that event-handling core of `src/main.rs` and proves what it
does:

- `ipc.dfy` (module `Ipc`): the IPC vocabulary: `U64`/`WindowId`, `Window`,
  `Event`, the `MoveWindowToFloating` action, replies and send outcomes. A read
  from the stream is `Received(event)` or `ReadFailed(message)`; the outcome of
  the k-th send is `env(k)` for a function `env` that stands for niri and the
  transport.
- `rule.dfy` (module `Rule`): `rule_applies` as plain string predicates, with
  ghost predicates giving the meaning of the regular expressions `^librewolf$`
  and `^.*Bitwarden.*$` (anchors at the ends of the text, `.` not matching a line
  feed) and lemmas proving the two agree.
- `handler.dfy` (module `Handler`): the handler as functions on a value
  `State(matched, sent, panicked)`: `HandleWindow` (`do_thing_with_window`),
  `HandleWindows` (the `for` loop), `Step` (the `match event`), `Run` (the
  `while let` read loop), and lemmas about them.
- `daemon.dfy` (module `Daemon`): the same code in its own imperative form: a
  `Socket` class that logs what is sent, an `EventHandler` class holding
  `matchedWindows` and updating it in place, with each method proved to compute
  the corresponding function of `Handler`; `RunEventLoop` is `main` from the
  subscription onwards.
- `scenarios.dfy` (module `Scenarios`): concrete runs.

The code has one hard-coded rule and one action. The window rules that
`parse_config` reads are never used. The set is written but never consulted, so a
matching window is floated again on every event that carries it
(`Handler.RefiringSendsAgain`, `Handler.SetNeverConsulted`,
`Scenarios.VaultFloatsOnEveryEvent`).

## Model

| member | source | states |
|---|---|---|
| `Rule.Contains` | src/main.rs:90 | the search for the literal succeeds exactly when it occurs at some index of the text |
| `Rule.TitlePatternMeaning` | src/main.rs:90 | the text matches `^.*Bitwarden.*$` (literal between two `.*` runs anchored at both ends) exactly when it contains "Bitwarden" and no line feed |
| `Rule.AppIdPatternMeaning` | src/main.rs:91 | the text matches `^librewolf$` exactly when it equals "librewolf" |
| `Rule.RuleApplies` | src/main.rs:86-94 | the rule holds exactly when the app id (absent read as "") matches `^librewolf$` and the title (absent read as "") matches `^.*Bitwarden.*$` |
| `Rule.RuleAppliesExactly` | src/main.rs:86-94 | the rule holds iff app id is `Some("librewolf")` and the title is present, contains "Bitwarden" and has no line feed; an absent title or app id never matches |
| `Rule.RuleIgnoresOtherFields` | src/main.rs:86-94 | windows with the same title and app id get the same answer, whatever their id, pid, workspace or flags |
| `Handler.HandleWindow` | src/main.rs:70-84 | a matching window adds its id to the set and sends exactly one `MoveWindowToFloating(Some(id))` after what was already sent; no other id changes; it panics iff that send fails at the transport level; a non-matching window changes nothing |
| `Handler.FloatCommandsCount` | src/main.rs:47-51 | a window list sends exactly as many commands as it has matching windows (counted by position) |
| `Handler.FloatCommandsMembers` | src/main.rs:47-51 | a window list sends exactly one command per matching window (counted by position), so no more than one per window; every command floats a matching window of the list, and every matching window gets one |
| `Handler.FloatCommandsAppend` | src/main.rs:48 | commands follow list order: the commands of `a + b` are those of `a` followed by those of `b` |
| `Handler.HandleWindows` | src/main.rs:47-51 | the `for` loop only appends to what was sent and only adds to the set; after a panic it does nothing |
| `Handler.HandleWindowsSends` | src/main.rs:47-51 | the `for` loop sends a prefix of the matching windows' commands in list order, all of them unless it panicked; if it panicked, the last of its sends failed at the transport level and no earlier one did; without a panic none of its sends failed |
| `Handler.FailsOnlyAtEndExtend` | src/main.rs:77-82 | a step with no panic and no failed send, followed by sends that fail only at the end, fail only at the end as a whole |
| `Handler.HandleWindowsMatches` | src/main.rs:47-51 | the `for` loop adds only ids of matching windows of the list, and all of them unless it panicked |
| `Handler.Step` | src/main.rs:46-57 | an event only appends to what was sent; if it panicked, only its last send failed at the transport level, and without a panic none did; `WindowClosed(id)` removes exactly `id`, sends nothing and cannot panic; any other event kind changes nothing |
| `Handler.Run` | src/main.rs:44-58 | the read loop only appends to what was sent; a read error as the next read ends it with nothing changed; after a panic nothing happens |
| `Handler.Processed` | src/main.rs:45 | the handled events are the leading `Received` reads of the input; they stop short of the input's end only at a `ReadFailed` or a panic; all are handled when no read fails and nothing panics |
| `Handler.RefiringSendsAgain` | src/main.rs:75-77 | a matching window whose id is already in the set is floated again, and re-inserting the id leaves the set unchanged |
| `Handler.SetNeverConsulted` | src/main.rs:75-83 | two states differing only in their sets send the same commands and panic alike on every input |
| `Handler.StepSetIndependent` | src/main.rs:46-57 | one event sends the same commands whatever the set holds |
| `Handler.WindowsSetIndependent` | src/main.rs:47-51 | a window list sends the same commands whatever the set holds |
| `Handler.SeenInLastEvent` | src/main.rs:76 | a matching window in the latest event makes its id seen |
| `Handler.SeenSurvives` | src/main.rs:55 | an id stays seen across any event other than its own `WindowClosed` |
| `Handler.SeenSplit` | src/main.rs:55 | an id seen after an event was carried by that event, or was seen before and the event does not close it |
| `Handler.StepKeepsJustified` | src/main.rs:46-57 | every event keeps "each id in the set was carried by a matching window and not closed since" |
| `Handler.RunKeepsJustified` | src/main.rs:44-58 | the read loop keeps that invariant over all handled events |
| `Handler.MatchedAreJustified` | src/main.rs:31-58 | from an empty set, every id in the final set belongs to a matching window of a handled event with no later `WindowClosed` for it |
| `Handler.StepKeepsComplete` | src/main.rs:46-57 | unless it panics, an event keeps "every seen and not closed id is in the set" |
| `Handler.RunKeepsComplete` | src/main.rs:44-58 | unless it panics, the read loop keeps that invariant over all handled events |
| `Handler.MatchedAreExactlySeen` | src/main.rs:31-58 | without a panic the final set is exactly the ids seen and not closed since |
| `Handler.ReadErrorEndsLoop` | src/main.rs:45 | nothing read after the first read error has any effect |
| `Handler.PanicOnlyOnTransportError` | src/main.rs:77-82 | the first transport failure panics: if the process panicked, the last send failed at the transport level and no earlier send of the run did; a run without a panic had no failed send |
| `Handler.NoTransportErrorNoPanic` | src/main.rs:77-82 | when no send fails at the transport level the process never panics |
| `Handler.RepliesIgnored` | src/main.rs:77-82 | the whole run depends only on which sends fail at the transport level, not on niri's replies (error replies included) |
| `Handler.WindowsRepliesIgnored` | src/main.rs:47-51 | the same for one window list |
| `Daemon.Socket.constructor` | src/main.rs:30 | a new sending socket has sent nothing |
| `Daemon.Socket.Send` | src/main.rs:77-79 | the action is appended to what was sent and the outcome is the environment's answer to that send |
| `Daemon.EventHandler.constructor` | src/main.rs:31 | the matched set starts empty and nothing has panicked |
| `Daemon.EventHandler.DoThingWithWindow` | src/main.rs:70-84 | updates the set and the socket in place exactly as `Handler.HandleWindow` |
| `Daemon.EventHandler.HandleEvent` | src/main.rs:46-57 | updates the set and the socket in place exactly as `Handler.Step`, with the `for` loop stopping on a panic |
| `Daemon.EventHandler.ServeEvents` | src/main.rs:44-58 | the read loop updates the set and the socket exactly as `Handler.Run`, stopping at the first read error or panic |
| `Daemon.RunEventLoop` | src/main.rs:31-60 | from an empty set and a fresh socket, the final set and the sent actions are `Run`'s; the set holds only justified ids, exactly the seen ones when nothing panicked; a send fails at the transport level exactly when it is the last one and the run panicked |
| `Scenarios.VaultMatches` | src/main.rs:86-94 | a LibreWolf window titled "Bitwarden - librewolf" matches |
| `Scenarios.VaultSteps` | src/main.rs:52-56 | the single events of that run: two floats while the id is in the set, a close that empties it, an ignored event, a float after reopening |
| `Scenarios.VaultFloatsOnEveryEvent` | src/main.rs:52-55 | open, re-report, close, an ignored event and reopen of one matching window send the float command three times and leave its id in the set |
| `Scenarios.MultiLineTitleNeverMatches` | src/main.rs:90 | a title with a line feed after "Bitwarden" does not match |
| `Scenarios.LongerAppIdNeverMatches` | src/main.rs:91 | the app id "librewolf-nightly" does not match |
| `Scenarios.ErrorRepliesIgnored` | src/main.rs:77-82 | answering every send with an error reply changes nothing compared with answering `Handled` |
| `Scenarios.TransportErrorPanics` | src/main.rs:80 | a transport error on the first send ends the run: the second event is not handled |
| `Scenarios.WindowsChangedKeepsListOrder` | src/main.rs:47-51 | a list of two matching windows around a non-matching one floats the two in list order |

## Left out

- Command-line parsing (`Cli`, src/main.rs:18-26): argument plumbing only.
- `parse_config` and the parsed `config` (src/main.rs:27, 63-68): file I/O and KDL parsing into window rules whose modules are not part of this model; the result is never used by the matching logic.
- Connecting the two sockets and the `EventStream` subscription with its `.unwrap()` (src/main.rs:29-42): transport setup before the read loop. The model starts from a subscribed stream and a fresh sending socket.
- `read_events` and event decoding (src/main.rs:44-45): the stream is a finite sequence of already decoded reads. The real loop blocks for the next event; the model stops when the sequence runs out.
- The regex engine: the two patterns are given their meaning directly as ghost predicates over strings, and the compiled check is plain string comparison, proved equal to them.
- The panic message and unwinding: a panic is the `panicked` flag, after which nothing further is handled; `HashSet` hashing is a Dafny `set`.
- Fields of niri's `Window` and `Event` beyond those the handler reads: `Window` keeps a representative set of fields, and every event kind the `match` does not name is the single `OtherEvent`.
