/** The event handler as functions on a value: the set of matched windows, the
    actions sent so far on the sending socket, and whether the process has
    panicked. Each function is one piece of the source's control flow; the
    methods of module Daemon are proved to compute exactly these. */
module Handler {
  import opened Ipc
  import opened Rule

  /** `matched` is `matched_windows`; `sent` lists, in order, every action the
      handler has tried to send; `panicked` records that a send failed at the
      transport level, which ends the process. */
  datatype State = State(matched: set<WindowId>, sent: seq<Action>, panicked: bool)

  /** The state when the read loop starts: no matched window, nothing sent. */
  const Initial: State := State({}, [], false)

  /** The command sent for a matching window. */
  function FloatCommand(id: WindowId): Action {
    MoveWindowToFloating(Some(id))
  }

  /** `do_thing_with_window`: a matching window's id is inserted into the set
      and one command to float it is sent; a transport error on that send
      panics, any reply from niri is ignored. */
  function HandleWindow(s: State, w: Window, env: Env): (r: State)
    requires !s.panicked
    ensures |r.sent| == |s.sent| + (if RuleApplies(w) then 1 else 0)
    ensures r.sent[..|s.sent|] == s.sent
    ensures RuleApplies(w) ==> r.sent[|s.sent|] == MoveWindowToFloating(Some(w.id)) && w.id in r.matched
    ensures r.matched - {w.id} == s.matched - {w.id} && s.matched <= r.matched
    ensures r.panicked <==> RuleApplies(w) && env(|s.sent|).TransportError?
    ensures !RuleApplies(w) ==> r == s
  {
    if RuleApplies(w) then
      var matched := s.matched + {w.id};
      var outcome := env(|s.sent|);
      State(matched, s.sent + [FloatCommand(w.id)], outcome.TransportError?)
    else
      s
  }

  /** The commands a fully processed window list sends, in list order. */
  function FloatCommands(ws: seq<Window>): seq<Action> {
    if ws == [] then []
    else
      var rest := FloatCommands(ws[1..]);
      if RuleApplies(ws[0]) then [FloatCommand(ws[0].id)] + rest else rest
  }

  /** The positions of the matching windows of a list. */
  ghost function MatchingPositions(ws: seq<Window>): set<nat> {
    set i: nat | i < |ws| && RuleApplies(ws[i])
  }

  lemma MatchingPositionsSnoc(ws: seq<Window>)
    requires |ws| > 0
    ensures var n := |ws| - 1;
      MatchingPositions(ws) == MatchingPositions(ws[..n]) + (if RuleApplies(ws[n]) then {n} else {})
      && n !in MatchingPositions(ws[..n])
  {
    var n := |ws| - 1;
    var front := ws[..n];
    forall i: nat | i < n ensures ws[i] == front[i] { }
  }

  /** A window list sends exactly as many commands as it has matching windows. */
  lemma {:induction false} FloatCommandsCount(ws: seq<Window>)
    ensures |FloatCommands(ws)| == |MatchingPositions(ws)|
    decreases |ws|
  {
    if ws != [] {
      var n := |ws| - 1;
      var last := ws[n];
      assert ws == ws[..n] + [last];
      FloatCommandsAppend(ws[..n], [last]);
      FloatCommandsCount(ws[..n]);
      MatchingPositionsSnoc(ws);
      assert |FloatCommands([last])| == if RuleApplies(last) then 1 else 0 by {
        assert [last][1..] == [];
      }
    } else {
      assert MatchingPositions(ws) == {};
    }
  }

  /** A window list sends one command per matching window and none for
      anything else. */
  lemma {:induction false} FloatCommandsMembers(ws: seq<Window>)
    ensures |FloatCommands(ws)| == |MatchingPositions(ws)|
    ensures |FloatCommands(ws)| <= |ws|
    ensures forall c | c in FloatCommands(ws) :: exists w | w in ws :: RuleApplies(w) && c == FloatCommand(w.id)
    ensures forall w | w in ws && RuleApplies(w) :: FloatCommand(w.id) in FloatCommands(ws)
  {
    FloatCommandsCount(ws);
    if ws != [] {
      FloatCommandsMembers(ws[1..]);
      assert forall w | w in ws[1..] :: w in ws;
      assert forall w | w in ws :: w == ws[0] || w in ws[1..];
    }
  }

  /** The ids of the matching windows of a list. */
  ghost function MatchingIds(ws: seq<Window>): set<WindowId> {
    set w | w in ws && RuleApplies(w) :: w.id
  }

  /** The `for window in windows` loop of the `WindowsChanged` arm; a panic
      stops it. */
  function HandleWindows(s: State, ws: seq<Window>, env: Env): (r: State)
    ensures s.sent <= r.sent && s.matched <= r.matched
    ensures s.panicked ==> r == s
    decreases |ws|
  {
    if |ws| == 0 || s.panicked then s
    else HandleWindows(HandleWindow(s, ws[0], env), ws[1..], env)
  }

  /** One event of the read loop's `match`. */
  function Step(s: State, e: Event, env: Env): (r: State)
    requires !s.panicked
    ensures s.sent <= r.sent
    ensures FailsOnlyAtEnd(|s.sent|, r, env)
    ensures e.WindowClosed? ==> r.matched == s.matched - {e.id} && r.sent == s.sent && !r.panicked
    ensures e.OtherEvent? ==> r == s
  {
    match e
    case WindowsChanged(windows) =>
      HandleWindowsSends(s, windows, env);
      HandleWindows(s, windows, env)
    case WindowOpenedOrChanged(window) => HandleWindow(s, window, env)
    case WindowClosed(id) => s.(matched := s.matched - {id})
    case OtherEvent => s
  }

  /** The `while let Ok(event) = read_event()` loop: it ends at the first read
      error, and a panic ends the process. */
  function Run(s: State, input: seq<Read>, env: Env): (r: State)
    ensures s.sent <= r.sent
    ensures s.panicked ==> r == s
    ensures |input| > 0 && input[0].ReadFailed? ==> r == s
    decreases |input|
  {
    if |input| == 0 || s.panicked then s
    else
      match input[0]
      case ReadFailed(_) => s
      case Received(e) => Run(Step(s, e, env), input[1..], env)
  }

  /** The events that `Run` actually hands to the `match`, in order. */
  function Processed(s: State, input: seq<Read>, env: Env): (p: seq<Event>)
    ensures |p| <= |input|
    ensures forall i | 0 <= i < |p| :: input[i] == Received(p[i])
    ensures (forall i | 0 <= i < |input| :: input[i].Received?) && !Run(s, input, env).panicked
            ==> |p| == |input|
    ensures |p| < |input| ==> input[|p|].ReadFailed? || Run(s, input, env).panicked
    decreases |input|
  {
    if |input| == 0 || s.panicked then []
    else
      match input[0]
      case ReadFailed(_) => []
      case Received(e) =>
        var rest := Processed(Step(s, e, env), input[1..], env);
        assert forall i | 1 <= i < |input| :: input[1..][i - 1] == input[i];
        [e] + rest
  }

  // ---------------------------------------------------------------------
  // Window lists

  lemma MatchingIdsCons(ws: seq<Window>)
    requires |ws| > 0
    ensures MatchingIds(ws) == (if RuleApplies(ws[0]) then {ws[0].id} else {}) + MatchingIds(ws[1..])
  {
    assert forall w | w in ws :: w == ws[0] || w in ws[1..];
  }

  /** Of the sends made from index `from` on in reaching `r`, the last one
      failed at the transport level if `r` panicked, and no other one did. */
  ghost predicate FailsOnlyAtEnd(from: nat, r: State, env: Env) {
    (r.panicked ==> |r.sent| > from)
    && forall j | from <= j < |r.sent| :: env(j).TransportError? <==> (r.panicked && j == |r.sent| - 1)
  }

  /** Processing a window list sends the matching windows' commands in list
      order; the first transport error cuts it short right after the failed
      send, and a list processed without a panic had no failed send. */
  lemma {:induction false} HandleWindowsSends(s: State, ws: seq<Window>, env: Env)
    requires !s.panicked
    ensures var r := HandleWindows(s, ws, env);
      s.sent <= r.sent <= s.sent + FloatCommands(ws)
      && (!r.panicked ==> r.sent == s.sent + FloatCommands(ws))
      && FailsOnlyAtEnd(|s.sent|, r, env)
    decreases |ws|
  {
    if |ws| > 0 {
      var s1 := HandleWindow(s, ws[0], env);
      var cs := FloatCommands(ws);
      assert s1.sent <= s.sent + cs && s.sent <= s1.sent;
      if !s1.panicked {
        HandleWindowsSends(s1, ws[1..], env);
        assert s1.sent + FloatCommands(ws[1..]) == s.sent + cs;
        FailsOnlyAtEndExtend(s, s1, HandleWindows(s, ws, env), env);
      }
    }
  }

  /** A step from `s` to `s1` without a panic, followed by sends from `s1` to
      `r` that fail only at the end, fail only at the end from `s` on. */
  lemma FailsOnlyAtEndExtend(s: State, s1: State, r: State, env: Env)
    requires !s1.panicked && s.sent <= s1.sent <= r.sent
    requires FailsOnlyAtEnd(|s.sent|, s1, env) && FailsOnlyAtEnd(|s1.sent|, r, env)
    ensures FailsOnlyAtEnd(|s.sent|, r, env)
  {
    forall j | |s.sent| <= j < |r.sent|
      ensures env(j).TransportError? <==> (r.panicked && j == |r.sent| - 1)
    {
      if j < |s1.sent| {
        assert !env(j).TransportError?;
      }
    }
  }

  /** Processing a window list adds the ids of the matching windows to the set,
      all of them unless a transport error cut it short, and no other id. */
  lemma {:induction false} HandleWindowsMatches(s: State, ws: seq<Window>, env: Env)
    requires !s.panicked
    ensures var r := HandleWindows(s, ws, env);
      s.matched <= r.matched <= s.matched + MatchingIds(ws)
      && (!r.panicked ==> r.matched == s.matched + MatchingIds(ws))
    decreases |ws|
  {
    if |ws| > 0 {
      var s1 := HandleWindow(s, ws[0], env);
      MatchingIdsCons(ws);
      if !s1.panicked {
        HandleWindowsMatches(s1, ws[1..], env);
      }
    } else {
      assert MatchingIds(ws) == {};
    }
  }

  /** Commands keep the order of the windows: the commands of a concatenated
      list are those of the first part followed by those of the second. */
  lemma {:induction false} FloatCommandsAppend(a: seq<Window>, b: seq<Window>)
    ensures FloatCommands(a + b) == FloatCommands(a) + FloatCommands(b)
    decreases |a|
  {
    if a != [] {
      assert (a + b)[1..] == a[1..] + b;
      FloatCommandsAppend(a[1..], b);
    } else {
      assert a + b == b;
    }
  }

  // ---------------------------------------------------------------------
  // The set is never consulted

  /** A matching window whose id is already in the set is floated again: the
      command goes out and re-inserting the id leaves the set as it was. */
  lemma RefiringSendsAgain(s: State, w: Window, env: Env)
    requires !s.panicked && RuleApplies(w) && w.id in s.matched
    ensures var r := Step(s, WindowOpenedOrChanged(w), env);
      r.matched == s.matched && r.sent == s.sent + [MoveWindowToFloating(Some(w.id))]
  {
  }

  /** The set never influences what is sent: two states that differ only in
      their sets send the same commands on every read sequence. */
  lemma {:induction false} SetNeverConsulted(s1: State, s2: State, input: seq<Read>, env: Env)
    requires s1.sent == s2.sent && s1.panicked == s2.panicked
    ensures Run(s1, input, env).sent == Run(s2, input, env).sent
    ensures Run(s1, input, env).panicked == Run(s2, input, env).panicked
    decreases |input|
  {
    if |input| > 0 && !s1.panicked && input[0].Received? {
      var e := input[0].event;
      StepSetIndependent(s1, s2, e, env);
      SetNeverConsulted(Step(s1, e, env), Step(s2, e, env), input[1..], env);
    }
  }

  lemma StepSetIndependent(s1: State, s2: State, e: Event, env: Env)
    requires !s1.panicked && s1.sent == s2.sent && s1.panicked == s2.panicked
    ensures Step(s1, e, env).sent == Step(s2, e, env).sent
    ensures Step(s1, e, env).panicked == Step(s2, e, env).panicked
  {
    if e.WindowsChanged? {
      WindowsSetIndependent(s1, s2, e.windows, env);
    }
  }

  lemma {:induction false} WindowsSetIndependent(s1: State, s2: State, ws: seq<Window>, env: Env)
    requires s1.sent == s2.sent && s1.panicked == s2.panicked
    ensures HandleWindows(s1, ws, env).sent == HandleWindows(s2, ws, env).sent
    ensures HandleWindows(s1, ws, env).panicked == HandleWindows(s2, ws, env).panicked
    decreases |ws|
  {
    if |ws| > 0 && !s1.panicked {
      WindowsSetIndependent(HandleWindow(s1, ws[0], env), HandleWindow(s2, ws[0], env), ws[1..], env);
    }
  }

  // ---------------------------------------------------------------------
  // Which ids the set holds

  /** The window event `e` carries a matching window with identifier `id`. */
  ghost predicate Carries(e: Event, id: WindowId) {
    match e
    case WindowsChanged(ws) => id in MatchingIds(ws)
    case WindowOpenedOrChanged(w) => w.id == id && RuleApplies(w)
    case _ => false
  }

  /** `id` was carried by a matching window in some event of `history`, and no
      later event of `history` closed it. */
  ghost predicate Seen(id: WindowId, history: seq<Event>) {
    exists k | 0 <= k < |history| :: Carries(history[k], id) && WindowClosed(id) !in history[k + 1..]
  }

  /** Every id in `matched` has been seen and not closed since. */
  ghost predicate Justified(matched: set<WindowId>, history: seq<Event>) {
    forall id | id in matched :: Seen(id, history)
  }

  lemma SeenInLastEvent(id: WindowId, history: seq<Event>, e: Event)
    requires Carries(e, id)
    ensures Seen(id, history + [e])
  {
    var h := history + [e];
    assert Carries(h[|history|], id) && h[|history| + 1..] == [];
  }

  lemma SeenSurvives(id: WindowId, history: seq<Event>, e: Event)
    requires Seen(id, history) && e != WindowClosed(id)
    ensures Seen(id, history + [e])
  {
    var h := history + [e];
    var k :| 0 <= k < |history| && Carries(history[k], id) && WindowClosed(id) !in history[k + 1..];
    assert h[k] == history[k];
    assert h[k + 1..] == history[k + 1..] + [e];
  }

  lemma StepKeepsJustified(s: State, e: Event, env: Env, history: seq<Event>)
    requires !s.panicked && Justified(s.matched, history)
    ensures Justified(Step(s, e, env).matched, history + [e])
  {
    var r := Step(s, e, env);
    if e.WindowsChanged? {
      HandleWindowsMatches(s, e.windows, env);
    }
    forall id | id in r.matched
      ensures Seen(id, history + [e])
    {
      if Carries(e, id) {
        SeenInLastEvent(id, history, e);
      } else {
        assert id in s.matched && e != WindowClosed(id);
        SeenSurvives(id, history, e);
      }
    }
  }

  /** The invariant of the read loop: every id in the set belongs to a matching
      window of an event handled so far that no later handled event closed. */
  lemma {:induction false} RunKeepsJustified(s: State, input: seq<Read>, env: Env, history: seq<Event>)
    requires Justified(s.matched, history)
    ensures Justified(Run(s, input, env).matched, history + Processed(s, input, env))
    decreases |input|
  {
    if |input| > 0 && !s.panicked && input[0].Received? {
      var e := input[0].event;
      var s1 := Step(s, e, env);
      var rest := Processed(s1, input[1..], env);
      assert Processed(s, input, env) == [e] + rest;
      assert Run(s, input, env) == Run(s1, input[1..], env);
      StepKeepsJustified(s, e, env, history);
      RunKeepsJustified(s1, input[1..], env, history + [e]);
      assert history + [e] + rest == history + Processed(s, input, env);
    } else {
      assert Processed(s, input, env) == [];
      assert Run(s, input, env) == s;
      assert history + Processed(s, input, env) == history;
    }
  }

  /** From the start of the read loop, the set only holds ids justified by the
      events handled. */
  lemma MatchedAreJustified(input: seq<Read>, env: Env)
    ensures Justified(Run(Initial, input, env).matched, Processed(Initial, input, env))
  {
    RunKeepsJustified(Initial, input, env, []);
    assert [] + Processed(Initial, input, env) == Processed(Initial, input, env);
  }

  /** Every id that has been seen and not closed since is in `matched`. */
  ghost predicate Complete(matched: set<WindowId>, history: seq<Event>) {
    forall id | Seen(id, history) :: id in matched
  }

  lemma SeenSplit(id: WindowId, history: seq<Event>, e: Event)
    requires Seen(id, history + [e])
    ensures Carries(e, id) || (Seen(id, history) && e != WindowClosed(id))
  {
    var h := history + [e];
    var k :| 0 <= k < |h| && Carries(h[k], id) && WindowClosed(id) !in h[k + 1..];
    if k < |history| {
      assert h[k] == history[k];
      assert h[k + 1..] == history[k + 1..] + [e];
      assert e in h[k + 1..];
    }
  }

  lemma StepKeepsComplete(s: State, e: Event, env: Env, history: seq<Event>)
    requires !s.panicked && Complete(s.matched, history)
    ensures var r := Step(s, e, env); !r.panicked ==> Complete(r.matched, history + [e])
  {
    var r := Step(s, e, env);
    if e.WindowsChanged? {
      HandleWindowsMatches(s, e.windows, env);
    }
    if !r.panicked {
      forall id | Seen(id, history + [e]) ensures id in r.matched {
        SeenSplit(id, history, e);
      }
    }
  }

  lemma {:induction false} RunKeepsComplete(s: State, input: seq<Read>, env: Env, history: seq<Event>)
    requires Complete(s.matched, history)
    ensures var r := Run(s, input, env); !r.panicked ==> Complete(r.matched, history + Processed(s, input, env))
    decreases |input|
  {
    if |input| > 0 && !s.panicked && input[0].Received? {
      var e := input[0].event;
      var s1 := Step(s, e, env);
      var rest := Processed(s1, input[1..], env);
      assert Processed(s, input, env) == [e] + rest;
      assert Run(s, input, env) == Run(s1, input[1..], env);
      StepKeepsComplete(s, e, env, history);
      if !s1.panicked {
        RunKeepsComplete(s1, input[1..], env, history + [e]);
      }
      assert history + [e] + rest == history + Processed(s, input, env);
    } else {
      assert Processed(s, input, env) == [];
      assert Run(s, input, env) == s;
      assert history + Processed(s, input, env) == history;
    }
  }

  /** Unless the process panicked, the set holds exactly the ids of matching
      windows seen in the events handled and not closed since. */
  lemma MatchedAreExactlySeen(input: seq<Read>, env: Env)
    ensures var r := Run(Initial, input, env);
      !r.panicked ==> forall id :: id in r.matched <==> Seen(id, Processed(Initial, input, env))
  {
    MatchedAreJustified(input, env);
    assert Complete(Initial.matched, []);
    RunKeepsComplete(Initial, input, env, []);
    assert [] + Processed(Initial, input, env) == Processed(Initial, input, env);
  }

  // ---------------------------------------------------------------------
  // Read errors, panics and replies

  /** The loop stops at the first read error: nothing read after it has any
      effect. */
  lemma {:induction false} ReadErrorEndsLoop(s: State, a: seq<Read>, m: string, b: seq<Read>, env: Env)
    requires forall i | 0 <= i < |a| :: a[i].Received?
    ensures Run(s, a + [ReadFailed(m)] + b, env) == Run(s, a, env)
    decreases |a|
  {
    if |a| > 0 && !s.panicked {
      assert (a + [ReadFailed(m)] + b)[1..] == a[1..] + [ReadFailed(m)] + b;
      ReadErrorEndsLoop(Step(s, a[0].event, env), a[1..], m, b, env);
    }
  }

  /** Only a transport error ends the process, and the first one does: if it
      panicked, the last send failed at the transport level and no earlier send
      of the run did; a run without a panic had no failed send. */
  lemma {:induction false} PanicOnlyOnTransportError(s: State, input: seq<Read>, env: Env)
    requires !s.panicked
    ensures var r := Run(s, input, env);
      (r.panicked ==> |r.sent| > 0 && env(|r.sent| - 1).TransportError?)
      && FailsOnlyAtEnd(|s.sent|, r, env)
    decreases |input|
  {
    if |input| > 0 && input[0].Received? {
      var e := input[0].event;
      var s1 := Step(s, e, env);
      if !s1.panicked {
        PanicOnlyOnTransportError(s1, input[1..], env);
        FailsOnlyAtEndExtend(s, s1, Run(s, input, env), env);
      }
    }
  }

  /** Without a transport error the process never panics. */
  lemma NoTransportErrorNoPanic(s: State, input: seq<Read>, env: Env)
    requires !s.panicked
    requires forall k: nat :: !env(k).TransportError?
    ensures !Run(s, input, env).panicked
  {
    PanicOnlyOnTransportError(s, input, env);
  }

  /** Two environments that fail at the same sends. */
  ghost predicate SameTransport(env1: Env, env2: Env) {
    forall k: nat :: env1(k).TransportError? == env2(k).TransportError?
  }

  /** Replies from niri, error replies included, are ignored: the outcome of
      the whole loop depends only on which sends fail at the transport level. */
  lemma {:induction false} RepliesIgnored(s: State, input: seq<Read>, env1: Env, env2: Env)
    requires SameTransport(env1, env2)
    ensures Run(s, input, env1) == Run(s, input, env2)
    decreases |input|
  {
    if |input| > 0 && !s.panicked && input[0].Received? {
      var e := input[0].event;
      if e.WindowsChanged? {
        WindowsRepliesIgnored(s, e.windows, env1, env2);
      }
      assert Step(s, e, env1) == Step(s, e, env2);
      RepliesIgnored(Step(s, e, env1), input[1..], env1, env2);
    }
  }

  lemma {:induction false} WindowsRepliesIgnored(s: State, ws: seq<Window>, env1: Env, env2: Env)
    requires SameTransport(env1, env2)
    ensures HandleWindows(s, ws, env1) == HandleWindows(s, ws, env2)
    decreases |ws|
  {
    if |ws| > 0 && !s.panicked {
      assert HandleWindow(s, ws[0], env1) == HandleWindow(s, ws[0], env2);
      WindowsRepliesIgnored(HandleWindow(s, ws[0], env1), ws[1..], env1, env2);
    }
  }
}
