/** The running handler: the sending socket and the state `main` keeps across
    the read loop, updated in place. Every method is proved to compute the
    matching function of module Handler. */
module Daemon {
  import opened Ipc
  import opened Rule
  import opened Handler

  /** The socket that actions are sent on. `sent` records every request in the
      order it was sent; what each send comes back with is decided by `env`. */
  class Socket {
    var sent: seq<Action>
    const env: Env

    constructor (env: Env)
      ensures sent == [] && this.env == env
    {
      sent := [];
      this.env := env;
    }

    /** `Socket::send` of a `Request::Action`. */
    method Send(action: Action) returns (outcome: SendOutcome)
      modifies this
      ensures sent == old(sent) + [action]
      ensures outcome == env(|old(sent)|)
    {
      outcome := env(|sent|);
      sent := sent + [action];
    }
  }

  /** `matched_windows` and the sending socket of `main`. `panicked` stands for
      the `panic!` that a transport error raises: once it is set nothing more
      happens. */
  class EventHandler {
    var matchedWindows: set<WindowId>
    var panicked: bool
    const socket: Socket

    constructor (socket: Socket)
      ensures matchedWindows == {} && !panicked && this.socket == socket
    {
      matchedWindows := {};
      panicked := false;
      this.socket := socket;
    }

    /** The state as the functions of module Handler see it. */
    function Current(): State
      reads this, socket
    {
      State(matchedWindows, socket.sent, panicked)
    }

    /** `do_thing_with_window`. */
    method DoThingWithWindow(window: Window)
      requires !panicked
      modifies this, socket
      ensures Current() == HandleWindow(old(Current()), window, socket.env)
    {
      if RuleApplies(window) {
        matchedWindows := matchedWindows + {window.id};
        var outcome := socket.Send(MoveWindowToFloating(Some(window.id)));
        match outcome
        case TransportError(_) => panicked := true;
        case Delivered(_) =>
      }
    }

    /** One arm of the `match event` in the read loop. */
    method HandleEvent(event: Event)
      requires !panicked
      modifies this, socket
      ensures Current() == Step(old(Current()), event, socket.env)
    {
      match event
      case WindowsChanged(windows) =>
        var i := 0;
        while i < |windows| && !panicked
          invariant 0 <= i <= |windows|
          invariant HandleWindows(Current(), windows[i..], socket.env)
                    == HandleWindows(old(Current()), windows, socket.env)
        {
          assert windows[i..][1..] == windows[i + 1..];
          DoThingWithWindow(windows[i]);
          i := i + 1;
        }
      case WindowOpenedOrChanged(window) =>
        DoThingWithWindow(window);
      case WindowClosed(id) =>
        matchedWindows := matchedWindows - {id};
      case OtherEvent =>
    }

    /** The `while let Ok(event) = read_event()` loop over the events that
        `input` delivers. */
    method ServeEvents(input: seq<Read>)
      requires !panicked
      modifies this, socket
      ensures Current() == Run(old(Current()), input, socket.env)
    {
      var i := 0;
      while i < |input| && !panicked
        invariant 0 <= i <= |input|
        invariant Run(Current(), input[i..], socket.env) == Run(old(Current()), input, socket.env)
      {
        if input[i].ReadFailed? {
          break;
        }
        assert input[i..][1..] == input[i + 1..];
        HandleEvent(input[i].event);
        i := i + 1;
      }
    }
  }

  /** `main` from the moment the event stream is subscribed: an empty set of
      matched windows, a fresh sending socket, then the read loop. Returns the
      final set, the actions sent in order, and whether it panicked. */
  method RunEventLoop(input: seq<Read>, env: Env) returns (matched: set<WindowId>, sent: seq<Action>, panicked: bool)
    ensures State(matched, sent, panicked) == Run(Initial, input, env)
    ensures Justified(matched, Processed(Initial, input, env))
    ensures !panicked ==> forall id :: id in matched <==> Seen(id, Processed(Initial, input, env))
    ensures panicked ==> |sent| > 0 && env(|sent| - 1).TransportError?
    ensures forall j | 0 <= j < |sent| :: env(j).TransportError? <==> (panicked && j == |sent| - 1)
  {
    var socket := new Socket(env);
    var handler := new EventHandler(socket);
    handler.ServeEvents(input);
    matched, sent, panicked := handler.matchedWindows, socket.sent, handler.panicked;
    MatchedAreJustified(input, env);
    MatchedAreExactlySeen(input, env);
    PanicOnlyOnTransportError(Initial, input, env);
  }
}
