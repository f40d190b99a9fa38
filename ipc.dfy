/** The slice of niri's IPC vocabulary that the event handler consumes and produces:
    windows as the compositor reports them, the events of the event stream, the
    one action the handler sends, and what a send can come back with. */
module Ipc {

  /** Rust's `u64`. */
  newtype U64 = x: int | 0 <= x < 0x1_0000_0000_0000_0000

  /** The compositor's window identifier (`type WindowId = u64`). */
  type WindowId = U64

  datatype Option<+T> = None | Some(value: T) {
    /** `Option::unwrap_or`. */
    function UnwrapOr(default: T): T
    {
      match this
      case Some(v) => v
      case None => default
    }
  }

  /** A snapshot of one window as carried by an event. Only `title` and `appId`
      are looked at by the handler; the rest is carried along unread. */
  datatype Window = Window(
    id: WindowId,
    title: Option<string>,
    appId: Option<string>,
    pid: Option<int>,
    workspaceId: Option<U64>,
    isFocused: bool,
    isFloating: bool)

  /** A decoded event of the event stream. `OtherEvent` stands for every kind the
      handler does not distinguish (workspace changes, focus changes, keyboard
      layouts, ...). */
  datatype Event =
    | WindowsChanged(windows: seq<Window>)
    | WindowOpenedOrChanged(window: Window)
    | WindowClosed(id: WindowId)
    | OtherEvent

  /** One attempt to read the next event: a decoded event, or a read error
      (which includes the stream being closed). */
  datatype Read = Received(event: Event) | ReadFailed(message: string)

  /** The only action the handler asks for. */
  datatype Action = MoveWindowToFloating(id: Option<WindowId>)

  /** niri's reply to a request: it was handled, it produced some other
      response, or niri reported an error. */
  datatype Reply = Handled | OtherResponse | ErrorReply(message: string)

  /** What `Socket::send` returns: a reply from niri, or an I/O error of the
      transport itself. */
  datatype SendOutcome = Delivered(reply: Reply) | TransportError(message: string)

  /** The outside world as seen by the sending socket: `env(k)` is what the
      k-th send (counting from 0) comes back with. */
  type Env = nat -> SendOutcome
}
