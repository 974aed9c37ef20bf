/** Values shared by the mirror of the broadcasting server's state and the session that holds it. */
module Types {

  datatype Option<+T> = None | Some(value: T)

  /** State of the stream or record button: the keys of its glyph table. */
  datatype Status = Off | On | Wait

  /** The delayed microphone action a scene switch schedules. */
  datatype MicAction = Mute | Unmute

  /** The four push events whose handlers set the stream and record buttons. */
  datatype StreamEvent = StreamStarting | StreamStopping | StreamStarted | StreamStopped

  /** One source of a scene as the server describes it: its name and whether it is rendered. */
  datatype Item = Item(name: string, render: bool)

  /** A request issued to the server; the session's log of these stands in for the transport. */
  datatype Request =
    | SetSourceRender(source: string, render: bool)
    | SetCurrentScene(scene: string)
    | SetMicMute(mute: bool)
    | GetMicVolume

  /** The exceptions a handler can raise: a name missing from the rows of a listbox
      (`index` on the tuple `get(0, END)` returns),
      an index missing from the selected set (set.remove). */
  datatype Error = NotInList | NotInSet

  /** One visibility change the selection differencer asks for: the source at `index` gets `render`. */
  datatype Toggle = Toggle(index: nat, render: bool)
}
