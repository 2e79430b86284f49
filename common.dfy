/** Types shared by every part of the model: the source's enums and the
    opaque handles of the host's terminals. */
module Common {

  datatype Option<+T> = None | Some(value: T)

  /** Run state of a command (the `State` enum; RUNNING = 0, STOPPED = 1, ERROR = 2). */
  datatype State = RUNNING | STOPPED | ERROR

  /** Which catalog a command belongs to (the `CommandType` enum). */
  datatype CommandType = GLOBAL | WORKSPACE | TEMPORARY

  /** Node keys are opaque strings; generating fresh ones is not part of this model. */
  type Key = string

  /** An opaque reference to a terminal of the host editor, compared by identity. */
  type Handle = nat

  /** One terminal created by the provider: the handle the host returned, the
      name it was created with and the text sent to it. */
  datatype Launch = Launch(terminal: Handle, name: string, text: string)

  /** The name `State[s]` gives for an enum value. */
  function StateName(s: State): (name: string)
    ensures name in {"RUNNING", "STOPPED", "ERROR"}
  {
    match s
    case RUNNING => "RUNNING"
    case STOPPED => "STOPPED"
    case ERROR => "ERROR"
  }

  /** Distinct states have distinct names, so a context value determines the state. */
  lemma StateNameInjective(s: State, t: State)
    requires StateName(s) == StateName(t)
    ensures s == t
  {
  }
}
