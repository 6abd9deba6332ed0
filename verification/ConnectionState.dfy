/** The states of a connection, as its loop and its server see them. */
module ConnectionStates {

  datatype State = Connecting | Connected | Disconnecting | Disconnected

  /** A connection moves through its states in this order. */
  function Rank(s: State): nat {
    match s
    case Connecting => 0
    case Connected => 1
    case Disconnecting => 2
    case Disconnected => 3
  }
}
