/** The status codes that the world state reports to the game loop. */
module Config {

  datatype Status = Prize | Won | Ok | Score | Lost | Power | Normal | Eat

  /** The integer value of each status constant. */
  function Code(s: Status): (c: int)
    ensures 0 <= c <= 7
  {
    match s
    case Prize => 0
    case Won => 1
    case Ok => 2
    case Score => 3
    case Lost => 4
    case Power => 5
    case Normal => 6
    case Eat => 7
  }

  /** Different statuses have different codes. */
  lemma CodeInjective(a: Status, b: Status)
    ensures Code(a) == Code(b) ==> a == b
  {
  }
}
