/** Input that arrives in pieces. */
module Chunks {

  /** A list of chunks read as one message. */
  function Joined<T>(chunks: seq<seq<T>>): seq<T>
    decreases |chunks|
  {
    if |chunks| == 0 then [] else Joined(chunks[..|chunks| - 1]) + chunks[|chunks| - 1]
  }
}
