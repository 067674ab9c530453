/** Vocabulary shared by both game engines: an optional value, the sound cues
    the engines request, and the integer maximum used by their arithmetic. */
module Shared {

  datatype Option<T> = None | Some(value: T)

  /** The named cues an engine hands to the sound collaborator. The model
      records them in order; synthesising the sound is not modelled. */
  datatype Cue = Move | Eat | Rotate | LineClear | LevelUp | GameOver

  /** The twelve keys both engines respond to: the four arrows and their
      letter equivalents w, a, s and d in either case. */
  const ControlKeys: set<string> :=
    {"ArrowUp", "w", "W", "ArrowDown", "s", "S",
     "ArrowLeft", "a", "A", "ArrowRight", "d", "D"}

  /** `Math.max` on two integers. */
  function Max(a: int, b: int): int
  {
    if a >= b then a else b
  }
}
