/** The result types and the 16-bit strings that the modules share. */
module Wrappers {
  datatype Option<+T> = None | Some(value: T)

  /** A jschar: one 16-bit code unit. */
  type Code = c: int | 0 <= c < 0x1_0000
}

/** JavaScript values as the array code sees them: undefined, strings, and everything else. */
module JSValues {
  import opened Wrappers

  datatype Value = Undefined | Text(chars: seq<Code>) | Other(tag: int)
}
