/** What all modules share: option values, the ends of a sequence, and the
    32-bit integers of the program. */
module Prelude {

  datatype Option<+T> = None | Some(value: T)

  function Front<T>(s: seq<T>): seq<T>
    requires s != []
  {
    s[..|s| - 1]
  }

  function Last<T>(s: seq<T>): T
    requires s != []
  {
    s[|s| - 1]
  }

  const U32: nat := 0x1_0000_0000

  type uint32 = n: nat | n < 0x1_0000_0000

  /** A size converted to a signed 32-bit int. */
  function ToInt32(n: nat): (i: int)
    ensures -0x8000_0000 <= i < 0x8000_0000 && i <= n
    ensures n < 0x8000_0000 ==> i == n
    ensures 0x8000_0000 <= n < 0x1_0000_0000 ==> i < 0
  {
    var r := n % U32;
    if r < 0x8000_0000 then r else r - U32
  }
}
