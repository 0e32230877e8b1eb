/** What every part shares: optional values, bytes and byte strings. */
module Common {
  datatype Option<+T> = None | Some(value: T)

  type Byte = x: int | 0 <= x < 256

  type Bytes = seq<Byte>

  const SPACE: Byte := 32
  const QUOTE: Byte := 34
  const COMMA: Byte := 44

  // The bytes of ASCII text.
  function Ascii(s: string): (r: Bytes)
    requires forall i | 0 <= i < |s| :: s[i] < 128 as char
    ensures |r| == |s| && forall i | 0 <= i < |s| :: r[i] == s[i] as int
  {
    seq(|s|, i requires 0 <= i < |s| => s[i] as int)
  }

  ghost predicate NulFree(s: Bytes) {
    forall i | 0 <= i < |s| :: s[i] != 0
  }
}
