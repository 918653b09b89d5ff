/** Bytes, the eight instruction symbols and the 8-bit cell arithmetic of the
    interpreter (main.c:10, 357-383). */
module Symbols {

  /** An unsigned 8-bit value: a program byte, a tape cell or an I/O byte. */
  newtype byte = x: int | 0 <= x < 256

  const RIGHT: byte := 62   // '>'
  const LEFT: byte := 60    // '<'
  const PLUS: byte := 43    // '+'
  const MINUS: byte := 45   // '-'
  const DOT: byte := 46     // '.'
  const COMMA: byte := 44   // ','
  const OPEN: byte := 91    // '['
  const CLOSE: byte := 93   // ']'
  const NEWLINE: byte := 10 // '\n'

  /** What `,` stores at end of input: `getc` returns -1, and assigning it to a
      `u8` keeps the low eight bits. */
  const EOF_BYTE: byte := 255

  /** `tape[dp] += 1` on a `u8`: the sum is truncated to eight bits. */
  function Inc(b: byte): (r: byte)
    ensures b < 255 ==> r as int == b as int + 1
    ensures b == 255 ==> r == 0
  {
    ((b as int + 1) % 256) as byte
  }

  /** `tape[dp] -= 1` on a `u8`: the difference is truncated to eight bits. */
  function Dec(b: byte): (r: byte)
    ensures b > 0 ==> r as int == b as int - 1
    ensures b == 0 ==> r == 255
  {
    ((b as int - 1) % 256) as byte
  }

  /** `+` and `-` undo each other on every cell value. */
  lemma IncDecInverse(b: byte)
    ensures Dec(Inc(b)) == b
    ensures Inc(Dec(b)) == b
  {
  }
}
