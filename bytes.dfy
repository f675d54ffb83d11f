/** Bytes exchanged with the terminal, and the few byte values the viewer names. */
module Bytes {

  /** One byte as read from or written to the terminal. */
  type byte = x: int | 0 <= x < 256

  const ESC: byte := 0x1b
  const LF: byte := 0x0a
  const CR: byte := 0x0d
  const SPACE: byte := ' ' as int
  const TILDE: byte := '~' as int
  const LBRACKET: byte := '[' as int
  const SEMICOLON: byte := ';' as int
  const MINUS: byte := '-' as int
  const DIGIT_ZERO: byte := '0' as int

  /** The byte Ctrl-Q sends: 'q' with the upper three bits cleared. */
  const CTRL_Q: byte := 0x11

  /** True of the ASCII digits '0'..'9'. */
  predicate IsDigit(b: byte) {
    '0' as int <= b <= '9' as int
  }
}
