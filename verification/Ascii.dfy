/** The ASCII bytes that JSON and HJSON give a meaning to. */
module Ascii {
  import opened ByteStrings

  const TAB: Byte := 9
  const LF: Byte := 10
  const CR: Byte := 13
  const SPACE: Byte := 32
  const QUOTE: Byte := 34
  const HASH: Byte := 35
  const APOSTROPHE: Byte := 39
  const STAR: Byte := 42
  const PLUS: Byte := 43
  const COMMA: Byte := 44
  const MINUS: Byte := 45
  const DOT: Byte := 46
  const SLASH: Byte := 47
  const ZERO: Byte := 48
  const NINE: Byte := 57
  const COLON: Byte := 58
  const LBRACKET: Byte := 91
  const BACKSLASH: Byte := 92
  const RBRACKET: Byte := 93
  const LBRACE: Byte := 123
  const RBRACE: Byte := 125

  const TRUE_TEXT: Bytes := [116, 114, 117, 101]
  const FALSE_TEXT: Bytes := [102, 97, 108, 115, 101]
  const NULL_TEXT: Bytes := [110, 117, 108, 108]

  predicate IsNewline(c: Byte) { c == LF || c == CR }

  predicate IsSpace(c: Byte) { c == SPACE || c == TAB || IsNewline(c) }

  predicate IsDigit(c: Byte) { ZERO <= c <= NINE }

  /** The letter of an exponent, in either case. */
  predicate IsExp(c: Byte) { c == 101 || c == 69 }

  predicate IsPunctuator(c: Byte) {
    c == LBRACE || c == RBRACE || c == LBRACKET || c == RBRACKET || c == COMMA || c == COLON
  }
}
