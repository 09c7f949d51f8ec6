/** The bytes and numbers that the other modules give names to. */
module Limits {
  import opened ByteStrings
  import opened Ascii
  import HjsonSyntax
  import JsonText
  import MsgPackCodec
  import BlockPools
  import AnchoredClock
  import LruCaches

  /** The named bytes and classes of bytes, as characters. */
  lemma BytesAreAscii(b: Byte)
    ensures TAB == '\t' as int && LF == '\n' as int && CR == '\r' as int && SPACE == ' ' as int && QUOTE == '"' as int
    ensures HASH == '#' as int && APOSTROPHE == '\'' as int && STAR == '*' as int && PLUS == '+' as int && COMMA == ',' as int
    ensures MINUS == '-' as int && DOT == '.' as int && SLASH == '/' as int && ZERO == '0' as int && NINE == '9' as int
    ensures COLON == ':' as int && BACKSLASH == '\\' as int && LBRACKET == '[' as int && RBRACKET == ']' as int
    ensures LBRACE == '{' as int && RBRACE == '}' as int
    ensures IsNewline(b) <==> b in {10, 13}
    ensures IsSpace(b) <==> b in {9, 10, 13, 32}
    ensures IsDigit(b) <==> 48 <= b <= 57
    ensures IsExp(b) <==> b in {101, 69}
    ensures IsPunctuator(b) <==> b in {123, 125, 91, 93, 44, 58}
    ensures HjsonSyntax.IsQuote(b) <==> b in {34, 39}
    ensures HjsonSyntax.IsHex(b) <==> 48 <= b <= 57 || 97 <= b <= 102 || 65 <= b <= 70
  {
  }

  /** The limits the source sets. */
  lemma LimitsAre()
    ensures HjsonSyntax.MAX_DEPTH == 256 && MsgPackCodec.MAX_DEPTH == 256 && JsonText.MAX_DEPTH == 128
    ensures BlockPools.BATCH == 128 && BlockPools.RETURNED == 128 && BlockPools.MAX_LOCAL == 256 && BlockPools.MAX_CHUNK == 65536
    ensures AnchoredClock.SYNC_INTERVAL == 10000 && AnchoredClock.SNAP_THRESHOLD == 500
    ensures LruCaches.KEY_LENGTH == 256
  {
  }
}
