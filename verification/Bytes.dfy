/** Bytes as the C code sees them, and the character classes of load.c. */
module Bytes {

  newtype byte = b: int | 0 <= b < 256

  type bytes = seq<byte>

  datatype Option<+T> = None | Some(value: T)

  const QUOTE: byte := 34
  const COMMA: byte := 44
  const MINUS: byte := 45
  const COLON: byte := 58
  const LBRACKET: byte := 91
  const BACKSLASH: byte := 92
  const RBRACKET: byte := 93
  const LBRACE: byte := 123
  const RBRACE: byte := 125

  predicate IsDigit(b: byte) { 48 <= b <= 57 }

  predicate IsUpper(b: byte) { 65 <= b <= 90 }

  predicate IsLower(b: byte) { 97 <= b <= 122 }

  predicate IsAlpha(b: byte) { IsUpper(b) || IsLower(b) }

  predicate IsSpace(b: byte) { b == 32 || b == 9 || b == 10 || b == 13 }

  /** What a signed C `char` holding the byte is worth as an int. */
  function AsChar(b: byte): int {
    if b < 128 then b as int else b as int - 256
  }

  /** The byte a char is made from. */
  function AsByte(c: int): byte
    requires -128 <= c < 256
  {
    (if c < 0 then c + 256 else c) as byte
  }

  lemma Cat2(a: bytes, b: bytes, c: bytes)
    ensures (a + b) + c == a + (b + c)
  {
  }
}
