/**
  The version number and the header size of a compiled ktap chunk, as the
  preprocessor computes them from string literals.
 */
module Header {

  const VersionMajor: string := "0"
  const VersionMinor: string := "1"

  /** `"\033ktap"`: ESC followed by the four letters. */
  const Signature: string := [27 as char] + "ktap"

  /** `"\x19\x93\r\n\x1a\n"`: bytes that catch newline and end-of-file conversions. */
  const Tail: string := [0x19 as char, 0x93 as char, '\r', '\n', 0x1a as char, '\n']

  /**
    `MYINT(s)`: the first character of `s` read as a decimal digit.  C
    subtracts the character codes, so only a digit gives a value in 0..9.
   */
  function MyInt(s: string): (d: int)
    requires |s| > 0
    ensures 0 <= d <= 9 <==> '0' <= s[0] <= '9'
  {
    s[0] as int - '0' as int
  }

  /** `sizeof` of a string literal counts its terminating NUL. */
  function SizeOfLiteral(s: string): nat
  {
    |s| + 1
  }

  /** `VERSION`: the major version in the high nibble, the minor in the low one. */
  function Version(): (v: int)
    ensures v == 0 * 16 + 1
    ensures v / 16 == MyInt(VersionMajor) && v % 16 == MyInt(VersionMinor)
  {
    MyInt(VersionMajor) * 16 + MyInt(VersionMinor)
  }

  /** `KTAPC_HEADERSIZE`: the signature and the tail without their NULs, plus 2 and 6 bytes. */
  function HeaderSize(): (n: nat)
    ensures n == 5 + 2 + 6 + 6 == 19
  {
    SizeOfLiteral(Signature) - 1 + 2 + 6 + SizeOfLiteral(Tail) - 1
  }
}
