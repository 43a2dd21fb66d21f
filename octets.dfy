/**
 * Byte-level vocabulary shared by every module of the model: octets as held
 * in a Java byte[], Java's 32-bit int arithmetic, and the Latin-1 view of text
 * that Undertow's HttpString uses.
 */
module Octets {

  /** An octet as stored in a Java byte[]; the Java (signed) value is Signed(b). */
  type Byte = b: int | 0 <= b < 256

  datatype Option<T> = None | Some(value: T)

  /** The value Java sees when it widens a signed byte to int. */
  function Signed(b: Byte): (r: int)
    ensures -128 <= r < 128
    ensures r == b || r == b - 256
  {
    if b < 128 then b else b - 256
  }

  /** The octet of a Java byte. */
  function Unsigned(x: int): (b: Byte)
    ensures -128 <= x < 128 ==> Signed(b) == x
  {
    x % 256
  }

  /** Java's (char) cast of a byte value: it sign-extends, as SignExtendedChar does for the octet. */
  function JavaChar(x: int): (c: char)
    requires -128 <= x < 128
    ensures c == SignExtendedChar(Unsigned(x))
  {
    if x >= 0 then x as char else (x + 0x1_0000) as char
  }

  predicate IsInt32(x: int) {
    -0x8000_0000 <= x < 0x8000_0000
  }

  /** Java int arithmetic: the result of an int operation is reduced modulo 2^32 into the signed range. */
  function Wrap32(x: int): (r: int)
    ensures IsInt32(r)
    ensures (x - r) % 0x1_0000_0000 == 0
    ensures IsInt32(x) ==> r == x
  {
    var m := x % 0x1_0000_0000;
    if m < 0x8000_0000 then m else m - 0x1_0000_0000
  }

  /** A Java narrowing cast to byte: the low 8 bits, read as a signed value. */
  function JavaByte(x: int): (r: int)
    ensures -128 <= r < 128
    ensures -128 <= x < 128 ==> r == x
  {
    (x + 128) % 256 - 128
  }

  /** Integer.signum. */
  function Signum(x: int): (r: int)
    ensures r == -1 || r == 0 || r == 1
    ensures (r < 0 <==> x < 0) && (r == 0 <==> x == 0)
  {
    if x < 0 then -1 else if x == 0 then 0 else 1
  }

  /** Java's (byte) cast of a char keeps its low 8 bits. */
  function LowByte(c: char): Byte {
    (c as int) % 256
  }

  /** Java's (char) cast of a byte sign-extends: 0x80..0xFF become U+FF80..U+FFFF. */
  function SignExtendedChar(b: Byte): (c: char)
    ensures b < 128 ==> c as int == b
    ensures b >= 128 ==> c as int > 0xFF
    ensures LowByte(c) == b
  {
    if b < 128 then b as char else (b + 0xFF00) as char
  }

  /** The Latin-1 character of an octet: new String(bytes, 0) maps each byte to the char of the same code. */
  function Latin1Char(b: Byte): (c: char)
    ensures c as int == b && LowByte(c) == b
  {
    b as char
  }

  predicate IsLatin1(s: string) {
    forall i :: 0 <= i < |s| ==> s[i] as int <= 0xFF
  }

  predicate IsAscii(bytes: seq<Byte>) {
    forall i :: 0 <= i < |bytes| ==> bytes[i] < 128
  }

  /** The bytes of a string under the deprecated String.getBytes(int, int, byte[], int): low 8 bits of each char. */
  function LowBytes(s: string): (r: seq<Byte>)
    ensures |r| == |s|
    ensures forall i :: 0 <= i < |s| ==> r[i] == LowByte(s[i])
  {
    seq(|s|, i requires 0 <= i < |s| => LowByte(s[i]))
  }

  /** The string built by new String(bytes, 0): one Latin-1 char per byte. */
  function Latin1Decode(bytes: seq<Byte>): (s: string)
    ensures |s| == |bytes|
    ensures forall i :: 0 <= i < |bytes| ==> s[i] as int == bytes[i]
  {
    seq(|bytes|, i requires 0 <= i < |bytes| => Latin1Char(bytes[i]))
  }

  /** Decoding bytes as Latin-1 and taking the low bytes back is the identity, and the text is Latin-1. */
  lemma DecodeThenLowBytes(bytes: seq<Byte>)
    ensures LowBytes(Latin1Decode(bytes)) == bytes
    ensures IsLatin1(Latin1Decode(bytes))
  {
  }

  /** On Latin-1 text the low bytes lose nothing: decoding them gives the string back. */
  lemma LowBytesThenDecode(s: string)
    requires IsLatin1(s)
    ensures Latin1Decode(LowBytes(s)) == s
  {
    var t := Latin1Decode(LowBytes(s));
    forall i | 0 <= i < |s| ensures t[i] == s[i] {
      assert t[i] as int == LowByte(s[i]) == s[i] as int;
    }
  }
}
