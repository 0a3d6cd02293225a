/** Numeric character references: which code points a reference may name,
    and how a code point is written as UTF-16 code units (the UTF-16
    encoding form of section 3.9 of the Unicode Standard). */
module CodePoints {
  import opened Units

  /** `isValidEntityCode(c)`: the denylist, in the order it is checked.
      `c & 0xFFFF` keeps the low 16 bits of the 32-bit integer, which for
      every integer is `c % 0x10000` with Dafny's non-negative remainder. */
  predicate IsValidEntityCode(c: int)
  {
    if 0xD800 <= c <= 0xDFFF then false            // surrogates
    else if 0xF5 <= c <= 0xFF then false           // bytes that never start UTF-8
    else if c == 0xC0 || c == 0xC1 then false      // overlong UTF-8 lead bytes
    else if 0xFDD0 <= c <= 0xFDEF then false       // non-characters
    else if c % 0x10000 == 0xFFFF || c % 0x10000 == 0xFFFE then false
    else if c <= 0x1F then false                   // C0 controls
    else if 0x7F <= c <= 0x9F then false           // DEL and C1 controls
    else if c > 0x10FFFF then false                // past the last code point
    else true
  }

  /** The same set described positively, as the ranges it allows: printable
      ASCII, the rest of Latin-1 minus the excluded byte values, the BMP
      outside surrogates and non-characters, and every supplementary plane
      without its last two code points. */
  predicate InAllowedRange(c: int)
  {
    || 0x20 <= c <= 0x7E
    || 0xA0 <= c <= 0xBF
    || 0xC2 <= c <= 0xF4
    || 0x100 <= c <= 0xD7FF
    || 0xE000 <= c <= 0xFDCF
    || 0xFDF0 <= c <= 0xFFFD
    || (0x10000 <= c <= 0x10FFFF && c % 0x10000 <= 0xFFFD)
  }

  /** The denylist and the allowed ranges agree on every integer. */
  lemma ValidIffAllowed(c: int)
    ensures IsValidEntityCode(c) <==> InAllowedRange(c)
  {
  }

  predicate IsHighSurrogate(u: int) { 0xD800 <= u <= 0xDBFF }
  predicate IsLowSurrogate(u: int) { 0xDC00 <= u <= 0xDFFF }

  /** `String.fromCharCode(u)`: the argument is reduced modulo 2^16. */
  function FromCharCode(u: int): CodeUnit
  {
    u % 0x10000
  }

  /** The ECMAScript ToInt32 conversion an integer undergoes before a shift:
      the value modulo 2^32, read as a two's-complement 32-bit integer. */
  function ToInt32(x: int): (r: int)
    ensures -0x8000_0000 <= r < 0x8000_0000
    ensures (r - x) % 0x1_0000_0000 == 0
  {
    var m := x % 0x1_0000_0000;
    if m < 0x8000_0000 then m else m - 0x1_0000_0000
  }

  /** `fromCodePoint(c)`: a value above 0xFFFF becomes two units, built from
      `(c - 0x10000) >> 10` and `(c - 0x10000) & 0x3FF`; any other value is
      one unit. `>>` is an arithmetic shift of the 32-bit value, which is
      floor division by 2^10; `& 0x3FF` keeps the low ten bits, the same for
      the 32-bit value as for `d`; `fromCharCode` keeps the low 16 bits. */
  function FromCodePoint(c: int): (r: seq<CodeUnit>)
    ensures c <= 0xFFFF ==> r == [c % 0x10000]
    ensures 0 <= c <= 0xFFFF ==> r == [c]
    ensures 0xFFFF < c ==> |r| == 2
    ensures 0xFFFF < c <= 0x10FFFF ==> IsHighSurrogate(r[0]) && IsLowSurrogate(r[1])
  {
    if c > 0xFFFF then
      var d := c - 0x10000;
      [FromCharCode(0xD800 + ToInt32(d) / 0x400), FromCharCode(0xDC00 + d % 0x400)]
    else
      [FromCharCode(c)]
  }

  /** The code point a one- or two-unit string stands for: a single unit is
      itself, and a high surrogate followed by a low surrogate combines into
      a supplementary code point; anything else is not one code point. */
  function DecodeUtf16(s: seq<CodeUnit>): Option<int>
  {
    if |s| == 1 then Some(s[0])
    else if |s| == 2 && IsHighSurrogate(s[0]) && IsLowSurrogate(s[1]) then
      Some(0x10000 + (s[0] as int - 0xD800) * 0x400 + (s[1] as int - 0xDC00))
    else None
  }

  /** Decoding what `fromCodePoint` produced gives the code point back. */
  lemma DecodeOfFromCodePoint(c: int)
    requires 0 <= c <= 0x10FFFF
    ensures DecodeUtf16(FromCodePoint(c)) == Some(c)
  {
    if c > 0xFFFF {
      var d := c - 0x10000;
      assert ToInt32(d) == d;
      assert d == (d / 0x400) * 0x400 + d % 0x400;
    }
  }

  /** Every one- or two-unit string that decodes is what `fromCodePoint`
      writes for its code point, so the encoding is one-to-one and onto. */
  lemma FromCodePointOfDecode(s: seq<CodeUnit>)
    requires DecodeUtf16(s).Some?
    ensures 0 <= DecodeUtf16(s).value <= 0x10FFFF
    ensures FromCodePoint(DecodeUtf16(s).value) == s
  {
    if |s| == 2 {
      var hi: int, lo: int := s[0] as int - 0xD800, s[1] as int - 0xDC00;
      var d: int := hi * 0x400 + lo;
      assert 0 <= lo < 0x400 && 0 <= hi < 0x400;
      assert ToInt32(d) == d;
      DivModUnique(d, hi, lo);
    }
  }

  /** Division by 0x400 recovers the two ten-bit halves of a value. */
  lemma DivModUnique(d: int, hi: int, lo: int)
    requires 0 <= lo < 0x400 && 0 <= hi
    requires d == hi * 0x400 + lo
    ensures d / 0x400 == hi && d % 0x400 == lo
  {
  }

  /** A code point that passes the denylist can be encoded, and its encoding
      is well-formed UTF-16: no lone surrogate unit. */
  lemma ValidEncodesWellFormed(c: int)
    requires IsValidEntityCode(c)
    ensures 0 <= c <= 0x10FFFF
    ensures |FromCodePoint(c)| == 1 ==> !IsHighSurrogate(FromCodePoint(c)[0]) && !IsLowSurrogate(FromCodePoint(c)[0])
  {
  }

  /** The reference values: 0x110000 and 0xD800 are refused, `A` is
      accepted; U+1F600 is written as the pair D83D DE00 and `A` as itself.
      Outside the code point range the encoding is not well-formed: 0x110000
      gives two low surrogates and -1 wraps to the unit FFFF, which is why
      callers check `isValidEntityCode` first. */
  lemma Examples()
    ensures !IsValidEntityCode(0x110000)
    ensures !IsValidEntityCode(0xD800)
    ensures IsValidEntityCode(0x41)
    ensures !IsValidEntityCode(0xFF)
    ensures FromCodePoint(0x1F600) == [0xD83D, 0xDE00]
    ensures FromCodePoint(0x41) == [0x41]
    ensures FromCodePoint(0x110000) == [0xDC00, 0xDC00]
    ensures FromCodePoint(-1) == [0xFFFF]
  {
  }
}
