/** Removal of Markdown backslash escapes: a backslash followed by an ASCII
    punctuation character stands for that character. */
module Unescape {
  import opened Units

  const BACKSLASH := 0x5C

  /** The character class of the unescape pattern, member by member:
      \ ! " # $ % & ' ( ) * + , . / : ; < = > ? @ [ ] ^ _ ` { | } ~ - */
  const Escapable: set<int> := {
    0x5C, 0x21, 0x22, 0x23, 0x24, 0x25, 0x26, 0x27, 0x28, 0x29, 0x2A, 0x2B,
    0x2C, 0x2E, 0x2F, 0x3A, 0x3B, 0x3C, 0x3D, 0x3E, 0x3F, 0x40, 0x5B, 0x5D,
    0x5E, 0x5F, 0x60, 0x7B, 0x7C, 0x7D, 0x7E, 0x2D }

  /** ASCII punctuation: the printable ASCII characters that are neither
      letters, digits nor the space. */
  predicate IsAsciiPunctuation(c: int)
  {
    || 0x21 <= c <= 0x2F
    || 0x3A <= c <= 0x40
    || 0x5B <= c <= 0x60
    || 0x7B <= c <= 0x7E
  }

  /** The escapable set is exactly the ASCII punctuation. */
  lemma EscapableIsAsciiPunctuation(c: int)
    ensures c in Escapable <==> IsAsciiPunctuation(c)
  {
  }

  /** `str.replace(UNESCAPE_MD_RE, '$1')`, as the global match proceeds:
      from left to right, a backslash followed by an escapable character is
      replaced by that character and scanning resumes after both; any other
      unit is copied and scanning resumes at the next one. */
  function Unescape(s: seq<CodeUnit>): (r: seq<CodeUnit>)
    ensures |r| <= |s|
    ensures BACKSLASH !in s ==> r == s
    decreases |s|
  {
    if s == [] then []
    else if s[0] == BACKSLASH && |s| >= 2 && s[1] in Escapable then [s[1]] + Unescape(s[2..])
    else [s[0]] + Unescape(s[1..])
  }

  /** `unescapeMd(str)`: text without a backslash is returned as it is, which
      is what the full scan would give anyway. */
  function UnescapeMd(s: seq<CodeUnit>): (r: seq<CodeUnit>)
    ensures r == Unescape(s)
    ensures |r| <= |s|
  {
    if BACKSLASH !in s then s else Unescape(s)
  }

  /** Backslash-escaping of every escapable character, as a writer of
      Markdown source would do it (the inverse direction, not part of the
      helpers). */
  function EscapeMd(s: seq<CodeUnit>): seq<CodeUnit>
  {
    if s == [] then []
    else (if s[0] in Escapable then [BACKSLASH, s[0]] else [s[0]]) + EscapeMd(s[1..])
  }

  /** Unescaping text whose escapable characters were all escaped gives the
      original text back. */
  lemma {:induction false} UnescapeOfEscapeMd(s: seq<CodeUnit>)
    ensures UnescapeMd(EscapeMd(s)) == s
    decreases |s|
  {
    if s != [] {
      UnescapeOfEscapeMd(s[1..]);
      var e := EscapeMd(s);
      if s[0] in Escapable {
        assert e == [BACKSLASH, s[0]] + EscapeMd(s[1..]);
        assert e[2..] == EscapeMd(s[1..]);
      } else {
        assert e == [s[0]] + EscapeMd(s[1..]);
        assert e[1..] == EscapeMd(s[1..]);
      }
      assert s == [s[0]] + s[1..];
    }
  }

  /** A backslash before a letter stays; an escaped backslash is consumed
      together with its backslash, so it does not escape the unit after it:
      the text `\a` stays as it is and the text `\\*` becomes `\*`. */
  lemma UnescapeExamples()
    ensures UnescapeMd([0x5C, 0x61]) == [0x5C, 0x61]
    ensures UnescapeMd([0x5C, 0x5C, 0x2A]) == [0x5C, 0x2A]
  {
    assert [0x5C, 0x61][1..] == [0x61];
    assert [0x5C, 0x5C, 0x2A][2..] == [0x2A];
  }
}
