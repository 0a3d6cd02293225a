/** Shared vocabulary of the helpers: JavaScript strings as sequences of
    UTF-16 code units, an optional value, and `String.prototype.slice`. */
module Units {

  /** One UTF-16 code unit, the element of a JavaScript string
      (what `charCodeAt` returns for an in-range position). */
  type CodeUnit = x: int | 0 <= x < 0x10000

  /** The ampersand, which starts every character reference. */
  const AMP := 0x26

  /** A value that may be absent. */
  datatype Option<+T> = None | Some(value: T)

  /** `s.slice(first, last)` for non-negative arguments: both ends are
      clamped to the length of `s`, and a range with `first >= last` is empty. */
  function Slice(s: seq<CodeUnit>, first: nat, last: nat): (r: seq<CodeUnit>)
    ensures first <= last <= |s| ==> r == s[first..last]
    ensures last <= first ==> r == []
    ensures |r| <= |s|
  {
    var f := if first < |s| then first else |s|;
    var l := if last < |s| then last else |s|;
    if f >= l then [] else s[f..l]
  }

  /** `Math.min` on integers. */
  function Min(a: int, b: int): int
  {
    if a < b then a else b
  }
}
