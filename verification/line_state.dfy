/** The line index a block tokenizer builds over its source text, and the
    scanners that read it: blank-line test, skip of blank lines, forward skip
    of spaces or of a repeated code unit, and the bounded backward skip. */
module LineState {
  import opened Units

  /** The fields of the tokenizer state the helpers read: the source text,
      and per line the offset of its first unit (`bMarks`), the offset just
      past its content (`eMarks`) and the number of leading indentation units
      already measured (`tShift`); `lineMax` bounds the lines to consider. */
  datatype State = State(
    src: seq<CodeUnit>,
    bMarks: seq<int>,
    eMarks: seq<int>,
    tShift: seq<int>,
    lineMax: nat)

  /** The three tables have one entry per line, `lineMax` stays inside them,
      and every line lies inside the text with its measured indentation
      inside the line. */
  predicate Valid(st: State)
  {
    && |st.eMarks| == |st.bMarks|
    && |st.tShift| == |st.bMarks|
    && st.lineMax <= |st.bMarks|
    && forall i :: 0 <= i < |st.bMarks| ==>
         0 <= st.bMarks[i] <= st.bMarks[i] + st.tShift[i] <= st.eMarks[i] <= |st.src|
  }

  /** Only the ASCII space counts as white space; a tab does not. */
  predicate IsWhiteSpace(ch: int)
  {
    ch == 0x20
  }

  /** Line `line` has no content past its measured indentation. */
  predicate IsEmpty(st: State, line: nat)
    requires Valid(st) && line < |st.bMarks|
  {
    st.bMarks[line] + st.tShift[line] >= st.eMarks[line]
  }

  /** The first line at or after `from` that is not empty, or `lineMax` when
      every line up to it is empty; a `from` past `lineMax` comes back as is. */
  function SkipEmptyLines(st: State, from: nat): (r: nat)
    requires Valid(st)
    ensures from <= r
    ensures from <= st.lineMax ==> r <= st.lineMax
    ensures st.lineMax <= from ==> r == from
    ensures forall l :: from <= l < r ==> l < st.lineMax && IsEmpty(st, l)
    ensures r < st.lineMax ==> !IsEmpty(st, r)
    decreases st.lineMax - from
  {
    if from < st.lineMax && IsEmpty(st, from) then SkipEmptyLines(st, from + 1) else from
  }

  /** The offset of the first unit at or after `pos` that is not a space, or
      the end of the text; a `pos` past the end comes back as is. */
  function SkipSpaces(st: State, pos: nat): (r: nat)
    ensures pos <= r
    ensures pos < |st.src| ==> r <= |st.src|
    ensures |st.src| <= pos ==> r == pos
    ensures forall j :: pos <= j < r ==> j < |st.src| && IsWhiteSpace(st.src[j])
    ensures r < |st.src| ==> !IsWhiteSpace(st.src[r])
    decreases |st.src| - pos
  {
    if pos < |st.src| && IsWhiteSpace(st.src[pos]) then SkipSpaces(st, pos + 1) else pos
  }

  /** The offset of the first unit at or after `pos` that differs from
      `code`, or the end of the text; a `pos` past the end comes back as is. */
  function SkipChars(st: State, pos: nat, code: int): (r: nat)
    ensures pos <= r
    ensures pos < |st.src| ==> r <= |st.src|
    ensures |st.src| <= pos ==> r == pos
    ensures forall j :: pos <= j < r ==> j < |st.src| && st.src[j] == code
    ensures r < |st.src| ==> st.src[r] != code
    decreases |st.src| - pos
  {
    if pos < |st.src| && st.src[pos] == code then SkipChars(st, pos + 1, code) else pos
  }

  /** `src.charCodeAt(j) === code`: a position past the end reads as NaN,
      which equals nothing. */
  predicate UnitIs(src: seq<CodeUnit>, j: nat, code: int)
  {
    j < |src| && src[j] == code
  }

  /** Walks back from `pos - 1` over units equal to `code`, never below
      `min`, and returns the offset just after the run; a `pos` at or below
      `min` comes back unchanged. */
  function SkipCharsBack(st: State, pos: nat, code: int, min: nat): (r: nat)
    ensures pos <= min ==> r == pos
    ensures min < pos ==> min <= r <= pos
    ensures forall j :: r <= j < pos ==> UnitIs(st.src, j, code)
    ensures min < r ==> !UnitIs(st.src, r - 1, code)
    decreases pos
  {
    if pos <= min then pos
    else if !UnitIs(st.src, pos - 1, code) then pos
    else SkipCharsBack(st, pos - 1, code, min)
  }

  /** A backward skip followed by a forward skip of the same unit gets back
      at least to where the backward skip started, and never below `min`. */
  lemma BackThenForward(st: State, pos: nat, code: int, min: nat)
    requires min < pos <= |st.src|
    ensures min <= SkipCharsBack(st, pos, code, min)
    ensures pos <= SkipChars(st, SkipCharsBack(st, pos, code, min), code)
  {
  }

  /** Skipping spaces is skipping the unit 0x20: a tab or any other unit
      stops it. */
  lemma SkipSpacesIsSkipChars(st: State, pos: nat)
    ensures SkipSpaces(st, pos) == SkipChars(st, pos, 0x20)
    ensures pos < |st.src| && st.src[pos] == 0x09 ==> SkipSpaces(st, pos) == pos
  {
  }

  /** Skipping blank lines twice is the same as skipping them once. */
  lemma SkipEmptyLinesIdempotent(st: State, from: nat)
    requires Valid(st)
    ensures SkipEmptyLines(st, SkipEmptyLines(st, from)) == SkipEmptyLines(st, from)
  {
  }
}
