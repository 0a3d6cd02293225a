/** Cutting a range of lines back out of the source text, with part of each
    line's measured indentation removed and the final line terminator kept
    or dropped on request. */
module Lines {
  import opened Units
  import opened LineState

  /** Offset where line `l`'s text starts once `min(tShift[l], indent)`
      leading units are removed. */
  function First(st: State, l: nat, indent: nat): nat
    requires Valid(st) && l < |st.bMarks|
  {
    st.bMarks[l] + Min(st.tShift[l], indent)
  }

  /** The slice taken for line `l` of the multi-line range ending before
      `end`: every line keeps one unit past its content (its terminator)
      except the last, which keeps it only when `keepLastLF` is set. Past the
      end of the text the extra unit is clamped away by `slice`. */
  function Piece(st: State, l: nat, end: nat, indent: nat, keepLastLF: bool): seq<CodeUnit>
    requires Valid(st) && l < |st.bMarks|
  {
    var last := if l + 1 < end || keepLastLF then st.eMarks[l] + 1 else st.eMarks[l];
    Slice(st.src, First(st, l, indent), last)
  }

  /** The pieces of lines `[begin, upTo)`, joined in line order with nothing
      in between. */
  function Join(st: State, begin: nat, upTo: nat, end: nat, indent: nat, keepLastLF: bool): seq<CodeUnit>
    requires Valid(st) && begin <= upTo <= |st.bMarks|
    decreases upTo - begin
  {
    if upTo == begin then []
    else Join(st, begin, upTo - 1, end, indent, keepLastLF) + Piece(st, upTo - 1, end, indent, keepLastLF)
  }

  /** The line indices `getLines` reads exist: lines `[begin, end)`, and
      also line `end` when a single line is cut with its terminator kept. */
  predicate RangeOk(st: State, begin: nat, end: nat, keepLastLF: bool)
  {
    begin < end ==> end <= |st.bMarks| && (begin + 1 == end && keepLastLF ==> end < |st.bMarks|)
  }

  /** The text of lines `[begin, end)`. A single line ends at its content end,
      or at the start of the next line when its terminator is kept; a longer
      range is the join of its pieces. */
  function LinesText(st: State, begin: nat, end: nat, indent: nat, keepLastLF: bool): seq<CodeUnit>
    requires Valid(st) && RangeOk(st, begin, end, keepLastLF)
  {
    if begin >= end then []
    else if begin + 1 == end then
      Slice(st.src, First(st, begin, indent), if keepLastLF then st.bMarks[end] else st.eMarks[end - 1])
    else Join(st, begin, end, end, indent, keepLastLF)
  }

  /** `getLines(state, begin, end, indent, keepLastLF)`: the single-line
      shortcut, then the loop that fills the queue line by line and joins it. */
  method GetLines(st: State, begin: nat, end: nat, indent: nat, keepLastLF: bool) returns (r: seq<CodeUnit>)
    requires Valid(st) && RangeOk(st, begin, end, keepLastLF)
    ensures r == LinesText(st, begin, end, indent, keepLastLF)
  {
    var line := begin;
    if begin >= end {
      return [];
    }
    if line + 1 == end {
      var first := First(st, line, indent);
      var last := if keepLastLF then st.bMarks[end] else st.eMarks[end - 1];
      return Slice(st.src, first, last);
    }
    r := [];
    while line < end
      invariant begin <= line <= end
      invariant r == Join(st, begin, line, end, indent, keepLastLF)
    {
      var first: nat := First(st, line, indent);
      var last: nat := if line + 1 < end || keepLastLF then st.eMarks[line] + 1 else st.eMarks[line];
      var piece := Slice(st.src, first, last);
      assert piece == Piece(st, line, end, indent, keepLastLF);
      r := r + piece;
      line := line + 1;
    }
  }

  /** A line is empty exactly when cutting it alone, with all of its measured
      indentation removed and without its terminator, gives no text. */
  lemma EmptyIffNoText(st: State, l: nat)
    requires Valid(st) && l < |st.bMarks|
    ensures LinesText(st, l, l + 1, st.tShift[l], false) == [] <==> IsEmpty(st, l)
  {
  }

  /** Line `l` is followed directly by line `l + 1` after a one-unit
      terminator, or both end at the end of the text. */
  predicate Adjacent(st: State, l: nat)
    requires Valid(st) && l + 1 < |st.bMarks|
  {
    Min(st.eMarks[l] + 1, |st.src|) == st.bMarks[l + 1]
  }

  /** The pieces of adjacent lines cut without indentation stripping and with
      terminators kept are the verbatim text from the first line's start to
      the start of the line after them. */
  lemma {:induction false} JoinAdjacent(st: State, begin: nat, upTo: nat, end: nat)
    requires Valid(st) && begin <= upTo < |st.bMarks|
    requires forall l :: begin <= l < upTo ==> Adjacent(st, l)
    ensures st.bMarks[begin] <= st.bMarks[upTo]
    ensures Join(st, begin, upTo, end, 0, true) == st.src[st.bMarks[begin]..st.bMarks[upTo]]
    decreases upTo - begin
  {
    if upTo > begin {
      var l := upTo - 1;
      JoinAdjacent(st, begin, l, end);
      AdjacentPiece(st, l, end);
      SplitSlice(st.src, st.bMarks[begin], st.bMarks[l], st.bMarks[upTo]);
    }
  }

  /** Without indentation stripping, the piece of an adjacent line is the
      verbatim text up to the next line's start, or up to its own content end
      when it is the last line and drops its terminator. */
  lemma AdjacentPiece(st: State, l: nat, end: nat)
    requires Valid(st) && l + 1 < |st.bMarks| && Adjacent(st, l)
    ensures st.bMarks[l] <= st.eMarks[l] <= st.bMarks[l + 1] <= |st.src|
    ensures Piece(st, l, end, 0, true) == st.src[st.bMarks[l]..st.bMarks[l + 1]]
    ensures l + 1 == end ==> Piece(st, l, end, 0, false) == st.src[st.bMarks[l]..st.eMarks[l]]
  {
    assert 0 <= st.bMarks[l] <= st.eMarks[l] <= |st.src|;
  }

  /** Two consecutive slices of a text make up the slice over both ranges. */
  lemma SplitSlice(s: seq<CodeUnit>, a: nat, b: nat, c: nat)
    requires a <= b <= c <= |s|
    ensures s[a..b] + s[b..c] == s[a..c]
  {
  }

  /** Over lines laid out one after another, the single-line shortcut and the
      multi-line loop agree: without indentation stripping the result is the
      verbatim source from the first line's start to the next line's start
      (terminator kept) or to the last line's content end (terminator
      dropped). The `+ 1` past the final line's end is harmless because
      `slice` clamps it to the end of the text. */
  lemma ContiguousLines(st: State, begin: nat, end: nat, keepLastLF: bool)
    requires Valid(st) && begin < end < |st.bMarks|
    requires forall l :: begin <= l < end ==> Adjacent(st, l)
    ensures LinesText(st, begin, end, 0, keepLastLF)
         == Slice(st.src, st.bMarks[begin], if keepLastLF then st.bMarks[end] else st.eMarks[end - 1])
  {
    if begin + 1 < end {
      ContiguousMany(st, begin, end, keepLastLF);
    } else {
      assert First(st, begin, 0) == st.bMarks[begin];
    }
  }

  /** The multi-line case of `ContiguousLines`: the join of the pieces. */
  lemma ContiguousMany(st: State, begin: nat, end: nat, keepLastLF: bool)
    requires Valid(st) && begin + 1 < end < |st.bMarks|
    requires forall l :: begin <= l < end ==> Adjacent(st, l)
    ensures Join(st, begin, end, end, 0, keepLastLF)
         == Slice(st.src, st.bMarks[begin], if keepLastLF then st.bMarks[end] else st.eMarks[end - 1])
  {
    var l := end - 1;
    JoinAdjacent(st, begin, l, end);
    JoinKeepIrrelevant(st, begin, l, end, keepLastLF);
    assert Join(st, begin, end, end, 0, keepLastLF)
        == Join(st, begin, l, end, 0, true) + Piece(st, l, end, 0, keepLastLF);
    AdjacentPiece(st, l, end);
    var stop := if keepLastLF then st.bMarks[end] else st.eMarks[l];
    SplitSlice(st.src, st.bMarks[begin], st.bMarks[l], stop);
  }

  /** Before the last line, the `keepLastLF` flag makes no difference. */
  lemma {:induction false} JoinKeepIrrelevant(st: State, begin: nat, upTo: nat, end: nat, keepLastLF: bool)
    requires Valid(st) && begin <= upTo < end <= |st.bMarks|
    ensures Join(st, begin, upTo, end, 0, keepLastLF) == Join(st, begin, upTo, end, 0, true)
    decreases upTo - begin
  {
    if upTo > begin {
      JoinKeepIrrelevant(st, begin, upTo - 1, end, keepLastLF);
    }
  }

  /** The three lines "  foo\n  bar\n  baz\n", each with two measured
      indentation units, plus the sentinel entry for the end of the text. */
  const Sample := State(
    [0x20, 0x20, 0x66, 0x6F, 0x6F, 0x0A,
     0x20, 0x20, 0x62, 0x61, 0x72, 0x0A,
     0x20, 0x20, 0x62, 0x61, 0x7A, 0x0A],
    [0, 6, 12, 18],
    [5, 11, 17, 18],
    [2, 2, 2, 0],
    3)

  /** The sample respects the line-table invariant and its lines follow one
      another. */
  lemma SampleValid()
    ensures Valid(Sample)
    ensures forall l :: 0 <= l < 3 ==> Adjacent(Sample, l)
  {
  }

  /** Cutting the three sample lines with an indentation budget of 2 gives
      "foo\nbar\nbaz". */
  lemma SampleIndented()
    ensures Valid(Sample)
    ensures LinesText(Sample, 0, 3, 2, false)
         == [0x66, 0x6F, 0x6F, 0x0A, 0x62, 0x61, 0x72, 0x0A, 0x62, 0x61, 0x7A]
  {
    SampleValid();
    SamplePieces();
    assert LinesText(Sample, 0, 3, 2, false)
        == Piece(Sample, 0, 3, 2, false) + Piece(Sample, 1, 3, 2, false) + Piece(Sample, 2, 3, 2, false);
  }

  /** The three sample lines cut one by one with two units stripped. */
  lemma SamplePieces()
    ensures Valid(Sample)
    ensures Piece(Sample, 0, 3, 2, false) == [0x66, 0x6F, 0x6F, 0x0A]
    ensures Piece(Sample, 1, 3, 2, false) == [0x62, 0x61, 0x72, 0x0A]
    ensures Piece(Sample, 2, 3, 2, false) == [0x62, 0x61, 0x7A]
  {
    SampleValid();
    var src := Sample.src;
    assert src[2..6] == [0x66, 0x6F, 0x6F, 0x0A];
    assert src[8..12] == [0x62, 0x61, 0x72, 0x0A];
    assert src[14..17] == [0x62, 0x61, 0x7A];
  }

  /** With an indentation budget of 0 nothing is stripped:
      "  foo\n  bar\n  baz". */
  lemma SampleUnindented()
    ensures Valid(Sample)
    ensures LinesText(Sample, 0, 3, 0, false) == Sample.src[..17]
  {
    SampleValid();
    ContiguousLines(Sample, 0, 3, false);
  }
}
