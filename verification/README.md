# markdown-it parser helpers in Dafny

This project models `lib/helpers.js` of markdown-it: the pure helper
functions that the block and inline rules of the parser call. It proves
properties about them. The helpers fall into four groups.

- **Line scanners**: `isWhiteSpace`, `isEmpty`, `skipEmptyLines`,
  `skipSpaces`, `skipChars` and `skipCharsBack`. They read the source text
  and the per-line tables of the block tokenizer state (module `LineState`).
- **Line extraction**: `getLines` cuts a range of lines back out of the
  source. For each line it removes part of the measured indentation, and it
  keeps or drops the last line terminator on request (module `Lines`).
- **Text transforms**:
  - `escapeHtml` (module `Escape`);
  - `unescapeMd` (module `Unescape`);
  - `replaceEntities` (module `Entities`).
- **Numeric references**: `isValidEntityCode` and `fromCodePoint`
  (module `CodePoints`).

JavaScript strings are modelled as sequences of UTF-16 code units, each an
integer in `0..0xFFFF` (`Units.CodeUnit`). `String.prototype.slice` is
`Units.Slice`: both ends are clamped to the length, and a range with
`first >= last` gives the empty string.

The regular-expression replacements are written as explicit left-to-right
scans. Each scan resumes after the text it consumed, which is how a global
`replace` proceeds. `getLines` is a method with the loop of the source. It
is proved equal to the functional definition `Lines.LinesText`.

Two details of the code that the model follows as written:

- Entity name length. The pattern at lib/helpers.js:130 is
  `&([a-z][a-z0-9]{1,31});`, so a name has between 2 and 32 units.
  `Entities.MatchesAt` uses 2..32.
- Rejected byte values. Under the comment `// broken sequence`
  (lib/helpers.js:103), `isValidEntityCode` rejects the surrogates and also
  0xF5..0xFF, 0xC0 and 0xC1. These values are also ordinary Latin-1 code
  points, so for example U+00FF (`ÿ`) is refused as a numeric reference.
  The model follows the code, and `CodePoints.Examples` records this case.

## Model

| member | source | states |
|---|---|---|
| LineState.SkipEmptyLines | lib/helpers.js:11-23 | From a start line at or below `lineMax`, it returns the first line that is not empty (content past its indentation), or `lineMax`. Every line it skips is empty. A start past `lineMax` is returned as is. |
| LineState.SkipEmptyLinesIdempotent | lib/helpers.js:16-23 | Skipping blank lines a second time does not move further. |
| LineState.SkipSpaces | lib/helpers.js:26-31 | From a position inside the text, it returns the first offset at or after it that is not a space, or the end of the text. Every unit skipped is a space. A position past the end is returned as is. |
| LineState.SkipSpacesIsSkipChars | lib/helpers.js:6-8 | `isWhiteSpace` is the predicate `LineState.IsWhiteSpace`. Skipping spaces is exactly skipping the unit 0x20. A tab is not white space and stops the skip. |
| LineState.SkipChars | lib/helpers.js:34-39 | From a position inside the text, it returns the first offset at or after it whose unit differs from `code`, or the end of the text. Every unit skipped equals `code`. |
| LineState.SkipCharsBack | lib/helpers.js:42-49 | A position at or below `min` is returned unchanged. Otherwise the result lies in `[min, pos]` and every unit from it up to `pos` equals `code`. When the result is above `min`, the unit before it differs (a unit past the end reads as NaN and so differs). |
| LineState.BackThenForward | lib/helpers.js:34-49 | A backward skip followed by a forward skip of the same unit reaches at least the starting position. The backward skip never goes below `min`. |
| Lines.GetLines | lib/helpers.js:52-83 | The loop fills the queue and joins it. Its result equals `LinesText`: empty for an empty range; for one line, the slice from the stripped start to `bMarks[end]` or `eMarks[end-1]`; otherwise each line's stripped slice up to one past its end, except the last line without `keepLastLF`. |
| Lines.EmptyIffNoText | lib/helpers.js:11-13 | `isEmpty` is the predicate `LineState.IsEmpty`. Cutting a single line with all of its indentation removed and without its terminator gives the empty string exactly when `isEmpty` holds for that line. |
| Lines.ContiguousLines | lib/helpers.js:60-82 | For lines that follow each other with one-unit terminators and no indentation stripping, both paths return the verbatim source. That source runs from the first line's start to the next line's start (terminator kept) or to the last line's content end (dropped). The `+ 1` past the final line is clamped by `slice`. |
| Lines.SampleIndented | lib/helpers.js:52-83 | Cutting `"  foo\n  bar\n  baz\n"` with an indentation budget of 2 gives `"foo\nbar\nbaz"`. |
| Lines.SampleUnindented | lib/helpers.js:52-83 | With budget 0, the same lines come back verbatim without the final line feed. |
| Escape.ReplaceAll | lib/helpers.js:87-90 | One `replace(/c/g, rep)` call: text without `c` is unchanged, and a replacement of at least one unit never shortens the text. Its partner lemma `ReplaceAllAppend` shows that the replacement distributes over concatenation. |
| Escape.EscapeHtml | lib/helpers.js:86-92 | Text without `&`, `<`, `>` and `"` is returned unchanged. The result is never shorter than the input. |
| Escape.EscapeHtmlIsUnitMap | lib/helpers.js:86-92 | The four guarded sequential replacements equal one per-unit map: `&` to `&amp;`, `<` to `&lt;`, `>` to `&gt;`, `"` to `&quot;`. The output contains no `<`, `>` or `"`. |
| Escape.EscapeHtmlInjective | lib/helpers.js:86-92 | Different texts escape to different texts. |
| Unescape.Unescape | lib/helpers.js:94-98 | The global replacement with `UNESCAPE_MD_RE`: the output is never longer than the input, and text without a backslash is unchanged. |
| Unescape.UnescapeMd | lib/helpers.js:96-99 | The no-backslash shortcut agrees with the full scan. The output is never longer than the input. |
| Unescape.UnescapeOfEscapeMd | lib/helpers.js:94-99 | Putting a backslash before every escapable character and then unescaping gives the original text. |
| Unescape.EscapableIsAsciiPunctuation | lib/helpers.js:94 | The character class of the unescape pattern is exactly the ASCII punctuation. |
| Unescape.UnescapeExamples | lib/helpers.js:94-99 | `\a` stays as it is. `\\*` becomes `\*`, because matches do not overlap. |
| CodePoints.ValidIffAllowed | lib/helpers.js:101-116 | `isValidEntityCode` is the predicate `CodePoints.IsValidEntityCode`. The denylist, checked in source order with `c & 0xFFFF` taken as the low 16 bits, accepts exactly these ranges: 0x20-0x7E, 0xA0-0xBF, 0xC2-0xF4, 0x100-0xD7FF, 0xE000-0xFDCF, 0xFDF0-0xFFFD, and each supplementary plane without its last two code points. |
| CodePoints.ValidEncodesWellFormed | lib/helpers.js:101-128 | A value that passes the denylist is a code point. A value that encodes to one unit does not encode to a lone surrogate. |
| CodePoints.FromCodePoint | lib/helpers.js:118-128 | A value up to 0xFFFF is one unit, reduced modulo 2^16. A value above 0xFFFF gives two units. For a supplementary code point these are a high surrogate followed by a low surrogate. |
| CodePoints.ToInt32 | lib/helpers.js:122-123 | The 32-bit conversion before `>>` and `&` lands in the signed 32-bit range and is congruent to its argument modulo 2^32. |
| CodePoints.DecodeOfFromCodePoint | lib/helpers.js:118-128 | Decoding the output of `fromCodePoint` returns the code point, for every code point. |
| CodePoints.FromCodePointOfDecode | lib/helpers.js:118-128 | Every single unit, and every high-low surrogate pair, is what `fromCodePoint` writes for the code point it decodes to. |
| CodePoints.Examples | lib/helpers.js:101-128 | 0x110000, 0xD800 and 0xFF are refused and `A` is accepted. U+1F600 becomes D83D DE00. 0x110000 becomes DC00 DC00 and -1 becomes FFFF. |
| Entities.AlnumRun | lib/helpers.js:130 | The greedy bounded repetition `[a-z0-9]{0,cap}`: it returns the longest run of ASCII letters or digits of at most `cap` units. |
| Entities.NameAt | lib/helpers.js:130 | Every name length the scanner reports is a match of `&([a-z][a-z0-9]{1,31});` at that offset. `NameAtComplete` gives the converse. |
| Entities.NameAtComplete | lib/helpers.js:130 | Wherever `&name;` matches the pattern, the scanner finds that match with that name length. |
| Entities.MatchStep | lib/helpers.js:133-142 | The replacement callback is modelled by `Entities.Replace`. At a match, the match is replaced by the table's text when its name is a key of the table. Otherwise it is kept verbatim. The scan resumes after the `;`. |
| Entities.CopyStepUnmatched | lib/helpers.js:133-142 | Where no match starts, the unit is copied and the scan moves on by one. |
| Entities.ReplaceEntities | lib/helpers.js:133-142 | The no-`&` shortcut agrees with the full scan, and text without `&` is returned unchanged. |
| Entities.NoAmpUnchanged | lib/helpers.js:134 | The full scan leaves text without `&` unchanged. |
| Entities.UnknownNamesKept | lib/helpers.js:136-141 | Text in which no match names a key of the table comes out unchanged: unknown names pass through verbatim. |
| Entities.EmptyTableIdentity | lib/helpers.js:133-142 | With an empty table, every text is unchanged. |
| Entities.AmpExample | lib/helpers.js:133-142 | With `amp` mapped to `&`, `&amp;` becomes `&`. |
| Entities.NoDoubleDecoding | lib/helpers.js:133-142 | `&amp;lt;` becomes `&lt;`, because the `&` that is produced is not scanned again. |
| Entities.UnknownExample | lib/helpers.js:136-141 | `&nosuchname;` matches, but its name is not a key, so it is kept. |

## Left out

- The contents of the entity table (`require('./common/entities')` at
  lib/helpers.js:131). `common/entities` is not part of this model. The
  table is a parameter of type `map<seq<CodeUnit>, seq<CodeUnit>>`, and the
  `hasOwnProperty` lookup is map membership.
- The regular-expression engine and `String.prototype.replace`. They are
  replaced by explicit scans over code units that mirror the two patterns.
- The `indexOf` fast paths are kept only for their observable result. The
  model proves that they agree with the full computation; their speed is
  not modelled.
- JavaScript numbers that are not integers, and NaN as an argument. Every
  numeric argument is an integer, and every position and line number is a
  natural number. Negative arguments to `slice`, which count from the end,
  are therefore not modelled.
- The tokenizer state is reduced to `src`, `bMarks`, `eMarks`, `tShift` and
  `lineMax`; its other fields are not read by the helpers.
- `LineState.Valid` is assumed by `isEmpty`, `skipEmptyLines` and
  `getLines`. The source reads the line tables without checking them.
  Indices outside the tables, which would read `undefined`, are not
  modelled.
- `Lines.GetLines` builds its result by accumulation, not in a
  pre-allocated queue array. The array and `join('')` produce the same
  concatenation.
- The `exports` assignments and `'use strict'` (lib/helpers.js:144-155)
  are module wiring.
