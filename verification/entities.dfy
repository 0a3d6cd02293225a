/** Named character references: `&name;` in text is replaced by the text
    the entity table gives for `name`; names the table does not know stay as
    they are. */
module Entities {
  import opened Units

  const SEMI := 0x3B  // ;

  /** The longest name the pattern accepts: a letter and up to 31 more
      letters or digits. */
  const MaxName := 32

  /** The entity table: name to replacement text, looked up case-sensitively
      and only among its own keys. */
  type Table = map<seq<CodeUnit>, seq<CodeUnit>>

  /** `[a-z]` under the case-insensitive flag: an ASCII letter of either case. */
  predicate IsLetter(c: int)
  {
    0x41 <= c <= 0x5A || 0x61 <= c <= 0x7A
  }

  /** `[a-z0-9]` under the case-insensitive flag. */
  predicate IsAlnum(c: int)
  {
    IsLetter(c) || 0x30 <= c <= 0x39
  }

  /** `s[i..]` starts with `&`, a name of `n` units (a letter, then letters
      or digits, `2 <= n <= 32`) and `;`: what the pattern
      `&([a-z][a-z0-9]{1,31});` matches there. */
  predicate MatchesAt(s: seq<CodeUnit>, i: nat, n: nat)
  {
    && 2 <= n <= MaxName
    && i + n + 1 < |s|
    && s[i] == AMP
    && IsLetter(s[i + 1])
    && (forall k :: i + 2 <= k < i + 1 + n ==> IsAlnum(s[k]))
    && s[i + 1 + n] == SEMI
  }

  /** A pattern match at one offset has only one length: `;` is not a
      letter or digit. */
  lemma MatchLengthUnique(s: seq<CodeUnit>, i: nat, n: nat, m: nat)
    requires MatchesAt(s, i, n) && MatchesAt(s, i, m)
    ensures n == m
  {
  }

  /** The number of letters or digits starting at `j`, counting at most
      `cap`: the greedy bounded repetition. */
  function AlnumRun(s: seq<CodeUnit>, j: nat, cap: nat): (n: nat)
    ensures n <= cap
    ensures n == 0 || j + n <= |s|
    ensures forall k :: j <= k < j + n ==> IsAlnum(s[k])
    ensures n < cap ==> j + n >= |s| || !IsAlnum(s[j + n])
    decreases cap
  {
    if cap == 0 || j >= |s| || !IsAlnum(s[j]) then 0
    else
      var rest := AlnumRun(s, j + 1, cap - 1);
      assert forall k :: j + 1 <= k < j + 1 + rest ==> IsAlnum(s[k]);
      1 + rest
  }

  /** The length of the name the pattern matches at offset `i`, if it
      matches there. */
  function NameAt(s: seq<CodeUnit>, i: nat): (m: Option<nat>)
    ensures m.Some? ==> MatchesAt(s, i, m.value)
  {
    if i + 1 < |s| && s[i] == AMP && IsLetter(s[i + 1]) then
      var k := AlnumRun(s, i + 2, MaxName - 1);
      if 1 <= k && i + 2 + k < |s| && s[i + 2 + k] == SEMI then Some(k + 1) else None
    else None
  }

  /** Whenever the pattern matches at `i`, `NameAt` finds that match. */
  lemma NameAtComplete(s: seq<CodeUnit>, i: nat, n: nat)
    requires MatchesAt(s, i, n)
    ensures NameAt(s, i) == Some(n)
  {
  }

  /** How far one step of the scan advances: past the whole match, or by one
      unit where no match starts. */
  function Advance(s: seq<CodeUnit>): (d: nat)
    requires s != []
    ensures 1 <= d <= |s|
  {
    match NameAt(s, 0)
    case Some(n) => n + 2
    case None => 1
  }

  /** What one step of the scan writes: for a match, the table's text for
      the name, or the match itself when the table has no such key (the
      lookup is `hasOwnProperty`, so only the table's own keys count); where
      no match starts, the front unit. */
  function Front(s: seq<CodeUnit>, table: Table): seq<CodeUnit>
    requires s != []
  {
    match NameAt(s, 0)
    case Some(n) => if s[1..1 + n] in table then table[s[1..1 + n]] else s[..n + 2]
    case None => [s[0]]
  }

  /** The global replacement, as it proceeds from left to right: each step
      writes its output and resumes after what it consumed, so replacement
      text is never scanned again. */
  function Replace(s: seq<CodeUnit>, table: Table): seq<CodeUnit>
    decreases |s|
  {
    if s == [] then [] else Front(s, table) + Replace(s[Advance(s)..], table)
  }

  /** Text without `&` has no match anywhere, so the scan copies it. */
  lemma {:induction false} NoAmpUnchanged(s: seq<CodeUnit>, table: Table)
    requires AMP !in s
    ensures Replace(s, table) == s
    decreases |s|
  {
    if s != [] {
      assert s[0] != AMP;
      assert AMP !in s[1..];
      NoAmpUnchanged(s[1..], table);
      assert s == [s[0]] + s[1..];
    }
  }

  /** `replaceEntities(str)`: text without `&` is returned as it is, which
      is what the full scan would give anyway. */
  function ReplaceEntities(s: seq<CodeUnit>, table: Table): (r: seq<CodeUnit>)
    ensures r == Replace(s, table)
    ensures AMP !in s ==> r == s
  {
    if AMP !in s then NoAmpUnchanged(s, table); s else Replace(s, table)
  }

  /** Where the pattern matches at the front, the match is replaced by the
      table's text for its name when the table has the name, is kept
      verbatim when it does not, and the scan resumes right after the `;`. */
  lemma {:induction false} MatchStep(s: seq<CodeUnit>, table: Table, n: nat)
    requires MatchesAt(s, 0, n)
    ensures Replace(s, table)
         == (if s[1..1 + n] in table then table[s[1..1 + n]] else s[..n + 2]) + Replace(s[n + 2..], table)
  {
    NameAtComplete(s, 0, n);
    FoundStep(s, table, n);
  }

  /** One step of the scan once the front match is found. */
  lemma FoundStep(s: seq<CodeUnit>, table: Table, n: nat)
    requires s != [] && NameAt(s, 0) == Some(n)
    ensures n + 2 <= |s|
    ensures Replace(s, table)
         == (if s[1..1 + n] in table then table[s[1..1 + n]] else s[..n + 2]) + Replace(s[n + 2..], table)
  {
    FrontFound(s, table, n);
    ReplaceUnfold(s, table);
  }

  /** What the scan writes and how far it advances at a found match. */
  lemma FrontFound(s: seq<CodeUnit>, table: Table, n: nat)
    requires s != [] && NameAt(s, 0) == Some(n)
    ensures n + 2 <= |s| && Advance(s) == n + 2
    ensures Front(s, table) == if s[1..1 + n] in table then table[s[1..1 + n]] else s[..n + 2]
  {
  }

  /** The scan writes one step's output and goes on after it. */
  lemma ReplaceUnfold(s: seq<CodeUnit>, table: Table)
    requires s != []
    ensures Replace(s, table) == Front(s, table) + Replace(s[Advance(s)..], table)
  {
  }

  /** Where the pattern does not match at the front, the front unit is
      copied and the scan resumes at the next unit. */
  lemma CopyStepUnmatched(s: seq<CodeUnit>, table: Table)
    requires s != []
    requires forall n :: 0 <= n <= MaxName ==> !MatchesAt(s, 0, n)
    ensures Replace(s, table) == [s[0]] + Replace(s[1..], table)
  {
    match NameAt(s, 0)
    case Some(n) =>
      assert false;
    case None =>
  }

  /** The pattern matches at `i` with a name of length `n` that the table
      knows. */
  predicate KnownMatch(s: seq<CodeUnit>, table: Table, i: nat, n: nat)
  {
    MatchesAt(s, i, n) && s[i + 1..i + 1 + n] in table
  }

  /** The pattern matches nowhere in `s` at a name the table knows. */
  predicate NoKnownName(s: seq<CodeUnit>, table: Table)
  {
    forall i, n :: 0 <= i < |s| && 0 <= n <= MaxName ==> !KnownMatch(s, table, i, n)
  }

  /** Text in which no match names a key of the table comes out unchanged:
      unknown names pass through verbatim and everything between matches
      is copied. */
  lemma {:induction false} UnknownNamesKept(s: seq<CodeUnit>, table: Table)
    requires NoKnownName(s, table)
    ensures Replace(s, table) == s
    decreases |s|
  {
    if s != [] {
      var d := Advance(s);
      KeptStep(s, table);
      UnknownNamesKept(s[d..], table);
    }
  }

  /** One step of the scan over text without known names copies what it
      advances over and leaves text without known names. */
  lemma KeptStep(s: seq<CodeUnit>, table: Table)
    requires s != [] && NoKnownName(s, table)
    ensures NoKnownName(s[Advance(s)..], table)
    ensures Replace(s, table) == s[..Advance(s)] + Replace(s[Advance(s)..], table)
    ensures s[..Advance(s)] + s[Advance(s)..] == s
  {
    CopyStep(s, table);
    SuffixNoKnownName(s, Advance(s), table);
  }

  /** One step of the scan when the front is not a known name copies the
      units it advances over. */
  lemma CopyStep(s: seq<CodeUnit>, table: Table)
    requires s != [] && NoKnownName(s, table)
    ensures Front(s, table) == s[..Advance(s)]
  {
    match NameAt(s, 0)
    case Some(n) =>
      assert !KnownMatch(s, table, 0, n);
    case None =>
      assert s[..1] == [s[0]];
  }

  /** A match inside a suffix is a match inside the whole text. */
  lemma SuffixNoKnownName(s: seq<CodeUnit>, d: nat, table: Table)
    requires d <= |s| && NoKnownName(s, table)
    ensures NoKnownName(s[d..], table)
  {
    var t := s[d..];
    forall i, n | 0 <= i < |t| && 0 <= n <= MaxName
      ensures !KnownMatch(t, table, i, n)
    {
      assert !KnownMatch(s, table, i + d, n);
      if MatchesAt(t, i, n) {
        assert MatchesAt(s, i + d, n);
        assert t[i + 1..i + 1 + n] == s[i + d + 1..i + d + 1 + n];
      }
    }
  }

  /** With an empty table every text comes out unchanged. */
  lemma EmptyTableIdentity(s: seq<CodeUnit>)
    ensures ReplaceEntities(s, map[]) == s
  {
    UnknownNamesKept(s, map[]);
  }

  /** A table with `amp` mapped to `&`. */
  const AmpTable: Table := map[[0x61, 0x6D, 0x70] := [0x26]]

  /** `&amp;` becomes `&`. */
  lemma AmpExample()
    ensures ReplaceEntities([0x26, 0x61, 0x6D, 0x70, 0x3B], AmpTable) == [0x26]
  {
    var amp: seq<CodeUnit> := [0x26, 0x61, 0x6D, 0x70, 0x3B];
    NameAtComplete(amp, 0, 3);
    assert amp[1..4] == [0x61, 0x6D, 0x70];
    assert Front(amp, AmpTable) == [0x26];
    assert Advance(amp) == 5;
  }

  /** The text `&amp;lt;`. */
  const AmpLt: seq<CodeUnit> := [0x26, 0x61, 0x6D, 0x70, 0x3B, 0x6C, 0x74, 0x3B]

  /** The scan of `&amp;lt;` starts with the match `&amp;`, replaced by
      `&`, and resumes at `lt;`. */
  lemma AmpLtFront()
    ensures Advance(AmpLt) == 5
    ensures Front(AmpLt, AmpTable) == [0x26]
    ensures AmpLt[5..] == [0x6C, 0x74, 0x3B]
  {
    NameAtComplete(AmpLt, 0, 3);
    assert AmpLt[1..4] == [0x61, 0x6D, 0x70];
  }

  /** In `&amp;lt;` only the first reference is replaced, giving `&lt;`: the
      `&` it produces is not scanned again. */
  lemma NoDoubleDecoding()
    ensures ReplaceEntities(AmpLt, AmpTable) == [0x26, 0x6C, 0x74, 0x3B]
  {
    AmpLtFront();
    var tail := AmpLt[5..];
    NoAmpUnchanged(tail, AmpTable);
    assert Replace(AmpLt, AmpTable) == [0x26] + Replace(tail, AmpTable);
  }

  /** `&nosuchname;` is a match whose name is not a key, so it is kept. */
  lemma UnknownExample()
    ensures ReplaceEntities([0x26, 0x6E, 0x6F, 0x73, 0x75, 0x63, 0x68, 0x6E, 0x61, 0x6D, 0x65, 0x3B], AmpTable)
         == [0x26, 0x6E, 0x6F, 0x73, 0x75, 0x63, 0x68, 0x6E, 0x61, 0x6D, 0x65, 0x3B]
  {
    var noSuch: seq<CodeUnit> := [0x26, 0x6E, 0x6F, 0x73, 0x75, 0x63, 0x68, 0x6E, 0x61, 0x6D, 0x65, 0x3B];
    assert NoKnownName(noSuch, AmpTable) by {
      forall i, n | 0 <= i < |noSuch| && 0 <= n <= MaxName
        ensures !KnownMatch(noSuch, AmpTable, i, n)
      {
        if MatchesAt(noSuch, i, n) {
          assert i == 0;
          MatchLengthUnique(noSuch, 0, n, 10);
        }
      }
    }
    UnknownNamesKept(noSuch, AmpTable);
  }
}
