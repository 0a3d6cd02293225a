/** HTML escaping of text: `&`, `<`, `>` and `"` become entity references,
    done as four whole-string replacements in that order. */
module Escape {
  import opened Units

  const LT := 0x3C    // <
  const GT := 0x3E    // >
  const QUOT := 0x22  // "

  const AmpRef: seq<CodeUnit> := [0x26, 0x61, 0x6D, 0x70, 0x3B]         // &amp;
  const LtRef: seq<CodeUnit> := [0x26, 0x6C, 0x74, 0x3B]                // &lt;
  const GtRef: seq<CodeUnit> := [0x26, 0x67, 0x74, 0x3B]                // &gt;
  const QuotRef: seq<CodeUnit> := [0x26, 0x71, 0x75, 0x6F, 0x74, 0x3B]  // &quot;

  /** `s.replace(/c/g, rep)`: every occurrence of the unit `c`, left to
      right, is replaced by `rep`; the inserted text is not scanned again. */
  function ReplaceAll(s: seq<CodeUnit>, c: CodeUnit, rep: seq<CodeUnit>): (r: seq<CodeUnit>)
    ensures c !in s ==> r == s
    ensures |rep| >= 1 ==> |r| >= |s|
  {
    if s == [] then []
    else (if s[0] == c then rep else [s[0]]) + ReplaceAll(s[1..], c, rep)
  }

  /** Replacing in a concatenation is replacing in each part. */
  lemma {:induction false} ReplaceAllAppend(a: seq<CodeUnit>, b: seq<CodeUnit>, c: CodeUnit, rep: seq<CodeUnit>)
    ensures ReplaceAll(a + b, c, rep) == ReplaceAll(a, c, rep) + ReplaceAll(b, c, rep)
    decreases |a|
  {
    if a != [] {
      var h := if a[0] == c then rep else [a[0]];
      assert (a + b)[0] == a[0];
      assert (a + b)[1..] == a[1..] + b;
      ReplaceAllAppend(a[1..], b, c, rep);
      assert ReplaceAll(a + b, c, rep) == h + (ReplaceAll(a[1..], c, rep) + ReplaceAll(b, c, rep));
      assert ReplaceAll(a, c, rep) == h + ReplaceAll(a[1..], c, rep);
    } else {
      assert a + b == b;
    }
  }

  /** `escapeHtml(str)`: each replacement runs only when `indexOf` finds its
      character, which changes nothing observable since a replacement of an
      absent character is the identity. */
  function EscapeHtml(s: seq<CodeUnit>): (r: seq<CodeUnit>)
    ensures AMP !in s && LT !in s && GT !in s && QUOT !in s ==> r == s
    ensures |s| <= |r|
  {
    var s1 := if AMP in s then ReplaceAll(s, AMP, AmpRef) else s;
    var s2 := if LT in s1 then ReplaceAll(s1, LT, LtRef) else s1;
    var s3 := if GT in s2 then ReplaceAll(s2, GT, GtRef) else s2;
    if QUOT in s3 then ReplaceAll(s3, QUOT, QuotRef) else s3
  }

  /** The escape of one unit on its own. */
  function EscapeUnit(c: CodeUnit): seq<CodeUnit>
  {
    if c == AMP then AmpRef
    else if c == LT then LtRef
    else if c == GT then GtRef
    else if c == QUOT then QuotRef
    else [c]
  }

  /** Escaping as a single per-unit map: each unit is replaced by its own
      escape, independently of its neighbours. */
  function EscapeMap(s: seq<CodeUnit>): (r: seq<CodeUnit>)
    ensures LT !in r && GT !in r && QUOT !in r
    ensures |s| <= |r|
  {
    if s == [] then [] else EscapeUnit(s[0]) + EscapeMap(s[1..])
  }

  /** The four passes without their `indexOf` guards. */
  function Passes(s: seq<CodeUnit>): seq<CodeUnit>
  {
    ReplaceAll(ReplaceAll(ReplaceAll(ReplaceAll(s, AMP, AmpRef), LT, LtRef), GT, GtRef), QUOT, QuotRef)
  }

  /** The four passes distribute over concatenation. */
  lemma PassesAppend(a: seq<CodeUnit>, b: seq<CodeUnit>)
    ensures Passes(a + b) == Passes(a) + Passes(b)
  {
    ReplaceAllAppend(a, b, AMP, AmpRef);
    var a1, b1 := ReplaceAll(a, AMP, AmpRef), ReplaceAll(b, AMP, AmpRef);
    ReplaceAllAppend(a1, b1, LT, LtRef);
    var a2, b2 := ReplaceAll(a1, LT, LtRef), ReplaceAll(b1, LT, LtRef);
    ReplaceAllAppend(a2, b2, GT, GtRef);
    var a3, b3 := ReplaceAll(a2, GT, GtRef), ReplaceAll(b2, GT, GtRef);
    ReplaceAllAppend(a3, b3, QUOT, QuotRef);
  }

  /** The four passes applied to a single unit give its escape: the text
      inserted by an earlier pass contains none of the later characters. */
  lemma PassesUnit(c: CodeUnit)
    ensures Passes([c]) == EscapeUnit(c)
  {
    ReplaceUnit(c, AMP, AmpRef);
    var x1 := ReplaceAll([c], AMP, AmpRef);
    if c == AMP {
      assert LT !in AmpRef && GT !in AmpRef && QUOT !in AmpRef;
    } else {
      ReplaceUnit(c, LT, LtRef);
      if c == LT {
        assert GT !in LtRef && QUOT !in LtRef;
      } else {
        ReplaceUnit(c, GT, GtRef);
        if c == GT {
          assert QUOT !in GtRef;
        } else {
          ReplaceUnit(c, QUOT, QuotRef);
        }
      }
    }
  }

  /** Replacing in a one-unit text. */
  lemma ReplaceUnit(x: CodeUnit, c: CodeUnit, rep: seq<CodeUnit>)
    ensures ReplaceAll([x], c, rep) == if x == c then rep else [x]
  {
    assert [x][1..] == [];
  }

  /** The `indexOf` guards change nothing: escaping is the four passes. */
  lemma GuardsIdle(s: seq<CodeUnit>)
    ensures EscapeHtml(s) == Passes(s)
  {
  }

  /** The four passes equal the per-unit map. */
  lemma {:induction false} PassesIsUnitMap(s: seq<CodeUnit>)
    ensures Passes(s) == EscapeMap(s)
    decreases |s|
  {
    if s != [] {
      assert s == [s[0]] + s[1..];
      PassesAppend([s[0]], s[1..]);
      PassesUnit(s[0]);
      PassesIsUnitMap(s[1..]);
    }
  }

  /** The four sequential replacements equal the single per-unit map, so the
      output contains no `<`, `>` or `"`: every one became a reference. */
  lemma {:induction false} EscapeHtmlIsUnitMap(s: seq<CodeUnit>)
    ensures EscapeHtml(s) == EscapeMap(s)
    ensures LT !in EscapeHtml(s) && GT !in EscapeHtml(s) && QUOT !in EscapeHtml(s)
  {
    GuardsIdle(s);
    PassesIsUnitMap(s);
  }

  /** Escaping loses nothing: different texts escape differently. */
  lemma {:induction false} EscapeMapInjective(a: seq<CodeUnit>, b: seq<CodeUnit>)
    requires EscapeMap(a) == EscapeMap(b)
    ensures a == b
    decreases |a|
  {
    if a == [] || b == [] {
      assert |EscapeMap(a)| == 0 || |EscapeMap(b)| == 0;
      EmptyEscape(a);
      EmptyEscape(b);
    } else {
      var ea, eb := EscapeUnit(a[0]), EscapeUnit(b[0]);
      assert EscapeMap(a) == ea + EscapeMap(a[1..]);
      assert EscapeMap(b) == eb + EscapeMap(b[1..]);
      assert ea[0] == EscapeMap(a)[0] == eb[0];
      if |ea| >= 2 && |eb| >= 2 {
        assert ea[1] == EscapeMap(a)[1] == EscapeMap(b)[1] == eb[1];
      }
      EscapeUnitHeads(a[0], b[0]);
      assert EscapeMap(a[1..]) == EscapeMap(a)[|ea|..] == EscapeMap(b[1..]);
      EscapeMapInjective(a[1..], b[1..]);
      assert a == [a[0]] + a[1..];
      assert b == [b[0]] + b[1..];
    }
  }

  /** The escapes of two units that agree in their first unit, and in their
      second when both have one, are the escapes of the same unit. */
  lemma EscapeUnitHeads(x: CodeUnit, y: CodeUnit)
    requires EscapeUnit(x)[0] == EscapeUnit(y)[0]
    requires |EscapeUnit(x)| >= 2 && |EscapeUnit(y)| >= 2 ==> EscapeUnit(x)[1] == EscapeUnit(y)[1]
    ensures x == y
  {
  }

  /** Only the empty text escapes to the empty text. */
  lemma EmptyEscape(s: seq<CodeUnit>)
    ensures EscapeMap(s) == [] <==> s == []
  {
    if s != [] {
      assert |EscapeMap(s)| >= |EscapeUnit(s[0])| >= 1;
    }
  }

  /** `escapeHtml` is injective: different texts escape differently. */
  lemma EscapeHtmlInjective(a: seq<CodeUnit>, b: seq<CodeUnit>)
    requires EscapeHtml(a) == EscapeHtml(b)
    ensures a == b
  {
    EscapeHtmlIsUnitMap(a);
    EscapeHtmlIsUnitMap(b);
    EscapeMapInjective(a, b);
  }
}
