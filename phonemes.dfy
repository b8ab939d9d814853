/** `_refine_pron`: the normalisation applied to every captured transcription
    before it is yielded.  Each step of the source is one function here, so
    that the whole pipeline reads as the composition in `RefinePron`; the
    lemmas then say what the composition amounts to. */
module Phonemes {
  import opened Text

  /** The character class removed first: the General Punctuation block
      U+2000 to U+206F and the ASCII and Latin-1 marks `.,·/#!$%^&*;:{}=-_`~()<>[]|`. */
  predicate IsRemoved(c: char) {
    || ('\U{2000}' <= c <= '\U{206F}')
    || c in {'.', ',', '\U{B7}', '/', '#', '!', '$', '%', '^', '&', '*', ';', ':', '{', '}',
             '=', '-', '_', '`', '~', '(', ')', '<', '>', '[', ']', '|'}
  }

  predicate NotRemoved(c: char) {
    !IsRemoved(c)
  }

  predicate NotSpace(c: char) {
    c != ' '
  }

  /** The four affricate ligatures and their two-letter spellings, in the
      order the digraph table lists them. */
  predicate IsLigature(c: char) {
    c == 'ʣ' || c == 'ʤ' || c == 'ʦ' || c == 'ʧ'
  }

  function DigraphOf(c: char): string {
    if c == 'ʣ' then "dz"
    else if c == 'ʤ' then "dʒ"
    else if c == 'ʦ' then "ts"
    else if c == 'ʧ' then "tʃ"
    else [c]
  }

  /** Primary and secondary stress marks. */
  predicate IsStress(c: char) {
    c == 'ˈ' || c == 'ˌ'
  }

  /** Combining diacritical marks (U+0300 to U+036F) and spacing modifier
      letters (U+02B0 to U+02FF): the characters that stay attached to the
      character before them. */
  predicate IsAttaching(c: char) {
    ('\U{300}' <= c <= '\U{36F}') || ('\U{2B0}' <= c <= '\U{2FF}')
  }

  function StressOf(c: char): string {
    if c == 'ʼ' || c == '\'' then "ˈ" else [c]
  }

  function StressSpacing(c: char): string {
    if IsStress(c) then [' ', c] else [c]
  }

  function BaseSpacing(c: char): string {
    if IsAttaching(c) then [c] else [' ', c]
  }

  function Unit(c: char): string {
    [c]
  }

  // The steps of the refiner, in the order the source applies them.

  function RemovePunctuation(s: string): string {
    Filter(s, NotRemoved)
  }

  function FoldDigraphs(s: string): string {
    ReplaceChar(ReplaceChar(ReplaceChar(ReplaceChar(s, 'ʣ', "dz"), 'ʤ', "dʒ"), 'ʦ', "ts"), 'ʧ', "tʃ")
  }

  function UnifyStress(s: string): string {
    MapChars(s, StressOf)
  }

  function SpaceBeforeStress(s: string): string {
    MapChars(s, StressSpacing)
  }

  function SpaceBeforeBase(s: string): string {
    MapChars(s, BaseSpacing)
  }

  function DeleteSpaces(s: string): string {
    Filter(s, NotSpace)
  }

  /** `_refine_pron(pron)`, with `nfd` standing for `unicodedata.normalize("NFD", _)`. */
  function RefinePron(nfd: string -> string, pron: string): string {
    Strip(DeleteSpaces(SpaceBeforeBase(SpaceBeforeStress(UnifyStress(FoldDigraphs(nfd(RemovePunctuation(pron))))))))
  }

  /** A character that the refiner never outputs: a plain space, an apostrophe
      that should have become a stress mark, or an affricate ligature. */
  predicate Folded(c: char) {
    c != ' ' && c != '\'' && c != 'ʼ' && !IsLigature(c)
  }

  lemma {:induction false} SpacingVanishes(s: string, f: char -> string)
    requires forall c :: Filter(f(c), NotSpace) == Filter([c], NotSpace)
    ensures Filter(MapChars(s, f), NotSpace) == Filter(s, NotSpace)
  {
    FilterMapChars(s, f, Unit, NotSpace);
    MapCharsUnchanged(s, Unit);
  }

  /** The spaces inserted before stress marks and before base characters are
      all deleted again, so the refiner is punctuation removal, NFD, digraph
      folding and stress unification, followed by deleting every space and
      stripping. */
  lemma RefineNetEffect(nfd: string -> string, pron: string)
    ensures RefinePron(nfd, pron)
         == Strip(DeleteSpaces(UnifyStress(FoldDigraphs(nfd(RemovePunctuation(pron))))))
  {
    var s := UnifyStress(FoldDigraphs(nfd(RemovePunctuation(pron))));
    forall c: char ensures Filter(StressSpacing(c), NotSpace) == Filter([c], NotSpace) {
      assert [' ', c][1..] == [c];
    }
    forall c: char ensures Filter(BaseSpacing(c), NotSpace) == Filter([c], NotSpace) {
      assert [' ', c][1..] == [c];
    }
    SpacingVanishes(SpaceBeforeStress(s), BaseSpacing);
    SpacingVanishes(s, StressSpacing);
  }

  lemma StripKeepsChars(s: string, c: char)
    requires c in Strip(s)
    ensures c in s
  {
    var a := StripStart(s);
    StripStartSpec(s);
    StripEndSpec(a);
    assert c in a;
  }

  /** Every character of the refined string is `Folded`: there is no space, no
      apostrophe, no `ʼ` and no affricate ligature left; and the refined string
      neither starts nor ends with whitespace. */
  lemma RefineOutputClean(nfd: string -> string, pron: string)
    ensures var r := RefinePron(nfd, pron);
      forall i :: 0 <= i < |r| ==> Folded(r[i])
    ensures var r := RefinePron(nfd, pron);
      r == [] || (!IsSpace(r[0]) && !IsSpace(r[|r| - 1]))
  {
    var n := nfd(RemovePunctuation(pron));
    var u := UnifyStress(FoldDigraphs(n));
    var d := DeleteSpaces(u);
    RefineNetEffect(nfd, pron);
    StripSpec(d);
    UnifiedClean(n);
    forall c | c in Strip(d) ensures Folded(c) {
      StripKeepsChars(d, c);
    }
  }

  /** A transcription as the refiner leaves it: not empty, no plain space,
      apostrophe or affricate ligature in it, and no whitespace at either end. */
  predicate Clean(p: string) {
    && p != []
    && (forall i :: 0 <= i < |p| ==> Folded(p[i]))
    && !IsSpace(p[0]) && !IsSpace(p[|p| - 1])
  }

  /** A non-empty refinement is clean. */
  lemma RefinedClean(nfd: string -> string, s: string)
    requires RefinePron(nfd, s) != []
    ensures Clean(RefinePron(nfd, s))
  {
    RefineOutputClean(nfd, s);
  }

  lemma DigraphOfClean(x: char, c: char)
    requires c in DigraphOf(x)
    ensures !IsLigature(c)
  {
    if IsLigature(x) {
      assert c in "dzʒtsʃ";
    }
  }

  lemma UnifiedClean(n: string)
    ensures forall c :: c in UnifyStress(FoldDigraphs(n)) ==> c != '\'' && c != 'ʼ' && !IsLigature(c)
  {
    var f := FoldDigraphs(n);
    FoldDigraphsSpec(n);
    forall c | c in UnifyStress(f) ensures c != '\'' && c != 'ʼ' && !IsLigature(c) {
      MapCharsOrigin(f, StressOf, c);
      var j :| 0 <= j < |f| && c in StressOf(f[j]);
      MapCharsOrigin(n, DigraphOf, f[j]);
      var k :| 0 <= k < |n| && f[j] in DigraphOf(n[k]);
      DigraphOfClean(n[k], f[j]);
    }
  }

  lemma FoldDigraphsAppend(a: string, b: string)
    ensures FoldDigraphs(a + b) == FoldDigraphs(a) + FoldDigraphs(b)
  {
    ReplaceCharAppend(a, b, 'ʣ', "dz");
    var a1, b1 := ReplaceChar(a, 'ʣ', "dz"), ReplaceChar(b, 'ʣ', "dz");
    ReplaceCharAppend(a1, b1, 'ʤ', "dʒ");
    var a2, b2 := ReplaceChar(a1, 'ʤ', "dʒ"), ReplaceChar(b1, 'ʤ', "dʒ");
    ReplaceCharAppend(a2, b2, 'ʦ', "ts");
    var a3, b3 := ReplaceChar(a2, 'ʦ', "ts"), ReplaceChar(b2, 'ʦ', "ts");
    ReplaceCharAppend(a3, b3, 'ʧ', "tʃ");
  }

  /** A two-letter string free of the ligatures passes the later
      substitutions unchanged. */
  lemma ReplacePairUnchanged(x: char, y: char, c: char, v: string)
    requires x != c && y != c
    ensures ReplaceChar([x, y], c, v) == [x, y]
  {
    assert [x, y] == [x] + [y];
    ReplaceCharAppend([x], [y], c, v);
    ReplaceCharUnit(x, c, v);
    ReplaceCharUnit(y, c, v);
  }

  lemma FoldDigraphsUnit(x: char)
    ensures FoldDigraphs([x]) == DigraphOf(x)
  {
    ReplaceCharUnit(x, 'ʣ', "dz");
    if x == 'ʣ' {
      ReplacePairUnchanged('d', 'z', 'ʤ', "dʒ");
      ReplacePairUnchanged('d', 'z', 'ʦ', "ts");
      ReplacePairUnchanged('d', 'z', 'ʧ', "tʃ");
    } else {
      ReplaceCharUnit(x, 'ʤ', "dʒ");
      if x == 'ʤ' {
        ReplacePairUnchanged('d', 'ʒ', 'ʦ', "ts");
        ReplacePairUnchanged('d', 'ʒ', 'ʧ', "tʃ");
      } else {
        ReplaceCharUnit(x, 'ʦ', "ts");
        if x == 'ʦ' {
          ReplacePairUnchanged('t', 's', 'ʧ', "tʃ");
        } else {
          ReplaceCharUnit(x, 'ʧ', "tʃ");
        }
      }
    }
  }

  /** Folding digraphs is one character-wise substitution by the table: each
      ligature becomes its two-letter spelling and nothing else changes. */
  lemma {:induction false} FoldDigraphsSpec(s: string)
    ensures FoldDigraphs(s) == MapChars(s, DigraphOf)
  {
    if s != [] {
      FoldDigraphsSpec(s[1..]);
      assert s == [s[0]] + s[1..];
      FoldDigraphsAppend([s[0]], s[1..]);
      FoldDigraphsUnit(s[0]);
    }
  }

  lemma {:induction false} FilterUnchanged(s: string, keep: char -> bool)
    requires forall i :: 0 <= i < |s| ==> keep(s[i])
    ensures Filter(s, keep) == s
  {
    if s != [] {
      FilterUnchanged(s[1..], keep);
    }
  }

  /** A string the refiner could have produced, and that NFD and punctuation
      removal leave alone, is refined to itself. */
  lemma RefineFixedPoint(nfd: string -> string, s: string)
    requires forall i :: 0 <= i < |s| ==> Folded(s[i]) && NotRemoved(s[i])
    requires s == [] || (!IsSpace(s[0]) && !IsSpace(s[|s| - 1]))
    requires nfd(s) == s
    ensures RefinePron(nfd, s) == s
  {
    FilterUnchanged(s, NotRemoved);
    FoldDigraphsSpec(s);
    MapCharsUnchanged(s, DigraphOf);
    MapCharsUnchanged(s, StressOf);
    FilterUnchanged(s, NotSpace);
    RefineNetEffect(nfd, s);
    assert StripStart(s) == s;
    assert StripEnd(s) == s;
  }

  /** The refiner is idempotent on an input whose refinement contains nothing
      that punctuation removal or NFD would still change. */
  lemma RefineIdempotent(nfd: string -> string, pron: string)
    requires var r := RefinePron(nfd, pron);
      (forall i :: 0 <= i < |r| ==> NotRemoved(r[i])) && nfd(r) == r
    ensures var r := RefinePron(nfd, pron); RefinePron(nfd, r) == r
  {
    RefineOutputClean(nfd, pron);
    RefineFixedPoint(nfd, RefinePron(nfd, pron));
  }

  /** The one decomposition needed below: NFD maps U+037E GREEK QUESTION MARK
      to the semicolon U+003B and leaves the other characters used here alone. */
  function GreekQuestionNfd(s: string): string {
    MapChars(s, (c: char) => if c == '\U{37E}' then ";" else [c])
  }

  /** Punctuation is removed before NFD, so a `;` that NFD produces survives
      the first pass and is removed by a second one: the refiner is not
      idempotent in general. */
  lemma RefineKeepsNfdPunctuation()
    ensures RefinePron(GreekQuestionNfd, "\U{37E}") == ";"
    ensures RefinePron(GreekQuestionNfd, ";") == ""
  {
    GreekQuestionFirstPass();
    GreekQuestionSecondPass();
  }

  lemma GreekQuestionFirstPass()
    ensures RefinePron(GreekQuestionNfd, "\U{37E}") == ";"
  {
    GreekQuestionKept();
    GreekQuestionDecomposes();
    SemicolonPassesSteps();
    RefineNetEffect(GreekQuestionNfd, "\U{37E}");
  }

  lemma GreekQuestionKept()
    ensures RemovePunctuation("\U{37E}") == "\U{37E}"
  {
    var q := "\U{37E}";
    assert NotRemoved(q[0]);
    FilterUnit(q[0], NotRemoved);
  }

  lemma GreekQuestionDecomposes()
    ensures GreekQuestionNfd("\U{37E}") == ";"
  {
    var q := "\U{37E}";
    MapCharsUnit(q[0], (c: char) => if c == '\U{37E}' then ";" else [c]);
  }

  lemma SemicolonPassesSteps()
    ensures Strip(DeleteSpaces(UnifyStress(FoldDigraphs(";")))) == ";"
  {
    var s := ";";
    FoldDigraphsUnit(s[0]);
    assert FoldDigraphs(s) == s;
    MapCharsUnit(s[0], StressOf);
    assert UnifyStress(s) == s;
    FilterUnit(s[0], NotSpace);
    assert DeleteSpaces(s) == s;
    SemicolonStrips();
  }

  lemma GreekQuestionSecondPass()
    ensures RefinePron(GreekQuestionNfd, ";") == ""
  {
    var s := ";";
    RefineNetEffect(GreekQuestionNfd, s);
    assert IsRemoved(s[0]);
    FilterUnit(s[0], NotRemoved);
    assert RemovePunctuation(s) == "";
  }

  lemma SemicolonStrips()
    ensures Strip(";") == ";"
  {
    assert !IsSpace(";"[0]);
    assert StripStart(";") == ";";
    assert StripEnd(";") == ";";
  }
}
