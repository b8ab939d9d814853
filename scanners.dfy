/** `process_nld`, `process_cs`, `process_it`, `process_fr` and `process_el`:
    each is the scanning engine of `Sections` run with its language's
    markers, pattern and capture treatment. */
module Scanners {
  import opened Text
  import opened Phonemes
  import opened Patterns
  import opened Sections

  // The five languages, with the literal markers of the source.

  /** `=nld=`, then `-pron-`; ends at a `{{=` or `{{-` line; skips captures
      with `xxx` and deletes `|nld`; no lower-casing. */
  const Dutch := Language(Gate("{{=nld=}}", Some("{{-pron-}}"), ["{{=", "{{-"]),
                          s => Captures(IpaBar, s), true, true, false)

  /** `== čeština ==`, then `=== výslovnost ===`; ends at any `=` line. */
  const Czech := Language(Gate("== čeština ==", Some("=== výslovnost ==="), ["="]),
                          s => Captures(IpaBar, s), false, false, true)

  /** `== {{-it-}} ==`, then `{{-pron-}}`; ends at a `{{=` or `{{-` line. */
  const Italian := Language(Gate("== {{-it-}} ==", Some("{{-pron-}}"), ["{{=", "{{-"]),
                            s => Captures(IpaBar, s), false, false, true)

  /** `== {{langue|fr}} ==` alone opens the region; it ends at a `== ` line. */
  const French := Language(Gate("== {{langue|fr}} ==", None, ["== "]),
                           s => Captures(FrPron, s), false, false, true)

  /** `=={{-el-}}==`, then `==={{προφορά}}===`; ends at any `=` line. */
  const Greek := Language(Gate("=={{-el-}}==", Some("==={{προφορά}}==="), ["="]),
                          s => Captures(ElPron, s), false, false, true)

  /** Whatever a scanner yields is clean, whatever its language. */
  lemma ExtractClean(lang: Language, u: Unicode, ls: seq<string>, p: string)
    requires p in Extract(lang, ServicesOf(u), ls)
    ensures Clean(p)
  {
    var sv := ServicesOf(u);
    ExtractMembers(lang, sv, ls, p);
    var i :| InRegion(lang.gate, ls, i) && Yields(lang, sv, ls[i], p);
    var c :| c in lang.find(ls[i]) && Admits(lang, c) && p == sv.refine(Normalise(lang, sv, c)) && p != [];
    RefinedClean(u.nfd, Normalise(lang, sv, c));
  }

  /** `p` is the refinement of a lower-cased capture of `pat` on a line of
      the region that `g` delimits. */
  ghost predicate FromLowered(g: Gate, pat: Pattern, u: Unicode, ls: seq<string>, p: string) {
    exists i, c :: 0 <= i < |ls| && InRegion(g, ls, i) && c in Captures(pat, ls[i])
      && p == RefinePron(u.nfd, u.lower(c)) && p != []
  }

  /** For the four languages that lower-case and keep every capture, the
      output is exactly the non-empty refinements of the lower-cased
      captures on the lines of the region. */
  lemma LoweredMembers(lang: Language, pat: Pattern, u: Unicode, ls: seq<string>, p: string)
    requires lang.lower && !lang.dropXxx && !lang.stripNld
    requires forall s :: lang.find(s) == Captures(pat, s)
    ensures p in Extract(lang, ServicesOf(u), ls) <==> FromLowered(lang.gate, pat, u, ls, p)
  {
    var sv := ServicesOf(u);
    ExtractMembers(lang, sv, ls, p);
    if p in Extract(lang, sv, ls) {
      var i :| InRegion(lang.gate, ls, i) && Yields(lang, sv, ls[i], p);
      var c :| c in lang.find(ls[i]) && Admits(lang, c) && p == sv.refine(Normalise(lang, sv, c)) && p != [];
      assert c in Captures(pat, ls[i]) && p == RefinePron(u.nfd, u.lower(c));
    }
    if FromLowered(lang.gate, pat, u, ls, p) {
      var i, c :| 0 <= i < |ls| && InRegion(lang.gate, ls, i) && c in Captures(pat, ls[i])
        && p == RefinePron(u.nfd, u.lower(c)) && p != [];
      assert Normalise(lang, sv, c) == u.lower(c);
      assert Yields(lang, sv, ls[i], p);
    }
  }

  /** `p` is the refinement of a Dutch capture without `xxx`, once every
      `|nld` is deleted from it, on a line of the Dutch region. */
  ghost predicate FromDutch(u: Unicode, ls: seq<string>, p: string) {
    exists i, c :: 0 <= i < |ls| && InRegion(Dutch.gate, ls, i) && c in Captures(IpaBar, ls[i])
      && !Contains(c, "xxx") && p == RefinePron(u.nfd, Replace(c, "|nld", "")) && p != []
  }

  /** How the Dutch scanner treats one capture. */
  lemma DutchCapture(u: Unicode, c: string)
    ensures Admits(Dutch, c) == !Contains(c, "xxx")
    ensures ServicesOf(u).refine(Normalise(Dutch, ServicesOf(u), c)) == RefinePron(u.nfd, Replace(c, "|nld", ""))
  {
  }

  lemma DutchMembers(u: Unicode, ls: seq<string>, p: string)
    ensures p in Extract(Dutch, ServicesOf(u), ls) <==> FromDutch(u, ls, p)
  {
    var sv := ServicesOf(u);
    ExtractMembers(Dutch, sv, ls, p);
    if p in Extract(Dutch, sv, ls) {
      var i :| InRegion(Dutch.gate, ls, i) && Yields(Dutch, sv, ls[i], p);
      var c :| c in Dutch.find(ls[i]) && Admits(Dutch, c) && p == sv.refine(Normalise(Dutch, sv, c)) && p != [];
      DutchCapture(u, c);
      assert c in Captures(IpaBar, ls[i]);
    }
    if FromDutch(u, ls, p) {
      var i, c :| 0 <= i < |ls| && InRegion(Dutch.gate, ls, i) && c in Captures(IpaBar, ls[i])
        && !Contains(c, "xxx") && p == RefinePron(u.nfd, Replace(c, "|nld", "")) && p != [];
      DutchCapture(u, c);
      assert Yields(Dutch, sv, ls[i], p);
    }
  }

  /** At most as many transcriptions as captures. */
  lemma {:induction false} YieldAllBound(lang: Language, sv: Services, cs: seq<string>)
    ensures |YieldAll(lang, sv, cs)| <= |cs|
    decreases |cs|
  {
    if cs != [] {
      YieldAllBound(lang, sv, cs[..|cs| - 1]);
    }
  }

  /** The Greek pattern starts with a greedy `ΔΦΑ.+`, so a line yields at most
      one transcription. */
  lemma GreekOnePerLine(u: Unicode, line: string)
    requires '\n' !in line
    ensures |LineYield(Greek, ServicesOf(u), line)| <= 1
  {
    GreedyAtMostOne(ElPron, line, 0);
    YieldAllBound(Greek, ServicesOf(u), Captures(ElPron, line));
  }

  /** The French region opens on the line right after the header, and the
      header itself, though it starts with `== `, does not close it. */
  lemma FrenchRegionStart(ls: seq<string>, t: nat)
    requires t < |ls| && ls[t] == French.gate.top
    requires forall k :: 0 <= k < t ==> ls[k] != French.gate.top
    ensures RegionStart(French.gate, ls) == Some(t + 1)
    ensures IsEndLine(French.gate, ls[t])
  {
    assert FirstLine(ls, 0, French.gate.top) == Some(t);
    assert ls[t][..3] == French.gate.ends[0];
  }

  // The five scanners.

  method ProcessNld(u: Unicode, lines: seq<string>) returns (prons: seq<string>)
    ensures prons == Extract(Dutch, ServicesOf(u), StripAll(lines))
    ensures forall p :: p in prons <==> FromDutch(u, StripAll(lines), p)
    ensures forall p :: p in prons ==> Clean(p)
  {
    prons := Scan(Dutch, ServicesOf(u), lines);
    forall p ensures p in prons <==> FromDutch(u, StripAll(lines), p) {
      DutchMembers(u, StripAll(lines), p);
    }
    forall p | p in prons ensures Clean(p) {
      ExtractClean(Dutch, u, StripAll(lines), p);
    }
  }

  method ProcessCs(u: Unicode, lines: seq<string>) returns (prons: seq<string>)
    ensures prons == Extract(Czech, ServicesOf(u), StripAll(lines))
    ensures forall p :: p in prons <==> FromLowered(Czech.gate, IpaBar, u, StripAll(lines), p)
    ensures forall p :: p in prons ==> Clean(p)
  {
    prons := Scan(Czech, ServicesOf(u), lines);
    forall p ensures p in prons <==> FromLowered(Czech.gate, IpaBar, u, StripAll(lines), p) {
      LoweredMembers(Czech, IpaBar, u, StripAll(lines), p);
    }
    forall p | p in prons ensures Clean(p) {
      ExtractClean(Czech, u, StripAll(lines), p);
    }
  }

  method ProcessIt(u: Unicode, lines: seq<string>) returns (prons: seq<string>)
    ensures prons == Extract(Italian, ServicesOf(u), StripAll(lines))
    ensures forall p :: p in prons <==> FromLowered(Italian.gate, IpaBar, u, StripAll(lines), p)
    ensures forall p :: p in prons ==> Clean(p)
  {
    prons := Scan(Italian, ServicesOf(u), lines);
    forall p ensures p in prons <==> FromLowered(Italian.gate, IpaBar, u, StripAll(lines), p) {
      LoweredMembers(Italian, IpaBar, u, StripAll(lines), p);
    }
    forall p | p in prons ensures Clean(p) {
      ExtractClean(Italian, u, StripAll(lines), p);
    }
  }

  method ProcessFr(u: Unicode, lines: seq<string>) returns (prons: seq<string>)
    ensures prons == Extract(French, ServicesOf(u), StripAll(lines))
    ensures forall p :: p in prons <==> FromLowered(French.gate, FrPron, u, StripAll(lines), p)
    ensures forall p :: p in prons ==> Clean(p)
  {
    prons := Scan(French, ServicesOf(u), lines);
    forall p ensures p in prons <==> FromLowered(French.gate, FrPron, u, StripAll(lines), p) {
      LoweredMembers(French, FrPron, u, StripAll(lines), p);
    }
    forall p | p in prons ensures Clean(p) {
      ExtractClean(French, u, StripAll(lines), p);
    }
  }

  method ProcessEl(u: Unicode, lines: seq<string>) returns (prons: seq<string>)
    ensures prons == Extract(Greek, ServicesOf(u), StripAll(lines))
    ensures forall p :: p in prons <==> FromLowered(Greek.gate, ElPron, u, StripAll(lines), p)
    ensures forall p :: p in prons ==> Clean(p)
  {
    prons := Scan(Greek, ServicesOf(u), lines);
    forall p ensures p in prons <==> FromLowered(Greek.gate, ElPron, u, StripAll(lines), p) {
      LoweredMembers(Greek, ElPron, u, StripAll(lines), p);
    }
    forall p | p in prons ensures Clean(p) {
      ExtractClean(Greek, u, StripAll(lines), p);
    }
  }
}
