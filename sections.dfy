/** The line scanners of `process_nld`, `process_cs`, `process_it`,
    `process_fr` and `process_el`: one engine driven by a `Language` record,
    proved against a declarative description of the pronunciation region.

    The region of an entry body is found from its stripped lines: the first
    line equal to the language header, then (when the language has one) the
    first line after it equal to the pronunciation sub-header; the region runs
    from the next line up to, and not including, the first line that starts
    with one of the language's end prefixes, or to the end of the body. */
module Sections {
  import opened Text
  import opened Phonemes
  import opened Patterns

  /** The markers that delimit a language's pronunciation region. */
  datatype Gate = Gate(top: string, sub: Option<string>, ends: seq<string>)

  /** The two services a scanner calls on each capture: `str.lower()` and
      `_refine_pron`. */
  datatype Services = Services(lower: string -> string, refine: string -> string)

  /** The services of the extractor, built from the two Unicode operations. */
  function ServicesOf(u: Unicode): (sv: Services)
    ensures sv.lower == u.lower
    ensures forall s :: sv.refine(s) == RefinePron(u.nfd, s)
  {
    Services(u.lower, s => RefinePron(u.nfd, s))
  }

  /** How one language's scanner finds and post-processes transcriptions. */
  datatype Language = Language(
    gate: Gate,
    find: string -> seq<string>,  // `findall` of the language's pattern on one line
    dropXxx: bool,   // skip a capture that contains `xxx`
    stripNld: bool,  // delete every `|nld` from a capture
    lower: bool)     // lower-case a capture

  /** The first index at or after `from` whose line is `target`. */
  function FirstLine(lines: seq<string>, from: nat, target: string): (t: Option<nat>)
    requires from <= |lines|
    ensures t.Some? ==> from <= t.value < |lines| && lines[t.value] == target
    ensures t.Some? ==> forall k :: from <= k < t.value ==> lines[k] != target
    ensures t.None? ==> forall k :: from <= k < |lines| ==> lines[k] != target
    decreases |lines| - from
  {
    if from == |lines| then None
    else if lines[from] == target then Some(from)
    else FirstLine(lines, from + 1, target)
  }

  predicate IsEndLine(g: Gate, line: string) {
    StartsWithAny(line, g.ends)
  }

  /** The first index at or after `from` whose line ends the region. */
  function FirstEnd(g: Gate, lines: seq<string>, from: nat): (e: Option<nat>)
    requires from <= |lines|
    ensures e.Some? ==> from <= e.value < |lines| && IsEndLine(g, lines[e.value])
    ensures e.Some? ==> forall k :: from <= k < e.value ==> !IsEndLine(g, lines[k])
    ensures e.None? ==> forall k :: from <= k < |lines| ==> !IsEndLine(g, lines[k])
    decreases |lines| - from
  {
    if from == |lines| then None
    else if IsEndLine(g, lines[from]) then Some(from)
    else FirstEnd(g, lines, from + 1)
  }

  /** `o` holds an index smaller than `i`: the marker it locates has been seen
      by the time the scan reaches line `i`. */
  predicate Before(o: Option<nat>, i: int) {
    o.Some? && o.value < i
  }

  /** Whether the first occurrence of `target` from `from` on has been seen
      before line `i + 1`: it had been seen before line `i`, or line `i` is it. */
  lemma FirstLineStep(lines: seq<string>, from: nat, target: string, i: nat)
    requires from <= |lines| && i < |lines|
    ensures Before(FirstLine(lines, from, target), i + 1)
      <==> Before(FirstLine(lines, from, target), i) || (from <= i && lines[i] == target)
  {
  }

  /** The index of the line that opens the pronunciation region: the first
      sub-header after the first language header, or the language header
      itself when the language has no sub-header. */
  function Opener(g: Gate, lines: seq<string>): (o: Option<nat>)
    ensures o.Some? ==> o.value < |lines|
    ensures Before(o, |lines|) ==> Before(FirstLine(lines, 0, g.top), o.value + 1)
    ensures o.Some? && g.sub.Some? ==> lines[o.value] == g.sub.value
    ensures o.Some? && g.sub.None? ==> lines[o.value] == g.top
  {
    match FirstLine(lines, 0, g.top)
    case None => None
    case Some(t) =>
      match g.sub
      case None => Some(t)
      case Some(sb) => FirstLine(lines, t + 1, sb)
  }

  /** The region has opened before line `i + 1` exactly when it had opened
      before line `i`, or line `i` is the opening line and the language header
      (if a sub-header is needed) came earlier. */
  lemma OpenerStep(g: Gate, lines: seq<string>, i: nat)
    requires i < |lines|
    ensures g.sub.None? ==> Opener(g, lines) == FirstLine(lines, 0, g.top)
    ensures g.sub.Some? ==> (Before(Opener(g, lines), i + 1)
      <==> (Before(Opener(g, lines), i)
        || (Before(FirstLine(lines, 0, g.top), i) && lines[i] == g.sub.value)))
  {
    var top := FirstLine(lines, 0, g.top);
    if g.sub.Some? && top.Some? {
      FirstLineStep(lines, top.value + 1, g.sub.value, i);
    }
  }

  /** The index of the first line of the pronunciation region, if there is one. */
  function RegionStart(g: Gate, lines: seq<string>): (s: Option<nat>)
    ensures s.Some? ==> 1 <= s.value <= |lines|
    ensures s.Some? && g.sub.Some? ==> lines[s.value - 1] == g.sub.value
    ensures s.Some? && g.sub.None? ==> lines[s.value - 1] == g.top
  {
    match Opener(g, lines)
    case None => None
    case Some(o) => Some(o + 1)
  }

  /** Where the region that starts at `s` stops. */
  function RegionEnd(g: Gate, lines: seq<string>, s: nat): (e: nat)
    requires s <= |lines|
    ensures s <= e <= |lines|
    ensures forall k :: s <= k < e ==> !IsEndLine(g, lines[k])
    ensures e < |lines| ==> IsEndLine(g, lines[e])
  {
    match FirstEnd(g, lines, s)
    case None => |lines|
    case Some(e) => e
  }

  /** Line `i` lies in the pronunciation region. */
  predicate InRegion(g: Gate, lines: seq<string>, i: int) {
    && RegionStart(g, lines).Some?
    && RegionStart(g, lines).value <= i < RegionEnd(g, lines, RegionStart(g, lines).value)
  }

  /** A capture after `|nld` removal and lower-casing, as the language asks. */
  function Normalise(lang: Language, sv: Services, c: string): string {
    var c1 := if lang.stripNld then Replace(c, "|nld", "") else c;
    if lang.lower then sv.lower(c1) else c1
  }

  predicate Admits(lang: Language, c: string) {
    !(lang.dropXxx && Contains(c, "xxx"))
  }

  /** What one capture yields: its refined form, unless it is dropped for
      containing `xxx` or refines to the empty string. */
  function CaptureYield(lang: Language, sv: Services, c: string): seq<string> {
    if !Admits(lang, c) then []
    else
      var r := sv.refine(Normalise(lang, sv, c));
      if r == [] then [] else [r]
  }

  function YieldAll(lang: Language, sv: Services, cs: seq<string>): seq<string> {
    if cs == [] then []
    else YieldAll(lang, sv, cs[..|cs| - 1]) + CaptureYield(lang, sv, cs[|cs| - 1])
  }

  /** What one (stripped) line of the region yields. */
  function LineYield(lang: Language, sv: Services, line: string): seq<string> {
    YieldAll(lang, sv, lang.find(line))
  }

  /** Python's `line.strip()` applied to each line of a body. */
  function StripAll(lines: seq<string>): (ls: seq<string>)
    ensures |ls| == |lines|
    ensures forall i :: 0 <= i < |lines| ==> ls[i] == Strip(lines[i])
  {
    seq(|lines|, i requires 0 <= i < |lines| => Strip(lines[i]))
  }

  /** Each line the scanners look at is the piece of its raw line left once
      whitespace is cut from both ends, and neither starts nor ends with
      whitespace. */
  lemma StripAllTrimmed(lines: seq<string>, i: nat)
    requires i < |lines|
    ensures var raw, l := lines[i], StripAll(lines)[i];
      exists j :: 0 <= j <= |raw| - |l| && l == raw[j..j + |l|] && AllSpace(raw[..j]) && AllSpace(raw[j + |l|..])
    ensures var l := StripAll(lines)[i]; l == [] || (!IsSpace(l[0]) && !IsSpace(l[|l| - 1]))
  {
    StripSpec(lines[i]);
  }

  /** What a run of region lines yields, line after line. */
  function BodyYield(lang: Language, sv: Services, lines: seq<string>, s: nat, e: nat): seq<string>
    requires s <= e <= |lines|
    decreases e
  {
    if e == s then []
    else BodyYield(lang, sv, lines, s, e - 1) + LineYield(lang, sv, lines[e - 1])
  }

  /** The whole output of a scanner on an entry body given as stripped lines. */
  function Extract(lang: Language, sv: Services, lines: seq<string>): seq<string> {
    match RegionStart(lang.gate, lines)
    case None => []
    case Some(s) => BodyYield(lang, sv, lines, s, RegionEnd(lang.gate, lines, s))
  }

  /** No line from `a` up to `b` ends the region. */
  predicate NoEndBetween(g: Gate, lines: seq<string>, a: nat, b: nat)
    requires b <= |lines|
  {
    forall k :: a <= k < b ==> !IsEndLine(g, lines[k])
  }

  /** Once the region is known to open at `o` and to run up to a line `e` that
      ends it (or to the end of the body), the region is lines `o + 1` to
      `e - 1`. */
  lemma RegionFromOpener(g: Gate, lines: seq<string>, e: nat)
    requires Opener(g, lines).Some?
    requires Opener(g, lines).value + 1 <= e <= |lines|
    requires NoEndBetween(g, lines, Opener(g, lines).value + 1, e)
    requires e == |lines| || IsEndLine(g, lines[e])
    ensures RegionStart(g, lines) == Some(Opener(g, lines).value + 1)
    ensures RegionEnd(g, lines, Opener(g, lines).value + 1) == e
  {
    var s := Opener(g, lines).value + 1;
    var f := FirstEnd(g, lines, s);
    if f.Some? {
      assert f.value == e;
    }
  }

  /** The output, then, is what those lines yield. */
  lemma ExtractFromOpener(lang: Language, sv: Services, lines: seq<string>, e: nat)
    requires Opener(lang.gate, lines).Some?
    requires Opener(lang.gate, lines).value + 1 <= e <= |lines|
    requires NoEndBetween(lang.gate, lines, Opener(lang.gate, lines).value + 1, e)
    requires e == |lines| || IsEndLine(lang.gate, lines[e])
    ensures Extract(lang, sv, lines) == BodyYield(lang, sv, lines, Opener(lang.gate, lines).value + 1, e)
  {
    RegionFromOpener(lang.gate, lines, e);
  }

  lemma YieldAllStep(lang: Language, sv: Services, cs: seq<string>, j: nat)
    requires j < |cs|
    ensures YieldAll(lang, sv, cs[..j + 1]) == YieldAll(lang, sv, cs[..j]) + CaptureYield(lang, sv, cs[j])
  {
    assert cs[..j + 1][..j] == cs[..j];
  }

  /** The transcriptions one stripped region line yields, in order. */
  method LineProns(lang: Language, sv: Services, line: string) returns (prons: seq<string>)
    ensures prons == LineYield(lang, sv, line)
  {
    var caps := lang.find(line);
    prons := [];
    var j := 0;
    while j < |caps|
      invariant 0 <= j <= |caps|
      invariant prons == YieldAll(lang, sv, caps[..j])
    {
      var c := caps[j];
      if Admits(lang, c) {
        var r := sv.refine(Normalise(lang, sv, c));
        if r != [] {
          prons := prons + [r];
        }
      }
      YieldAllStep(lang, sv, caps, j);
      j := j + 1;
    }
    assert caps[..j] == caps;
  }

  /** The two flags of a scanning loop when it reaches line `i` of the
      stripped lines `ls`: `inLang` says the language header has been seen,
      `inPron` (for a language with a sub-header) that the region has opened. */
  ghost predicate GateState(g: Gate, ls: seq<string>, i: nat, inLang: bool, inPron: bool) {
    && inLang == Before(FirstLine(ls, 0, g.top), i)
    && (g.sub.Some? ==> inPron == Before(Opener(g, ls), i))
  }

  /** The loop is inside the region exactly when both flags it needs are set,
      and there the flags stay as they are. */
  lemma GateInside(g: Gate, ls: seq<string>, i: nat, inLang: bool, inPron: bool)
    requires i < |ls| && GateState(g, ls, i, inLang, inPron)
    ensures (inLang && (inPron || g.sub.None?)) == Before(Opener(g, ls), i)
    ensures Before(Opener(g, ls), i) ==> GateState(g, ls, i + 1, inLang, inPron)
  {
    OpenerStep(g, ls, i);
    FirstLineStep(ls, 0, g.top, i);
    if Before(Opener(g, ls), i) {
      assert Before(FirstLine(ls, 0, g.top), i + 1);
    }
  }

  /** Outside the region, a line may set one of the two flags: the sub-header
      sets `inPron` once the language header has been seen, and the language
      header sets `inLang`; the region opens on the next line at the latest. */
  lemma GateOutside(g: Gate, ls: seq<string>, i: nat, inLang: bool, inPron: bool)
    requires i < |ls| && GateState(g, ls, i, inLang, inPron)
    requires !Before(Opener(g, ls), i)
    ensures var setsPron := inLang && g.sub == Some(ls[i]);
      var setsLang := !setsPron && ls[i] == g.top;
      GateState(g, ls, i + 1, inLang || setsLang, inPron || setsPron)
    ensures Before(Opener(g, ls), i + 1) ==> Opener(g, ls) == Some(i)
  {
    OpenerStep(g, ls, i);
    FirstLineStep(ls, 0, g.top, i);
  }

  /** The state of the scanning loop at line `i`: its flags, and in `prons`
      what the region lines before `i` yield. */
  ghost predicate ScanState(lang: Language, sv: Services, ls: seq<string>, i: nat,
                            inLang: bool, inPron: bool, prons: seq<string>)
    requires i <= |ls|
  {
    var g := lang.gate;
    var open := Opener(g, ls);
    && GateState(g, ls, i, inLang, inPron)
    && (Before(open, i) ==>
          NoEndBetween(g, ls, open.value + 1, i) && prons == BodyYield(lang, sv, ls, open.value + 1, i))
    && (!Before(open, i) ==> prons == [])
  }

  /** Before the first line neither flag is set and nothing is collected. */
  lemma ScanStart(lang: Language, sv: Services, ls: seq<string>)
    ensures ScanState(lang, sv, ls, 0, false, false, [])
  {
  }

  /** A region line that is not an end line adds what it yields. */
  lemma InsideStep(lang: Language, sv: Services, ls: seq<string>, i: nat,
                   inLang: bool, inPron: bool, prons: seq<string>)
    requires i < |ls| && ScanState(lang, sv, ls, i, inLang, inPron, prons)
    ensures (inLang && (inPron || lang.gate.sub.None?)) == Before(Opener(lang.gate, ls), i)
    ensures Before(Opener(lang.gate, ls), i) && !IsEndLine(lang.gate, ls[i]) ==>
      ScanState(lang, sv, ls, i + 1, inLang, inPron, prons + LineYield(lang, sv, ls[i]))
  {
    var g := lang.gate;
    var open := Opener(g, ls);
    GateInside(g, ls, i, inLang, inPron);
    if Before(open, i) && !IsEndLine(g, ls[i]) {
      assert BodyYield(lang, sv, ls, open.value + 1, i + 1) == prons + LineYield(lang, sv, ls[i]);
      assert NoEndBetween(g, ls, open.value + 1, i + 1);
    }
  }

  /** Outside the region only the flags change. */
  lemma OutsideStep(lang: Language, sv: Services, ls: seq<string>, i: nat,
                    inLang: bool, inPron: bool, prons: seq<string>)
    requires i < |ls| && ScanState(lang, sv, ls, i, inLang, inPron, prons)
    requires !Before(Opener(lang.gate, ls), i)
    ensures var g := lang.gate;
      var setsPron := inLang && g.sub == Some(ls[i]);
      var setsLang := !setsPron && ls[i] == g.top;
      ScanState(lang, sv, ls, i + 1, inLang || setsLang, inPron || setsPron, prons)
  {
    GateOutside(lang.gate, ls, i, inLang, inPron);
  }

  /** Where the scanning loop stops, at the end of the body or on an end line
      inside the region, what it has collected is the whole output. */
  lemma ScanExit(lang: Language, sv: Services, ls: seq<string>, i: nat,
                 inLang: bool, inPron: bool, prons: seq<string>)
    requires i <= |ls| && ScanState(lang, sv, ls, i, inLang, inPron, prons)
    requires i == |ls| || (Before(Opener(lang.gate, ls), i) && IsEndLine(lang.gate, ls[i]))
    ensures prons == Extract(lang, sv, ls)
  {
    if Before(Opener(lang.gate, ls), i) {
      ExtractFromOpener(lang, sv, ls, i);
    }
  }

  /** One pass of the scanning loop over line `i` of the body: the line is
      stripped; inside the region it either stops on an end line or adds
      what the line yields; outside it updates the two flags. */
  method ScanLine(lang: Language, sv: Services, lines: seq<string>, i: nat,
                  inLang: bool, inPron: bool, prons: seq<string>)
    returns (stop: bool, inLang': bool, inPron': bool, prons': seq<string>)
    requires i < |lines| && ScanState(lang, sv, StripAll(lines), i, inLang, inPron, prons)
    ensures stop ==> prons' == Extract(lang, sv, StripAll(lines))
    ensures !stop ==> ScanState(lang, sv, StripAll(lines), i + 1, inLang', inPron', prons')
  {
    ghost var ls := StripAll(lines);
    var line := Strip(lines[i]);
    var g := lang.gate;
    InsideStep(lang, sv, ls, i, inLang, inPron, prons);
    stop, inLang', inPron', prons' := false, inLang, inPron, prons;
    if inLang && (inPron || g.sub.None?) {
      if IsEndLine(g, line) {
        stop := true;
        ScanExit(lang, sv, ls, i, inLang, inPron, prons);
      } else {
        var ys := LineProns(lang, sv, line);
        prons' := prons + ys;
      }
    } else {
      OutsideStep(lang, sv, ls, i, inLang, inPron, prons);
      if inLang && g.sub == Some(line) {
        inPron' := true;
      } else if line == g.top {
        inLang' := true;
      }
    }
  }

  /** The scanning loop shared by the five languages: each line goes
      through `ScanLine` until an end line stops the scan. */
  method Scan(lang: Language, sv: Services, lines: seq<string>) returns (prons: seq<string>)
    ensures prons == Extract(lang, sv, StripAll(lines))
  {
    var inLang, inPron := false, false;
    prons := [];
    ScanStart(lang, sv, StripAll(lines));
    for i := 0 to |lines|
      invariant ScanState(lang, sv, StripAll(lines), i, inLang, inPron, prons)
    {
      var stop;
      stop, inLang, inPron, prons := ScanLine(lang, sv, lines, i, inLang, inPron, prons);
      if stop {
        return;
      }
    }
    ScanExit(lang, sv, StripAll(lines), |lines|, inLang, inPron, prons);
  }

  // What the scanners yield, stated without the loop.

  /** `p` is what some admitted capture on `line` refines to. */
  predicate Yields(lang: Language, sv: Services, line: string, p: string) {
    exists c :: c in lang.find(line) && Admits(lang, c) && p == sv.refine(Normalise(lang, sv, c)) && p != []
  }

  /** The transcriptions of a list of captures are exactly the non-empty
      refinements of its admitted captures. */
  lemma {:induction false} YieldAllMembers(lang: Language, sv: Services, cs: seq<string>, p: string)
    ensures p in YieldAll(lang, sv, cs) <==>
      exists c :: c in cs && Admits(lang, c) && p == sv.refine(Normalise(lang, sv, c)) && p != []
    decreases |cs|
  {
    if cs != [] {
      var init, last := cs[..|cs| - 1], cs[|cs| - 1];
      YieldAllMembers(lang, sv, init, p);
      assert cs == init + [last];
      if p in YieldAll(lang, sv, cs) && p !in YieldAll(lang, sv, init) {
        assert p in CaptureYield(lang, sv, last);
      }
      if exists c :: c in cs && Admits(lang, c) && p == sv.refine(Normalise(lang, sv, c)) && p != [] {
        var c :| c in cs && Admits(lang, c) && p == sv.refine(Normalise(lang, sv, c)) && p != [];
        if c != last {
          assert c in init;
        }
      }
    }
  }

  /** A run of region lines yields exactly what each of its lines yields. */
  lemma {:induction false} BodyYieldMembers(lang: Language, sv: Services, lines: seq<string>, s: nat, e: nat, p: string)
    requires s <= e <= |lines|
    ensures p in BodyYield(lang, sv, lines, s, e) <==>
      exists i :: s <= i < e && p in LineYield(lang, sv, lines[i])
    decreases e
  {
    if e > s {
      BodyYieldMembers(lang, sv, lines, s, e - 1, p);
      var before, here := BodyYield(lang, sv, lines, s, e - 1), LineYield(lang, sv, lines[e - 1]);
      assert BodyYield(lang, sv, lines, s, e) == before + here;
      assert p in before + here <==> p in before || p in here;
    }
  }

  /** Every transcription a scanner yields comes from an admitted capture on a
      line of the pronunciation region, and every admitted capture on such a
      line whose refinement is not empty is yielded. */
  lemma ExtractMembers(lang: Language, sv: Services, lines: seq<string>, p: string)
    ensures p in Extract(lang, sv, lines) <==>
      exists i :: InRegion(lang.gate, lines, i) && Yields(lang, sv, lines[i], p)
  {
    var g := lang.gate;
    match RegionStart(g, lines)
    case None =>
    case Some(s) =>
      var e := RegionEnd(g, lines, s);
      BodyYieldMembers(lang, sv, lines, s, e, p);
      if p in Extract(lang, sv, lines) {
        var i :| s <= i < e && p in LineYield(lang, sv, lines[i]);
        YieldAllMembers(lang, sv, lang.find(lines[i]), p);
        assert InRegion(g, lines, i) && Yields(lang, sv, lines[i], p);
      }
      if exists i :: InRegion(g, lines, i) && Yields(lang, sv, lines[i], p) {
        var i :| InRegion(g, lines, i) && Yields(lang, sv, lines[i], p);
        YieldAllMembers(lang, sv, lang.find(lines[i]), p);
        assert p in LineYield(lang, sv, lines[i]);
      }
  }

  /** A line of the region comes after the language header and, for a
      language with a sub-header, after a sub-header that follows it; no line
      from the start of the region up to it ends the region. */
  lemma RegionGated(g: Gate, lines: seq<string>, i: int)
    requires InRegion(g, lines, i)
    ensures exists t :: 0 <= t < i && lines[t] == g.top
    ensures g.sub.Some? ==>
      exists t, v :: 0 <= t < v < i && lines[t] == g.top && lines[v] == g.sub.value
    ensures forall k :: RegionStart(g, lines).value <= k <= i ==> !IsEndLine(g, lines[k])
  {
    var top := FirstLine(lines, 0, g.top).value;
    var o := Opener(g, lines).value;
    assert lines[top] == g.top;
    if g.sub.Some? {
      assert top < o && lines[o] == g.sub.value;
    }
  }

  /** Without its language header a body yields nothing. */
  lemma NoHeaderNoOutput(lang: Language, sv: Services, lines: seq<string>)
    requires forall k :: 0 <= k < |lines| ==> lines[k] != lang.gate.top
    ensures Extract(lang, sv, lines) == []
  {
  }

  // The lines after the end of the region are never looked at.

  lemma {:induction false} FirstLineAppend(lines: seq<string>, rest: seq<string>, from: nat, target: string)
    requires from <= |lines| && FirstLine(lines, from, target).Some?
    ensures FirstLine(lines + rest, from, target) == FirstLine(lines, from, target)
    decreases |lines| - from
  {
    assert (lines + rest)[from] == lines[from];
    if lines[from] != target {
      FirstLineAppend(lines, rest, from + 1, target);
    }
  }

  lemma {:induction false} FirstEndAppend(g: Gate, lines: seq<string>, rest: seq<string>, from: nat)
    requires from <= |lines| && FirstEnd(g, lines, from).Some?
    ensures FirstEnd(g, lines + rest, from) == FirstEnd(g, lines, from)
    decreases |lines| - from
  {
    assert (lines + rest)[from] == lines[from];
    if !IsEndLine(g, lines[from]) {
      FirstEndAppend(g, lines, rest, from + 1);
    }
  }

  lemma {:induction false} BodyYieldAppend(lang: Language, sv: Services, lines: seq<string>, rest: seq<string>, s: nat, e: nat)
    requires s <= e <= |lines|
    ensures BodyYield(lang, sv, lines + rest, s, e) == BodyYield(lang, sv, lines, s, e)
    decreases e
  {
    if e > s {
      assert (lines + rest)[e - 1] == lines[e - 1];
      BodyYieldAppend(lang, sv, lines, rest, s, e - 1);
    }
  }

  /** Once the region has been closed by an end line, lines appended to the
      body move neither its start nor its end. */
  lemma RegionIgnoresTail(g: Gate, lines: seq<string>, rest: seq<string>)
    requires RegionStart(g, lines).Some?
    requires RegionEnd(g, lines, RegionStart(g, lines).value) < |lines|
    ensures RegionStart(g, lines + rest) == RegionStart(g, lines)
    ensures RegionEnd(g, lines + rest, RegionStart(g, lines).value)
         == RegionEnd(g, lines, RegionStart(g, lines).value)
  {
    var top := FirstLine(lines, 0, g.top);
    FirstLineAppend(lines, rest, 0, g.top);
    if g.sub.Some? {
      FirstLineAppend(lines, rest, top.value + 1, g.sub.value);
    }
    assert Opener(g, lines + rest) == Opener(g, lines);
    FirstEndAppend(g, lines, rest, RegionStart(g, lines).value);
  }

  /** Once the region has been closed by an end line, whatever follows in the
      body changes nothing: the scan has already stopped. */
  lemma ExtractIgnoresTail(lang: Language, sv: Services, lines: seq<string>, rest: seq<string>)
    requires RegionStart(lang.gate, lines).Some?
    requires RegionEnd(lang.gate, lines, RegionStart(lang.gate, lines).value) < |lines|
    ensures Extract(lang, sv, lines + rest) == Extract(lang, sv, lines)
  {
    var s := RegionStart(lang.gate, lines).value;
    RegionIgnoresTail(lang.gate, lines, rest);
    BodyYieldAppend(lang, sv, lines, rest, s, RegionEnd(lang.gate, lines, s));
  }
}
