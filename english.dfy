/** `process_en_us`: the English scanner.  Its region is found like the
    others' (`==English==`, then `===Pronunciation===`, up to the first `===`
    line), but each line is treated in two stages: the plain
    `{{IPA|en|…}}` transcriptions are yielded at once, and only on a line
    where none was yielded are the region-tagged `{{a|…}} {{IPA|en|…}}`
    transcriptions collected into a buffer keyed by region label.  When the
    `===` line closes the region, one region's list is chosen from the buffer
    (U.S. first, then General American, U.K., Received Pronunciation) and
    yielded. */
module English {
  import opened Text
  import opened Phonemes
  import opened Patterns
  import opened Sections

  const EnGate := Gate("==English==", Some("===Pronunciation==="), ["==="])

  /** The two `findall`s made on a line: the payloads of the plain pattern,
      and the (region label, payload) pairs of the region-tagged pattern. */
  datatype Finders = Finders(plain: string -> seq<string>, tagged: string -> seq<(string, string)>)

  /** The pairs `findall` returns for the two-group region-tagged pattern. */
  function TaggedPairs(s: string): (ps: seq<(string, string)>)
    ensures |ps| == |Findall(EnRegionIpa, s)|
  {
    var ms := Findall(EnRegionIpa, s);
    seq(|ms|, i requires 0 <= i < |ms| => (ms[i][0], ms[i][1]))
  }

  const EnFinders := Finders(s => Captures(EnIpa, s), TaggedPairs)

  // The transcriptions of one payload.

  /** One `|`-separated alternative: skipped if it contains `xxx`, and kept
      if its refinement is not empty. */
  function KeepOne(sv: Services, part: string): seq<string> {
    if Contains(part, "xxx") then []
    else
      var r := sv.refine(part);
      if r == [] then [] else [r]
  }

  function Keep(sv: Services, parts: seq<string>): seq<string> {
    if parts == [] then []
    else Keep(sv, parts[..|parts| - 1]) + KeepOne(sv, parts[|parts| - 1])
  }

  /** The transcriptions a payload `a|b|…` stands for. */
  function Alternatives(sv: Services, payload: string): seq<string> {
    Keep(sv, Split(payload, '|'))
  }

  function PlainOf(sv: Services, cs: seq<string>): seq<string> {
    if cs == [] then []
    else PlainOf(sv, cs[..|cs| - 1]) + Alternatives(sv, cs[|cs| - 1])
  }

  /** What a line yields at once. */
  function PlainYield(f: Finders, sv: Services, line: string): seq<string> {
    PlainOf(sv, f.plain(line))
  }

  function Tag(region: string, rs: seq<string>): (ps: seq<(string, string)>)
    ensures |ps| == |rs|
    ensures forall k :: 0 <= k < |rs| ==> ps[k] == (region, rs[k])
  {
    seq(|rs|, k requires 0 <= k < |rs| => (region, rs[k]))
  }

  function TaggedOf(sv: Services, ms: seq<(string, string)>): seq<(string, string)> {
    if ms == [] then []
    else TaggedOf(sv, ms[..|ms| - 1]) + Tag(ms[|ms| - 1].0, Alternatives(sv, ms[|ms| - 1].1))
  }

  /** The (region label, transcription) candidates of a line, in order. */
  function TaggedYield(f: Finders, sv: Services, line: string): seq<(string, string)> {
    TaggedOf(sv, f.tagged(line))
  }

  // The buffer `current_prons`: a `defaultdict(list)`, kept in insertion order.

  type Buffer = seq<(string, seq<string>)>

  /** Keys are distinct and no list is empty: a key is only created by
      appending to it. */
  predicate WellFormed(buf: Buffer) {
    && (forall i, j :: 0 <= i < j < |buf| ==> buf[i].0 != buf[j].0)
    && (forall i :: 0 <= i < |buf| ==> buf[i].1 != [])
  }

  predicate HasKey(buf: Buffer, k: string) {
    exists i :: 0 <= i < |buf| && buf[i].0 == k
  }

  /** `current_prons[k].append(p)`. */
  function Add(buf: Buffer, k: string, p: string): Buffer {
    if buf == [] then [(k, [p])]
    else if buf[0].0 == k then [(k, buf[0].1 + [p])] + buf[1..]
    else [buf[0]] + Add(buf[1..], k, p)
  }

  function AddAll(buf: Buffer, ps: seq<(string, string)>): Buffer {
    if ps == [] then buf
    else Add(AddAll(buf, ps[..|ps| - 1]), ps[|ps| - 1].0, ps[|ps| - 1].1)
  }

  /** A key other than the first one's is a key of the buffer exactly when
      it is one of the rest. */
  lemma HasKeyTail(buf: Buffer, k: string)
    requires buf != [] && buf[0].0 != k
    ensures HasKey(buf, k) <==> HasKey(buf[1..], k)
  {
    if HasKey(buf, k) {
      var i :| 0 <= i < |buf| && buf[i].0 == k;
      assert buf[1..][i - 1].0 == k;
    }
    if HasKey(buf[1..], k) {
      var i :| 0 <= i < |buf[1..]| && buf[1..][i].0 == k;
      assert buf[i + 1].0 == k;
    }
  }

  /** Appending adds `p` at the end of `k`'s list and leaves every other
      entry alone; a new key goes after the existing ones, with `[p]`. */
  lemma {:induction false} AddShape(buf: Buffer, k: string, p: string)
    requires WellFormed(buf)
    ensures var r := Add(buf, k, p);
      |r| == if HasKey(buf, k) then |buf| else |buf| + 1
    ensures var r := Add(buf, k, p);
      forall i :: 0 <= i < |buf| ==> r[i] == if buf[i].0 == k then (k, buf[i].1 + [p]) else buf[i]
    ensures !HasKey(buf, k) ==> Add(buf, k, p)[|buf|] == (k, [p])
    decreases |buf|
  {
    if buf == [] {
      return;
    }
    var rest := buf[1..];
    assert WellFormed(rest) by {
      forall i, j | 0 <= i < j < |rest| ensures rest[i].0 != rest[j].0 {
        assert rest[i] == buf[i + 1] && rest[j] == buf[j + 1];
      }
    }
    if buf[0].0 != k {
      var r := Add(rest, k, p);
      AddShape(rest, k, p);
      HasKeyTail(buf, k);
      assert Add(buf, k, p) == [buf[0]] + r;
      forall i | 1 <= i < |buf| ensures Add(buf, k, p)[i] == if buf[i].0 == k then (k, buf[i].1 + [p]) else buf[i] {
        assert buf[i] == rest[i - 1];
      }
    } else {
      assert HasKey(buf, k) by {
        assert buf[0].0 == k;
      }
      forall i | 1 <= i < |buf| ensures Add(buf, k, p)[i] == buf[i] && buf[i].0 != k {
        assert buf[0].0 != buf[i].0;
      }
    }
  }

  lemma AddWellFormed(buf: Buffer, k: string, p: string)
    requires WellFormed(buf)
    ensures WellFormed(Add(buf, k, p))
  {
    AddShape(buf, k, p);
  }

  lemma {:induction false} AddAllWellFormed(buf: Buffer, ps: seq<(string, string)>)
    requires WellFormed(buf)
    ensures WellFormed(AddAll(buf, ps))
    decreases |ps|
  {
    if ps != [] {
      AddAllWellFormed(buf, ps[..|ps| - 1]);
      AddWellFormed(AddAll(buf, ps[..|ps| - 1]), ps[|ps| - 1].0, ps[|ps| - 1].1);
    }
  }

  lemma {:induction false} AddAllAppend(buf: Buffer, a: seq<(string, string)>, b: seq<(string, string)>)
    ensures AddAll(buf, a + b) == AddAll(AddAll(buf, a), b)
    decreases |b|
  {
    if b != [] {
      assert (a + b)[..|a + b| - 1] == a + b[..|b| - 1];
      AddAllAppend(buf, a, b[..|b| - 1]);
    } else {
      assert a + b == a;
    }
  }

  lemma AddAllSnoc(buf: Buffer, ps: seq<(string, string)>, q: (string, string))
    ensures AddAll(buf, ps + [q]) == Add(AddAll(buf, ps), q.0, q.1)
  {
    assert (ps + [q])[..|ps|] == ps;
  }

  // Choosing the region at the end of the section.

  datatype Accent = US | UK | GA | RP | Other

  /** The `if`/`elif` chain over a region label. */
  function Classify(region: string): Accent {
    if Contains(region, "US") then US
    else if Contains(region, "UK") then UK
    else if Contains(region, "GA") || Contains(region, "GenAm") then GA
    else if Contains(region, "RP") then RP
    else Other
  }

  /** The list of the last label of accent `a`, or nothing: the loop over the
      buffer overwrites the accent's variable at every label of that accent. */
  function Pick(buf: Buffer, a: Accent): seq<string> {
    if buf == [] then []
    else if Classify(buf[|buf| - 1].0) == a then buf[|buf| - 1].1
    else Pick(buf[..|buf| - 1], a)
  }

  /** `us or ga or uk or rp or []`. */
  function Best(buf: Buffer): seq<string> {
    var us, ga, uk, rp := Pick(buf, US), Pick(buf, GA), Pick(buf, UK), Pick(buf, RP);
    if us != [] then us else if ga != [] then ga else if uk != [] then uk else rp
  }

  predicate HasAccent(buf: Buffer, a: Accent) {
    exists i :: 0 <= i < |buf| && Classify(buf[i].0) == a
  }

  /** `Pick` is the list of the last label of the accent, and nothing when
      no label has it. */
  lemma {:induction false} PickIsLast(buf: Buffer, a: Accent, i: nat)
    requires i < |buf| && Classify(buf[i].0) == a
    requires forall j :: i < j < |buf| ==> Classify(buf[j].0) != a
    ensures Pick(buf, a) == buf[i].1
    decreases |buf|
  {
    if i < |buf| - 1 {
      PickIsLast(buf[..|buf| - 1], a, i);
    }
  }

  lemma {:induction false} PickAbsent(buf: Buffer, a: Accent)
    requires !HasAccent(buf, a)
    ensures Pick(buf, a) == []
    decreases |buf|
  {
    if buf != [] {
      assert Classify(buf[|buf| - 1].0) != a;
      PickAbsent(buf[..|buf| - 1], a);
    }
  }

  /** In a well-formed buffer an accent's pick is non-empty exactly when
      some label has that accent. */
  lemma {:induction false} PickPresent(buf: Buffer, a: Accent)
    requires WellFormed(buf)
    ensures Pick(buf, a) != [] <==> HasAccent(buf, a)
    decreases |buf|
  {
    if buf == [] {
    } else if Classify(buf[|buf| - 1].0) == a {
      assert HasAccent(buf, a);
    } else {
      var init := buf[..|buf| - 1];
      PickPresent(init, a);
      if HasAccent(buf, a) {
        var i :| 0 <= i < |buf| && Classify(buf[i].0) == a;
        assert init[i].0 == buf[i].0;
      }
      if HasAccent(init, a) {
        var i :| 0 <= i < |init| && Classify(init[i].0) == a;
        assert buf[i].0 == init[i].0;
      }
    }
  }

  /** The order of preference: U.S., then General American, then U.K., then
      Received Pronunciation; labels of no accent are never chosen, and
      nothing is chosen when no label has an accent. */
  lemma BestOrder(buf: Buffer)
    requires WellFormed(buf)
    ensures HasAccent(buf, US) ==> Best(buf) == Pick(buf, US) != []
    ensures !HasAccent(buf, US) && HasAccent(buf, GA) ==> Best(buf) == Pick(buf, GA) != []
    ensures !HasAccent(buf, US) && !HasAccent(buf, GA) && HasAccent(buf, UK) ==>
      Best(buf) == Pick(buf, UK) != []
    ensures !HasAccent(buf, US) && !HasAccent(buf, GA) && !HasAccent(buf, UK) ==>
      Best(buf) == Pick(buf, RP)
    ensures Best(buf) == [] <==>
      !HasAccent(buf, US) && !HasAccent(buf, GA) && !HasAccent(buf, UK) && !HasAccent(buf, RP)
  {
    PickPresent(buf, US);
    PickPresent(buf, GA);
    PickPresent(buf, UK);
    PickPresent(buf, RP);
  }

  lemma PickStep(buf: Buffer, j: nat, a: Accent)
    requires j < |buf|
    ensures Pick(buf[..j + 1], a) == if Classify(buf[j].0) == a then buf[j].1 else Pick(buf[..j], a)
  {
    assert buf[..j + 1][..j] == buf[..j];
  }

  /** The loop over `current_prons.items()` and the choice after it. */
  method Resolve(buf: Buffer) returns (best: seq<string>)
    ensures best == Best(buf)
  {
    var us, ga, uk, rp := [], [], [], [];
    var j := 0;
    while j < |buf|
      invariant 0 <= j <= |buf|
      invariant us == Pick(buf[..j], US) && ga == Pick(buf[..j], GA)
      invariant uk == Pick(buf[..j], UK) && rp == Pick(buf[..j], RP)
    {
      var (region, prons) := buf[j];
      PickStep(buf, j, US);
      PickStep(buf, j, GA);
      PickStep(buf, j, UK);
      PickStep(buf, j, RP);
      if Contains(region, "US") {
        us := prons;
      } else if Contains(region, "UK") {
        uk := prons;
      } else if Contains(region, "GA") || Contains(region, "GenAm") {
        ga := prons;
      } else if Contains(region, "RP") {
        rp := prons;
      }
      j := j + 1;
    }
    assert buf[..j] == buf;
    best := if us != [] then us else if ga != [] then ga else if uk != [] then uk else rp;
  }

  // The loops over captures and alternatives.

  lemma KeepStep(sv: Services, parts: seq<string>, j: nat)
    requires j < |parts|
    ensures Keep(sv, parts[..j + 1]) == Keep(sv, parts[..j]) + KeepOne(sv, parts[j])
  {
    assert parts[..j + 1][..j] == parts[..j];
  }

  /** The loop over `ipa_prons.split("|")`. */
  method KeepParts(sv: Services, payload: string) returns (kept: seq<string>)
    ensures kept == Alternatives(sv, payload)
  {
    var parts := Split(payload, '|');
    kept := [];
    var j := 0;
    while j < |parts|
      invariant 0 <= j <= |parts|
      invariant kept == Keep(sv, parts[..j])
    {
      var part := parts[j];
      KeepStep(sv, parts, j);
      if !Contains(part, "xxx") {
        var r := sv.refine(part);
        if r != [] {
          kept := kept + [r];
        }
      }
      j := j + 1;
    }
    assert parts[..j] == parts;
  }

  lemma PlainStep(sv: Services, cs: seq<string>, j: nat)
    requires j < |cs|
    ensures PlainOf(sv, cs[..j + 1]) == PlainOf(sv, cs[..j]) + Alternatives(sv, cs[j])
  {
    assert cs[..j + 1][..j] == cs[..j];
  }

  /** The plain transcriptions of a line, and `pron_found`. */
  method PlainProns(f: Finders, sv: Services, line: string) returns (prons: seq<string>, found: bool)
    ensures prons == PlainYield(f, sv, line)
    ensures found <==> prons != []
  {
    var caps := f.plain(line);
    prons, found := [], false;
    var j := 0;
    while j < |caps|
      invariant 0 <= j <= |caps|
      invariant prons == PlainOf(sv, caps[..j])
      invariant found <==> prons != []
    {
      var kept := KeepParts(sv, caps[j]);
      PlainStep(sv, caps, j);
      prons := prons + kept;
      if kept != [] {
        found := true;
      }
      j := j + 1;
    }
    assert caps[..j] == caps;
  }

  lemma TaggedStep(sv: Services, ms: seq<(string, string)>, j: nat)
    requires j < |ms|
    ensures TaggedOf(sv, ms[..j + 1]) == TaggedOf(sv, ms[..j]) + Tag(ms[j].0, Alternatives(sv, ms[j].1))
  {
    assert ms[..j + 1][..j] == ms[..j];
  }

  lemma TagStep(region: string, rs: seq<string>, k: nat)
    requires k < |rs|
    ensures Tag(region, rs[..k + 1]) == Tag(region, rs[..k]) + [(region, rs[k])]
  {
  }

  /** The loop over the region-tagged matches of a line, appending each
      candidate to its region's list. */
  method BufferTagged(f: Finders, sv: Services, line: string, buf: Buffer) returns (buf': Buffer)
    ensures buf' == AddAll(buf, TaggedYield(f, sv, line))
  {
    var ms := f.tagged(line);
    buf' := buf;
    var j := 0;
    while j < |ms|
      invariant 0 <= j <= |ms|
      invariant buf' == AddAll(buf, TaggedOf(sv, ms[..j]))
    {
      var (region, payload) := ms[j];
      var kept := KeepParts(sv, payload);
      ghost var mid := buf';
      var k := 0;
      assert kept[..0] == [];
      while k < |kept|
        invariant 0 <= k <= |kept|
        invariant buf' == AddAll(mid, Tag(region, kept[..k]))
      {
        TagStep(region, kept, k);
        AddAllSnoc(mid, Tag(region, kept[..k]), (region, kept[k]));
        buf' := Add(buf', region, kept[k]);
        k := k + 1;
      }
      assert kept[..k] == kept;
      AddAllAppend(buf, TaggedOf(sv, ms[..j]), Tag(region, kept));
      TaggedStep(sv, ms, j);
      j := j + 1;
    }
    assert ms[..j] == ms;
  }

  // What the English scanner yields, stated without the loop.

  /** The buffer after one region line: unchanged when the line yielded a
      plain transcription, else with the line's candidates appended. */
  function LineBuffer(f: Finders, sv: Services, buf: Buffer, line: string): Buffer {
    if PlainYield(f, sv, line) != [] then buf else AddAll(buf, TaggedYield(f, sv, line))
  }

  /** What lines `s` to `e - 1` give, one after the other, under `ly`. */
  function Concat(ly: string -> seq<string>, ls: seq<string>, s: nat, e: nat): seq<string>
    requires s <= e <= |ls|
    decreases e
  {
    if e == s then [] else Concat(ly, ls, s, e - 1) + ly(ls[e - 1])
  }

  /** The buffer after lines `s` to `e - 1`, starting empty, under `step`. */
  function Fold(step: (Buffer, string) -> Buffer, ls: seq<string>, s: nat, e: nat): Buffer
    requires s <= e <= |ls|
    decreases e
  {
    if e == s then [] else step(Fold(step, ls, s, e - 1), ls[e - 1])
  }

  function PlainLines(f: Finders, sv: Services): string -> seq<string> {
    line => PlainYield(f, sv, line)
  }

  function BufferLines(f: Finders, sv: Services): (Buffer, string) -> Buffer {
    (buf, line) => LineBuffer(f, sv, buf, line)
  }

  /** The plain transcriptions of lines `s` to `e - 1`. */
  function EnglishBody(f: Finders, sv: Services, ls: seq<string>, s: nat, e: nat): seq<string>
    requires s <= e <= |ls|
  {
    Concat(PlainLines(f, sv), ls, s, e)
  }

  /** The buffer once lines `s` to `e - 1` are scanned. */
  function BufferOf(f: Finders, sv: Services, ls: seq<string>, s: nat, e: nat): Buffer
    requires s <= e <= |ls|
  {
    Fold(BufferLines(f, sv), ls, s, e)
  }

  /** The whole output on a body given as stripped lines: the plain
      transcriptions of the region, then, only if a `===` line closes the
      region, the chosen region's list. */
  function EnglishExtract(f: Finders, sv: Services, ls: seq<string>): seq<string> {
    match RegionStart(EnGate, ls)
    case None => []
    case Some(s) =>
      var e := RegionEnd(EnGate, ls, s);
      EnglishBody(f, sv, ls, s, e) + (if e < |ls| then Best(BufferOf(f, sv, ls, s, e)) else [])
  }

  // The scanning loop.

  ghost predicate EnState(f: Finders, sv: Services, ls: seq<string>, i: nat, inLang: bool, inPron: bool,
                          prons: seq<string>, buf: Buffer)
    requires i <= |ls|
  {
    var open := Opener(EnGate, ls);
    && GateState(EnGate, ls, i, inLang, inPron)
    && (Before(open, i) ==>
          && NoEndBetween(EnGate, ls, open.value + 1, i)
          && prons == EnglishBody(f, sv, ls, open.value + 1, i)
          && buf == BufferOf(f, sv, ls, open.value + 1, i))
    && (!Before(open, i) ==> prons == [] && buf == [])
  }

  lemma EnStart(f: Finders, sv: Services, ls: seq<string>)
    ensures EnState(f, sv, ls, 0, false, false, [], [])
  {
  }

  lemma EnInsideStep(f: Finders, sv: Services, ls: seq<string>, i: nat, inLang: bool, inPron: bool,
                     prons: seq<string>, buf: Buffer)
    requires i < |ls| && EnState(f, sv, ls, i, inLang, inPron, prons, buf)
    ensures (inLang && inPron) == Before(Opener(EnGate, ls), i)
    ensures Before(Opener(EnGate, ls), i) && !IsEndLine(EnGate, ls[i]) ==>
      EnState(f, sv, ls, i + 1, inLang, inPron, prons + PlainYield(f, sv, ls[i]), LineBuffer(f, sv, buf, ls[i]))
  {
    var open := Opener(EnGate, ls);
    GateInside(EnGate, ls, i, inLang, inPron);
    if Before(open, i) && !IsEndLine(EnGate, ls[i]) {
      assert EnglishBody(f, sv, ls, open.value + 1, i + 1) == prons + PlainYield(f, sv, ls[i]);
      assert BufferOf(f, sv, ls, open.value + 1, i + 1) == LineBuffer(f, sv, buf, ls[i]);
      assert NoEndBetween(EnGate, ls, open.value + 1, i + 1);
    }
  }

  lemma EnOutsideStep(f: Finders, sv: Services, ls: seq<string>, i: nat, inLang: bool, inPron: bool,
                      prons: seq<string>, buf: Buffer)
    requires i < |ls| && EnState(f, sv, ls, i, inLang, inPron, prons, buf)
    requires !Before(Opener(EnGate, ls), i)
    ensures var setsPron := inLang && ls[i] == "===Pronunciation===";
      var setsLang := !setsPron && ls[i] == "==English==";
      EnState(f, sv, ls, i + 1, inLang || setsLang, inPron || setsPron, prons, buf)
  {
    GateOutside(EnGate, ls, i, inLang, inPron);
  }

  lemma EnExit(f: Finders, sv: Services, ls: seq<string>, i: nat, inLang: bool, inPron: bool,
               prons: seq<string>, buf: Buffer)
    requires i <= |ls| && EnState(f, sv, ls, i, inLang, inPron, prons, buf)
    requires i == |ls| || (Before(Opener(EnGate, ls), i) && IsEndLine(EnGate, ls[i]))
    ensures i == |ls| ==> prons == EnglishExtract(f, sv, ls)
    ensures i < |ls| ==> prons + Best(buf) == EnglishExtract(f, sv, ls)
  {
    if Before(Opener(EnGate, ls), i) {
      RegionFromOpener(EnGate, ls, i);
    }
  }

  lemma EndLineIsSection(line: string)
    ensures IsEndLine(EnGate, line) <==> StartsWith(line, "===")
  {
    if StartsWith(line, "===") {
      assert StartsWith(line, EnGate.ends[0]);
    }
  }

  /** One pass of the loop over line `i` of the body. */
  method EnglishLine(f: Finders, sv: Services, lines: seq<string>, i: nat, inLang: bool, inPron: bool,
                     prons: seq<string>, buf: Buffer)
    returns (stop: bool, inLang': bool, inPron': bool, prons': seq<string>, buf': Buffer)
    requires i < |lines| && EnState(f, sv, StripAll(lines), i, inLang, inPron, prons, buf)
    ensures stop ==> prons' == EnglishExtract(f, sv, StripAll(lines))
    ensures !stop ==> EnState(f, sv, StripAll(lines), i + 1, inLang', inPron', prons', buf')
  {
    ghost var ls := StripAll(lines);
    var line := Strip(lines[i]);
    EnInsideStep(f, sv, ls, i, inLang, inPron, prons, buf);
    EndLineIsSection(line);
    stop, inLang', inPron', prons', buf' := false, inLang, inPron, prons, buf;
    if inLang && inPron {
      if StartsWith(line, "===") {
        stop := true;
        EnExit(f, sv, ls, i, inLang, inPron, prons, buf);
        if buf != [] {
          var best := Resolve(buf);
          prons' := prons + best;
          buf' := [];
        } else {
          assert Best(buf) == [];
        }
      } else {
        var plain, found := PlainProns(f, sv, line);
        prons' := prons + plain;
        if !found {
          buf' := BufferTagged(f, sv, line, buf);
        }
      }
    } else {
      EnOutsideStep(f, sv, ls, i, inLang, inPron, prons, buf);
      if inLang && line == "===Pronunciation===" {
        inPron' := true;
      } else if line == "==English==" {
        inLang' := true;
      }
    }
  }

  /** The scanning loop of `process_en_us`, with services and finders given. */
  method ScanEnglish(f: Finders, sv: Services, lines: seq<string>) returns (prons: seq<string>)
    ensures prons == EnglishExtract(f, sv, StripAll(lines))
  {
    var inLang, inPron := false, false;
    var buf: Buffer := [];
    prons := [];
    var i := 0;
    EnStart(f, sv, StripAll(lines));
    while i < |lines|
      invariant i <= |lines| == |StripAll(lines)|
      invariant EnState(f, sv, StripAll(lines), i, inLang, inPron, prons, buf)
    {
      var stop;
      stop, inLang, inPron, prons, buf := EnglishLine(f, sv, lines, i, inLang, inPron, prons, buf);
      if stop {
        return;
      }
      i := i + 1;
    }
    EnExit(f, sv, StripAll(lines), i, inLang, inPron, prons, buf);
  }

  /** `process_en_us` on an entry body given as lines. */
  method ProcessEnUs(u: Unicode, lines: seq<string>) returns (prons: seq<string>)
    ensures prons == EnglishExtract(EnFinders, ServicesOf(u), StripAll(lines))
    ensures forall p :: p in prons ==> Clean(p)
  {
    prons := ScanEnglish(EnFinders, ServicesOf(u), lines);
    ServicesClean(u);
    forall p | p in prons ensures Clean(p) {
      EnglishClean(EnFinders, ServicesOf(u), StripAll(lines), p);
    }
  }

  // Properties of the English output.

  /** Every step of the buffer keeps `inv`, so the buffer after any run of
      lines does. */
  lemma {:induction false} FoldKeeps(step: (Buffer, string) -> Buffer, inv: Buffer -> bool,
                                     ls: seq<string>, s: nat, e: nat)
    requires s <= e <= |ls|
    requires inv([])
    requires forall buf, line :: inv(buf) ==> inv(step(buf, line))
    ensures inv(Fold(step, ls, s, e))
    decreases e
  {
    if e > s {
      FoldKeeps(step, inv, ls, s, e - 1);
    }
  }

  lemma BufferOfWellFormed(f: Finders, sv: Services, ls: seq<string>, s: nat, e: nat)
    requires s <= e <= |ls|
    ensures WellFormed(BufferOf(f, sv, ls, s, e))
  {
    forall buf, line | WellFormed(buf) ensures WellFormed(BufferLines(f, sv)(buf, line)) {
      if PlainYield(f, sv, line) == [] {
        AddAllWellFormed(buf, TaggedYield(f, sv, line));
      }
    }
    FoldKeeps(BufferLines(f, sv), WellFormed, ls, s, e);
  }

  /** The services refine every string to a clean transcription or to
      nothing, as `_refine_pron` does. */
  ghost predicate CleanServices(sv: Services) {
    forall s :: sv.refine(s) != [] ==> Clean(sv.refine(s))
  }

  lemma ServicesClean(u: Unicode)
    ensures CleanServices(ServicesOf(u))
  {
    forall s | ServicesOf(u).refine(s) != [] ensures Clean(ServicesOf(u).refine(s)) {
      RefinedClean(u.nfd, s);
    }
  }

  /** Every transcription in the buffer is clean. */
  predicate BufferClean(buf: Buffer) {
    forall i, k :: 0 <= i < |buf| && 0 <= k < |buf[i].1| ==> Clean(buf[i].1[k])
  }

  lemma {:induction false} KeepClean(sv: Services, parts: seq<string>, r: string)
    requires CleanServices(sv) && r in Keep(sv, parts)
    ensures Clean(r)
    decreases |parts|
  {
    var init, last := parts[..|parts| - 1], parts[|parts| - 1];
    if r in Keep(sv, init) {
      KeepClean(sv, init, r);
    } else {
      assert r in KeepOne(sv, last);
    }
  }

  lemma {:induction false} PlainOfClean(sv: Services, cs: seq<string>, r: string)
    requires CleanServices(sv) && r in PlainOf(sv, cs)
    ensures Clean(r)
    decreases |cs|
  {
    var init, last := cs[..|cs| - 1], cs[|cs| - 1];
    if r in PlainOf(sv, init) {
      PlainOfClean(sv, init, r);
    } else {
      KeepClean(sv, Split(last, '|'), r);
    }
  }

  lemma {:induction false} TaggedOfClean(sv: Services, ms: seq<(string, string)>, k: nat)
    requires CleanServices(sv) && k < |TaggedOf(sv, ms)|
    ensures Clean(TaggedOf(sv, ms)[k].1)
    decreases |ms|
  {
    var init, last := ms[..|ms| - 1], ms[|ms| - 1];
    var a := TaggedOf(sv, init);
    if k < |a| {
      TaggedOfClean(sv, init, k);
    } else {
      var rs := Alternatives(sv, last.1);
      assert TaggedOf(sv, ms)[k].1 == rs[k - |a|];
      KeepClean(sv, Split(last.1, '|'), rs[k - |a|]);
    }
  }

  lemma {:induction false} AddClean(buf: Buffer, k: string, p: string)
    requires BufferClean(buf) && Clean(p)
    ensures BufferClean(Add(buf, k, p))
    decreases |buf|
  {
    if buf != [] && buf[0].0 != k {
      AddClean(buf[1..], k, p);
      var r := Add(buf[1..], k, p);
      assert Add(buf, k, p) == [buf[0]] + r;
    }
  }

  lemma {:induction false} AddAllClean(buf: Buffer, ps: seq<(string, string)>)
    requires BufferClean(buf)
    requires forall k :: 0 <= k < |ps| ==> Clean(ps[k].1)
    ensures BufferClean(AddAll(buf, ps))
    decreases |ps|
  {
    if ps != [] {
      AddAllClean(buf, ps[..|ps| - 1]);
      AddClean(AddAll(buf, ps[..|ps| - 1]), ps[|ps| - 1].0, ps[|ps| - 1].1);
    }
  }

  lemma BufferOfClean(f: Finders, sv: Services, ls: seq<string>, s: nat, e: nat)
    requires CleanServices(sv) && s <= e <= |ls|
    ensures BufferClean(BufferOf(f, sv, ls, s, e))
  {
    forall buf, line | BufferClean(buf) ensures BufferClean(BufferLines(f, sv)(buf, line)) {
      var ps := TaggedYield(f, sv, line);
      forall k | 0 <= k < |ps| ensures Clean(ps[k].1) {
        TaggedOfClean(sv, f.tagged(line), k);
      }
      AddAllClean(buf, ps);
    }
    FoldKeeps(BufferLines(f, sv), BufferClean, ls, s, e);
  }

  /** The chosen list is one of the buffer's lists. */
  lemma {:induction false} PickFromBuffer(buf: Buffer, a: Accent)
    ensures Pick(buf, a) == [] || exists i :: 0 <= i < |buf| && buf[i].1 == Pick(buf, a)
    decreases |buf|
  {
    if buf != [] && Classify(buf[|buf| - 1].0) != a {
      var init := buf[..|buf| - 1];
      PickFromBuffer(init, a);
      if Pick(init, a) != [] {
        var i :| 0 <= i < |init| && init[i].1 == Pick(init, a);
        assert buf[i] == init[i];
      }
    }
  }

  lemma BestFromBuffer(buf: Buffer)
    ensures Best(buf) == [] || exists i :: 0 <= i < |buf| && buf[i].1 == Best(buf)
  {
    PickFromBuffer(buf, US);
    PickFromBuffer(buf, GA);
    PickFromBuffer(buf, UK);
    PickFromBuffer(buf, RP);
  }

  lemma {:induction false} ConcatMembers(ly: string -> seq<string>, ls: seq<string>, s: nat, e: nat, p: string)
    requires s <= e <= |ls|
    ensures p in Concat(ly, ls, s, e) <==> exists i :: s <= i < e && p in ly(ls[i])
    decreases e
  {
    if e > s {
      ConcatMembers(ly, ls, s, e - 1, p);
      var before, here := Concat(ly, ls, s, e - 1), ly(ls[e - 1]);
      assert Concat(ly, ls, s, e) == before + here;
      assert p in before + here <==> p in before || p in here;
    }
  }

  lemma EnglishBodyMembers(f: Finders, sv: Services, ls: seq<string>, s: nat, e: nat, p: string)
    requires s <= e <= |ls|
    ensures p in EnglishBody(f, sv, ls, s, e) <==> exists i :: s <= i < e && p in PlainYield(f, sv, ls[i])
  {
    ConcatMembers(PlainLines(f, sv), ls, s, e, p);
  }

  /** Every transcription the English scanner yields, plain or chosen from
      the buffer, is clean. */
  lemma EnglishClean(f: Finders, sv: Services, ls: seq<string>, p: string)
    requires CleanServices(sv) && p in EnglishExtract(f, sv, ls)
    ensures Clean(p)
  {
    var s := RegionStart(EnGate, ls).value;
    var e := RegionEnd(EnGate, ls, s);
    if p in EnglishBody(f, sv, ls, s, e) {
      EnglishBodyMembers(f, sv, ls, s, e, p);
      var i :| s <= i < e && p in PlainYield(f, sv, ls[i]);
      PlainOfClean(sv, f.plain(ls[i]), p);
    } else {
      var buf := BufferOf(f, sv, ls, s, e);
      assert p in Best(buf);
      BestFromBuffer(buf);
      var i :| 0 <= i < |buf| && buf[i].1 == Best(buf);
      BufferOfClean(f, sv, ls, s, e);
      var k :| 0 <= k < |buf[i].1| && buf[i].1[k] == p;
    }
  }

  /** The plain pattern, and the region-tagged one, each match at most once on
      a line: both start with a greedy `.+`. */
  lemma OneMatchPerLine(line: string)
    requires '\n' !in line
    ensures |EnFinders.plain(line)| <= 1
    ensures |EnFinders.tagged(line)| <= 1
  {
    GreedyAtMostOne(EnIpa, line, 0);
    GreedyAtMostOne(EnRegionIpa, line, 0);
  }

  /** The buffer only grows on a line where the plain pattern did match, but
      every alternative it captured was dropped: any line the region-tagged
      pattern matches is matched by the plain pattern too. */
  lemma BufferGrowsOnlyOnDroppedPlain(sv: Services, buf: Buffer, line: string)
    requires '\n' !in line
    ensures LineBuffer(EnFinders, sv, buf, line) != buf ==>
      EnFinders.plain(line) != [] && PlainYield(EnFinders, sv, line) == []
  {
    if LineBuffer(EnFinders, sv, buf, line) != buf {
      assert EnFinders.tagged(line) != [];
      assert Findall(EnRegionIpa, line) != [];
      RegionLineMatchesPlain(line, 0);
    }
  }

  /** When no `===` line follows the region, the buffered candidates are
      never yielded: the output is exactly the plain transcriptions of the
      region's lines. */
  lemma UnclosedDropsBuffer(f: Finders, sv: Services, ls: seq<string>, p: string)
    requires RegionStart(EnGate, ls).Some?
    requires RegionEnd(EnGate, ls, RegionStart(EnGate, ls).value) == |ls|
    ensures p in EnglishExtract(f, sv, ls) <==>
      exists i :: InRegion(EnGate, ls, i) && p in PlainYield(f, sv, ls[i])
  {
    var s := RegionStart(EnGate, ls).value;
    EnglishBodyMembers(f, sv, ls, s, |ls|, p);
    assert EnglishExtract(f, sv, ls) == EnglishBody(f, sv, ls, s, |ls|);
  }

  /** Every transcription of the English scanner is a plain transcription
      of a line of the region, or, when a `===` line closes the region, an
      entry of the list chosen from the buffer that the region's lines built. */
  lemma EnglishMembers(f: Finders, sv: Services, ls: seq<string>, p: string)
    ensures p in EnglishExtract(f, sv, ls) <==>
      || (exists i :: InRegion(EnGate, ls, i) && p in PlainYield(f, sv, ls[i]))
      || (&& RegionStart(EnGate, ls).Some?
          && RegionEnd(EnGate, ls, RegionStart(EnGate, ls).value) < |ls|
          && p in Best(BufferOf(f, sv, ls, RegionStart(EnGate, ls).value,
                                RegionEnd(EnGate, ls, RegionStart(EnGate, ls).value))))
  {
    match RegionStart(EnGate, ls)
    case None =>
    case Some(s) =>
      var e := RegionEnd(EnGate, ls, s);
      EnglishBodyMembers(f, sv, ls, s, e, p);
      var chosen := if e < |ls| then Best(BufferOf(f, sv, ls, s, e)) else [];
      assert EnglishExtract(f, sv, ls) == EnglishBody(f, sv, ls, s, e) + chosen;
  }

  lemma {:induction false} ConcatAppend(ly: string -> seq<string>, ls: seq<string>, rest: seq<string>, s: nat, e: nat)
    requires s <= e <= |ls|
    ensures Concat(ly, ls + rest, s, e) == Concat(ly, ls, s, e)
    decreases e
  {
    if e > s {
      assert (ls + rest)[e - 1] == ls[e - 1];
      ConcatAppend(ly, ls, rest, s, e - 1);
    }
  }

  lemma {:induction false} FoldAppend(step: (Buffer, string) -> Buffer, ls: seq<string>, rest: seq<string>, s: nat, e: nat)
    requires s <= e <= |ls|
    ensures Fold(step, ls + rest, s, e) == Fold(step, ls, s, e)
    decreases e
  {
    if e > s {
      assert (ls + rest)[e - 1] == ls[e - 1];
      FoldAppend(step, ls, rest, s, e - 1);
    }
  }

  /** Once a `===` line has closed the region, the lines after it change
      nothing, buffered candidates included. */
  lemma EnglishIgnoresTail(f: Finders, sv: Services, ls: seq<string>, rest: seq<string>)
    requires RegionStart(EnGate, ls).Some?
    requires RegionEnd(EnGate, ls, RegionStart(EnGate, ls).value) < |ls|
    ensures EnglishExtract(f, sv, ls + rest) == EnglishExtract(f, sv, ls)
  {
    var s := RegionStart(EnGate, ls).value;
    var e := RegionEnd(EnGate, ls, s);
    RegionIgnoresTail(EnGate, ls, rest);
    ConcatAppend(PlainLines(f, sv), ls, rest, s, e);
    FoldAppend(BufferLines(f, sv), ls, rest, s, e);
  }

  // Where each English transcription comes from, capture by capture.

  /** `p` is the non-empty refinement of a `|`-separated alternative of
      `payload` that does not contain `xxx`. */
  ghost predicate FromPayload(sv: Services, payload: string, p: string) {
    exists a :: a in Split(payload, '|') && !Contains(a, "xxx") && p == sv.refine(a) && p != []
  }

  /** The kept alternatives are exactly the non-empty refinements of the
      parts free of `xxx`. */
  lemma {:induction false} KeepMembers(sv: Services, parts: seq<string>, p: string)
    ensures p in Keep(sv, parts) <==>
      exists a :: a in parts && !Contains(a, "xxx") && p == sv.refine(a) && p != []
    decreases |parts|
  {
    if parts != [] {
      var init, last := parts[..|parts| - 1], parts[|parts| - 1];
      KeepMembers(sv, init, p);
      assert parts == init + [last];
      if p in Keep(sv, parts) && p !in Keep(sv, init) {
        assert p in KeepOne(sv, last);
      }
      if exists a :: a in parts && !Contains(a, "xxx") && p == sv.refine(a) && p != [] {
        var a :| a in parts && !Contains(a, "xxx") && p == sv.refine(a) && p != [];
        if a != last {
          assert a in init;
        }
      }
    }
  }

  lemma AlternativesMembers(sv: Services, payload: string, p: string)
    ensures p in Alternatives(sv, payload) <==> FromPayload(sv, payload, p)
  {
    KeepMembers(sv, Split(payload, '|'), p);
  }

  /** Something in `init + [last]` satisfies `P` exactly when something in
      `init` does or `last` does. */
  lemma ExistsSnoc<T>(init: seq<T>, last: T, P: T -> bool)
    ensures (exists c :: c in init + [last] && P(c)) <==> (exists c :: c in init && P(c)) || P(last)
  {
    if exists c :: c in init + [last] && P(c) {
      var c :| c in init + [last] && P(c);
      if c != last {
        assert c in init;
      }
    }
    if P(last) {
      assert last in init + [last];
    }
  }

  /** The plain transcriptions of a list of captures come from the
      alternatives of those captures, and all of them are yielded. */
  lemma {:induction false} PlainOfMembers(sv: Services, cs: seq<string>, p: string)
    ensures p in PlainOf(sv, cs) <==> exists c :: c in cs && FromPayload(sv, c, p)
    decreases |cs|
  {
    if cs != [] {
      var init, last := cs[..|cs| - 1], cs[|cs| - 1];
      PlainOfMembers(sv, init, p);
      AlternativesMembers(sv, last, p);
      assert PlainOf(sv, cs) == PlainOf(sv, init) + Alternatives(sv, last);
      assert cs == init + [last];
      ExistsSnoc(init, last, c => FromPayload(sv, c, p));
    }
  }

  lemma TagMembers(region: string, rs: seq<string>, r: string, p: string)
    ensures (r, p) in Tag(region, rs) <==> r == region && p in rs
  {
    if (r, p) in Tag(region, rs) {
      var k :| 0 <= k < |rs| && Tag(region, rs)[k] == (r, p);
    }
    if r == region && p in rs {
      var k :| 0 <= k < |rs| && rs[k] == p;
      assert Tag(region, rs)[k] == (r, p);
    }
  }

  /** The candidates of one region-tagged match labelled `m.0` are its
      label paired with each transcription of its payload. */
  lemma TagOfMatch(sv: Services, m: (string, string), r: string, p: string)
    ensures (r, p) in Tag(m.0, Alternatives(sv, m.1)) <==> m.0 == r && FromPayload(sv, m.1, p)
  {
    TagMembers(m.0, Alternatives(sv, m.1), r, p);
    AlternativesMembers(sv, m.1, p);
  }

  /** A candidate `(r, p)` comes from a region-tagged match labelled `r`
      whose payload has `p` among its alternatives, and every such pair is a
      candidate. */
  lemma {:induction false} TaggedOfMembers(sv: Services, ms: seq<(string, string)>, r: string, p: string)
    ensures (r, p) in TaggedOf(sv, ms) <==> exists m :: m in ms && m.0 == r && FromPayload(sv, m.1, p)
    decreases |ms|
  {
    if ms != [] {
      var init, last := ms[..|ms| - 1], ms[|ms| - 1];
      TaggedOfMembers(sv, init, r, p);
      TagOfMatch(sv, last, r, p);
      assert TaggedOf(sv, ms) == TaggedOf(sv, init) + Tag(last.0, Alternatives(sv, last.1));
      assert ms == init + [last];
      ExistsSnoc(init, last, (m: (string, string)) => m.0 == r && FromPayload(sv, m.1, p));
    }
  }

  /** `p` is in the list of label `k`. */
  predicate InBuffer(buf: Buffer, k: string, p: string) {
    exists i :: 0 <= i < |buf| && buf[i].0 == k && p in buf[i].1
  }

  /** After `current_prons[k].append(p)` the buffer holds what it held and
      `p` under `k`, and nothing else. */
  lemma AddMembers(buf: Buffer, k: string, p: string, k': string, p': string)
    requires WellFormed(buf)
    ensures InBuffer(Add(buf, k, p), k', p') <==> InBuffer(buf, k', p') || (k' == k && p' == p)
  {
    var r := Add(buf, k, p);
    AddShape(buf, k, p);
    if InBuffer(r, k', p') {
      var i :| 0 <= i < |r| && r[i].0 == k' && p' in r[i].1;
      if i < |buf| {
        if buf[i].0 == k && p' != p {
          assert p' in buf[i].1;
        }
        assert InBuffer(buf, k', p') || (k' == k && p' == p);
      }
    }
    if InBuffer(buf, k', p') {
      var i :| 0 <= i < |buf| && buf[i].0 == k' && p' in buf[i].1;
      assert r[i].0 == k' && p' in r[i].1;
    }
    if k' == k && p' == p {
      if HasKey(buf, k) {
        var i :| 0 <= i < |buf| && buf[i].0 == k;
        assert r[i] == (k, buf[i].1 + [p]);
      } else {
        assert r[|buf|] == (k, [p]);
      }
    }
  }

  lemma {:induction false} AddAllMembers(buf: Buffer, ps: seq<(string, string)>, k: string, p: string)
    requires WellFormed(buf)
    ensures InBuffer(AddAll(buf, ps), k, p) <==> InBuffer(buf, k, p) || (k, p) in ps
    decreases |ps|
  {
    if ps != [] {
      var init, last := ps[..|ps| - 1], ps[|ps| - 1];
      AddAllMembers(buf, init, k, p);
      AddAllWellFormed(buf, init);
      AddMembers(AddAll(buf, init), last.0, last.1, k, p);
      assert ps == init + [last];
    }
  }

  /** `line` yields nothing at once and has `(k, p)` among its
      region-tagged candidates. */
  predicate Buffers(f: Finders, sv: Services, line: string, k: string, p: string) {
    PlainYield(f, sv, line) == [] && (k, p) in TaggedYield(f, sv, line)
  }

  lemma LineBufferMembers(f: Finders, sv: Services, buf: Buffer, line: string, k: string, p: string)
    requires WellFormed(buf)
    ensures InBuffer(LineBuffer(f, sv, buf, line), k, p) <==> InBuffer(buf, k, p) || Buffers(f, sv, line, k, p)
  {
    if PlainYield(f, sv, line) == [] {
      AddAllMembers(buf, TaggedYield(f, sv, line), k, p);
    }
  }

  /** When every step of the buffer keeps `inv` and makes `has` hold exactly
      when it held before or the line is `fed`, the buffer after a run of
      lines has `has` exactly when one of those lines is `fed`. */
  lemma {:induction false} FoldMembers(step: (Buffer, string) -> Buffer, inv: Buffer -> bool,
                                       has: Buffer -> bool, fed: string -> bool,
                                       ls: seq<string>, s: nat, e: nat)
    requires s <= e <= |ls|
    requires inv([]) && !has([])
    requires forall buf, line :: inv(buf) ==> inv(step(buf, line))
    requires forall buf, line :: inv(buf) ==> (has(step(buf, line)) <==> has(buf) || fed(line))
    ensures has(Fold(step, ls, s, e)) <==> exists i :: s <= i < e && fed(ls[i])
    decreases e
  {
    if e > s {
      FoldMembers(step, inv, has, fed, ls, s, e - 1);
      FoldKeeps(step, inv, ls, s, e - 1);
      if exists i :: s <= i < e && fed(ls[i]) {
        var i :| s <= i < e && fed(ls[i]);
        if i < e - 1 {
          assert s <= i < e - 1 && fed(ls[i]);
        }
      }
    }
  }

  /** The buffer built over lines `s` to `e - 1` holds `p` under `k` exactly
      when one of those lines buffers `(k, p)`. */
  lemma BufferOfMembers(f: Finders, sv: Services, ls: seq<string>, s: nat, e: nat, k: string, p: string)
    requires s <= e <= |ls|
    ensures InBuffer(BufferOf(f, sv, ls, s, e), k, p) <==> exists i :: s <= i < e && Buffers(f, sv, ls[i], k, p)
  {
    var has := buf => InBuffer(buf, k, p);
    var fed := line => Buffers(f, sv, line, k, p);
    forall buf, line | WellFormed(buf)
      ensures WellFormed(BufferLines(f, sv)(buf, line))
      ensures has(BufferLines(f, sv)(buf, line)) <==> has(buf) || fed(line)
    {
      if PlainYield(f, sv, line) == [] {
        AddAllWellFormed(buf, TaggedYield(f, sv, line));
      }
      LineBufferMembers(f, sv, buf, line, k, p);
    }
    FoldMembers(BufferLines(f, sv), WellFormed, has, fed, ls, s, e);
  }

  /** `p` is an alternative of a region-tagged match labelled `k` on one of
      lines `s` to `e - 1` that yielded nothing at once. */
  ghost predicate BufferedFrom(f: Finders, sv: Services, ls: seq<string>, s: nat, e: nat, k: string, p: string)
    requires s <= e <= |ls|
  {
    exists i, m :: s <= i < e && PlainYield(f, sv, ls[i]) == [] && m in f.tagged(ls[i])
      && m.0 == k && FromPayload(sv, m.1, p)
  }

  lemma BufferedSources(f: Finders, sv: Services, ls: seq<string>, s: nat, e: nat, k: string, p: string)
    requires s <= e <= |ls|
    ensures InBuffer(BufferOf(f, sv, ls, s, e), k, p) <==> BufferedFrom(f, sv, ls, s, e, k, p)
  {
    BufferOfMembers(f, sv, ls, s, e, k, p);
    if InBuffer(BufferOf(f, sv, ls, s, e), k, p) {
      var i :| s <= i < e && Buffers(f, sv, ls[i], k, p);
      TaggedOfMembers(sv, f.tagged(ls[i]), k, p);
    }
    if BufferedFrom(f, sv, ls, s, e, k, p) {
      var i, m :| s <= i < e && PlainYield(f, sv, ls[i]) == [] && m in f.tagged(ls[i])
        && m.0 == k && FromPayload(sv, m.1, p);
      TaggedOfMembers(sv, f.tagged(ls[i]), k, p);
      assert Buffers(f, sv, ls[i], k, p);
    }
  }

  /** The chosen list is the whole list of one label of the buffer. */
  lemma BestMembers(buf: Buffer, p: string)
    requires WellFormed(buf)
    ensures p in Best(buf) <==>
      exists j :: 0 <= j < |buf| && buf[j].1 == Best(buf) && InBuffer(buf, buf[j].0, p)
  {
    BestFromBuffer(buf);
    if p in Best(buf) {
      var j :| 0 <= j < |buf| && buf[j].1 == Best(buf);
      assert InBuffer(buf, buf[j].0, p);
    }
    if exists j :: 0 <= j < |buf| && buf[j].1 == Best(buf) && InBuffer(buf, buf[j].0, p) {
      var j :| 0 <= j < |buf| && buf[j].1 == Best(buf) && InBuffer(buf, buf[j].0, p);
      var i :| 0 <= i < |buf| && buf[i].0 == buf[j].0 && p in buf[i].1;
      assert i == j;
    }
  }

  /** `p` is an alternative of a plain `{{IPA|en|…}}` capture on a line of
      the region. */
  ghost predicate PlainFrom(f: Finders, sv: Services, ls: seq<string>, p: string) {
    exists i, c :: InRegion(EnGate, ls, i) && c in f.plain(ls[i]) && FromPayload(sv, c, p)
  }

  /** A `===` line closes the region, and `p` is an alternative of a
      region-tagged capture whose label is the one chosen from the buffer. */
  ghost predicate ChosenFrom(f: Finders, sv: Services, ls: seq<string>, p: string) {
    && RegionStart(EnGate, ls).Some?
    && var s := RegionStart(EnGate, ls).value;
       var e := RegionEnd(EnGate, ls, s);
       var buf := BufferOf(f, sv, ls, s, e);
       && e < |ls|
       && exists j :: 0 <= j < |buf| && buf[j].1 == Best(buf) && BufferedFrom(f, sv, ls, s, e, buf[j].0, p)
  }

  /** The English output, capture by capture: a transcription is yielded
      exactly when it is the non-empty refinement of an `xxx`-free
      alternative of a plain capture on a region line, or, once a `===` line
      closes the region, of a region-tagged capture with the chosen label on
      a region line that yielded nothing at once. */
  lemma EnglishSources(f: Finders, sv: Services, ls: seq<string>, p: string)
    ensures p in EnglishExtract(f, sv, ls) <==> PlainFrom(f, sv, ls, p) || ChosenFrom(f, sv, ls, p)
  {
    EnglishMembers(f, sv, ls, p);
    if exists i :: InRegion(EnGate, ls, i) && p in PlainYield(f, sv, ls[i]) {
      var i :| InRegion(EnGate, ls, i) && p in PlainYield(f, sv, ls[i]);
      PlainOfMembers(sv, f.plain(ls[i]), p);
    }
    if PlainFrom(f, sv, ls, p) {
      var i, c :| InRegion(EnGate, ls, i) && c in f.plain(ls[i]) && FromPayload(sv, c, p);
      PlainOfMembers(sv, f.plain(ls[i]), p);
    }
    if RegionStart(EnGate, ls).Some? {
      var s := RegionStart(EnGate, ls).value;
      var e := RegionEnd(EnGate, ls, s);
      var buf := BufferOf(f, sv, ls, s, e);
      BufferOfWellFormed(f, sv, ls, s, e);
      BestMembers(buf, p);
      forall j | 0 <= j < |buf|
        ensures InBuffer(buf, buf[j].0, p) <==> BufferedFrom(f, sv, ls, s, e, buf[j].0, p)
      {
        BufferedSources(f, sv, ls, s, e, buf[j].0, p);
      }
    }
  }
}
