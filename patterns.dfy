/** The regular expressions of the extractor, each matched by hand, and
    `re.findall` over one of them.  The source compiles seven pattern
    constants, but the Dutch, Czech and Italian ones are the same expression,
    so there are five distinct patterns.

    Every pattern is matched at a start position the way Python's backtracking
    engine matches it.  In all of them `[^x]+` followed by a literal `x` (or by
    nothing) can only succeed on the longest run, and `\s+` followed by `{` can
    only succeed on the longest run of whitespace, so those pieces have one way
    to match.  The one real choice is a greedy `.+`, which backtracks from the
    right: it settles on the LAST position at which the rest of the pattern
    matches, and `.` never crosses a line feed.  `re.findall` then scans start
    positions from left to right and, after a match, resumes where it ended;
    no pattern here can match the empty string. */
module Patterns {
  import opened Text

  datatype Pattern =
    | EnIpa        // .+{{IPA\|en\|([^}]+)}}
    | EnRegionIpa  // .+{{a\|([^}]+)}}\s+{{IPA\|en\|([^}]+)}}
    | IpaBar       // IPA[^|]*\|/?([^/}]+)   (Dutch, Czech and Italian)
    | FrPron       // {{pron\|([^\|]+)\|
    | ElPron       // ΔΦΑ.+\|([^}]+)

  function GroupCount(pat: Pattern): nat {
    if pat == EnRegionIpa then 2 else 1
  }

  /** A pattern that starts with a greedy `.+`, or has one before its anchor. */
  predicate IsGreedy(pat: Pattern) {
    pat == EnIpa || pat == EnRegionIpa || pat == ElPron
  }

  /** The first index at or after `i` whose character is in `stop`, or `|s|`:
      where a run `[^stop]*` starting at `i` ends. */
  function RunEnd(s: string, i: nat, stop: set<char>): (j: nat)
    requires i <= |s|
    ensures i <= j <= |s|
    ensures forall t :: i <= t < j ==> s[t] !in stop
    ensures j < |s| ==> s[j] in stop
    decreases |s| - i
  {
    if i == |s| || s[i] in stop then i else RunEnd(s, i + 1, stop)
  }

  /** The first index at or after `i` that is not whitespace, or `|s|`: where
      a run `\s*` starting at `i` ends. */
  function SpaceEnd(s: string, i: nat): (j: nat)
    requires i <= |s|
    ensures i <= j <= |s|
    ensures forall t :: i <= t < j ==> IsSpace(s[t])
    ensures j < |s| ==> !IsSpace(s[j])
    decreases |s| - i
  {
    if i == |s| || !IsSpace(s[i]) then i else SpaceEnd(s, i + 1)
  }

  predicate LiteralAt(s: string, k: nat, lit: string) {
    k + |lit| <= |s| && s[k..k + |lit|] == lit
  }

  /** The `}` that closes a `[^}]+}}` run starting at `i`. */
  function Close(s: string, i: nat): nat
    requires i <= |s|
  {
    RunEnd(s, i, {'}'})
  }

  /** `{{IPA\|en\|([^}]+)}}` matches at `k`. */
  predicate IpaEnAt(s: string, k: nat) {
    LiteralAt(s, k, "{{IPA|en|") && k + 9 < Close(s, k + 9) < |s| - 1 && s[Close(s, k + 9) + 1] == '}'
  }

  /** `{{a\|([^}]+)}}\s+` matches at `k` and a template `{{IPA|en|…}}` follows it. */
  predicate RegionAt(s: string, k: nat) {
    && LiteralAt(s, k, "{{a|")
    && k + 4 < Close(s, k + 4) < |s| - 1 && s[Close(s, k + 4) + 1] == '}'
    && Close(s, k + 4) + 2 < SpaceEnd(s, Close(s, k + 4) + 2)
    && IpaEnAt(s, SpaceEnd(s, Close(s, k + 4) + 2))
  }

  /** Where the IPA template of a region-tagged pronunciation at `k` starts. */
  function RegionIpaStart(s: string, k: nat): (m: nat)
    requires RegionAt(s, k)
    ensures k < m && IpaEnAt(s, m)
  {
    SpaceEnd(s, Close(s, k + 4) + 2)
  }

  /** `\|([^}]+)` matches at `q`. */
  predicate BarAt(s: string, q: nat) {
    q + 1 < |s| && s[q] == '|' && s[q + 1] != '}'
  }

  /** What a greedy `.+` backtracks to: the pattern's anchor. */
  datatype Anchor = IpaEnAnchor | RegionAnchor | BarAnchor

  predicate AnchorAt(a: Anchor, s: string, k: nat) {
    match a
    case IpaEnAnchor => IpaEnAt(s, k)
    case RegionAnchor => RegionAt(s, k)
    case BarAnchor => BarAt(s, k)
  }

  /** The largest `k` in `[lo, hi]` at which the anchor matches. */
  function LastAnchor(a: Anchor, s: string, lo: nat, hi: int): (k: Option<nat>)
    ensures k.Some? ==> lo <= k.value <= hi && AnchorAt(a, s, k.value)
    ensures k.Some? ==> forall t :: k.value < t <= hi ==> !AnchorAt(a, s, t)
    ensures k.None? ==> forall t :: lo <= t <= hi ==> !AnchorAt(a, s, t)
    decreases hi - lo
  {
    if hi < lo then None
    else if AnchorAt(a, s, hi) then Some(hi)
    else LastAnchor(a, s, lo, hi - 1)
  }

  function AnchorOf(pat: Pattern): Anchor
    requires IsGreedy(pat)
  {
    match pat
    case EnIpa => IpaEnAnchor
    case EnRegionIpa => RegionAnchor
    case ElPron => BarAnchor
  }

  /** How many characters the greedy `.+` needs at least, counted from the
      start of the match to the anchor (`ΔΦΑ` plus one for the Greek pattern). */
  function Reach(pat: Pattern): nat
    requires IsGreedy(pat)
  {
    if pat == ElPron then 4 else 1
  }

  /** Where the greedy `.+` of a match starting at `p` comes to rest, if the
      rest of the pattern matches anywhere: `.+` starts at `p` (after `ΔΦΑ`
      for Greek) and cannot cross a line feed. */
  function GreedyAnchor(pat: Pattern, s: string, p: nat): Option<nat>
    requires IsGreedy(pat) && p <= |s|
  {
    if pat == ElPron && !LiteralAt(s, p, "ΔΦΑ") then None
    else
      var dot := if pat == ElPron then p + 3 else p;
      LastAnchor(AnchorOf(pat), s, p + Reach(pat), RunEnd(s, dot, {'\n'}))
  }

  /** One match: its groups and the index just past it. */
  datatype Hit = Hit(groups: seq<string>, end: nat)

  predicate WellFormedHit(pat: Pattern, s: string, p: nat, h: Hit) {
    && p < h.end <= |s|
    && |h.groups| == GroupCount(pat)
    && forall i :: 0 <= i < |h.groups| ==> h.groups[i] != []
  }

  /** `IPA[^|]*\|/?([^/}]+)` at `p`: the first `|` after `IPA`, one optional
      `/`, then the longest run free of `/` and `}`, which must not be empty. */
  function MatchIpaBar(s: string, p: nat): (h: Option<Hit>)
    requires p <= |s|
    ensures h.Some? ==> WellFormedHit(IpaBar, s, p, h.value)
  {
    if !LiteralAt(s, p, "IPA") then None
    else
      var q := RunEnd(s, p + 3, {'|'});
      if q == |s| then None
      else
        var st := if q + 1 < |s| && s[q + 1] == '/' then q + 2 else q + 1;
        var e := RunEnd(s, st, {'/', '}'});
        if e == st then None else Some(Hit([s[st..e]], e))
  }

  /** `{{pron\|([^\|]+)\|` at `p`: a non-empty run free of `|`, closed by `|`. */
  function MatchFrPron(s: string, p: nat): (h: Option<Hit>)
    requires p <= |s|
    ensures h.Some? ==> WellFormedHit(FrPron, s, p, h.value)
  {
    if !LiteralAt(s, p, "{{pron|") then None
    else
      var q := RunEnd(s, p + 7, {'|'});
      if q == p + 7 || q == |s| then None else Some(Hit([s[p + 7..q]], q + 1))
  }

  /** `s[i..e]` is a non-empty run free of `}`, closed by `}}`: what
      `([^}]+)}}` matches when its group starts at `i`. */
  predicate ClosedRun(s: string, i: nat, e: nat) {
    && i < e && e + 2 <= |s| && s[e..e + 2] == "}}"
    && forall t :: i <= t < e ==> s[t] != '}'
  }

  /** The match of `.+{{IPA\|en\|([^}]+)}}` whose `.+` stops at `k`: its
      group is the run right after `{{IPA|en|`, up to the closing `}}`. */
  function EnHit(s: string, p: nat, k: nat): (h: Hit)
    requires p < k && IpaEnAt(s, k)
    ensures WellFormedHit(EnIpa, s, p, h) && k < h.end
    ensures k + 9 <= h.end - 2 && h.groups[0] == s[k + 9..h.end - 2] && ClosedRun(s, k + 9, h.end - 2)
  {
    Hit([s[k + 9..Close(s, k + 9)]], Close(s, k + 9) + 2)
  }

  /** The match of the region-tagged pattern whose `.+` stops at `k`: its
      first group is the label after `{{a|`, up to `}}`; whitespace alone
      separates that `}}` from `{{IPA|en|`, and the second group is the run
      after it, up to the closing `}}`. */
  function RegionHit(s: string, p: nat, k: nat): (h: Hit)
    requires p < k && RegionAt(s, k)
    ensures WellFormedHit(EnRegionIpa, s, p, h) && k < h.end
    ensures var c := k + 4 + |h.groups[0]|;
      c <= |s| && h.groups[0] == s[k + 4..c] && ClosedRun(s, k + 4, c)
    ensures var c, m := k + 4 + |h.groups[0]|, RegionIpaStart(s, k);
      c + 2 < m && AllSpace(s[c + 2..m]) && LiteralAt(s, m, "{{IPA|en|")
    ensures var m := RegionIpaStart(s, k);
      m + 9 <= h.end - 2 && h.groups[1] == s[m + 9..h.end - 2] && ClosedRun(s, m + 9, h.end - 2)
  {
    var m := RegionIpaStart(s, k);
    Hit([s[k + 4..Close(s, k + 4)], s[m + 9..Close(s, m + 9)]], Close(s, m + 9) + 2)
  }

  /** The match of `ΔΦΑ.+\|([^}]+)` whose `.+` stops at `k`: its group is
      the longest run free of `}` after the bar. */
  function ElHit(s: string, p: nat, k: nat): (h: Hit)
    requires p < k && BarAt(s, k)
    ensures WellFormedHit(ElPron, s, p, h) && k < h.end
    ensures h.groups[0] == s[k + 1..h.end]
    ensures forall t :: k + 1 <= t < h.end ==> s[t] != '}'
    ensures h.end == |s| || s[h.end] == '}'
  {
    var e := Close(s, k + 1);
    Hit([s[k + 1..e]], e)
  }

  /** A greedy pattern at `p`: the groups read off the last anchor. */
  function MatchGreedy(pat: Pattern, s: string, p: nat): (h: Option<Hit>)
    requires IsGreedy(pat) && p <= |s|
    ensures h.Some? ==> WellFormedHit(pat, s, p, h.value)
    ensures h.Some? <==> GreedyAnchor(pat, s, p).Some?
    ensures h.Some? ==> GreedyAnchor(pat, s, p).value < h.value.end
  {
    match GreedyAnchor(pat, s, p)
    case None => None
    case Some(k) =>
      if pat == EnIpa then Some(EnHit(s, p, k))
      else if pat == EnRegionIpa then Some(RegionHit(s, p, k))
      else Some(ElHit(s, p, k))
  }

  /** `pattern.match(s, p)`: the match that starts exactly at `p`. */
  function MatchAt(pat: Pattern, s: string, p: nat): (h: Option<Hit>)
    requires p <= |s|
    ensures h.Some? ==> WellFormedHit(pat, s, p, h.value)
  {
    if pat == IpaBar then MatchIpaBar(s, p)
    else if pat == FrPron then MatchFrPron(s, p)
    else MatchGreedy(pat, s, p)
  }

  /** `pattern.findall(s[pos:])` as Python scans it: the groups of each match,
      left to right, every search resuming where the previous match ended. */
  function FindAll(pat: Pattern, s: string, pos: nat): (ms: seq<seq<string>>)
    requires pos <= |s|
    ensures forall i :: 0 <= i < |ms| ==> |ms[i]| == GroupCount(pat)
    ensures forall i, j :: 0 <= i < |ms| && 0 <= j < |ms[i]| ==> ms[i][j] != []
    decreases |s| - pos
  {
    if pos == |s| then []
    else
      match MatchAt(pat, s, pos)
      case Some(h) => [h.groups] + FindAll(pat, s, h.end)
      case None => FindAll(pat, s, pos + 1)
  }

  function Findall(pat: Pattern, s: string): seq<seq<string>> {
    FindAll(pat, s, 0)
  }

  /** The first group of every match: what `findall` returns for a pattern with
      one group. */
  function Captures(pat: Pattern, s: string): (cs: seq<string>)
    ensures forall i :: 0 <= i < |cs| ==> cs[i] != []
  {
    var ms := Findall(pat, s);
    seq(|ms|, i requires 0 <= i < |ms| => ms[i][0])
  }

  lemma {:induction false} NoAnchorNoMatch(pat: Pattern, s: string, pos: nat)
    requires IsGreedy(pat) && '\n' !in s && pos <= |s|
    requires forall t :: pos + Reach(pat) <= t <= |s| ==> !AnchorAt(AnchorOf(pat), s, t)
    ensures FindAll(pat, s, pos) == []
    decreases |s| - pos
  {
    if pos < |s| {
      var dot := if pat == ElPron then pos + 3 else pos;
      assert !LiteralAt(s, pos, "ΔΦΑ") || dot <= |s|;
      assert MatchGreedy(pat, s, pos).None?;
      NoAnchorNoMatch(pat, s, pos + 1);
    }
  }

  /** On a line, `.` runs to the end: nothing stops it before `|s|`. */
  lemma NewlineFreeRun(s: string, i: nat)
    requires '\n' !in s && i <= |s|
    ensures RunEnd(s, i, {'\n'}) == |s|
  {
  }

  /** A greedy pattern matches at most once on a line: its `.+` already ran to
      the last anchor on the line, so no later search can find another. */
  lemma {:induction false} GreedyAtMostOne(pat: Pattern, s: string, pos: nat)
    requires IsGreedy(pat) && '\n' !in s && pos <= |s|
    ensures |FindAll(pat, s, pos)| <= 1
    decreases |s| - pos
  {
    if pos < |s| {
      assert MatchAt(pat, s, pos) == MatchGreedy(pat, s, pos);
      match MatchGreedy(pat, s, pos)
      case None =>
        GreedyAtMostOne(pat, s, pos + 1);
        assert FindAll(pat, s, pos) == FindAll(pat, s, pos + 1);
      case Some(h) =>
        var k := GreedyAnchor(pat, s, pos).value;
        NewlineFreeRun(s, if pat == ElPron then pos + 3 else pos);
        assert forall t :: k < t <= |s| ==> !AnchorAt(AnchorOf(pat), s, t);
        NoAnchorNoMatch(pat, s, h.end);
        assert FindAll(pat, s, pos) == [h.groups] + FindAll(pat, s, h.end);
    }
  }

  /** Every line on which the region-tagged pattern matches is also matched by
      the plain pattern: the region pattern's IPA template is itself an anchor
      for the plain `.+{{IPA|en|…}}`. */
  lemma {:induction false} RegionLineMatchesPlain(s: string, pos: nat)
    requires '\n' !in s && pos <= |s|
    requires FindAll(EnRegionIpa, s, pos) != []
    ensures FindAll(EnIpa, s, pos) != []
    decreases |s| - pos
  {
    assert pos < |s|;
    assert MatchAt(EnRegionIpa, s, pos) == MatchGreedy(EnRegionIpa, s, pos);
    match MatchGreedy(EnRegionIpa, s, pos)
    case None =>
      assert FindAll(EnRegionIpa, s, pos) == FindAll(EnRegionIpa, s, pos + 1);
      RegionLineMatchesPlain(s, pos + 1);
      if MatchAt(EnIpa, s, pos).None? {
        assert FindAll(EnIpa, s, pos) == FindAll(EnIpa, s, pos + 1);
      }
    case Some(h) =>
      RegionMatchIsPlainMatch(s, pos);
      var g := MatchAt(EnIpa, s, pos).value;
      assert FindAll(EnIpa, s, pos) == [g.groups] + FindAll(EnIpa, s, g.end);
  }

  lemma RegionMatchIsPlainMatch(s: string, pos: nat)
    requires '\n' !in s && pos < |s|
    requires MatchGreedy(EnRegionIpa, s, pos).Some?
    ensures MatchAt(EnIpa, s, pos).Some?
  {
    var k := GreedyAnchor(EnRegionIpa, s, pos).value;
    var m := RegionIpaStart(s, k);
    NewlineFreeRun(s, pos);
    assert AnchorAt(IpaEnAnchor, s, m);
    assert GreedyAnchor(EnIpa, s, pos).Some?;
  }
}
