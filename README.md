# wiktionary2dict in Dafny

A model of the extraction core of `wiktionary2dict`. It reads the pages of a
Wiktionary XML dump and yields `(word, pronunciation)` pairs, where the
pronunciation is an IPA transcription taken from the entry's pronunciation
section for one language and normalised into a run of phonemes.

The model has three parts, as the program has.

- **`_refine_pron`** (`phonemes.dfy`, module `Phonemes`). Each step of the
  Python is a function over `string`:
  - removal of the punctuation class;
  - NFD;
  - folding of the four affricate ligatures;
  - the stress substitutions;
  - the two space insertions;
  - the deletion of spaces;
  - the final strip.

  The lemmas say what the chain amounts to:
  - the inserted spaces all vanish again;
  - the output holds no space, apostrophe, `ʼ` or ligature, and has no
    whitespace at either end;
  - the refiner is idempotent when NFD and the punctuation class leave its
    output alone;
  - an input exists on which a second pass changes the output. A `;` made by
    NFD from U+037E survives the first pass, because punctuation is removed
    before NFD.
- **The six line scanners.**
  - `process_nld`, `process_cs`, `process_it`, `process_fr` and
    `process_el` are one engine (`sections.dfy`, module `Sections`). A
    `Language` value drives it: its header, optional sub-header, end
    prefixes, pattern, `xxx` filter, `|nld` deletion and lower-casing.
    `scanners.dfy` (module `Scanners`) gives the five literal
    configurations.
  - `process_en_us` has its own model (`english.dfy`, module `English`). It
    holds the region buffer `current_prons` and its resolution: U.S., then
    General American, then U.K., then Received Pronunciation.
  - Each scanner is a `while`/`for` loop over the lines with the flags of
    the source. It is proved equal to a declarative description: the region
    opens after the first header line and, when the language has one, the
    first sub-header after it; it closes at the first end line; every region
    line yields its captures, refined, in order.
  - The source compiles seven pattern constants. The Dutch, Czech and
    Italian ones are the same expression, so there are five distinct
    patterns. Each is matched by hand (`patterns.dfy`, module `Patterns`),
    with Python's backtracking behaviour for the greedy `.+` and
    `findall`'s left-to-right scan.
- **The page loop of `wiktionary2dict`** (`dump.dfy`, module `Dump`). A
  page is skipped when its stripped title is empty, its text is empty or
  absent, or its title holds a space or a comma. Each transcription the
  scanner yields for any other page is paired with its title, in page order
  and then in scanner order.

`text.dfy` (module `Text`) models the Python string operations used:
`strip` with the `str.isspace` set, `in`, `startswith`, `split`, `replace`
and one-character `re.sub`.

Where the behaviour differs from what a reader of the comments might expect,
the model follows the code.

- **Region-tagged line at line start.** A line that starts with the
  region-tagged template, such as `{{a|UK}} {{IPA|en|…}}`, is not matched by
  `_EN_REGION_PRON_PATTERN`: that pattern needs at least one character before
  `{{a|`. The plain pattern does match it, so the transcription is yielded at
  once, whatever its region.
- **Whitespace in the output.** `_refine_pron` deletes only the plain space.
  Tabs and other whitespace inside a transcription survive; only its two
  ends are stripped.
- **Idempotence.** `_refine_pron` is not idempotent in general. A character
  whose NFD form is in the punctuation class is kept by one pass and removed
  by the next (`Phonemes.RefineKeepsNfdPunctuation`).

## Model

| member | source | states |
|---|---|---|
| Text.StripStartSpec | wiktionary2dict/__init__.py:85 | `lstrip` returns a suffix of the input, preceded only by whitespace, that is empty or starts with a non-space |
| Text.StripEndSpec | wiktionary2dict/__init__.py:85 | `rstrip` returns a prefix of the input, followed only by whitespace, that is empty or ends with a non-space |
| Text.StripSpec | wiktionary2dict/__init__.py:85 | `strip` returns a slice of the input with only whitespace cut from both ends, and that slice neither starts nor ends with whitespace |
| Text.ContainsSpec | wiktionary2dict/__init__.py:121 | the substring test `"xxx" in s` holds exactly when `xxx` occurs at some position of `s` |
| Text.Split | wiktionary2dict/__init__.py:120 | splitting on the bar gives at least one piece, no piece holds the separator, and joining the pieces with it gives the input back |
| Text.Replace | wiktionary2dict/__init__.py:178 | `replace` leaves a string without an occurrence of the pattern unchanged |
| Text.ReplaceCharIsReplace | wiktionary2dict/__init__.py:351 | a one-character `replace` equals the character-wise substitution used for the digraph and stress steps |
| Text.Filter | wiktionary2dict/__init__.py:344 | deleting a character class keeps only characters of the input that pass the test, and never lengthens the string |
| Phonemes.SpacingVanishes | wiktionary2dict/__init__.py:356-362 | a character map that only inserts spaces is undone by deleting every space |
| Phonemes.RefineNetEffect | wiktionary2dict/__init__.py:355-364 | the refiner equals punctuation removal, NFD, digraph folding and stress unification, then deletion of every space and a strip: the insertions at 356 and 359 cancel out |
| Phonemes.FoldDigraphsSpec | wiktionary2dict/__init__.py:349-351 | the four sequential `replace` calls replace each ligature by its two-letter value from the table at line 14, character by character |
| Phonemes.DigraphOfClean | wiktionary2dict/__init__.py:14 | no character of a table value is a ligature |
| Phonemes.UnifiedClean | wiktionary2dict/__init__.py:349-355 | after digraph folding and stress unification, no apostrophe, `ʼ` or ligature is left |
| Phonemes.RefineOutputClean | wiktionary2dict/__init__.py:341-364 | the refined string holds no space, apostrophe, `ʼ` or ligature, and neither starts nor ends with whitespace |
| Phonemes.RefinedClean | wiktionary2dict/__init__.py:341-364 | a non-empty refinement is a clean transcription |
| Phonemes.RefineFixedPoint | wiktionary2dict/__init__.py:341-364 | a clean string with no punctuation-class character, left alone by NFD, is its own refinement |
| Phonemes.RefineIdempotent | wiktionary2dict/__init__.py:341-364 | refining twice equals refining once when the first result holds no punctuation-class character and is left alone by NFD |
| Phonemes.RefineKeepsNfdPunctuation | wiktionary2dict/__init__.py:344-347 | with NFD mapping U+037E to `;`, U+037E refines to `;`, and `;` refines to the empty string |
| Patterns.MatchIpaBar | wiktionary2dict/__init__.py:152 | a match of the Dutch, Czech and Italian pattern has one non-empty group and ends within the line |
| Patterns.MatchFrPron | wiktionary2dict/__init__.py:269 | a match of the French pattern has one non-empty group and ends within the line |
| Patterns.EnHit | wiktionary2dict/__init__.py:68 | the match of the plain English pattern whose `.+` stops at a given English IPA template captures the text right after it up to the first `}}`, a non-empty run free of `}`, and ends after that `}}` |
| Patterns.RegionHit | wiktionary2dict/__init__.py:69 | the match of the region-tagged pattern whose `.+` stops at a given accent template captures the label up to the first `}}`, free of `}`; only whitespace then separates it from the English IPA template, and the second group is the run free of `}` after that, up to the closing `}}` where the match ends |
| Patterns.ElHit | wiktionary2dict/__init__.py:304 | the match of the Greek pattern whose `.+` stops at a given bar captures the longest non-empty run free of `}` after it, ending at the line's end or at a `}` |
| Patterns.LastAnchor | wiktionary2dict/__init__.py:68 | the position a greedy `.+` backtracks to is the last one at which the rest of the pattern matches |
| Patterns.MatchGreedy | wiktionary2dict/__init__.py:68-69 | a greedy pattern matches exactly when its anchor occurs far enough along the line, and the match ends after that anchor |
| Patterns.MatchAt | wiktionary2dict/__init__.py:152 | a match at a position has as many non-empty groups as its pattern has, and ends within the line |
| Patterns.FindAll | wiktionary2dict/__init__.py:119 | every match `findall` reports has as many groups as its pattern has, and none of them is empty |
| Patterns.Captures | wiktionary2dict/__init__.py:174 | a one-group `findall` returns non-empty strings |
| Patterns.NoAnchorNoMatch | wiktionary2dict/__init__.py:68 | a greedy pattern finds nothing on a line where its anchor never occurs far enough along |
| Patterns.GreedyAtMostOne | wiktionary2dict/__init__.py:68-69 | each greedy pattern matches at most once on a line |
| Patterns.RegionLineMatchesPlain | wiktionary2dict/__init__.py:116-132 | every line the region-tagged pattern matches is matched by the plain pattern too |
| Patterns.RegionMatchIsPlainMatch | wiktionary2dict/__init__.py:68-69 | where the region-tagged pattern matches at a position, so does the plain pattern |
| Sections.FirstLine | wiktionary2dict/__init__.py:185-186 | the first line from a position on that equals a marker, or none when no line does |
| Sections.FirstEnd | wiktionary2dict/__init__.py:169-172 | the first line from a position on that starts with an end prefix, or none when no line does |
| Sections.Opener | wiktionary2dict/__init__.py:183-186 | the opening line is a sub-header after the first language header, or the header itself for a language without a sub-header |
| Sections.OpenerStep | wiktionary2dict/__init__.py:183-186 | the region has opened by line `i + 1` when it had by line `i`, or line `i` is the sub-header and the header came before it |
| Sections.RegionStart | wiktionary2dict/__init__.py:183-186 | the region starts right after the opening line |
| Sections.RegionEnd | wiktionary2dict/__init__.py:168-172 | no region line starts with an end prefix, and the region stops at the first line that does, or at the end of the body |
| Sections.StripAllTrimmed | wiktionary2dict/__init__.py:166 | each line a scanner looks at is the piece of its raw line left once whitespace is cut from both ends, and neither starts nor ends with whitespace |
| Sections.RegionFromOpener | wiktionary2dict/__init__.py:168-186 | when the loop has seen the opening line and then no end line up to line `e`, and line `e` ends the region or the body, the region starts after the opening line and stops at `e` |
| Sections.ExtractFromOpener | wiktionary2dict/__init__.py:168-186 | under the same conditions, the scanner's output is what those lines yield |
| Sections.LineProns | wiktionary2dict/__init__.py:174-182 | the loop over the captures of one line returns the refined, admitted, non-empty captures in order |
| Sections.GateInside | wiktionary2dict/__init__.py:168 | the two flags are both set exactly when the region has opened before the current line |
| Sections.GateOutside | wiktionary2dict/__init__.py:183-186 | outside the region a line sets the pronunciation flag only if it is the sub-header after the header, and the language flag only if it is the header |
| Sections.ScanStart | wiktionary2dict/__init__.py:158-160 | with no flag set and nothing yielded, the loop invariant holds before the first line |
| Sections.InsideStep | wiktionary2dict/__init__.py:168-182 | a region line that is not an end line keeps the invariant, adding what it yields |
| Sections.OutsideStep | wiktionary2dict/__init__.py:183-186 | a line outside the region keeps the invariant, changing only the flags |
| Sections.ScanExit | wiktionary2dict/__init__.py:169-172 | when the loop stops, at an end line inside the region or at the end of the body, it has yielded the whole output |
| Sections.ScanLine | wiktionary2dict/__init__.py:163-186 | one pass over a line either stops with the whole output or keeps the loop invariant for the next line |
| Sections.Scan | wiktionary2dict/__init__.py:155-186 | the scanning loop yields exactly what the region's lines yield, in order |
| Sections.YieldAllMembers | wiktionary2dict/__init__.py:174-182 | the transcriptions of a list of captures are exactly the non-empty refinements of its admitted captures |
| Sections.BodyYieldMembers | wiktionary2dict/__init__.py:162-182 | a run of region lines yields exactly what each of its lines yields |
| Sections.ExtractMembers | wiktionary2dict/__init__.py:162-186 | a transcription is yielded exactly when it is the non-empty refinement of an admitted capture on a region line |
| Sections.RegionGated | wiktionary2dict/__init__.py:183-186 | a region line comes after a header line and, for a language with a sub-header, after a header then a sub-header; no end line lies between the region's start and it |
| Sections.NoHeaderNoOutput | wiktionary2dict/__init__.py:185-186 | a body without a header line yields nothing |
| Sections.RegionIgnoresTail | wiktionary2dict/__init__.py:169-172 | lines appended after a closed region move neither its start nor its end |
| Sections.ExtractIgnoresTail | wiktionary2dict/__init__.py:169-172 | lines appended after a closed region change nothing in the output |
| Scanners.ExtractClean | wiktionary2dict/__init__.py:179-182 | every transcription a scanner yields is clean |
| Scanners.LoweredMembers | wiktionary2dict/__init__.py:215-220 | for Czech, Italian, French and Greek, a transcription is yielded exactly when it is the non-empty refinement of a lower-cased capture on a region line |
| Scanners.DutchCapture | wiktionary2dict/__init__.py:175-179 | a Dutch capture is admitted exactly when it holds no `xxx`, and its refinement is that of the capture with every `nld` tag after a bar deleted |
| Scanners.DutchMembers | wiktionary2dict/__init__.py:174-182 | a Dutch transcription is yielded exactly when it is the non-empty refinement of a region capture free of `xxx`, with every `nld` tag after a bar deleted |
| Scanners.YieldAllBound | wiktionary2dict/__init__.py:174-182 | a line yields at most as many transcriptions as it has captures |
| Scanners.GreekOnePerLine | wiktionary2dict/__init__.py:304 | a Greek region line yields at most one transcription |
| Scanners.FrenchRegionStart | wiktionary2dict/__init__.py:284-297 | the French region opens right after the header, although the header itself starts with `== ` |
| Scanners.ProcessNld | wiktionary2dict/__init__.py:155-186 | `process_nld` yields the Dutch region's transcriptions in order: exactly the `xxx`-free captures, with the `nld` tags after a bar deleted, that refine to non-empty strings, all clean |
| Scanners.ProcessCs | wiktionary2dict/__init__.py:196-224 | `process_cs` yields exactly the non-empty refinements of the lower-cased captures of the Czech region, in order, all clean |
| Scanners.ProcessIt | wiktionary2dict/__init__.py:234-262 | `process_it` yields exactly the non-empty refinements of the lower-cased captures of the Italian region, in order, all clean |
| Scanners.ProcessFr | wiktionary2dict/__init__.py:272-297 | `process_fr` yields exactly the non-empty refinements of the lower-cased captures of the French region, in order, all clean |
| Scanners.ProcessEl | wiktionary2dict/__init__.py:307-335 | `process_el` yields exactly the non-empty refinements of the lower-cased captures of the Greek region, in order, all clean |
| English.TaggedPairs | wiktionary2dict/__init__.py:132 | the two-group `findall` gives one (region, payload) pair per match |
| English.AddShape | wiktionary2dict/__init__.py:140 | `current_prons[region].append(p)` appends `p` to the key's list, leaves every other entry alone, and adds a new key last with `[p]` |
| English.AddWellFormed | wiktionary2dict/__init__.py:79 | appending keeps the keys distinct and every list non-empty |
| English.AddAllWellFormed | wiktionary2dict/__init__.py:132-140 | a run of appends keeps the buffer well formed |
| English.PickIsLast | wiktionary2dict/__init__.py:98-106 | the list chosen for an accent is that of the last label classified as that accent |
| English.PickAbsent | wiktionary2dict/__init__.py:93-106 | an accent with no label keeps its `None` |
| English.PickPresent | wiktionary2dict/__init__.py:98-106 | in a well-formed buffer an accent gets a non-empty list exactly when some label has that accent |
| English.BestOrder | wiktionary2dict/__init__.py:108 | the chosen list is U.S. if present, else General American, else U.K., else Received Pronunciation; it is empty exactly when no label has one of the four accents |
| English.Resolve | wiktionary2dict/__init__.py:92-110 | the loop over the buffer's items and the `or` chain return the list that the order of preference chooses |
| English.KeepParts | wiktionary2dict/__init__.py:120-127 | the loop over the bar-separated alternatives returns the non-empty refinements of those free of `xxx`, in order |
| English.PlainProns | wiktionary2dict/__init__.py:116-128 | the plain transcriptions of a line come in order, and `pron_found` is set exactly when there is one |
| English.BufferTagged | wiktionary2dict/__init__.py:130-140 | the nested loops append each region-tagged transcription of the line to its label's list, in order |
| English.EnStart | wiktionary2dict/__init__.py:75-79 | with no flag set, nothing yielded and an empty buffer, the loop invariant holds before the first line |
| English.EnInsideStep | wiktionary2dict/__init__.py:87-140 | a region line that is not a `===` line keeps the invariant, adding its plain transcriptions or its buffered candidates |
| English.EnOutsideStep | wiktionary2dict/__init__.py:142-145 | a line outside the region keeps the invariant, changing only the flags |
| English.EnExit | wiktionary2dict/__init__.py:87-114 | at the end of the body the output is complete; at a `===` line it is complete once the chosen list is added |
| English.EndLineIsSection | wiktionary2dict/__init__.py:88 | a line ends the English region exactly when it starts with `===` |
| English.EnglishLine | wiktionary2dict/__init__.py:82-145 | one pass over a line either stops with the whole output, having emptied the buffer, or keeps the loop invariant |
| English.ScanEnglish | wiktionary2dict/__init__.py:81-145 | the loop yields the region's plain transcriptions, then the chosen list when a `===` line closes the region |
| English.ProcessEnUs | wiktionary2dict/__init__.py:72-145 | `process_en_us` yields the English output, and every transcription it yields is clean |
| English.BufferOfWellFormed | wiktionary2dict/__init__.py:79 | the buffer built over the region is well formed |
| English.ServicesClean | wiktionary2dict/__init__.py:341-364 | the refine service returns the empty string or a clean transcription |
| English.KeepClean | wiktionary2dict/__init__.py:120-127 | every kept alternative is clean |
| English.PlainOfClean | wiktionary2dict/__init__.py:119-127 | every plain transcription is clean |
| English.TaggedOfClean | wiktionary2dict/__init__.py:132-140 | every region-tagged candidate is clean |
| English.AddClean | wiktionary2dict/__init__.py:140 | appending a clean transcription keeps every buffered entry clean |
| English.AddAllClean | wiktionary2dict/__init__.py:132-140 | appending clean candidates keeps every buffered entry clean |
| English.BufferOfClean | wiktionary2dict/__init__.py:130-140 | every entry of the buffer built over the region is clean |
| English.PickFromBuffer | wiktionary2dict/__init__.py:98-106 | an accent's list is empty or one of the buffer's lists |
| English.BestFromBuffer | wiktionary2dict/__init__.py:108-110 | the chosen list is empty or one of the buffer's lists |
| English.EnglishBodyMembers | wiktionary2dict/__init__.py:116-128 | a plain transcription of the region is one that some region line yields at once |
| English.EnglishClean | wiktionary2dict/__init__.py:72-145 | every transcription of the English scanner is clean |
| English.OneMatchPerLine | wiktionary2dict/__init__.py:68-69 | the plain and the region-tagged English patterns each match at most once on a line |
| English.BufferGrowsOnlyOnDroppedPlain | wiktionary2dict/__init__.py:116-140 | a line changes the buffer only if the plain pattern matched it and every alternative it captured was dropped |
| English.UnclosedDropsBuffer | wiktionary2dict/__init__.py:87-114 | when the body ends before a `===` line, the output is exactly the plain transcriptions of the region, and the buffer is lost |
| English.EnglishMembers | wiktionary2dict/__init__.py:87-140 | a transcription is yielded exactly when a region line yields it at once, or a `===` line closes the region and it is in the list chosen from the region's buffer |
| English.EnglishIgnoresTail | wiktionary2dict/__init__.py:88-114 | once a `===` line closes the region, lines after it change nothing in the output |
| English.KeepMembers | wiktionary2dict/__init__.py:120-127 | a transcription is kept from a list of alternatives exactly when it is the non-empty refinement of an alternative free of `xxx` |
| English.AlternativesMembers | wiktionary2dict/__init__.py:120-127 | a transcription comes from a captured payload exactly when it is the non-empty refinement of one of its bar-separated alternatives free of `xxx` |
| English.PlainOfMembers | wiktionary2dict/__init__.py:119-127 | a plain transcription of a line is yielded exactly when it comes from one of the line's plain IPA captures |
| English.TagMembers | wiktionary2dict/__init__.py:132-140 | a labelled candidate carries the match's label and one of its transcriptions, and every such pair is a candidate |
| English.TaggedOfMembers | wiktionary2dict/__init__.py:132-140 | `(label, p)` is a region-tagged candidate of a line exactly when some match with that label has `p` among its payload's transcriptions |
| English.AddMembers | wiktionary2dict/__init__.py:140 | after an append the buffer holds what it held plus the appended transcription under its label, and nothing else |
| English.AddAllMembers | wiktionary2dict/__init__.py:132-140 | after a run of appends the buffer holds what it held plus exactly the appended pairs |
| English.LineBufferMembers | wiktionary2dict/__init__.py:116-140 | a line adds to the buffer exactly its region-tagged candidates, and only when it yields nothing at once |
| English.BufferOfMembers | wiktionary2dict/__init__.py:87-140 | the region's buffer holds `p` under a label exactly when some region line yielding nothing at once has that pair among its candidates |
| English.BufferedSources | wiktionary2dict/__init__.py:87-140 | the region's buffer holds `p` under a label exactly when `p` comes from a match with that label on a region line that yields nothing at once |
| English.BestMembers | wiktionary2dict/__init__.py:92-110 | a transcription is in the chosen list exactly when it is buffered under the label whose list was chosen |
| English.EnglishSources | wiktionary2dict/__init__.py:72-145 | a transcription is yielded exactly when it comes from a plain capture on a region line, or, once a `===` line closes the region, from a region-tagged capture with the chosen label on a region line that yields nothing at once |
| Dump.PagePairs | wiktionary2dict/__init__.py:42-52 | an accepted page gives one pair per transcription of its text; a skipped page gives none |
| Dump.Run | wiktionary2dict/__init__.py:32-52 | the page loop yields, page after page, the pairs each accepted page gives |
| Dump.PairsMembers | wiktionary2dict/__init__.py:37-52 | `(w, p)` is yielded exactly when some page is accepted, `w` is its stripped title, and the scanner yields `p` on its text |
| Dump.HeadwordShape | wiktionary2dict/__init__.py:37-47 | every yielded word is non-empty, has no whitespace at either end, and holds no space or comma |
| Dump.PairsAppend | wiktionary2dict/__init__.py:32-52 | the output for a dump is the output for its first pages followed by the output for the rest |

## Left out

- Reading the dump. The lxml `iterparse` and the element lookups are left out: the dump is a sequence of `Page` records, each with its title text and its optional text. The pruning of the tree after each page is left out too; it concerns memory, not the values yielded.
- Pages without a `<title>` or `<revision>/<text>` element raise `AttributeError` in the source. The model's titles are always strings, so that error path is not modelled. This includes a present but empty `<title/>` element: its `.text` is `None`, so `.strip()` raises `AttributeError` in the source, while the model reads such a page as the title `""`, which is skipped. An empty `<text>` element, whose `.text` is `None`, is the `None` text of a page.
- The command-line front end (`wiktionary2dict/__main__.py`) is not part of this model: argument parsing, logging, printing and the language table.
- `str.splitlines` is not modelled: each scanner takes its entry body as a sequence of lines.
- Unicode NFD and `str.lower` are parameters: the two functions of a `Text.Unicode` value. Facts about them, such as NFD mapping U+037E to `;`, are hypotheses of the lemmas that need them.
- Regular expressions in general are not modelled. Only the five distinct patterns of the source are matched, by hand.
- Generators are modelled by their finite output sequences. Laziness and interleaving with the caller are left out.
- The `process` argument of `Dump.Run` is any function from text to transcriptions. Which language is chosen is decided outside the core.
- Text.Replace: states only that a string without an occurrence is unchanged. The full meaning of `str.replace` is its recursive definition, which the Dutch lemmas use as such.
- Patterns.FindAll: states only the shape of each match (group count, non-empty groups). Which matches are found is stated by `GreedyAtMostOne`, `NoAnchorNoMatch` and `RegionLineMatchesPlain`, and for the other patterns by the definition itself.
- Patterns.MatchAt: states only the shape of a match (group count, non-empty groups, end within the line). The captured text is stated by `Patterns.EnHit`, `Patterns.RegionHit` and `Patterns.ElHit` for the greedy patterns, and by the definitions for the others.
- Patterns.MatchIpaBar: states only the shape of a match. The exact position rules are those of its definition.
- Patterns.MatchFrPron: states only the shape of a match. The exact position rules are those of its definition.
