/** `wiktionary2dict`: the loop over the `<page>` elements of a dump.  Each
    page's title is stripped into a headword; a page whose headword or text
    is empty, or whose headword holds a space or a comma, is skipped; every
    other page's text goes to the language's scanner, and each transcription
    it yields is paired with the headword. */
module Dump {
  import opened Text

  /** A `<page>`: its `<title>` text and its `<revision><text>` text, which
      is absent for an empty element. */
  datatype Page = Page(title: string, text: Option<string>)

  function Headword(page: Page): string {
    Strip(page.title)
  }

  /** The two `continue`s of the loop. */
  predicate Accepts(page: Page) {
    var word := Headword(page);
    && word != []
    && page.text.Some? && page.text.value != []
    && ' ' !in word && ',' !in word
  }

  /** The pairs one page contributes. */
  function PagePairs(page: Page, process: string -> seq<string>): (ps: seq<(string, string)>)
    ensures Accepts(page) ==> |ps| == |process(page.text.value)|
    ensures !Accepts(page) ==> ps == []
  {
    if !Accepts(page) then []
    else
      var prons := process(page.text.value);
      seq(|prons|, k requires 0 <= k < |prons| => (Headword(page), prons[k]))
  }

  /** The outputs of `f` on each of `xs`, one after the other. */
  function Flatten<T, U>(f: T -> seq<U>, xs: seq<T>): seq<U> {
    if xs == [] then []
    else Flatten(f, xs[..|xs| - 1]) + f(xs[|xs| - 1])
  }

  function Emits(process: string -> seq<string>): Page -> seq<(string, string)> {
    page => PagePairs(page, process)
  }

  /** What the generator yields over a run of pages, in order. */
  function PairsOf(pages: seq<Page>, process: string -> seq<string>): seq<(string, string)> {
    Flatten(Emits(process), pages)
  }

  /** The loop of `wiktionary2dict`, with the scanner given as `process`. */
  method Run(pages: seq<Page>, process: string -> seq<string>) returns (pairs: seq<(string, string)>)
    ensures pairs == PairsOf(pages, process)
  {
    pairs := [];
    var i := 0;
    while i < |pages|
      invariant 0 <= i <= |pages|
      invariant pairs == PairsOf(pages[..i], process)
    {
      var page := pages[i];
      assert pages[..i + 1][..i] == pages[..i];
      i := i + 1;
      var word := Strip(page.title);
      if word == [] || page.text.None? || page.text.value == [] {
        continue;
      }
      if ' ' in word || ',' in word {
        continue;
      }
      var text := page.text.value;
      var prons := process(text);
      var j := 0;
      ghost var before := pairs;
      while j < |prons|
        invariant 0 <= j <= |prons|
        invariant pairs == before + PagePairs(page, process)[..j]
      {
        assert PagePairs(page, process)[..j + 1] == PagePairs(page, process)[..j] + [(word, prons[j])];
        pairs := pairs + [(word, prons[j])];
        j := j + 1;
      }
      assert PagePairs(page, process)[..j] == PagePairs(page, process);
    }
    assert pages[..i] == pages;
  }

  /** A pair is yielded exactly when its headword belongs to an accepted
      page whose text the scanner turns into that transcription. */
  lemma {:induction false} PairsMembers(pages: seq<Page>, process: string -> seq<string>, w: string, p: string)
    ensures (w, p) in PairsOf(pages, process) <==>
      exists i :: 0 <= i < |pages| && Accepts(pages[i]) && w == Headword(pages[i])
        && p in process(pages[i].text.value)
    decreases |pages|
  {
    if pages != [] {
      var init, last := pages[..|pages| - 1], pages[|pages| - 1];
      PairsMembers(init, process, w, p);
      assert PairsOf(pages, process) == PairsOf(init, process) + PagePairs(last, process);
      if (w, p) in PagePairs(last, process) {
        var k :| 0 <= k < |PagePairs(last, process)| && PagePairs(last, process)[k] == (w, p);
        assert p == process(last.text.value)[k];
      }
      if Accepts(last) && w == Headword(last) && p in process(last.text.value) {
        var k :| 0 <= k < |process(last.text.value)| && process(last.text.value)[k] == p;
        assert PagePairs(last, process)[k] == (w, p);
      }
      forall i | 0 <= i < |init| ensures init[i] == pages[i] {
      }
    }
  }

  /** Every headword yielded is non-empty, has no whitespace at either end,
      and holds no space or comma. */
  lemma HeadwordShape(pages: seq<Page>, process: string -> seq<string>, w: string, p: string)
    requires (w, p) in PairsOf(pages, process)
    ensures w != [] && !IsSpace(w[0]) && !IsSpace(w[|w| - 1])
    ensures ' ' !in w && ',' !in w
  {
    PairsMembers(pages, process, w, p);
    var i :| 0 <= i < |pages| && Accepts(pages[i]) && w == Headword(pages[i]) && p in process(pages[i].text.value);
    StripSpec(pages[i].title);
  }

  lemma {:induction false} FlattenAppend<T, U>(f: T -> seq<U>, a: seq<T>, b: seq<T>)
    ensures Flatten(f, a + b) == Flatten(f, a) + Flatten(f, b)
    decreases |b|
  {
    if b == [] {
      assert a + b == a;
    } else {
      var init, last := b[..|b| - 1], b[|b| - 1];
      assert (a + b)[..|a + b| - 1] == a + init;
      assert (a + b)[|a + b| - 1] == last;
      FlattenAppend(f, a, init);
    }
  }

  /** The pages are processed one after the other: the output for a dump is
      the output for its first part followed by the output for the rest. */
  lemma PairsAppend(a: seq<Page>, b: seq<Page>, process: string -> seq<string>)
    ensures PairsOf(a + b, process) == PairsOf(a, process) + PairsOf(b, process)
  {
    FlattenAppend(Emits(process), a, b);
  }
}
