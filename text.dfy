/** String primitives of Python that the extractor relies on: `str.strip`,
    `str.startswith`, the `in` substring test, `str.split`, `str.replace`, and
    the character-wise substitutions that `re.sub` performs with a one-character
    pattern.  Unicode normalisation and lower-casing are not modelled here: they
    are handed to the model as the two functions of a `Unicode` value. */
module Text {

  datatype Option<T> = None | Some(value: T)

  /** The two Unicode services the extractor borrows from Python:
      `unicodedata.normalize("NFD", _)` and `str.lower()`. */
  datatype Unicode = Unicode(nfd: string -> string, lower: string -> string)

  /** The characters for which Python's `str.isspace()` holds: what `str.strip()`
      removes and what `\s` matches in a `str` pattern. */
  predicate IsSpace(c: char) {
    || '\t' <= c <= '\r'
    || '\U{1C}' <= c <= '\U{1F}'
    || c == ' ' || c == '\U{85}' || c == '\U{A0}' || c == '\U{1680}'
    || '\U{2000}' <= c <= '\U{200A}'
    || c == '\U{2028}' || c == '\U{2029}' || c == '\U{202F}' || c == '\U{205F}' || c == '\U{3000}'
  }

  predicate AllSpace(s: string) {
    forall i :: 0 <= i < |s| ==> IsSpace(s[i])
  }

  /** `s.lstrip()`. */
  function StripStart(s: string): string {
    if s != [] && IsSpace(s[0]) then StripStart(s[1..]) else s
  }

  /** `s.rstrip()`. */
  function StripEnd(s: string): string {
    if s != [] && IsSpace(s[|s| - 1]) then StripEnd(s[..|s| - 1]) else s
  }

  /** `s.strip()`. */
  function Strip(s: string): string {
    StripEnd(StripStart(s))
  }

  /** `s.lstrip()` is the longest suffix of `s` that does not start with whitespace. */
  lemma {:induction false} StripStartSpec(s: string)
    ensures var r := StripStart(s);
      |r| <= |s| && r == s[|s| - |r|..] && AllSpace(s[..|s| - |r|]) && (r == [] || !IsSpace(r[0]))
  {
    if s != [] && IsSpace(s[0]) {
      var a := s[1..];
      StripStartSpec(a);
      var r := StripStart(a);
      assert a[..|a| - |r|] == s[1..|s| - |r|];
      assert s[..|s| - |r|] == [s[0]] + a[..|a| - |r|];
      assert r == s[|s| - |r|..];
    }
  }

  /** `s.rstrip()` is the longest prefix of `s` that does not end with whitespace. */
  lemma {:induction false} StripEndSpec(s: string)
    ensures var r := StripEnd(s);
      |r| <= |s| && r == s[..|r|] && AllSpace(s[|r|..]) && (r == [] || !IsSpace(r[|r| - 1]))
  {
    if s != [] && IsSpace(s[|s| - 1]) {
      var a := s[..|s| - 1];
      StripEndSpec(a);
      var r := StripEnd(a);
      assert a[|r|..] == s[|r|..|s| - 1];
      assert s[|r|..] == a[|r|..] + [s[|s| - 1]];
      assert r == s[..|r|];
    }
  }

  /** What `s.strip()` returns: the piece of `s` left when whitespace is cut
      from both ends, which neither starts nor ends with whitespace. */
  lemma StripSpec(s: string)
    ensures var r := Strip(s);
      exists i :: 0 <= i <= |s| - |r| && r == s[i..i + |r|] && AllSpace(s[..i]) && AllSpace(s[i + |r|..])
    ensures var r := Strip(s); r == [] || (!IsSpace(r[0]) && !IsSpace(r[|r| - 1]))
  {
    var a := StripStart(s);
    StripStartSpec(s);
    var r := StripEnd(a);
    StripEndSpec(a);
    var i := |s| - |a|;
    assert a == s[i..];
    assert s[i..i + |r|] == a[..|r|];
    assert s[i + |r|..] == a[|r|..];
    assert AllSpace(s[..i]) && AllSpace(s[i + |r|..]);
    if r != [] {
      assert r[0] == a[0];
    }
  }

  /** `s.startswith(p)`. */
  predicate StartsWith(s: string, p: string) {
    |p| <= |s| && s[..|p|] == p
  }

  /** `sub in s`, Python's substring test, by a left-to-right scan. */
  predicate Contains(s: string, sub: string)
    decreases |s|
  {
    StartsWith(s, sub) || (s != [] && Contains(s[1..], sub))
  }

  /** The scan finds `sub` exactly when it occurs at some position of `s`. */
  lemma {:induction false} ContainsSpec(s: string, sub: string)
    ensures Contains(s, sub) <==> exists i :: 0 <= i <= |s| && StartsWith(s[i..], sub)
    decreases |s|
  {
    if StartsWith(s, sub) {
      assert s[0..] == s;
    }
    if s != [] {
      ContainsSpec(s[1..], sub);
      if Contains(s[1..], sub) {
        var i :| 0 <= i <= |s[1..]| && StartsWith(s[1..][i..], sub);
        assert s[1..][i..] == s[i + 1..];
      }
      if exists i :: 0 <= i <= |s| && StartsWith(s[i..], sub) {
        var i :| 0 <= i <= |s| && StartsWith(s[i..], sub);
        if i > 0 {
          assert s[1..][i - 1..] == s[i..];
        }
      }
    } else {
      if exists i :: 0 <= i <= |s| && StartsWith(s[i..], sub) {
        var i :| 0 <= i <= |s| && StartsWith(s[i..], sub);
        assert s[i..] == s;
      }
    }
  }

  /** Whether some prefix in `ps` starts `s` (`s.startswith(a) or s.startswith(b)`). */
  predicate StartsWithAny(s: string, ps: seq<string>) {
    exists i :: 0 <= i < |ps| && StartsWith(s, ps[i])
  }

  /** Concatenation of the pieces of `parts`, each joined to the next by `sep`. */
  function Join(parts: seq<string>, sep: char): string
    requires |parts| >= 1
  {
    if |parts| == 1 then parts[0] else parts[0] + [sep] + Join(parts[1..], sep)
  }

  /** The index of the first `c` in `s`, or `|s|` when there is none. */
  function IndexOf(s: string, c: char): (i: nat)
    ensures i <= |s|
    ensures c !in s[..i]
    ensures i < |s| ==> s[i] == c
  {
    if s == [] || s[0] == c then 0 else 1 + IndexOf(s[1..], c)
  }

  /** `s.split(sep)` for a one-character separator: the pieces between
      separators, empty pieces included, so that joining them back gives `s`. */
  function Split(s: string, sep: char): (parts: seq<string>)
    ensures |parts| >= 1
    ensures forall i :: 0 <= i < |parts| ==> sep !in parts[i]
    ensures Join(parts, sep) == s
    decreases |s|
  {
    var i := IndexOf(s, sep);
    if i == |s| then
      assert s[..i] == s;
      [s]
    else
      var rest := Split(s[i + 1..], sep);
      assert s == s[..i] + [sep] + s[i + 1..];
      [s[..i]] + rest
  }

  /** `s.replace(pat, rep)`: every non-overlapping occurrence of `pat`, found
      left to right, replaced by `rep`. */
  function Replace(s: string, pat: string, rep: string): (r: string)
    requires pat != []
    ensures !Contains(s, pat) ==> r == s
    decreases |s|
  {
    if |s| < |pat| then s
    else if s[..|pat|] == pat then rep + Replace(s[|pat|..], pat, rep)
    else [s[0]] + Replace(s[1..], pat, rep)
  }

  /** The string made of `f(c)` for each character `c` of `s`, in order. */
  function MapChars(s: string, f: char -> string): string {
    if s == [] then [] else f(s[0]) + MapChars(s[1..], f)
  }

  lemma {:induction false} MapCharsAppend(a: string, b: string, f: char -> string)
    ensures MapChars(a + b, f) == MapChars(a, f) + MapChars(b, f)
  {
    if a != [] {
      assert (a + b)[1..] == a[1..] + b;
      MapCharsAppend(a[1..], b, f);
    } else {
      assert a + b == b;
    }
  }

  /** A character of `MapChars(s, f)` comes out of `f` applied to a character of `s`. */
  lemma {:induction false} MapCharsOrigin(s: string, f: char -> string, d: char)
    requires d in MapChars(s, f)
    ensures exists i :: 0 <= i < |s| && d in f(s[i])
  {
    if s != [] {
      if d !in f(s[0]) {
        MapCharsOrigin(s[1..], f, d);
        var i :| 0 <= i < |s[1..]| && d in f(s[1..][i]);
        assert s[1..][i] == s[i + 1];
      }
    }
  }

  lemma MapCharsUnit(x: char, f: char -> string)
    ensures MapChars([x], f) == f(x)
  {
    assert [x][1..] == [];
  }

  /** A map that sends every character of `s` to itself leaves `s` unchanged. */
  lemma {:induction false} MapCharsUnchanged(s: string, f: char -> string)
    requires forall i :: 0 <= i < |s| ==> f(s[i]) == [s[i]]
    ensures MapChars(s, f) == s
  {
    if s != [] {
      MapCharsUnchanged(s[1..], f);
    }
  }

  /** `re.sub(c, v, s)` and `s.replace(c, v)` for a single character `c`. */
  function ReplaceChar(s: string, c: char, v: string): string {
    MapChars(s, (x: char) => if x == c then v else [x])
  }

  lemma ReplaceCharAppend(a: string, b: string, c: char, v: string)
    ensures ReplaceChar(a + b, c, v) == ReplaceChar(a, c, v) + ReplaceChar(b, c, v)
  {
    MapCharsAppend(a, b, (x: char) => if x == c then v else [x]);
  }

  lemma ReplaceCharUnit(x: char, c: char, v: string)
    ensures ReplaceChar([x], c, v) == if x == c then v else [x]
  {
    MapCharsUnit(x, (y: char) => if y == c then v else [y]);
  }

  /** Replacing one character by `MapChars` is Python's `str.replace` with a
      one-character pattern. */
  lemma {:induction false} ReplaceCharIsReplace(s: string, c: char, v: string)
    ensures ReplaceChar(s, c, v) == Replace(s, [c], v)
  {
    if s != [] {
      ReplaceCharIsReplace(s[1..], c, v);
      assert s[..1] == [s[0]];
    }
  }

  /** The characters of `s` for which `keep` holds, in order. */
  function Filter(s: string, keep: char -> bool): (r: string)
    ensures |r| <= |s|
    ensures forall i :: 0 <= i < |r| ==> keep(r[i]) && r[i] in s
  {
    if s == [] then []
    else
      var rest := Filter(s[1..], keep);
      assert forall d :: d in s[1..] ==> d in s;
      if keep(s[0]) then [s[0]] + rest else rest
  }

  lemma {:induction false} FilterAppend(a: string, b: string, keep: char -> bool)
    ensures Filter(a + b, keep) == Filter(a, keep) + Filter(b, keep)
  {
    if a != [] {
      assert (a + b)[1..] == a[1..] + b;
      FilterAppend(a[1..], b, keep);
    } else {
      assert a + b == b;
    }
  }

  /** Filtering after a character map only sees, for each input character,
      the filtered image of that character. */
  lemma {:induction false} FilterMapChars(s: string, f: char -> string, g: char -> string, keep: char -> bool)
    requires forall c :: Filter(f(c), keep) == Filter(g(c), keep)
    ensures Filter(MapChars(s, f), keep) == Filter(MapChars(s, g), keep)
  {
    if s != [] {
      FilterMapChars(s[1..], f, g, keep);
      FilterAppend(f(s[0]), MapChars(s[1..], f), keep);
      FilterAppend(g(s[0]), MapChars(s[1..], g), keep);
    }
  }

  lemma FilterUnit(x: char, keep: char -> bool)
    ensures Filter([x], keep) == if keep(x) then [x] else []
  {
    assert [x][1..] == [];
  }
}
