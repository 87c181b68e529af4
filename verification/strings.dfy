/** The string primitives the crawler relies on: case folding, `in` / `find`,
    `startswith`, `rstrip`, `join`, and the ±100-character context window. */
module Strings {
  import opened Wrappers

  /** Half-width of the context window cut around a keyword occurrence. */
  const Radius: nat := 100

  function Min(a: int, b: int): int { if a <= b then a else b }
  function Max(a: int, b: int): int { if a >= b then a else b }

  /** `str.lower()` on one character, as a length-preserving map:
      ASCII capitals fold to lower case, everything else is unchanged. */
  function LowerChar(c: char): char {
    if 'A' <= c <= 'Z' then (c as int + 32) as char else c
  }

  function Lower(s: string): (r: string)
    ensures |r| == |s|
    ensures forall i :: 0 <= i < |s| ==> r[i] == LowerChar(s[i])
  {
    seq(|s|, i requires 0 <= i < |s| => LowerChar(s[i]))
  }

  /** Folding commutes with taking a slice, so a position found in the folded
      text is the same position in the original text. */
  lemma LowerSlice(s: string, i: nat, j: nat)
    requires i <= j <= |s|
    ensures Lower(s[i..j]) == Lower(s)[i..j]
  {
  }

  /** `needle` starts at position `i` of `hay`. */
  predicate OccursAt(hay: string, needle: string, i: nat) {
    i + |needle| <= |hay| && hay[i..i + |needle|] == needle
  }

  /** `hay.find(needle, i)`: the first position at or after `i` where `needle` occurs. */
  function FindFrom(hay: string, needle: string, i: nat): (r: Option<nat>)
    decreases |hay| - i
    ensures r.Some? ==> i <= r.value && OccursAt(hay, needle, r.value)
    ensures r.Some? ==> forall k :: i <= k < r.value ==> !OccursAt(hay, needle, k)
    ensures r.None? ==> forall k :: i <= k ==> !OccursAt(hay, needle, k)
  {
    if i + |needle| > |hay| then None
    else if hay[i..i + |needle|] == needle then Some(i)
    else FindFrom(hay, needle, i + 1)
  }

  /** `hay.find(needle)`, with `None` for Python's -1. */
  function Find(hay: string, needle: string): (r: Option<nat>)
    ensures r.Some? ==> OccursAt(hay, needle, r.value)
    ensures r.Some? ==> forall k :: 0 <= k < r.value ==> !OccursAt(hay, needle, k)
    ensures r.None? ==> forall k :: 0 <= k ==> !OccursAt(hay, needle, k)
  {
    FindFrom(hay, needle, 0)
  }

  /** `needle in hay`. */
  predicate Contains(hay: string, needle: string) {
    Find(hay, needle).Some?
  }

  /** `needle in hay` holds exactly when `needle` occurs at some position of `hay`. */
  lemma ContainsIff(hay: string, needle: string)
    ensures Contains(hay, needle) <==> exists k: nat :: OccursAt(hay, needle, k)
  {
  }

  /** `needle.lower() in hay.lower()`, the crawler's only notion of a match. */
  predicate ContainsCI(hay: string, needle: string) {
    Contains(Lower(hay), Lower(needle))
  }

  /** `hay.lower().find(needle.lower())`. */
  function FindCI(hay: string, needle: string): (r: Option<nat>)
    ensures r.Some? <==> ContainsCI(hay, needle)
    ensures r.Some? ==> r.value + |needle| <= |hay|
    ensures r.Some? ==> Lower(hay[r.value..r.value + |needle|]) == Lower(needle)
    ensures r.Some? ==> FirstMatchCI(hay, needle, r.value)
  {
    var r := Find(Lower(hay), Lower(needle));
    if r.Some? then LowerSlice(hay, r.value, r.value + |needle|); r else r
  }

  /** Any text that contains a string case-insensitively also contains each of its prefixes. */
  lemma PrefixContainedCI(hay: string, needle: string, n: nat)
    requires n <= |needle|
    requires ContainsCI(hay, needle)
    ensures ContainsCI(hay, needle[..n])
  {
    var k := Find(Lower(hay), Lower(needle)).value;
    assert |Lower(needle)| == |needle| && OccursAt(Lower(hay), Lower(needle), k);
    assert Lower(needle[..n]) == Lower(needle)[..n];
    assert Lower(hay)[k..k + n] == Lower(hay)[k..k + |needle|][..n];
    assert OccursAt(Lower(hay), Lower(needle[..n]), k);
    ContainsIff(Lower(hay), Lower(needle[..n]));
  }

  /** `s.startswith(p)`: `s` has at least as many characters as `p` and agrees
      with it on each of them. */
  predicate StartsWith(s: string, p: string): (b: bool)
    ensures b <==> |p| <= |s| && forall k :: 0 <= k < |p| ==> s[k] == p[k]
  {
    |p| <= |s| && s[..|p|] == p
  }

  /** `s.endswith(p)`. */
  predicate EndsWith(s: string, p: string) {
    |p| <= |s| && s[|s| - |p|..] == p
  }

  /** `s.rstrip(c)`: the longest prefix of `s` that does not end in `c`,
      so that what was removed consists of `c` alone. */
  function RStrip(s: string, c: char): (r: string)
    ensures |r| <= |s| && r == s[..|r|]
    ensures r == [] || r[|r| - 1] != c
    ensures forall k :: |r| <= k < |s| ==> s[k] == c
  {
    if s != [] && s[|s| - 1] == c then RStrip(s[..|s| - 1], c) else s
  }

  /** Stripping is idempotent, and stripping `s + [c]` is stripping `s`. */
  lemma RStripStable(s: string, c: char)
    ensures RStrip(RStrip(s, c), c) == RStrip(s, c)
    ensures RStrip(s + [c], c) == RStrip(s, c)
  {
  }

  /** `sep.join(parts)`: the parts in order with one `sep` between neighbours.
      It agrees with the left-to-right reading `JoinFirst` over all the parts. */
  function Join(sep: string, parts: seq<string>): (r: string)
    decreases |parts|
    ensures r == JoinFirst(sep, parts, |parts|)
  {
    if |parts| == 0 then ""
    else if |parts| == 1 then parts[0]
    else
      JoinFirstCons(sep, parts, |parts|);
      parts[0] + sep + Join(sep, parts[1..])
  }

  /** The join of the first `n` parts built left to right: one part is itself,
      and each further part is appended after one `sep`. */
  function JoinFirst(sep: string, parts: seq<string>, n: nat): string
    requires n <= |parts|
  {
    if n == 0 then ""
    else if n == 1 then parts[0]
    else JoinFirst(sep, parts, n - 1) + sep + parts[n - 1]
  }

  /** Read from the front, the left-to-right join of `n > 1` parts is the first
      part, `sep`, and the join of the next `n - 1`. */
  lemma {:induction false} JoinFirstCons(sep: string, parts: seq<string>, n: nat)
    requires 1 < n <= |parts|
    ensures JoinFirst(sep, parts, n) == parts[0] + sep + JoinFirst(sep, parts[1..], n - 1)
  {
    if n > 2 {
      JoinFirstCons(sep, parts, n - 1);
      assert parts[1..][n - 2] == parts[n - 1];
    }
  }

  /** A join begins with its first part and ends with its last. */
  lemma {:induction false} JoinEnds(sep: string, parts: seq<string>)
    requires |parts| > 0
    ensures StartsWith(Join(sep, parts), parts[0]) && EndsWith(Join(sep, parts), parts[|parts| - 1])
    decreases |parts|
  {
    if |parts| > 1 {
      JoinEnds(sep, parts[1..]);
      var rest := Join(sep, parts[1..]);
      assert Join(sep, parts) == parts[0] + sep + rest;
      assert parts[1..][|parts| - 2] == parts[|parts| - 1];
    }
  }

  /** A join splits at every part boundary: the parts before it, one `sep`, and
      the parts after it. */
  lemma JoinSplit(sep: string, parts: seq<string>, k: nat)
    requires 0 < k < |parts|
    ensures Join(sep, parts) == Join(sep, parts[..k]) + sep + Join(sep, parts[k..])
  {
    JoinFirstSplit(sep, parts, k, |parts|);
    JoinFirstPrefix(sep, parts, k, k);
  }

  lemma {:induction false} JoinFirstSplit(sep: string, parts: seq<string>, k: nat, n: nat)
    requires 0 < k < n <= |parts|
    ensures JoinFirst(sep, parts, n) == JoinFirst(sep, parts, k) + sep + JoinFirst(sep, parts[k..], n - k)
    decreases n
  {
    if n > k + 1 {
      JoinFirstSplit(sep, parts, k, n - 1);
      assert parts[k..][n - k - 1] == parts[n - 1];
    } else {
      assert parts[k..][0] == parts[k];
    }
  }

  /** The join of the first `n` parts looks at those parts only. */
  lemma {:induction false} JoinFirstPrefix(sep: string, parts: seq<string>, n: nat, m: nat)
    requires n <= m <= |parts|
    ensures JoinFirst(sep, parts[..m], n) == JoinFirst(sep, parts, n)
    decreases n
  {
    if n > 1 {
      JoinFirstPrefix(sep, parts, n - 1, m);
    }
  }

  /** With a non-empty separator, a join is empty exactly when it joins
      nothing or a single empty string; two empty parts already give `sep`. */
  lemma {:induction false} JoinEmptyIff(sep: string, parts: seq<string>)
    requires sep != ""
    ensures Join(sep, parts) == "" <==> |parts| == 0 || (|parts| == 1 && parts[0] == "")
  {
  }

  /** The length of a join: every part plus one separator between neighbours. */
  function SumLengths(parts: seq<string>): nat {
    if |parts| == 0 then 0 else |parts[0]| + SumLengths(parts[1..])
  }

  lemma {:induction false} JoinLength(sep: string, parts: seq<string>)
    requires |parts| > 0
    ensures |Join(sep, parts)| == SumLengths(parts) + |sep| * (|parts| - 1)
    decreases |parts|
  {
    if |parts| > 1 {
      JoinLength(sep, parts[1..]);
      var rest := Join(sep, parts[1..]);
      assert Join(sep, parts) == parts[0] + sep + rest;
      assert |Join(sep, parts)| == |parts[0]| + |sep| + |rest|;
      assert SumLengths(parts) == |parts[0]| + SumLengths(parts[1..]);
      assert |sep| * (|parts| - 1) == |sep| + |sep| * (|parts[1..]| - 1);
    }
  }

  /** `text[max(0, i - 100) : min(len(text), i + 100)]`: the context cut around
      a match that starts at `i`. It is a piece of `text` of at most 200 characters. */
  function ContextWindow(text: string, i: nat): (w: string)
    requires i <= |text|
    ensures |w| <= 2 * Radius
    ensures OccursAt(text, w, Max(0, i - Radius))
    ensures |w| == Min(|text|, i + Radius) - Max(0, i - Radius)
  {
    text[Max(0, i - Radius)..Min(|text|, i + Radius)]
  }

  /** The window keeps the 100 characters before the match and, when the match
      is at most 100 characters long, the whole match. */
  lemma WindowKeepsMatch(text: string, i: nat, n: nat)
    requires i + n <= |text| && n <= Radius
    ensures OccursAt(ContextWindow(text, i), text[i..i + n], i - Max(0, i - Radius))
    ensures Max(0, i - Radius) == 0 || i - Max(0, i - Radius) == Radius
  {
  }

  /** The case-insensitive occurrence of `kw` in `text` that `find` reports: the first one. */
  predicate FirstMatchCI(text: string, kw: string, i: nat) {
    OccursAt(Lower(text), Lower(kw), i) && forall j :: 0 <= j < i ==> !OccursAt(Lower(text), Lower(kw), j)
  }

  /** The context the crawler reports for a keyword found in `text`: the window
      around the first case-insensitive occurrence. It is a piece of `text` of at
      most 200 characters, and it still contains the keyword whenever the keyword
      is at most 100 characters long. */
  function KeywordContext(text: string, kw: string): (w: string)
    requires ContainsCI(text, kw)
    ensures |w| <= 2 * Radius
    ensures exists k: nat :: OccursAt(text, w, k)
    ensures |kw| <= Radius ==> ContainsCI(w, kw)
    ensures forall i: nat :: FirstMatchCI(text, kw, i) ==> i <= |text| && w == ContextWindow(text, i)
  {
    var i := FindCI(text, kw).value;
    var w := ContextWindow(text, i);
    assert OccursAt(text, w, Max(0, i - Radius));
    assert forall i': nat :: FirstMatchCI(text, kw, i') ==> i' == i by {
      forall i': nat | FirstMatchCI(text, kw, i') ensures i' == i {
        assert OccursAt(Lower(text), Lower(kw), i);
      }
    }
    if |kw| <= Radius then WindowHasKeyword(text, kw, i); w else w
  }

  lemma WindowHasKeyword(text: string, kw: string, i: nat)
    requires i + |kw| <= |text| && |kw| <= Radius
    requires Lower(text[i..i + |kw|]) == Lower(kw)
    ensures ContainsCI(ContextWindow(text, i), kw)
  {
    var w := ContextWindow(text, i);
    var o := i - Max(0, i - Radius);
    WindowKeepsMatch(text, i, |kw|);
    LowerSlice(w, o, o + |kw|);
    assert OccursAt(Lower(w), Lower(kw), o);
    ContainsIff(Lower(w), Lower(kw));
  }
}
