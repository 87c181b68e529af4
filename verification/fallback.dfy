/** The last-resort search over the whole page text, run only when the scans
    found nothing (simple_crawler.py:448-496): first the full keyword, then its
    prefixes from the longest down to two characters. */
module Fallback {
  import opened Wrappers
  import opened Strings
  import opened Candidates

  const PageLabel: string := "包含关键词的页面内容"

  const PartialOpen: string := "包含部分关键词'"
  const PartialClose: string := "'的页面内容"

  /** The title that names the partial keyword that matched (line 488): the fixed
      opening, the prefix, the fixed closing. It can never be mistaken for the
      full-match label. */
  function PartialTitle(p: string): (t: string)
    ensures StartsWith(t, PartialOpen) && EndsWith(t, PartialClose)
    ensures |t| == |PartialOpen| + |p| + |PartialClose|
    ensures OccursAt(t, p, |PartialOpen|)
    ensures t != PageLabel
  {
    PartialOpen + p + PartialClose
  }

  /** Different prefixes give different titles. */
  lemma PartialTitleInjective(p: string, q: string)
    requires PartialTitle(p) == PartialTitle(q)
    ensures p == q
  {
    assert |p| == |q|;
    assert PartialTitle(p)[|PartialOpen|..|PartialOpen| + |p|] == p;
  }

  /** Shortest prefix the loop at line 478 tries. */
  const MinPrefix: nat := 2

  /** The loop `for i in range(n, 1, -1)`: the longest prefix of length at most
      `n`, and at least 2, that occurs in the text. */
  function LongestPrefixMatch(text: string, kw: string, n: nat): (r: Option<nat>)
    requires n <= |kw|
    ensures r.Some? ==> MinPrefix <= r.value <= n && ContainsCI(text, kw[..r.value])
    ensures r.Some? ==> forall m :: r.value < m <= n ==> !ContainsCI(text, kw[..m])
    ensures r.None? ==> forall m :: MinPrefix <= m <= n ==> !ContainsCI(text, kw[..m])
  {
    if n < MinPrefix then None
    else if ContainsCI(text, kw[..n]) then Some(n)
    else LongestPrefixMatch(text, kw, n - 1)
  }

  /** Since every prefix of an occurring string occurs too, neither the keyword nor
      any of the prefixes the loop tries occurs exactly when its first two characters
      do not (for a keyword of at most one character, the keyword itself). */
  lemma ShortPrefixDecides(text: string, kw: string)
    ensures (!ContainsCI(text, kw) && forall m :: MinPrefix <= m <= |kw| ==> !ContainsCI(text, kw[..m])) <==>
            !ContainsCI(text, kw[..Min(MinPrefix, |kw|)])
  {
    var short := kw[..Min(MinPrefix, |kw|)];
    if ContainsCI(text, kw) {
      PrefixContainedCI(text, kw, Min(MinPrefix, |kw|));
    }
    if |kw| < MinPrefix {
      assert short == kw;
    } else {
      forall m | MinPrefix <= m <= |kw| && ContainsCI(text, kw[..m])
        ensures ContainsCI(text, short)
      {
        PrefixContainedCI(text, kw[..m], MinPrefix);
        assert kw[..m][..MinPrefix] == short;
      }
      assert kw[..MinPrefix] == short;
    }
  }

  /** Lines 448-496 after the scans came up empty: at most one result, labelled
      with the page URL as its link and a context of at most 200 characters. */
  function FallbackSearch(text: string, base: string, kw: string): (r: seq<Candidate>)
    ensures |r| <= 1
    ensures r == [] <==>
              !ContainsCI(text, kw) && forall m :: MinPrefix <= m <= |kw| ==> !ContainsCI(text, kw[..m])
    ensures ContainsCI(text, kw) ==> |r| == 1 && r[0].title == PageLabel
    ensures ContainsCI(text, kw) ==>
              forall i: nat :: FirstMatchCI(text, kw, i) ==> i <= |text| && r[0].summary == ContextWindow(text, i)
    ensures forall c :: c in r ==> c.link == base && |c.summary| <= 2 * Radius
    ensures forall c :: c in r ==> exists k: nat :: OccursAt(text, c.summary, k)
  {
    if ContainsCI(text, kw) then
      [Candidate(PageLabel, base, KeywordContext(text, kw))]
    else
      match LongestPrefixMatch(text, kw, |kw|)
      case None => []
      case Some(n) => [Candidate(PartialTitle(kw[..n]), base, KeywordContext(text, kw[..n]))]
  }

  /** When the full keyword is absent, the reported partial keyword is the longest
      prefix of at least 2 characters that occurs; a shorter one is never reported
      while a longer one matches. */
  lemma PartialMatchIsLongest(text: string, base: string, kw: string, m: nat)
    requires !ContainsCI(text, kw)
    requires MinPrefix <= m < |kw| && ContainsCI(text, kw[..m])
    requires forall l :: m < l <= |kw| ==> !ContainsCI(text, kw[..l])
    ensures FallbackSearch(text, base, kw) == [Candidate(PartialTitle(kw[..m]), base, KeywordContext(text, kw[..m]))]
  {
    var r := LongestPrefixMatch(text, kw, |kw|);
    assert r.Some? && r.value <= m;
    assert r == Some(m);
  }

  /** The partial context still shows the matched prefix, which is at most as
      long as the keyword. */
  lemma PartialContextShowsPrefix(text: string, base: string, kw: string)
    requires !ContainsCI(text, kw) && |kw| <= Radius
    requires FallbackSearch(text, base, kw) != []
    ensures exists m :: MinPrefix <= m < |kw| &&
              FallbackSearch(text, base, kw)[0].title == PartialTitle(kw[..m]) &&
              ContainsCI(FallbackSearch(text, base, kw)[0].summary, kw[..m])
  {
    var n := LongestPrefixMatch(text, kw, |kw|).value;
    assert kw[..|kw|] == kw;
    assert n < |kw|;
  }
}
