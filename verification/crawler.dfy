/** `SimpleCrawler.search_website` once the page is fetched and parsed
    (simple_crawler.py:237-499): the five scans in order, de-duplication, and the
    fallback when nothing survived. */
module Crawler {
  import opened Wrappers
  import opened Strings
  import opened Html
  import opened Candidates
  import opened Scans
  import opened Fallback

  /** A result is in one of the five scans exactly when some scan makes it of some element. */
  lemma InSomeScan(page: Page, base: string, kw: string, c: Candidate)
    ensures (c in Scan(ScriptScan, page, base, kw) || c in Scan(HeadingScan, page, base, kw) ||
             c in Scan(ParagraphScan, page, base, kw) || c in Scan(AnchorScan, page, base, kw) ||
             c in Scan(TableScan, page, base, kw)) <==>
            exists s: Strategy :: Some(c) in Outcomes(s, page, base, kw)
  {
    ScanMembers(ScriptScan, page, base, kw, c);
    ScanMembers(HeadingScan, page, base, kw, c);
    ScanMembers(ParagraphScan, page, base, kw, c);
    ScanMembers(AnchorScan, page, base, kw, c);
    ScanMembers(TableScan, page, base, kw, c);
    if exists s: Strategy :: Some(c) in Outcomes(s, page, base, kw) {
      var s: Strategy :| Some(c) in Outcomes(s, page, base, kw);
      ScanMembers(s, page, base, kw, c);
    }
  }

  /** Lines 247-432: the scan results concatenated in the order the scans run.
      A result is in the list exactly when some scan makes it of some element. */
  function AllCandidates(page: Page, base: string, kw: string): (r: seq<Candidate>)
    ensures forall c :: c in r <==> exists s: Strategy :: Some(c) in Outcomes(s, page, base, kw)
  {
    var r := Scan(ScriptScan, page, base, kw) + Scan(HeadingScan, page, base, kw) +
             Scan(ParagraphScan, page, base, kw) + Scan(AnchorScan, page, base, kw) +
             Scan(TableScan, page, base, kw);
    assert forall c :: c in r <==> exists s: Strategy :: Some(c) in Outcomes(s, page, base, kw) by {
      forall c ensures c in r <==> exists s: Strategy :: Some(c) in Outcomes(s, page, base, kw) {
        InSomeScan(page, base, kw, c);
      }
    }
    r
  }

  /** The results of one call: the de-duplicated scan results, or, when there are
      none, whatever the whole-text fallback finds. */
  function SearchWebsite(page: Page, base: string, kw: string): (r: seq<Candidate>)
    ensures DistinctKeys(r, {})
    ensures AllCandidates(page, base, kw) != [] ==> IsSubsequence(r, AllCandidates(page, base, kw))
    ensures AllCandidates(page, base, kw) != [] ==> KeySet(r) == KeySet(AllCandidates(page, base, kw))
    ensures AllCandidates(page, base, kw) == [] ==> |r| <= 1
  {
    var found := Dedup(AllCandidates(page, base, kw));
    DedupFromSpec(AllCandidates(page, base, kw), {});
    DedupEmptyIff(AllCandidates(page, base, kw));
    if found != [] then found else FallbackSearch(page.text, base, kw)
  }

  /** The fallback runs only when no scan produced anything, since any scan
      result survives de-duplication. */
  lemma FallbackOnlyWhenScansEmpty(page: Page, base: string, kw: string)
    ensures AllCandidates(page, base, kw) != [] ==>
              SearchWebsite(page, base, kw) == Dedup(AllCandidates(page, base, kw))
    ensures AllCandidates(page, base, kw) == [] ==>
              SearchWebsite(page, base, kw) == FallbackSearch(page.text, base, kw)
  {
  }

  /** The anchor-text scan never changes the outcome: each of its results has the
      key of a heading-scan result that comes earlier, so de-duplication drops it. */
  lemma AnchorScanRedundant(page: Page, base: string, kw: string)
    ensures Dedup(AllCandidates(page, base, kw)) ==
              Dedup(Scan(ScriptScan, page, base, kw) + Scan(HeadingScan, page, base, kw) +
                    Scan(ParagraphScan, page, base, kw) + Scan(TableScan, page, base, kw))
  {
    var s := Scan(ScriptScan, page, base, kw);
    var h := Scan(HeadingScan, page, base, kw);
    var p := Scan(ParagraphScan, page, base, kw);
    var a := Scan(AnchorScan, page, base, kw);
    var t := Scan(TableScan, page, base, kw);
    AnchorKeysShadowed(page, base, kw);
    assert KeySet(a) <= KeySet(s + h + p) by {
      forall key | key in KeySet(a) ensures key in KeySet(s + h + p) {
        var c :| c in h && Key(c) == key;
        assert c in s + h + p;
      }
    }
    ShadowedBlockRemoved(s + h + p, a, t);
  }

  /** A call returns nothing exactly when every scan came up empty and neither the
      keyword nor any prefix of it of at least 2 characters occurs in the page text. */
  lemma EmptyResultIff(page: Page, base: string, kw: string)
    ensures SearchWebsite(page, base, kw) == [] <==>
              && AllCandidates(page, base, kw) == []
              && !ContainsCI(page.text, kw)
              && forall m :: MinPrefix <= m <= |kw| ==> !ContainsCI(page.text, kw[..m])
  {
  }

  /** Since every prefix of an occurring string occurs too, the prefix condition
      reduces to the two-character prefix: a call returns nothing exactly when every
      scan came up empty and not even the first two characters of the keyword occur
      (for a keyword of at most one character, the keyword itself). */
  lemma EmptyResultIffShortPrefix(page: Page, base: string, kw: string)
    ensures SearchWebsite(page, base, kw) == [] <==>
              && AllCandidates(page, base, kw) == []
              && !ContainsCI(page.text, kw[..Min(MinPrefix, |kw|)])
  {
    EmptyResultIff(page, base, kw);
    ShortPrefixDecides(page.text, kw);
  }

  /** A keyword that occurs anywhere in the page text, in any letter case, always
      yields at least one result. */
  lemma KeywordOnPageIsFound(page: Page, base: string, kw: string)
    requires ContainsCI(page.text, kw)
    ensures SearchWebsite(page, base, kw) != []
  {
  }

  /** Running the de-duplication once more over the results changes nothing. */
  lemma ResultsAlreadyDeduplicated(page: Page, base: string, kw: string)
    ensures Dedup(SearchWebsite(page, base, kw)) == SearchWebsite(page, base, kw)
  {
    DedupFromDistinct(SearchWebsite(page, base, kw), {});
  }
}
