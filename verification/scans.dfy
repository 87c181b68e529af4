/** The five keyword scans of `SimpleCrawler.search_website`
    (simple_crawler.py:247-432). Each scan walks the element table in document
    order and turns every qualifying element into at most one result. */
module Scans {
  import opened Wrappers
  import opened Strings
  import opened Links
  import opened Html
  import opened Candidates

  const ScriptTitle: string := "JavaScript中的关键词内容"
  const ParagraphLabel: string := "包含关键词的段落"
  const TableLabel: string := "包含关键词的表格"

  const HeadingTags: set<Tag> := {Heading, Title, Anchor}
  const ParagraphTags: set<Tag> := {Para, Div, Span}

  /** Paragraph abstracts keep this many characters before the ellipsis. */
  const MaxAbstract: nat := 200
  const Ellipsis: string := "..."
  /** The cell and row separator of the table abstract. */
  const Bar: string := " | "
  /** Only this many leading rows of a table go into its abstract. */
  const MaxRows: nat := 3

  /** The five scans, in the order their results are concatenated. */
  datatype Strategy = ScriptScan | HeadingScan | ParagraphScan | AnchorScan | TableScan

  // ---------------------------------------------------------------- script scan

  /** Lines 248-268: a script whose single text child contains the keyword yields
      one result for its FIRST occurrence, with the context around it. */
  function ScriptCandidate(page: Page, base: string, kw: string, i: nat): (r: Option<Candidate>)
    requires i < |page.nodes|
    ensures r.Some? <==>
              && page.nodes[i].tag == Script
              && page.nodes[i].str.Some? && page.nodes[i].str.value != ""
              && ContainsCI(page.nodes[i].str.value, kw)
    ensures r.Some? ==> r.value.title == ScriptTitle && r.value.link == base
    ensures r.Some? ==> |r.value.summary| <= 2 * Radius
    ensures r.Some? ==> exists k: nat :: OccursAt(page.nodes[i].str.value, r.value.summary, k)
    ensures r.Some? && |kw| <= Radius ==> ContainsCI(r.value.summary, kw)
    ensures r.Some? ==> forall k: nat :: FirstMatchCI(page.nodes[i].str.value, kw, k) ==>
              r.value.summary == ContextWindow(page.nodes[i].str.value, k)
  {
    var n := page.nodes[i];
    if n.tag == Script && n.str.Some? && n.str.value != "" && ContainsCI(n.str.value, kw) then
      Some(Candidate(ScriptTitle, base, KeywordContext(n.str.value, kw)))
    else None
  }

  // ------------------------------------------------------------ shared lookups

  /** The href of an optional element, "" when there is no element or no href. */
  function HrefAt(page: Page, j: Option<nat>): string {
    if j.Some? && j.value < |page.nodes| then Href(page.nodes[j.value]) else ""
  }

  /** Lines 279-285: an anchor's own non-empty href, else the href of the first
      anchor inside the element, else "". */
  function HeadingHref(page: Page, i: nat): (h: string)
    requires i < |page.nodes|
    ensures page.nodes[i].tag == Anchor && Href(page.nodes[i]) != "" ==> h == Href(page.nodes[i])
    ensures !(page.nodes[i].tag == Anchor && Href(page.nodes[i]) != "") ==>
              forall j: nat :: IsFirstMatch(page, Some(i), {Anchor}, j) ==> h == Href(page.nodes[j])
    ensures (!(page.nodes[i].tag == Anchor && Href(page.nodes[i]) != "") &&
             (forall j: nat :: !Matches(page, Some(i), {Anchor}, j))) ==> h == ""
  {
    var n := page.nodes[i];
    if n.tag == Anchor && Href(n) != "" then Href(n)
    else HrefAt(page, FindFirst(page, Some(i), {Anchor}))
  }

  /** The element right after `i` among its siblings exists and is a `p`. */
  predicate NextIsPara(page: Page, i: nat)
    requires i < |page.nodes|
  {
    var next := NextSibling(page, i);
    next.Some? && page.nodes[next.value].tag == Para
  }

  /** Lines 295-304 and 381-389: the text of the next sibling when it is a `p`,
      otherwise the text of the first `p` inside the parent (or "" if none). */
  function NearbyParagraph(page: Page, i: nat): (a: string)
    requires i < |page.nodes|
    ensures forall j :: NextSibling(page, i) == Some(j) && page.nodes[j].tag == Para ==> a == page.nodes[j].text
    ensures !NextIsPara(page, i) ==>
              forall j: nat :: IsFirstMatch(page, page.nodes[i].parent, {Para}, j) ==> a == page.nodes[j].text
    ensures !NextIsPara(page, i) && (forall j: nat :: !Matches(page, page.nodes[i].parent, {Para}, j)) ==> a == ""
  {
    var next := NextSibling(page, i);
    if next.Some? && page.nodes[next.value].tag == Para then page.nodes[next.value].text
    else TextOf(page, FindFirst(page, page.nodes[i].parent, {Para}))
  }

  // --------------------------------------------------------------- heading scan

  /** Lines 274-314: an h1-h6, title or anchor element whose text contains the
      keyword and is longer than 2 characters; its text becomes the title. */
  function HeadingCandidate(page: Page, base: string, kw: string, i: nat): (r: Option<Candidate>)
    requires i < |page.nodes|
    ensures r.Some? <==>
              page.nodes[i].tag in HeadingTags && ContainsCI(page.nodes[i].text, kw) && |page.nodes[i].text| > 2
    ensures r.Some? ==> r.value.title == page.nodes[i].text
    ensures r.Some? ==> r.value.link == Resolve(base, HeadingHref(page, i))
    ensures r.Some? ==> (r.value.link == "" <==> HeadingHref(page, i) == "")
    ensures r.Some? ==> r.value.summary == NearbyParagraph(page, i)
  {
    var n := page.nodes[i];
    if n.tag in HeadingTags && ContainsCI(n.text, kw) && |n.text| > 2 then
      Some(Candidate(n.text, Resolve(base, HeadingHref(page, i)), NearbyParagraph(page, i)))
    else None
  }

  // ------------------------------------------------------------- paragraph scan

  /** Line 354: `text[:200] + '...'` when the text is longer than 200 characters. */
  function Abbreviate(text: string): (a: string)
    ensures |text| <= MaxAbstract ==> a == text
    ensures |text| > MaxAbstract ==> |a| == MaxAbstract + |Ellipsis| && EndsWith(a, Ellipsis)
    ensures |a| <= MaxAbstract + |Ellipsis|
    ensures Min(|text|, MaxAbstract) <= |a| && a[..Min(|text|, MaxAbstract)] == text[..Min(|text|, MaxAbstract)]
  {
    if |text| > MaxAbstract then text[..MaxAbstract] + Ellipsis else text
  }

  /** Lines 329-338 and 352: the text of the closest preceding heading; when no
      heading precedes, the text of the first heading inside the parent; and the
      fixed label when that gives nothing or an empty text. */
  function ParagraphTitle(page: Page, i: nat): (t: string)
    requires i < |page.nodes|
    ensures t != ""
    ensures forall j :: 0 <= j < i && page.nodes[j].tag == Heading &&
                        (forall k :: j < k < i ==> page.nodes[k].tag != Heading) ==>
                        t == (if page.nodes[j].text == "" then ParagraphLabel else page.nodes[j].text)
    ensures (forall k :: 0 <= k < i ==> page.nodes[k].tag != Heading) ==>
              forall j: nat :: IsFirstMatch(page, page.nodes[i].parent, Headings, j) ==>
                t == (if page.nodes[j].text == "" then ParagraphLabel else page.nodes[j].text)
    ensures (forall k :: 0 <= k < i ==> page.nodes[k].tag != Heading) &&
            (forall k :: !Matches(page, page.nodes[i].parent, Headings, k)) ==>
            t == ParagraphLabel
  {
    var prev := FindPrevious(page, i, Headings);
    var found := if prev.Some? then page.nodes[prev.value].text
                 else TextOf(page, FindFirst(page, page.nodes[i].parent, Headings));
    assert forall j :: 0 <= j < i && page.nodes[j].tag == Heading &&
                       (forall k :: j < k < i ==> page.nodes[k].tag != Heading) ==>
                       prev == Some(j) by {
      forall j | 0 <= j < i && page.nodes[j].tag == Heading &&
                 (forall k :: j < k < i ==> page.nodes[k].tag != Heading)
        ensures prev == Some(j)
      {
        assert prev.Some?;
      }
    }
    if found == "" then ParagraphLabel else found
  }

  /** Lines 341-349: the resolved href of the first anchor inside the element,
      or "" when the element holds no anchor. */
  function ParagraphLink(page: Page, base: string, i: nat): (l: string)
    ensures l == "" <==> HrefAt(page, FindFirst(page, Some(i), {Anchor})) == ""
    ensures forall j: nat :: IsFirstMatch(page, Some(i), {Anchor}, j) ==> l == Resolve(base, Href(page.nodes[j]))
    ensures (forall j: nat :: !Matches(page, Some(i), {Anchor}, j)) ==> l == ""
  {
    Resolve(base, HrefAt(page, FindFirst(page, Some(i), {Anchor})))
  }

  /** Lines 320-359: a p, div or span element whose text contains the keyword and
      has between 16 and 499 characters. Its title is never empty, and its
      abstract is the text cut to 200 characters plus an ellipsis. */
  function ParagraphCandidate(page: Page, base: string, kw: string, i: nat): (r: Option<Candidate>)
    requires i < |page.nodes|
    ensures r.Some? <==>
              && page.nodes[i].tag in ParagraphTags
              && ContainsCI(page.nodes[i].text, kw)
              && 15 < |page.nodes[i].text| < 500
    ensures r.Some? ==> r.value.title != ""
    ensures r.Some? ==> r.value.title == ParagraphTitle(page, i)
    ensures r.Some? ==> r.value.link == ParagraphLink(page, base, i)
    ensures r.Some? ==> |r.value.summary| <= MaxAbstract + |Ellipsis|
    ensures r.Some? && |page.nodes[i].text| <= MaxAbstract ==> r.value.summary == page.nodes[i].text
    ensures r.Some? && |page.nodes[i].text| > MaxAbstract ==>
              r.value.summary == page.nodes[i].text[..MaxAbstract] + Ellipsis
  {
    var n := page.nodes[i];
    if n.tag in ParagraphTags && ContainsCI(n.text, kw) && 15 < |n.text| < 500 then
      Some(Candidate(ParagraphTitle(page, i), ParagraphLink(page, base, i), Abbreviate(n.text)))
    else None
  }

  // ---------------------------------------------------------------- anchor scan

  /** Lines 365-399: an anchor whose text contains the keyword and has between 3
      and 99 characters. Title and abstract are computed as the heading scan
      computes them for the same anchor (lines 297-304 against 382-389), so the
      heading scan always yields a result with the same de-duplication key, and
      the very same result when the anchor has an href. */
  function AnchorCandidate(page: Page, base: string, kw: string, i: nat): (r: Option<Candidate>)
    requires i < |page.nodes|
    ensures r.Some? <==>
              page.nodes[i].tag == Anchor && ContainsCI(page.nodes[i].text, kw) && 2 < |page.nodes[i].text| < 100
    ensures r.Some? ==> r.value.title == page.nodes[i].text
    ensures r.Some? ==> r.value.link == Resolve(base, Href(page.nodes[i]))
    ensures r.Some? ==> (r.value.link == "" <==> Href(page.nodes[i]) == "")
    ensures r.Some? ==> HeadingCandidate(page, base, kw, i).Some?
    ensures r.Some? ==> Key(r.value) == Key(HeadingCandidate(page, base, kw, i).value)
    ensures r.Some? && Href(page.nodes[i]) != "" ==> r == HeadingCandidate(page, base, kw, i)
  {
    var n := page.nodes[i];
    if n.tag == Anchor && ContainsCI(n.text, kw) && 2 < |n.text| < 100 then
      Some(Candidate(n.text, Resolve(base, Href(n)), NearbyParagraph(page, i)))
    else None
  }

  // ----------------------------------------------------------------- table scan

  /** The list comprehension at line 418: the text of each cell of the row, in
      document order. */
  function CellTexts(page: Page, row: nat): (ts: seq<string>)
    ensures var cells := FindAll(page, Some(row), {Cell});
            |ts| == |cells| && forall k :: 0 <= k < |ts| ==> ts[k] == TextOf(page, Some(cells[k]))
  {
    var cells := FindAll(page, Some(row), {Cell});
    seq(|cells|, k requires 0 <= k < |cells| => TextOf(page, Some(cells[k])))
  }

  /** Line 418: the cell texts joined by " | ". A single cell gives its own text,
      and at every cell boundary the row text is the cells before it, " | ", and
      the cells after it. A row contributes nothing only when it has no cells or
      a single empty one; two empty cells already give " | ". */
  function RowText(page: Page, row: nat): (r: string)
    ensures var ts := CellTexts(page, row);
            r == "" <==> |ts| == 0 || (|ts| == 1 && ts[0] == "")
    ensures var ts := CellTexts(page, row);
            |ts| > 0 ==> StartsWith(r, ts[0])
    ensures var ts := CellTexts(page, row);
            |ts| == 1 ==> r == ts[0]
    ensures var ts := CellTexts(page, row);
            forall k :: 0 < k < |ts| ==> r == Join(Bar, ts[..k]) + Bar + Join(Bar, ts[k..])
  {
    var ts := CellTexts(page, row);
    JoinEmptyIff(Bar, ts);
    assert |ts| > 0 ==> StartsWith(Join(Bar, ts), ts[0]) by {
      if |ts| > 0 { JoinEnds(Bar, ts); }
    }
    assert forall k :: 0 < k < |ts| ==> Join(Bar, ts) == Join(Bar, ts[..k]) + Bar + Join(Bar, ts[k..]) by {
      forall k | 0 < k < |ts| ensures Join(Bar, ts) == Join(Bar, ts[..k]) + Bar + Join(Bar, ts[k..]) {
        JoinSplit(Bar, ts, k);
      }
    }
    Join(Bar, ts)
  }

  /** Each string of `ss` as kept (`Some`) when it is non-empty, dropped otherwise. */
  function KeepNonEmpty(ss: seq<string>): (os: seq<Option<string>>)
    ensures |os| == |ss|
    ensures forall x :: 0 <= x < |ss| ==> os[x] == (if ss[x] != "" then Some(ss[x]) else None)
  {
    seq(|ss|, x requires 0 <= x < |ss| => if ss[x] != "" then Some(ss[x]) else None)
  }

  /** The positions of the non-empty strings of `ss`, in increasing order. */
  function NonEmptyPositions(ss: seq<string>): (q: seq<nat>)
    ensures |q| <= |ss|
    ensures forall k :: 0 <= k < |q| ==> q[k] < |ss|
    ensures forall x: nat :: x in q <==> x < |ss| && ss[x] != ""
    ensures forall a, b :: 0 <= a < b < |q| ==> q[a] < q[b]
  {
    SomePositions(KeepNonEmpty(ss))
  }

  /** The loop at lines 416-420 keeps the non-empty strings of `ss`, in order and
      with repetitions: the strings at the non-empty positions, one each. */
  function NonEmpty(ss: seq<string>): (r: seq<string>)
    ensures |r| == |NonEmptyPositions(ss)|
    ensures forall k :: 0 <= k < |r| ==> r[k] == ss[NonEmptyPositions(ss)[k]]
    ensures forall k :: 0 <= k < |r| ==> r[k] != ""
  {
    var r := Somes(KeepNonEmpty(ss));
    assert forall k :: 0 <= k < |r| ==> NonEmptyPositions(ss)[k] in NonEmptyPositions(ss);
    r
  }

  /** The row texts of the first three rows of table `t` (lines 414-418). */
  function FirstRowTexts(page: Page, t: nat): (ts: seq<string>)
    ensures var rows := FindAll(page, Some(t), {Row});
            |ts| == Min(MaxRows, |rows|) && forall k :: 0 <= k < |ts| ==> ts[k] == RowText(page, rows[k])
  {
    var rows := FindAll(page, Some(t), {Row});
    seq(Min(MaxRows, |rows|), k requires 0 <= k < Min(MaxRows, |rows|) => RowText(page, rows[k]))
  }

  /** Nothing is kept exactly when every string is empty. */
  lemma NoPositionsIff(ss: seq<string>)
    ensures NonEmptyPositions(ss) == [] <==> forall k :: 0 <= k < |ss| ==> ss[k] == ""
  {
    var q := NonEmptyPositions(ss);
    if q != [] {
      assert q[0] in q;
    }
    assert forall k: nat :: k < |ss| && ss[k] != "" ==> k in q;
  }

  /** Lines 414-420: among the first three rows, the non-empty row texts, in
      document order. */
  function SummaryRows(page: Page, t: nat): (rs: seq<string>)
    ensures |rs| <= MaxRows
    ensures forall s :: s in rs ==> s != ""
    ensures var ts := FirstRowTexts(page, t);
            |rs| == |NonEmptyPositions(ts)| && forall k :: 0 <= k < |rs| ==> rs[k] == ts[NonEmptyPositions(ts)[k]]
  {
    var rs := NonEmpty(FirstRowTexts(page, t));
    assert forall s :: s in rs ==> s != "" by {
      forall s | s in rs ensures s != "" {
        var k :| 0 <= k < |rs| && rs[k] == s;
      }
    }
    rs
  }

  /** Line 422: the kept row texts joined by " | ": empty exactly when no row text
      was kept, a single kept row text itself, and at every boundary between kept
      rows the rows before it, " | ", and the rows after it. */
  function TableSummary(page: Page, t: nat): (a: string)
    ensures a == "" <==> SummaryRows(page, t) == []
    ensures SummaryRows(page, t) != [] ==> StartsWith(a, SummaryRows(page, t)[0])
    ensures |SummaryRows(page, t)| == 1 ==> a == SummaryRows(page, t)[0]
    ensures var rs := SummaryRows(page, t);
            forall k :: 0 < k < |rs| ==> a == Join(Bar, rs[..k]) + Bar + Join(Bar, rs[k..])
  {
    var rs := SummaryRows(page, t);
    JoinEmptyIff(Bar, rs);
    assert |rs| > 0 ==> StartsWith(Join(Bar, rs), rs[0]) by {
      if |rs| > 0 { JoinEnds(Bar, rs); }
    }
    assert forall k :: 0 < k < |rs| ==> Join(Bar, rs) == Join(Bar, rs[..k]) + Bar + Join(Bar, rs[k..]) by {
      forall k | 0 < k < |rs| ensures Join(Bar, rs) == Join(Bar, rs[..k]) + Bar + Join(Bar, rs[k..]) {
        JoinSplit(Bar, rs, k);
      }
    }
    Join(Bar, rs)
  }

  /** A table's abstract is empty exactly when none of its first three rows has a
      non-empty row text; later rows never matter. */
  lemma TableSummaryEmptyIff(page: Page, t: nat)
    ensures TableSummary(page, t) == "" <==>
              var rows := FindAll(page, Some(t), {Row});
              forall k :: 0 <= k < Min(MaxRows, |rows|) ==> RowText(page, rows[k]) == ""
  {
    var ts := FirstRowTexts(page, t);
    NoPositionsIff(ts);
    assert |SummaryRows(page, t)| == |NonEmptyPositions(ts)|;
  }

  /** Lines 405-432: a table whose text contains the keyword; the title is the
      text of its first caption (even an empty one) or the fixed label, the link is empty. */
  function TableCandidate(page: Page, kw: string, i: nat): (r: Option<Candidate>)
    requires i < |page.nodes|
    ensures r.Some? <==> page.nodes[i].tag == Table && ContainsCI(page.nodes[i].text, kw)
    ensures r.Some? ==> r.value.link == ""
    ensures r.Some? && (forall j: nat :: !Matches(page, Some(i), {Caption}, j)) ==> r.value.title == TableLabel
    ensures r.Some? ==> forall j: nat :: IsFirstMatch(page, Some(i), {Caption}, j) ==> r.value.title == page.nodes[j].text
    ensures r.Some? ==>
              (r.value.title == TableLabel ||
               exists j: nat :: Matches(page, Some(i), {Caption}, j) && r.value.title == page.nodes[j].text)
    ensures r.Some? ==> r.value.summary == TableSummary(page, i)
  {
    var n := page.nodes[i];
    if n.tag == Table && ContainsCI(n.text, kw) then
      var caption := FindFirst(page, Some(i), {Caption});
      var title := if caption.Some? then TextOf(page, caption) else TableLabel;
      Some(Candidate(title, "", TableSummary(page, i)))
    else None
  }

  // ------------------------------------------------------------------ the scans

  /** What scan `s` makes of each element, in document order: the body of its
      `for elem in soup.find_all(...)` loop applied to every element. */
  function Outcomes(s: Strategy, page: Page, base: string, kw: string): (os: seq<Option<Candidate>>)
    ensures |os| == |page.nodes|
    ensures s == ScriptScan ==> forall i :: 0 <= i < |os| ==> os[i] == ScriptCandidate(page, base, kw, i)
    ensures s == HeadingScan ==> forall i :: 0 <= i < |os| ==> os[i] == HeadingCandidate(page, base, kw, i)
    ensures s == ParagraphScan ==> forall i :: 0 <= i < |os| ==> os[i] == ParagraphCandidate(page, base, kw, i)
    ensures s == AnchorScan ==> forall i :: 0 <= i < |os| ==> os[i] == AnchorCandidate(page, base, kw, i)
    ensures s == TableScan ==> forall i :: 0 <= i < |os| ==> os[i] == TableCandidate(page, kw, i)
  {
    var n := |page.nodes|;
    match s
    case ScriptScan => seq(n, i requires 0 <= i < n => ScriptCandidate(page, base, kw, i))
    case HeadingScan => seq(n, i requires 0 <= i < n => HeadingCandidate(page, base, kw, i))
    case ParagraphScan => seq(n, i requires 0 <= i < n => ParagraphCandidate(page, base, kw, i))
    case AnchorScan => seq(n, i requires 0 <= i < n => AnchorCandidate(page, base, kw, i))
    case TableScan => seq(n, i requires 0 <= i < n => TableCandidate(page, kw, i))
  }

  /** The elements that scan `s` turns into a result, in document order. */
  function Hits(s: Strategy, page: Page, base: string, kw: string): (q: seq<nat>)
    ensures forall k :: 0 <= k < |q| ==> q[k] < |page.nodes|
    ensures forall x: nat :: x in q <==> x < |page.nodes| && Outcomes(s, page, base, kw)[x].Some?
    ensures forall a, b :: 0 <= a < b < |q| ==> q[a] < q[b]
  {
    SomePositions(Outcomes(s, page, base, kw))
  }

  /** One full scan: exactly one result per qualifying element, in document order. */
  function Scan(s: Strategy, page: Page, base: string, kw: string): (r: seq<Candidate>)
    ensures |r| == |Hits(s, page, base, kw)|
    ensures forall k :: 0 <= k < |r| ==> Outcomes(s, page, base, kw)[Hits(s, page, base, kw)[k]] == Some(r[k])
  {
    Somes(Outcomes(s, page, base, kw))
  }

  /** The element a scan result comes from. */
  lemma ScanSource(s: Strategy, page: Page, base: string, kw: string, c: Candidate) returns (i: nat)
    requires c in Scan(s, page, base, kw)
    ensures i < |page.nodes| && Outcomes(s, page, base, kw)[i] == Some(c)
  {
    var r, q := Scan(s, page, base, kw), Hits(s, page, base, kw);
    var k :| 0 <= k < |r| && r[k] == c;
    i := q[k];
  }

  /** Every result an element yields is in the scan. */
  lemma ScanHas(s: Strategy, page: Page, base: string, kw: string, i: nat)
    requires i < |page.nodes| && Outcomes(s, page, base, kw)[i].Some?
    ensures Outcomes(s, page, base, kw)[i].value in Scan(s, page, base, kw)
  {
    var r, q := Scan(s, page, base, kw), Hits(s, page, base, kw);
    assert i in q;
    var k :| 0 <= k < |q| && q[k] == i;
    assert r[k] in r;
  }

  /** A result belongs to a scan exactly when some element yields it. */
  lemma ScanMembers(s: Strategy, page: Page, base: string, kw: string, c: Candidate)
    ensures c in Scan(s, page, base, kw) <==> Some(c) in Outcomes(s, page, base, kw)
  {
    SomesMembers(Outcomes(s, page, base, kw), c);
  }


  /** Every anchor-scan key is already a heading-scan key. */
  lemma AnchorKeysShadowed(page: Page, base: string, kw: string)
    ensures KeySet(Scan(AnchorScan, page, base, kw)) <= KeySet(Scan(HeadingScan, page, base, kw))
  {
    var a, h := Scan(AnchorScan, page, base, kw), Scan(HeadingScan, page, base, kw);
    forall key | key in KeySet(a) ensures key in KeySet(h) {
      var c :| c in a && Key(c) == key;
      var d := AnchorShadow(page, base, kw, c);
      assert Key(d) in KeySet(h);
    }
  }

  /** The heading-scan result that shares the key of anchor-scan result `c`. */
  lemma AnchorShadow(page: Page, base: string, kw: string, c: Candidate) returns (d: Candidate)
    requires c in Scan(AnchorScan, page, base, kw)
    ensures d in Scan(HeadingScan, page, base, kw) && Key(d) == Key(c)
  {
    var i := ScanSource(AnchorScan, page, base, kw, c);
    ScanHas(HeadingScan, page, base, kw, i);
    d := Outcomes(HeadingScan, page, base, kw)[i].value;
  }

  /** Every paragraph-scan result has a non-empty title and an abstract of at most
      203 characters. */
  lemma ParagraphScanBounds(page: Page, base: string, kw: string)
    ensures forall c :: c in Scan(ParagraphScan, page, base, kw) ==>
              c.title != "" && |c.summary| <= MaxAbstract + |Ellipsis|
  {
    var os := Outcomes(ParagraphScan, page, base, kw);
    forall i | 0 <= i < |os| && os[i].Some?
      ensures os[i].value.title != "" && |os[i].value.summary| <= MaxAbstract + |Ellipsis|
    {
    }
    SomesHold(os, (c: Candidate) => c.title != "" && |c.summary| <= MaxAbstract + |Ellipsis|);
  }

  /** Script-scan results link to the page URL and carry a context of at most
      200 characters. */
  lemma ScriptScanLinks(page: Page, base: string, kw: string)
    ensures forall c :: c in Scan(ScriptScan, page, base, kw) ==> c.link == base && |c.summary| <= 2 * Radius
  {
    var os := Outcomes(ScriptScan, page, base, kw);
    forall i | 0 <= i < |os| && os[i].Some?
      ensures os[i].value.link == base && |os[i].value.summary| <= 2 * Radius
    {
    }
    SomesHold(os, (c: Candidate) => c.link == base && |c.summary| <= 2 * Radius);
  }

  /** Table-scan results have an empty link. */
  lemma TableScanLinks(page: Page, base: string, kw: string)
    ensures forall c :: c in Scan(TableScan, page, base, kw) ==> c.link == ""
  {
    var os := Outcomes(TableScan, page, base, kw);
    forall i | 0 <= i < |os| && os[i].Some?
      ensures os[i].value.link == ""
    {
    }
    SomesHold(os, (c: Candidate) => c.link == "");
  }
}
