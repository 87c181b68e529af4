/** The parsed page the crawler scans: the element tree flattened into a table
    listed in document order, with each element pointing at its parent by index,
    and the searches the crawler runs over it (`find`, `find_all`,
    `find_previous`, `find_next_sibling`). */
module Html {
  import opened Wrappers

  /** The element names the crawler distinguishes. `Heading` stands for h1-h6,
      `Cell` for td and th (always searched together), `Other` for every other element. */
  datatype Tag = Heading | Title | Anchor | Para | Div | Span | Table | Caption | Row | Cell | Script | Other

  /** One element. `text` is its `get_text(strip=True)`; `href` its href attribute,
      if any; `str` its `.string` (present only when it has exactly one text child);
      `parent` the index of its parent element, or `None` when its parent is the
      document itself. */
  datatype Node = Node(tag: Tag, text: string, href: Option<string>, str: Option<string>, parent: Option<nat>)

  /** The element table together with the whole page's `get_text()`. */
  datatype Document = Document(nodes: seq<Node>, text: string)

  /** A parent always precedes its children in document order. */
  predicate WellFormed(nodes: seq<Node>) {
    forall i :: 0 <= i < |nodes| && nodes[i].parent.Some? ==> nodes[i].parent.value < i
  }

  type Page = d: Document | WellFormed(d.nodes) witness Document([], "")

  const Headings: set<Tag> := {Heading}

  /** `el.get('href')` read as a truth value: the attribute, or "" when it is missing. */
  function Href(n: Node): (h: string)
    ensures n.href.Some? ==> h == n.href.value
    ensures n.href.None? ==> h == ""
  {
    n.href.GetOr("")
  }

  /** Element `j` lies strictly inside element `q`. */
  predicate IsDescendant(page: Page, j: nat, q: nat)
    requires j < |page.nodes|
    decreases j
  {
    match page.nodes[j].parent
    case None => false
    case Some(p) => p == q || IsDescendant(page, p, q)
  }

  /** Element `j` lies inside `scope`: a given element, or, for `None`, the whole document. */
  predicate Within(page: Page, j: nat, scope: Option<nat>)
    requires j < |page.nodes|
  {
    scope.None? || IsDescendant(page, j, scope.value)
  }

  /** Element `j` is one `scope.find_all(tags)` returns. */
  predicate Matches(page: Page, scope: Option<nat>, tags: set<Tag>, j: nat) {
    j < |page.nodes| && page.nodes[j].tag in tags && Within(page, j, scope)
  }

  /** `scope.find_all(tags)`, restricted to elements at or after `from`:
      exactly the matching elements, in document order. */
  function FindAllFrom(page: Page, scope: Option<nat>, tags: set<Tag>, from: nat): (r: seq<nat>)
    decreases |page.nodes| - from
    ensures forall x :: x in r <==> from <= x && Matches(page, scope, tags, x)
    ensures forall a, b :: 0 <= a < b < |r| ==> r[a] < r[b]
  {
    if from >= |page.nodes| then []
    else
      var rest := FindAllFrom(page, scope, tags, from + 1);
      assert forall b :: 0 <= b < |rest| ==> rest[b] in rest;
      (if Matches(page, scope, tags, from) then [from] else []) + rest
  }

  /** `scope.find_all(tags)`. */
  function FindAll(page: Page, scope: Option<nat>, tags: set<Tag>): (r: seq<nat>)
    ensures forall x :: x in r <==> Matches(page, scope, tags, x)
    ensures forall a, b :: 0 <= a < b < |r| ==> r[a] < r[b]
  {
    FindAllFrom(page, scope, tags, 0)
  }

  /** Element `j` is the first element, in document order, that `scope.find_all(tags)` returns. */
  predicate IsFirstMatch(page: Page, scope: Option<nat>, tags: set<Tag>, j: nat) {
    Matches(page, scope, tags, j) && forall k :: 0 <= k < j ==> !Matches(page, scope, tags, k)
  }

  /** `scope.find(tags)`: the first matching element in document order, if any. */
  function FindFirst(page: Page, scope: Option<nat>, tags: set<Tag>): (r: Option<nat>)
    ensures r.Some? ==> IsFirstMatch(page, scope, tags, r.value)
    ensures r.None? ==> forall k :: !Matches(page, scope, tags, k)
    ensures forall j: nat :: IsFirstMatch(page, scope, tags, j) ==> r == Some(j)
  {
    var all := FindAll(page, scope, tags);
    if all == [] then None
    else
      assert all[0] in all;
      assert forall a :: 0 <= a < |all| ==> all[0] <= all[a];
      assert forall j: nat :: IsFirstMatch(page, scope, tags, j) ==> j == all[0] by {
        forall j: nat | IsFirstMatch(page, scope, tags, j) ensures j == all[0] {
          assert j in all;
        }
      }
      Some(all[0])
  }

  /** `el.find_previous(tags)`: the closest element before `i` in document order
      whose tag is in `tags`. */
  function FindPrevious(page: Page, i: nat, tags: set<Tag>): (r: Option<nat>)
    requires i <= |page.nodes|
    ensures r.Some? ==> r.value < i && page.nodes[r.value].tag in tags
    ensures r.Some? ==> forall k :: r.value < k < i ==> page.nodes[k].tag !in tags
    ensures r.None? ==> forall k :: 0 <= k < i ==> page.nodes[k].tag !in tags
  {
    if i == 0 then None
    else if page.nodes[i - 1].tag in tags then Some(i - 1)
    else FindPrevious(page, i - 1, tags)
  }

  /** The first element at or after `j` that shares the parent of element `i`. */
  function SiblingFrom(page: Page, i: nat, j: nat): (r: Option<nat>)
    requires i < |page.nodes|
    decreases |page.nodes| - j
    ensures r.Some? ==> j <= r.value < |page.nodes| && page.nodes[r.value].parent == page.nodes[i].parent
    ensures r.Some? ==> forall k :: j <= k < r.value ==> page.nodes[k].parent != page.nodes[i].parent
    ensures r.None? ==> forall k :: j <= k < |page.nodes| ==> page.nodes[k].parent != page.nodes[i].parent
  {
    if j >= |page.nodes| then None
    else if page.nodes[j].parent == page.nodes[i].parent then Some(j)
    else SiblingFrom(page, i, j + 1)
  }

  /** `el.find_next_sibling()`: the next element after `i` with the same parent. */
  function NextSibling(page: Page, i: nat): (r: Option<nat>)
    requires i < |page.nodes|
    ensures r.Some? ==> i < r.value < |page.nodes| && page.nodes[r.value].parent == page.nodes[i].parent
    ensures r.Some? ==> forall k :: i < k < r.value ==> page.nodes[k].parent != page.nodes[i].parent
    ensures r.None? ==> forall k :: i < k < |page.nodes| ==> page.nodes[k].parent != page.nodes[i].parent
  {
    SiblingFrom(page, i, i + 1)
  }

  /** Text of an optional element, "" when there is none. */
  function TextOf(page: Page, j: Option<nat>): string {
    if j.Some? && j.value < |page.nodes| then page.nodes[j.value].text else ""
  }
}
