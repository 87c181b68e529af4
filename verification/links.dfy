/** How the crawler turns an `href` found on the page into the link it reports
    (simple_crawler.py, the three copies at lines 288-292, 345-349 and 374-378). */
module Links {
  import opened Strings

  /** The base URL with its trailing slashes removed, `website_url.rstrip('/')`:
      a prefix of it that does not end in '/', followed in it only by '/'. */
  function Stem(base: string): (r: string)
    ensures StartsWith(base, r)
    ensures r == "" || r[|r| - 1] != '/'
    ensures forall k :: |r| <= k < |base| ==> base[k] == '/'
  {
    RStrip(base, '/')
  }

  /** Resolve `link` against the page URL `base`. An empty link stays empty and a
      link starting with "http" is kept; any other link is appended to the WHOLE
      stripped base URL (not to its scheme and host), directly when it starts with
      "/" and after a "/" otherwise. */
  function Resolve(base: string, link: string): (r: string)
    ensures link == "" <==> r == ""
    ensures StartsWith(link, "http") ==> r == link
    ensures EndsWith(r, link)
    ensures link != "" && !StartsWith(link, "http") ==>
              StartsWith(r, Stem(base)) && |r| > |Stem(base)| && r[|Stem(base)|] == '/'
    ensures link != "" && !StartsWith(link, "http") ==>
              |r| == |Stem(base)| + |link| + (if link[0] == '/' then 0 else 1)
  {
    if link == "" || StartsWith(link, "http") then link
    else if StartsWith(link, "/") then Stem(base) + link
    else Stem(base) + "/" + link
  }

  /** A single leading slash makes no difference: "/x" and "x" resolve to the same
      URL, because root-relative links are not resolved against the host. */
  lemma LeadingSlashIrrelevant(base: string, x: string)
    requires x != "" && !StartsWith(x, "http") && !StartsWith(x, "/")
    ensures Resolve(base, "/" + x) == Resolve(base, x)
  {
    var y := "/" + x;
    assert y[..1] == "/";
    assert y[0] != 'h' && !StartsWith(y, "http");
    assert Resolve(base, y) == Stem(base) + y;
  }

  /** Trailing slashes on the base URL make no difference either. */
  lemma TrailingSlashIrrelevant(base: string, link: string)
    ensures Resolve(base + "/", link) == Resolve(base, link)
  {
  }

  /** A concrete case: against "https://example.com/news", both "/foo" and "foo"
      resolve to "https://example.com/news/foo", not to "https://example.com/foo". */
  lemma ResolveExample()
    ensures Resolve("https://example.com/news", "/foo") == "https://example.com/news/foo"
    ensures Resolve("https://example.com/news", "foo") == "https://example.com/news/foo"
  {
    var base := "https://example.com/news";
    assert Stem(base) == base by {
      assert base[|base| - 1] == 's';
    }
    assert !StartsWith("/foo", "http") && StartsWith("/foo", "/") by {
      assert "/foo"[0] == '/';
    }
    assert !StartsWith("foo", "http") && !StartsWith("foo", "/") by {
      assert "foo"[0] == 'f';
    }
  }

}
