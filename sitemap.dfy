/**
 * The sitemap builder (Sitemap/sitemap/sitemap.go): root validation, link
 * resolution and filtering, URL canonicalisation, the same-host test, the
 * depth-bounded breadth-first crawl and the `URLSet` record of the
 * sitemaps.org 0.9 protocol.
 *
 * The network and `net/url` are a `World`: `parse` is `url.Parse` (None for
 * its error) and `get` is `http.Get` followed by the HTML parser (None for a
 * request error). The package variable `baseURL` is the explicit `root`.
 */
module Sitemap {
  import opened Wrappers
  import opened Text
  import opened Seqs
  import HtmlLink

  /** The XML namespace of the sitemaps.org protocol, version 0.9. */
  const Xmlns := "http://www.sitemaps.org/schemas/sitemap/0.9"

  /** The parts of a `url.URL` that the crawler reads or writes. */
  datatype Url = Url(scheme: string, host: string, path: string, rawQuery: string, fragment: string)
  {
    /** `url.URL.String` for a URL without user info or opaque part; escaping is not modelled. */
    function ToString(): string {
      (if scheme != "" then scheme + ":" else "")
      + (if (scheme != "" || host != "") && (host != "" || path != "") then "//" + host else "")
      + (if path != "" && path[0] != '/' && host != "" then "/" else "")
      + path
      + (if rawQuery != "" then "?" + rawQuery else "")
      + (if fragment != "" then "#" + fragment else "")
    }
  }

  datatype World = World(parse: string -> Option<Url>, get: string -> Option<HtmlLink.Node>)

  // ---------------------------------------------------------------------------
  // ParseAndValidateURL

  /** The domain with `https://` put in front unless it already names http or https. */
  function WithScheme(domainName: string): (r: string)
    ensures HasPrefix(r, "http://") || HasPrefix(r, "https://")
    ensures HasPrefix(domainName, "http://") || HasPrefix(domainName, "https://") ==> r == domainName
    ensures !HasPrefix(domainName, "http://") && !HasPrefix(domainName, "https://") ==> r == "https://" + domainName
  {
    if !HasPrefix(domainName, "http://") && !HasPrefix(domainName, "https://") then
      "https://" + domainName
    else
      domainName
  }

  /** A host is acceptable when it is non-empty and names a domain below some top-level domain. */
  predicate AcceptableRoot(u: Url) {
    u.scheme != "" && u.host != "" && Contains(u.host, ".")
  }

  lemma ToLowerKeepsDot(h: string)
    requires Contains(h, ".")
    ensures Contains(ToLower(h), ".")
  {
    var i :| OccursAt(h, ".", i);
    assert h[i..i + 1] == [h[i]];
    assert ToLower(h)[i..i + 1] == [ToLower(h)[i]];
    assert OccursAt(ToLower(h), ".", i);
  }

  /**
   * `ParseAndValidateURL`: succeeds exactly when the (scheme-completed)
   * domain parses to a URL with a scheme and a dotted host, and then returns
   * that URL with scheme and host lower-cased; otherwise the error names the
   * completed domain.
   */
  function ParseAndValidateURL(parse: string -> Option<Url>, domainName: string): (r: Result<Url, string>)
    ensures var d := WithScheme(domainName);
      r.Success? <==> parse(d).Some? && AcceptableRoot(parse(d).value)
    ensures r.Failure? ==> r.error == "invalid domain: " + WithScheme(domainName)
    ensures r.Success? ==> var u := parse(WithScheme(domainName)).value;
      r.value.scheme == ToLower(u.scheme) && r.value.host == ToLower(u.host)
      && r.value.path == u.path && r.value.rawQuery == u.rawQuery && r.value.fragment == u.fragment
    ensures r.Success? ==> AcceptableRoot(r.value) && IsLower(r.value.scheme) && IsLower(r.value.host)
  {
    var d := WithScheme(domainName);
    var p := parse(d);
    if p.None? || !AcceptableRoot(p.value) then
      Failure("invalid domain: " + d)
    else
      var u := p.value;
      ToLowerKeepsDot(u.host);
      ToLowerIsLower(u.scheme);
      ToLowerIsLower(u.host);
      Success(u.(scheme := ToLower(u.scheme), host := ToLower(u.host)))
  }

  /** A URL with only a scheme and a host prints as `scheme://host`. */
  lemma HostOnlyUrlString(scheme: string, host: string)
    requires scheme != "" && host != ""
    ensures Url(scheme, host, "", "", "").ToString() == scheme + "://" + host
  {
    assert scheme + ":" + ("//" + host) == scheme + "://" + host;
  }

  lemma ExampleComScheme()
    ensures WithScheme("example.com") == "https://example.com"
  {
    NotPrefixAt("example.com", "http://", 0);
    NotPrefixAt("example.com", "https://", 0);
    assert "https://" + "example.com" == "https://example.com";
  }

  lemma ExampleComAcceptable()
    ensures AcceptableRoot(Url("https", "example.com", "", "", ""))
  {
    assert "example.com"[7..8] == ".";
    assert OccursAt("example.com", ".", 7);
  }

  /** A domain without a scheme is taken as an https one ("example.com" in the package's tests). */
  lemma DefaultsToHttps(parse: string -> Option<Url>)
    requires parse("https://example.com") == Some(Url("https", "example.com", "", "", ""))
    ensures ParseAndValidateURL(parse, "example.com") == Success(Url("https", "example.com", "", "", ""))
    ensures ParseAndValidateURL(parse, "example.com").value.ToString() == "https://example.com"
  {
    ExampleComScheme();
    assert IsLower("https") && IsLower("example.com");
    ToLowerIsLower("https");
    ToLowerIsLower("example.com");
    ExampleComAcceptable();
    HostOnlyUrlString("https", "example.com");
    assert "https" + "://" + "example.com" == "https://example.com";
  }

  /** The empty input becomes "https://", which has no host and is refused. */
  lemma EmptyDomainRejected(parse: string -> Option<Url>)
    requires parse("https://") == Some(Url("https", "", "", "", ""))
    ensures ParseAndValidateURL(parse, "") == Failure("invalid domain: https://")
  {
    assert WithScheme("") == "https://";
    assert "invalid domain: " + "https://" == "invalid domain: https://";
  }

  // ---------------------------------------------------------------------------
  // normalizeURL and isValidLink

  /** The URL with fragment and query cleared and one trailing `/` removed from the path. */
  function CanonicalUrl(u: Url): (r: Url)
    ensures r.fragment == "" && r.rawQuery == ""
    ensures r.scheme == u.scheme && r.host == u.host
    ensures HasSuffix(u.path, "/") ==> r.path + "/" == u.path
    ensures !HasSuffix(u.path, "/") ==> r.path == u.path
  {
    u.(fragment := "", rawQuery := "", path := TrimSuffix(u.path, "/"))
  }

  /** `normalizeURL`: None (Go's nil) when the href does not parse. */
  function NormalizeURL(parse: string -> Option<Url>, href: string): (r: Option<Url>)
    ensures r.Some? <==> parse(href).Some?
    ensures r.Some? ==> r.value == CanonicalUrl(parse(href).value)
  {
    match parse(href)
    case None => None
    case Some(u) => Some(CanonicalUrl(u))
  }

  /**
   * Canonicalising twice is canonicalising once exactly when the path does
   * not end in `//`: each pass removes one trailing slash.
   */
  lemma CanonicalIdempotentIff(u: Url)
    ensures CanonicalUrl(CanonicalUrl(u)) == CanonicalUrl(u) <==> !HasSuffix(u.path, "//")
  {
    TrimSlashTwice(u.path);
  }

  /** Removing a trailing `/` twice removes no more than once exactly when the path does not end in `//`. */
  lemma TrimSlashTwice(p: string)
    ensures TrimSuffix(TrimSuffix(p, "/"), "/") == TrimSuffix(p, "/") <==> !HasSuffix(p, "//")
  {
    var c := TrimSuffix(p, "/");
    if HasSuffix(p, "//") {
      assert p[|p| - 2..] == "//";
      assert c == p[..|p| - 1];
      assert c[|c| - 1..] == [p[|p| - 2]];
      assert HasSuffix(c, "/");
      assert |TrimSuffix(c, "/")| == |c| - 1;
    } else if HasSuffix(p, "/") {
      assert c == p[..|p| - 1];
      assert !HasSuffix(c, "/") by {
        if |c| >= 1 {
          assert p[|p| - 2..] == [c[|c| - 1], '/'];
        }
      }
    }
  }

  /**
   * `isValidLink` on a non-nil URL: not a WordPress comment page, not a
   * mailto link, on exactly the root's host (no case folding), and without
   * a fragment.
   */
  predicate IsValidLink(root: Url, u: Url) {
    if Contains(u.path, "comment-page-") then false
    else u.scheme != "mailto" && u.host == root.host && u.fragment == ""
  }

  /** Hosts are compared as written: a host differing from the root's only in case is another site. */
  lemma HostComparisonIsCaseSensitive()
    ensures !IsValidLink(Url("https", "example.com", "", "", ""), Url("https", "Example.com", "/a", "", ""))
  {
    assert "Example.com"[0] != "example.com"[0];
  }

  // ---------------------------------------------------------------------------
  // hrefs, filter, withPrefix and fetchLinks

  /** The absolute form of one href: rooted paths are joined to `base`, http(s) URLs kept, others dropped. */
  function Resolve(href: string, base: string): Option<string> {
    var h := TrimSpace(href);
    if HasPrefix(h, "/") then Some(base + h)
    else if HasPrefix(h, "http") then Some(h)
    else None
  }

  /**
   * The three cases of `hrefs` for one trimmed href: one starting with `/`
   * is appended to the base, one starting with `http` is kept as it is, and
   * any other is dropped.
   */
  lemma ResolveCases(href: string, base: string)
    ensures var h := TrimSpace(href);
      (HasPrefix(h, "/") ==> Resolve(href, base) == Some(base + h))
      && (!HasPrefix(h, "/") && HasPrefix(h, "http") ==> Resolve(href, base) == Some(h))
      && (!HasPrefix(h, "/") && !HasPrefix(h, "http") ==> Resolve(href, base) == None)
  {
  }

  /** What `hrefs` returns for the links of a page, in document order. */
  function HrefsOf(links: seq<HtmlLink.Link>, base: string): (r: seq<string>)
    ensures |r| <= |links|
  {
    if links == [] then []
    else
      var last := Resolve(links[|links| - 1].href, base);
      HrefsOf(links[..|links| - 1], base) + (if last.Some? then [last.value] else [])
  }

  /** `hrefs` works link by link: the result for a concatenation is the concatenation of the results. */
  lemma {:induction false} HrefsOfAppend(a: seq<HtmlLink.Link>, b: seq<HtmlLink.Link>, base: string)
    ensures HrefsOf(a + b, base) == HrefsOf(a, base) + HrefsOf(b, base)
    decreases |b|
  {
    if b == [] {
      assert a + b == a;
    } else {
      var b' := b[..|b| - 1];
      assert (a + b)[..|a + b| - 1] == a + b';
      assert (a + b)[|a + b| - 1] == b[|b| - 1];
      HrefsOfAppend(a, b', base);
    }
  }

  /** The resolution of any one link's href is reported. */
  lemma {:induction false} HrefsOfHas(links: seq<HtmlLink.Link>, base: string, i: int)
    requires 0 <= i < |links| && Resolve(links[i].href, base).Some?
    ensures Resolve(links[i].href, base).value in HrefsOf(links, base)
  {
    var init := links[..|links| - 1];
    var last := Resolve(links[|links| - 1].href, base);
    var tail := if last.Some? then [last.value] else [];
    var h := Resolve(links[i].href, base).value;
    assert HrefsOf(links, base) == HrefsOf(init, base) + tail;
    if i < |init| {
      assert init[i] == links[i];
      HrefsOfHas(init, base, i);
      assert h in HrefsOf(init, base);
    } else {
      assert tail == [h];
    }
  }

  /** Everything reported is the resolution of some link's href. */
  lemma {:induction false} HrefsOfFrom(links: seq<HtmlLink.Link>, base: string, h: string)
    requires h in HrefsOf(links, base)
    ensures exists i :: 0 <= i < |links| && Resolve(links[i].href, base) == Some(h)
  {
    var init := links[..|links| - 1];
    if h in HrefsOf(init, base) {
      HrefsOfFrom(init, base, h);
      var i :| 0 <= i < |init| && Resolve(init[i].href, base) == Some(h);
      assert links[i] == init[i];
    } else {
      assert Resolve(links[|links| - 1].href, base) == Some(h);
    }
  }

  /** A string is reported if and only if it is the resolution of some link's href. */
  lemma HrefsOfMembers(links: seq<HtmlLink.Link>, base: string, h: string)
    ensures h in HrefsOf(links, base) <==> exists i :: 0 <= i < |links| && Resolve(links[i].href, base) == Some(h)
  {
    if h in HrefsOf(links, base) {
      HrefsOfFrom(links, base, h);
    }
    if exists i :: 0 <= i < |links| && Resolve(links[i].href, base) == Some(h) {
      var i :| 0 <= i < |links| && Resolve(links[i].href, base) == Some(h);
      HrefsOfHas(links, base, i);
    }
  }

  /** A rooted href without outer white space is appended to the base as it is. */
  lemma ResolveRooted(href: string, base: string)
    requires NoOuterSpace(href) && HasPrefix(href, "/")
    ensures Resolve(href, base) == Some(base + href)
  {
    TrimSpaceOfTrimmed(href);
  }

  lemma HrefsOfOne(l: HtmlLink.Link, base: string)
    ensures HrefsOf([l], base) == (var r := Resolve(l.href, base); if r.Some? then [r.value] else [])
  {
    assert [l][..0] == [];
  }

  /** With a root ending in `/`, the rooted href "/a" becomes a URL whose path holds `//`. */
  lemma RootWithSlashDoublesSlash(base: string)
    requires HasSuffix(base, "/")
    ensures HrefsOf([HtmlLink.Link("/a", "")], base) == [base + "/a"]
    ensures Contains(base + "/a", "//")
  {
    ResolveRooted("/a", base);
    HrefsOfOne(HtmlLink.Link("/a", ""), base);
    var s := base + "/a";
    assert s[|base| - 1..|base| + 1] == "//";
    assert OccursAt(s, "//", |base| - 1);
  }

  /** `hrefs`: resolves the href of every link of the page, in order. */
  method Hrefs(doc: HtmlLink.Node, base: string) returns (ret: seq<string>)
    ensures ret == HrefsOf(HtmlLink.LinksOf(doc), base)
  {
    var links := HtmlLink.ParseLinks(doc);
    ret := [];
    for i := 0 to |links|
      invariant ret == HrefsOf(links[..i], base)
    {
      assert links[..i + 1][..i] == links[..i];
      var href := TrimSpace(links[i].href);
      if HasPrefix(href, "/") {
        ret := ret + [base + href];
      } else if HasPrefix(href, "http") {
        ret := ret + [href];
      }
    }
    assert links[..|links|] == links;
  }

  /** `filter`: the links `keepFn` accepts, in their order. */
  method Filter(links: seq<string>, keepFn: string -> bool) returns (ret: seq<string>)
    ensures ret == Keep(links, keepFn)
  {
    ret := [];
    for i := 0 to |links|
      invariant ret == Keep(links[..i], keepFn)
    {
      assert links[..i + 1][..i] == links[..i];
      if keepFn(links[i]) {
        ret := ret + [links[i]];
      }
    }
    assert links[..|links|] == links;
  }

  /** `withPrefix`: the test "starts with `pfx`". */
  function WithPrefix(pfx: string): (f: string -> bool)
    ensures forall link :: f(link) <==> pfx <= link
  {
    link => HasPrefix(link, pfx)
  }

  /** What `fetchLinks` returns for a page: its resolved hrefs that start with the root, or none on a request error. */
  function FetchedLinks(w: World, root: Url, rawURL: string): seq<string> {
    match w.get(rawURL)
    case None => []
    case Some(doc) => Keep(HrefsOf(HtmlLink.LinksOf(doc), root.ToString()), WithPrefix(root.ToString()))
  }

  /** Every fetched link lies under the root and is the resolution of a link on the page. */
  lemma FetchedLinksUnderRoot(w: World, root: Url, rawURL: string, l: string)
    requires l in FetchedLinks(w, root, rawURL)
    ensures root.ToString() <= l
    ensures w.get(rawURL).Some?
    ensures exists i :: 0 <= i < |HtmlLink.LinksOf(w.get(rawURL).value)|
             && Resolve(HtmlLink.LinksOf(w.get(rawURL).value)[i].href, root.ToString()) == Some(l)
  {
    var base := root.ToString();
    assert w.get(rawURL).Some?;
    var links := HtmlLink.LinksOf(w.get(rawURL).value);
    var hs := HrefsOf(links, base);
    var r := Keep(hs, WithPrefix(base));
    assert l in r;
    var k :| 0 <= k < |r| && r[k] == l;
    assert l in hs && WithPrefix(base)(l);
    HrefsOfFrom(links, base, l);
  }

  /** `fetchLinks`: requests the page, then resolves and filters its links. */
  method FetchLinks(w: World, root: Url, rawURL: string) returns (links: seq<string>)
    ensures links == FetchedLinks(w, root, rawURL)
  {
    var resp := w.get(rawURL);
    if resp.None? {
      return [];
    }
    var hs := Hrefs(resp.value, root.ToString());
    links := Filter(hs, WithPrefix(root.ToString()));
  }

  // ---------------------------------------------------------------------------
  // The link guard of BuildSiteMap and the URLs it queues.

  /**
   * The guard as written at Sitemap/sitemap/sitemap.go:85, `isValidLink(n) && n != nil`:
   * `isValidLink` reads `n.Path` first, so a nil `n` is a nil-pointer
   * dereference, here a Failure.
   */
  function GuardAsWritten(root: Url, n: Option<Url>): (r: Result<bool, string>)
    ensures r.Failure? <==> n.None?
    ensures r.Success? ==> r.value == IsValidLink(root, n.value)
  {
    if n.None? then Failure("invalid memory address or nil pointer dereference")
    else Success(IsValidLink(root, n.value) && n.Some?)
  }

  /**
   * The corrected guard, nil test first: the URL queued for `link`, if any.
   * Unparsable links are skipped.
   */
  function Candidate(parse: string -> Option<Url>, root: Url, link: string): Option<string> {
    var n := NormalizeURL(parse, link);
    if n.Some? && IsValidLink(root, n.value) then Some(n.value.ToString()) else None
  }

  /**
   * A link is queued exactly when it parses and its canonical form is
   * eligible, and what is queued is the string of that canonical form.
   */
  lemma CandidateSpec(parse: string -> Option<Url>, root: Url, link: string)
    ensures parse(link).None? ==> Candidate(parse, root, link).None?
    ensures Candidate(parse, root, link).Some? <==>
            parse(link).Some? && IsValidLink(root, CanonicalUrl(parse(link).value))
    ensures Candidate(parse, root, link).Some? ==>
            Candidate(parse, root, link).value == CanonicalUrl(parse(link).value).ToString()
  {
  }

  /** Where the corrected guard accepts a link, the one as written accepts it too. */
  lemma GuardsAgreeOnParsedLinks(parse: string -> Option<Url>, root: Url, link: string)
    requires parse(link).Some?
    ensures GuardAsWritten(root, NormalizeURL(parse, link)) == Success(Candidate(parse, root, link).Some?)
  {
  }

  /**
   * The discrepancy: a page of the site holding `<a href="/%zz">` yields a
   * fetched link that `url.Parse` refuses (an invalid escape), and the guard
   * as written dereferences nil on it, while the corrected guard skips it.
   */
  lemma NilDereferenceOnUnparsableLink(w: World, root: Url)
    requires w.get(root.ToString()) == Some(HtmlLink.Page([HtmlLink.Anchor("/%zz", [])]))
    requires w.parse(root.ToString() + "/%zz") == None
    ensures root.ToString() + "/%zz" in FetchedLinks(w, root, root.ToString())
    ensures GuardAsWritten(root, NormalizeURL(w.parse, root.ToString() + "/%zz")).Failure?
    ensures Candidate(w.parse, root, root.ToString() + "/%zz") == None
  {
    var base := root.ToString();
    var link := base + "/%zz";
    HtmlLink.EmptyAnchorPage("/%zz");
    ResolveRooted("/%zz", base);
    HrefsOfOne(HtmlLink.Link("/%zz", ""), base);
    assert HasPrefix(link, base);
    KeepAll([link], WithPrefix(base));
  }

  /** The URLs queued while scanning a page's fetched links. */
  function CandidateSet(parse: string -> Option<Url>, root: Url, links: seq<string>): set<string> {
    if links == [] then {}
    else
      var c := Candidate(parse, root, links[|links| - 1]);
      CandidateSet(parse, root, links[..|links| - 1]) + (if c.Some? then {c.value} else {})
  }

  /** The URL queued for any one link is in the set queued for the page. */
  lemma {:induction false} CandidateSetHas(parse: string -> Option<Url>, root: Url, links: seq<string>, i: int)
    requires 0 <= i < |links| && Candidate(parse, root, links[i]).Some?
    ensures Candidate(parse, root, links[i]).value in CandidateSet(parse, root, links)
  {
    var init := links[..|links| - 1];
    if i < |init| {
      assert init[i] == links[i];
      CandidateSetHas(parse, root, init, i);
    }
  }

  /** Everything queued for a page is queued for one of its links. */
  lemma {:induction false} CandidateSetFrom(parse: string -> Option<Url>, root: Url, links: seq<string>, x: string)
    requires x in CandidateSet(parse, root, links)
    ensures exists i :: 0 <= i < |links| && Candidate(parse, root, links[i]) == Some(x)
  {
    var init := links[..|links| - 1];
    if x in CandidateSet(parse, root, init) {
      CandidateSetFrom(parse, root, init, x);
      var i :| 0 <= i < |init| && Candidate(parse, root, init[i]) == Some(x);
      assert links[i] == init[i];
    } else {
      assert Candidate(parse, root, links[|links| - 1]) == Some(x);
    }
  }

  /** A URL is queued for a page if and only if the corrected guard accepts one of its links. */
  lemma CandidateSetMembers(parse: string -> Option<Url>, root: Url, links: seq<string>, x: string)
    ensures x in CandidateSet(parse, root, links) <==>
            exists i :: 0 <= i < |links| && Candidate(parse, root, links[i]) == Some(x)
  {
    if x in CandidateSet(parse, root, links) {
      CandidateSetFrom(parse, root, links, x);
    }
    if exists i :: 0 <= i < |links| && Candidate(parse, root, links[i]) == Some(x) {
      var i :| 0 <= i < |links| && Candidate(parse, root, links[i]) == Some(x);
      CandidateSetHas(parse, root, links, i);
    }
  }

  /** The URLs one page contributes to the next level. */
  function Links(w: World, root: Url, u: string): set<string> {
    CandidateSet(w.parse, root, FetchedLinks(w, root, u))
  }

  /** The link graph the crawl explores: from each page, the URLs it queues. */
  function Graph(w: World, root: Url): string -> set<string> {
    u => Links(w, root, u)
  }

  // ---------------------------------------------------------------------------
  // The levels of a breadth-first exploration of a link graph `g` from `s`.

  /** Some member of a non-empty set, always the same one. */
  ghost function Pick(S: set<string>): (u: string)
    requires S != {}
    ensures u in S
  {
    var u :| u in S; u
  }

  /** The URLs linked from some page of `S`, collected one page at a time. */
  ghost function Step(g: string -> set<string>, S: set<string>): set<string>
    decreases |S|
  {
    if S == {} then {} else g(Pick(S)) + Step(g, S - {Pick(S)})
  }

  /** A URL is in the step from `S` if and only if some page of `S` links to it. */
  lemma {:induction false} StepMembers(g: string -> set<string>, S: set<string>, x: string)
    ensures x in Step(g, S) <==> exists u :: u in S && x in g(u)
    decreases |S|
  {
    if S != {} {
      var p := Pick(S);
      StepMembers(g, S - {p}, x);
      if exists u :: u in S && x in g(u) {
        var u :| u in S && x in g(u);
        if u != p { assert u in S - {p}; }
      }
    }
  }

  /** Level 0 is the start alone; level d+1 is what level d links to. */
  ghost function Level(g: string -> set<string>, s: string, d: nat): set<string> {
    if d == 0 then {s} else Step(g, Level(g, s, d - 1))
  }

  /** The union of levels 0..D; empty for a negative depth. */
  ghost function Reach(g: string -> set<string>, s: string, D: int): set<string>
    decreases if D < 0 then 0 else D + 1
  {
    if D < 0 then {} else Reach(g, s, D - 1) + Level(g, s, D)
  }

  lemma StepUnion(g: string -> set<string>, A: set<string>, B: set<string>)
    ensures Step(g, A + B) == Step(g, A) + Step(g, B)
  {
    forall x ensures x in Step(g, A + B) <==> x in Step(g, A) + Step(g, B) {
      StepMembers(g, A + B, x);
      StepMembers(g, A, x);
      StepMembers(g, B, x);
    }
  }

  lemma StepSingleton(g: string -> set<string>, u: string)
    ensures Step(g, {u}) == g(u)
  {
    assert {u} - {Pick({u})} == {};
  }

  lemma StepEmpty(g: string -> set<string>)
    ensures Step(g, {}) == {}
  {
  }

  /** One more level is what the pages reached so far link to. */
  lemma {:induction false} ReachSucc(g: string -> set<string>, s: string, d: nat)
    ensures Reach(g, s, d + 1) == Reach(g, s, d) + Step(g, Reach(g, s, d))
  {
    if d == 0 {
      assert Reach(g, s, -1) == {};
      assert Reach(g, s, 0) == Level(g, s, 0);
    } else {
      ReachSucc(g, s, d - 1);
      StepUnion(g, Reach(g, s, d - 1), Level(g, s, d));
    }
  }

  /** Once a level adds nothing new, no later level does. */
  lemma {:induction false} ReachFixpoint(g: string -> set<string>, s: string, e: nat, k: int)
    requires e <= k
    requires Reach(g, s, e + 1) == Reach(g, s, e)
    ensures Reach(g, s, k) == Reach(g, s, e)
    decreases k - e
  {
    if k > e {
      calc {
        Reach(g, s, k);
        == { ReachSucc(g, s, k - 1); }
        Reach(g, s, k - 1) + Step(g, Reach(g, s, k - 1));
        == { ReachFixpoint(g, s, e, k - 1); }
        Reach(g, s, e) + Step(g, Reach(g, s, e));
        == { ReachSucc(g, s, e); }
        Reach(g, s, e + 1);
      }
    }
  }

  lemma {:induction false} ReachMono(g: string -> set<string>, s: string, d: int, k: int)
    requires d <= k
    ensures Reach(g, s, d) <= Reach(g, s, k)
    decreases k - d
  {
    if d < k {
      ReachMono(g, s, d, k - 1);
    }
  }

  /** The start is collected exactly when the depth is not negative; nothing is collected otherwise. */
  lemma StartReachedIff(g: string -> set<string>, s: string, D: int)
    ensures s in Reach(g, s, D) <==> D >= 0
    ensures Reach(g, s, D) == {} <==> D < 0
  {
    if D >= 0 {
      ReachMono(g, s, 0, D);
      assert Reach(g, s, 0) == {s};
    }
  }

  /** `p` is a walk from `s` that follows links: each page after the first is linked from the one before. */
  ghost predicate IsHopPath(g: string -> set<string>, s: string, p: seq<string>) {
    |p| >= 1 && p[0] == s && forall i :: 0 <= i < |p| - 1 ==> p[i + 1] in g(p[i])
  }

  lemma {:induction false} LevelHasPath(g: string -> set<string>, s: string, d: nat, x: string)
    requires x in Level(g, s, d)
    ensures exists p :: IsHopPath(g, s, p) && |p| == d + 1 && p[d] == x
  {
    if d == 0 {
      assert IsHopPath(g, s, [s]);
    } else {
      StepMembers(g, Level(g, s, d - 1), x);
      var u :| u in Level(g, s, d - 1) && x in g(u);
      LevelHasPath(g, s, d - 1, u);
      var p :| IsHopPath(g, s, p) && |p| == d && p[d - 1] == u;
      var p' := p + [x];
      assert forall i :: 0 <= i < |p| ==> p'[i] == p[i];
      assert IsHopPath(g, s, p');
    }
  }

  lemma {:induction false} PathEndsInLevel(g: string -> set<string>, s: string, p: seq<string>)
    requires IsHopPath(g, s, p)
    ensures p[|p| - 1] in Level(g, s, |p| - 1)
  {
    if |p| > 1 {
      var p' := p[..|p| - 1];
      assert forall i :: 0 <= i < |p'| ==> p'[i] == p[i];
      assert IsHopPath(g, s, p');
      PathEndsInLevel(g, s, p');
      assert p[|p| - 1] in g(p[|p| - 2]);
      StepMembers(g, Level(g, s, |p| - 2), p[|p| - 1]);
    }
  }

  /** Some walk of exactly `d` links from `s` ends at `x`. */
  ghost predicate WalkOf(g: string -> set<string>, s: string, d: nat, x: string) {
    exists p :: IsHopPath(g, s, p) && |p| == d + 1 && p[d] == x
  }

  /** Some walk of at most `D` links from `s` ends at `x`. */
  ghost predicate WalkWithin(g: string -> set<string>, s: string, D: int, x: string) {
    exists p :: IsHopPath(g, s, p) && |p| <= D + 1 && p[|p| - 1] == x
  }

  /** Level d holds exactly the pages at the end of a walk of d links from the start. */
  lemma LevelIffPath(g: string -> set<string>, s: string, d: nat, x: string)
    ensures x in Level(g, s, d) <==> WalkOf(g, s, d, x)
  {
    if x in Level(g, s, d) {
      LevelHasPath(g, s, d, x);
    }
    if WalkOf(g, s, d, x) {
      var p :| IsHopPath(g, s, p) && |p| == d + 1 && p[d] == x;
      PathEndsInLevel(g, s, p);
    }
  }

  /** A walk of at most `D` links has at most `D - 1` links or exactly `D`. */
  lemma WalkWithinSplit(g: string -> set<string>, s: string, D: nat, x: string)
    ensures WalkWithin(g, s, D, x) <==> WalkWithin(g, s, D - 1, x) || WalkOf(g, s, D, x)
  {
    if WalkWithin(g, s, D, x) {
      var p :| IsHopPath(g, s, p) && |p| <= D + 1 && p[|p| - 1] == x;
      if |p| <= D {
        assert WalkWithin(g, s, D - 1, x);
      } else {
        assert WalkOf(g, s, D, x);
      }
    }
    if WalkWithin(g, s, D - 1, x) {
      var p :| IsHopPath(g, s, p) && |p| <= D && p[|p| - 1] == x;
      assert WalkWithin(g, s, D, x);
    }
    if WalkOf(g, s, D, x) {
      var p :| IsHopPath(g, s, p) && |p| == D + 1 && p[D] == x;
      assert WalkWithin(g, s, D, x);
    }
  }

  /**
   * The crawl's result, independently of levels: a URL is within `D` hops
   * of the start if and only if some walk of at most `D` links reaches it.
   */
  lemma {:induction false} ReachIffPath(g: string -> set<string>, s: string, D: int, x: string)
    ensures x in Reach(g, s, D) <==> WalkWithin(g, s, D, x)
    decreases if D < 0 then 0 else D + 1
  {
    if D >= 0 {
      ReachIffPath(g, s, D - 1, x);
      LevelIffPath(g, s, D, x);
      WalkWithinSplit(g, s, D, x);
    }
  }

  /** A URL the crawl queues: canonical and eligible, on the root's host. */
  ghost predicate OnSite(root: Url, x: string) {
    exists v :: Canonical(v) && IsValidLink(root, v) && x == v.ToString()
  }

  predicate Canonical(v: Url) {
    v.rawQuery == "" && v.fragment == ""
  }

  lemma StepOnSite(w: World, root: Url, S: set<string>, x: string)
    requires x in Step(Graph(w, root), S)
    ensures OnSite(root, x)
  {
    StepMembers(Graph(w, root), S, x);
    var u :| u in S && x in Graph(w, root)(u);
    var links := FetchedLinks(w, root, u);
    CandidateSetMembers(w.parse, root, links, x);
    var i :| 0 <= i < |links| && Candidate(w.parse, root, links[i]) == Some(x);
    CandidateSpec(w.parse, root, links[i]);
    var v := CanonicalUrl(w.parse(links[i]).value);
    assert Canonical(v) && IsValidLink(root, v) && x == v.ToString();
  }

  /**
   * Every collected URL other than the start is the string of a canonical
   * URL on the root's host: not mailto, no comment page, no query, no fragment.
   */
  lemma {:induction false} ReachOnSite(w: World, root: Url, D: int, x: string)
    requires x in Reach(Graph(w, root), root.ToString(), D)
    ensures x == root.ToString() || OnSite(root, x)
    decreases if D < 0 then 0 else D + 1
  {
    var g, s := Graph(w, root), root.ToString();
    if x in Reach(g, s, D - 1) {
      ReachOnSite(w, root, D - 1, x);
    } else if D > 0 {
      StepOnSite(w, root, Level(g, s, D - 1), x);
    }
  }

  // ---------------------------------------------------------------------------
  // BuildSiteMap

  /** Adds to `nq` the URL queued for every link of `links`. */
  method QueueLinks(w: World, root: Url, links: seq<string>, nq0: set<string>) returns (nq: set<string>)
    ensures nq == nq0 + CandidateSet(w.parse, root, links)
  {
    nq := nq0;
    for i := 0 to |links|
      invariant nq == nq0 + CandidateSet(w.parse, root, links[..i])
    {
      assert links[..i + 1][..i] == links[..i];
      var normalizedURL := NormalizeURL(w.parse, links[i]);
      if normalizedURL.Some? && IsValidLink(root, normalizedURL.value) {
        nq := nq + {normalizedURL.value.ToString()};
      }
    }
    assert links[..|links|] == links;
  }

  /** Fetches one page and queues the URLs it links to. */
  method VisitPage(w: World, root: Url, currURL: string, nq0: set<string>) returns (nq: set<string>)
    ensures nq == nq0 + Graph(w, root)(currURL)
  {
    var links := FetchLinks(w, root, currURL);
    nq := QueueLinks(w, root, links, nq0);
  }

  /** Adding one page to a set adds what that page links to. */
  lemma StepAddOne(g: string -> set<string>, A: set<string>, u: string)
    ensures Step(g, A + {u}) == Step(g, A) + g(u)
  {
    StepUnion(g, A, {u});
    StepSingleton(g, u);
  }

  /** Logging a page not logged before keeps the log free of repeats and its earlier entries. */
  lemma LogAppend(f0: seq<string>, f: seq<string>, x: string)
    requires NoDuplicates(f) && x !in Elems(f)
    requires |f0| <= |f| && f[..|f0|] == f0
    ensures NoDuplicates(f + [x]) && Elems(f + [x]) == Elems(f) + {x}
    ensures (f + [x])[..|f0|] == f0
  {
    assert (f + [x])[..|f0|] == f[..|f0|];
  }

  /**
   * One level of the crawl: fetches every page of `q` not yet seen, marks it
   * seen, and queues what it links to.
   */
  method CrawlLevel(w: World, root: Url, q: set<string>, seen0: set<string>, ghost fetched0: seq<string>)
    returns (seen: set<string>, nq: set<string>, ghost fetched: seq<string>)
    requires NoDuplicates(fetched0) && Elems(fetched0) == seen0
    ensures seen == seen0 + q
    ensures nq == Step(Graph(w, root), q - seen0)
    ensures NoDuplicates(fetched) && Elems(fetched) == seen
    ensures |fetched0| <= |fetched| && fetched[..|fetched0|] == fetched0
  {
    ghost var g := Graph(w, root);
    seen, nq, fetched := seen0, {}, fetched0;
    var rest := q;
    while rest != {}
      invariant rest <= q
      invariant seen == seen0 + (q - rest)
      invariant nq == Step(g, (q - rest) - seen0)
      invariant NoDuplicates(fetched) && Elems(fetched) == seen
      invariant |fetched0| <= |fetched| && fetched[..|fetched0|] == fetched0
      decreases rest
    {
      var currURL :| currURL in rest;
      ghost var done := q - rest;
      rest := rest - {currURL};
      assert q - rest == done + {currURL};
      if currURL in seen {
        assert (q - rest) - seen0 == done - seen0;
        continue;
      }
      LogAppend(fetched0, fetched, currURL);
      seen := seen + {currURL};
      fetched := fetched + [currURL];
      nq := VisitPage(w, root, currURL, nq);
      assert (q - rest) - seen0 == (done - seen0) + {currURL};
      StepAddOne(g, done - seen0, currURL);
    }
    assert q - rest == q;
  }

  /** One level of the crawl keeps the invariant of the level loop of `BuildSiteMap`. */
  lemma CrawlLevelKeepsInvariant(g: string -> set<string>, s: string, d: nat,
                                 seen0: set<string>, q: set<string>, nq: set<string>)
    requires seen0 == Reach(g, s, d - 1) && seen0 + q == Reach(g, s, d)
    requires Step(g, seen0) <= Reach(g, s, d)
    requires nq == Step(g, q - seen0)
    ensures seen0 + q == Reach(g, s, d)
    ensures (seen0 + q) + nq == Reach(g, s, d + 1)
    ensures Step(g, seen0 + q) <= Reach(g, s, d + 1)
  {
    ReachSucc(g, s, d);
    assert seen0 + q == seen0 + (q - seen0);
    StepUnion(g, seen0, q - seen0);
  }

  /** When the level loop stops, what has been seen is everything within `maxDepth` hops. */
  lemma CrawlStopsAtReach(g: string -> set<string>, s: string, d: nat, maxDepth: int,
                          seen: set<string>, nq: set<string>)
    requires d <= maxDepth + 1 || d == 0
    requires seen == Reach(g, s, d - 1) && seen + nq == Reach(g, s, d)
    requires !(d <= maxDepth && nq != {})
    ensures seen == Reach(g, s, maxDepth)
  {
    assert Reach(g, s, 0) == {s};
    if d <= maxDepth {
      ReachFixpoint(g, s, d - 1, maxDepth);
    }
  }

  /** The members of a set, each once, in some order (Go's map iteration order is unspecified). */
  method SetToSeq(s: set<string>) returns (r: seq<string>)
    ensures NoDuplicates(r) && Elems(r) == s
  {
    r := [];
    var rest := s;
    while rest != {}
      invariant rest <= s
      invariant Elems(r) == s - rest
      invariant NoDuplicates(r)
      decreases rest
    {
      var u :| u in rest;
      assert u !in Elems(r);
      assert Elems(r + [u]) == Elems(r) + {u};
      r := r + [u];
      rest := rest - {u};
    }
  }

  /** The level loop of `BuildSiteMap`: the pages seen, and the ghost log of requests. */
  method Crawl(w: World, root: Url, maxDepth: int) returns (seen: set<string>, ghost fetched: seq<string>)
    ensures seen == Reach(Graph(w, root), root.ToString(), maxDepth)
    ensures NoDuplicates(fetched) && Elems(fetched) == seen
  {
    ghost var g := Graph(w, root);
    var start := root.ToString();
    seen := {};
    var nq: set<string> := {start};
    fetched := [];
    var d := 0;
    StepEmpty(g);
    assert Reach(g, start, 0) == {start};
    while d <= maxDepth && nq != {}
      invariant 0 <= d
      invariant d <= maxDepth + 1 || d == 0
      invariant seen == Reach(g, start, d - 1)
      invariant seen + nq == Reach(g, start, d)
      invariant Step(g, seen) <= Reach(g, start, d)
      invariant NoDuplicates(fetched) && Elems(fetched) == seen
      decreases maxDepth - d
    {
      var q := nq;
      ghost var seen0 := seen;
      seen, nq, fetched := CrawlLevel(w, root, q, seen, fetched);
      CrawlLevelKeepsInvariant(g, start, d, seen0, q, nq);
      d := d + 1;
    }
    CrawlStopsAtReach(g, start, d, maxDepth, seen, nq);
  }

  /**
   * `BuildSiteMap`: the URLs within `maxDepth` eligible-link hops of the
   * start, each once. The ghost `fetched` records every page requested, in
   * order: each collected URL is requested exactly once, and nothing else is.
   */
  method BuildSiteMap(w: World, startURL: Url, maxDepth: int) returns (urls: seq<string>, ghost fetched: seq<string>)
    ensures NoDuplicates(urls)
    ensures Elems(urls) == Reach(Graph(w, startURL), startURL.ToString(), maxDepth)
    ensures NoDuplicates(fetched) && Elems(fetched) == Elems(urls)
  {
    var seen;
    seen, fetched := Crawl(w, startURL, maxDepth);
    urls := SetToSeq(seen);
  }

  // ---------------------------------------------------------------------------
  // The URLSet record of BuildSiteMapXML.

  datatype UrlEntry = UrlEntry(loc: string)

  datatype URLSet = URLSet(xmlns: string, urls: seq<UrlEntry>)

  function Locs(s: URLSet): (r: seq<string>)
    ensures |r| == |s.urls| && forall i :: 0 <= i < |r| ==> r[i] == s.urls[i].loc
  {
    seq(|s.urls|, i requires 0 <= i < |s.urls| => s.urls[i].loc)
  }

  /** The record `BuildSiteMapXML` serialises: the 0.9 namespace and one entry per URL, in order. */
  method BuildURLSet(urls: seq<string>) returns (toXml: URLSet)
    ensures toXml.xmlns == Xmlns
    ensures |toXml.urls| == |urls| && forall i :: 0 <= i < |urls| ==> toXml.urls[i].loc == urls[i]
    ensures Locs(toXml) == urls
  {
    toXml := URLSet(Xmlns, []);
    for i := 0 to |urls|
      invariant toXml.xmlns == Xmlns
      invariant |toXml.urls| == i && forall j :: 0 <= j < i ==> toXml.urls[j].loc == urls[j]
    {
      toXml := toXml.(urls := toXml.urls + [UrlEntry(urls[i])]);
    }
  }
}
