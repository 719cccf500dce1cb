/**
 * Anchor extraction over an already-parsed HTML tree (Sitemap/htmllink/htmllink.go).
 * The tree that `golang.org/x/net/html` builds is a value here: a node with
 * its type, its tag name or text, its attributes and its children in order.
 */
module HtmlLink {
  import opened Wrappers
  import opened Text

  datatype NodeType = ErrorNode | TextNode | DocumentNode | ElementNode | CommentNode | DoctypeNode | RawNode

  datatype Attribute = Attribute(namespace: string, key: string, val: string)

  /** `data` is the tag name of an element and the text of a text node. */
  datatype Node = Node(kind: NodeType, data: string, attr: seq<Attribute>, children: seq<Node>)

  /** A hyperlink: the `href` of an `<a>` element and its trimmed inner text. */
  datatype Link = Link(href: string, text: string)

  predicate IsAnchor(n: Node) {
    n.kind == ElementNode && n.data == "a"
  }

  // ---------------------------------------------------------------------------
  // linkNodes: the outermost anchors, in document order.

  /** `linkNodes`: stops at an `<a>` element, otherwise walks the children in order. */
  function LinkNodes(n: Node): (r: seq<Node>)
    ensures forall i :: 0 <= i < |r| ==> IsAnchor(r[i])
    ensures IsAnchor(n) ==> r == [n]
    decreases n, 1
  {
    if IsAnchor(n) then [n] else LinkNodesOfAll(n.children)
  }

  /** The anchors of a run of sibling subtrees, one subtree after the other. */
  function LinkNodesOfAll(cs: seq<Node>): (r: seq<Node>)
    ensures forall i :: 0 <= i < |r| ==> IsAnchor(r[i])
    decreases cs, 0
  {
    if cs == [] then [] else LinkNodesOfAll(cs[..|cs| - 1]) + LinkNodes(cs[|cs| - 1])
  }

  /** `a` is an anchor of `n` that no other anchor of `n` encloses. */
  ghost predicate OutermostAnchorOf(a: Node, n: Node)
    decreases n
  {
    if IsAnchor(n) then a == n
    else exists i :: 0 <= i < |n.children| && OutermostAnchorOf(a, n.children[i])
  }

  /** Some node of the tree `n`, `n` included, is an `<a>` element. */
  ghost predicate HasAnchor(n: Node)
    decreases n
  {
    IsAnchor(n) || exists i :: 0 <= i < |n.children| && HasAnchor(n.children[i])
  }

  /** The number of `<a>` elements in the tree `n`, nested ones included. */
  function CountAnchors(n: Node): nat
    decreases n, 1
  {
    (if IsAnchor(n) then 1 else 0) + CountAnchorsOfAll(n.children)
  }

  function CountAnchorsOfAll(cs: seq<Node>): nat
    decreases cs, 0
  {
    if cs == [] then 0 else CountAnchorsOfAll(cs[..|cs| - 1]) + CountAnchors(cs[|cs| - 1])
  }

  /**
   * `linkNodes` reports exactly the outermost anchors: an anchor is reported
   * if and only if no anchor encloses it, because the walk never enters an `<a>`.
   */
  lemma {:induction false} LinkNodesAreOutermostAnchors(n: Node, a: Node)
    ensures a in LinkNodes(n) <==> OutermostAnchorOf(a, n)
    decreases n, 1
  {
    if !IsAnchor(n) {
      LinkNodesOfAllMembers(n.children, a);
    }
  }

  lemma {:induction false} LinkNodesOfAllMembers(cs: seq<Node>, a: Node)
    ensures a in LinkNodesOfAll(cs) <==> exists i :: 0 <= i < |cs| && OutermostAnchorOf(a, cs[i])
    decreases cs, 0
  {
    if cs != [] {
      var init := cs[..|cs| - 1];
      LinkNodesOfAllMembers(init, a);
      LinkNodesAreOutermostAnchors(cs[|cs| - 1], a);
      if exists i :: 0 <= i < |cs| && OutermostAnchorOf(a, cs[i]) {
        var i :| 0 <= i < |cs| && OutermostAnchorOf(a, cs[i]);
        if i < |cs| - 1 { assert init[i] == cs[i]; }
      }
      if exists i :: 0 <= i < |init| && OutermostAnchorOf(a, init[i]) {
        var i :| 0 <= i < |init| && OutermostAnchorOf(a, init[i]);
        assert cs[i] == init[i];
      }
    }
  }

  /** A tree yields some anchor if and only if it holds one. */
  lemma {:induction false} LinkNodesEmptyIffNoAnchor(n: Node)
    ensures LinkNodes(n) != [] <==> HasAnchor(n)
    decreases n, 1
  {
    if !IsAnchor(n) {
      LinkNodesOfAllEmpty(n.children);
    }
  }

  lemma {:induction false} LinkNodesOfAllEmpty(cs: seq<Node>)
    ensures LinkNodesOfAll(cs) != [] <==> exists i :: 0 <= i < |cs| && HasAnchor(cs[i])
    decreases cs, 0
  {
    if cs != [] {
      var init := cs[..|cs| - 1];
      LinkNodesOfAllEmpty(init);
      LinkNodesEmptyIffNoAnchor(cs[|cs| - 1]);
      if exists i :: 0 <= i < |cs| && HasAnchor(cs[i]) {
        var i :| 0 <= i < |cs| && HasAnchor(cs[i]);
        if i < |cs| - 1 { assert init[i] == cs[i]; }
      }
      if exists i :: 0 <= i < |init| && HasAnchor(init[i]) {
        var i :| 0 <= i < |init| && HasAnchor(init[i]);
        assert cs[i] == init[i];
      }
    }
  }

  /** At most one node is reported per `<a>` element of the tree. */
  lemma {:induction false} LinkNodesBound(n: Node)
    ensures |LinkNodes(n)| <= CountAnchors(n)
    decreases n, 1
  {
    if !IsAnchor(n) {
      LinkNodesOfAllBound(n.children);
    }
  }

  lemma {:induction false} LinkNodesOfAllBound(cs: seq<Node>)
    ensures |LinkNodesOfAll(cs)| <= CountAnchorsOfAll(cs)
    decreases cs, 0
  {
    if cs != [] {
      LinkNodesOfAllBound(cs[..|cs| - 1]);
      LinkNodesBound(cs[|cs| - 1]);
    }
  }

  // ---------------------------------------------------------------------------
  // buildLink: the first href attribute and the text.

  /** The value of the first attribute whose key is `href`, or "" when there is none. */
  function FirstHref(attrs: seq<Attribute>): (v: string)
    ensures (forall i :: 0 <= i < |attrs| ==> attrs[i].key != "href") ==> v == ""
    ensures forall i :: (0 <= i < |attrs| && attrs[i].key == "href"
              && (forall j :: 0 <= j < i ==> attrs[j].key != "href")) ==> v == attrs[i].val
  {
    if attrs == [] then ""
    else if attrs[0].key == "href" then attrs[0].val
    else
      var v := FirstHref(attrs[1..]);
      assert forall i :: 1 <= i < |attrs| ==> attrs[i] == attrs[1..][i - 1];
      v
  }

  /** The text that `extractTextRecursive` writes for `n`: each text node's data and a space. */
  function TextOf(n: Node): string
    decreases n, 1
  {
    match n.kind
    case TextNode => n.data + " "
    case ElementNode => TextOfAll(n.children)
    case _ => ""
  }

  function TextOfAll(cs: seq<Node>): string
    decreases cs, 0
  {
    if cs == [] then "" else TextOfAll(cs[..|cs| - 1]) + TextOf(cs[|cs| - 1])
  }

  /** What `buildLink` returns for an anchor node: nothing without a non-empty first href. */
  function LinkOf(n: Node): Option<Link> {
    var href := FirstHref(n.attr);
    if href == "" then None else Some(Link(href, TrimSpace(TextOf(n))))
  }

  /** The links of a list of anchor nodes, those without an href left out. */
  function LinksFrom(nodes: seq<Node>): (r: seq<Link>)
    ensures |r| <= |nodes|
  {
    if nodes == [] then []
    else
      var last := LinkOf(nodes[|nodes| - 1]);
      LinksFrom(nodes[..|nodes| - 1]) + (if last.Some? then [last.value] else [])
  }

  /** What `ParseLinks` returns for a parsed document. */
  function LinksOf(doc: Node): seq<Link> {
    LinksFrom(LinkNodes(doc))
  }

  /** `strings.Builder`: a buffer that only grows at its end. */
  class Builder {
    var buf: string

    constructor ()
      ensures buf == ""
    {
      buf := "";
    }

    method WriteString(s: string)
      modifies this
      ensures buf == old(buf) + s
    {
      buf := buf + s;
    }
  }

  /** `extractTextRecursive`: appends the text of `n` to the shared buffer. */
  method ExtractTextRecursive(n: Node, sb: Builder)
    modifies sb
    ensures sb.buf == old(sb.buf) + TextOf(n)
    decreases n
  {
    if n.kind == TextNode {
      sb.WriteString(n.data);
      sb.WriteString(" ");
    } else if n.kind == ElementNode {
      for i := 0 to |n.children|
        invariant sb.buf == old(sb.buf) + TextOfAll(n.children[..i])
      {
        assert n.children[..i + 1][..i] == n.children[..i];
        ExtractTextRecursive(n.children[i], sb);
      }
      assert n.children[..|n.children|] == n.children;
    }
  }

  /** `extractText`: the trimmed text of every text node below `n`, each followed by a space. */
  method ExtractText(n: Node) returns (text: string)
    ensures text == TrimSpace(TextOf(n))
  {
    var sb := new Builder();
    ExtractTextRecursive(n, sb);
    assert sb.buf == "" + TextOf(n) == TextOf(n);
    text := TrimSpace(sb.buf);
  }

  /** `buildLink`: scans the attributes up to the first `href`. */
  method BuildLink(n: Node) returns (link: Option<Link>)
    ensures link.Some? <==> FirstHref(n.attr) != ""
    ensures link.Some? ==> link.value.href == FirstHref(n.attr) && link.value.text == TrimSpace(TextOf(n))
  {
    var href := "";
    var i := 0;
    while i < |n.attr|
      invariant 0 <= i <= |n.attr|
      invariant href == ""
      invariant forall j :: 0 <= j < i ==> n.attr[j].key != "href"
    {
      if n.attr[i].key == "href" {
        href := n.attr[i].val;
        break;
      }
      i := i + 1;
    }
    if href == "" {
      return None;
    }
    var text := ExtractText(n);
    return Some(Link(href, text));
  }

  /** `parseLinkNodes`: appends to `list` the link of every outermost anchor that has one. */
  method ParseLinkNodes(n: Node, list: seq<Link>) returns (r: seq<Link>)
    ensures r == list + LinksOf(n)
  {
    var nodes := LinkNodes(n);
    r := list;
    for i := 0 to |nodes|
      invariant r == list + LinksFrom(nodes[..i])
    {
      assert nodes[..i + 1][..i] == nodes[..i];
      var link := BuildLink(nodes[i]);
      if link.Some? {
        r := r + [link.value];
      }
    }
    assert nodes[..|nodes|] == nodes;
  }

  /** `ParseLinks` applied to an already-parsed document. */
  method ParseLinks(doc: Node) returns (links: seq<Link>)
    ensures links == LinksOf(doc)
  {
    links := [];
    links := ParseLinkNodes(doc, links);
  }

  /** At most one link per `<a>` element of the document. */
  lemma LinksOfBound(doc: Node)
    ensures |LinksOf(doc)| <= CountAnchors(doc)
  {
    LinkNodesBound(doc);
  }

  /** Every reported link has a non-empty href taken from an outermost anchor. */
  lemma {:induction false} LinksFromSources(nodes: seq<Node>, l: Link)
    requires l in LinksFrom(nodes)
    ensures exists i :: 0 <= i < |nodes| && LinkOf(nodes[i]) == Some(l) && l.href != ""
  {
    var init := nodes[..|nodes| - 1];
    var last := LinkOf(nodes[|nodes| - 1]);
    if l in LinksFrom(init) {
      LinksFromSources(init, l);
      var i :| 0 <= i < |init| && LinkOf(init[i]) == Some(l) && l.href != "";
      assert nodes[i] == init[i];
    } else {
      assert LinkOf(nodes[|nodes| - 1]) == Some(l);
    }
  }

  /** A document without any anchor that has a non-empty href yields no link. */
  lemma {:induction false} LinksFromNone(nodes: seq<Node>)
    requires forall i :: 0 <= i < |nodes| ==> FirstHref(nodes[i].attr) == ""
    ensures LinksFrom(nodes) == []
  {
    if nodes != [] {
      LinksFromNone(nodes[..|nodes| - 1]);
    }
  }

  // ---------------------------------------------------------------------------
  // The documents of the package's tests, as the HTML parser builds them.

  function TextNodeOf(s: string): Node {
    Node(TextNode, s, [], [])
  }

  function Element(tag: string, attr: seq<Attribute>, children: seq<Node>): Node {
    Node(ElementNode, tag, attr, children)
  }

  function Anchor(href: string, children: seq<Node>): Node {
    Element("a", [Attribute("", "href", href)], children)
  }

  /** The tree the parser builds for a fragment: a document, `<html>`, an empty `<head>`, then `<body>`. */
  function Page(body: seq<Node>): Node {
    Node(DocumentNode, "", [], [Element("html", [], [Element("head", [], []), Element("body", [], body)])])
  }

  lemma LinkNodesOfOne(x: Node)
    ensures LinkNodesOfAll([x]) == LinkNodes(x)
    ensures TextOfAll([x]) == TextOf(x)
  {
    assert [x][..0] == [];
  }

  /** Only the body holds anchors: the parser's `<html>` and `<head>` contribute none. */
  lemma PageLinkNodes(body: seq<Node>)
    ensures LinkNodes(Page(body)) == LinkNodesOfAll(body)
  {
    var head := Element("head", [], []);
    var b := Element("body", [], body);
    var html := Element("html", [], [head, b]);
    LinkNodesOfOne(head);
    assert LinkNodes(head) == [] by { assert head.children == []; }
    assert [head, b][..1] == [head];
    assert LinkNodesOfAll([head, b]) == LinkNodes(b);
    LinkNodesOfOne(html);
  }

  lemma TrimsOneTrailingSpace(w: string)
    requires NoOuterSpace(w)
    ensures TrimSpace(w + " ") == w
  {
    TrimSpacePadded([], w, " ");
    assert [] + w + " " == w + " ";
  }

  /** `<a href=h>w</a>` has the link {h, w} when `w` has no outer white space. */
  lemma AnchorLink(href: string, w: string)
    requires href != "" && NoOuterSpace(w)
    ensures LinkOf(Anchor(href, [TextNodeOf(w)])) == Some(Link(href, w))
  {
    LinkNodesOfOne(TextNodeOf(w));
    TrimsOneTrailingSpace(w);
  }

  lemma SingleAnchorPage(href: string, w: string)
    requires href != "" && NoOuterSpace(w)
    ensures LinksOf(Page([Anchor(href, [TextNodeOf(w)])])) == [Link(href, w)]
  {
    var a := Anchor(href, [TextNodeOf(w)]);
    PageLinkNodes([a]);
    LinkNodesOfOne(a);
    AnchorLink(href, w);
    assert [a][..0] == [];
  }

  /** A page whose only content is an empty anchor yields one link with empty text. */
  lemma EmptyAnchorPage(href: string)
    requires href != ""
    ensures LinksOf(Page([Anchor(href, [])])) == [Link(href, "")]
  {
    var a := Anchor(href, []);
    PageLinkNodes([a]);
    LinkNodesOfOne(a);
    assert [a][..0] == [];
    TrimSpaceOfTrimmed("");
  }

  /** `<a href="/home">Home</a>` yields the link {/home, Home}. */
  lemma SingleLinkExample()
    ensures LinksOf(Page([Anchor("/home", [TextNodeOf("Home")])])) == [Link("/home", "Home")]
  {
    SingleAnchorPage("/home", "Home");
  }

  lemma TwoAnchorsAroundText(a1: Node, sp: Node, a2: Node)
    requires IsAnchor(a1) && IsAnchor(a2) && sp.kind == TextNode && sp.children == []
    ensures LinkNodesOfAll([a1, sp, a2]) == [a1, a2]
  {
    LinkNodesOfOne(a1);
    assert LinkNodes(sp) == [] by { assert LinkNodesOfAll(sp.children) == []; }
    assert [a1, sp, a2][..2] == [a1, sp];
    assert [a1, sp][..1] == [a1];
    assert LinkNodesOfAll([a1, sp]) == [a1];
  }

  lemma TwoAnchorPage(h1: string, w1: string, h2: string, w2: string)
    requires h1 != "" && NoOuterSpace(w1) && h2 != "" && NoOuterSpace(w2)
    ensures LinksOf(Page([Anchor(h1, [TextNodeOf(w1)]), TextNodeOf(" "), Anchor(h2, [TextNodeOf(w2)])]))
         == [Link(h1, w1), Link(h2, w2)]
  {
    var a1 := Anchor(h1, [TextNodeOf(w1)]);
    var a2 := Anchor(h2, [TextNodeOf(w2)]);
    PageLinkNodes([a1, TextNodeOf(" "), a2]);
    TwoAnchorsAroundText(a1, TextNodeOf(" "), a2);
    AnchorLink(h1, w1);
    AnchorLink(h2, w2);
    assert [a1, a2][..1] == [a1];
    assert [a1][..0] == [];
    assert LinksFrom([a1]) == [Link(h1, w1)];
    assert LinksFrom([a1, a2]) == LinksFrom([a1]) + [Link(h2, w2)];
  }

  /** Sibling anchors come out in document order. */
  lemma MultipleLinksExample()
    ensures LinksOf(Page([Anchor("/about", [TextNodeOf("About")]), TextNodeOf(" "),
                          Anchor("/contact", [TextNodeOf("Contact")])]))
         == [Link("/about", "About"), Link("/contact", "Contact")]
  {
    TwoAnchorPage("/about", "About", "/contact", "Contact");
  }

  /** An anchor without an href, a document without anchors and an empty document yield no link. */
  lemma NoLinkExamples()
    ensures LinksOf(Page([Element("a", [], [TextNodeOf("Just text")])])) == []
    ensures LinksOf(Page([Element("div", [], [TextNodeOf("No links here")])])) == []
    ensures LinksOf(Page([])) == []
  {
    var a := Element("a", [], [TextNodeOf("Just text")]);
    PageLinkNodes([a]);
    LinkNodesOfOne(a);
    assert [a][..0] == [];
    var d := Element("div", [], [TextNodeOf("No links here")]);
    PageLinkNodes([d]);
    LinkNodesOfOne(d);
    LinkNodesOfOne(TextNodeOf("No links here"));
    PageLinkNodes([]);
  }

  /**
   * The text of an anchor includes the text of an anchor nested in it: the
   * text walk enters every element, `<a>` ones included.
   */
  lemma NestedAnchorTextIncluded()
    ensures LinkOf(Anchor("/outer", [TextNodeOf("Outer"), Anchor("/inner", [TextNodeOf("Inner")])]))
         == Some(Link("/outer", "Outer Inner"))
  {
    var inner := Anchor("/inner", [TextNodeOf("Inner")]);
    var outer := TextNodeOf("Outer");
    var cs := [outer, inner];
    assert cs[..1] == [outer];
    LinkNodesOfOne(outer);
    LinkNodesOfOne(TextNodeOf("Inner"));
    assert TextOfAll(cs) == "Outer " + "Inner ";
    assert "Outer " + "Inner " == "Outer Inner" + " ";
    TrimsOneTrailingSpace("Outer Inner");
  }
}
