/**
 * `generate_toc` and its inner `build_node`: the book's table of contents,
 * a tree of (href, title, children) nodes, becomes a `<ul>` of `<li>`/`<a>`
 * entries nested as the tree is, wrapped in a `<div>`.  The root's own href
 * and title are never emitted; a nested `<ul>` is opened only inside the
 * `<li>` of a node that has children.  lxml's element tree is modelled by
 * the `Element` datatype; its pretty-printed serialisation is not modelled.
 */
module Toc {
  import opened Paths
  import opened Rename
  import opened Context

  datatype TocNode = TocNode(href: string, title: string, nodes: seq<TocNode>)

  /** An lxml element: tag, attributes, text (empty when lxml has none) and children. */
  datatype Element = Element(tag: string, attrs: map<string, string>, text: string, children: seq<Element>)

  /** The characters Python's `\s` matches in a `str` pattern (those for which `str.isspace` holds). */
  predicate IsSpace(c: char)
  {
    ('\t' <= c <= '\r') || ('\U{1C}' <= c <= '\U{1F}') || c == ' ' || c == '\U{85}' || c == '\U{A0}'
    || c == '\U{1680}' || ('\U{2000}' <= c <= '\U{200A}') || c == '\U{2028}' || c == '\U{2029}'
    || c == '\U{202F}' || c == '\U{205F}' || c == '\U{3000}'
  }

  /** The end of the whitespace run that starts at `k`. */
  function RunEnd(t: string, k: nat): (j: nat)
    requires k <= |t|
    ensures k <= j <= |t| && (j < |t| ==> !IsSpace(t[j]))
    ensures forall m :: k <= m < j ==> IsSpace(t[m])
    decreases |t| - k
  {
    if k < |t| && IsSpace(t[k]) then RunEnd(t, k + 1) else k
  }

  /**
   * `re.sub(r'\s+', ' ', t[k..])`: scanning left to right, each maximal run
   * of whitespace becomes one space.
   */
  function CollapseFrom(t: string, k: nat): (r: string)
    requires k <= |t|
    ensures forall m :: 0 <= m < |r| && IsSpace(r[m]) ==> r[m] == ' '
    ensures forall m :: 0 <= m < |r| - 1 ==> !(IsSpace(r[m]) && IsSpace(r[m + 1]))
    ensures k < |t| ==> |r| > 0 && (IsSpace(r[0]) <==> IsSpace(t[k]))
    ensures k == |t| ==> r == []
    decreases |t| - k
  {
    if k == |t| then []
    else if IsSpace(t[k]) then
      var j := RunEnd(t, k + 1);
      [' '] + CollapseFrom(t, j)
    else [t[k]] + CollapseFrom(t, k + 1)
  }

  function CollapseWhitespace(t: string): (r: string)
    ensures forall m :: 0 <= m < |r| && IsSpace(r[m]) ==> r[m] == ' '
    ensures forall m :: 0 <= m < |r| - 1 ==> !(IsSpace(r[m]) && IsSpace(r[m + 1]))
    ensures r == [] <==> t == []
  {
    CollapseFrom(t, 0)
  }

  /**
   * A reference reading of `\s+` -> `' '`, character by character: a
   * non-space character is kept, the first whitespace character of a run
   * becomes a space, the rest of the run is dropped.
   */
  function Emit(t: string, k: nat): string
    requires k < |t|
  {
    if !IsSpace(t[k]) then [t[k]]
    else if k > 0 && IsSpace(t[k - 1]) then []
    else [' ']
  }

  function EmitFrom(t: string, k: nat): string
    requires k <= |t|
    decreases |t| - k
  {
    if k == |t| then [] else Emit(t, k) + EmitFrom(t, k + 1)
  }

  /** Inside a run, the reference reading emits nothing until the run ends. */
  lemma {:induction false} EmitFromInsideRun(t: string, k: nat)
    requires 0 < k <= |t| && IsSpace(t[k - 1])
    ensures EmitFrom(t, k) == EmitFrom(t, RunEnd(t, k))
    decreases |t| - k
  {
    if k < |t| && IsSpace(t[k]) {
      EmitFromInsideRun(t, k + 1);
    }
  }

  lemma {:induction false} CollapseFromIsEmitFrom(t: string, k: nat)
    requires k <= |t|
    requires k == 0 || k == |t| || !IsSpace(t[k - 1]) || !IsSpace(t[k])
    ensures CollapseFrom(t, k) == EmitFrom(t, k)
    decreases |t| - k
  {
    if k < |t| {
      if IsSpace(t[k]) {
        EmitFromInsideRun(t, k + 1);
        CollapseFromIsEmitFrom(t, RunEnd(t, k + 1));
      } else {
        CollapseFromIsEmitFrom(t, k + 1);
      }
    }
  }

  /** The run-by-run scan agrees with the character-by-character reading. */
  lemma CollapseWhitespaceIsEmit(t: string)
    ensures CollapseWhitespace(t) == EmitFrom(t, 0)
  {
    CollapseFromIsEmitFrom(t, 0);
  }

  /** The link text of a node: its title with whitespace runs collapsed, an empty title left as it is. */
  function LinkText(title: string): string
  {
    if title != [] then CollapseWhitespace(title) else title
  }

  /** `relpath(abspath(unquote(href)), dirname(ref_url))`, renamed: where the `<a>` of a node points. */
  function LinkHref(env: Env, ref: Path, href: string): string
    requires ValidEnv(env) && ValidPath(ref)
  {
    RenameExtensionToHtml(RelPath(AbsPath(env.outputDir, env.unquote(href)), DirName(ref)))
  }

  /** The `<a>` emitted for a node. */
  function LinkFor(env: Env, ref: Path, node: TocNode): (a: Element)
    requires ValidEnv(env) && ValidPath(ref)
    ensures a.tag == "a" && a.attrs.Keys == {"href"} && a.children == []
  {
    Element("a", map["href" := env.cleanXmlChars(LinkHref(env, ref, node.href))],
            env.cleanXmlChars(LinkText(node.title)), [])
  }

  /** The `<ul>` that `build_node` fills with one `<li>` per child of `node`. */
  function ListFor(env: Env, ref: Path, node: TocNode): (u: Element)
    requires ValidEnv(env) && ValidPath(ref)
    ensures u.tag == "ul" && u.children == ItemsFor(env, ref, node.nodes)
    decreases node, 0
  {
    Element("ul", map[], [], ItemsFor(env, ref, node.nodes))
  }

  /** One `<li>` per node, in order. */
  function ItemsFor(env: Env, ref: Path, nodes: seq<TocNode>): (items: seq<Element>)
    requires ValidEnv(env) && ValidPath(ref)
    ensures |items| == |nodes|
    ensures forall i :: 0 <= i < |nodes| ==> items[i] == ItemFor(env, ref, nodes[i])
    decreases nodes, 0
  {
    if nodes == [] then [] else [ItemFor(env, ref, nodes[0])] + ItemsFor(env, ref, nodes[1..])
  }

  /** The `<li>` of one node: its `<a>`, then a nested `<ul>` only when the node has children. */
  function ItemFor(env: Env, ref: Path, node: TocNode): (li: Element)
    requires ValidEnv(env) && ValidPath(ref)
    ensures li.tag == "li" && |li.children| >= 1 && li.children[0] == LinkFor(env, ref, node)
    ensures |li.children| == 2 <==> node.nodes != []
    ensures node.nodes != [] ==> li.children[1] == ListFor(env, ref, node)
    decreases node, 1
  {
    Element("li", map[], [], [LinkFor(env, ref, node)] + (if node.nodes != [] then [ListFor(env, ref, node)] else []))
  }

  /** `generate_toc(oeb_book, ref_url, output_dir)`: the root's list wrapped in a `<div>`. */
  function GenerateToc(env: Env, root: TocNode, ref: Path): (d: Element)
    requires ValidEnv(env) && ValidPath(ref)
    ensures d.tag == "div" && |d.children| == 1 && d.children[0].tag == "ul"
    ensures root.nodes == [] ==> d.children[0] == Element("ul", map[], [], [])
  {
    assert root.nodes == [] ==> ItemsFor(env, ref, root.nodes) == [];
    Element("div", map[], [], [ListFor(env, ref, root)])
  }

  /** The nodes below `node`, in pre-order; the root itself is not among them. */
  function Descendants(node: TocNode): seq<TocNode>
    decreases node, 1
  {
    DescendantsOf(node.nodes)
  }

  function DescendantsOf(nodes: seq<TocNode>): seq<TocNode>
    decreases nodes, 0
  {
    if nodes == [] then [] else [nodes[0]] + Descendants(nodes[0]) + DescendantsOf(nodes[1..])
  }

  /** How many of `nodes` have children. */
  function WithChildren(nodes: seq<TocNode>): nat
  {
    if nodes == [] then 0 else (if nodes[0].nodes != [] then 1 else 0) + WithChildren(nodes[1..])
  }

  function Links(env: Env, ref: Path, nodes: seq<TocNode>): seq<Element>
    requires ValidEnv(env) && ValidPath(ref)
  {
    if nodes == [] then [] else [LinkFor(env, ref, nodes[0])] + Links(env, ref, nodes[1..])
  }

  /** The `<a>` elements of a tree, in document order. */
  function Anchors(e: Element): seq<Element>
    decreases e, 1
  {
    (if e.tag == "a" then [e] else []) + AnchorsOf(e.children)
  }

  function AnchorsOf(es: seq<Element>): seq<Element>
    decreases es, 0
  {
    if es == [] then [] else Anchors(es[0]) + AnchorsOf(es[1..])
  }

  /** The tags of a tree, in document order. */
  function Tags(e: Element): seq<string>
    decreases e, 1
  {
    [e.tag] + TagsOf(e.children)
  }

  function TagsOf(es: seq<Element>): seq<string>
    decreases es, 0
  {
    if es == [] then [] else Tags(es[0]) + TagsOf(es[1..])
  }

  /** The tags one TOC node contributes: `<li>`, `<a>`, and `<ul>` when it has children. */
  function NodeTags(node: TocNode): seq<string>
  {
    ["li", "a"] + (if node.nodes != [] then ["ul"] else [])
  }

  function NodeTagsOf(nodes: seq<TocNode>): seq<string>
  {
    if nodes == [] then [] else NodeTags(nodes[0]) + NodeTagsOf(nodes[1..])
  }

  lemma {:induction false} AnchorsOfAppend(a: seq<Element>, b: seq<Element>)
    ensures AnchorsOf(a + b) == AnchorsOf(a) + AnchorsOf(b)
  {
    if a == [] {
      assert a + b == b;
    } else {
      assert (a + b)[0] == a[0] && (a + b)[1..] == a[1..] + b;
      AnchorsOfAppend(a[1..], b);
    }
  }

  lemma {:induction false} TagsOfAppend(a: seq<Element>, b: seq<Element>)
    ensures TagsOf(a + b) == TagsOf(a) + TagsOf(b)
  {
    if a == [] {
      assert a + b == b;
    } else {
      assert (a + b)[0] == a[0] && (a + b)[1..] == a[1..] + b;
      TagsOfAppend(a[1..], b);
    }
  }

  lemma {:induction false} LinksAppend(env: Env, ref: Path, a: seq<TocNode>, b: seq<TocNode>)
    requires ValidEnv(env) && ValidPath(ref)
    ensures Links(env, ref, a + b) == Links(env, ref, a) + Links(env, ref, b)
  {
    if a == [] {
      assert a + b == b;
    } else {
      assert (a + b)[0] == a[0] && (a + b)[1..] == a[1..] + b;
      LinksAppend(env, ref, a[1..], b);
    }
  }

  lemma {:induction false} NodeTagsOfAppend(a: seq<TocNode>, b: seq<TocNode>)
    ensures NodeTagsOf(a + b) == NodeTagsOf(a) + NodeTagsOf(b)
  {
    if a == [] {
      assert a + b == b;
    } else {
      assert (a + b)[0] == a[0] && (a + b)[1..] == a[1..] + b;
      NodeTagsOfAppend(a[1..], b);
    }
  }

  lemma {:induction false} ListAnchors(env: Env, ref: Path, node: TocNode)
    requires ValidEnv(env) && ValidPath(ref)
    ensures Anchors(ListFor(env, ref, node)) == Links(env, ref, Descendants(node))
    decreases node, 0
  {
    ItemsAnchors(env, ref, node.nodes);
  }

  lemma {:induction false} ItemsAnchors(env: Env, ref: Path, nodes: seq<TocNode>)
    requires ValidEnv(env) && ValidPath(ref)
    ensures AnchorsOf(ItemsFor(env, ref, nodes)) == Links(env, ref, DescendantsOf(nodes))
    decreases nodes, 0
  {
    if nodes != [] {
      var first := ItemFor(env, ref, nodes[0]);
      var rest := ItemsFor(env, ref, nodes[1..]);
      AnchorsOfAppend([first], rest);
      assert AnchorsOf([first]) == Anchors(first);
      ItemAnchors(env, ref, nodes[0]);
      ItemsAnchors(env, ref, nodes[1..]);
      LinksAppend(env, ref, [nodes[0]] + Descendants(nodes[0]), DescendantsOf(nodes[1..]));
      LinksAppend(env, ref, [nodes[0]], Descendants(nodes[0]));
    }
  }

  lemma {:induction false} ItemAnchors(env: Env, ref: Path, node: TocNode)
    requires ValidEnv(env) && ValidPath(ref)
    ensures Anchors(ItemFor(env, ref, node)) == [LinkFor(env, ref, node)] + Links(env, ref, Descendants(node))
    decreases node, 1
  {
    var a := LinkFor(env, ref, node);
    assert Anchors(a) == [a];
    if node.nodes == [] {
      assert AnchorsOf([a]) == [a];
    } else {
      var ul := ListFor(env, ref, node);
      AnchorsOfAppend([a], [ul]);
      assert AnchorsOf([ul]) == Anchors(ul);
      ListAnchors(env, ref, node);
    }
  }

  lemma {:induction false} ListTags(env: Env, ref: Path, node: TocNode)
    requires ValidEnv(env) && ValidPath(ref)
    ensures Tags(ListFor(env, ref, node)) == ["ul"] + NodeTagsOf(Descendants(node))
    decreases node, 0
  {
    ItemsTags(env, ref, node.nodes);
  }

  lemma {:induction false} ItemsTags(env: Env, ref: Path, nodes: seq<TocNode>)
    requires ValidEnv(env) && ValidPath(ref)
    ensures TagsOf(ItemsFor(env, ref, nodes)) == NodeTagsOf(DescendantsOf(nodes))
    decreases nodes, 0
  {
    if nodes != [] {
      var first := ItemFor(env, ref, nodes[0]);
      var rest := ItemsFor(env, ref, nodes[1..]);
      TagsOfAppend([first], rest);
      assert TagsOf([first]) == Tags(first);
      ItemTags(env, ref, nodes[0]);
      ItemsTags(env, ref, nodes[1..]);
      NodeTagsOfAppend([nodes[0]] + Descendants(nodes[0]), DescendantsOf(nodes[1..]));
      NodeTagsOfAppend([nodes[0]], Descendants(nodes[0]));
      assert NodeTagsOf([nodes[0]]) == NodeTags(nodes[0]);
    }
  }

  lemma {:induction false} ItemTags(env: Env, ref: Path, node: TocNode)
    requires ValidEnv(env) && ValidPath(ref)
    ensures Tags(ItemFor(env, ref, node)) == NodeTags(node) + NodeTagsOf(Descendants(node))
    decreases node, 1
  {
    var a := LinkFor(env, ref, node);
    assert Tags(a) == ["a"];
    if node.nodes == [] {
      assert TagsOf([a]) == ["a"];
      assert Descendants(node) == [];
    } else {
      var ul := ListFor(env, ref, node);
      TagsOfAppend([a], [ul]);
      assert TagsOf([ul]) == Tags(ul);
      ListTags(env, ref, node);
    }
  }

  /**
   * The TOC's links are those of the non-root nodes, one each, in pre-order,
   * each carrying the node's relativised, renamed href and collapsed title.
   */
  lemma TocLinksInPreorder(env: Env, root: TocNode, ref: Path)
    requires ValidEnv(env) && ValidPath(ref)
    ensures Anchors(GenerateToc(env, root, ref)) == Links(env, ref, Descendants(root))
  {
    var ul := ListFor(env, ref, root);
    ListAnchors(env, ref, root);
    assert AnchorsOf([ul]) == Anchors(ul);
  }

  /**
   * The TOC's skeleton in document order: the `<div>`, the root `<ul>`, then
   * for each non-root node in pre-order its `<li>`, its `<a>`, and a `<ul>`
   * exactly when it has children.
   */
  lemma TocSkeleton(env: Env, root: TocNode, ref: Path)
    requires ValidEnv(env) && ValidPath(ref)
    ensures Tags(GenerateToc(env, root, ref)) == ["div", "ul"] + NodeTagsOf(Descendants(root))
  {
    var d := GenerateToc(env, root, ref);
    assert d.children[0] == ListFor(env, ref, root);
    ListTags(env, ref, root);
    SingleChildTags(d);
  }

  lemma SingleChildTags(d: Element)
    requires |d.children| == 1
    ensures Tags(d) == [d.tag] + Tags(d.children[0])
  {
    assert d.children[1..] == [];
    assert TagsOf(d.children) == Tags(d.children[0]) + TagsOf([]);
  }

  lemma {:induction false} NodeTagsCount(nodes: seq<TocNode>)
    ensures multiset(NodeTagsOf(nodes))["li"] == |nodes|
    ensures multiset(NodeTagsOf(nodes))["a"] == |nodes|
    ensures multiset(NodeTagsOf(nodes))["ul"] == WithChildren(nodes)
    ensures multiset(NodeTagsOf(nodes))["div"] == 0
  {
    if nodes != [] {
      NodeTagsCount(nodes[1..]);
    }
  }

  /** One `<div>`, one `<li>` and one `<a>` per non-root node, and one `<ul>` plus one per non-root node with children. */
  lemma TocCounts(env: Env, root: TocNode, ref: Path)
    requires ValidEnv(env) && ValidPath(ref)
    ensures var tags := multiset(Tags(GenerateToc(env, root, ref)));
      && tags["div"] == 1
      && tags["li"] == |Descendants(root)|
      && tags["a"] == |Descendants(root)|
      && tags["ul"] == 1 + WithChildren(Descendants(root))
  {
    TocSkeleton(env, root, ref);
    NodeTagsCount(Descendants(root));
  }
}
