/** The part of a parsed Markdown document (an mdast tree) the notes page works on,
    and `extractHeadings`: one `{level, text}` item per heading, in document order. */
module Markdown {

  /** An mdast node: the leaves the page looks at (`text`, `inlineCode`, `html`),
      headings with their depth, and every other parent node (paragraph, emphasis,
      strong, link, list, table cell, ...) under its type name. */
  datatype Node =
    | Text(value: string)
    | InlineCode(value: string)
    | Html(value: string)
    | Heading(depth: nat, children: seq<Node>)
    | Element(kind: string, children: seq<Node>)

  datatype Tree = Root(children: seq<Node>)

  datatype HeadingItem = HeadingItem(level: nat, text: string)

  /** The text of a heading: the values of its direct `text` and `inlineCode`
      children, joined; every other child contributes nothing. */
  function HeadingText(children: seq<Node>): string {
    if children == [] then []
    else
      var c := children[0];
      (if c.Text? || c.InlineCode? then c.value else []) + HeadingText(children[1..])
  }

  lemma {:induction false} HeadingTextConcat(a: seq<Node>, b: seq<Node>)
    ensures HeadingText(a + b) == HeadingText(a) + HeadingText(b)
  {
    if a == [] {
      assert a + b == b;
    } else {
      var piece := if a[0].Text? || a[0].InlineCode? then a[0].value else [];
      assert (a + b)[0] == a[0];
      assert (a + b)[1..] == a[1..] + b;
      calc {
        HeadingText(a + b);
        piece + HeadingText(a[1..] + b);
        { HeadingTextConcat(a[1..], b); }
        piece + (HeadingText(a[1..]) + HeadingText(b));
        (piece + HeadingText(a[1..])) + HeadingText(b);
        HeadingText(a) + HeadingText(b);
      }
    }
  }

  // ---------------------------------------------------------------------------
  // Headings in document order

  function HeadingsOf(n: Node): seq<HeadingItem>
    decreases n
  {
    match n
    case Heading(d, cs) => [HeadingItem(d, HeadingText(cs))] + HeadingsOfForest(cs)
    case Element(_, cs) => HeadingsOfForest(cs)
    case _ => []
  }

  function HeadingsOfForest(cs: seq<Node>): seq<HeadingItem>
    decreases cs
  {
    if cs == [] then [] else HeadingsOf(cs[0]) + HeadingsOfForest(cs[1..])
  }

  function Headings(t: Tree): seq<HeadingItem> {
    HeadingsOfForest(t.children)
  }

  lemma {:induction false} HeadingsOfForestConcat(a: seq<Node>, b: seq<Node>)
    ensures HeadingsOfForest(a + b) == HeadingsOfForest(a) + HeadingsOfForest(b)
  {
    if a == [] {
      assert a + b == b;
    } else {
      assert (a + b)[0] == a[0];
      assert (a + b)[1..] == a[1..] + b;
      HeadingsOfForestConcat(a[1..], b);
    }
  }

  /** How many nodes a forest holds, counting every descendant. */
  function Size(n: Node): nat
    decreases n
  {
    match n
    case Heading(_, cs) => 1 + ForestSize(cs)
    case Element(_, cs) => 1 + ForestSize(cs)
    case _ => 1
  }

  function ForestSize(cs: seq<Node>): nat
    decreases cs
  {
    if cs == [] then 0 else Size(cs[0]) + ForestSize(cs[1..])
  }

  lemma {:induction false} ForestSizeConcat(a: seq<Node>, b: seq<Node>)
    ensures ForestSize(a + b) == ForestSize(a) + ForestSize(b)
  {
    if a == [] {
      assert a + b == b;
    } else {
      assert (a + b)[0] == a[0];
      assert (a + b)[1..] == a[1..] + b;
      ForestSizeConcat(a[1..], b);
    }
  }

  /** The children of a node, empty for a leaf. */
  function ChildrenOf(n: Node): seq<Node> {
    if n.Heading? || n.Element? then n.children else []
  }

  /** `extractHeadings` over an already parsed tree: `visit(tree, 'heading', ...)` walks
      the tree in preorder and pushes one item per heading it meets. The walk is kept
      as a work list whose front is the next node to visit. */
  method ExtractHeadings(t: Tree) returns (headings: seq<HeadingItem>)
    ensures headings == Headings(t)
  {
    headings := [];
    var pending := t.children;
    while pending != []
      invariant headings + HeadingsOfForest(pending) == Headings(t)
      decreases ForestSize(pending)
    {
      var node := pending[0];
      var rest := pending[1..];
      assert pending == [node] + rest;
      VisitStep(node, rest);
      if node.Heading? {
        headings := headings + [HeadingItem(node.depth, HeadingText(node.children))];
      }
      pending := ChildrenOf(node) + rest;
    }
  }

  /** Visiting the front node of the work list: its own item, if it is a heading,
      then those of its children ahead of the rest; the list shrinks. */
  lemma VisitStep(node: Node, rest: seq<Node>)
    ensures HeadingsOfForest([node] + rest)
         == (if node.Heading? then [HeadingItem(node.depth, HeadingText(node.children))] else [])
            + HeadingsOfForest(ChildrenOf(node) + rest)
    ensures ForestSize(ChildrenOf(node) + rest) < ForestSize([node] + rest)
  {
    var pending := [node] + rest;
    assert pending[0] == node && pending[1..] == rest;
    NodeUnfold(node);
    HeadingsOfForestConcat(ChildrenOf(node), rest);
    ForestSizeConcat(ChildrenOf(node), rest);
  }

  /** A node's own item, if it is a heading, comes before those of its children, and
      the node outweighs its children. */
  lemma NodeUnfold(n: Node)
    ensures HeadingsOf(n)
         == (if n.Heading? then [HeadingItem(n.depth, HeadingText(n.children))] else [])
            + HeadingsOfForest(ChildrenOf(n))
    ensures Size(n) == 1 + ForestSize(ChildrenOf(n))
  {
    if !(n.Heading? || n.Element?) {
      assert ChildrenOf(n) == [];
    }
  }

  // ---------------------------------------------------------------------------
  // An independent reading of "document order"

  /** Every node of a forest, each before its descendants, siblings left to right. */
  function Preorder(n: Node): seq<Node>
    decreases n
  {
    match n
    case Heading(_, cs) => [n] + PreorderForest(cs)
    case Element(_, cs) => [n] + PreorderForest(cs)
    case _ => [n]
  }

  function PreorderForest(cs: seq<Node>): seq<Node>
    decreases cs
  {
    if cs == [] then [] else Preorder(cs[0]) + PreorderForest(cs[1..])
  }

  /** The item of each heading in a list of nodes, in list order. */
  function ItemsOf(nodes: seq<Node>): seq<HeadingItem> {
    if nodes == [] then []
    else
      (if nodes[0].Heading? then [HeadingItem(nodes[0].depth, HeadingText(nodes[0].children))] else [])
      + ItemsOf(nodes[1..])
  }

  lemma {:induction false} ItemsOfConcat(a: seq<Node>, b: seq<Node>)
    ensures ItemsOf(a + b) == ItemsOf(a) + ItemsOf(b)
  {
    if a == [] {
      assert a + b == b;
    } else {
      assert (a + b)[0] == a[0];
      assert (a + b)[1..] == a[1..] + b;
      ItemsOfConcat(a[1..], b);
    }
  }

  /** The headings are exactly the heading nodes of the preorder listing, one item each,
      in that order. */
  lemma {:induction false} HeadingsArePreorderHeadings(n: Node)
    ensures HeadingsOf(n) == ItemsOf(Preorder(n))
    decreases n
  {
    ItemsOfConcat([n], PreorderForest(ChildrenOf(n)));
    assert Preorder(n) == [n] + PreorderForest(ChildrenOf(n));
    assert ItemsOf([n]) == (if n.Heading? then [HeadingItem(n.depth, HeadingText(n.children))] else []) + ItemsOf([]);
    match n
    case Heading(_, cs) => ForestHeadingsArePreorderHeadings(cs);
    case Element(_, cs) => ForestHeadingsArePreorderHeadings(cs);
    case _ =>
  }

  lemma {:induction false} ForestHeadingsArePreorderHeadings(cs: seq<Node>)
    ensures HeadingsOfForest(cs) == ItemsOf(PreorderForest(cs))
    decreases cs
  {
    if cs != [] {
      HeadingsArePreorderHeadings(cs[0]);
      ForestHeadingsArePreorderHeadings(cs[1..]);
      ItemsOfConcat(Preorder(cs[0]), PreorderForest(cs[1..]));
    }
  }

  /** `# A` followed by `## B` with `inline` code and emphasis: two items, the
      emphasised word left out of the text. */
  lemma TwoHeadingsExample(t: Tree)
    requires t == Root([
      Heading(1, [Text("A")]),
      Element("paragraph", [Text("body")]),
      Heading(2, [Text("B "), InlineCode("x"), Element("emphasis", [Text("y")])])
    ])
    ensures Headings(t) == [HeadingItem(1, "A"), HeadingItem(2, "B x")]
  {
    var cs := t.children;
    SingleTextChild(cs[0].children, "A");
    SingleTextChild(cs[1].children, "body");
    SecondHeadingChildren(cs[2].children);
    assert HeadingsOf(cs[0]) == [HeadingItem(1, "A")];
    assert HeadingsOf(cs[1]) == [];
    assert HeadingsOf(cs[2]) == [HeadingItem(2, "B x")];
    assert cs[1..][1..][1..] == [];
    assert HeadingsOfForest(cs[2..]) == [HeadingItem(2, "B x")];
    assert HeadingsOfForest(cs[1..]) == [HeadingItem(2, "B x")];
  }

  lemma SingleTextChild(cs: seq<Node>, v: string)
    requires cs == [Text(v)]
    ensures HeadingText(cs) == v && HeadingsOfForest(cs) == []
  {
    assert cs[1..] == [];
  }

  lemma SecondHeadingChildren(cs: seq<Node>)
    requires cs == [Text("B "), InlineCode("x"), Element("emphasis", [Text("y")])]
    ensures HeadingText(cs) == "B x" && HeadingsOfForest(cs) == []
  {
    SingleTextChild(cs[2].children, "y");
    assert cs[1..][1..][1..] == [];
    assert HeadingText(cs[2..]) == [];
    assert HeadingText(cs[1..]) == "x";
    assert HeadingsOfForest(cs[2..]) == [];
    assert HeadingsOfForest(cs[1..]) == [];
  }
}
