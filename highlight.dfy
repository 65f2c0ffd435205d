/** `remarkHighlight(term)`: every `text` node of the tree whose value contains the
    term is cut around its matches, each match becomes an `html` node holding the
    match inside a fixed `<span>`, the text between matches stays `text`, and the new
    nodes are spliced into the parent in place of the old one. */
module Highlight {
  import opened Wrappers
  import opened Strings
  import opened Matching
  import opened Markdown

  const SpanOpen: string := "<span class=\"bg-yellow-300 font-bold text-yellow-800\">"
  const SpanClose: string := "</span>"

  /** The `html` value that stands for a match. */
  function Wrap(m: string): string {
    SpanOpen + m + SpanClose
  }

  /** Reads a match back out of its markup; `None` for any other markup. */
  function Unwrap(h: string): Option<string> {
    if |h| >= |SpanOpen| + |SpanClose| && h[..|SpanOpen|] == SpanOpen && h[|h| - |SpanClose|..] == SpanClose
    then Some(h[|SpanOpen|..|h| - |SpanClose|])
    else None
  }

  /** The markup keeps the match verbatim: it can be read back exactly. */
  lemma UnwrapWrap(m: string)
    ensures Unwrap(Wrap(m)) == Some(m)
  {
    var h := Wrap(m);
    assert h[..|SpanOpen|] == SpanOpen;
    assert h[|h| - |SpanClose|..] == SpanClose;
    assert h[|SpanOpen|..|h| - |SpanClose|] == m;
  }

  // ---------------------------------------------------------------------------
  // One text node

  /** `parts.map(...)` for one part: `regex.test(part)` decides whether it is a match. */
  function Mark(part: string, term: string): Node
    requires |term| > 0
  {
    if Count(part, term) > 0 then Html(Wrap(part)) else Text(part)
  }

  function MarkAll(parts: seq<string>, term: string): (r: seq<Node>)
    requires |term| > 0
    ensures |r| == |parts|
    ensures forall i :: 0 <= i < |parts| ==> r[i] == Mark(parts[i], term)
  {
    if parts == [] then [] else [Mark(parts[0], term)] + MarkAll(parts[1..], term)
  }

  /** The node a part becomes by its position: odd positions hold the matches. */
  function Segment(part: string, k: nat): Node {
    if k % 2 == 1 then Html(Wrap(part)) else Text(part)
  }

  function SegmentsFrom(parts: seq<string>, k: nat): (r: seq<Node>)
    ensures |r| == |parts|
    ensures forall i :: 0 <= i < |parts| ==> r[i] == Segment(parts[i], k + i)
  {
    if parts == [] then [] else [Segment(parts[0], k)] + SegmentsFrom(parts[1..], k + 1)
  }

  /** What a text node with value `v` is replaced by: the marked parts of the split
      when there is more than one part, otherwise the node itself. */
  function HighlightText(v: string, term: string): seq<Node>
    requires |term| > 0
  {
    var parts := Split(v, term);
    if |parts| > 1 then MarkAll(parts, term) else [Text(v)]
  }

  /** Testing each part marks exactly the parts at odd positions. */
  lemma MarkAllIsPositional(v: string, term: string)
    requires |term| > 0
    ensures MarkAll(Split(v, term), term) == SegmentsFrom(Split(v, term), 0)
  {
    var parts := Split(v, term);
    forall k | 0 <= k < |parts|
      ensures Count(parts[k], term) > 0 <==> k % 2 == 1
    {
      SplitPartsClassified(v, term, k);
    }
    MarkAlternating(parts, term);
  }

  lemma MarkAlternating(parts: seq<string>, term: string)
    requires |term| > 0
    requires forall k :: 0 <= k < |parts| ==> (Count(parts[k], term) > 0 <==> k % 2 == 1)
    ensures MarkAll(parts, term) == SegmentsFrom(parts, 0)
  {
    var marked := MarkAll(parts, term);
    var segments := SegmentsFrom(parts, 0);
    forall k | 0 <= k < |parts|
      ensures marked[k] == segments[k]
    {
    }
  }

  /** A text node without a match is left as it is. */
  lemma HighlightTextNoMatch(v: string, term: string)
    requires |term| > 0 && Count(v, term) == 0
    ensures HighlightText(v, term) == [Text(v)]
  {
    SplitOddParts(v, term);
  }

  /** Whether or not there are matches, the replacement is the split read by
      position, with `2 * Count + 1` nodes. */
  lemma HighlightTextIsSegments(v: string, term: string)
    requires |term| > 0
    ensures HighlightText(v, term) == SegmentsFrom(Split(v, term), 0)
    ensures |HighlightText(v, term)| == 2 * Count(v, term) + 1
  {
    var parts := Split(v, term);
    SplitOddParts(v, term);
    if |parts| > 1 {
      MarkAllIsPositional(v, term);
    } else {
      CountIsLength(v, term);
      assert parts == [v[0..]];
      assert v[0..] == v;
    }
  }

  /** The node at odd position `2k + 1` is the `k`-th match, in its own casing, wrapped
      in the span; it equals the term up to case. */
  lemma HighlightTextMatch(v: string, term: string, k: nat)
    requires |term| > 0 && k < |Starts(v, term)|
    ensures var q := Starts(v, term)[k];
      && q + |term| <= |v|
      && HighlightText(v, term)[2 * k + 1] == Html(Wrap(v[q..q + |term|]))
      && Lower(v[q..q + |term|]) == Lower(term)
  {
    HighlightTextIsSegments(v, term);
    SplitOddParts(v, term);
    Parity(k);
  }

  /** The node at even position `2k` is the text between the `k`-th match and the one
      before it (no match starts inside it: `SplitPlainPartsHaveNoMatchStart`). */
  lemma HighlightTextPlain(v: string, term: string, k: nat)
    requires |term| > 0 && k <= |Starts(v, term)|
    ensures var ps := Starts(v, term);
      var a := PlainStart(ps, |term|, 0, k);
      var b := PlainEnd(ps, |v|, k);
      && a <= b <= |v|
      && HighlightText(v, term)[2 * k] == Text(v[a..b])
  {
    HighlightTextIsSegments(v, term);
    CountIsLength(v, term);
    SplitEvenParts(v, term, k);
    var parts := Split(v, term);
    var ps := Starts(v, term);
    var plain := v[PlainStart(ps, |term|, 0, k)..PlainEnd(ps, |v|, k)];
    assert parts[2 * k] == plain;
    Parity(k);
    assert SegmentsFrom(parts, 0)[2 * k] == Text(plain);
  }

  lemma Parity(k: nat)
    ensures (2 * k) % 2 == 0 && (2 * k + 1) % 2 == 1
  {
  }

  /** The text a list of replacement nodes stands for: plain text as it is, the match
      read back out of each span. */
  function Restore(nodes: seq<Node>): string {
    if nodes == [] then []
    else
      var n := nodes[0];
      var here := match n
        case Text(x) => x
        case Html(h) => Unwrap(h).GetOr(h)
        case _ => [];
      here + Restore(nodes[1..])
  }

  lemma {:induction false} RestoreSegments(parts: seq<string>, k: nat)
    ensures Restore(SegmentsFrom(parts, k)) == Join(parts)
  {
    if parts != [] {
      var r := SegmentsFrom(parts, k);
      assert r[1..] == SegmentsFrom(parts[1..], k + 1);
      RestoreSegments(parts[1..], k + 1);
      UnwrapWrap(parts[0]);
    }
  }

  /** Highlighting loses nothing: the replacement nodes spell out the original value. */
  lemma HighlightTextRestores(v: string, term: string)
    requires |term| > 0
    ensures Restore(HighlightText(v, term)) == v
  {
    var parts := Split(v, term);
    SplitJoin(v, term);
    if |parts| > 1 {
      MarkAllIsPositional(v, term);
      RestoreSegments(parts, 0);
    }
  }

  // ---------------------------------------------------------------------------
  // The whole tree

  /** A walk over the tree that replaces every text node `Text(v)` by the nodes `f(v)`,
      keeps every other leaf, and descends into parent nodes. */
  function ReplaceTexts(n: Node, f: string -> seq<Node>): seq<Node>
    decreases n
  {
    match n
    case Text(v) => f(v)
    case Heading(d, cs) => [Heading(d, ReplaceTextsForest(cs, f))]
    case Element(kind, cs) => [Element(kind, ReplaceTextsForest(cs, f))]
    case _ => [n]
  }

  function ReplaceTextsForest(cs: seq<Node>, f: string -> seq<Node>): seq<Node>
    decreases cs
  {
    if cs == [] then [] else ReplaceTexts(cs[0], f) + ReplaceTextsForest(cs[1..], f)
  }

  /** The visitor's replacement for one text node. */
  function Highlighter(term: string): string -> seq<Node> {
    v => if term == [] then [Text(v)] else HighlightText(v, term)
  }

  /** The plugin: `if (!searchTerm) return` leaves the tree alone; otherwise every
      text node is replaced by its highlighted parts. */
  function HighlightTree(t: Tree, term: string): Tree {
    if term == [] then t else Root(ReplaceTextsForest(t.children, Highlighter(term)))
  }

  lemma {:induction false} ReplaceTextsConcat(a: seq<Node>, b: seq<Node>, f: string -> seq<Node>)
    ensures ReplaceTextsForest(a + b, f) == ReplaceTextsForest(a, f) + ReplaceTextsForest(b, f)
  {
    if a == [] {
      assert a + b == b;
    } else {
      assert (a + b)[0] == a[0];
      assert (a + b)[1..] == a[1..] + b;
      ReplaceTextsConcat(a[1..], b, f);
    }
  }

  lemma ReplaceTextsSnoc(cs: seq<Node>, i: nat, f: string -> seq<Node>)
    requires i < |cs|
    ensures ReplaceTextsForest(cs[..i + 1], f) == ReplaceTextsForest(cs[..i], f) + ReplaceTexts(cs[i], f)
  {
    assert cs[..i + 1] == cs[..i] + [cs[i]];
    ReplaceTextsConcat(cs[..i], [cs[i]], f);
    assert [cs[i]][1..] == [];
  }

  /** `visit(tree, 'text', ...)` over one children list: the loop walks
      `parent.children` by index, splices a text node's replacement in and resumes
      after it (`return index + newNodes.length`), and descends into parent nodes. */
  method HighlightChildren(children: seq<Node>, term: string) returns (kids: seq<Node>)
    requires |term| > 0
    ensures kids == ReplaceTextsForest(children, Highlighter(term))
    decreases children
  {
    ghost var f := Highlighter(term);
    kids := children;
    var index := 0;
    ghost var done := 0;
    while index < |kids|
      invariant done <= |children|
      invariant kids == ReplaceTextsForest(children[..done], f) + children[done..]
      invariant index == |ReplaceTextsForest(children[..done], f)|
      decreases |children| - done
    {
      SpliceAt(children, done, f, kids, index);
      var node := kids[index];
      assert node == children[done] && node in children;
      var newNodes := HighlightNode(node, term);
      SpliceStep(children, done, f, kids, index, newNodes);
      kids := kids[..index] + newNodes + kids[index + 1..];
      index := index + |newNodes|;
      done := done + 1;
    }
    assert |kids| == index + |children| - done;
    assert children[..done] == children;
  }

  /** What the visitor puts in place of one node: a text node with at least one match
      becomes its split parts, marked; a heading or other parent keeps its place and
      has its own children visited; every other node stays as it is. */
  method HighlightNode(node: Node, term: string) returns (newNodes: seq<Node>)
    requires |term| > 0
    ensures newNodes == ReplaceTexts(node, Highlighter(term))
    decreases node
  {
    match node {
      case Text(v) =>
        assert Highlighter(term)(v) == HighlightText(v, term);
        var parts := Split(v, term);
        if |parts| > 1 {
          newNodes := MarkAll(parts, term);
        } else {
          newNodes := [node];
        }
      case Heading(d, cs) =>
        var newChildren := HighlightChildren(cs, term);
        newNodes := [Heading(d, newChildren)];
      case Element(kind, cs) =>
        var newChildren := HighlightChildren(cs, term);
        newNodes := [Element(kind, newChildren)];
      case InlineCode(_) =>
        newNodes := [node];
      case Html(_) =>
        newNodes := [node];
    }
  }

  /** The node at the visitor's index is the next unvisited child, and the rest of the
      list is still the unvisited children after it. */
  lemma SpliceAt(children: seq<Node>, done: nat, f: string -> seq<Node>, kids: seq<Node>, index: nat)
    requires done <= |children|
    requires kids == ReplaceTextsForest(children[..done], f) + children[done..]
    requires index == |ReplaceTextsForest(children[..done], f)|
    requires index < |kids|
    ensures done < |children| && kids[index] == children[done]
    ensures kids == kids[..index] + [kids[index]] + kids[index + 1..]
  {
  }

  /** Splicing the replacement of the next child in at the index extends the visited
      prefix by one child. */
  lemma SpliceStep(children: seq<Node>, done: nat, f: string -> seq<Node>, kids: seq<Node>, index: nat,
                   repl: seq<Node>)
    requires done < |children|
    requires kids == ReplaceTextsForest(children[..done], f) + children[done..]
    requires index == |ReplaceTextsForest(children[..done], f)|
    requires repl == ReplaceTexts(children[done], f)
    ensures kids[..index] + repl + kids[index + 1..]
         == ReplaceTextsForest(children[..done + 1], f) + children[done + 1..]
    ensures index + |repl| == |ReplaceTextsForest(children[..done + 1], f)|
  {
    ReplaceTextsSnoc(children, done, f);
    assert kids[..index] == ReplaceTextsForest(children[..done], f);
    assert kids[index + 1..] == children[done + 1..];
  }

  method RemarkHighlight(t: Tree, term: string) returns (out: Tree)
    ensures out == HighlightTree(t, term)
  {
    if term == [] {
      return t;
    }
    var kids := HighlightChildren(t.children, term);
    out := Root(kids);
  }

  // ---------------------------------------------------------------------------
  // What highlighting keeps

  /** No text node of the forest contains the term. */
  predicate NoMatchIn(n: Node, term: string)
    requires |term| > 0
    decreases n
  {
    match n
    case Text(v) => Count(v, term) == 0
    case Heading(_, cs) => NoMatchInForest(cs, term)
    case Element(_, cs) => NoMatchInForest(cs, term)
    case _ => true
  }

  predicate NoMatchInForest(cs: seq<Node>, term: string)
    requires |term| > 0
    decreases cs
  {
    cs == [] || (NoMatchIn(cs[0], term) && NoMatchInForest(cs[1..], term))
  }

  /** A tree in which the term occurs in no text node comes out unchanged. */
  lemma {:induction false} UnchangedWithoutMatches(n: Node, term: string)
    requires |term| > 0 && NoMatchIn(n, term)
    ensures ReplaceTexts(n, Highlighter(term)) == [n]
    decreases n
  {
    match n
    case Text(v) => HighlightTextNoMatch(v, term);
    case Heading(_, cs) => ForestUnchangedWithoutMatches(cs, term);
    case Element(_, cs) => ForestUnchangedWithoutMatches(cs, term);
    case _ =>
  }

  lemma {:induction false} ForestUnchangedWithoutMatches(cs: seq<Node>, term: string)
    requires |term| > 0 && NoMatchInForest(cs, term)
    ensures ReplaceTextsForest(cs, Highlighter(term)) == cs
    decreases cs
  {
    if cs != [] {
      UnchangedWithoutMatches(cs[0], term);
      ForestUnchangedWithoutMatches(cs[1..], term);
      assert cs == [cs[0]] + cs[1..];
    }
  }

  function Levels(items: seq<HeadingItem>): (r: seq<nat>)
    ensures |r| == |items| && forall i :: 0 <= i < |items| ==> r[i] == items[i].level
  {
    if items == [] then [] else [items[0].level] + Levels(items[1..])
  }

  lemma LevelsConcat(a: seq<HeadingItem>, b: seq<HeadingItem>)
    ensures Levels(a + b) == Levels(a) + Levels(b)
  {
    assert Levels(a + b) == Levels(a) + Levels(b);
  }

  /** The replacement of a text node holds no heading. */
  lemma {:induction false} NoHeadingsInMarks(parts: seq<string>, term: string)
    requires |term| > 0
    ensures HeadingsOfForest(MarkAll(parts, term)) == []
  {
    if parts != [] {
      var r := MarkAll(parts, term);
      assert r[1..] == MarkAll(parts[1..], term);
      NoHeadingsInMarks(parts[1..], term);
    }
  }

  /** Highlighting keeps every heading, in order and at its depth: only the headings'
      text can change. */
  lemma {:induction false} HighlightKeepsHeadingLevels(n: Node, term: string)
    requires |term| > 0
    ensures Levels(HeadingsOfForest(ReplaceTexts(n, Highlighter(term)))) == Levels(HeadingsOf(n))
    decreases n
  {
    var f := Highlighter(term);
    match n
    case Text(v) =>
      TextGetsNoHeadings(v, term);
    case Heading(d, cs) =>
      ForestKeepsHeadingLevels(cs, term);
      HeadingKeepsLevel(d, cs, ReplaceTextsForest(cs, f));
    case Element(kind, cs) =>
      ForestKeepsHeadingLevels(cs, term);
      ElementKeepsLevels(kind, cs, ReplaceTextsForest(cs, f));
    case InlineCode(_) =>
      assert [n][1..] == [];
    case Html(_) =>
      assert [n][1..] == [];
  }

  /** Neither a text node nor what replaces it holds a heading. */
  lemma TextGetsNoHeadings(v: string, term: string)
    requires |term| > 0
    ensures HeadingsOfForest(Highlighter(term)(v)) == []
  {
    assert Highlighter(term)(v) == HighlightText(v, term);
    if |Split(v, term)| > 1 {
      NoHeadingsInMarks(Split(v, term), term);
    } else {
      assert [Text(v)][1..] == [];
    }
  }

  lemma HeadingKeepsLevel(d: nat, cs: seq<Node>, cs': seq<Node>)
    requires Levels(HeadingsOfForest(cs')) == Levels(HeadingsOfForest(cs))
    ensures Levels(HeadingsOfForest([Heading(d, cs')])) == Levels(HeadingsOf(Heading(d, cs)))
  {
    assert [Heading(d, cs')][1..] == [];
    LevelsConcat([HeadingItem(d, HeadingText(cs))], HeadingsOfForest(cs));
    LevelsConcat([HeadingItem(d, HeadingText(cs'))], HeadingsOfForest(cs'));
  }

  lemma ElementKeepsLevels(kind: string, cs: seq<Node>, cs': seq<Node>)
    requires Levels(HeadingsOfForest(cs')) == Levels(HeadingsOfForest(cs))
    ensures Levels(HeadingsOfForest([Element(kind, cs')])) == Levels(HeadingsOf(Element(kind, cs)))
  {
    assert [Element(kind, cs')][1..] == [];
  }

  lemma {:induction false} ForestKeepsHeadingLevels(cs: seq<Node>, term: string)
    requires |term| > 0
    ensures Levels(HeadingsOfForest(ReplaceTextsForest(cs, Highlighter(term)))) == Levels(HeadingsOfForest(cs))
    decreases cs
  {
    if cs != [] {
      var f := Highlighter(term);
      var head := ReplaceTexts(cs[0], f);
      var tail := ReplaceTextsForest(cs[1..], f);
      HighlightKeepsHeadingLevels(cs[0], term);
      ForestKeepsHeadingLevels(cs[1..], term);
      HeadingsOfForestConcat(head, tail);
      LevelsConcat(HeadingsOfForest(head), HeadingsOfForest(tail));
      LevelsConcat(HeadingsOf(cs[0]), HeadingsOfForest(cs[1..]));
    }
  }

  lemma TreeKeepsHeadingLevels(t: Tree, term: string)
    ensures Levels(Headings(HighlightTree(t, term))) == Levels(Headings(t))
  {
    if term != [] {
      ForestKeepsHeadingLevels(t.children, term);
    }
  }
}
