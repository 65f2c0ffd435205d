/** Heading anchors: the id the inline heading plugin gives each heading
    (`text.replace(/\s+/g, '-').toLowerCase()`), the same derivation in
    `scrollToHeading`, and whether a table-of-contents entry finds its heading. */
module Anchors {
  import opened Wrappers
  import opened Strings
  import opened Matching
  import opened Markdown
  import opened Highlight

  /** `replace(/\s+/g, '-')` read left to right: the first white-space character of a
      run becomes `-`, the rest of the run is dropped; `inRun` says whether the text
      before `s` ended inside a run. */
  function CollapseFrom(s: string, inRun: bool): string {
    if s == [] then []
    else if IsWhitespace(s[0]) then (if inRun then [] else "-") + CollapseFrom(s[1..], true)
    else [s[0]] + CollapseFrom(s[1..], false)
  }

  function CollapseWhitespace(s: string): string {
    CollapseFrom(s, false)
  }

  /** The anchor id of a heading text. */
  function Slug(s: string): string {
    Lower(CollapseWhitespace(s))
  }

  /** Whether text `a` read after a context `inRun` leaves the reader inside a run. */
  function EndsInRun(a: string, inRun: bool): bool {
    if a == [] then inRun else IsWhitespace(a[|a| - 1])
  }

  lemma {:induction false} CollapseFromHasNoWhitespace(s: string, inRun: bool)
    ensures NoWhitespace(CollapseFrom(s, inRun))
  {
    if s != [] {
      CollapseFromHasNoWhitespace(s[1..], IsWhitespace(s[0]));
    }
  }

  /** An id never contains white space. */
  lemma SlugHasNoWhitespace(s: string)
    ensures NoWhitespace(Slug(s))
  {
    var c := CollapseWhitespace(s);
    CollapseFromHasNoWhitespace(s, false);
    forall k | 0 <= k < |c| ensures !IsWhitespace(Lower(c)[k]) {
      LowerKeepsWhitespace(c, k);
    }
  }

  /** Text without white space has no run to collapse. */
  lemma {:induction false} CollapseWithoutWhitespace(s: string, inRun: bool)
    requires NoWhitespace(s)
    ensures CollapseFrom(s, inRun) == s
  {
    if s != [] {
      CollapseWithoutWhitespace(s[1..], false);
      assert s == [s[0]] + s[1..];
    }
  }

  /** Text without white space is only lowered. */
  lemma SlugWithoutWhitespace(s: string)
    requires NoWhitespace(s)
    ensures Slug(s) == Lower(s)
  {
    CollapseWithoutWhitespace(s, false);
  }

  /** Deriving the id of an id gives the same id. */
  lemma SlugIdempotent(s: string)
    ensures Slug(Slug(s)) == Slug(s)
  {
    SlugHasNoWhitespace(s);
    SlugWithoutWhitespace(Slug(s));
    LowerIdempotent(CollapseWhitespace(s));
  }

  /** Collapsing a concatenation: the second part is read in the context the first one
      leaves. */
  lemma {:induction false} CollapseFromConcat(a: string, b: string, inRun: bool)
    ensures CollapseFrom(a + b, inRun) == CollapseFrom(a, inRun) + CollapseFrom(b, EndsInRun(a, inRun))
  {
    if a == [] {
      assert a + b == b;
    } else {
      var c := a[0];
      var tail := a[1..];
      var w := IsWhitespace(c);
      var lead: string := if w then (if inRun then [] else "-") else [c];
      assert a == [c] + tail;
      assert a + b == [c] + (tail + b);
      assert EndsInRun(tail, w) == EndsInRun(a, inRun) by {
        if tail != [] {
          assert tail[|tail| - 1] == a[|a| - 1];
        }
      }
      calc {
        CollapseFrom(a + b, inRun);
        { CollapseCons(c, tail + b, inRun); }
        lead + CollapseFrom(tail + b, w);
        { CollapseFromConcat(tail, b, w); }
        lead + (CollapseFrom(tail, w) + CollapseFrom(b, EndsInRun(a, inRun)));
        (lead + CollapseFrom(tail, w)) + CollapseFrom(b, EndsInRun(a, inRun));
        { CollapseCons(c, tail, inRun); }
        CollapseFrom(a, inRun) + CollapseFrom(b, EndsInRun(a, inRun));
      }
    }
  }

  /** One step of the scan: the first character's contribution, then the rest read
      in the context it leaves. */
  lemma CollapseCons(c: char, s: string, inRun: bool)
    ensures CollapseFrom([c] + s, inRun)
         == (if IsWhitespace(c) then (if inRun then [] else "-") else [c]) + CollapseFrom(s, IsWhitespace(c))
  {
    assert ([c] + s)[0] == c && ([c] + s)[1..] == s;
  }

  /** A run of white space on its own: one `-`, or nothing when it continues a run. */
  lemma {:induction false} CollapseAllWhitespace(w: string, inRun: bool)
    requires |w| > 0 && AllWhitespace(w)
    ensures CollapseFrom(w, inRun) == if inRun then [] else "-"
  {
    if |w| > 1 {
      CollapseAllWhitespace(w[1..], true);
    } else {
      assert w[1..] == [];
    }
  }

  /** Text that does not start with white space reads the same in any context. */
  lemma CollapseContextFree(b: string, inRun: bool)
    requires b == [] || !IsWhitespace(b[0])
    ensures CollapseFrom(b, inRun) == CollapseFrom(b, false)
  {
  }

  /** A maximal run of white space, however long and of whatever white-space
      characters, becomes exactly one `-` between the collapsed text around it. */
  lemma CollapseRun(a: string, w: string, b: string)
    requires |w| > 0 && AllWhitespace(w)
    requires a == [] || !IsWhitespace(a[|a| - 1])
    requires b == [] || !IsWhitespace(b[0])
    ensures CollapseWhitespace(a + w + b) == CollapseWhitespace(a) + "-" + CollapseWhitespace(b)
  {
    CollapseFromConcat(a + w, b, false);
    CollapseFromConcat(a, w, false);
    CollapseAllWhitespace(w, false);
    assert EndsInRun(a + w, false) by {
      assert (a + w)[|a + w| - 1] == w[|w| - 1];
    }
    CollapseContextFree(b, true);
  }

  /** A run between two words: the words, lowered, joined by one `-`. */
  lemma SlugOfTwoWords(a: string, w: string, b: string)
    requires |a| > 0 && |b| > 0 && NoWhitespace(a) && NoWhitespace(b)
    requires |w| > 0 && AllWhitespace(w)
    ensures Slug(a + w + b) == Lower(a) + "-" + Lower(b)
  {
    CollapseRun(a, w, b);
    CollapseWithoutWhitespace(a, false);
    CollapseWithoutWhitespace(b, false);
    var c := a + "-" + b;
    var l := Lower(a) + "-" + Lower(b);
    forall k | 0 <= k < |c| ensures Lower(c)[k] == l[k] {
      if k < |a| {
        assert c[k] == a[k];
      } else if k > |a| {
        assert c[k] == b[k - |a| - 1];
      }
    }
    assert Lower(c) == l;
  }

  lemma SlugExampleSpace(s: string)
    requires s == "My Heading"
    ensures Slug(s) == "my-heading"
  {
    SlugOfTwoWords("My", " ", "Heading");
    assert "My" + " " + "Heading" == "My Heading";
    assert Lower("My") == "my" && Lower("Heading") == "heading";
  }

  lemma SlugExampleDashes(s: string)
    requires s == "To-Do"
    ensures Slug(s) == "to-do"
  {
    SlugWithoutWhitespace(s);
  }

  // ---------------------------------------------------------------------------
  // Ids on the page and the table of contents

  function Slugs(items: seq<HeadingItem>): (r: seq<string>)
    ensures |r| == |items| && forall i :: 0 <= i < |items| ==> r[i] == Slug(items[i].text)
  {
    if items == [] then [] else [Slug(items[0].text)] + Slugs(items[1..])
  }

  /** The ids the inline heading plugin gives the headings of a tree, in document order. */
  function HeadingIds(t: Tree): seq<string> {
    Slugs(Headings(t))
  }

  /** `document.getElementById(id)` over the elements' `id` attributes in document
      order: the position of the first element that carries `id`. An empty attribute
      gives its element no ID, so the empty id finds nothing. */
  function GetElementById(ids: seq<string>, id: string): (r: Option<nat>)
    ensures r.None? <==> id == [] || id !in ids
    ensures r.Some? ==>
      && r.value < |ids| && ids[r.value] == id
      && (forall j :: 0 <= j < r.value ==> ids[j] != id)
  {
    if id == [] || ids == [] then None
    else if ids[0] == id then Some(0)
    else
      match GetElementById(ids[1..], id)
      case None => None
      case Some(k) => Some(k + 1)
  }

  /** Only the empty text has the empty id. */
  lemma SlugEmptyIff(s: string)
    ensures Slug(s) == [] <==> s == []
  {
    if s != [] {
      assert |CollapseWhitespace(s)| > 0;
    }
  }

  /** `scrollToHeading(headingText)`: the element its derived id finds, if any. An
      entry with an empty text looks for the empty id and finds nothing. */
  function ScrollTarget(ids: seq<string>, headingText: string): (r: Option<nat>)
    ensures r.None? <==> headingText == [] || Slug(headingText) !in ids
    ensures r.Some? ==>
      && r.value < |ids| && ids[r.value] == Slug(headingText)
      && (forall j :: 0 <= j < r.value ==> ids[j] != Slug(headingText))
  {
    SlugEmptyIff(headingText);
    GetElementById(ids, Slug(headingText))
  }

  /** The ids the screen itself renders ahead of the page's Markdown, in document
      order: the user name, the three menu entries, the `Private` label, the content
      section and the panel that holds the page. */
  const IdsBefore: seq<string> := ["name", "menu", "menu", "menu", "private", "content", "present"]

  /** The id rendered after the Markdown, on the table-of-contents button's icon. */
  const IdsAfter: seq<string> := ["surface1"]

  /** The ids of the screen in view mode, in document order, around the ids of the
      rendered headings. */
  function DocumentIds(headingIds: seq<string>): (r: seq<string>)
    ensures |r| == |IdsBefore| + |headingIds| + |IdsAfter|
    ensures forall k :: 0 <= k < |headingIds| ==> r[|IdsBefore| + k] == headingIds[k]
  {
    IdsBefore + headingIds + IdsAfter
  }

  /** The ids of the rendered page as the plugins are ordered: the highlight plugin
      runs first, and the heading plugin then derives each id from the highlighted
      heading's `text` and `inlineCode` children only. */
  function RenderedIdsAsWritten(t: Tree, term: string): seq<string> {
    HeadingIds(HighlightTree(t, term))
  }

  /** The ids derived from the headings as written, before highlighting: one for each
      heading of the highlighted page, in order. */
  function RenderedIds(t: Tree, term: string): (r: seq<string>)
    ensures |r| == |Headings(HighlightTree(t, term))|
  {
    TreeKeepsHeadingLevels(t, term);
    HeadingIds(t)
  }

  /** A lookup confined to the rendered Markdown finds every entry of the table of
      contents (the headings of the page's own text) that has a text: the first
      heading with the same id, never one after the entry's own. */
  lemma TocEntriesFoundAmongHeadings(t: Tree, term: string, i: nat)
    requires i < |Headings(t)| && Headings(t)[i].text != []
    ensures var target := ScrollTarget(RenderedIds(t, term), Headings(t)[i].text);
      target.Some? && target.value <= i
  {
    var ids := RenderedIds(t, term);
    assert ids[i] == Slug(Headings(t)[i].text);
  }

  /** In the whole document, an entry with a text whose id is none of the screen's
      own ids scrolls to a heading: the first heading with that id, never one after
      its own. */
  lemma TocEntriesFound(t: Tree, term: string, i: nat)
    requires i < |Headings(t)| && Headings(t)[i].text != []
    requires Slug(Headings(t)[i].text) !in IdsBefore
    ensures var target := ScrollTarget(DocumentIds(RenderedIds(t, term)), Headings(t)[i].text);
      target.Some? && |IdsBefore| <= target.value <= |IdsBefore| + i
  {
    var ids := DocumentIds(RenderedIds(t, term));
    var slug := Slug(Headings(t)[i].text);
    assert ids[|IdsBefore| + i] == slug;
  }

  /** An entry whose id is one of the screen's own ids never reaches its heading:
      `getElementById` stops at the screen's element first. */
  lemma FixedIdShadowsHeading(t: Tree, term: string, i: nat)
    requires i < |Headings(t)|
    requires Slug(Headings(t)[i].text) in IdsBefore
    ensures var target := ScrollTarget(DocumentIds(RenderedIds(t, term)), Headings(t)[i].text);
      target.Some? && target.value < |IdsBefore|
  {
    var ids := DocumentIds(RenderedIds(t, term));
    var slug := Slug(Headings(t)[i].text);
    var k :| 0 <= k < |IdsBefore| && IdsBefore[k] == slug;
    assert ids[k] == slug;
    SlugEmptyIff(Headings(t)[i].text);
  }

  /** When the term occurs in no text node, the order of the plugins makes no
      difference. */
  lemma AsWrittenAgreesWithoutMatches(t: Tree, term: string)
    requires term == [] || NoMatchInForest(t.children, term)
    ensures RenderedIdsAsWritten(t, term) == RenderedIds(t, term)
  {
    if term != [] {
      ForestUnchangedWithoutMatches(t.children, term);
    }
  }

  // ---------------------------------------------------------------------------
  // A heading that contains the highlighted term

  lemma CatFactsStarts(v: string)
    requires v == "Cat facts"
    ensures Starts(v, "cat") == [0]
  {
    assert MatchAt(v, "cat", 0) by {
      assert v[0..3] == "Cat";
      assert Lower("Cat") == "cat";
    }
    assert !MatchAt(v, "cat", 3) by { assert Lower(v[3..6])[0] == ' '; }
    assert !MatchAt(v, "cat", 4) by { assert Lower(v[4..7])[0] == 'f'; }
    assert !MatchAt(v, "cat", 5) by { assert Lower(v[5..8])[0] == 'a'; }
    assert !MatchAt(v, "cat", 6) by { assert Lower(v[6..9])[1] == 't'; }
    assert StartsFrom(v, "cat", 6) == [];
    assert StartsFrom(v, "cat", 5) == [];
    assert StartsFrom(v, "cat", 4) == [];
    assert StartsFrom(v, "cat", 3) == [];
  }

  lemma CatFactsHighlight(v: string)
    requires v == "Cat facts"
    ensures HighlightText(v, "cat") == [Text(""), Html(Wrap("Cat")), Text(" facts")]
  {
    CatFactsStarts(v);
    var parts := Split(v, "cat");
    var ps := Starts(v, "cat");
    assert ps[1..] == [];
    assert Cut(v, ps[1..], 3, 3) == [v[3..]];
    assert parts == [v[0..0], v[0..3]] + Cut(v, ps[1..], 3, 3);
    assert v[0..0] == "" && v[0..3] == "Cat" && v[3..] == " facts";
    HighlightTextIsSegments(v, "cat");
    var r := HighlightText(v, "cat");
    assert r[0] == Text("") && r[1] == Html(Wrap("Cat")) && r[2] == Text(" facts");
  }

  lemma FactsSlug(s: string)
    requires s == " facts"
    ensures Slug(s) == "-facts"
  {
    CollapseWithoutWhitespace("facts", true);
    assert s[1..] == "facts";
    assert CollapseWhitespace(s) == "-facts";
  }

  lemma CatFactsSlug(s: string)
    requires s == "Cat facts"
    ensures Slug(s) == "cat-facts"
  {
    SlugOfTwoWords("Cat", " ", "facts");
    assert "Cat" + " " + "facts" == s;
    assert Lower("Cat") == "cat" && Lower("facts") == "facts";
  }

  /** The heading `# Cat facts` as parsed, and the same heading after highlighting `cat`. */
  function CatFactsTree(): Tree {
    Root([Heading(1, [Text("Cat facts")])])
  }

  function HighlightedCatFactsTree(): Tree {
    Root([Heading(1, [Text(""), Html(Wrap("Cat")), Text(" facts")])])
  }

  lemma CatFactsHeadings(t: Tree)
    requires t == CatFactsTree()
    ensures Headings(t) == [HeadingItem(1, "Cat facts")]
  {
    var v := "Cat facts";
    assert [Text(v)][1..] == [];
    assert t.children[1..] == [];
    assert HeadingText([Text(v)]) == v;
  }

  lemma CatFactsHighlightTree(t: Tree)
    requires t == CatFactsTree()
    ensures HighlightTree(t, "cat") == HighlightedCatFactsTree()
  {
    var v := "Cat facts";
    CatFactsHighlight(v);
    var f := Highlighter("cat");
    var parts := [Text(""), Html(Wrap("Cat")), Text(" facts")];
    assert f(v) == parts;
    assert [Text(v)][1..] == [];
    assert ReplaceTextsForest([Text(v)], f) == parts;
    assert t.children[1..] == [];
    assert ReplaceTextsForest(t.children, f) == [Heading(1, parts)];
  }

  lemma HighlightedCatFactsHeadings(u: Tree)
    requires u == HighlightedCatFactsTree()
    ensures Headings(u) == [HeadingItem(1, " facts")]
  {
    var parts := [Text(""), Html(Wrap("Cat")), Text(" facts")];
    assert parts[1..][1..][1..] == [];
    assert HeadingText(parts) == " facts";
    assert HeadingsOfForest(parts) == [] by {
      assert HeadingsOfForest(parts[2..]) == [];
      assert HeadingsOfForest(parts[1..]) == [];
    }
    assert u.children[1..] == [];
  }

  /** With the heading `# Cat facts` and the highlight term `cat`, the highlight plugin
      turns the heading's one `text` child into an empty `text`, an `html` span and
      the `text` " facts"; the heading plugin, which runs after it and ignores `html`
      children, gives the heading the id `-facts`, while the table-of-contents entry
      for it looks for `cat-facts` and finds nothing. Ids derived before highlighting
      find the heading, right after the screen's own ids. */
  lemma CatFactsHeadingIdLost(t: Tree)
    requires t == CatFactsTree()
    ensures Headings(t) == [HeadingItem(1, "Cat facts")]
    ensures RenderedIdsAsWritten(t, "cat") == ["-facts"]
    ensures ScrollTarget(DocumentIds(RenderedIdsAsWritten(t, "cat")), Headings(t)[0].text).None?
    ensures ScrollTarget(DocumentIds(RenderedIds(t, "cat")), Headings(t)[0].text) == Some(|IdsBefore|)
  {
    CatFactsIds(t);
    CatFactsSlug(Headings(t)[0].text);
    AbsentTarget(RenderedIdsAsWritten(t, "cat"), Headings(t)[0].text, "cat-facts");
    FirstHeadingTarget(RenderedIds(t, "cat"), Headings(t)[0].text);
  }

  lemma CatFactsIds(t: Tree)
    requires t == CatFactsTree()
    ensures Headings(t) == [HeadingItem(1, "Cat facts")]
    ensures RenderedIdsAsWritten(t, "cat") == ["-facts"]
    ensures RenderedIds(t, "cat") == ["cat-facts"]
  {
    CatFactsHeadings(t);
    CatFactsHighlightTree(t);
    HighlightedCatFactsHeadings(HighlightedCatFactsTree());
    FactsSlug(" facts");
    CatFactsSlug("Cat facts");
    assert RenderedIdsAsWritten(t, "cat") == Slugs([HeadingItem(1, " facts")]);
    assert RenderedIds(t, "cat") == Slugs([HeadingItem(1, "Cat facts")]);
  }

  /** A first heading whose id none of the screen's own ids shadows is where its
      entry scrolls to. */
  lemma FirstHeadingTarget(headingIds: seq<string>, text: string)
    requires Slug(text) != [] && headingIds != [] && headingIds[0] == Slug(text) && Slug(text) !in IdsBefore
    ensures ScrollTarget(DocumentIds(headingIds), text) == Some(|IdsBefore|)
  {
    FirstAfterPrefix(IdsBefore, headingIds + IdsAfter, text);
    assert DocumentIds(headingIds) == IdsBefore + (headingIds + IdsAfter);
  }

  lemma FirstAfterPrefix(prefix: seq<string>, rest: seq<string>, text: string)
    requires Slug(text) != [] && rest != [] && rest[0] == Slug(text) && Slug(text) !in prefix
    ensures ScrollTarget(prefix + rest, text) == Some(|prefix|)
  {
    var ids := prefix + rest;
    SlugEmptyIff(text);
    assert ids[|prefix|] == Slug(text);
    assert forall j :: 0 <= j < |prefix| ==> ids[j] == prefix[j];
  }

  /** An id that no element carries: the entry scrolls nowhere. */
  lemma AbsentTarget(headingIds: seq<string>, text: string, slug: string)
    requires Slug(text) == slug
    requires slug !in IdsBefore && slug !in headingIds && slug !in IdsAfter
    ensures ScrollTarget(DocumentIds(headingIds), text).None?
  {
  }

  // ---------------------------------------------------------------------------
  // A heading whose id the screen already uses

  lemma ContentSlug(s: string)
    requires s == "Content"
    ensures Slug(s) == "content"
  {
    SlugWithoutWhitespace(s);
    assert Lower(s) == "content";
  }

  /** The heading `# Content`, with any highlight term: its entry looks for `content`,
      the id of the content section, so `getElementById` returns the section
      (position 5 of the document's ids) and the heading is never scrolled to. */
  lemma ContentHeadingShadowed(t: Tree, term: string)
    requires t == Root([Heading(1, [Text("Content")])])
    ensures Headings(t) == [HeadingItem(1, "Content")]
    ensures ScrollTarget(DocumentIds(RenderedIds(t, term)), Headings(t)[0].text) == Some(5)
  {
    SingleTextChild(t.children[0].children, "Content");
    assert t.children[1..] == [];
    ContentSlug(Headings(t)[0].text);
    FoundInPrefix(IdsBefore, RenderedIds(t, term) + IdsAfter, Headings(t)[0].text, 5);
    assert DocumentIds(RenderedIds(t, term)) == IdsBefore + (RenderedIds(t, term) + IdsAfter);
  }

  lemma FoundInPrefix(prefix: seq<string>, rest: seq<string>, text: string, k: nat)
    requires Slug(text) != [] && k < |prefix| && prefix[k] == Slug(text)
    requires forall j :: 0 <= j < k ==> prefix[j] != Slug(text)
    ensures ScrollTarget(prefix + rest, text) == Some(k)
  {
    var ids := prefix + rest;
    SlugEmptyIff(text);
    assert ids[k] == Slug(text);
    assert forall j :: 0 <= j < k ==> ids[j] == prefix[j];
  }

  // ---------------------------------------------------------------------------
  // A heading the two parses see differently

  lemma StruckSlug(a: string)
    requires a == "~~old~~ plan"
    ensures Slug(a) == "~~old~~-plan"
  {
    SlugOfTwoWords("~~old~~", " ", "plan");
    assert "~~old~~" + " " + "plan" == a;
    assert Lower("~~old~~") == "~~old~~" && Lower("plan") == "plan";
  }

  lemma PlanSlug(b: string)
    requires b == " plan"
    ensures Slug(b) == "-plan"
  {
    CollapseWithoutWhitespace("plan", true);
    assert b[1..] == "plan";
    assert CollapseWhitespace(b) == "-plan";
  }

  lemma StruckHeadingChildren(cs: seq<Node>)
    requires cs == [Element("delete", [Text("old")]), Text(" plan")]
    ensures HeadingText(cs) == " plan" && HeadingsOfForest(cs) == []
  {
    SingleTextChild(cs[0].children, "old");
    SingleTextChild(cs[1..], " plan");
  }

  /** `# ~~old~~ plan`. The table of contents parses the content without GFM, so the
      heading's text is `~~old~~ plan` and its entry looks for `~~old~~-plan`. The
      rendered page parses it with GFM into a `delete` node and the text " plan", so
      the heading's id is `-plan`, with or without a highlight term, and the entry
      finds nothing. */
  lemma StrikethroughHeadingMissed(toc: Tree, page: Tree)
    requires toc == Root([Heading(1, [Text("~~old~~ plan")])])
    requires page == Root([Heading(1, [Element("delete", [Text("old")]), Text(" plan")])])
    ensures Headings(toc) == [HeadingItem(1, "~~old~~ plan")]
    ensures RenderedIds(page, "") == ["-plan"]
    ensures ScrollTarget(DocumentIds(RenderedIds(page, "")), Headings(toc)[0].text).None?
  {
    StruckTocHeadings(toc);
    StruckPageIds(page);
    StruckSlug(Headings(toc)[0].text);
    AbsentTarget(RenderedIds(page, ""), Headings(toc)[0].text, "~~old~~-plan");
  }

  lemma StruckTocHeadings(toc: Tree)
    requires toc == Root([Heading(1, [Text("~~old~~ plan")])])
    ensures Headings(toc) == [HeadingItem(1, "~~old~~ plan")]
  {
    SingleTextChild(toc.children[0].children, "~~old~~ plan");
    assert toc.children[1..] == [];
  }

  lemma StruckPageIds(page: Tree)
    requires page == Root([Heading(1, [Element("delete", [Text("old")]), Text(" plan")])])
    ensures RenderedIds(page, "") == ["-plan"]
  {
    StruckHeadingChildren(page.children[0].children);
    assert page.children[1..] == [];
    assert Headings(page) == [HeadingItem(1, " plan")];
    PlanSlug(" plan");
    assert RenderedIds(page, "") == Slugs([HeadingItem(1, " plan")]);
  }

  // ---------------------------------------------------------------------------
  // A heading without a text or inline-code child

  /** The heading `# **Todo**`, with any highlight term: its only child is a `strong`
      node, so its text and its id are both empty. The heading element is rendered
      with `id=""`, yet its entry looks for the empty id and scrolls nowhere. */
  lemma EmptyHeadingIdMissed(t: Tree, term: string)
    requires t == Root([Heading(1, [Element("strong", [Text("Todo")])])])
    ensures Headings(t) == [HeadingItem(1, "")]
    ensures RenderedIds(t, term) == [""] && "" in DocumentIds(RenderedIds(t, term))
    ensures ScrollTarget(DocumentIds(RenderedIds(t, term)), Headings(t)[0].text).None?
  {
    var cs := t.children[0].children;
    SingleTextChild(cs[0].children, "Todo");
    assert cs[1..] == [] && t.children[1..] == [];
    assert HeadingText(cs) == [];
    assert Headings(t) == [HeadingItem(1, "")];
    assert RenderedIds(t, term) == Slugs([HeadingItem(1, "")]);
    assert DocumentIds(RenderedIds(t, term))[|IdsBefore|] == "";
  }
}
