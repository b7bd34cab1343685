/** The extraction policy of `parse_news`: six CSS selectors tried in a
    fixed order, the first one that matches anything is the only one used,
    at most five of its nodes are read, each surviving node gives one news
    item, and an empty harvest is replaced by two placeholder items.

    The HTML parser is not modelled. A parsed page is given as what each
    selector matches, in selector order: a `Document`. */
module Extractor {
  import opened Wrappers
  import opened Text

  /** The selectors, in the order they are tried. */
  const Selectors: seq<string> := ["article", ".news-item", ".post", ".entry", "h3 a", "h2 a"]

  /** At most this many nodes of the chosen selector are read. */
  const MaxNodes: nat := 5

  /** A title must be longer than this to be kept. */
  const MinTitleExclusive: nat := 5

  /** The site origin put in front of a root-relative link. */
  const BaseOrigin: string := "https://d.aigclink.ai"

  datatype NewsItem = NewsItem(title: string, link: string)

  /** What is returned when no item survives. */
  const Placeholders: seq<NewsItem> := [
    NewsItem("示例新闻标题1", "https://example.com/1"),
    NewsItem("示例新闻标题2", "https://example.com/2")
  ]

  /** An element as far as extraction looks at it: its text and its `href`
      attribute, `""` when the attribute is absent. */
  datatype Element = Element(text: string, href: string)

  /** A node matched by a selector: whether it is an `a` element, its own
      text and `href`, the first `a`, `h2` and `h3` nested in it (if any),
      and whether reading it raises. */
  datatype Node = Node(
    isAnchor: bool,
    self: Element,
    nestedA: Option<Element>,
    nestedH2: Option<Element>,
    nestedH3: Option<Element>,
    raises: bool)

  /** The match list of every selector, in the order of `Selectors`. */
  type Document = seq<seq<Node>>

  predicate WellFormed(doc: Document)
  {
    |doc| == |Selectors|
  }

  /** Python's `x or y or ... or last` over optional elements: the first
      one present, else `last`. */
  function FirstPresent(candidates: seq<Option<Element>>, last: Element): (r: Element)
    ensures r == last || exists i :: 0 <= i < |candidates| && candidates[i] == Some(r)
    ensures forall i ::
              (0 <= i < |candidates| && candidates[i].Some? && (forall j :: 0 <= j < i ==> candidates[j].None?))
              ==> r == candidates[i].value
    ensures (forall i :: 0 <= i < |candidates| ==> candidates[i].None?) ==> r == last
  {
    if candidates == [] then last
    else if candidates[0].Some? then candidates[0].value
    else
      var rest := candidates[1..];
      assert forall i :: 1 <= i < |candidates| ==> candidates[i] == rest[i - 1];
      FirstPresent(rest, last)
  }

  /** The element whose text becomes the title: the node itself for an `a`
      node, otherwise its nested `a`, else `h2`, else `h3`, else itself. */
  function TitleSource(n: Node): (r: Element)
    ensures n.isAnchor ==> r == n.self
    ensures !n.isAnchor && n.nestedA.Some? ==> r == n.nestedA.value
    ensures !n.isAnchor && n.nestedA.None? && n.nestedH2.Some? ==> r == n.nestedH2.value
    ensures !n.isAnchor && n.nestedA.None? && n.nestedH2.None? && n.nestedH3.Some? ==> r == n.nestedH3.value
    ensures !n.isAnchor && n.nestedA.None? && n.nestedH2.None? && n.nestedH3.None? ==> r == n.self
  {
    var chain := [n.nestedA, n.nestedH2, n.nestedH3];
    assert chain[1..] == [n.nestedH2, n.nestedH3] && chain[1..][1..] == [n.nestedH3];
    assert n.nestedA.None? ==> FirstPresent(chain, n.self) == FirstPresent(chain[1..], n.self);
    assert n.nestedH2.None? ==> FirstPresent(chain[1..], n.self) == FirstPresent(chain[1..][1..], n.self);
    if n.isAnchor then n.self else FirstPresent(chain, n.self)
  }

  /** The element whose `href` becomes the link: the node itself for an
      `a` node, otherwise its nested `a`, else itself. */
  function LinkSource(n: Node): (r: Element)
    ensures n.isAnchor ==> r == n.self
    ensures !n.isAnchor && n.nestedA.Some? ==> r == n.nestedA.value
    ensures !n.isAnchor && n.nestedA.None? ==> r == n.self
  {
    if n.isAnchor then n.self else FirstPresent([n.nestedA], n.self)
  }

  /** Root-relative links get the site origin in front; any other link is
      kept. The original link is always the tail of the result, and no
      result is root-relative. */
  function Resolve(link: string): (r: string)
    ensures StartsWith(link, "/") ==> r == BaseOrigin + link
    ensures !StartsWith(r, "/")
    ensures |link| <= |r| && r[|r| - |link|..] == link
    ensures r == link <==> !StartsWith(link, "/")
    ensures r != [] <==> link != []
  {
    assert (BaseOrigin + link)[0] == 'h';
    if StartsWith(link, "/") then BaseOrigin + link else link
  }

  /** What every returned item satisfies: a stripped title longer than
      five characters and a non-empty link that is not root-relative. */
  predicate ValidItem(it: NewsItem)
  {
    && IsStripped(it.title)
    && |it.title| > MinTitleExclusive
    && it.link != []
    && !StartsWith(it.link, "/")
  }

  /** The item one node yields, or `None` when reading it raises or the
      filter drops it (title of five characters or fewer, or empty link). */
  function ItemOf(n: Node): (r: Option<NewsItem>)
    ensures n.raises ==> r.None?
    ensures r.Some? ==> ValidItem(r.value)
    ensures r.Some? <==> !n.raises && |Strip(TitleSource(n).text)| > MinTitleExclusive && LinkSource(n).href != []
    ensures r.Some? ==> r.value.title == Strip(TitleSource(n).text) && r.value.link == Resolve(LinkSource(n).href)
  {
    if n.raises then None
    else
      var title := Strip(TitleSource(n).text);
      var link := LinkSource(n).href;
      if title != [] && |title| > MinTitleExclusive && link != [] then Some(NewsItem(title, Resolve(link)))
      else None
  }

  /** The item of a node that passes the filter, spelled out. */
  lemma ItemOfKept(n: Node)
    requires !n.raises && |Strip(TitleSource(n).text)| > MinTitleExclusive && LinkSource(n).href != []
    ensures ItemOf(n) == Some(NewsItem(Strip(TitleSource(n).text), Resolve(LinkSource(n).href)))
  {
  }

  function ItemsOf(n: Node): seq<NewsItem>
  {
    if ItemOf(n).Some? then [ItemOf(n).value] else []
  }

  /** The items of a node list, one per surviving node, in node order. */
  function Harvest(nodes: seq<Node>): seq<NewsItem>
  {
    if nodes == [] then []
    else Harvest(nodes[..|nodes| - 1]) + ItemsOf(nodes[|nodes| - 1])
  }

  /** The first `MaxNodes` nodes of a match list (Python's `elements[:5]`). */
  function Cap(nodes: seq<Node>): (r: seq<Node>)
    ensures |r| == if |nodes| < MaxNodes then |nodes| else MaxNodes
    ensures r == nodes[..|r|]
  {
    if |nodes| <= MaxNodes then nodes else nodes[..MaxNodes]
  }

  /** The index of the first selector that matched anything. */
  function FirstMatching(doc: Document): (r: Option<nat>)
    ensures r.None? <==> forall i :: 0 <= i < |doc| ==> doc[i] == []
    ensures r.Some? ==> r.value < |doc| && doc[r.value] != []
    ensures r.Some? ==> forall j :: 0 <= j < r.value ==> doc[j] == []
  {
    if doc == [] then None
    else if doc[0] != [] then Some(0)
    else match FirstMatching(doc[1..])
         case None => None
         case Some(i) => Some(i + 1)
  }

  /** The items harvested before the placeholder fallback. */
  function Collected(doc: Document): seq<NewsItem>
  {
    match FirstMatching(doc)
    case None => []
    case Some(i) => Harvest(Cap(doc[i]))
  }

  /** The result of `parse_news`. */
  function Parse(doc: Document): seq<NewsItem>
  {
    if Collected(doc) == [] then Placeholders else Collected(doc)
  }

  /** `parse_news`, step by step: the selector loop with its unconditional
      `break`, the inner loop over the first five nodes, and the fallback. */
  method ParseNews(doc: Document) returns (items: seq<NewsItem>)
    requires WellFormed(doc)
    ensures items == Parse(doc)
    ensures Collected(doc) == [] ==> items == Placeholders
    ensures Collected(doc) != [] ==> items == Collected(doc)
  {
    items := [];
    var s := 0;
    while s < |Selectors|
      invariant 0 <= s <= |Selectors|
      invariant forall j :: 0 <= j < s ==> doc[j] == []
      invariant items == []
    {
      var elements := doc[s];
      if elements != [] {
        assert FirstMatching(doc) == Some(s);
        items := ReadNodes(Cap(elements));
        break;
      }
      s := s + 1;
    }
    if items == [] {
      items := Placeholders;
    }
  }

  /** The inner loop of `parse_news` over the nodes already capped at five:
      read each node, drop it if it raises or fails the filter, resolve its
      link and append it. */
  method ReadNodes(batch: seq<Node>) returns (items: seq<NewsItem>)
    ensures items == Harvest(batch)
  {
    items := [];
    var k := 0;
    while k < |batch|
      invariant 0 <= k <= |batch|
      invariant items == Harvest(batch[..k])
    {
      var node := batch[k];
      assert batch[..k + 1][..k] == batch[..k];
      assert Harvest(batch[..k + 1]) == items + ItemsOf(node);
      if !node.raises {
        var title := Strip(TitleSource(node).text);
        var link := LinkSource(node).href;
        if title != [] && |title| > MinTitleExclusive && link != [] {
          link := Resolve(link);
          items := items + [NewsItem(title, link)];
        }
      }
      k := k + 1;
    }
    assert batch[..k] == batch;
  }

  // ----- Properties of the harvest -----

  /** Harvesting a concatenation is concatenating the harvests: with
      `HarvestOne`, this says that each surviving node yields exactly one
      item, failed or filtered nodes yield none, and order is kept. */
  lemma {:induction false} HarvestAppend(a: seq<Node>, b: seq<Node>)
    ensures Harvest(a + b) == Harvest(a) + Harvest(b)
    decreases |b|
  {
    if b == [] {
      assert a + b == a;
    } else {
      var last := |b| - 1;
      assert (a + b)[..|a + b| - 1] == a + b[..last];
      HarvestAppend(a, b[..last]);
      assert Harvest(b) == Harvest(b[..last]) + ItemsOf(b[last]);
    }
  }

  lemma HarvestOne(n: Node)
    ensures Harvest([n]) == (if ItemOf(n).Some? then [ItemOf(n).value] else [])
  {
    assert [n][..0] == [];
  }

  /** A harvest has at most one item per node. */
  lemma {:induction false} HarvestLength(nodes: seq<Node>)
    ensures |Harvest(nodes)| <= |nodes|
  {
    if nodes != [] {
      HarvestLength(nodes[..|nodes| - 1]);
    }
  }

  /** Every harvested item is valid and is the item of one of the nodes. */
  lemma {:induction false} HarvestSound(nodes: seq<Node>)
    ensures forall it :: it in Harvest(nodes) ==> ValidItem(it)
    ensures forall it :: it in Harvest(nodes) ==> exists k :: 0 <= k < |nodes| && ItemOf(nodes[k]) == Some(it)
  {
    if nodes != [] {
      var init := nodes[..|nodes| - 1];
      HarvestSound(init);
      forall it | it in Harvest(nodes)
        ensures ValidItem(it)
        ensures exists k :: 0 <= k < |nodes| && ItemOf(nodes[k]) == Some(it)
      {
        if it in Harvest(init) {
          var k :| 0 <= k < |init| && ItemOf(init[k]) == Some(it);
          assert nodes[k] == init[k];
        } else {
          assert ItemOf(nodes[|nodes| - 1]) == Some(it);
        }
      }
    }
  }

  // ----- Properties of parse_news -----

  /** The result is never empty and never longer than five. */
  lemma ParseLength(doc: Document)
    ensures 1 <= |Parse(doc)| <= MaxNodes
  {
    if FirstMatching(doc).Some? {
      HarvestLength(Cap(doc[FirstMatching(doc).value]));
    }
  }

  /** Every returned item, placeholders included, is valid. */
  lemma ParseValid(doc: Document)
    ensures forall it :: it in Parse(doc) ==> ValidItem(it)
  {
    if FirstMatching(doc).Some? {
      HarvestSound(Cap(doc[FirstMatching(doc).value]));
    }
    assert Placeholders[0].link[0] == 'h' && Placeholders[1].link[0] == 'h';
  }

  /** A page on which no selector matches gives exactly the placeholders. */
  lemma NoMatchGivesPlaceholders(doc: Document)
    requires forall i :: 0 <= i < |doc| ==> doc[i] == []
    ensures Parse(doc) == Placeholders
  {
  }

  /** Only the first matching selector counts: two pages that agree up to
      and including it give the same result, whatever later selectors
      match, even when all of the chosen selector's nodes are dropped. */
  lemma FirstMatchDecides(doc: Document, other: Document, i: nat)
    requires FirstMatching(doc) == Some(i)
    requires i < |other| && other[..i + 1] == doc[..i + 1]
    ensures Parse(other) == Parse(doc)
  {
    assert forall j :: 0 <= j <= i ==> other[j] == other[..i + 1][j] == doc[..i + 1][j] == doc[j];
    var f := FirstMatching(other);
    assert f.Some?;
    assert f.value == i;
  }

  /** Non-placeholder items come from the first five nodes of the first
      matching selector, and appear in the order of those nodes. */
  lemma ParseComesFromChosen(doc: Document)
    requires Collected(doc) != []
    ensures FirstMatching(doc).Some?
    ensures Parse(doc) == Harvest(Cap(doc[FirstMatching(doc).value]))
    ensures forall it :: it in Parse(doc) ==>
              exists k :: 0 <= k < |Cap(doc[FirstMatching(doc).value])| &&
                          ItemOf(Cap(doc[FirstMatching(doc).value])[k]) == Some(it)
  {
    HarvestSound(Cap(doc[FirstMatching(doc).value]));
  }

  // ----- Concrete pages -----

  const SampleTitle: string := "Breaking AI News Today"

  /** `<a href="/n/1">Breaking AI News Today</a>` */
  const SampleAnchor: Element := Element(SampleTitle, "/n/1")

  /** `<article><h3><a href="/n/1">Breaking AI News Today</a></h3></article>` */
  const SampleArticle: Node := Node(false, Element(SampleTitle, ""), Some(SampleAnchor), None, Some(Element(SampleTitle, "")), false)

  /** The same anchor, as matched by the `h3 a` selector. */
  const SampleH3Anchor: Node := Node(true, SampleAnchor, None, None, None, false)

  /** `<article>News</article>`: a title too short to keep. */
  const ShortArticle: Node := Node(false, Element("News", ""), None, None, None, false)

  lemma SampleTitleIsStripped()
    ensures Strip(SampleTitle) == SampleTitle && |SampleTitle| > MinTitleExclusive
  {
    assert SampleTitle[0] == 'B' && SampleTitle[|SampleTitle| - 1] == 'y';
    StrippedIsFixed(SampleTitle);
  }

  lemma SampleLinkResolved()
    ensures Resolve(SampleAnchor.href) == "https://d.aigclink.ai/n/1"
  {
    assert StartsWith("/n/1", "/");
  }

  lemma SampleAnchorItem()
    ensures ItemOf(SampleH3Anchor) == Some(NewsItem(SampleTitle, "https://d.aigclink.ai/n/1"))
  {
    SampleSources();
    SampleLinkResolved();
    ItemOfKept(SampleH3Anchor);
  }

  lemma SampleArticleItem()
    ensures ItemOf(SampleArticle) == Some(NewsItem(SampleTitle, "https://d.aigclink.ai/n/1"))
  {
    SampleSources();
    SampleLinkResolved();
    ItemOfKept(SampleArticle);
  }

  lemma SampleSources()
    ensures Strip(TitleSource(SampleH3Anchor).text) == SampleTitle && LinkSource(SampleH3Anchor) == SampleAnchor
    ensures Strip(TitleSource(SampleArticle).text) == SampleTitle && LinkSource(SampleArticle) == SampleAnchor
  {
    SampleTitleIsStripped();
    assert TitleSource(SampleH3Anchor) == SampleAnchor && TitleSource(SampleArticle) == SampleAnchor;
  }

  /** An `article` holding `<h3><a href="/n/1">Breaking AI News Today</a></h3>`
      yields that one item, with the link made absolute. */
  lemma ArticleScenario()
    ensures Parse([[SampleArticle], [], [], [], [SampleH3Anchor], []]) ==
              [NewsItem(SampleTitle, "https://d.aigclink.ai/n/1")]
  {
    var doc: Document := [[SampleArticle], [], [], [], [SampleH3Anchor], []];
    assert FirstMatching(doc) == Some(0);
    assert Cap(doc[0]) == [SampleArticle];
    SampleArticleItem();
    HarvestOne(SampleArticle);
  }

  /** The quirk of the unconditional `break`: an `article` whose title is
      too short suppresses a later `h3 a` match that would have given a
      valid item, and the placeholders come out. */
  lemma ShortArticleSuppressesLaterSelector()
    ensures Harvest(Cap([SampleH3Anchor])) != []
    ensures Parse([[ShortArticle], [], [], [], [SampleH3Anchor], []]) == Placeholders
  {
    var doc: Document := [[ShortArticle], [], [], [], [SampleH3Anchor], []];
    assert FirstMatching(doc) == Some(0);
    assert Cap(doc[0]) == [ShortArticle];
    assert |Strip("News")| <= 4;
    assert ItemOf(ShortArticle) == None;
    HarvestOne(ShortArticle);
    SampleAnchorItem();
    HarvestOne(SampleH3Anchor);
  }
}
