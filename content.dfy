/**
 * `extract_blog_content`: locating the region of the page that holds the
 * post, and trimming it down by deleting boilerplate and noise subtrees.
 */
module Content {
  import opened Wrappers
  import opened PyStr
  import opened Dom
  import opened Removal

  /**
   * `find("div", class_=cls)` for the class tokens tried, in this order, when
   * the page has no `<article>`.
   */
  const Tiers: seq<Selector> := [
    TagClass("div", "blog-content"),
    TagClass("div", "post-content"),
    TagClass("div", "entry-content"),
    TagClass("div", "content"),
    TagClass("div", "article-body")
  ]

  /** `remove_selectors`, each CSS selector written as the predicate it denotes. */
  const RemoveSelectors: seq<Selector> := [
    TagClass("ul", "entry-meta"),            // ul.entry-meta
    TagClass("div", "entry-tags"),           // div.entry-tags
    TagClass("div", "ct-share-box"),         // div.ct-share-box
    TagClass("div", "author-box"),           // div.author-box
    TagClass("nav", "post-navigation"),      // nav.post-navigation
    TagClass("div", "wp-block-buttons"),     // div.wp-block-buttons
    Tag("aside"),                            // aside
    ClassWithin("header", "entry-meta"),     // header .entry-meta
    Tag("footer")                            // footer
  ]

  /** Everything the extraction deletes from the region: the selector list, then the noise tags. */
  const ContentFilter: Selector := AnyOf(RemoveSelectors + [TagIn(NoiseTags)])

  /**
   * The index of the first selector, from `from` on, that something on the
   * page matches; None when nothing matches any of them.
   */
  function FirstTier(hits: seq<Hit>, sels: seq<Selector>, from: nat): Option<nat>
    requires from <= |sels|
    decreases |sels| - from
  {
    if from == |sels| then None
    else if Find(hits, sels[from]).Some? then Some(from)
    else FirstTier(hits, sels, from + 1)
  }

  /** No tier is found exactly when none of the selectors finds anything. */
  lemma {:induction false} FirstTierNone(hits: seq<Hit>, sels: seq<Selector>, from: nat)
    requires from <= |sels|
    ensures FirstTier(hits, sels, from).None? <==> forall i :: from <= i < |sels| ==> Find(hits, sels[i]).None?
    decreases |sels| - from
  {
    if from < |sels| {
      FirstTierNone(hits, sels, from + 1);
    }
  }

  /** The tier found finds something, and no earlier one does. */
  lemma {:induction false} FirstTierSome(hits: seq<Hit>, sels: seq<Selector>, from: nat)
    requires from <= |sels| && FirstTier(hits, sels, from).Some?
    ensures var k := FirstTier(hits, sels, from).value;
      from <= k < |sels| && Find(hits, sels[k]).Some? && forall j :: from <= j < k ==> Find(hits, sels[j]).None?
    decreases |sels| - from
  {
    if Find(hits, sels[from]).None? {
      FirstTierSome(hits, sels, from + 1);
    }
  }

  /**
   * The region the extraction works on: the first `<article>`, else the
   * first `div` of the earliest class tier that has one, else `<body>`.
   */
  function Locate(doc: Node): Option<Hit> {
    // `doc` is the parsed page's `[document]` object, so its tag is no real element's tag
    // and sets no `above` context that a selector could match.
    var hits := Descendants(doc, {});
    var article := Find(hits, Tag("article"));
    if article.Some? then article
    else
      match FirstTier(hits, Tiers, 0)
      case Some(k) => Find(hits, Tiers[k])
      case None => Find(hits, Tag("body"))
  }

  /** The region is a node of the page: an `<article>`, a `div` carrying one of the tokens, or `<body>`. */
  lemma LocateFound(doc: Node)
    requires Locate(doc).Some?
    ensures Locate(doc).value in Descendants(doc, {})
    ensures var r := Locate(doc).value;
      Matches(Tag("article"), r) || Matches(Tag("body"), r)
      || exists i :: 0 <= i < |Tiers| && Matches(Tiers[i], r)
  {
    var hits := Descendants(doc, {});
    if Find(hits, Tag("article")).None? && FirstTier(hits, Tiers, 0).Some? {
      FirstTierSome(hits, Tiers, 0);
    }
  }

  /** Nothing of the three kinds anywhere on the page. */
  predicate NoRegion(doc: Node) {
    forall h :: h in Descendants(doc, {}) ==>
      !Matches(Tag("article"), h) && !Matches(Tag("body"), h) && forall i :: 0 <= i < |Tiers| ==> !Matches(Tiers[i], h)
  }

  /** A page with nothing of the three kinds has no region. */
  lemma NoRegionIsNone(doc: Node)
    requires NoRegion(doc)
    ensures Locate(doc).None?
  {
    var hits := Descendants(doc, {});
    FirstTierNone(hits, Tiers, 0);
    forall i | 0 <= i < |Tiers|
      ensures Find(hits, Tiers[i]).None?
    {
      assert forall h :: h in hits ==> !Matches(Tiers[i], h);
    }
  }

  /** There is no region exactly when the page has no `<article>`, no `div` of any tier and no `<body>`. */
  lemma LocateNone(doc: Node)
    ensures Locate(doc).None? <==> NoRegion(doc)
  {
    if NoRegion(doc) {
      NoRegionIsNone(doc);
    }
    if Locate(doc).Some? {
      LocateFound(doc);
      var r := Locate(doc).value;
      if exists i :: 0 <= i < |Tiers| && Matches(Tiers[i], r) {
        var i :| 0 <= i < |Tiers| && Matches(Tiers[i], r);
        assert !NoRegion(doc);
      }
    }
  }

  /** Lines 79-94: `find("article")`, the class loop with its `break`, then `soup.body`. */
  method LocateContent(doc: Node) returns (r: Option<Hit>)
    ensures r == Locate(doc)
  {
    var hits := Descendants(doc, {});
    r := Find(hits, Tag("article"));
    if r.None? {
      for i := 0 to |Tiers|
        invariant r.None?
        invariant FirstTier(hits, Tiers, i) == FirstTier(hits, Tiers, 0)
      {
        r := Find(hits, Tiers[i]);
        if r.Some? {
          break;
        }
      }
      if r.None? {
        r := Find(hits, Tag("body"));
      }
    }
  }

  /** The first `<article>` of the page wins whenever there is one. */
  lemma ArticleWins(doc: Node, h: Hit)
    requires h in Descendants(doc, {}) && Matches(Tag("article"), h)
    ensures Locate(doc).Some? && Matches(Tag("article"), Locate(doc).value)
    ensures exists i :: 0 <= i < |Descendants(doc, {})| && Descendants(doc, {})[i] == Locate(doc).value
                        && forall j :: 0 <= j < i ==> !Matches(Tag("article"), Descendants(doc, {})[j])
  {
    FindFirst(Descendants(doc, {}), Tag("article"));
  }

  /**
   * Without an `<article>`, a `div` with the token of `Tiers[k]` means
   * the region is a `div` of tier `k` or of an earlier tier, wherever in the
   * page that `div` lies: class priority beats document order.
   */
  lemma ClassPriority(doc: Node, k: nat, h: Hit)
    requires forall g :: g in Descendants(doc, {}) ==> !Matches(Tag("article"), g)
    requires k < |Tiers| && h in Descendants(doc, {}) && Matches(Tiers[k], h)
    ensures Locate(doc).Some?
    ensures exists i :: 0 <= i <= k && Matches(Tiers[i], Locate(doc).value)
                        && forall j, g :: 0 <= j < i && g in Descendants(doc, {}) ==> !Matches(Tiers[j], g)
    ensures exists i, p :: 0 <= i <= k && 0 <= p < |Descendants(doc, {})| && Descendants(doc, {})[p] == Locate(doc).value
                           && Matches(Tiers[i], Locate(doc).value)
                           && forall q :: 0 <= q < p ==> !Matches(Tiers[i], Descendants(doc, {})[q])
  {
    var hits := Descendants(doc, {});
    assert Find(hits, Tag("article")).None?;
    assert Find(hits, Tiers[k]).Some?;
    FirstTierNone(hits, Tiers, 0);
    FirstTierSome(hits, Tiers, 0);
    var i := FirstTier(hits, Tiers, 0).value;
    assert i <= k;
    assert Locate(doc) == Find(hits, Tiers[i]);
    FindFirst(hits, Tiers[i]);
  }

  /** `<body>` is taken only when there is neither an `<article>` nor a `div` of any tier. */
  lemma BodyFallback(doc: Node)
    requires forall h :: h in Descendants(doc, {}) ==>
      !Matches(Tag("article"), h) && forall i :: 0 <= i < |Tiers| ==> !Matches(Tiers[i], h)
    ensures Locate(doc) == Find(Descendants(doc, {}), Tag("body"))
  {
    var hits := Descendants(doc, {});
    FirstTierNone(hits, Tiers, 0);
  }

  /**
   * A `div.blog-content` late in the page beats a `div.content` that comes
   * earlier: the earlier one is never the region.
   */
  lemma ClassBeatsDocumentOrder(doc: Node, i: nat, j: nat)
    requires forall g :: g in Descendants(doc, {}) ==> !Matches(Tag("article"), g)
    requires i < j < |Descendants(doc, {})|
    requires Matches(TagClass("div", "content"), Descendants(doc, {})[i])
    requires !Matches(TagClass("div", "blog-content"), Descendants(doc, {})[i])
    requires Matches(TagClass("div", "blog-content"), Descendants(doc, {})[j])
    ensures Locate(doc).Some? && Locate(doc).value != Descendants(doc, {})[i]
    ensures Matches(TagClass("div", "blog-content"), Locate(doc).value)
  {
    ClassPriority(doc, 0, Descendants(doc, {})[j]);
  }

  /**
   * The content `extract_blog_content` returns: the located region with every
   * subtree matching `remove_selectors` or a noise tag deleted. Without a
   * region, `.select` is called on None.
   */
  function BlogContent(doc: Node): (r: Result<Node, Crash>)
    ensures r.Failure? <==> Locate(doc).None?
    ensures r.Failure? ==> r.error == NoBody
    ensures r.Success? ==> r.value.id == Locate(doc).value.node.id
  {
    match Locate(doc)
    case None => Failure(NoBody)
    case Some(h) => Success(Prune(h.node, ContentFilter, h.above))
  }

  /** A node the combined filter misses is missed by each entry of the list and is no noise tag. */
  lemma FilterMisses(m: Hit)
    requires !Matches(ContentFilter, m)
    ensures forall i :: 0 <= i < |RemoveSelectors| ==> !Matches(RemoveSelectors[i], m)
    ensures !(m.node.Element? && m.node.tag in NoiseTags)
  {
    var all := RemoveSelectors + [TagIn(NoiseTags)];
    forall i | 0 <= i < |RemoveSelectors|
      ensures !Matches(RemoveSelectors[i], m)
    {
      assert all[i] == RemoveSelectors[i];
    }
    assert all[|RemoveSelectors|] == TagIn(NoiseTags);
  }

  /**
   * No subtree the extraction deletes is left in the returned content: no
   * node below its root matches an entry of `remove_selectors` or is a
   * `style`, `script`, `svg` or `noscript` element.
   */
  lemma ContentIsClean(doc: Node)
    requires BlogContent(doc).Success?
    ensures forall m :: m in Descendants(BlogContent(doc).value, Locate(doc).value.above) ==>
      (forall i :: 0 <= i < |RemoveSelectors| ==> !Matches(RemoveSelectors[i], m))
      && !(m.node.Element? && m.node.tag in NoiseTags)
  {
    var h := Locate(doc).value;
    PruneClean(h.node, ContentFilter, h.above);
    forall m | m in Descendants(BlogContent(doc).value, h.above)
      ensures (forall i :: 0 <= i < |RemoveSelectors| ==> !Matches(RemoveSelectors[i], m))
              && !(m.node.Element? && m.node.tag in NoiseTags)
    {
      FilterMisses(m);
    }
  }

  /**
   * Exactly the nodes of the region that lie inside no deleted subtree are
   * kept: a node is in the returned content if and only if it is in the
   * region and no node the extraction deletes contains it.
   */
  lemma ContentKeeps(doc: Node, id: nat)
    requires Distinct(doc) && BlogContent(doc).Success?
    ensures var h := Locate(doc).value;
      id in IdsOf(BlogContent(doc).value) <==>
        id in IdsOf(h.node) && !(h.node.Element? && Covered(id, h.node.children, ContentFilter, h.above + {h.node.tag}))
    ensures var h := Locate(doc).value;
      && Embeds(Descendants(BlogContent(doc).value, h.above), Descendants(h.node, h.above), ContentFilter)
      && forall m :: m in Descendants(BlogContent(doc).value, h.above) ==>
           exists g :: g in Descendants(h.node, h.above) && PrunedFrom(m, g, ContentFilter) && SameShell(m, g)
  {
    var h := Locate(doc).value;
    DescendantsDistinct(doc, {});
    PruneKeeps(h.node, ContentFilter, h.above, id);
    PruneShape(h.node, ContentFilter, h.above);
    EmbedsMembers(Descendants(BlogContent(doc).value, h.above), Descendants(h.node, h.above), ContentFilter);
  }

  /**
   * Lines 76-115 as they run: locate the region, decompose the matches of
   * each entry of `remove_selectors` in turn, then `clean_html`.
   */
  method ExtractBlogContent(doc: Node) returns (r: Result<Node, Crash>)
    requires Distinct(doc)
    ensures r == BlogContent(doc)
  {
    var found := LocateContent(doc);
    if found.None? {
      return Failure(NoBody);
    }
    var h := found.value;
    LocateFound(doc);
    DescendantsDistinct(doc, {});
    var article := new Region(h.node, h.above);
    article.DecomposeEach(RemoveSelectors);
    article.CleanHtml();
    AnyOfSnoc(RemoveSelectors, TagIn(NoiseTags));
    PruneTwice(h.node, AnyOf(RemoveSelectors), TagIn(NoiseTags), ContentFilter, h.above);
    r := Success(article.root);
  }
}
