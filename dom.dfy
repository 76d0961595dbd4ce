/**
 * The parsed HTML tree the extraction works on, and the queries it runs over
 * it: `find`, `find_all`, `select`, `.string` and `get_text(strip=True)`.
 */
module Dom {
  import opened Wrappers
  import opened PyStr

  /**
   * A node of the parsed page: an element with its tag name, attributes and
   * ordered children, or a piece of text. `id` is the node's identity as an
   * object of the parsed tree; a parser gives every node its own (`Distinct`).
   */
  datatype Node =
    | Element(id: nat, tag: string, attrs: map<string, string>, children: seq<Node>)
    | Text(id: nat, text: string)

  /** A node found in a tree, with the tag names of all its ancestors. */
  datatype Hit = Hit(node: Node, above: set<string>)

  /** The exceptions the extraction code can raise on a page. */
  datatype Crash =
    | TitleWithoutString  // `soup.title.string` is None, so `.strip()` fails
    | NoBody              // no article region and no `<body>`: `.select` on None
    | SrcsetWithoutUrl    // `srcset.split(",")[0].split()[0]` on a blank entry

  /**
   * The strict descendants of `n` in document order, each with the tags above
   * it; `above` holds the tags of the ancestors of `n` itself.
   */
  function Descendants(n: Node, above: set<string>): seq<Hit>
    decreases n
  {
    match n
    case Text(_, _) => []
    case Element(_, tag, _, cs) => Within(cs, above + {tag})
  }

  /** The nodes of the forest `cs` in document order; `above` is the tags above `cs`. */
  function Within(cs: seq<Node>, above: set<string>): seq<Hit>
    decreases cs
  {
    if cs == [] then [] else [Hit(cs[0], above)] + Descendants(cs[0], above) + Within(cs[1..], above)
  }

  lemma {:induction false} WithinAppend(x: seq<Node>, y: seq<Node>, above: set<string>)
    ensures Within(x + y, above) == Within(x, above) + Within(y, above)
    decreases x
  {
    if x == [] {
      assert x + y == y;
    } else {
      assert (x + y)[0] == x[0] && (x + y)[1..] == x[1..] + y;
      WithinAppend(x[1..], y, above);
    }
  }

  // ---------------------------------------------------------------- identity

  function IdsOf(n: Node): set<nat>
    decreases n
  {
    match n
    case Text(id, _) => {id}
    case Element(id, _, _, cs) => {id} + IdsIn(cs)
  }

  function IdsIn(cs: seq<Node>): set<nat>
    decreases cs
  {
    if cs == [] then {} else IdsOf(cs[0]) + IdsIn(cs[1..])
  }

  /** No two nodes of the tree are the same object. */
  predicate Distinct(n: Node)
    decreases n
  {
    match n
    case Text(_, _) => true
    case Element(id, _, _, cs) => id !in IdsIn(cs) && DistinctIn(cs)
  }

  predicate DistinctIn(cs: seq<Node>)
    decreases cs
  {
    cs == [] || (Distinct(cs[0]) && IdsOf(cs[0]) !! IdsIn(cs[1..]) && DistinctIn(cs[1..]))
  }

  /** Every node found below `n` lies inside `n`: its identity and its subtree's are among `n`'s. */
  lemma {:induction false} DescendantIds(n: Node, above: set<string>)
    ensures forall h :: h in Descendants(n, above) ==> n.Element? && IdsOf(h.node) <= IdsIn(n.children)
    decreases n
  {
    if n.Element? {
      WithinIds(n.children, above + {n.tag});
    }
  }

  lemma {:induction false} WithinIds(cs: seq<Node>, above: set<string>)
    ensures forall h :: h in Within(cs, above) ==> IdsOf(h.node) <= IdsIn(cs)
    decreases cs
  {
    if cs != [] {
      DescendantIds(cs[0], above);
      WithinIds(cs[1..], above);
    }
  }

  /** Every subtree of a tree of distinct nodes is itself made of distinct nodes. */
  lemma {:induction false} WithinDistinct(cs: seq<Node>, above: set<string>)
    requires DistinctIn(cs)
    ensures forall h :: h in Within(cs, above) ==> Distinct(h.node)
    decreases cs
  {
    if cs != [] {
      if cs[0].Element? {
        WithinDistinct(cs[0].children, above + {cs[0].tag});
      }
      WithinDistinct(cs[1..], above);
    }
  }

  /** In a tree of distinct nodes, a node found below the root is determined by its identity. */
  lemma {:induction false} WithinUnique(cs: seq<Node>, above: set<string>)
    requires DistinctIn(cs)
    ensures forall h1, h2 :: h1 in Within(cs, above) && h2 in Within(cs, above) && h1.node.id == h2.node.id ==> h1 == h2
    decreases cs
  {
    if cs != [] {
      var first, inner, rest := Hit(cs[0], above), Descendants(cs[0], above), Within(cs[1..], above);
      assert Within(cs, above) == [first] + inner + rest;
      WithinIds(cs[1..], above);
      DescendantIds(cs[0], above);
      if cs[0].Element? {
        WithinUnique(cs[0].children, above + {cs[0].tag});
      }
      WithinUnique(cs[1..], above);
      forall h1, h2 | h1 in Within(cs, above) && h2 in Within(cs, above) && h1.node.id == h2.node.id
        ensures h1 == h2
      {
        assert h1.node.id in IdsOf(h1.node) && h2.node.id in IdsOf(h2.node) by {
          assert h1.node.Text? || h1.node.Element?;
        }
      }
    }
  }

  /** Every node below a tree of distinct nodes roots a tree of distinct nodes. */
  lemma DescendantsDistinct(n: Node, above: set<string>)
    requires Distinct(n)
    ensures forall h :: h in Descendants(n, above) ==> Distinct(h.node)
  {
    if n.Element? {
      WithinDistinct(n.children, above + {n.tag});
    }
  }

  // ---------------------------------------------------------------- selectors

  /** The class tokens of an element: its `class` attribute split at whitespace. */
  function Classes(n: Node): seq<string> {
    if n.Element? && "class" in n.attrs then Words(n.attrs["class"]) else []
  }

  predicate HasClass(n: Node, cls: string) {
    cls in Classes(n)
  }

  /** The queries the extraction code makes, as data. */
  datatype Selector =
    | Tag(name: string)                             // find("h1"), select("aside")
    | TagIn(names: set<string>)                     // soup(["style", "script", ...])
    | TagClass(name: string, cls: string)           // find("div", class_=...), select("ul.entry-meta")
    | ClassWithin(ancestor: string, cls: string)    // select("header .entry-meta")
    | WithAttr(attr: string)                        // find_all(style=True)
    | AnyOf(alternatives: seq<Selector>)            // a selector list

  predicate Matches(sel: Selector, h: Hit)
    decreases sel
  {
    match sel
    case Tag(name) => h.node.Element? && h.node.tag == name
    case TagIn(names) => h.node.Element? && h.node.tag in names
    case TagClass(name, cls) => h.node.Element? && h.node.tag == name && HasClass(h.node, cls)
    case ClassWithin(ancestor, cls) => h.node.Element? && ancestor in h.above && HasClass(h.node, cls)
    case WithAttr(attr) => h.node.Element? && attr in h.node.attrs
    case AnyOf(alternatives) => exists i :: 0 <= i < |alternatives| && Matches(alternatives[i], h)
  }

  /** Whether a selector matches depends only on the node's kind, tag, attributes and ancestors. */
  lemma {:induction false} MatchesShallow(sel: Selector, n: Node, m: Node, above: set<string>)
    requires n.Element? == m.Element?
    requires n.Element? ==> n.tag == m.tag && n.attrs == m.attrs
    ensures Matches(sel, Hit(n, above)) == Matches(sel, Hit(m, above))
    decreases sel
  {
    if sel.AnyOf? {
      forall i | 0 <= i < |sel.alternatives| {
        MatchesShallow(sel.alternatives[i], n, m, above);
      }
    }
  }

  /** A selector list with one more entry matches what the shorter list or the new entry matches. */
  lemma AnyOfSnoc(alts: seq<Selector>, x: Selector)
    ensures forall h :: Matches(AnyOf(alts + [x]), h) <==> Matches(AnyOf(alts), h) || Matches(x, h)
  {
    var both := alts + [x];
    forall h
      ensures Matches(AnyOf(both), h) <==> Matches(AnyOf(alts), h) || Matches(x, h)
    {
      if Matches(AnyOf(both), h) {
        var i :| 0 <= i < |both| && Matches(both[i], h);
        if i < |alts| {
          assert both[i] == alts[i];
        }
      }
      if Matches(AnyOf(alts), h) {
        var i :| 0 <= i < |alts| && Matches(alts[i], h);
        assert both[i] == alts[i];
      }
      if Matches(x, h) {
        assert both[|alts|] == x;
      }
    }
  }

  /** `find_all`: the hits that match, in document order. */
  function FindAll(hits: seq<Hit>, sel: Selector): (r: seq<Hit>)
    ensures forall h :: h in r <==> h in hits && Matches(sel, h)
  {
    if hits == [] then []
    else (if Matches(sel, hits[0]) then [hits[0]] else []) + FindAll(hits[1..], sel)
  }

  /** `find`: the first hit that matches. */
  function Find(hits: seq<Hit>, sel: Selector): (r: Option<Hit>)
    ensures r.None? <==> forall h :: h in hits ==> !Matches(sel, h)
    ensures r.Some? ==> r.value in hits && Matches(sel, r.value)
  {
    if hits == [] then None
    else if Matches(sel, hits[0]) then
      assert hits[0] in hits;
      Some(hits[0])
    else
      assert forall h :: h in hits <==> h == hits[0] || h in hits[1..];
      Find(hits[1..], sel)
  }

  /** What `find` returns is the first match: every hit before it fails to match. */
  lemma {:induction false} FindFirst(hits: seq<Hit>, sel: Selector)
    requires Find(hits, sel).Some?
    ensures exists i :: 0 <= i < |hits| && hits[i] == Find(hits, sel).value
                        && forall j :: 0 <= j < i ==> !Matches(sel, hits[j])
  {
    if !Matches(sel, hits[0]) {
      FindFirst(hits[1..], sel);
      var i :| 0 <= i < |hits| - 1 && hits[1..][i] == Find(hits, sel).value
                && forall j :: 0 <= j < i ==> !Matches(sel, hits[1..][j]);
      assert hits[i + 1] == Find(hits, sel).value;
      assert forall j :: 0 < j < i + 1 ==> hits[j] == hits[1..][j - 1];
    }
  }

  /** The identities of the matching hits, in document order, as `select` returns them. */
  function SelectIds(hits: seq<Hit>, sel: Selector): (r: seq<nat>)
    ensures forall h :: h in hits && Matches(sel, h) ==> h.node.id in r
    ensures forall id :: id in r ==> exists h :: h in hits && Matches(sel, h) && h.node.id == id
  {
    if hits == [] then []
    else (if Matches(sel, hits[0]) then [hits[0].node.id] else []) + SelectIds(hits[1..], sel)
  }

  // ---------------------------------------------------------------- text

  /** The strings of `n` in document order. */
  function Texts(n: Node): seq<string>
    decreases n
  {
    match n
    case Text(_, t) => [t]
    case Element(_, _, _, cs) => TextsIn(cs)
  }

  function TextsIn(cs: seq<Node>): seq<string>
    decreases cs
  {
    if cs == [] then [] else Texts(cs[0]) + TextsIn(cs[1..])
  }

  /**
   * `.string`: the string of a node whose only child is a string, looking
   * through elements that have exactly one child; None otherwise.
   */
  function StringOf(n: Node): (r: Option<string>)
    ensures r.Some? ==> Texts(n) == [r.value]
    ensures n.Element? && |n.children| != 1 ==> r.None?
    ensures n.Text? ==> r == Some(n.text)
    ensures n.Element? && |n.children| == 1 && n.children[0].Text? ==> r == Some(n.children[0].text)
    ensures n.Element? && |n.children| == 1 && n.children[0].Element? ==> r == StringOf(n.children[0])
    decreases n
  {
    match n
    case Text(_, t) => Some(t)
    case Element(_, _, _, cs) =>
      if |cs| == 1 then
        assert TextsIn(cs) == Texts(cs[0]) + TextsIn(cs[1..]) && cs[1..] == [];
        StringOf(cs[0])
      else None
  }

  /** `"".join(s.strip() for s in strings)`: each string stripped, glued together. */
  function JoinStripped(ts: seq<string>): (r: string)
    ensures r != [] ==> r[0] !in Whitespace && r[|r| - 1] !in Whitespace
    ensures r == [] <==> forall t :: t in ts ==> Trim(t) == []
    ensures |ts| == 1 ==> r == Trim(ts[0])
  {
    if ts == [] then []
    else
      assert forall t :: t in ts <==> t == ts[0] || t in ts[1..];
      var rest := JoinStripped(ts[1..]);
      assert |ts| == 1 ==> rest == [];
      Trim(ts[0]) + rest
  }

  /** The stripped text of two runs of strings is the stripped text of each, glued together. */
  lemma {:induction false} JoinStrippedAppend(a: seq<string>, b: seq<string>)
    ensures JoinStripped(a + b) == JoinStripped(a) + JoinStripped(b)
    decreases a
  {
    if a == [] {
      assert a + b == b;
    } else {
      assert (a + b)[0] == a[0] && (a + b)[1..] == a[1..] + b;
      JoinStrippedAppend(a[1..], b);
    }
  }

  /** `get_text(strip=True)`. */
  function StrippedText(n: Node): string {
    JoinStripped(Texts(n))
  }
}
