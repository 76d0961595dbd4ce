/**
 * Deleting subtrees in place: `decompose()`, the loops that decompose every
 * node a selector matches, and `clean_html`.
 */
module Removal {
  import opened Dom

  // ---------------------------------------------------------------- by selector

  /** `n` with every descendant that `sel` matches cut off, together with its subtree. */
  function Prune(n: Node, sel: Selector, above: set<string>): (r: Node)
    ensures r.id == n.id && r.Element? == n.Element?
    ensures n.Element? ==> r.tag == n.tag && r.attrs == n.attrs
    ensures n.Text? ==> r == n
    decreases n
  {
    match n
    case Text(_, _) => n
    case Element(id, tag, attrs, cs) => Element(id, tag, attrs, PruneIn(cs, sel, above + {tag}))
  }

  function PruneIn(cs: seq<Node>, sel: Selector, above: set<string>): seq<Node>
    decreases cs
  {
    if cs == [] then []
    else (if Matches(sel, Hit(cs[0], above)) then [] else [Prune(cs[0], sel, above)]) + PruneIn(cs[1..], sel, above)
  }

  lemma {:induction false} PruneInAppend(x: seq<Node>, y: seq<Node>, sel: Selector, above: set<string>)
    ensures PruneIn(x + y, sel, above) == PruneIn(x, sel, above) + PruneIn(y, sel, above)
    decreases x
  {
    if x == [] {
      assert x + y == y;
    } else {
      var kept := if Matches(sel, Hit(x[0], above)) then [] else [Prune(x[0], sel, above)];
      var rest, tail := PruneIn(x[1..], sel, above), PruneIn(y, sel, above);
      assert (x + y)[0] == x[0] && (x + y)[1..] == x[1..] + y;
      PruneInAppend(x[1..], y, sel, above);
      assert PruneIn(x + y, sel, above) == kept + (rest + tail);
      assert kept + (rest + tail) == (kept + rest) + tail;
    }
  }

  /** Nothing that `sel` matches is left below the root of the pruned tree. */
  lemma {:induction false} PruneClean(n: Node, sel: Selector, above: set<string>)
    ensures forall h :: h in Descendants(Prune(n, sel, above), above) ==> !Matches(sel, h)
    decreases n
  {
    if n.Element? {
      PruneInClean(n.children, sel, above + {n.tag});
    }
  }

  lemma {:induction false} PruneInClean(cs: seq<Node>, sel: Selector, above: set<string>)
    ensures forall h :: h in Within(PruneIn(cs, sel, above), above) ==> !Matches(sel, h)
    decreases cs
  {
    if cs != [] {
      var c := cs[0];
      var kept := if Matches(sel, Hit(c, above)) then [] else [Prune(c, sel, above)];
      assert PruneIn(cs, sel, above) == kept + PruneIn(cs[1..], sel, above);
      WithinAppend(kept, PruneIn(cs[1..], sel, above), above);
      PruneInClean(cs[1..], sel, above);
      if kept != [] {
        var p := Prune(c, sel, above);
        assert Within(kept, above) == [Hit(p, above)] + Descendants(p, above) + Within([], above);
        MatchesShallow(sel, p, c, above);
        PruneClean(c, sel, above);
      }
    }
  }

  /** A forest in which `sel` matches nothing is left as it is. */
  lemma {:induction false} PruneInNothing(cs: seq<Node>, sel: Selector, above: set<string>)
    requires forall h :: h in Within(cs, above) ==> !Matches(sel, h)
    ensures PruneIn(cs, sel, above) == cs
    decreases cs
  {
    if cs != [] {
      var c := cs[0];
      assert Within(cs, above) == [Hit(c, above)] + Descendants(c, above) + Within(cs[1..], above);
      if c.Element? {
        PruneInNothing(c.children, sel, above + {c.tag});
      }
      PruneInNothing(cs[1..], sel, above);
      assert cs == [c] + cs[1..];
    }
  }

  /** A tree in which `sel` matches nothing below the root is left as it is. */
  lemma PruneNothing(n: Node, sel: Selector, above: set<string>)
    requires forall h :: h in Descendants(n, above) ==> !Matches(sel, h)
    ensures Prune(n, sel, above) == n
  {
    if n.Element? {
      PruneInNothing(n.children, sel, above + {n.tag});
    }
  }

  /** Pruning by one selector and then by another is pruning by their union. */
  lemma {:induction false} PruneInTwice(cs: seq<Node>, s1: Selector, s2: Selector, both: Selector, above: set<string>)
    requires forall h :: Matches(both, h) <==> Matches(s1, h) || Matches(s2, h)
    ensures PruneIn(PruneIn(cs, s1, above), s2, above) == PruneIn(cs, both, above)
    decreases cs, 2
  {
    if cs != [] {
      var c, rest := cs[0], cs[1..];
      assert cs == [c] + rest;
      PruneInAppend([c], rest, s1, above);
      PruneInAppend(PruneIn([c], s1, above), PruneIn(rest, s1, above), s2, above);
      PruneInAppend([c], rest, both, above);
      PruneInTwice(rest, s1, s2, both, above);
      PruneHeadTwice(c, s1, s2, both, above);
    }
  }

  lemma {:induction false} PruneHeadTwice(c: Node, s1: Selector, s2: Selector, both: Selector, above: set<string>)
    requires forall h :: Matches(both, h) <==> Matches(s1, h) || Matches(s2, h)
    ensures PruneIn(PruneIn([c], s1, above), s2, above) == PruneIn([c], both, above)
    decreases c, 1
  {
    var h := Hit(c, above);
    assert Matches(both, h) <==> Matches(s1, h) || Matches(s2, h);
    PruneInSingle(c, s1, above);
    PruneInSingle(c, both, above);
    if Matches(s1, h) {
      assert Matches(both, h);
    } else {
      var p := Prune(c, s1, above);
      MatchesShallow(s2, p, c, above);
      PruneInSingle(p, s2, above);
      if Matches(s2, h) {
        assert Matches(both, h);
      } else {
        assert !Matches(both, h);
        PruneTwice(c, s1, s2, both, above);
      }
    }
  }

  lemma PruneInSingle(x: Node, sel: Selector, above: set<string>)
    ensures PruneIn([x], sel, above) == if Matches(sel, Hit(x, above)) then [] else [Prune(x, sel, above)]
  {
    assert [x][1..] == [];
  }

  lemma {:induction false} PruneTwice(n: Node, s1: Selector, s2: Selector, both: Selector, above: set<string>)
    requires forall h :: Matches(both, h) <==> Matches(s1, h) || Matches(s2, h)
    ensures Prune(Prune(n, s1, above), s2, above) == Prune(n, both, above)
    decreases n, 0
  {
    if n.Element? {
      var inner := above + {n.tag};
      var once := PruneIn(n.children, s1, inner);
      assert Prune(n, s1, above) == Element(n.id, n.tag, n.attrs, once);
      assert Prune(Element(n.id, n.tag, n.attrs, once), s2, above) == Element(n.id, n.tag, n.attrs, PruneIn(once, s2, inner));
      PruneInTwice(n.children, s1, s2, both, inner);
    }
  }

  lemma {:induction false} PruneInIds(cs: seq<Node>, sel: Selector, above: set<string>)
    ensures IdsIn(PruneIn(cs, sel, above)) <= IdsIn(cs)
    ensures DistinctIn(cs) ==> DistinctIn(PruneIn(cs, sel, above))
    decreases cs
  {
    if cs != [] {
      var c := cs[0];
      PruneInIds(cs[1..], sel, above);
      var rest := PruneIn(cs[1..], sel, above);
      if Matches(sel, Hit(c, above)) {
        assert PruneIn(cs, sel, above) == rest;
      } else {
        var p := Prune(c, sel, above);
        assert PruneIn(cs, sel, above) == [p] + rest;
        assert ([p] + rest)[0] == p && ([p] + rest)[1..] == rest;
        if c.Element? {
          PruneInIds(c.children, sel, above + {c.tag});
          assert IdsOf(p) == {c.id} + IdsIn(p.children);
        }
        assert IdsOf(p) <= IdsOf(c);
        assert Distinct(c) ==> Distinct(p);
      }
    }
  }

  /** The pruned tree is still made of distinct nodes. */
  lemma PruneDistinct(n: Node, sel: Selector, above: set<string>)
    requires Distinct(n)
    ensures Distinct(Prune(n, sel, above)) && IdsOf(Prune(n, sel, above)) <= IdsOf(n)
  {
    if n.Element? {
      PruneInIds(n.children, sel, above + {n.tag});
    }
  }

  /** Some node that `sel` matches in `cs` has the node `id` in its subtree. */
  ghost predicate Covered(id: nat, cs: seq<Node>, sel: Selector, above: set<string>) {
    exists m :: m in Within(cs, above) && Matches(sel, m) && id in IdsOf(m.node)
  }

  /** A node is covered in `cs` when the first tree's root matches over it, or a match lies below the root or in the rest. */
  lemma CoveredCons(id: nat, cs: seq<Node>, sel: Selector, above: set<string>)
    requires cs != []
    ensures Covered(id, cs, sel, above) <==>
      (Matches(sel, Hit(cs[0], above)) && id in IdsOf(cs[0]))
      || (cs[0].Element? && Covered(id, cs[0].children, sel, above + {cs[0].tag}))
      || Covered(id, cs[1..], sel, above)
  {
    var c := cs[0];
    assert Within(cs, above) == [Hit(c, above)] + Descendants(c, above) + Within(cs[1..], above);
    if Covered(id, cs, sel, above) {
      var m :| m in Within(cs, above) && Matches(sel, m) && id in IdsOf(m.node);
      if m in Descendants(c, above) {
        assert c.Element?;
        assert Covered(id, c.children, sel, above + {c.tag});
      } else if m in Within(cs[1..], above) {
        assert Covered(id, cs[1..], sel, above);
      }
    }
    if c.Element? && Covered(id, c.children, sel, above + {c.tag}) {
      var m :| m in Within(c.children, above + {c.tag}) && Matches(sel, m) && id in IdsOf(m.node);
      assert m in Within(cs, above);
    }
    if Covered(id, cs[1..], sel, above) {
      var m :| m in Within(cs[1..], above) && Matches(sel, m) && id in IdsOf(m.node);
      assert m in Within(cs, above);
    }
    if Matches(sel, Hit(c, above)) && id in IdsOf(c) {
      assert Hit(c, above) in Within(cs, above);
    }
  }

  /** Only nodes of the forest can be covered. */
  lemma CoveredIds(id: nat, cs: seq<Node>, sel: Selector, above: set<string>)
    ensures Covered(id, cs, sel, above) ==> id in IdsIn(cs)
  {
    WithinIds(cs, above);
  }

  /**
   * Exactly the nodes that lie inside no matched subtree survive: a node is
   * kept if and only if it was there and no node that `sel` matches contains it.
   */
  lemma {:induction false} PruneInKeeps(cs: seq<Node>, sel: Selector, above: set<string>, id: nat)
    requires DistinctIn(cs)
    ensures id in IdsIn(PruneIn(cs, sel, above)) <==> id in IdsIn(cs) && !Covered(id, cs, sel, above)
    decreases cs, 1
  {
    if cs != [] {
      var c, rest := cs[0], cs[1..];
      CoveredCons(id, cs, sel, above);
      CoveredIds(id, rest, sel, above);
      PruneInIds(rest, sel, above);
      PruneInKeeps(rest, sel, above, id);
      if c.Element? {
        CoveredIds(id, c.children, sel, above + {c.tag});
      }
      if Matches(sel, Hit(c, above)) {
        assert PruneIn(cs, sel, above) == PruneIn(rest, sel, above);
      } else {
        var p := Prune(c, sel, above);
        assert PruneIn(cs, sel, above) == [p] + PruneIn(rest, sel, above);
        assert ([p] + PruneIn(rest, sel, above))[0] == p;
        assert ([p] + PruneIn(rest, sel, above))[1..] == PruneIn(rest, sel, above);
        PruneKeeps(c, sel, above, id);
      }
    }
  }

  lemma {:induction false} PruneKeeps(n: Node, sel: Selector, above: set<string>, id: nat)
    requires Distinct(n)
    ensures id in IdsOf(Prune(n, sel, above)) <==>
      id in IdsOf(n) && !(n.Element? && Covered(id, n.children, sel, above + {n.tag}))
    decreases n, 0
  {
    if n.Element? {
      PruneInKeeps(n.children, sel, above + {n.tag}, id);
      CoveredIds(n.id, n.children, sel, above + {n.tag});
    }
  }

  // ---------------------------------------------------------------- what is kept is unchanged

  /** `h` is `g` as it survives a deletion: same place, identity and kind, same tag and attributes, same text. */
  predicate SameShell(h: Hit, g: Hit) {
    && h.above == g.above && h.node.id == g.node.id && h.node.Element? == g.node.Element?
    && (g.node.Text? ==> h.node == g.node)
    && (g.node.Element? ==> h.node.tag == g.node.tag && h.node.attrs == g.node.attrs)
  }

  /**
   * `h` is what the deletion by `sel` leaves of `g`: at the same place, the
   * same node with the same deletion applied to everything below it, so it
   * keeps its own children, minus the deleted ones, in their order.
   */
  predicate PrunedFrom(h: Hit, g: Hit, sel: Selector) {
    h.above == g.above && h.node == Prune(g.node, sel, g.above)
  }

  /** What a deletion leaves of a node keeps that node's shell. */
  lemma PrunedFromShell(h: Hit, g: Hit, sel: Selector)
    requires PrunedFrom(h, g, sel)
    ensures SameShell(h, g)
  {
  }

  /**
   * `xs` is obtained from `ys` by leaving hits out and keeping each other
   * one as what the deletion by `sel` leaves of it, in document order.
   */
  predicate Embeds(xs: seq<Hit>, ys: seq<Hit>, sel: Selector)
    decreases |ys|
  {
    if xs == [] then true
    else if ys == [] then false
    else (PrunedFrom(xs[0], ys[0], sel) && Embeds(xs[1..], ys[1..], sel)) || Embeds(xs, ys[1..], sel)
  }

  lemma {:induction false} EmbedsSkip(xs: seq<Hit>, zs: seq<Hit>, ys: seq<Hit>, sel: Selector)
    requires Embeds(xs, ys, sel)
    ensures Embeds(xs, zs + ys, sel)
    decreases zs
  {
    if zs == [] {
      assert zs + ys == ys;
    } else if xs != [] {
      assert (zs + ys)[1..] == zs[1..] + ys;
      EmbedsSkip(xs, zs[1..], ys, sel);
    }
  }

  lemma {:induction false} EmbedsAppend(a: seq<Hit>, b: seq<Hit>, c: seq<Hit>, d: seq<Hit>, sel: Selector)
    requires Embeds(a, b, sel) && Embeds(c, d, sel)
    ensures Embeds(a + c, b + d, sel)
    decreases |b|
  {
    if a == [] {
      assert a + c == c;
      EmbedsSkip(c, b, d, sel);
    } else {
      assert (a + c)[0] == a[0] && (a + c)[1..] == a[1..] + c;
      assert (b + d)[0] == b[0] && (b + d)[1..] == b[1..] + d;
      if PrunedFrom(a[0], b[0], sel) && Embeds(a[1..], b[1..], sel) {
        EmbedsAppend(a[1..], b[1..], c, d, sel);
      } else {
        EmbedsAppend(a, b[1..], c, d, sel);
      }
    }
  }

  /** Every hit of `xs` is what the deletion leaves of a hit of `ys`, and so keeps its shell. */
  lemma {:induction false} EmbedsMembers(xs: seq<Hit>, ys: seq<Hit>, sel: Selector)
    requires Embeds(xs, ys, sel)
    ensures forall h :: h in xs ==> exists g :: g in ys && PrunedFrom(h, g, sel) && SameShell(h, g)
    decreases |ys|
  {
    if xs != [] {
      if PrunedFrom(xs[0], ys[0], sel) && Embeds(xs[1..], ys[1..], sel) {
        EmbedsMembers(xs[1..], ys[1..], sel);
        forall h | h in xs
          ensures exists g :: g in ys && PrunedFrom(h, g, sel) && SameShell(h, g)
        {
          if h == xs[0] {
            PrunedFromShell(h, ys[0], sel);
          } else {
            assert h in xs[1..];
            var g :| g in ys[1..] && PrunedFrom(h, g, sel) && SameShell(h, g);
            assert g in ys;
          }
        }
      } else {
        EmbedsMembers(xs, ys[1..], sel);
        forall h | h in xs
          ensures exists g :: g in ys && PrunedFrom(h, g, sel) && SameShell(h, g)
        {
          var g :| g in ys[1..] && PrunedFrom(h, g, sel) && SameShell(h, g);
          assert g in ys;
        }
      }
    }
  }

  /**
   * Pruning only leaves nodes out: the nodes of the pruned tree are, in
   * document order, nodes of the original at the same place, each with the
   * same deletion applied below it, so each keeps its tag, attributes, text
   * and own surviving children.
   */
  lemma {:induction false} PruneShape(n: Node, sel: Selector, above: set<string>)
    ensures Embeds(Descendants(Prune(n, sel, above), above), Descendants(n, above), sel)
    decreases n, 1
  {
    if n.Element? {
      PruneInShape(n.children, sel, above + {n.tag});
    }
  }

  lemma {:induction false} PruneInShape(cs: seq<Node>, sel: Selector, above: set<string>)
    ensures Embeds(Within(PruneIn(cs, sel, above), above), Within(cs, above), sel)
    decreases cs, 0
  {
    if cs != [] {
      var c, rest := cs[0], PruneIn(cs[1..], sel, above);
      PruneInShape(cs[1..], sel, above);
      var h, d, w := [Hit(c, above)], Descendants(c, above), Within(cs[1..], above);
      assert Within(cs, above) == h + d + w;
      if Matches(sel, Hit(c, above)) {
        assert PruneIn(cs, sel, above) == rest;
        EmbedsSkip(Within(rest, above), h + d, w, sel);
      } else {
        var p := Prune(c, sel, above);
        assert PruneIn(cs, sel, above) == [p] + rest;
        assert ([p] + rest)[0] == p && ([p] + rest)[1..] == rest;
        var hp, dp := [Hit(p, above)], Descendants(p, above);
        assert Within(PruneIn(cs, sel, above), above) == hp + dp + Within(rest, above);
        assert Embeds(hp, h, sel) by {
          assert PrunedFrom(hp[0], h[0], sel);
          assert hp[1..] == [];
        }
        PruneShape(c, sel, above);
        EmbedsAppend(hp, h, dp, d, sel);
        EmbedsAppend(hp + dp, h + d, Within(rest, above), w, sel);
      }
    }
  }

  // ---------------------------------------------------------------- by identity

  /** `n` with every descendant whose identity is in `gone` detached, with its subtree. */
  function Detach(n: Node, gone: set<nat>): Node
    decreases n
  {
    match n
    case Text(_, _) => n
    case Element(id, tag, attrs, cs) => Element(id, tag, attrs, DetachIn(cs, gone))
  }

  function DetachIn(cs: seq<Node>, gone: set<nat>): seq<Node>
    decreases cs
  {
    if cs == [] then []
    else (if cs[0].id in gone then [] else [Detach(cs[0], gone)]) + DetachIn(cs[1..], gone)
  }

  lemma {:induction false} DetachInAppend(x: seq<Node>, y: seq<Node>, gone: set<nat>)
    ensures DetachIn(x + y, gone) == DetachIn(x, gone) + DetachIn(y, gone)
    decreases x
  {
    if x == [] {
      assert x + y == y;
    } else {
      assert (x + y)[0] == x[0] && (x + y)[1..] == x[1..] + y;
      DetachInAppend(x[1..], y, gone);
    }
  }

  /** Detaching one set of nodes and then another is detaching both at once. */
  lemma {:induction false} DetachInTwice(cs: seq<Node>, first: set<nat>, second: set<nat>)
    ensures DetachIn(DetachIn(cs, first), second) == DetachIn(cs, first + second)
    decreases cs
  {
    if cs != [] {
      var c := cs[0];
      var kept := if c.id in first then [] else [Detach(c, first)];
      assert DetachIn(cs, first) == kept + DetachIn(cs[1..], first);
      DetachInAppend(kept, DetachIn(cs[1..], first), second);
      DetachInTwice(cs[1..], first, second);
      if kept != [] {
        assert DetachIn(kept, second) == (if c.id in second then [] else [Detach(Detach(c, first), second)]) + DetachIn([], second);
        if c.Element? {
          DetachInTwice(c.children, first, second);
        }
      }
    }
  }

  lemma DetachTwice(n: Node, first: set<nat>, second: set<nat>)
    ensures Detach(Detach(n, first), second) == Detach(n, first + second)
  {
    if n.Element? {
      DetachInTwice(n.children, first, second);
    }
  }

  /** Detaching nodes that are no longer in the tree changes nothing. */
  lemma {:induction false} DetachInAbsent(cs: seq<Node>, gone: set<nat>)
    requires gone !! IdsIn(cs)
    ensures DetachIn(cs, gone) == cs
    decreases cs
  {
    if cs != [] {
      if cs[0].Element? {
        DetachInAbsent(cs[0].children, gone);
      }
      DetachInAbsent(cs[1..], gone);
      assert cs == [cs[0]] + cs[1..];
    }
  }

  lemma DetachNone(n: Node)
    ensures Detach(n, {}) == n
  {
    if n.Element? {
      DetachInAbsent(n.children, {});
    }
  }

  lemma {:induction false} DetachInIds(cs: seq<Node>, gone: set<nat>)
    ensures IdsIn(DetachIn(cs, gone)) <= IdsIn(cs)
    ensures DistinctIn(cs) ==> DistinctIn(DetachIn(cs, gone))
    decreases cs
  {
    if cs != [] {
      var c := cs[0];
      DetachInIds(cs[1..], gone);
      var rest := DetachIn(cs[1..], gone);
      if c.id in gone {
        assert DetachIn(cs, gone) == rest;
      } else {
        var d := Detach(c, gone);
        assert DetachIn(cs, gone) == [d] + rest;
        assert ([d] + rest)[0] == d && ([d] + rest)[1..] == rest;
        if c.Element? {
          DetachInIds(c.children, gone);
          assert IdsOf(d) == {c.id} + IdsIn(d.children);
        }
        assert IdsOf(d) <= IdsOf(c);
        assert Distinct(c) ==> Distinct(d);
      }
    }
  }

  lemma DetachDistinct(n: Node, gone: set<nat>)
    requires Distinct(n)
    ensures Distinct(Detach(n, gone))
  {
    if n.Element? {
      DetachInIds(n.children, gone);
    }
  }

  /** Detaching exactly the nodes a selector matches is pruning by that selector. */
  lemma {:induction false} DetachInIsPrune(cs: seq<Node>, gone: set<nat>, sel: Selector, above: set<string>)
    requires forall h :: h in Within(cs, above) ==> (h.node.id in gone <==> Matches(sel, h))
    ensures DetachIn(cs, gone) == PruneIn(cs, sel, above)
    decreases cs
  {
    if cs != [] {
      var c := cs[0];
      assert Within(cs, above) == [Hit(c, above)] + Descendants(c, above) + Within(cs[1..], above);
      if c.Element? {
        DetachInIsPrune(c.children, gone, sel, above + {c.tag});
      }
      DetachInIsPrune(cs[1..], gone, sel, above);
    }
  }

  /**
   * In a tree of distinct nodes, decomposing every node that `select(sel)`
   * returned is pruning by `sel`, nested matches included.
   */
  lemma DecomposingMatchesIsPrune(n: Node, sel: Selector, above: set<string>, gone: set<nat>)
    requires Distinct(n)
    requires forall id :: id in gone <==> id in SelectIds(Descendants(n, above), sel)
    ensures Detach(n, gone) == Prune(n, sel, above)
  {
    if n.Element? {
      var below := above + {n.tag};
      var hits := Descendants(n, above);
      WithinUnique(n.children, below);
      forall h | h in Within(n.children, below)
        ensures h.node.id in gone <==> Matches(sel, h)
      {
        if h.node.id in gone {
          var h' :| h' in hits && Matches(sel, h') && h'.node.id == h.node.id;
        }
      }
      DetachInIsPrune(n.children, gone, sel, below);
    }
  }

  // ---------------------------------------------------------------- in place

  /** The tags whose subtrees `clean_html` deletes. */
  const NoiseTags: set<string> := {"style", "script", "svg", "noscript"}

  /**
   * After `clean_html`, no `style`, `script`, `svg` or `noscript` element is
   * left below the root, and a node is kept exactly when no such element
   * contains it.
   */
  lemma NoiseFree(n: Node, above: set<string>, id: nat)
    requires Distinct(n)
    ensures forall m :: m in Descendants(Prune(n, TagIn(NoiseTags), above), above) ==>
      !(m.node.Element? && m.node.tag in NoiseTags)
    ensures id in IdsOf(Prune(n, TagIn(NoiseTags), above)) <==>
      id in IdsOf(n) && !(n.Element? && Covered(id, n.children, TagIn(NoiseTags), above + {n.tag}))
    ensures Embeds(Descendants(Prune(n, TagIn(NoiseTags), above), above), Descendants(n, above), TagIn(NoiseTags))
  {
    PruneClean(n, TagIn(NoiseTags), above);
    PruneKeeps(n, TagIn(NoiseTags), above, id);
    PruneShape(n, TagIn(NoiseTags), above);
  }

  /** A subtree of a parsed page that the extraction edits in place, with the tags above it. */
  class Region {
    var root: Node
    const above: set<string>

    ghost predicate Valid()
      reads this
    {
      Distinct(root)
    }

    constructor (root: Node, above: set<string>)
      requires Distinct(root)
      ensures Valid() && this.root == root && this.above == above
    {
      this.root := root;
      this.above := above;
    }

    /** `decompose()` on the node `id`; a node already gone with an ancestor is no error. */
    method Decompose(id: nat)
      requires Valid()
      modifies this
      ensures Valid() && root == Detach(old(root), {id})
    {
      DetachDistinct(root, {id});
      root := Detach(root, {id});
    }

    /** `for tag in root.select(sel): tag.decompose()`: the matches are collected first. */
    method DecomposeAll(sel: Selector)
      requires Valid()
      modifies this
      ensures Valid() && root == Prune(old(root), sel, above)
    {
      var matched := SelectIds(Descendants(root, above), sel);
      ghost var start, done := root, {};
      DetachNone(root);
      for k := 0 to |matched|
        invariant Valid()
        invariant root == Detach(start, done)
        invariant forall id :: id in done <==> id in matched[..k]
      {
        Decompose(matched[k]);
        DetachTwice(start, done, {matched[k]});
        assert matched[..k + 1] == matched[..k] + [matched[k]];
        done := done + {matched[k]};
      }
      assert matched[..|matched|] == matched;
      DecomposingMatchesIsPrune(start, sel, above, done);
    }

    /** `DecomposeAll` for each selector of `sels` in turn: together, they delete what the list matches. */
    method DecomposeEach(sels: seq<Selector>)
      requires Valid()
      modifies this
      ensures Valid() && root == Prune(old(root), AnyOf(sels), above)
    {
      ghost var start := root;
      PruneNothing(root, AnyOf([]), above);
      for i := 0 to |sels|
        invariant Valid()
        invariant root == Prune(start, AnyOf(sels[..i]), above)
      {
        DecomposeAll(sels[i]);
        assert sels[..i + 1] == sels[..i] + [sels[i]];
        AnyOfSnoc(sels[..i], sels[i]);
        PruneTwice(start, AnyOf(sels[..i]), sels[i], AnyOf(sels[..i + 1]), above);
      }
      assert sels[..|sels|] == sels;
    }

    /** `clean_html`: delete every `style`, `script`, `svg` and `noscript` subtree. */
    method CleanHtml()
      requires Valid()
      modifies this
      ensures Valid() && root == Prune(old(root), TagIn(NoiseTags), above)
    {
      DecomposeAll(TagIn(NoiseTags));
    }
  }
}
