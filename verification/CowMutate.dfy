/** cowMutate: insert without split, update, delete. */
module CowMutate {
  import opened Keys
  import opened FreeSpace
  import opened Trees
  import opened CowSpec
  import opened CowShape
  import opened CowLeaf

  /** The child a key routes to has the shape its parent promises. */
  lemma {:induction false} RoutedShape(t: Tree, k: Key)
    requires t.Node? && Shape(t, LevelOf(t))
    ensures t.level > 0 && t.kids != [] && Shape(t.kids[RouteKid(t.kids, k)].sub, t.level - 1)
    ensures LevelOf(t.kids[RouteKid(t.kids, k)].sub) == t.level - 1
  {
    ShapeLevel(t.kids[RouteKid(t.kids, k)].sub, t.level - 1);
  }

  // ---- the routed leaf ---------------------------------------------------------------

  ghost function RouteItems(t: Tree, k: Key): seq<Item>
    requires Shape(t, LevelOf(t))
    decreases t
  {
    if t.Leaf? then t.items else RoutedShape(t, k); RouteItems(t.kids[RouteKid(t.kids, k)].sub, k)
  }

  /** The contents before the routed leaf. */
  ghost function LeftOf(t: Tree, k: Key): seq<Item>
    requires Shape(t, LevelOf(t))
    decreases t
  {
    if t.Leaf? then []
    else
      RoutedShape(t, k);
      var c := RouteKid(t.kids, k);
      KidsContents(t.kids[..c]) + LeftOf(t.kids[c].sub, k)
  }

  /** The contents after the routed leaf. */
  ghost function RightOf(t: Tree, k: Key): seq<Item>
    requires Shape(t, LevelOf(t))
    decreases t
  {
    if t.Leaf? then []
    else
      RoutedShape(t, k);
      var c := RouteKid(t.kids, k);
      RightOf(t.kids[c].sub, k) + KidsContents(t.kids[c+1..])
  }

  /** The bounds the separators on the route give to the routed leaf. */
  ghost function RouteLo(t: Tree, k: Key, lo: int): int
    requires Shape(t, LevelOf(t))
    decreases t
  {
    if t.Leaf? then lo
    else
      RoutedShape(t, k);
      var c := RouteKid(t.kids, k);
      RouteLo(t.kids[c].sub, k, Rank(t.kids[c].sep))
  }

  ghost function RouteHi(t: Tree, k: Key, hi: int): int
    requires Shape(t, LevelOf(t))
    decreases t
  {
    if t.Leaf? then hi
    else
      RoutedShape(t, k);
      var c := RouteKid(t.kids, k);
      RouteHi(t.kids[c].sub, k, Upper(t.kids, c, hi))
  }

  /** No node on the route of k falls back to its leftmost child. */
  ghost predicate Covered(t: Tree, k: Key)
    requires Shape(t, LevelOf(t))
    decreases t
  {
    if t.Leaf? then true
    else
      RoutedShape(t, k);
      Rank(t.kids[0].sep) <= Rank(k) && Covered(t.kids[RouteKid(t.kids, k)].sub, k)
  }

  lemma {:induction false} RouteContents(t: Tree, k: Key)
    requires Shape(t, LevelOf(t))
    ensures Contents(t) == LeftOf(t, k) + RouteItems(t, k) + RightOf(t, k)
    decreases t
  {
    if t.Node? {
      RoutedShape(t, k);
      var c := RouteKid(t.kids, k);
      RouteContents(t.kids[c].sub, k);
      KidsContentsAt(t.kids, c);
      Regroup(KidsContents(t.kids[..c]), LeftOf(t.kids[c].sub, k), RouteItems(t.kids[c].sub, k),
              RightOf(t.kids[c].sub, k), KidsContents(t.kids[c+1..]));
    }
  }

  lemma {:induction false} Regroup<T>(a: seq<T>, b: seq<T>, c: seq<T>, d: seq<T>, e: seq<T>)
    ensures a + (b + c + d) + e == (a + b) + c + (d + e)
  {
  }

  /** The route bounds hold of the routed leaf, and a key is covered exactly when it lies
      within them. */
  lemma {:induction false} RouteBounds(t: Tree, k: Key, lo: int, hi: int)
    requires Shape(t, LevelOf(t)) && Ordered(t, lo, hi) && Rank(k) < hi
    ensures ItemsIn(RouteItems(t, k), RouteLo(t, k, lo), RouteHi(t, k, hi))
    ensures Rank(k) < RouteHi(t, k, hi)
    ensures lo <= Rank(k) ==> (Covered(t, k) <==> RouteLo(t, k, lo) <= Rank(k))
    ensures lo <= RouteLo(t, k, lo)
    decreases t
  {
    if t.Node? {
      RoutedShape(t, k);
      var c := RouteKid(t.kids, k);
      if |t.kids| > 1 {
        assert Rank(t.kids[0].sep) < Rank(t.kids[1].sep);
      }
      assert Ordered(t.kids[c].sub, Rank(t.kids[c].sep), Upper(t.kids, c, hi));
      RouteBounds(t.kids[c].sub, k, Rank(t.kids[c].sep), Upper(t.kids, c, hi));
      assert c > 0 ==> Rank(t.kids[0].sep) < Rank(t.kids[c].sep) <= Rank(k);
    }
  }

  ghost predicate AllBelow(s: seq<Item>, r: int) {
    forall i :: 0 <= i < |s| ==> Rank(s[i].k) < r
  }

  ghost predicate AllAbove(r: int, s: seq<Item>) {
    forall i :: 0 <= i < |s| ==> r < Rank(s[i].k)
  }

  /** Whether covered or not, the routed leaf is where k belongs in the in-order contents. */
  lemma {:induction false} RouteSeparates(t: Tree, k: Key, lo: int, hi: int)
    requires Shape(t, LevelOf(t)) && Ordered(t, lo, hi) && Rank(k) < hi
    ensures AllBelow(LeftOf(t, k), Rank(k))
    ensures AllAbove(Rank(k), RightOf(t, k))
  {
    RouteLeft(t, k, lo, hi);
    RouteRight(t, k, lo, hi);
  }

  /** The separators around the routed child bracket k. */
  lemma {:induction false} RouteBracket(t: Tree, k: Key, lo: int, hi: int)
    requires t.Node? && Shape(t, LevelOf(t)) && Ordered(t, lo, hi) && Rank(k) < hi
    ensures var c := RouteKid(t.kids, k);
            && Ordered(t.kids[c].sub, Rank(t.kids[c].sep), Upper(t.kids, c, hi))
            && Rank(k) < Upper(t.kids, c, hi)
            && (Rank(k) < Rank(t.kids[c].sep) ==> c == 0)
            && KidsOrdered(t.kids, lo, hi)
  {
    if |t.kids| > 1 {
      assert Rank(t.kids[0].sep) < Rank(t.kids[1].sep);
    }
  }

  lemma {:induction false} RouteLeft(t: Tree, k: Key, lo: int, hi: int)
    requires Shape(t, LevelOf(t)) && Ordered(t, lo, hi) && Rank(k) < hi
    ensures AllBelow(LeftOf(t, k), Rank(k))
    ensures Rank(k) < lo ==> LeftOf(t, k) == []
    decreases t
  {
    if t.Node? {
      RoutedShape(t, k);
      var ks, c := t.kids, RouteKid(t.kids, k);
      RouteBracket(t, k, lo, hi);
      RouteLeft(ks[c].sub, k, Rank(ks[c].sep), Upper(ks, c, hi));
      SidesOfKid(ks, c, lo, hi);
      if c == 0 {
        assert KidsContents(ks[..c]) == [];
      }
    }
  }

  lemma {:induction false} RouteRight(t: Tree, k: Key, lo: int, hi: int)
    requires Shape(t, LevelOf(t)) && Ordered(t, lo, hi) && Rank(k) < hi
    ensures AllAbove(Rank(k), RightOf(t, k))
    decreases t
  {
    if t.Node? {
      RoutedShape(t, k);
      var ks, c := t.kids, RouteKid(t.kids, k);
      RouteBracket(t, k, lo, hi);
      RouteRight(ks[c].sub, k, Rank(ks[c].sep), Upper(ks, c, hi));
      SidesOfKid(ks, c, lo, hi);
      AboveConcat(Rank(k), RightOf(ks[c].sub, k), KidsContents(ks[c+1..]));
    }
  }

  lemma {:induction false} AboveConcat(r: int, a: seq<Item>, b: seq<Item>)
    requires AllAbove(r, a) && AllAbove(r, b)
    ensures AllAbove(r, a + b)
  {
  }

  /** The children left and right of child c hold keys below and from its bounds. */
  lemma {:induction false} SidesOfKid(ks: seq<Kid>, c: nat, lo: int, hi: int)
    requires KidsOrdered(ks, lo, hi) && c < |ks|
    ensures AllBelow(KidsContents(ks[..c]), Rank(ks[c].sep))
    ensures AllAbove(Upper(ks, c, hi) - 1, KidsContents(ks[c+1..]))
  {
    KidsOrderedSlice(ks, lo, hi, 0, c);
    assert ks[0..c] == ks[..c];
    KidsContentsIn(ks[..c], Rank(ks[0].sep), Rank(ks[c].sep));
    KidsOrderedSlice(ks, lo, hi, c + 1, |ks|);
    assert ks[c+1..|ks|] == ks[c+1..];
    KidsContentsIn(ks[c+1..], Upper(ks, c, hi), hi);
  }

  // ---- contents --------------------------------------------------------------------------

  /** One step up the path, as seen by the in-order contents: x is what the mutated child holds. */
  lemma {:induction false} MutateUpContents(lvl: nat, kids: seq<Kid>, c: nat, m: Mutated, top: bool, fr: seq<Extent>,
                                            ns: nat, g: nat, x: seq<Item>)
    requires c < |kids|
    requires m.MKeep? ==> Contents(m.t) == x
    requires m.MDrop? ==> x == []
    ensures var r := MutateUp(lvl, kids, c, m, top, fr, ns, g);
            && (r.MKeep? ==> Contents(r.t) == KidsContents(kids[..c]) + x + KidsContents(kids[c+1..]))
            && (r.MDrop? ==> kids[..c] == [] && kids[c+1..] == [] && x == [])
  {
    match m
    case MFail(_) =>
    case MDrop =>
      var rest := kids[..c] + kids[c+1..];
      KidsContentsConcat(kids[..c], kids[c+1..]);
      if |rest| == 1 {
        assert rest == [rest[0]];
        KidsContentsOne(rest[0]);
      }
    case MKeep(s, _, _) =>
      var ks := kids[c := Kid(kids[c].sep, g, s)];
      KidsContentsAt(ks, c);
      assert ks[..c] == kids[..c] && ks[c+1..] == kids[c+1..];
  }

  /** cowMutate replaces the items of the routed leaf and nothing else. */
  lemma {:induction false} MutateContents(t: Tree, op: LeafOp, top: bool, fr: seq<Extent>, ns: nat, g: nat)
    requires Shape(t, LevelOf(t))
    ensures var r, k := MutateRec(t, op, top, fr, ns, g), RouteKey(op);
            var a := ApplyLeaf(op, RouteItems(t, k), ns);
            && (r.MKeep? ==> a.Ok? && Contents(r.t) == LeftOf(t, k) + a.value + RightOf(t, k))
            && (r.MDrop? ==> a == Ok([]) && LeftOf(t, k) == [] && RightOf(t, k) == [])
    decreases t
  {
    if t.Node? {
      var k := RouteKey(op);
      RoutedShape(t, k);
      var c := RouteKid(t.kids, k);
      var s := t.kids[c].sub;
      MutateContents(s, op, false, fr, ns, g);
      MutateRecNode(t, op, top, fr, ns, g);
      MutateNodeContents(t, op, MutateRec(s, op, false, fr, ns, g), top, fr, ns, g);
    }
  }

  lemma {:induction false} MutateRecNode(t: Tree, op: LeafOp, top: bool, fr: seq<Extent>, ns: nat, g: nat)
    requires t.Node? && Shape(t, LevelOf(t))
    ensures var c := RouteKid(t.kids, RouteKey(op));
            && Shape(t.kids[c].sub, LevelOf(t.kids[c].sub))
            && MutateRec(t, op, top, fr, ns, g) ==
               MutateUp(t.level, t.kids, c, MutateRec(t.kids[c].sub, op, false, fr, ns, g), top, fr, ns, g)
  {
    RoutedShape(t, RouteKey(op));
  }

  lemma {:induction false} MutateNodeContents(t: Tree, op: LeafOp, m: Mutated, top: bool, fr: seq<Extent>, ns: nat,
                                              g: nat)
    requires t.Node? && Shape(t, LevelOf(t))
    requires var c, k := RouteKid(t.kids, RouteKey(op)), RouteKey(op);
             var s := t.kids[c].sub;
             && Shape(s, LevelOf(s))
             && (m.MKeep? ==> ApplyLeaf(op, RouteItems(s, k), ns).Ok? &&
                              Contents(m.t) == LeftOf(s, k) + ApplyLeaf(op, RouteItems(s, k), ns).value + RightOf(s, k))
             && (m.MDrop? ==>
                 ApplyLeaf(op, RouteItems(s, k), ns) == Ok([]) && LeftOf(s, k) == [] && RightOf(s, k) == [])
    ensures var c, k := RouteKid(t.kids, RouteKey(op)), RouteKey(op);
            var r := MutateUp(t.level, t.kids, c, m, top, fr, ns, g);
            var a := ApplyLeaf(op, RouteItems(t, k), ns);
            && (r.MKeep? ==> a.Ok? && Contents(r.t) == LeftOf(t, k) + a.value + RightOf(t, k))
            && (r.MDrop? ==> a == Ok([]) && LeftOf(t, k) == [] && RightOf(t, k) == [])
  {
    var k := RouteKey(op);
    var c := RouteKid(t.kids, k);
    var s := t.kids[c].sub;
    RouteParts(t, k);
    if !m.MFail? {
      var a := ApplyLeaf(op, RouteItems(s, k), ns).value;
      MutateUpContents(t.level, t.kids, c, m, top, fr, ns, g, LeftOf(s, k) + a + RightOf(s, k));
      Regroup(KidsContents(t.kids[..c]), LeftOf(s, k), a, RightOf(s, k), KidsContents(t.kids[c+1..]));
    }
  }

  lemma {:induction false} RouteParts(t: Tree, k: Key)
    requires t.Node? && Shape(t, LevelOf(t))
    ensures var c := RouteKid(t.kids, k);
            var s := t.kids[c].sub;
            && Shape(s, LevelOf(s)) && RouteItems(t, k) == RouteItems(s, k)
            && LeftOf(t, k) == KidsContents(t.kids[..c]) + LeftOf(s, k)
            && RightOf(t, k) == RightOf(s, k) + KidsContents(t.kids[c+1..])
  {
    RoutedShape(t, k);
  }

  // ---- shape -------------------------------------------------------------------------------

  lemma {:induction false} CowNodeGood(lvl: nat, kids: seq<Kid>, fr: seq<Extent>, ns: nat, g: nat, lo: int, hi: int)
    requires lvl > 0 && kids != [] && NodeFits(|kids|, ns) && KidsGood(kids, lvl - 1, lo, hi, ns)
    ensures var r := CowNode(lvl, kids, fr, ns, g); r.MKeep? ==> Good(r.t, lvl, lo, hi, ns)
  {
    var r := CowNode(lvl, kids, fr, ns, g);
    if r.MKeep? {
      NodeGood(r.t, lvl, lo, hi, ns);
    }
  }

  lemma {:induction false} DropUpGood(lvl: nat, kids: seq<Kid>, c: nat, top: bool, fr: seq<Extent>, ns: nat, g: nat,
                                      lo: int, hi: int)
    requires c < |kids| && lvl > 0 && NodeFits(|kids|, ns) && KidsGood(kids, lvl - 1, lo, hi, ns)
    requires top ==> |kids| > 1
    ensures var r := MutateUp(lvl, kids, c, MDrop, top, fr, ns, g);
            r.MKeep? ==> Good(r.t, if r.shrunk then lvl - 1 else lvl, lo, hi, ns)
  {
    var rest := kids[..c] + kids[c+1..];
    RemoveKid(kids, c, lvl - 1, lo, hi, ns);
    if rest != [] {
      CowNodeGood(lvl, rest, fr, ns, g, lo, hi);
      KidsGoodAt(rest, lvl - 1, lo, hi, ns, 0);
      OrderedWiden(rest[0].sub, Rank(rest[0].sep), Upper(rest, 0, hi), lo, hi);
    }
  }

  lemma {:induction false} KeepUpGood(lvl: nat, kids: seq<Kid>, c: nat, m: Mutated, top: bool, fr: seq<Extent>,
                                      ns: nat, g: nat, lo: int, hi: int)
    requires c < |kids| && lvl > 0 && NodeFits(|kids|, ns) && KidsGood(kids, lvl - 1, lo, hi, ns)
    requires m.MKeep? && Good(m.t, lvl - 1, Rank(kids[c].sep), Upper(kids, c, hi), ns)
    ensures var r := MutateUp(lvl, kids, c, m, top, fr, ns, g);
            r.MKeep? ==> Good(r.t, lvl, lo, hi, ns)
  {
    ReplaceKid(kids, c, m.t, g, lvl - 1, lo, hi, ns);
    CowNodeGood(lvl, kids[c := Kid(kids[c].sep, g, m.t)], m.fr, ns, g, lo, hi);
  }

  /** One step up the path keeps the shape, unless a root loses its only child. */
  lemma {:induction false} MutateUpGood(lvl: nat, kids: seq<Kid>, c: nat, m: Mutated, top: bool, fr: seq<Extent>,
                                        ns: nat, g: nat, lo: int, hi: int)
    requires c < |kids| && lvl > 0 && NodeFits(|kids|, ns) && KidsGood(kids, lvl - 1, lo, hi, ns)
    requires m.MKeep? ==> Good(m.t, lvl - 1, Rank(kids[c].sep), Upper(kids, c, hi), ns)
    ensures var r := MutateUp(lvl, kids, c, m, top, fr, ns, g);
            r.MKeep? && (top ==> Contents(r.t) != []) ==>
              Good(r.t, if r.shrunk then lvl - 1 else lvl, lo, hi, ns) && (r.shrunk ==> top)
  {
    if m.MDrop? {
      if !top || |kids| > 1 {
        DropUpGood(lvl, kids, c, top, fr, ns, g, lo, hi);
      } else {
        var rest := kids[..c] + kids[c+1..];
        assert rest == [] && KidsContents(rest) == [];
      }
    } else if m.MKeep? {
      KeepUpGood(lvl, kids, c, m, top, fr, ns, g, lo, hi);
    }
  }

  /** The operation fits the bounds of the leaf it is routed to. */
  ghost predicate OpFits(t: Tree, op: LeafOp, lo: int, hi: int)
    requires Shape(t, LevelOf(t))
  {
    op.Insert? ==>
      && RouteLo(t, op.k, lo) <= Rank(op.k) < RouteHi(t, op.k, hi)
      && Absent(RouteItems(t, op.k), op.k)
  }

  lemma {:induction false} MutateLeafGood(t: Tree, op: LeafOp, top: bool, fr: seq<Extent>, ns: nat, g: nat, lo: int,
                                          hi: int)
    requires t.Leaf? && Ordered(t, lo, hi) && Fits(t, ns) && OpFits(t, op, lo, hi)
    ensures var r := MutateLeaf(op, t.items, top, fr, ns, g);
            r.MKeep? ==> r.t.Leaf? && Ordered(r.t, lo, hi) && Fits(r.t, ns) && (!top ==> Full(r.t))
  {
    if ApplyLeaf(op, t.items, ns).Ok? {
      ApplyLeafFits(op, t.items, ns);
      ApplyLeafIn(op, t.items, ns, lo, hi);
    }
  }

  lemma {:induction false} MutateGood(t: Tree, op: LeafOp, fr: seq<Extent>, ns: nat, g: nat, lo: int, hi: int)
    requires Good(t, LevelOf(t), lo, hi, ns) && OpFits(t, op, lo, hi)
    ensures var r := MutateRec(t, op, false, fr, ns, g);
            r.MKeep? ==> Good(r.t, LevelOf(t), lo, hi, ns)
    decreases t
  {
    if t.Leaf? {
      MutateLeafGood(t, op, false, fr, ns, g, lo, hi);
    } else {
      var k := RouteKey(op);
      RoutedShape(t, k);
      var c := RouteKid(t.kids, k);
      NodeGood(t, t.level, lo, hi, ns);
      KidsGoodAt(t.kids, t.level - 1, lo, hi, ns, c);
      var s := t.kids[c].sub;
      MutateGood(s, op, fr, ns, g, Rank(t.kids[c].sep), Upper(t.kids, c, hi));
      MutateRecNode(t, op, false, fr, ns, g);
      MutateUpGood(t.level, t.kids, c, MutateRec(s, op, false, fr, ns, g), false, fr, ns, g, lo, hi);
    }
  }

  /** A root stays well-formed through a mutation, unless a tree of several levels loses its
      last item. */
  lemma {:induction false} MutateTopWellFormed(t: Tree, op: LeafOp, fr: seq<Extent>, ns: nat, g: nat)
    requires WellFormed(t, ns) && OpFits(t, op, 0, RANK_LIMIT)
    ensures var r := MutateRec(t, op, true, fr, ns, g);
            r.MKeep? && (t.Leaf? || Contents(r.t) != []) ==> WellFormed(r.t, ns)
  {
    if t.Leaf? {
      MutateLeafGood(t, op, true, fr, ns, g, 0, RANK_LIMIT);
    } else {
      var k := RouteKey(op);
      RoutedShape(t, k);
      var c := RouteKid(t.kids, k);
      NodeGood(t, t.level, 0, RANK_LIMIT, ns);
      KidsGoodAt(t.kids, t.level - 1, 0, RANK_LIMIT, ns, c);
      var s := t.kids[c].sub;
      MutateGood(s, op, fr, ns, g, Rank(t.kids[c].sep), Upper(t.kids, c, RANK_LIMIT));
      MutateRecNode(t, op, true, fr, ns, g);
      MutateUpGood(t.level, t.kids, c, MutateRec(s, op, false, fr, ns, g), true, fr, ns, g, 0, RANK_LIMIT);
    }
  }
}
