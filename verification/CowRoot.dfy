/** What becomes of the nodes above a mutated or split leaf (cow.go): which are dropped, when the tree gets
    lower, how a full node is divided, and which generation the new nodes carry. */
module CowRoot {
  import opened Keys
  import opened FreeSpace
  import opened Trees
  import opened CowSpec
  import opened CowMutate
  import opened CowSplit

  /** The routed leaf decides; beyond it only blocks can be missing. */
  lemma {:induction false} FailsAtRoute(t: Tree, op: LeafOp, top: bool, fr: seq<Extent>, ns: nat, g: nat)
    requires Shape(t, LevelOf(t))
    ensures var m, a := MutateRec(t, op, top, fr, ns, g), ApplyLeaf(op, RouteItems(t, RouteKey(op)), ns);
            && (a.Err? ==> m == MFail(a.error)) && (a.Ok? && m.MFail? ==> m.error == NoBlock) && (top ==> !m.MDrop?)
    decreases t
  {
    hide Shape, RouteKid, FirstFit, Rank, ApplyLeaf;
    if t.Leaf? {
      assert MutateRec(t, op, top, fr, ns, g) == MutateLeaf(op, t.items, top, fr, ns, g);
    } else {
      hide MutateRec, RouteItems;
      MutateRecNode(t, op, top, fr, ns, g);
      RouteParts(t, RouteKey(op));
      FailsAtRoute(t.kids[RouteKid(t.kids, RouteKey(op))].sub, op, false, fr, ns, g);
    }
  }

  /** The operation empties the routed leaf and t has nothing else. */
  ghost predicate Emptied(t: Tree, op: LeafOp, ns: nat)
    requires Shape(t, LevelOf(t))
  {
    var s := RouteItems(t, RouteKey(op));
    ApplyLeaf(op, s, ns) == Ok([]) && Contents(t) == s
  }

  lemma {:induction false} KidsNotEmpty(ks: seq<Kid>, i: nat)
    requires i < |ks| && Contents(ks[i].sub) != []
    ensures KidsContents(ks) != []
  {
    KidsContentsAt(ks, i);
  }

  lemma {:induction false} OtherKid(t: Tree, j: nat)
    requires t.Node? && Shape(t, LevelOf(t)) && Full(t) && j < |t.kids|
    ensures Contents(t.kids[j].sub) != []
  {
    FullNonEmpty(t.kids[j].sub, t.level - 1);
  }

  /** A node is emptied exactly when its only child is. */
  lemma {:induction false} EmptiedUp(t: Tree, op: LeafOp, ns: nat)
    requires t.Node? && Shape(t, LevelOf(t)) && Full(t)
    ensures var s := t.kids[RouteKid(t.kids, RouteKey(op))].sub;
            Shape(s, LevelOf(s)) && (Emptied(t, op, ns) <==> Emptied(s, op, ns) && |t.kids| == 1)
  {
    hide ApplyLeaf, Rank, RouteItems, Full, LeftOf, RightOf;
    var k := RouteKey(op);
    var c := RouteKid(t.kids, k);
    RouteParts(t, k);
    RouteContents(t.kids[c].sub, k);
    KidsContentsAt(t.kids, c);
    if |t.kids| == 1 {
      assert t.kids[..c] == [] && t.kids[c+1..] == [];
    } else {
      var j := if c == 0 then 1 else 0;
      OtherKid(t, j);
      if j < c {
        KidsNotEmpty(t.kids[..c], j);
      } else {
        KidsNotEmpty(t.kids[c+1..], j - c - 1);
      }
    }
  }

  /** A subtree below the root is dropped exactly when it is emptied. */
  lemma {:induction false} DropIff(t: Tree, op: LeafOp, fr: seq<Extent>, ns: nat, g: nat)
    requires Shape(t, LevelOf(t)) && Full(t)
    ensures MutateRec(t, op, false, fr, ns, g).MDrop? <==> Emptied(t, op, ns)
    decreases t
  {
    hide ApplyLeaf, FirstFit, Rank;
    if t.Leaf? {
      assert MutateRec(t, op, false, fr, ns, g) == MutateLeaf(op, t.items, false, fr, ns, g);
    } else {
      hide MutateRec, RouteItems, Emptied;
      MutateRecNode(t, op, false, fr, ns, g);
      EmptiedUp(t, op, ns);
      DropIff(t.kids[RouteKid(t.kids, RouteKey(op))].sub, op, fr, ns, g);
    }
  }

  /** A mutation of a tree of several leaves makes it lower exactly when it empties one of the root's two
      children; the other child is then the new root, as it was. Otherwise the new root has the committing
      generation and the old children, of which one is gone or replaced. */
  lemma {:induction false} RootIs(t: Tree, op: LeafOp, fr: seq<Extent>, ns: nat, g: nat)
    requires t.Node? && Shape(t, LevelOf(t)) && Full(t) && MutateRec(t, op, true, fr, ns, g).MKeep?
    ensures var m, c := MutateRec(t, op, true, fr, ns, g), RouteKid(t.kids, RouteKey(op));
            && Shape(t.kids[c].sub, LevelOf(t.kids[c].sub))
            && var gone := Emptied(t.kids[c].sub, op, ns);
               && (m.shrunk <==> gone && |t.kids| == 2)
               && if m.shrunk then m.t == t.kids[1 - c].sub && m.fr == fr
                  else
                    && m.t.Node? && m.t.level == t.level && m.t.gen == g
                    && if gone then m.t.kids == t.kids[..c] + t.kids[c+1..]
                       else |m.t.kids| == |t.kids| && m.t.kids == t.kids[c := Kid(t.kids[c].sep, g, m.t.kids[c].sub)]
  {
    hide ApplyLeaf, FirstFit, Rank, MutateRec, RouteItems, Emptied, Full;
    var c := RouteKid(t.kids, RouteKey(op));
    MutateRecNode(t, op, true, fr, ns, g);
    RoutedFull(t, c);
    DropIff(t.kids[c].sub, op, fr, ns, g);
  }

  lemma {:induction false} RoutedFull(t: Tree, c: nat)
    requires t.Node? && Full(t) && c < |t.kids|
    ensures Full(t.kids[c].sub)
  {
  }

  /** So a finished mutation leaves the other child of such a root, or a root of the committing generation. */
  lemma {:induction false} MutatedRoot(t: Tree, op: LeafOp, fr: seq<Extent>, ns: nat, g: nat)
    requires Shape(t, LevelOf(t)) && (t.Leaf? || Full(t)) && MutateTree(t, op, fr, ns, g).Ok?
    ensures var t' := MutateTree(t, op, fr, ns, g).value.0;
            if t.Node? && |t.kids| == 2 && KidEmptied(t, op, ns)
            then t' == t.kids[1 - RouteKid(t.kids, RouteKey(op))].sub && LevelOf(t') == LevelOf(t) - 1
            else t'.gen == g
  {
    hide ApplyLeaf, FirstFit, RouteKid, Rank, RouteItems, Full, SpineAddrs, FreeAll, Emptied, LeafFits;
    if t.Leaf? {
      assert MutateRec(t, op, true, fr, ns, g) == MutateLeaf(op, t.items, true, fr, ns, g);
    } else {
      hide MutateRec;
      RootIs(t, op, fr, ns, g);
    }
  }

  ghost predicate KidEmptied(t: Tree, op: LeafOp, ns: nat)
    requires t.Node? && Shape(t, LevelOf(t))
  {
    var s := t.kids[RouteKid(t.kids, RouteKey(op))].sub;
    Shape(s, LevelOf(s)) && Emptied(s, op, ns)
  }

  // ---- splits ------------------------------------------------------------------------------------------

  /** An insertion that has to split leaves a root of the committing generation: the old one's level, or one
      more over two halves of it. */
  lemma {:induction false} SplitRoot(t: Tree, it: Item, fr: seq<Extent>, ns: nat, g: nat)
    requires Shape(t, LevelOf(t)) && SplitTree(t, it, fr, ns, g).Ok?
    ensures var t', m := SplitTree(t, it, fr, ns, g).value.0, SplitRec(t, it, fr, ns, g);
            && t'.gen == g
            && (m.One? ==> t' == m.t && LevelOf(t') == LevelOf(t))
            && (m.Two? ==> t'.Node? && t'.level == LevelOf(t) + 1 && |t'.kids| == 2)
            && (m.Two? ==> t'.kids[0].sub == m.l && t'.kids[1] == Kid(m.sep, g, m.r) && t'.kids[0].gen == g)
  {
    hide FirstFit, RouteKid, Rank, SpineAddrs, FreeAll, SplitAtLeaf;
    if t.Node? {
      hide SplitRec;
      SplitRecNode(t, it, fr, ns, g);
    } else {
      SplitLeafTwo(t.items, it, fr, ns, g);
    }
  }

  lemma {:induction false} SplitLeafTwo(items: seq<Item>, it: Item, fr: seq<Extent>, ns: nat, g: nat)
    ensures !SplitAtLeaf(items, it, fr, ns, g).One?
  {
    hide SplitLeaf, FirstFit;
  }

  /** A node that has no room for a second child is divided in the middle. */
  lemma {:induction false} SplitNodeHalves(t: Tree, it: Item, fr: seq<Extent>, ns: nat, g: nat)
    requires t.Node? && Shape(t, LevelOf(t)) && SplitRec(t, it, fr, ns, g).Two?
    ensures var m := SplitRec(t, it, fr, ns, g);
            && m.l.Node? && m.r.Node? && !NodeFits(|t.kids| + 1, ns)
            && |m.l.kids| == (|t.kids| + 1) / 2 && |m.l.kids| + |m.r.kids| == |t.kids| + 1
            && m.l.gen == g && m.r.gen == g
  {
    hide FirstFit, RouteKid, Rank, SplitRec, NodeFits;
    SplitRecNode(t, it, fr, ns, g);
  }
}
