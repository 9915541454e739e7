/** How many free blocks a copy-on-write operation takes (cow.go): with fewer it fails for want of a block, with
    as many it does not. */
module CowRoom {
  import opened Keys
  import opened FreeSpace
  import opened Trees
  import opened CowSpec
  import opened CowLeaf
  import opened CowMutate
  import opened CowSplit
  import opened CowRoot
  import opened SplitBound

  // ---- in place ------------------------------------------------------------------------------------------

  /** One block for every node on the route that is copied: not for those that are emptied, and for none when
      the root is replaced by its other child. */
  ghost function Copies(t: Tree, op: LeafOp, top: bool, ns: nat): nat
    requires Shape(t, LevelOf(t))
    decreases t
  {
    if t.Leaf? then if !top && Emptied(t, op, ns) then 0 else 1
    else
      RoutedShape(t, RouteKey(op));
      var s := t.kids[RouteKid(t.kids, RouteKey(op))].sub;
      if !Emptied(s, op, ns) then 1 + Copies(s, op, false, ns)
      else if |t.kids| == 1 && !top then 0
      else if |t.kids| == 2 && top then 0
      else 1
  }

  /** An operation that leaves items in the routed leaf copies one node of every level. */
  lemma {:induction false} CopiesIs(t: Tree, op: LeafOp, top: bool, ns: nat)
    requires Shape(t, LevelOf(t)) && ApplyLeaf(op, RouteItems(t, RouteKey(op)), ns) != Ok([])
    ensures Copies(t, op, top, ns) == LevelOf(t) + 1
    decreases t
  {
    hide ApplyLeaf, Rank, Contents;
    if t.Node? {
      RoutedShape(t, RouteKey(op));
      CopiesIs(t.kids[RouteKid(t.kids, RouteKey(op))].sub, op, false, ns);
    }
  }

  /** The walk of a mutation that its leaf accepts fails exactly when there are fewer blocks, and uses them up. */
  lemma {:induction false} WalkRoom(t: Tree, op: LeafOp, top: bool, fr: seq<Extent>, ns: nat, g: nat)
    requires ns > 0 && Shape(t, LevelOf(t)) && (Full(t) || (top && t.Leaf?))
    requires ApplyLeaf(op, RouteItems(t, RouteKey(op)), ns).Ok?
    ensures var m := MutateRec(t, op, top, fr, ns, g);
            && (m.MFail? <==> Offers(fr, ns) < Copies(t, op, top, ns))
            && (m.MKeep? ==> Offers(m.fr, ns) == Offers(fr, ns) - Copies(t, op, top, ns))
    decreases t
  {
    hide ApplyLeaf, Rank, FirstFit, Offers;
    FitTakes(fr, ns);
    if t.Leaf? {
      assert MutateRec(t, op, top, fr, ns, g) == MutateLeaf(op, t.items, top, fr, ns, g);
    } else {
      hide MutateRec, RouteItems, Emptied;
      var c := RouteKid(t.kids, RouteKey(op));
      MutateRecNode(t, op, top, fr, ns, g);
      RouteParts(t, RouteKey(op));
      DropIff(t.kids[c].sub, op, fr, ns, g);
      WalkRoom(t.kids[c].sub, op, false, fr, ns, g);
      var m := MutateRec(t.kids[c].sub, op, false, fr, ns, g);
      if m.MKeep? {
        FitTakes(m.fr, ns);
      }
    }
  }

  /** A mutation fails for want of a block exactly when the leaf accepts it and fewer blocks than nodes to copy
      are free. */
  lemma {:induction false} MutateNoBlockIff(t: Tree, op: LeafOp, fr: seq<Extent>, ns: nat, g: nat)
    requires ns > 0 && WellFormed(t, ns) && LevelOf(t) <= MAX_DEPTH
    ensures MutateTree(t, op, fr, ns, g) == Err(NoBlock) <==>
            ApplyLeaf(op, RouteItems(t, RouteKey(op)), ns).Ok? && Offers(fr, ns) < Copies(t, op, true, ns)
  {
    hide Ordered, Fits, Shape, Full, RouteItems, MutateRec, SpineAddrs, FreeAll, Offers, Copies;
    FailsAtRoute(t, op, true, fr, ns, g);
    if ApplyLeaf(op, RouteItems(t, RouteKey(op)), ns).Ok? {
      WalkRoom(t, op, true, fr, ns, g);
    }
  }

  // ---- with splits -----------------------------------------------------------------------------------------

  /** The node t is divided by an insertion that divides its leaf. */
  ghost predicate Divides(t: Tree, k: Key, ns: nat)
    requires Shape(t, LevelOf(t))
    decreases t
  {
    t.Leaf? ||
    (RoutedShape(t, k); !NodeFits(|t.kids| + 1, ns) && Divides(t.kids[RouteKid(t.kids, k)].sub, k, ns))
  }

  /** Two blocks for every node that is divided and one for every other on the route. */
  ghost function SplitCopies(t: Tree, k: Key, ns: nat): nat
    requires Shape(t, LevelOf(t))
    decreases t
  {
    if t.Leaf? then 2
    else
      RoutedShape(t, k);
      (if Divides(t, k, ns) then 2 else 1) + SplitCopies(t.kids[RouteKid(t.kids, k)].sub, k, ns)
  }

  lemma {:induction false} TwoFit(fr: seq<Extent>, ns: nat)
    requires ns > 0
    ensures var a := FirstFit(fr, ns);
            if a.NoSpace? then Offers(fr, ns) == 0
            else
              var b := FirstFit(a.rest, ns);
              if b.NoSpace? then Offers(fr, ns) == 1 else Offers(b.rest, ns) == Offers(fr, ns) - 2
  {
    FitTakes(fr, ns);
    if FirstFit(fr, ns).Granted? {
      FitTakes(FirstFit(fr, ns).rest, ns);
    }
  }

  ghost predicate SplitRoomy(m: Splitted, need: nat, two: bool, fr: seq<Extent>, ns: nat)
    requires ns > 0
  {
    && (m.SFail? <==> Offers(fr, ns) < need) && (m.SFail? ==> m.error == NoBlock)
    && (m.One? ==> !two && Offers(m.fr, ns) == Offers(fr, ns) - need)
    && (m.Two? ==> two && Offers(m.fr, ns) == Offers(fr, ns) - need)
  }

  /** One level of the walk. */
  lemma {:induction false} SplitUpRoom(lvl: nat, kids: seq<Kid>, c: nat, m: Splitted, need: nat, two: bool,
                                       fr: seq<Extent>, ns: nat, g: nat)
    requires ns > 0 && c < |kids| && SplitRoomy(m, need, two, fr, ns)
    ensures var up := two && !NodeFits(|kids| + 1, ns);
            SplitRoomy(SplitUp(lvl, kids, c, m, ns, g), need + (if up then 2 else 1), up, fr, ns)
  {
    hide FirstFit, Offers, NodeFits;
    if !m.SFail? {
      FitTakes(m.fr, ns);
      TwoFit(m.fr, ns);
    }
  }

  lemma {:induction false} SplitWalkRoom(t: Tree, it: Item, fr: seq<Extent>, ns: nat, g: nat)
    requires ns > 0 && Shape(t, LevelOf(t))
    requires var s := SplitLeaf(RouteItems(t, it.k), it, ns); s.Ok? && s.value.1 != []
    ensures SplitRoomy(SplitRec(t, it, fr, ns, g), SplitCopies(t, it.k, ns), Divides(t, it.k, ns), fr, ns)
    decreases t
  {
    hide SplitLeaf, Rank, FirstFit, Offers, NodeFits;
    if t.Leaf? {
      TwoFit(fr, ns);
    } else {
      hide SplitRec, RouteItems, SplitRoomy, SplitUp;
      var c := RouteKid(t.kids, it.k);
      SplitRecNode(t, it, fr, ns, g);
      RouteParts(t, it.k);
      SplitWalkRoom(t.kids[c].sub, it, fr, ns, g);
      SplitUpRoom(t.level, t.kids, c, SplitRec(t.kids[c].sub, it, fr, ns, g), SplitCopies(t.kids[c].sub, it.k, ns),
                  Divides(t.kids[c].sub, it.k, ns), fr, ns, g);
    }
  }

  /** The blocks a splitting insertion takes: those of the walk, and one for a new root when the old one is
      divided. */
  ghost function SplitBlocks(t: Tree, k: Key, ns: nat): nat
    requires Shape(t, LevelOf(t))
  {
    SplitCopies(t, k, ns) + if Divides(t, k, ns) then 1 else 0
  }

  /** When cowInsert succeeds: the item fits its leaf and there is a block for each level, or it does not, the
      cut of the leaf with the item fits and there are the blocks of the splits. */
  lemma {:induction false} InsertOkIff(t: Tree, k: Key, data: seq<u8>, fr: seq<Extent>, ns: nat, g: nat)
    requires ns > 0 && WellFormed(t, ns) && LevelOf(t) <= MAX_DEPTH
    ensures var all := InsertSorted(RouteItems(t, k), Item(k, data));
            InsertTree(t, k, data, fr, ns, g).Ok? <==>
            if LeafFits(all, ns) then Offers(fr, ns) >= LevelOf(t) + 1
            else CutFits(all, ns) && Offers(fr, ns) >= SplitBlocks(t, k, ns)
  {
    hide Ordered, Fits, Full, RouteItems, MutateRec, SplitRec, SpineAddrs, FreeAll, Offers, Copies, SplitCopies,
         Divides, LeafFits, CutFits, InsertSorted, Rank, SplitLeaf;
    var it, op, items := Item(k, data), Insert(k, data), RouteItems(t, k);
    InsertLeafIff(items, k, data, ns);
    InsertTooLargeIff(t, k, data, fr, ns, g);
    MutateNoBlockIff(t, op, fr, ns, g);
    FailsAtRoute(t, op, true, fr, ns, g);
    if LeafFits(InsertSorted(items, it), ns) {
      NotEmpty(items, it);
      CopiesIs(t, op, true, ns);
    } else if CutFits(InsertSorted(items, it), ns) {
      CutSplits(items, it, ns);
      SplitWalkRoom(t, it, fr, ns, g);
      RecOutcomes(t, it, true, fr, ns, g);
      GrownRoom(SplitRec(t, it, fr, ns, g), SpineAddrs(t, k), LevelOf(t) + 1, SplitCopies(t, k, ns), Divides(t, k, ns),
                fr, ns, g);
    }
  }

  lemma {:induction false} NotEmpty(items: seq<Item>, it: Item)
    ensures InsertSorted(items, it) != []
  {
  }

  lemma {:induction false} CutSplits(items: seq<Item>, it: Item, ns: nat)
    requires CutFits(InsertSorted(items, it), ns)
    ensures var s := SplitLeaf(items, it, ns); s.Ok? && s.value.1 != []
  {
    hide SplitLeaf, InsertSorted, LeafFits, Half;
    InsertedCount(items, it);
    SplitLeafIff(items, it, ns);
  }

  /** The end of cowInsertSplit takes one block more when the root is divided. */
  lemma {:induction false} GrownRoom(m: Splitted, path: seq<nat>, lvl: nat, need: nat, two: bool, fr: seq<Extent>,
                                     ns: nat, g: nat)
    requires ns > 0 && SplitRoomy(m, need, two, fr, ns) && (m.Two? ==> FirstKeyOf(m.l).Some?)
    ensures SplitDone(m, path, lvl, ns, g).Ok? <==> Offers(fr, ns) >= need + if two then 1 else 0
  {
    hide FirstFit, Offers, FreeAll, FirstKeyOf;
    if !m.SFail? {
      FitTakes(m.fr, ns);
    }
  }
}
