/** When cowInsert, cowUpdate and cowDelete succeed, and what they leave, said of the items alone
    (btree_write.go). */
module CowOutcome {
  import opened Keys
  import opened FreeSpace
  import opened Trees
  import opened CowSpec
  import opened CowLeaf
  import opened CowMutate
  import opened MapSpec
  import opened CowTheorems
  import opened CowRoot
  import opened CowRoom
  import opened SplitBound

  // ---- trees ----------------------------------------------------------------------------------------

  /** A key is in a search tree exactly when it is in the leaf it routes to. */
  lemma {:induction false} AbsentRouted(t: Tree, k: Key, ns: nat)
    requires WellFormed(t, ns)
    ensures Absent(Contents(t), k) <==> Absent(RouteItems(t, k), k)
  {
    hide Ordered, Fits, Full, Shape, LeftOf, RightOf, RouteItems, Contents;
    CompareIsRank(k, k);
    RouteContents(t, k);
    RouteSeparates(t, k, 0, RANK_LIMIT);
    var l, s, r := LeftOf(t, k), RouteItems(t, k), RightOf(t, k);
    var all := l + s + r;
    forall i | 0 <= i < |all|
      ensures all[i].k == k ==> |l| <= i < |l| + |s| && s[i - |l|].k == k
    {
    }
    forall i | 0 <= i < |s|
      ensures s[i] == all[|l| + i]
    {
    }
  }

  /** cowDelete answers "not found" exactly when the key is not in the tree; otherwise only a block can
      be missing. */
  lemma {:induction false} DeleteMissingIff(t: Tree, k: Key, fr: seq<Extent>, ns: nat, g: nat)
    requires WellFormed(t, ns) && LevelOf(t) <= MAX_DEPTH
    ensures var x := MutateTree(t, Delete(k), fr, ns, g);
            (x == Err(Missing) <==> Absent(Contents(t), k)) && (x.Err? ==> x.error == Missing || x.error == NoBlock)
  {
    hide Ordered, Fits, Full, Shape, RouteItems, Contents, MutateRec, ApplyLeaf, SpineAddrs, FreeAll, Absent;
    FailsAtRoute(t, Delete(k), true, fr, ns, g);
    DeleteLeafIff(RouteItems(t, k), k, ns);
    AbsentRouted(t, k, ns);
  }

  /** cowUpdate answers "not found" exactly when the key is not in the tree, and "no room" exactly when it is
      and its leaf would not fit with the new data; otherwise only a block can be missing. */
  lemma {:induction false} UpdateMissingIff(t: Tree, k: Key, data: seq<u8>, fr: seq<Extent>, ns: nat, g: nat)
    requires WellFormed(t, ns) && LevelOf(t) <= MAX_DEPTH
    ensures var x := MutateTree(t, Update(k, data), fr, ns, g);
            && (x == Err(Missing) <==> Absent(Contents(t), k))
            && (x == Err(NoRoom) <==> TooBig(RouteItems(t, k), k, data, ns))
            && (x.Err? ==> x.error == Missing || x.error == NoRoom || x.error == NoBlock)
  {
    hide Ordered, Full, Shape, RouteItems, Contents, MutateRec, ApplyLeaf, SpineAddrs, FreeAll, Absent, Fits,
         TooBig, LeafFits;
    FailsAtRoute(t, Update(k, data), true, fr, ns, g);
    RouteFits(t, k, ns);
    UpdateLeafIff(RouteItems(t, k), k, data, ns);
    AbsentRouted(t, k, ns);
    NotBoth(RouteItems(t, k), k, data, ns);
  }

  lemma {:induction false} NotBoth(items: seq<Item>, k: Key, data: seq<u8>, ns: nat)
    ensures TooBig(items, k, data, ns) ==> !Absent(items, k)
  {
  }

  lemma {:induction false} RouteFits(t: Tree, k: Key, ns: nat)
    requires Shape(t, LevelOf(t)) && Fits(t, ns)
    ensures LeafFits(RouteItems(t, k), ns)
    decreases t
  {
    hide LeafFits;
    if t.Node? {
      RoutedShape(t, k);
      RouteFits(t.kids[RouteKid(t.kids, k)].sub, k, ns);
    }
  }

  // ---- what is in the tree afterwards ----------------------------------------------------------------------

  /** x is among the items after the operation. */
  ghost predicate After(items: seq<Item>, op: LeafOp, x: Item)
    requires !op.DeletePrefix?
  {
    match op
    case Insert(k, data) => x in items || x == Item(k, data)
    case Update(k, data) => (x in items && x.k != k) || x == Item(k, data)
    case Delete(k) => x in items && x.k != k
  }

  lemma {:induction false} EffectMembers(s: seq<Item>, s': seq<Item>, op: LeafOp, x: Item)
    requires ItemsIn(s, 0, RANK_LIMIT) && ItemsIn(s', 0, RANK_LIMIT) && !op.DeletePrefix?
    requires ToMap(s') == Effect(op, ToMap(s)) && (op.Insert? ==> Absent(s, op.k))
    ensures x in s' <==> After(s, op, x)
  {
    hide ToMap, ItemsIn;
    ToMapHas(s, x, 0, RANK_LIMIT);
    ToMapHas(s', x, 0, RANK_LIMIT);
    if op.Insert? {
      ToMapKeys(s, op.k);
    }
  }

  /** After an update or a delete the tree has exactly the items it should. */
  lemma {:induction false} MutateTreeMembers(t: Tree, op: LeafOp, fr: seq<Extent>, ns: nat, g: nat, x: Item)
    requires WellFormed(t, ns) && (op.Update? || op.Delete?) && MutateTree(t, op, fr, ns, g).Ok?
    ensures x in Contents(MutateTree(t, op, fr, ns, g).value.0) <==> After(Contents(t), op, x)
  {
    hide ToMap, Effect, Ordered, Fits, Full, Contents, ItemsIn, After, MutateRec;
    MutateTreeRefines(t, op, fr, ns, g);
    ContentsIn(t, 0, RANK_LIMIT);
    EffectMembers(Contents(t), Contents(MutateTree(t, op, fr, ns, g).value.0), op, x);
  }

  /** After an insert of a new key the tree has the items it had and the new one. */
  lemma {:induction false} InsertTreeMembers(t: Tree, k: Key, data: seq<u8>, fr: seq<Extent>, ns: nat, g: nat, x: Item)
    requires WellFormed(t, ns) && Absent(Contents(t), k) && InsertTree(t, k, data, fr, ns, g).Ok?
    ensures x in Contents(InsertTree(t, k, data, fr, ns, g).value.0) <==> After(Contents(t), Insert(k, data), x)
  {
    hide ToMap, Ordered, Shape, Full, Fits, Contents, ItemsIn, InsertTree, Rank, InsertSorted, After, Absent;
    InsertTreeRefines(t, k, data, fr, ns, g);
    ContentsIn(t, 0, RANK_LIMIT);
    EffectMembers(Contents(t), Contents(InsertTree(t, k, data, fr, ns, g).value.0), Insert(k, data), x);
  }

  // ---- the whole operations ----------------------------------------------------------------------------------

  type Outcome = Result<(Tree, seq<Extent>)>

  /** What cowDelete promises on a search tree: it fails exactly when the key is absent or there are fewer free
      blocks than nodes to copy, and otherwise removes the item with the key and no other. */
  ghost predicate Deleted(r: Result<nat>, x: Outcome, t: Tree, k: Key, fr: seq<Extent>, ns: nat)
    requires ns > 0 && Shape(t, LevelOf(t))
  {
    && (r == Err(Missing) <==> Absent(Contents(t), k))
    && (r == Err(NoBlock) <==> !Absent(Contents(t), k) && Offers(fr, ns) < Copies(t, Delete(k), true, ns))
    && (r.Err? ==> r.error == Missing || r.error == NoBlock)
    && (r.Ok? ==> x.Ok? && forall y :: y in Contents(x.value.0) <==> y in Contents(t) && y.k != k)
  }

  lemma {:induction false} DeletedIs(r: Result<nat>, x: Outcome, t: Tree, k: Key, fr: seq<Extent>, ns: nat, g: nat)
    requires ns > 0 && WellFormed(t, ns) && LevelOf(t) <= MAX_DEPTH && x == MutateTree(t, Delete(k), fr, ns, g)
    requires if x.Ok? then r.Ok? else r == Err(x.error)
    ensures Deleted(r, x, t, k, fr, ns)
  {
    hide Ordered, Full, Fits, Contents, MutateTree, Absent, Offers, Copies, ApplyLeaf, RouteItems;
    DeleteMissingIff(t, k, fr, ns, g);
    MutateNoBlockIff(t, Delete(k), fr, ns, g);
    DeleteLeafIff(RouteItems(t, k), k, ns);
    AbsentRouted(t, k, ns);
    if x.Ok? {
      forall y ensures y in Contents(x.value.0) <==> y in Contents(t) && y.k != k {
        MutateTreeMembers(t, Delete(k), fr, ns, g, y);
      }
    }
  }

  /** What cowUpdate promises on a search tree: it fails exactly when the key is absent, its leaf would not fit
      or there is not a free block for every level, and otherwise gives the item the new data and keeps every
      other. */
  ghost predicate Updated(r: Result<nat>, x: Outcome, t: Tree, k: Key, data: seq<u8>, fr: seq<Extent>, ns: nat)
    requires ns > 0 && Shape(t, LevelOf(t))
  {
    && (r == Err(Missing) <==> Absent(Contents(t), k))
    && (r == Err(NoRoom) <==> TooBig(RouteItems(t, k), k, data, ns))
    && (r == Err(NoBlock) <==>
          !Absent(Contents(t), k) && !TooBig(RouteItems(t, k), k, data, ns) && Offers(fr, ns) < LevelOf(t) + 1)
    && (r.Err? ==> r.error == Missing || r.error == NoRoom || r.error == NoBlock)
    && (r.Ok? ==>
          x.Ok? && forall y :: y in Contents(x.value.0) <==> (y in Contents(t) && y.k != k) || y == Item(k, data))
  }

  lemma {:induction false} UpdatedIs(r: Result<nat>, x: Outcome, t: Tree, k: Key, data: seq<u8>, fr: seq<Extent>,
                                     ns: nat, g: nat)
    requires ns > 0 && WellFormed(t, ns) && LevelOf(t) <= MAX_DEPTH && x == MutateTree(t, Update(k, data), fr, ns, g)
    requires if x.Ok? then r.Ok? else r == Err(x.error)
    ensures Updated(r, x, t, k, data, fr, ns)
  {
    hide Ordered, Full, Fits, Contents, MutateTree, Absent, TooBig, RouteItems, Offers, Copies, ApplyLeaf, LeafFits;
    UpdateMissingIff(t, k, data, fr, ns, g);
    MutateNoBlockIff(t, Update(k, data), fr, ns, g);
    RouteFits(t, k, ns);
    UpdateLeafIff(RouteItems(t, k), k, data, ns);
    AbsentRouted(t, k, ns);
    UpdateKeepsSome(t, k, data, ns);
    if x.Ok? {
      forall y ensures y in Contents(x.value.0) <==> (y in Contents(t) && y.k != k) || y == Item(k, data) {
        MutateTreeMembers(t, Update(k, data), fr, ns, g, y);
      }
    }
  }

  lemma {:induction false} UpdateKeepsSome(t: Tree, k: Key, data: seq<u8>, ns: nat)
    requires Shape(t, LevelOf(t))
    ensures Copies(t, Update(k, data), true, ns) == LevelOf(t) + 1
  {
    hide Copies, RouteItems;
    CopiesIs(t, Update(k, data), true, ns);
  }

  /** What cowInsert of a new key promises on a search tree: it succeeds exactly when the item fits its leaf and
      there is a free block for every level, or the leaf can be cut and there are the blocks of the splits; then
      the tree has the items there were and the new one. */
  ghost predicate Inserted(x: Outcome, t: Tree, k: Key, data: seq<u8>, fr: seq<Extent>, ns: nat)
    requires ns > 0 && Shape(t, LevelOf(t))
  {
    && (x.Ok? ==> forall y :: y in Contents(x.value.0) <==> y in Contents(t) || y == Item(k, data))
    && (LevelOf(t) <= MAX_DEPTH ==>
          var all := InsertSorted(RouteItems(t, k), Item(k, data));
          x.Ok? <==> if LeafFits(all, ns) then Offers(fr, ns) >= LevelOf(t) + 1
                     else CutFits(all, ns) && Offers(fr, ns) >= SplitBlocks(t, k, ns))
  }

  lemma {:induction false} InsertedIs(x: Outcome, t: Tree, k: Key, data: seq<u8>, fr: seq<Extent>, ns: nat, g: nat)
    requires ns > 0 && WellFormed(t, ns) && Absent(Contents(t), k) && x == InsertTree(t, k, data, fr, ns, g)
    ensures Inserted(x, t, k, data, fr, ns)
  {
    hide Ordered, Full, Fits, Contents, InsertTree, Absent, Offers, SplitBlocks, CutFits, LeafFits, InsertSorted,
         RouteItems;
    if LevelOf(t) <= MAX_DEPTH {
      InsertOkIff(t, k, data, fr, ns, g);
    }
    if x.Ok? {
      forall y ensures y in Contents(x.value.0) <==> y in Contents(t) || y == Item(k, data) {
        InsertTreeMembers(t, k, data, fr, ns, g, y);
      }
    }
  }
}
