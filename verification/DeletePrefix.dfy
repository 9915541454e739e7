/** cowDeletePrefix (btree_write.go). */
module PrefixDeletion {
  import opened Keys
  import opened FreeSpace
  import opened Trees
  import opened CowSpec
  import opened CowShape
  import opened CowLeaf
  import opened CowMutate
  import opened CowTheorems
  import opened CowExact
  import opened CowRoot
  import opened SearchSpec
  import opened Volumes
  import opened CowEngine
  import opened WalkSpec
  import opened TreeWalk
  import opened PrefixPass
  import opened PrefixExact

  lemma {:induction false} SoundWalkable(t: Tree, ns: nat)
    requires Sound(t, ns)
    ensures Orderable(t) && Levelled(t, LevelOf(t))
    ensures !WellFormed(t, ns) ==> Contents(t) == []
  {
    if WellFormed(t, ns) {
      ShapeLevelled(t, LevelOf(t));
    } else {
      assert Ordered(t, 0, 0);
    }
  }

  /** One pass on the device. */
  method DeletePass(v: Volume, root: nat, objID: u64, typ: u8, ghost t: Tree) returns (r: Result<nat>, ghost t': Tree)
    requires v.Valid() && Stored(v.dev, t) && root == t.addr && WellFormed(t, v.ns) && Clean(v.sm.freeExts, t, v.ns)
    modifies v`dev, v.sm`freeExts
    ensures r.Ok? ==>
            Stored(v.dev, t') && r.value == t'.addr
                && Passed((t', v.sm.freeExts), t, objID, typ, old(v.sm.freeExts), v.ns)
    ensures r.Ok? ==> (Removable(t, objID, typ, v.ns) <==> Removable(t', objID, typ, v.ns))
    ensures r.Err? ==> t' == t && Stored(v.dev, t) && Fewer(v.sm.freeExts, old(v.sm.freeExts))
    ensures r == Err(Missing) && WithPrefix(Contents(t), objID, typ) != [] ==> !Removable(t, objID, typ, v.ns)
    ensures r.Err? ==> r.error in {Missing, NoBlock, TooDeep} && (r.error == TooDeep ==> LevelOf(t) > MAX_DEPTH)
    ensures r == Err(Missing) ==> v.sm.freeExts == old(v.sm.freeExts)
    ensures r.Err? ==>
            MutateTree(t, DeletePrefix(objID, typ), old(v.sm.freeExts), v.ns, v.generation + 1) == Err(r.error)
  {
    hide Removable, Passed, Rank, Stored, Contents, WithPrefix, FreeCnt, Cnt, Ordered, Full, Fits, Shape, Spared,
         MutateTree, Clean;
    ghost var x;
    r, x := v.CowMutate(root, DeletePrefix(objID, typ), t);
    PassDone(t, objID, typ, old(v.sm.freeExts), v.ns, v.generation + 1, x);
    PassOutcome(t, objID, typ, old(v.sm.freeExts), v.ns, v.generation + 1);
    PassErrors(t, objID, typ, old(v.sm.freeExts), v.ns, v.generation + 1);
    t' := if x.Ok? then x.value.0 else t;
  }

  lemma {:induction false} PassOutcome(t: Tree, objID: u64, typ: u8, fr: seq<Extent>, ns: nat, g: nat)
    requires WellFormed(t, ns)
    ensures var x := MutateTree(t, DeletePrefix(objID, typ), fr, ns, g);
            && (x.Ok? ==> (Removable(t, objID, typ, ns) <==> Removable(x.value.0, objID, typ, ns)))
            && (x == Err(Missing) && WithPrefix(Contents(t), objID, typ) != [] ==> !Removable(t, objID, typ, ns))
  {
    hide Rank, Shape, Ordered, Fits, Full, MutateRec, WithPrefix, Removable, RouteItems, Contents;
    var x := MutateTree(t, DeletePrefix(objID, typ), fr, ns, g);
    if x.Ok? {
      PassKeepsRemovable(t, objID, typ, fr, ns, g);
    } else if x == Err(Missing) && WithPrefix(Contents(t), objID, typ) != [] {
      PassStuckIff(t, objID, typ, fr, ns, g);
      StuckNotRemovable(t, objID, typ, ns);
    }
  }

  lemma {:induction false} PassErrors(t: Tree, objID: u64, typ: u8, fr: seq<Extent>, ns: nat, g: nat)
    requires Shape(t, LevelOf(t))
    ensures var x := MutateTree(t, DeletePrefix(objID, typ), fr, ns, g);
            x.Err? ==> x.error in {Missing, NoBlock, TooDeep} && (x.error == TooDeep ==> LevelOf(t) > MAX_DEPTH)
  {
    hide Shape, WithoutPrefix, MutateRec, RouteItems, SpineAddrs, FreeAll;
    FailsAtRoute(t, DeletePrefix(objID, typ), true, fr, ns, g);
  }

  /** The tree t' is t with some matches removed, stored and disjoint from the free list fr, which
      has lost nothing that the passes before gave back except what a failed pass took. */
  ghost predicate Underway(t': Tree, t: Tree, objID: u64, typ: u8, fr: seq<Extent>, fr0: seq<Extent>, ns: nat) {
    && Clean(fr, t', ns) && Sound(t', ns) && |Contents(t')| <= |Contents(t)|
    && WithoutPrefix(Contents(t'), objID, typ) == WithoutPrefix(Contents(t), objID, typ)
    && (Removable(t, objID, typ, ns) <==> Removable(t', objID, typ, ns))
    && forall b: nat :: FreeCnt(fr, b) + Cnt(t', ns, b) <= FreeCnt(fr0, b) + Cnt(t, ns, b)
  }

  /** A pass over t' fails for want of a block, with the free list that the passes from t to t' have left. */
  ghost predicate OutOfBlocks(t: Tree, t': Tree, objID: u64, typ: u8, fr0: seq<Extent>, g: nat, ns: nat) {
    && Shape(t', LevelOf(t'))
    && exists fr ::
         && (forall b: nat :: FreeCnt(fr, b) + Cnt(t', ns, b) == FreeCnt(fr0, b) + Cnt(t, ns, b))
         && MutateTree(t', DeletePrefix(objID, typ), fr, ns, g) == Err(NoBlock)
  }

  lemma {:induction false} PassOutOfBlocks(t: Tree, t': Tree, objID: u64, typ: u8, fr0: seq<Extent>, fr: seq<Extent>,
                                           g: nat, ns: nat)
    requires Shape(t', LevelOf(t')) && MutateTree(t', DeletePrefix(objID, typ), fr, ns, g) == Err(NoBlock)
    requires forall b: nat :: FreeCnt(fr, b) + Cnt(t', ns, b) == FreeCnt(fr0, b) + Cnt(t, ns, b)
    ensures OutOfBlocks(t, t', objID, typ, fr0, g, ns)
  {
    hide MutateTree, FreeCnt, Cnt;
  }

  /** cowDeletePrefix: terminates on every finite tree, each pass removing an item. Any root it returns
      holds exactly the items without the prefix, and no byte leaks. Unless it runs out of blocks or
      into the limits of the walk, it returns one exactly when the matches are removable, and ends with
      "routed to a leaf without matches" exactly when they are not. A failure leaves a stored tree
      that has lost matches only. */
  method CowDeletePrefix(v: Volume, root: nat, objID: u64, typ: u8, ghost t: Tree)
    returns (r: Result<nat>, ghost t': Tree)
    requires v.Valid() && Stored(v.dev, t) && root == t.addr && WellFormed(t, v.ns) && Clean(v.sm.freeExts, t, v.ns)
    modifies v`dev, v.sm`freeExts
    ensures r.Ok? ==>
      && Stored(v.dev, t') && r.value == t'.addr
      && Contents(t') == WithoutPrefix(Contents(t), objID, typ)
      && (forall x :: x in Contents(t') <==> x in Contents(t) && !(x.k.objID == objID && x.k.typ == typ))
      && (WellFormed(t', v.ns) || (t'.Node? && t'.kids == [] && Contents(t') == []))
    ensures r.Ok? || r == Err(Missing) ==>
              forall b: nat ::
                  FreeCnt(v.sm.freeExts, b) + Cnt(t', v.ns, b) == old(FreeCnt(v.sm.freeExts, b)) + Cnt(t, v.ns, b)
    ensures || (r.Err? && r.error in {NoBlock, TooDeep, TooLarge})
            || (r.Ok? && Removable(t, objID, typ, v.ns))
            || (r == Err(Missing) && !Removable(t, objID, typ, v.ns))
    ensures r.Err? ==> Stored(v.dev, t') && Underway(t', t, objID, typ, v.sm.freeExts, old(v.sm.freeExts), v.ns)
    ensures r == Err(TooDeep) || r == Err(TooLarge) ==> NodeCount(t') > MAX_NODES || LevelOf(t') > MAX_DEPTH
    ensures r == Err(NoBlock) ==> OutOfBlocks(t, t', objID, typ, old(v.sm.freeExts), v.generation + 1, v.ns)
  {
    hide Removable, Rank, Stored, Contents, WithPrefix, WithoutPrefix, FreeCnt, Cnt, Ordered, Full, Fits, Shape,
         NodeCount, MutateTree, OutOfBlocks;
    var curRoot := root;
    t' := t;
    FiltersAre(Contents(t), objID, typ);
    while true
      invariant Stored(v.dev, t') && curRoot == t'.addr
                && Underway(t', t, objID, typ, v.sm.freeExts, old(v.sm.freeExts), v.ns)
      invariant forall b: nat ::
                FreeCnt(v.sm.freeExts, b) + Cnt(t', v.ns, b) == old(FreeCnt(v.sm.freeExts, b)) + Cnt(t, v.ns, b)
      decreases |Contents(t')|
    {
      SoundWalkable(t', v.ns);
      CleanTree(v.sm.freeExts, t', v.ns);
      PrefixSplit(Contents(t'), objID, typ);
      var found := FindLeafContainingPrefix(v.dev, curRoot, objID, typ, v.ns, t');
      if found.Err? {
        return Err(found.error), t';
      }
      if !found.value {
        NoneRemovable(t', objID, typ, v.ns);
        return Ok(curRoot), t';
      }
      var pass;
      ghost var was, fr := t', v.sm.freeExts;
      pass, t' := DeletePass(v, curRoot, objID, typ, t');
      if pass.Err? {
        if pass.error == NoBlock {
          PassOutOfBlocks(t, was, objID, typ, old(v.sm.freeExts), fr, v.generation + 1, v.ns);
        }
        return Err(pass.error), t';
      }
      curRoot := pass.value;
    }
  }

  lemma {:induction false} NoneRemovable(t: Tree, objID: u64, typ: u8, ns: nat)
    requires WithPrefix(Contents(t), objID, typ) == []
    ensures Removable(t, objID, typ, ns)
  {
  }

  // ---- a tree on which the first pass is stuck -----------------------------------------------------

  function StuckLeaf(a: nat, k: Key): Tree {
    Leaf(a, 1, [Item(k, [7])])
  }

  /** Two leaves; the only match, (8, 1, 3), opens the second one. */
  function StuckTree(): Tree {
    Node(1000, 1, 1, [Kid(Key(5, 1, 0), 1, StuckLeaf(2000, Key(5, 1, 0))),
                      Kid(Key(8, 1, 3), 1, StuckLeaf(3000, Key(8, 1, 3)))])
  }

  lemma {:induction false} StuckLeafGood(a: nat, k: Key, hi: int)
    requires Rank(k) < hi
    ensures Good(StuckLeaf(a, k), 0, Rank(k), hi, 500)
  {
    DataSumOne(Item(k, [7]));
  }

  lemma {:induction false} StuckWellFormed()
    ensures WellFormed(StuckTree(), 500)
    ensures Contents(StuckTree()) == [Item(Key(5, 1, 0), [7]), Item(Key(8, 1, 3), [7])]
  {
    var k, l := Key(5, 1, 0), Key(8, 1, 3);
    var x, y := Kid(k, 1, StuckLeaf(2000, k)), Kid(l, 1, StuckLeaf(3000, l));
    StuckLeafGood(2000, k, Rank(l));
    StuckLeafGood(3000, l, RANK_LIMIT);
    OneGood(x, 0, Rank(l), 500);
    OneGood(y, 0, RANK_LIMIT, 500);
    JoinGood([x], [y], 0, Rank(k), Rank(l), RANK_LIMIT, 500);
    TwoParts([x, y]);
    NodeGood(StuckTree(), 1, Rank(k), RANK_LIMIT, 500);
    OrderedWiden(StuckTree(), Rank(k), RANK_LIMIT, 0, RANK_LIMIT);
    TwoLeafContents(StuckTree());
  }

  lemma {:induction false} RouteAboveLeaves(t: Tree, k: Key, n: nat)
    requires t.Node? && Shape(t, LevelOf(t)) && n < |t.kids| && t.kids[n].sub.Leaf?
    requires (forall i :: 0 <= i <= n ==> Rank(t.kids[i].sep) <= Rank(k))
    requires n + 1 < |t.kids| ==> Rank(k) < Rank(t.kids[n+1].sep)
    ensures RouteItems(t, k) == t.kids[n].sub.items
  {
    RoutedShape(t, k);
    LeadKid(t.kids, k, n + 1);
  }

  lemma {:induction false} TwoLeafStuck(t: Tree, x: Item, y: Item, o: u64, ty: u8)
    requires t.Node? && Shape(t, LevelOf(t)) && |t.kids| == 2 && t.kids[0].sub.Leaf? && t.kids[0].sub.items == [x]
    requires Rank(t.kids[0].sep) <= Rank(Key(o, ty, 0)) < Rank(t.kids[1].sep)
    requires Contents(t) == [x, y] && !HasPrefix(x.k, o, ty) && HasPrefix(y.k, o, ty)
    ensures WithPrefix(RouteItems(t, Key(o, ty, 0)), o, ty) == [] && WithPrefix(Contents(t), o, ty) != []
  {
    RouteAboveLeaves(t, Key(o, ty, 0), 0);
    OneFiltered(x, o, ty);
    OneFiltered(y, o, ty);
    WithPrefixConcat([x], [y], o, ty);
    assert Contents(t) == [x] + [y];
  }

  /** On that tree cowDeletePrefix of (8, 1) stops at once although a match exists. */
  lemma {:induction false} StuckExample(t: Tree, fr: seq<Extent>, g: nat)
    requires t == StuckTree()
    ensures WellFormed(t, 500) && WithPrefix(Contents(t), 8, 1) != []
    ensures MutateTree(t, DeletePrefix(8, 1), fr, 500, g) == Err(Missing)
  {
    StuckWellFormed();
    StuckFrom(t, Item(Key(5, 1, 0), [7]), Item(Key(8, 1, 3), [7]), 8, 1, fr, 500, g);
  }

  lemma {:induction false} StuckFrom(t: Tree, x: Item, y: Item, o: u64, ty: u8, fr: seq<Extent>, ns: nat, g: nat)
    requires WellFormed(t, ns) && t.Node? && t.level == 1
    requires |t.kids| == 2 && t.kids[0].sub.Leaf? && t.kids[0].sub.items == [x]
    requires Rank(t.kids[0].sep) <= Rank(Key(o, ty, 0)) < Rank(t.kids[1].sep)
    requires Contents(t) == [x, y] && !HasPrefix(x.k, o, ty) && HasPrefix(y.k, o, ty)
    ensures WithPrefix(Contents(t), o, ty) != []
    ensures MutateTree(t, DeletePrefix(o, ty), fr, ns, g) == Err(Missing)
  {
    TwoLeafStuck(t, x, y, o, ty);
    PassStuckIff(t, o, ty, fr, ns, g);
  }

  lemma {:induction false} OneFiltered(x: Item, objID: u64, typ: u8)
    ensures WithPrefix([x], objID, typ) == if HasPrefix(x.k, objID, typ) then [x] else []
    ensures WithoutPrefix([x], objID, typ) == if HasPrefix(x.k, objID, typ) then [] else [x]
  {
    assert [x][..0] == [] && [x][1..] == [];
  }
}
