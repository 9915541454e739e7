/** One pass of cowDeletePrefix (btree_write.go): what it removes and when it is refused. */
module PrefixPass {
  import opened Keys
  import opened FreeSpace
  import opened Trees
  import opened CowSpec
  import opened CowLeaf
  import opened CowMutate
  import opened CowConserve
  import opened CowTheorems
  import opened CowExact
  import opened CowRoot
  import opened SearchSpec
  import opened Volumes
  import opened WalkSpec

  /** What the loop of cowDeletePrefix keeps of the tree: it is well-formed, or it is the inner
      root without pointers that deleting the last item leaves. */
  ghost predicate Sound(t: Tree, ns: nat) {
    WellFormed(t, ns) || (t.Node? && t.kids == [] && t.level > 0)
  }

  lemma {:induction false} FilterLeaf(l: seq<Item>, s: seq<Item>, r: seq<Item>, objID: u64, typ: u8, ns: nat)
    requires ApplyLeaf(DeletePrefix(objID, typ), s, ns).Ok?
    ensures var s' := ApplyLeaf(DeletePrefix(objID, typ), s, ns).value;
            && WithoutPrefix(l + s' + r, objID, typ) == WithoutPrefix(l + s + r, objID, typ)
            && |l + s' + r| < |l + s + r|
  {
    var s' := ApplyLeaf(DeletePrefix(objID, typ), s, ns).value;
    WithoutPrefixTwice(s, objID, typ);
    WithoutPrefixUse(s, objID, typ);
    WithoutPrefixConcat(l + s', r, objID, typ);
    WithoutPrefixConcat(l, s', objID, typ);
    WithoutPrefixConcat(l + s, r, objID, typ);
    WithoutPrefixConcat(l, s, objID, typ);
  }

  /** One pass removes at least one matching item, none other, and keeps the tree sound. */
  lemma {:induction false} PassKeeps(t: Tree, objID: u64, typ: u8, fr: seq<Extent>, ns: nat, g: nat)
    requires WellFormed(t, ns) && MutateTree(t, DeletePrefix(objID, typ), fr, ns, g).Ok?
    ensures var t' := MutateTree(t, DeletePrefix(objID, typ), fr, ns, g).value.0;
            && Sound(t', ns) && |Contents(t')| < |Contents(t)|
            && WithoutPrefix(Contents(t'), objID, typ) == WithoutPrefix(Contents(t), objID, typ)
  {
    var op := DeletePrefix(objID, typ);
    var k := RouteKey(op);
    var m := MutateRec(t, op, true, fr, ns, g);
    MutateContents(t, op, true, fr, ns, g);
    RouteContents(t, k);
    FilterLeaf(LeftOf(t, k), RouteItems(t, k), RightOf(t, k), objID, typ, ns);
    CollapseKeeps(m.t, FreeAll(m.fr, SpineAddrs(t, k), ns), ns, g);
    PassSound(t, op, fr, ns, g);
  }

  lemma {:induction false} PassSound(t: Tree, op: LeafOp, fr: seq<Extent>, ns: nat, g: nat)
    requires WellFormed(t, ns) && op.DeletePrefix? && MutateTree(t, op, fr, ns, g).Ok?
    ensures Sound(MutateTree(t, op, fr, ns, g).value.0, ns)
  {
    var m := MutateRec(t, op, true, fr, ns, g);
    MutateTopWellFormed(t, op, fr, ns, g);
    CollapseKeeps(m.t, FreeAll(m.fr, SpineAddrs(t, RouteKey(op)), ns), ns, g);
    if t.Node? && Contents(m.t) == [] {
      LastItemGone(t, op, fr, ns, g);
    }
  }

  /** What a successful pass x leaves of t and the free list fr. */
  ghost predicate Passed(x: (Tree, seq<Extent>), t: Tree, objID: u64, typ: u8, fr: seq<Extent>, ns: nat) {
    && Clean(x.1, x.0, ns) && Sound(x.0, ns) && |Contents(x.0)| < |Contents(t)|
    && WithoutPrefix(Contents(x.0), objID, typ) == WithoutPrefix(Contents(t), objID, typ)
    && forall b: nat :: FreeCnt(x.1, b) + Cnt(x.0, ns, b) == FreeCnt(fr, b) + Cnt(t, ns, b)
  }

  lemma {:induction false} PassDone(t: Tree, objID: u64, typ: u8, fr: seq<Extent>, ns: nat, g: nat,
                                    x: Result<(Tree, seq<Extent>)>)
    requires WellFormed(t, ns) && Clean(fr, t, ns) && x == MutateTree(t, DeletePrefix(objID, typ), fr, ns, g)
    ensures x.Ok? ==> Passed(x.value, t, objID, typ, fr, ns)
  {
    if x.Ok? {
      PassKeeps(t, objID, typ, fr, ns, g);
      forall b: nat
        ensures FreeCnt(x.value.1, b) + Cnt(x.value.0, ns, b) == FreeCnt(fr, b) + Cnt(t, ns, b) <= 1
      {
        assert FreeCnt(fr, b) + Cnt(t, ns, b) <= 1;
        MutateTreeConserves(t, DeletePrefix(objID, typ), fr, ns, g, b);
      }
    }
  }

  // ---- when a pass gets stuck -----------------------------------------------------------------------

  /** A pass stops with "routed to a leaf without matches" exactly when the leaf that
      (objID, typ, 0) routes to holds none, wherever else matches are. */
  lemma {:induction false} PassStuckIff(t: Tree, objID: u64, typ: u8, fr: seq<Extent>, ns: nat, g: nat)
    requires Shape(t, LevelOf(t)) && LevelOf(t) <= MAX_DEPTH
    ensures MutateTree(t, DeletePrefix(objID, typ), fr, ns, g) == Err(Missing) <==>
            WithPrefix(RouteItems(t, Key(objID, typ, 0)), objID, typ) == []
  {
    hide Shape, WithPrefix, WithoutPrefix, MutateRec, RouteItems, SpineAddrs, FreeAll;
    var op := DeletePrefix(objID, typ);
    FailsAtRoute(t, op, true, fr, ns, g);
    PrefixSplit(RouteItems(t, RouteKey(op)), objID, typ);
  }

  /** Matches cannot lie left of the routed leaf. */
  lemma {:induction false} LeftHasNone(t: Tree, objID: u64, typ: u8, ns: nat)
    requires WellFormed(t, ns)
    ensures WithPrefix(LeftOf(t, Key(objID, typ, 0)), objID, typ) == []
  {
    var k := Key(objID, typ, 0);
    RoutedLeaf(t, k, ns);
    BelowNone(LeftOf(t, k), objID, typ);
  }

  lemma {:induction false} BelowNone(s: seq<Item>, objID: u64, typ: u8)
    requires AllBelow(s, Rank(Key(objID, typ, 0)))
    ensures WithPrefix(s, objID, typ) == []
  {
    if s != [] {
      BelowNone(s[..|s|-1], objID, typ);
      PrefixIsInterval(s[|s|-1].k, objID, typ);
    }
  }

  /** When all matches are in the routed leaf, one pass removes them all. */
  lemma {:induction false} OnePassSuffices(t: Tree, objID: u64, typ: u8, fr: seq<Extent>, ns: nat, g: nat)
    requires WellFormed(t, ns) && WithPrefix(RightOf(t, Key(objID, typ, 0)), objID, typ) == []
    requires MutateTree(t, DeletePrefix(objID, typ), fr, ns, g).Ok?
    ensures Contents(MutateTree(t, DeletePrefix(objID, typ), fr, ns, g).value.0) ==
            WithoutPrefix(Contents(t), objID, typ)
  {
    hide Ordered, Fits, Full, Shape, WithPrefix, WithoutPrefix, MutateRec, RightOf, LeftOf, RouteItems, SpineAddrs,
         FreeAll, Contents;
    var op, k := DeletePrefix(objID, typ), Key(objID, typ, 0);
    var m := MutateRec(t, op, true, fr, ns, g);
    MutateContents(t, op, true, fr, ns, g);
    CollapseKeeps(m.t, FreeAll(m.fr, SpineAddrs(t, k), ns), ns, g);
    RouteContents(t, k);
    var l, s, r := LeftOf(t, k), RouteItems(t, k), RightOf(t, k);
    LeftHasNone(t, objID, typ, ns);
    PrefixSplit(l, objID, typ);
    PrefixSplit(r, objID, typ);
    WithoutPrefixConcat(l + s, r, objID, typ);
    WithoutPrefixConcat(l, s, objID, typ);
  }

  /** A pass that leaves items in the routed leaf leaves the route alone. */
  lemma {:induction false} RouteStays(t: Tree, op: LeafOp, top: bool, fr: seq<Extent>, ns: nat, g: nat)
    requires Shape(t, LevelOf(t)) && ApplyLeaf(op, RouteItems(t, RouteKey(op)), ns).Ok?
    requires ApplyLeaf(op, RouteItems(t, RouteKey(op)), ns).value != []
    ensures var r := MutateRec(t, op, top, fr, ns, g);
            && !r.MDrop?
            && (r.MKeep? ==> !r.shrunk && Shape(r.t, LevelOf(t)) && LevelOf(r.t) == LevelOf(t)
                             && RouteItems(r.t, RouteKey(op)) == ApplyLeaf(op, RouteItems(t, RouteKey(op)), ns).value)
    decreases t
  {
    hide ApplyLeaf, FirstFit, RouteKid, Rank;
    if t.Leaf? {
      assert MutateRec(t, op, top, fr, ns, g) == MutateLeaf(op, t.items, top, fr, ns, g);
    } else {
      hide Shape, RouteItems, MutateRec;
      var k := RouteKey(op);
      var c := RouteKid(t.kids, k);
      RouteItemsNode(t, k);
      RouteStays(t.kids[c].sub, op, false, fr, ns, g);
      MutateRecNode(t, op, top, fr, ns, g);
      var m := MutateRec(t.kids[c].sub, op, false, fr, ns, g);
      if m.MKeep? {
        var r := CowNode(t.level, t.kids[c := Kid(t.kids[c].sep, g, m.t)], m.fr, ns, g);
        if r.MKeep? {
          ReplacedRoute(t, r.t, m.t, k, g);
        }
      }
    }
  }

  lemma {:induction false} RouteItemsNode(t: Tree, k: Key)
    requires t.Node? && Shape(t, LevelOf(t))
    ensures var s := t.kids[RouteKid(t.kids, k)].sub;
            Shape(s, LevelOf(s)) && LevelOf(s) == t.level - 1 && RouteItems(t, k) == RouteItems(s, k)
  {
    RoutedShape(t, k);
    assert Shape(t.kids[RouteKid(t.kids, k)].sub, t.level - 1);
  }

  /** A node whose routed child was replaced routes to the replacement. */
  lemma {:induction false} ReplacedRoute(t: Tree, t': Tree, s: Tree, k: Key, g: nat)
    requires t.Node? && Shape(t, LevelOf(t)) && t'.Node? && t'.level == t.level && Shape(s, t.level - 1)
    requires var c := RouteKid(t.kids, k); t'.kids == t.kids[c := Kid(t.kids[c].sep, g, s)]
    ensures Shape(t', LevelOf(t')) && Shape(s, LevelOf(s)) && RouteItems(t', k) == RouteItems(s, k)
  {
    hide Lead;
    var c := RouteKid(t.kids, k);
    SearchReplaced(t.kids, c, Kid(t.kids[c].sep, g, s), k);
    assert forall i :: 0 <= i < |t.kids| && i != c ==> t'.kids[i] == t.kids[i];
    assert Shape(t', LevelOf(t'));
    RouteItemsNode(t', k);
  }

  lemma {:induction false} FilteredNone(s: seq<Item>, objID: u64, typ: u8)
    ensures WithPrefix(WithoutPrefix(s, objID, typ), objID, typ) == []
  {
    WithoutPrefixTwice(s, objID, typ);
    PrefixSplit(WithoutPrefix(s, objID, typ), objID, typ);
  }
}
