/** The main results on cowInsert, cowUpdate and cowDelete: they refine a sorted map, keep a
    well-formed tree well-formed exactly under stated conditions, and conserve blocks. */
module CowTheorems {
  import opened Keys
  import opened FreeSpace
  import opened Trees
  import opened CowSpec
  import opened CowLeaf
  import opened CowMutate
  import opened CowConserve
  import opened CowSplit
  import opened MapSpec

  // ---- tryCollapseTwoLeafRoot ------------------------------------------------------------

  lemma {:induction false} TwoLeafContents(t: Tree)
    requires TwoLeafRoot(t)
    ensures Contents(t) == t.kids[0].sub.items + t.kids[1].sub.items
  {
    TwoParts(t.kids);
    KidsContentsConcat([t.kids[0]], [t.kids[1]]);
    KidsContentsOne(t.kids[0]);
    KidsContentsOne(t.kids[1]);
  }

  /** The merge keeps the contents and a well-formed tree. */
  lemma {:induction false} CollapseKeeps(t: Tree, fr: seq<Extent>, ns: nat, g: nat)
    ensures var (t', _) := TryCollapse(t, fr, ns, g);
            && Contents(t') == Contents(t)
            && (WellFormed(t, ns) ==> WellFormed(t', ns))
            && (GenOK(t) ==> GenOK(t'))
  {
    if TwoLeafRoot(t) {
      TwoLeafContents(t);
      if Ordered(t, 0, RANK_LIMIT) {
        ContentsIn(t, 0, RANK_LIMIT);
      }
    }
  }

  // ---- contents as a sorted sequence ---------------------------------------------------------

  lemma {:induction false} InsertPosUnique(s: seq<Item>, k: Key, p: nat)
    requires p <= |s| && (forall i :: 0 <= i < p ==> Rank(s[i].k) <= Rank(k))
    requires p < |s| ==> Rank(k) < Rank(s[p].k)
    ensures InsertPos(s, k) == p
  {
  }

  lemma {:induction false} InsertPosLeft(l: seq<Item>, s: seq<Item>, k: Key)
    requires AllBelow(l, Rank(k))
    ensures InsertPos(l + s, k) == |l| + InsertPos(s, k)
  {
    InsertPosUnique(l + s, k, |l| + InsertPos(s, k));
  }

  lemma {:induction false} InsertPosRight(s: seq<Item>, r: seq<Item>, k: Key)
    requires AllAbove(Rank(k), r)
    ensures InsertPos(s + r, k) == InsertPos(s, k)
  {
    InsertPosUnique(s + r, k, InsertPos(s, k));
  }

  lemma {:induction false} InsertPosFrame(l: seq<Item>, s: seq<Item>, r: seq<Item>, k: Key)
    requires AllBelow(l, Rank(k)) && AllAbove(Rank(k), r)
    ensures InsertPos(l + s + r, k) == |l| + InsertPos(s, k)
  {
    InsertPosRight(l + s, r, k);
    InsertPosLeft(l, s, k);
  }

  /** Inserting in the routed leaf is inserting in the sorted contents. */
  lemma {:induction false} InsertSortedFrame(l: seq<Item>, s: seq<Item>, r: seq<Item>, x: Item)
    requires AllBelow(l, Rank(x.k)) && AllAbove(Rank(x.k), r)
    ensures InsertSorted(l + s + r, x) == l + InsertSorted(s, x) + r
  {
    InsertPosFrame(l, s, r, x.k);
    var p := InsertPos(s, x.k);
    PutFrame(l, s, r, x, p);
  }

  lemma {:induction false} PutFrame<T>(l: seq<T>, s: seq<T>, r: seq<T>, x: T, p: nat)
    requires p <= |s|
    ensures (l + s + r)[..|l| + p] + [x] + (l + s + r)[|l| + p..] == l + (s[..p] + [x] + s[p..]) + r
  {
    assert (l + s + r)[..|l| + p] == l + s[..p];
    assert (l + s + r)[|l| + p..] == s[p..] + r;
  }

  lemma {:induction false} AbsentPart(l: seq<Item>, s: seq<Item>, r: seq<Item>, k: Key)
    requires Absent(l + s + r, k)
    ensures Absent(s, k)
  {
    forall i | 0 <= i < |s| ensures s[i].k != k {
      assert (l + s + r)[|l| + i] == s[i];
    }
  }

  /** A leaf mutation inside sorted contents leaves sorted contents. */
  lemma {:induction false} MutatedSorted(op: LeafOp, l: seq<Item>, s: seq<Item>, r: seq<Item>, ns: nat)
    requires !op.DeletePrefix? && ApplyLeaf(op, s, ns).Ok?
    requires ItemsIn(l + s + r, 0, RANK_LIMIT)
    requires op.Insert? ==> Absent(l + s + r, op.k) && AllBelow(l, Rank(op.k)) && AllAbove(Rank(op.k), r)
    ensures ItemsIn(l + ApplyLeaf(op, s, ns).value + r, 0, RANK_LIMIT)
  {
    var w := l + s + r;
    match op
    case Insert(k, data) =>
      CompareIsRank(k, k);
      InsertSortedIn(w, Item(k, data), 0, RANK_LIMIT);
      InsertSortedFrame(l, s, r, Item(k, data));
    case Update(k, data) =>
      var i := IndexOf(s, k);
      assert w[|l| + i] == s[i];
      ReplaceIn(w, |l| + i, Item(k, data), 0, RANK_LIMIT);
      SetFrame(l, s, r, Item(k, data), i);
    case Delete(k) =>
      var i := IndexOf(s, k);
      RemoveIn(w, |l| + i, 0, RANK_LIMIT);
      DropFrame(l, s, r, i);
  }

  lemma {:induction false} SetFrame<T>(l: seq<T>, s: seq<T>, r: seq<T>, x: T, i: nat)
    requires i < |s|
    ensures (l + s + r)[|l| + i := x] == l + s[i := x] + r
  {
  }

  lemma {:induction false} DropFrame<T>(l: seq<T>, s: seq<T>, r: seq<T>, i: nat)
    requires i < |s|
    ensures (l + s + r)[..|l| + i] + (l + s + r)[|l| + i + 1..] == l + (s[..i] + s[i+1..]) + r
  {
    assert (l + s + r)[..|l| + i] == l + s[..i];
    assert (l + s + r)[|l| + i + 1..] == s[i+1..] + r;
  }

  // ---- refinement --------------------------------------------------------------------------------

  /** What the operation needs of the tree: an inserted key is new. */
  ghost predicate OpReady(t: Tree, op: LeafOp) {
    op.Insert? ==> Absent(Contents(t), op.k)
  }

  /** The routed leaf of a well-formed tree, among its neighbours in the contents. */
  lemma {:induction false} RoutedLeaf(t: Tree, k: Key, ns: nat)
    requires WellFormed(t, ns)
    ensures var l, s, r := LeftOf(t, k), RouteItems(t, k), RightOf(t, k);
            && Contents(t) == l + s + r
            && AllBelow(l, Rank(k)) && AllAbove(Rank(k), r)
            && ItemsIn(l + s + r, 0, RANK_LIMIT)
            && ItemsIn(s, RouteLo(t, k, 0), RouteHi(t, k, RANK_LIMIT))
            && (Absent(Contents(t), k) ==> Absent(s, k))
            && Rank(k) < RouteHi(t, k, RANK_LIMIT)
            && (Covered(t, k) <==> RouteLo(t, k, 0) <= Rank(k))
  {
    CompareIsRank(k, k);
    RouteContents(t, k);
    RouteSeparates(t, k, 0, RANK_LIMIT);
    RouteBounds(t, k, 0, RANK_LIMIT);
    ContentsIn(t, 0, RANK_LIMIT);
    if Absent(Contents(t), k) {
      AbsentPart(LeftOf(t, k), RouteItems(t, k), RightOf(t, k), k);
    }
  }

  lemma {:induction false} ContentsEffect(t: Tree, op: LeafOp, ns: nat)
    requires WellFormed(t, ns) && !op.DeletePrefix? && OpReady(t, op)
    requires ApplyLeaf(op, RouteItems(t, op.k), ns).Ok?
    ensures var c := LeftOf(t, op.k) + ApplyLeaf(op, RouteItems(t, op.k), ns).value + RightOf(t, op.k);
            && ToMap(c) == Effect(op, ToMap(Contents(t)))
            && ItemsIn(c, 0, RANK_LIMIT)
            && (op.Insert? ==> c == InsertSorted(Contents(t), Item(op.k, op.data)))
  {
    var k := op.k;
    var l, s, r := LeftOf(t, k), RouteItems(t, k), RightOf(t, k);
    RoutedLeaf(t, k, ns);
    LeafEffect(op, l, s, r, ns, RouteLo(t, k, 0), RouteHi(t, k, RANK_LIMIT));
    MutatedSorted(op, l, s, r, ns);
    if op.Insert? {
      InsertSortedFrame(l, s, r, Item(k, op.data));
    }
  }

  /** cowMutate has the operation's effect on the map and leaves the contents sorted. */
  lemma {:induction false} MutateTreeRefines(t: Tree, op: LeafOp, fr: seq<Extent>, ns: nat, g: nat)
    requires WellFormed(t, ns) && !op.DeletePrefix? && OpReady(t, op) && MutateTree(t, op, fr, ns, g).Ok?
    ensures var t' := MutateTree(t, op, fr, ns, g).value.0;
            && ToMap(Contents(t')) == Effect(op, ToMap(Contents(t)))
            && ItemsIn(Contents(t'), 0, RANK_LIMIT)
            && (op.Insert? ==> Contents(t') == InsertSorted(Contents(t), Item(op.k, op.data)))
  {
    var m := MutateRec(t, op, true, fr, ns, g);
    MutateContents(t, op, true, fr, ns, g);
    CollapseKeeps(m.t, FreeAll(m.fr, SpineAddrs(t, op.k), ns), ns, g);
    ContentsEffect(t, op, ns);
  }

  lemma {:induction false} GrowRootContents(lvl: nat, l: Tree, sep: Key, r: Tree, fr: seq<Extent>, ns: nat, g: nat)
    ensures var x := GrowRoot(lvl, l, sep, r, fr, ns, g);
            x.Ok? ==> Contents(x.value.0) == Contents(l) + Contents(r)
  {
    var x := GrowRoot(lvl, l, sep, r, fr, ns, g);
    if x.Ok? {
      var ks := x.value.0.kids;
      TwoParts(ks);
      KidsContentsConcat([ks[0]], [ks[1]]);
      KidsContentsOne(ks[0]);
      KidsContentsOne(ks[1]);
    }
  }

  /** cowInsertSplit inserts at the sorted place. */
  lemma {:induction false} SplitTreeContents(t: Tree, it: Item, fr: seq<Extent>, ns: nat, g: nat)
    requires Shape(t, LevelOf(t)) && Ordered(t, 0, RANK_LIMIT) && SplitTree(t, it, fr, ns, g).Ok?
    ensures Contents(SplitTree(t, it, fr, ns, g).value.0) == InsertSorted(Contents(t), it)
  {
    var m := SplitRec(t, it, fr, ns, g);
    SplitRecContents(t, it, fr, ns, g);
    CompareIsRank(it.k, it.k);
    RouteContents(t, it.k);
    RouteSeparates(t, it.k, 0, RANK_LIMIT);
    InsertSortedFrame(LeftOf(t, it.k), RouteItems(t, it.k), RightOf(t, it.k), it);
    if m.Two? {
      GrowRootContents(LevelOf(t) + 1, m.l, m.sep, m.r, m.fr, ns, g);
    }
  }

  /** cowInsert, with or without a split: the contents gain the item at its sorted place. This
      does not need the key to be covered. */
  lemma {:induction false} InsertTreeRefines(t: Tree, k: Key, data: seq<u8>, fr: seq<Extent>, ns: nat, g: nat)
    requires WellFormed(t, ns) && Absent(Contents(t), k) && InsertTree(t, k, data, fr, ns, g).Ok?
    ensures var t' := InsertTree(t, k, data, fr, ns, g).value.0;
            && Contents(t') == InsertSorted(Contents(t), Item(k, data))
            && ToMap(Contents(t')) == ToMap(Contents(t))[k := data]
            && ItemsIn(Contents(t'), 0, RANK_LIMIT)
  {
    var op := Insert(k, data);
    if MutateTree(t, op, fr, ns, g).Ok? {
      MutateTreeRefines(t, op, fr, ns, g);
    } else {
      SplitTreeContents(t, Item(k, data), fr, ns, g);
      ContentsIn(t, 0, RANK_LIMIT);
      CompareIsRank(k, k);
      InsertSortedIn(Contents(t), Item(k, data), 0, RANK_LIMIT);
      InsertEffect([], Contents(t), [], Item(k, data));
      NoSides(Contents(t));
      NoSides(InsertSorted(Contents(t), Item(k, data)));
    }
  }

  lemma {:induction false} NoSides<T>(s: seq<T>)
    ensures [] + s + [] == s
  {
  }

  /** cowInsert conserves every byte, split or not. */
  lemma {:induction false} InsertTreeConserves(t: Tree, k: Key, data: seq<u8>, fr: seq<Extent>, ns: nat, g: nat, b: nat)
    requires Shape(t, LevelOf(t)) && InsertTree(t, k, data, fr, ns, g).Ok?
    ensures var (t', fr') := InsertTree(t, k, data, fr, ns, g).value;
            FreeCnt(fr', b) + Cnt(t', ns, b) == FreeCnt(fr, b) + Cnt(t, ns, b)
  {
    if MutateTree(t, Insert(k, data), fr, ns, g).Ok? {
      MutateTreeConserves(t, Insert(k, data), fr, ns, g, b);
    } else {
      SplitTreeConserves(t, Item(k, data), fr, ns, g, b);
    }
  }

  /** cowInsert keeps the parent-transid invariant. */
  lemma {:induction false} InsertTreeGen(t: Tree, k: Key, data: seq<u8>, fr: seq<Extent>, ns: nat, g: nat)
    requires Shape(t, LevelOf(t)) && GenOK(t) && InsertTree(t, k, data, fr, ns, g).Ok?
    ensures GenOK(InsertTree(t, k, data, fr, ns, g).value.0)
  {
    if MutateTree(t, Insert(k, data), fr, ns, g).Ok? {
      MutateTreeGen(t, Insert(k, data), fr, ns, g);
    } else {
      SplitTreeGen(t, Item(k, data), fr, ns, g);
    }
  }
}
