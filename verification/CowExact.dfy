/** Exactly when cowInsert and cowDelete keep a tree well-formed. */
module CowExact {
  import opened Keys
  import opened FreeSpace
  import opened Trees
  import opened CowSpec
  import opened CowShape
  import opened CowLeaf
  import opened CowMutate
  import opened CowSplit
  import opened CowTheorems

  // ---- a covered insert keeps the tree well-formed ------------------------------------------

  lemma {:induction false} CoveredFits(t: Tree, k: Key, data: seq<u8>, ns: nat)
    requires WellFormed(t, ns) && Absent(Contents(t), k) && Covered(t, k)
    ensures OpFits(t, Insert(k, data), 0, RANK_LIMIT)
  {
    RoutedLeaf(t, k, ns);
  }

  /** An item that an empty leaf refuses is refused by the split as well. */
  lemma {:induction false} EmptySplitFails(it: Item, ns: nat)
    requires ns - NODE_HDR < ITEM_SIZE + |it.data|
    ensures SplitLeaf([], it, ns).Err?
  {
    var all := InsertSorted([], it);
    assert all == [it];
    SplitPosOne(it);
    OneTooLarge(it, ns);
    assert all[0..] == [it];
  }

  lemma {:induction false} SplitPosOne(it: Item)
    ensures SplitPos([it]) == 0
  {
    SplitPosRange([it]);
  }

  lemma {:induction false} OneTooLarge(it: Item, ns: nat)
    requires ns - NODE_HDR < ITEM_SIZE + |it.data|
    ensures !LeafFits([it], ns)
  {
    DataSumOne(it);
  }

  lemma {:induction false} GoodIsWellFormed(t: Tree, lvl: nat, ns: nat)
    requires Good(t, lvl, 0, RANK_LIMIT, ns)
    ensures WellFormed(t, ns)
  {
    ShapeLevel(t, lvl);
  }

  lemma {:induction false} SplitTreeWellFormed(t: Tree, it: Item, fr: seq<Extent>, ns: nat, g: nat)
    requires WellFormed(t, ns) && Full(t) && OpFits(t, Insert(it.k, it.data), 0, RANK_LIMIT)
    requires ns >= NODE_HDR + 2 * PTR_SIZE && SplitTree(t, it, fr, ns, g).Ok?
    ensures WellFormed(SplitTree(t, it, fr, ns, g).value.0, ns)
  {
    hide SplitRec, SpineAddrs, FreeAll, Ordered, Fits, Full, Shape, GrowRoot, OpFits;
    var m := SplitRec(t, it, fr, ns, g);
    SplitRecGood(t, it, fr, ns, g, 0, RANK_LIMIT);
    if m.One? {
      GoodIsWellFormed(m.t, LevelOf(t), ns);
    } else {
      GrowRootGood(LevelOf(t), m.l, m.sep, m.r, m.fr, ns, g);
    }
  }

  lemma {:induction false} InsertedNonEmpty(s: seq<Item>, x: Item)
    ensures InsertSorted(s, x) != []
  {
  }

  lemma {:induction false} MutateInsertWellFormed(t: Tree, k: Key, data: seq<u8>, fr: seq<Extent>, ns: nat, g: nat)
    requires WellFormed(t, ns) && Absent(Contents(t), k) && Covered(t, k)
    requires MutateTree(t, Insert(k, data), fr, ns, g).Ok?
    ensures WellFormed(MutateTree(t, Insert(k, data), fr, ns, g).value.0, ns)
  {
    var op := Insert(k, data);
    var m := MutateRec(t, op, true, fr, ns, g);
    CoveredFits(t, k, data, ns);
    MutateTopWellFormed(t, op, fr, ns, g);
    MutateContents(t, op, true, fr, ns, g);
    InsertedNonEmpty(RouteItems(t, k), Item(k, data));
    CollapseKeeps(m.t, FreeAll(m.fr, SpineAddrs(t, k), ns), ns, g);
  }

  lemma {:induction false} LeafFullAtRoute(t: Tree, k: Key, data: seq<u8>, top: bool, fr: seq<Extent>, ns: nat, g: nat)
    requires Shape(t, LevelOf(t)) && MutateRec(t, Insert(k, data), top, fr, ns, g) == MFail(LeafFull)
    ensures ApplyLeaf(Insert(k, data), RouteItems(t, k), ns) == Err(LeafFull)
    decreases t
  {
    hide Shape, RouteKid, FirstFit, Rank, InsertSorted, LeafUse;
    if t.Node? {
      RoutedShape(t, k);
      MutateRecNode(t, Insert(k, data), top, fr, ns, g);
      LeafFullAtRoute(t.kids[RouteKid(t.kids, k)].sub, k, data, false, fr, ns, g);
    }
  }

  lemma {:induction false} InsertCoveredWellFormed(t: Tree, k: Key, data: seq<u8>, fr: seq<Extent>, ns: nat, g: nat)
    requires WellFormed(t, ns) && Absent(Contents(t), k) && Covered(t, k)
    requires ns >= NODE_HDR + 2 * PTR_SIZE && InsertTree(t, k, data, fr, ns, g).Ok?
    ensures WellFormed(InsertTree(t, k, data, fr, ns, g).value.0, ns)
  {
    if MutateTree(t, Insert(k, data), fr, ns, g).Ok? {
      MutateInsertWellFormed(t, k, data, fr, ns, g);
    } else {
      LeafFullAtRoute(t, k, data, true, fr, ns, g);
      if t.Leaf? && t.items == [] {
        EmptySplitFails(Item(k, data), ns);
      }
      CoveredFits(t, k, data, ns);
      SplitTreeWellFormed(t, Item(k, data), fr, ns, g);
    }
  }

  // ---- an uncovered insert does not ------------------------------------------------------------

  ghost predicate Orderable(t: Tree) {
    exists lo, hi :: Ordered(t, lo, hi)
  }

  lemma {:induction false} OrderableKid(t: Tree, i: nat)
    requires t.Node? && Orderable(t) && i < |t.kids|
    ensures Orderable(t.kids[i].sub)
  {
    var lo, hi :| Ordered(t, lo, hi);
    assert Ordered(t.kids[i].sub, Rank(t.kids[i].sep), Upper(t.kids, i, hi));
  }

  ghost predicate Holds(s: seq<Item>, k: Key) {
    !Absent(s, k)
  }

  /** A key below its subtree's separator refutes every choice of bounds. */
  lemma {:induction false} MisplacedKey(t: Tree, k: Key)
    requires t.Node? && t.kids != [] && Rank(k) < Rank(t.kids[0].sep) && Holds(Contents(t.kids[0].sub), k)
    ensures !Orderable(t)
  {
    if Orderable(t) {
      var lo, hi :| Ordered(t, lo, hi);
      assert Ordered(t.kids[0].sub, Rank(t.kids[0].sep), Upper(t.kids, 0, hi));
      ContentsIn(t.kids[0].sub, Rank(t.kids[0].sep), Upper(t.kids, 0, hi));
    }
  }

  lemma {:induction false} InsertedHolds(l: seq<Item>, s: seq<Item>, r: seq<Item>, x: Item)
    ensures Holds(l + InsertSorted(s, x) + r, x.k)
  {
    var p := InsertPos(s, x.k);
    assert (l + InsertSorted(s, x) + r)[|l| + p] == x;
  }

  lemma {:induction false} MutateUncovered(t: Tree, k: Key, data: seq<u8>, top: bool, fr: seq<Extent>, ns: nat, g: nat)
    requires Shape(t, LevelOf(t)) && !Covered(t, k)
    requires MutateRec(t, Insert(k, data), top, fr, ns, g).MKeep?
    ensures !Orderable(MutateRec(t, Insert(k, data), top, fr, ns, g).t)
    decreases t
  {
    var op := Insert(k, data);
    RoutedShape(t, k);
    var c := RouteKid(t.kids, k);
    var s := t.kids[c].sub;
    var r := MutateRec(t, op, top, fr, ns, g);
    var m := MutateRec(s, op, false, fr, ns, g);
    MutateRecNode(t, op, top, fr, ns, g);
    MutateContents(s, op, false, fr, ns, g);
    InsertedNonEmpty(RouteItems(s, k), Item(k, data));
    assert m.MKeep? && r.t.kids[c].sub == m.t;
    if Rank(k) < Rank(t.kids[0].sep) {
      InsertedHolds(LeftOf(s, k), RouteItems(s, k), RightOf(s, k), Item(k, data));
      MisplacedKey(r.t, k);
    } else {
      MutateUncovered(s, k, data, false, fr, ns, g);
      if Orderable(r.t) {
        OrderableKid(r.t, c);
      }
    }
  }

  /** The left half of a split subtree holds items. */
  lemma {:induction false} SplitLeftNonEmpty(t: Tree, it: Item, fr: seq<Extent>, ns: nat, g: nat)
    requires Shape(t, LevelOf(t)) && Full(t)
    ensures var r := SplitRec(t, it, fr, ns, g);
            && (r.One? ==> Contents(r.t) != [])
            && (r.Two? ==> Contents(r.l) != [])
    decreases t
  {
    if t.Leaf? {
      SplitPosRange(InsertSorted(t.items, it));
    } else {
      RoutedShape(t, it.k);
      var c := RouteKid(t.kids, it.k);
      SplitLeftNonEmpty(t.kids[c].sub, it, fr, ns, g);
      SplitRecNode(t, it, fr, ns, g);
      FullNonEmpty(t.kids[0].sub, t.level - 1);
      SplitUpLeftNonEmpty(t.level, t.kids, c, SplitRec(t.kids[c].sub, it, fr, ns, g), ns, g);
    }
  }

  lemma {:induction false} SplitUpLeftNonEmpty(lvl: nat, kids: seq<Kid>, c: nat, m: Splitted, ns: nat, g: nat)
    requires c < |kids| && Contents(kids[0].sub) != []
    requires m.One? ==> Contents(m.t) != []
    requires m.Two? ==> Contents(m.l) != []
    ensures var r := SplitUp(lvl, kids, c, m, ns, g);
            && (r.One? ==> Contents(r.t) != [])
            && (r.Two? ==> Contents(r.l) != [])
  {
    match m
    case SFail(_) =>
    case One(s, _) =>
      var ks := kids[c := Kid(kids[c].sep, g, s)];
      assert Contents(ks[0].sub) != [];
    case Two(l, sep, r, _) =>
      var all := Widened(kids, c, l, sep, r, g);
      WidenedLen(kids, c, l, sep, r, g);
      WidenedFirst(kids, c, l, sep, r, g);
      assert all[..|all| / 2][0] == all[0];
      assert Contents(all[0].sub) != [];
  }

  lemma {:induction false} WidenedFirst(kids: seq<Kid>, c: nat, l: Tree, sep: Key, r: Tree, g: nat)
    requires c < |kids|
    ensures Widened(kids, c, l, sep, r, g)[0] == if c == 0 then Kid(kids[0].sep, g, l) else kids[0]
    ensures |Widened(kids, c, l, sep, r, g)| == |kids| + 1
    ensures Widened(kids, c, l, sep, r, g)[c].sub == l && Widened(kids, c, l, sep, r, g)[c+1].sub == r
  {
  }

  /** A key below everything in a subtree comes out first in its split. */
  lemma {:induction false} SplitHoldsLeft(t: Tree, it: Item, fr: seq<Extent>, ns: nat, g: nat, lo: int, hi: int)
    requires Shape(t, LevelOf(t)) && Full(t) && Ordered(t, lo, hi) && Rank(it.k) < lo <= hi
    ensures var r := SplitRec(t, it, fr, ns, g);
            && (r.One? ==> Holds(Contents(r.t), it.k))
            && (r.Two? ==> Holds(Contents(r.l), it.k))
  {
    var r := SplitRec(t, it, fr, ns, g);
    if !r.SFail? {
      SplitRecContents(t, it, fr, ns, g);
      SplitLeftNonEmpty(t, it, fr, ns, g);
      RouteLeft(t, it.k, lo, hi);
      RouteBounds(t, it.k, lo, hi);
      InsertFirst(RouteItems(t, it.k), RightOf(t, it.k), it);
      HoldsFirst(r, it);
    }
  }

  lemma {:induction false} InsertFirst(s: seq<Item>, r: seq<Item>, it: Item)
    requires forall i :: 0 <= i < |s| ==> Rank(it.k) < Rank(s[i].k)
    ensures ([] + InsertSorted(s, it) + r)[0] == it
  {
    assert InsertPos(s, it.k) == 0;
  }

  lemma {:induction false} HoldsFirst(r: Splitted, it: Item)
    requires !r.SFail? && SplitContents(r) != [] && SplitContents(r)[0] == it
    requires r.Two? ==> Contents(r.l) != []
    ensures r.One? ==> Holds(Contents(r.t), it.k)
    ensures r.Two? ==> Holds(Contents(r.l), it.k)
  {
    if r.One? {
      assert Contents(r.t)[0] == it;
    } else {
      assert Contents(r.l)[0] == it;
    }
  }

  ghost predicate SplitOrderable(m: Splitted) {
    match m
    case SFail(_) => true
    case One(t, _) => Orderable(t)
    case Two(l, _, r, _) => Orderable(l) && Orderable(r)
  }

  /** If the new nodes could be ordered, so could the new subtrees below them. */
  lemma {:induction false} SplitUpOrderable(lvl: nat, kids: seq<Kid>, c: nat, m: Splitted, ns: nat, g: nat)
    requires c < |kids| && !SplitUp(lvl, kids, c, m, ns, g).SFail?
    requires SplitOrderable(SplitUp(lvl, kids, c, m, ns, g))
    ensures !m.SFail? && SplitOrderable(m)
  {
    var r := SplitUp(lvl, kids, c, m, ns, g);
    match m
    case One(s, _) =>
      OrderableKid(r.t, c);
    case Two(l, sep, rr, _) =>
      var all := Widened(kids, c, l, sep, rr, g);
      WidenedFirst(kids, c, l, sep, rr, g);
      if r.One? {
        OrderableKid(r.t, c);
        OrderableKid(r.t, c + 1);
      } else {
        OrderableHalf(all, |all| / 2, r, c);
        OrderableHalf(all, |all| / 2, r, c + 1);
      }
  }

  lemma {:induction false} OrderableHalf(all: seq<Kid>, p: nat, r: Splitted, i: nat)
    requires p <= |all| && i < |all| && r.Two? && r.l.Node? && r.r.Node?
    requires r.l.kids == all[..p] && r.r.kids == all[p..] && Orderable(r.l) && Orderable(r.r)
    ensures Orderable(all[i].sub)
  {
    if i < p {
      OrderableKid(r.l, i);
    } else {
      OrderableKid(r.r, i - p);
    }
  }

  lemma {:induction false} SplitUpMisplaced(t: Tree, m: Splitted, ns: nat, g: nat, k: Key)
    requires t.Node? && t.kids != [] && Rank(k) < Rank(t.kids[0].sep)
    requires m.One? ==> Holds(Contents(m.t), k)
    requires m.Two? ==> Holds(Contents(m.l), k)
    ensures var r := SplitUp(t.level, t.kids, 0, m, ns, g); r.SFail? || !SplitOrderable(r)
  {
    var r := SplitUp(t.level, t.kids, 0, m, ns, g);
    match m
    case SFail(_) =>
    case One(s, _) =>
      if r.One? {
        MisplacedKey(r.t, k);
      }
    case Two(l, sep, rr, _) =>
      WidenedFirst(t.kids, 0, l, sep, rr, g);
      if r.One? {
        MisplacedKey(r.t, k);
      } else if r.Two? {
        var all := Widened(t.kids, 0, l, sep, rr, g);
        assert all[..|all| / 2][0] == all[0];
        MisplacedKey(r.l, k);
      }
  }

  lemma {:induction false} SplitUncovered(t: Tree, it: Item, fr: seq<Extent>, ns: nat, g: nat, lo: int, hi: int)
    requires Shape(t, LevelOf(t)) && Full(t) && Ordered(t, lo, hi) && Rank(it.k) < hi && !Covered(t, it.k)
    ensures var r := SplitRec(t, it, fr, ns, g); r.SFail? || !SplitOrderable(r)
    decreases t
  {
    RoutedShape(t, it.k);
    RouteBracket(t, it.k, lo, hi);
    var c := RouteKid(t.kids, it.k);
    var s := t.kids[c].sub;
    var m := SplitRec(s, it, fr, ns, g);
    SplitRecNode(t, it, fr, ns, g);
    if Rank(it.k) < Rank(t.kids[0].sep) {
      assert c == 0;
      SplitHoldsLeft(s, it, fr, ns, g, Rank(t.kids[0].sep), Upper(t.kids, 0, hi));
      SplitUpMisplaced(t, m, ns, g, it.k);
    } else {
      SplitUncovered(s, it, fr, ns, g, Rank(t.kids[c].sep), Upper(t.kids, c, hi));
      var r := SplitUp(t.level, t.kids, c, m, ns, g);
      if !r.SFail? && SplitOrderable(r) {
        SplitUpOrderable(t.level, t.kids, c, m, ns, g);
      }
    }
  }

  lemma {:induction false} SplitTreeUncovered(t: Tree, it: Item, fr: seq<Extent>, ns: nat, g: nat)
    requires WellFormed(t, ns) && !Covered(t, it.k) && SplitTree(t, it, fr, ns, g).Ok?
    ensures !Orderable(SplitTree(t, it, fr, ns, g).value.0)
  {
    var m := SplitRec(t, it, fr, ns, g);
    CompareIsRank(it.k, it.k);
    SplitUncovered(t, it, fr, ns, g, 0, RANK_LIMIT);
    if m.Two? {
      var root := SplitTree(t, it, fr, ns, g).value.0;
      if Orderable(root) {
        OrderableKid(root, 0);
        OrderableKid(root, 1);
      }
    }
  }

  // ---- the exact condition -----------------------------------------------------------------------

  /** The post-shrink merge absorbs the new item: two leaves that fit one leaf together with it. */
  predicate Absorbed(t: Tree, it: Item, ns: nat) {
    TwoLeafRoot(t) && LeafFits(InsertSorted(Contents(t), it), ns)
  }

  lemma {:induction false} MergeRoom(s: seq<Extent>, need: nat, i: nat)
    requires i < |s| && s[i].size >= need
    ensures exists j :: 0 <= j < |MergeExt(s)| && MergeExt(s)[j].size >= need
  {
    var q, x := s[..|s|-1], s[|s|-1];
    var j := 0;
    if i < |q| {
      MergeRoom(q, need, i);
      j :| 0 <= j < |MergeExt(q)| && MergeExt(q)[j].size >= need;
    }
    MergeOneRoom(MergeExt(q), x, need, j);
    assert MergeExt(s) == MergeOne(MergeExt(q), x);
  }

  lemma {:induction false} MergeOneRoom(acc: seq<Extent>, x: Extent, need: nat, j: nat)
    requires x.size >= need || (j < |acc| && acc[j].size >= need)
    ensures exists i :: 0 <= i < |MergeOne(acc, x)| && MergeOne(acc, x)[i].size >= need
  {
    var r := MergeOne(acc, x);
    if x.size >= need {
      assert r[|r|-1].size >= need;
    } else {
      assert r[j].size >= need;
    }
  }

  lemma {:induction false} InsertRoom(p: seq<Extent>, x: Extent)
    ensures exists j :: 0 <= j < |InsertExt(p, x)| && InsertExt(p, x)[j] == x
  {
    if p == [] || p[|p|-1].start <= x.start {
      assert InsertExt(p, x)[|p|] == x;
    } else {
      InsertRoom(p[..|p|-1], x);
      var j :| 0 <= j < |InsertExt(p[..|p|-1], x)| && InsertExt(p[..|p|-1], x)[j] == x;
      assert InsertExt(p, x)[j] == x;
    }
  }

  /** Right after a block was freed, a block can be allocated. */
  lemma {:induction false} FreedHasRoom(s: seq<Extent>, a: nat, ns: nat)
    ensures FirstFit(Freed(s, a, ns), ns).Granted?
  {
    var u, e := s + [Extent(a, ns)], Extent(a, ns);
    var f := Freed(s, a, ns);
    var w := FirstFitAt(f, ns, 0);
    if |u| < 2 {
      assert f[|s|].size >= ns;
    } else {
      assert u[..|u|-1] == s;
      InsertRoom(SortExt(s), e);
      var v := SortExt(u);
      var j :| 0 <= j < |v| && v[j] == e;
      MergeRoom(v, ns, j);
    }
  }

  lemma {:induction false} SpineNonEmpty(t: Tree, k: Key)
    requires Shape(t, LevelOf(t))
    ensures SpineAddrs(t, k) != []
  {
  }

  /** After the old path is freed, the merge finds a block. */
  lemma {:induction false} CollapseFindsRoom(t: Tree, k: Key, fr: seq<Extent>, ns: nat)
    requires Shape(t, LevelOf(t))
    ensures FirstFit(FreeAll(fr, SpineAddrs(t, k), ns), ns).Granted?
  {
    SpineNonEmpty(t, k);
    var a := SpineAddrs(t, k);
    FreedHasRoom(FreeAll(fr, a[..|a|-1], ns), a[|a|-1], ns);
  }

  /** The shape of the root after an insert without split. */
  lemma {:induction false} InsertRoot(t: Tree, k: Key, data: seq<u8>, fr: seq<Extent>, ns: nat, g: nat)
    requires WellFormed(t, ns) && t.Node? && MutateRec(t, Insert(k, data), true, fr, ns, g).MKeep?
    ensures var m := MutateRec(t, Insert(k, data), true, fr, ns, g);
            && !m.shrunk && (TwoLeafRoot(m.t) <==> TwoLeafRoot(t))
            && Contents(m.t) == InsertSorted(Contents(t), Item(k, data))
  {
    var op := Insert(k, data);
    MutateContents(t, op, true, fr, ns, g);
    RoutedLeaf(t, k, ns);
    InsertSortedFrame(LeftOf(t, k), RouteItems(t, k), RightOf(t, k), Item(k, data));
    InsertRootShape(t, k, data, fr, ns, g);
  }

  lemma {:induction false} InsertRootShape(t: Tree, k: Key, data: seq<u8>, fr: seq<Extent>, ns: nat, g: nat)
    requires Shape(t, LevelOf(t)) && t.Node? && MutateRec(t, Insert(k, data), true, fr, ns, g).MKeep?
    ensures var m := MutateRec(t, Insert(k, data), true, fr, ns, g);
            !m.shrunk && (TwoLeafRoot(m.t) <==> TwoLeafRoot(t))
  {
    var op := Insert(k, data);
    RoutedShape(t, k);
    var c := RouteKid(t.kids, k);
    var s := t.kids[c].sub;
    MutateContents(s, op, false, fr, ns, g);
    InsertedNonEmpty(RouteItems(s, k), Item(k, data));
    MutateRecNode(t, op, true, fr, ns, g);
    InsertKeepsKind(s, k, data, fr, ns, g);
  }

  lemma {:induction false} InsertKeepsKind(s: Tree, k: Key, data: seq<u8>, fr: seq<Extent>, ns: nat, g: nat)
    requires Shape(s, LevelOf(s)) && MutateRec(s, Insert(k, data), false, fr, ns, g).MKeep?
    ensures MutateRec(s, Insert(k, data), false, fr, ns, g).t.Leaf? <==> s.Leaf?
  {
    if s.Node? {
      RoutedShape(s, k);
      MutateRecNode(s, Insert(k, data), false, fr, ns, g);
    }
  }

  lemma {:induction false} UseBounds(l: seq<Item>, s: seq<Item>, r: seq<Item>)
    ensures LeafUse(s) <= LeafUse(l + s + r)
  {
    DataSumConcat(l + s, r);
    DataSumConcat(l, s);
  }

  /** A leaf that is full refuses more than the merge could absorb. */
  lemma {:induction false} FullNotAbsorbed(t: Tree, k: Key, data: seq<u8>, ns: nat)
    requires WellFormed(t, ns) && ApplyLeaf(Insert(k, data), RouteItems(t, k), ns).Err?
    ensures !Absorbed(t, Item(k, data), ns)
  {
    RoutedLeaf(t, k, ns);
    InsertSortedUse(Contents(t), Item(k, data));
    UseBounds(LeftOf(t, k), RouteItems(t, k), RightOf(t, k));
  }

  lemma {:induction false} AbsorbedCollapses(t: Tree, k: Key, data: seq<u8>, fr: seq<Extent>, ns: nat, g: nat)
    requires WellFormed(t, ns) && t.Node? && MutateTree(t, Insert(k, data), fr, ns, g).Ok?
    ensures var m := MutateRec(t, Insert(k, data), true, fr, ns, g);
            var t' := MutateTree(t, Insert(k, data), fr, ns, g).value.0;
            if Absorbed(t, Item(k, data), ns) then t'.Leaf? && LeafFits(t'.items, ns) else t' == m.t
  {
    var m := MutateRec(t, Insert(k, data), true, fr, ns, g);
    InsertRoot(t, k, data, fr, ns, g);
    CollapseFindsRoom(t, k, m.fr, ns);
    if TwoLeafRoot(m.t) {
      TwoLeafContents(m.t);
    }
  }

  /** cowInsert of a new key leaves a well-formed tree exactly when no node on the route falls
      back to its leftmost child, or the two-leaf merge rebuilds the tree as one leaf. */
  lemma {:induction false} InsertWellFormedIff(t: Tree, k: Key, data: seq<u8>, fr: seq<Extent>, ns: nat, g: nat)
    requires WellFormed(t, ns) && Absent(Contents(t), k)
    requires ns >= NODE_HDR + 2 * PTR_SIZE && InsertTree(t, k, data, fr, ns, g).Ok?
    ensures WellFormed(InsertTree(t, k, data, fr, ns, g).value.0, ns) <==>
            Covered(t, k) || Absorbed(t, Item(k, data), ns)
  {
    if Covered(t, k) {
      InsertCoveredWellFormed(t, k, data, fr, ns, g);
    } else if MutateTree(t, Insert(k, data), fr, ns, g).Ok? {
      AbsorbedCollapses(t, k, data, fr, ns, g);
      InsertTreeRefines(t, k, data, fr, ns, g);
      MutateUncovered(t, k, data, true, fr, ns, g);
    } else {
      LeafFullAtRoute(t, k, data, true, fr, ns, g);
      FullNotAbsorbed(t, k, data, ns);
      SplitTreeUncovered(t, Item(k, data), fr, ns, g);
    }
  }

  // ---- update and delete ---------------------------------------------------------------------------

  lemma {:induction false} EffectNonEmpty(l: seq<Item>, s: seq<Item>, r: seq<Item>, op: LeafOp, ns: nat)
    requires op.Update? || op.Delete?
    requires ApplyLeaf(op, s, ns).Ok?
    ensures op.Update? ==> |ApplyLeaf(op, s, ns).value| == |s|
    ensures op.Delete? ==> |ApplyLeaf(op, s, ns).value| == |s| - 1
    ensures |l + ApplyLeaf(op, s, ns).value + r| == |l + s + r| - if op.Delete? then 1 else 0
  {
  }

  /** A root whose other children hold items, or whose mutated child still does, holds items. */
  lemma {:induction false} RootKeepsItems(t: Tree, c: nat, m: Mutated, fr: seq<Extent>, ns: nat, g: nat)
    requires WellFormed(t, ns) && t.Node? && c < |t.kids| && !m.MFail? && (m.MKeep? ==> Contents(m.t) != [])
    requires m.MKeep? || |t.kids| > 1
    ensures var r := MutateUp(t.level, t.kids, c, m, true, fr, ns, g); r.MKeep? ==> Contents(r.t) != []
  {
    if m.MKeep? {
      MutateUpContents(t.level, t.kids, c, m, true, fr, ns, g, Contents(m.t));
    } else {
      MutateUpContents(t.level, t.kids, c, m, true, fr, ns, g, []);
      var rest := t.kids[..c] + t.kids[c+1..];
      assert rest[0] == t.kids[if c == 0 then 1 else 0];
      FullNonEmpty(rest[0].sub, t.level - 1);
      KidsContentsConcat(t.kids[..c], t.kids[c+1..]);
    }
  }

  /** A root node whose last item goes is written without pointers. */
  lemma {:induction false} LastItemGone(t: Tree, op: LeafOp, fr: seq<Extent>, ns: nat, g: nat)
    requires WellFormed(t, ns) && t.Node? && MutateRec(t, op, true, fr, ns, g).MKeep?
    requires !op.Insert?
    requires Contents(MutateRec(t, op, true, fr, ns, g).t) == []
    ensures var m := MutateRec(t, op, true, fr, ns, g); !m.shrunk && m.t == Node(m.t.addr, g, t.level, [])
  {
    var k := RouteKey(op);
    RoutedShape(t, k);
    var c := RouteKid(t.kids, k);
    var s := t.kids[c].sub;
    MutateRecNode(t, op, true, fr, ns, g);
    var m := MutateRec(s, op, false, fr, ns, g);
    RoutedGood(t, k, ns);
    MutateGood(s, op, fr, ns, g, Rank(t.kids[c].sep), Upper(t.kids, c, RANK_LIMIT));
    if m.MKeep? {
      FullNonEmpty(m.t, t.level - 1);
    }
    if m.MKeep? || |t.kids| > 1 {
      RootKeepsItems(t, c, m, fr, ns, g);
      assert false;
    }
    assert t.kids[..c] + t.kids[c+1..] == [];
  }

  lemma {:induction false} RoutedGood(t: Tree, k: Key, ns: nat)
    requires WellFormed(t, ns) && t.Node?
    ensures var c := RouteKid(t.kids, k);
            Good(t.kids[c].sub, t.level - 1, Rank(t.kids[c].sep), Upper(t.kids, c, RANK_LIMIT), ns)
  {
    NodeGood(t, t.level, 0, RANK_LIMIT, ns);
    KidsGoodAt(t.kids, t.level - 1, 0, RANK_LIMIT, ns, RouteKid(t.kids, k));
  }

  /** cowUpdate keeps a well-formed tree; cowDelete does exactly when the tree is a single leaf
      or keeps an item. In the other case it writes an inner root without pointers. */
  lemma {:induction false} UpdateDeleteWellFormedIff(t: Tree, op: LeafOp, fr: seq<Extent>, ns: nat, g: nat)
    requires WellFormed(t, ns) && (op.Update? || op.Delete?) && MutateTree(t, op, fr, ns, g).Ok?
    ensures var t' := MutateTree(t, op, fr, ns, g).value.0;
            && (WellFormed(t', ns) <==> op.Update? || t.Leaf? || |Contents(t)| > 1)
            && (!WellFormed(t', ns) ==> t' == Node(t'.addr, g, t.level, []))
  {
    var m := MutateRec(t, op, true, fr, ns, g);
    var l, s, r := LeftOf(t, op.k), RouteItems(t, op.k), RightOf(t, op.k);
    MutateContents(t, op, true, fr, ns, g);
    RouteContents(t, op.k);
    EffectNonEmpty(l, s, r, op, ns);
    MutateTopWellFormed(t, op, fr, ns, g);
    CollapseKeeps(m.t, FreeAll(m.fr, SpineAddrs(t, op.k), ns), ns, g);
    if t.Node? {
      FullNonEmpty(t, t.level);
      if Contents(m.t) == [] {
        LastItemGone(t, op, fr, ns, g);
      }
    }
  }

  // ---- a tree whose last item goes -------------------------------------------------------------------

  /** Deleting the one item below a root node succeeds and leaves a root without children. */
  lemma {:induction false} LastDelete(t: Tree, x: Item, fr: seq<Extent>, ns: nat, g: nat)
    requires WellFormed(t, ns) && t.Node? && t.level == 1 && |t.kids| == 1 && t.kids[0].sub.Leaf?
             && t.kids[0].sub.items == [x]
    requires FirstFit(fr, ns).Granted?
    ensures MutateTree(t, Delete(x.k), fr, ns, g).Ok? && !WellFormed(MutateTree(t, Delete(x.k), fr, ns, g).value.0, ns)
  {
    hide Rank, FirstFit, Ordered, Fits, Full, WellFormed;
    var op, s := Delete(x.k), t.kids[0].sub;
    assert Shape(t, LevelOf(t)) by {
      ShapeOf(t, ns);
    }
    MutateRecNode(t, op, true, fr, ns, g);
    assert IndexOf([x], x.k) == 0;
    assert ApplyLeaf(op, [x], ns) == Ok([]);
    assert MutateRec(s, op, false, fr, ns, g) == MDrop;
    assert t.kids[..0] + t.kids[1..] == [];
    assert t.kids == [t.kids[0]];
    KidsContentsOne(t.kids[0]);
    UpdateDeleteWellFormedIff(t, op, fr, ns, g);
  }

  lemma {:induction false} ShapeOf(t: Tree, ns: nat)
    requires WellFormed(t, ns)
    ensures Shape(t, LevelOf(t))
  {
  }

  function OneItemTree(k: Key): Tree {
    Node(1000, 1, 1, [Kid(k, 1, Leaf(2000, 1, [Item(k, [7])]))])
  }

  /** A root over one leaf with one item, and a free block: the delete is carried out and the tree broken. */
  lemma {:induction false} LastDeleteExample(t: Tree, k: Key, fr: seq<Extent>, g: nat)
    requires t == OneItemTree(k) && fr == [Extent(5000, 500)]
    ensures WellFormed(t, 500) && MutateTree(t, Delete(k), fr, 500, g).Ok?
    ensures !WellFormed(MutateTree(t, Delete(k), fr, 500, g).value.0, 500)
  {
    var x := t.kids[0];
    CompareIsRank(k, k);
    DataSumOne(Item(k, [7]));
    assert Good(x.sub, 0, Rank(k), RANK_LIMIT, 500);
    OneGood(x, 0, RANK_LIMIT, 500);
    NodeGood(t, 1, Rank(k), RANK_LIMIT, 500);
    OrderedWiden(t, Rank(k), RANK_LIMIT, 0, RANK_LIMIT);
    assert FirstFitFrom(fr, 500, 0).Granted?;
    LastDelete(t, Item(k, [7]), fr, 500, g);
  }
}
