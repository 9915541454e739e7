/** cowInsertSplit: leaf split, inner splits up the path, root growth. */
module CowSplit {
  import opened Keys
  import opened FreeSpace
  import opened Trees
  import opened CowSpec
  import opened CowShape
  import opened CowLeaf
  import opened CowMutate
  import opened CowConserve

  // ---- the leaf ----------------------------------------------------------------------------

  lemma {:induction false} SplitScanRange(all: seq<Item>, i: nat, target: nat)
    requires i < |all|
    ensures 1 <= SplitScan(all, i, target)
    ensures |all| >= 2 ==> SplitScan(all, i, target) < |all|
    decreases |all| - i
  {
    if i < |all| - 1 {
      SplitScanRange(all, i + 1, target);
    }
  }

  /** With two items or more, both halves get at least one. */
  lemma {:induction false} SplitPosRange(all: seq<Item>)
    requires all != []
    ensures SplitPos(all) < |all|
    ensures |all| >= 2 ==> 1 <= SplitPos(all)
  {
    SplitScanRange(all, 0, DataSum(all) / 2);
  }

  lemma {:induction false} ItemsCut(s: seq<Item>, p: nat, lo: int, hi: int)
    requires ItemsIn(s, lo, hi) && 0 < p < |s|
    ensures ItemsIn(s[..p], lo, Rank(s[p].k)) && ItemsIn(s[p..], Rank(s[p].k), hi)
    ensures lo < Rank(s[p].k) < hi
  {
    assert Rank(s[0].k) < Rank(s[p].k);
    forall j | 0 <= j < |s| - p ensures Rank(s[p].k) <= Rank(s[p..][j].k) {
      assert s[p..][j] == s[p + j];
    }
  }

  lemma {:induction false} InsertedLen(s: seq<Item>, x: Item)
    ensures |InsertSorted(s, x)| == |s| + 1
  {
  }

  /** The two halves of a split leaf are non-empty, sorted, on either side of the split key,
      each fits, and together they hold the old items and the new one. */
  lemma {:induction false} SplitLeafHalves(items: seq<Item>, it: Item, ns: nat, lo: int, hi: int)
    requires items != [] && SplitLeaf(items, it, ns).Ok?
    requires ItemsIn(items, lo, hi) && lo <= Rank(it.k) < hi && Absent(items, it.k)
    ensures var (li, ri) := SplitLeaf(items, it, ns).value;
            && li != [] && ri != [] && li + ri == InsertSorted(items, it)
            && LeafFits(li, ns) && LeafFits(ri, ns)
            && lo < Rank(ri[0].k) < hi
            && ItemsIn(li, lo, Rank(ri[0].k)) && ItemsIn(ri, Rank(ri[0].k), hi)
  {
    hide InsertSorted, SplitPos, LeafFits, ItemsIn, Absent, Rank;
    var all := InsertSorted(items, it);
    InsertedLen(items, it);
    SplitPosRange(all);
    InsertSortedIn(items, it, lo, hi);
    ItemsCut(all, SplitPos(all), lo, hi);
    CutAt(all, SplitPos(all));
  }

  // ---- shape ---------------------------------------------------------------------------------

  ghost predicate SplitGood(m: Splitted, lvl: nat, lo: int, hi: int, ns: nat) {
    match m
    case SFail(_) => true
    case One(t, _) => Good(t, lvl, lo, hi, ns)
    case Two(l, sep, r, _) =>
      lo < Rank(sep) < hi && Good(l, lvl, lo, Rank(sep), ns) && Good(r, lvl, Rank(sep), hi, ns)
  }

  lemma {:induction false} OneNodeGood(lvl: nat, kids: seq<Kid>, fr: seq<Extent>, ns: nat, g: nat, lo: int, hi: int)
    requires lvl > 0 && kids != [] && NodeFits(|kids|, ns) && KidsGood(kids, lvl - 1, lo, hi, ns)
    ensures SplitGood(OneNode(lvl, kids, fr, ns, g), lvl, lo, hi, ns)
  {
    var r := OneNode(lvl, kids, fr, ns, g);
    if r.One? {
      NodeGood(r.t, lvl, lo, hi, ns);
    }
  }

  lemma {:induction false} TwoNodesGood(lvl: nat, all: seq<Kid>, p: nat, fr: seq<Extent>, ns: nat, g: nat, lo: int,
                                        hi: int)
    requires lvl > 0 && 0 < p < |all| && KidsGood(all, lvl - 1, lo, hi, ns)
    requires NodeFits(p, ns) && NodeFits(|all| - p, ns)
    ensures SplitGood(TwoNodes(lvl, all[..p], all[p..], fr, ns, g), lvl, lo, hi, ns)
  {
    var r := TwoNodes(lvl, all[..p], all[p..], fr, ns, g);
    if r.Two? {
      assert lo <= Rank(all[0].sep) < Rank(all[p].sep);
      CutGood(all, p, lvl - 1, lo, hi, ns);
      NodeGood(r.l, lvl, lo, Rank(all[p].sep), ns);
      NodeGood(r.r, lvl, Rank(all[p].sep), hi, ns);
    }
  }

  lemma {:induction false} CutGood(all: seq<Kid>, p: nat, lvl: nat, lo: int, hi: int, ns: nat)
    requires p < |all| && KidsGood(all, lvl, lo, hi, ns)
    ensures KidsGood(all[..p], lvl, lo, Rank(all[p].sep), ns)
    ensures KidsGood(all[p..], lvl, Rank(all[p].sep), hi, ns)
  {
    LeftPart(all, p, lvl, lo, hi, ns);
    SliceGood(all, lvl, lo, hi, ns, p, |all|);
    assert all[p..|all|] == all[p..];
  }

  lemma {:induction false} WidenedLen(kids: seq<Kid>, c: nat, l: Tree, sep: Key, r: Tree, g: nat)
    requires c < |kids|
    ensures |Widened(kids, c, l, sep, r, g)| == |kids| + 1
  {
  }

  /** One step up keeps the shape, whether the node absorbs the new pointer or splits. */
  lemma {:induction false} SplitUpGood(lvl: nat, kids: seq<Kid>, c: nat, m: Splitted, ns: nat, g: nat, lo: int, hi: int)
    requires c < |kids| && lvl > 0 && NodeFits(|kids|, ns) && KidsGood(kids, lvl - 1, lo, hi, ns)
    requires SplitGood(m, lvl - 1, Rank(kids[c].sep), Upper(kids, c, hi), ns)
    ensures SplitGood(SplitUp(lvl, kids, c, m, ns, g), lvl, lo, hi, ns)
  {
    match m
    case SFail(_) =>
    case One(s, fr) =>
      ReplaceKid(kids, c, s, g, lvl - 1, lo, hi, ns);
      OneNodeGood(lvl, kids[c := Kid(kids[c].sep, g, s)], fr, ns, g, lo, hi);
    case Two(l, sep, r, fr) =>
      var all := Widened(kids, c, l, sep, r, g);
      WidenedLen(kids, c, l, sep, r, g);
      WidenKid(kids, c, l, sep, r, g, lvl - 1, lo, hi, ns);
      if NodeFits(|kids| + 1, ns) {
        OneNodeGood(lvl, all, fr, ns, g, lo, hi);
      } else {
        TwoNodesGood(lvl, all, |all| / 2, fr, ns, g, lo, hi);
      }
  }

  lemma {:induction false} SplitRecNode(t: Tree, it: Item, fr: seq<Extent>, ns: nat, g: nat)
    requires t.Node? && Shape(t, LevelOf(t))
    ensures var c := RouteKid(t.kids, it.k);
            && Shape(t.kids[c].sub, LevelOf(t.kids[c].sub))
            && SplitRec(t, it, fr, ns, g) ==
               SplitUp(t.level, t.kids, c, SplitRec(t.kids[c].sub, it, fr, ns, g), ns, g)
  {
    RoutedShape(t, it.k);
  }

  lemma {:induction false} SplitAtLeafGood(t: Tree, it: Item, fr: seq<Extent>, ns: nat, g: nat, lo: int, hi: int)
    requires t.Leaf? && Ordered(t, lo, hi) && t.items != []
    requires lo <= Rank(it.k) < hi && Absent(t.items, it.k)
    ensures SplitGood(SplitAtLeaf(t.items, it, fr, ns, g), 0, lo, hi, ns)
  {
    if SplitLeaf(t.items, it, ns).Ok? {
      var (li, ri) := SplitLeaf(t.items, it, ns).value;
      SplitLeafHalves(t.items, it, ns, lo, hi);
      TwoLeavesGood(li, ri, fr, ns, g, lo, hi);
    }
  }

  lemma {:induction false} TwoLeavesGood(li: seq<Item>, ri: seq<Item>, fr: seq<Extent>, ns: nat, g: nat, lo: int,
                                         hi: int)
    requires li != [] && ri != [] && LeafFits(li, ns) && LeafFits(ri, ns) && lo < Rank(ri[0].k) < hi
    requires ItemsIn(li, lo, Rank(ri[0].k)) && ItemsIn(ri, Rank(ri[0].k), hi)
    ensures SplitGood(TwoLeaves(li, ri, fr, ns, g), 0, lo, hi, ns)
  {
  }

  lemma {:induction false} SplitRecGood(t: Tree, it: Item, fr: seq<Extent>, ns: nat, g: nat, lo: int, hi: int)
    requires Good(t, LevelOf(t), lo, hi, ns) && OpFits(t, Insert(it.k, it.data), lo, hi)
    ensures SplitGood(SplitRec(t, it, fr, ns, g), LevelOf(t), lo, hi, ns)
    decreases t
  {
    if t.Leaf? {
      SplitAtLeafGood(t, it, fr, ns, g, lo, hi);
    } else {
      RoutedShape(t, it.k);
      var c := RouteKid(t.kids, it.k);
      NodeGood(t, t.level, lo, hi, ns);
      KidsGoodAt(t.kids, t.level - 1, lo, hi, ns, c);
      SplitRecGood(t.kids[c].sub, it, fr, ns, g, Rank(t.kids[c].sep), Upper(t.kids, c, hi));
      SplitRecNode(t, it, fr, ns, g);
      SplitUpGood(t.level, t.kids, c, SplitRec(t.kids[c].sub, it, fr, ns, g), ns, g, lo, hi);
    }
  }

  /** The first key of a good subtree lies within its bounds and bounds its keys from below. */
  lemma {:induction false} FirstKeyGood(t: Tree, lvl: nat, lo: int, hi: int, ns: nat)
    requires Good(t, lvl, lo, hi, ns)
    ensures FirstKeyOf(t).Some? && lo <= Rank(FirstKeyOf(t).value) < hi
    ensures Good(t, lvl, Rank(FirstKeyOf(t).value), hi, ns)
  {
    if t.Leaf? {
      var f := Rank(t.items[0].k);
      forall i | 0 <= i < |t.items| ensures f <= Rank(t.items[i].k) {
        assert i == 0 || Rank(t.items[0].k) < Rank(t.items[i].k);
      }
    } else {
      var f := Rank(t.kids[0].sep);
      forall i | 0 <= i < |t.kids| ensures f <= Rank(t.kids[i].sep) {
        assert i == 0 || Rank(t.kids[0].sep) < Rank(t.kids[i].sep);
      }
    }
  }

  /** A new root over two good halves is well-formed, one level up. */
  lemma {:induction false} GrowRootGood(lvl: nat, l: Tree, sep: Key, r: Tree, fr: seq<Extent>, ns: nat, g: nat)
    requires 0 < Rank(sep) < RANK_LIMIT && ns >= NODE_HDR + 2 * PTR_SIZE
    requires Good(l, lvl, 0, Rank(sep), ns) && Good(r, lvl, Rank(sep), RANK_LIMIT, ns)
    ensures var x := GrowRoot(lvl + 1, l, sep, r, fr, ns, g); x.Ok? ==> WellFormed(x.value.0, ns)
  {
    var x := GrowRoot(lvl + 1, l, sep, r, fr, ns, g);
    if x.Ok? {
      FirstKeyGood(l, lvl, 0, Rank(sep), ns);
      var f := FirstKeyOf(l).value;
      OneGood(Kid(f, g, l), lvl, Rank(sep), ns);
      OneGood(Kid(sep, g, r), lvl, RANK_LIMIT, ns);
      JoinGood([Kid(f, g, l)], [Kid(sep, g, r)], lvl, Rank(f), Rank(sep), RANK_LIMIT, ns);
      TwoParts([Kid(f, g, l), Kid(sep, g, r)]);
      NodeGood(x.value.0, lvl + 1, Rank(f), RANK_LIMIT, ns);
      OrderedWiden(x.value.0, Rank(f), RANK_LIMIT, 0, RANK_LIMIT);
    }
  }

  // ---- contents --------------------------------------------------------------------------------

  ghost function SplitContents(m: Splitted): seq<Item>
    requires !m.SFail?
  {
    match m
    case One(t, _) => Contents(t)
    case Two(l, _, r, _) => Contents(l) + Contents(r)
  }

  lemma {:induction false} WidenedContents(kids: seq<Kid>, c: nat, l: Tree, sep: Key, r: Tree, g: nat)
    requires c < |kids|
    ensures KidsContents(Widened(kids, c, l, sep, r, g)) ==
            KidsContents(kids[..c]) + (Contents(l) + Contents(r)) + KidsContents(kids[c+1..])
  {
    var lk, rk := Kid(kids[c].sep, g, l), Kid(sep, g, r);
    PairUp(kids[..c], lk, rk, kids[c+1..]);
    KidsContentsConcat(kids[..c] + ([lk] + [rk]), kids[c+1..]);
    KidsContentsConcat(kids[..c], [lk] + [rk]);
    KidsContentsConcat([lk], [rk]);
    KidsContentsOne(lk);
    KidsContentsOne(rk);
  }

  lemma {:induction false} SplitUpContents(lvl: nat, kids: seq<Kid>, c: nat, m: Splitted, ns: nat, g: nat)
    requires c < |kids|
    ensures var r := SplitUp(lvl, kids, c, m, ns, g);
            !r.SFail? ==> (!m.SFail? &&
              SplitContents(r) == KidsContents(kids[..c]) + SplitContents(m) + KidsContents(kids[c+1..]))
  {
    match m
    case SFail(_) =>
    case One(s, fr) =>
      var ks := kids[c := Kid(kids[c].sep, g, s)];
      KidsContentsAt(ks, c);
      assert ks[..c] == kids[..c] && ks[c+1..] == kids[c+1..];
    case Two(l, sep, r, fr) =>
      var all := Widened(kids, c, l, sep, r, g);
      WidenedContents(kids, c, l, sep, r, g);
      CutContents(all, |all| / 2);
  }

  lemma {:induction false} CutContents(all: seq<Kid>, p: nat)
    requires p <= |all|
    ensures KidsContents(all) == KidsContents(all[..p]) + KidsContents(all[p..])
  {
    CutAt(all, p);
    KidsContentsConcat(all[..p], all[p..]);
  }

  /** The split inserts the item at its sorted place in the routed leaf and changes nothing else. */
  lemma {:induction false} SplitRecContents(t: Tree, it: Item, fr: seq<Extent>, ns: nat, g: nat)
    requires Shape(t, LevelOf(t))
    ensures var r := SplitRec(t, it, fr, ns, g);
            !r.SFail? ==> SplitContents(r) == LeftOf(t, it.k) + InsertSorted(RouteItems(t, it.k), it) + RightOf(t, it.k)
    decreases t
  {
    if t.Leaf? {
      var all := InsertSorted(t.items, it);
      CutAt(all, SplitPos(all));
    } else {
      RoutedShape(t, it.k);
      var c := RouteKid(t.kids, it.k);
      var s := t.kids[c].sub;
      SplitRecContents(s, it, fr, ns, g);
      SplitRecNode(t, it, fr, ns, g);
      SplitUpContents(t.level, t.kids, c, SplitRec(s, it, fr, ns, g), ns, g);
      Regroup(KidsContents(t.kids[..c]), LeftOf(s, it.k), InsertSorted(RouteItems(s, it.k), it), RightOf(s, it.k),
              KidsContents(t.kids[c+1..]));
    }
  }

  // ---- conservation ------------------------------------------------------------------------------

  ghost function SplitCnt(m: Splitted, ns: nat, b: nat): nat
    requires !m.SFail?
  {
    match m
    case One(t, _) => Cnt(t, ns, b)
    case Two(l, _, r, _) => Cnt(l, ns, b) + Cnt(r, ns, b)
  }

  lemma {:induction false} TwoNodesCnt(lvl: nat, lk: seq<Kid>, rk: seq<Kid>, fr: seq<Extent>, ns: nat, g: nat, b: nat)
    requires rk != []
    ensures var r := TwoNodes(lvl, lk, rk, fr, ns, g);
            r.Two? ==> FreeCnt(r.fr, b) + SplitCnt(r, ns, b) == FreeCnt(fr, b) + KidsCnt(lk, ns, b) + KidsCnt(rk, ns, b)
  {
    if FirstFit(fr, ns).Granted? {
      FirstFitCnt(fr, ns, b);
      if FirstFit(FirstFit(fr, ns).rest, ns).Granted? {
        FirstFitCnt(FirstFit(fr, ns).rest, ns, b);
      }
    }
  }

  lemma {:induction false} OneNodeCnt(lvl: nat, kids: seq<Kid>, fr: seq<Extent>, ns: nat, g: nat, b: nat)
    ensures var r := OneNode(lvl, kids, fr, ns, g);
            r.One? ==> FreeCnt(r.fr, b) + Cnt(r.t, ns, b) == FreeCnt(fr, b) + KidsCnt(kids, ns, b)
  {
    if FirstFit(fr, ns).Granted? {
      FirstFitCnt(fr, ns, b);
    }
  }

  lemma {:induction false} WidenedCnt(kids: seq<Kid>, c: nat, l: Tree, sep: Key, r: Tree, g: nat, ns: nat, b: nat)
    requires c < |kids|
    ensures KidsCnt(Widened(kids, c, l, sep, r, g), ns, b) ==
            KidsCnt(kids[..c], ns, b) + Cnt(l, ns, b) + Cnt(r, ns, b) + KidsCnt(kids[c+1..], ns, b)
  {
    var lk, rk := Kid(kids[c].sep, g, l), Kid(sep, g, r);
    PairUp(kids[..c], lk, rk, kids[c+1..]);
    KidsCntConcat(kids[..c] + ([lk] + [rk]), kids[c+1..], ns, b);
    KidsCntConcat(kids[..c], [lk] + [rk], ns, b);
    KidsCntConcat([lk], [rk], ns, b);
    KidsCntOne(lk, ns, b);
    KidsCntOne(rk, ns, b);
  }

  lemma {:induction false} SplitUpCnt(lvl: nat, kids: seq<Kid>, c: nat, m: Splitted, ns: nat, g: nat, b: nat)
    requires c < |kids|
    ensures var r := SplitUp(lvl, kids, c, m, ns, g);
            !r.SFail? ==> (!m.SFail? &&
              FreeCnt(r.fr, b) + SplitCnt(r, ns, b) + Cnt(kids[c].sub, ns, b) ==
              FreeCnt(m.fr, b) + SplitCnt(m, ns, b) + KidsCnt(kids, ns, b))
  {
    KidsCntAt(kids, c, ns, b);
    match m
    case SFail(_) =>
    case One(s, fr) =>
      var ks := kids[c := Kid(kids[c].sep, g, s)];
      KidsCntAt(ks, c, ns, b);
      assert ks[..c] == kids[..c] && ks[c+1..] == kids[c+1..];
      OneNodeCnt(lvl, ks, fr, ns, g, b);
    case Two(l, sep, r, fr) =>
      var all := Widened(kids, c, l, sep, r, g);
      WidenedCnt(kids, c, l, sep, r, g, ns, b);
      OneNodeCnt(lvl, all, fr, ns, g, b);
      CutAt(all, |all| / 2);
      KidsCntConcat(all[..|all| / 2], all[|all| / 2..], ns, b);
      TwoNodesCnt(lvl, all[..|all| / 2], all[|all| / 2..], fr, ns, g, b);
  }

  lemma {:induction false} SplitRecCnt(t: Tree, it: Item, fr: seq<Extent>, ns: nat, g: nat, b: nat)
    requires Shape(t, LevelOf(t))
    ensures var r := SplitRec(t, it, fr, ns, g);
            !r.SFail? ==> FreeCnt(r.fr, b) + SplitCnt(r, ns, b) + AddrsCnt(SpineAddrs(t, it.k), ns, b) ==
                          FreeCnt(fr, b) + Cnt(t, ns, b)
    decreases t
  {
    if t.Leaf? {
      OneAddrCnt(t.addr, ns, b);
      if FirstFit(fr, ns).Granted? {
        FirstFitCnt(fr, ns, b);
        if FirstFit(FirstFit(fr, ns).rest, ns).Granted? {
          FirstFitCnt(FirstFit(fr, ns).rest, ns, b);
        }
      }
    } else {
      RoutedShape(t, it.k);
      var c := RouteKid(t.kids, it.k);
      var s := t.kids[c].sub;
      SplitRecCnt(s, it, fr, ns, g, b);
      SplitRecNode(t, it, fr, ns, g);
      SplitUpCnt(t.level, t.kids, c, SplitRec(s, it, fr, ns, g), ns, g, b);
      SpineNode(t, it.k, ns, b);
    }
  }

  /** cowInsertSplit: every byte is covered as often after the operation as before it. */
  lemma {:induction false} SplitTreeConserves(t: Tree, it: Item, fr: seq<Extent>, ns: nat, g: nat, b: nat)
    requires Shape(t, LevelOf(t)) && SplitTree(t, it, fr, ns, g).Ok?
    ensures var (t', fr') := SplitTree(t, it, fr, ns, g).value;
            FreeCnt(fr', b) + Cnt(t', ns, b) == FreeCnt(fr, b) + Cnt(t, ns, b)
  {
    var m := SplitRec(t, it, fr, ns, g);
    SplitRecCnt(t, it, fr, ns, g, b);
    if m.One? {
      FreeAllCnt(m.fr, SpineAddrs(t, it.k), ns, b);
    } else {
      var x := GrowRoot(LevelOf(t) + 1, m.l, m.sep, m.r, m.fr, ns, g).value;
      FirstFitCnt(m.fr, ns, b);
      TwoKidsCnt(x.0.kids, ns, b);
      FreeAllCnt(x.1, SpineAddrs(t, it.k), ns, b);
    }
  }

  // ---- generations ---------------------------------------------------------------------------------

  ghost predicate SplitGen(m: Splitted, g: nat) {
    match m
    case SFail(_) => true
    case One(t, _) => GenOK(t) && t.gen == g
    case Two(l, _, r, _) => GenOK(l) && l.gen == g && GenOK(r) && r.gen == g
  }

  lemma {:induction false} SplitUpGen(lvl: nat, kids: seq<Kid>, c: nat, m: Splitted, ns: nat, g: nat)
    requires c < |kids| && SplitGen(m, g)
    requires forall i :: 0 <= i < |kids| ==> kids[i].gen == kids[i].sub.gen && GenOK(kids[i].sub)
    ensures SplitGen(SplitUp(lvl, kids, c, m, ns, g), g)
  {
    if m.Two? {
      var all := Widened(kids, c, m.l, m.sep, m.r, g);
      forall i | 0 <= i < |all| ensures all[i].gen == all[i].sub.gen && GenOK(all[i].sub) {
        if i < c {
          assert all[i] == kids[i];
        } else if i > c + 1 {
          assert all[i] == kids[i-1];
        }
      }
    }
  }

  lemma {:induction false} SplitRecGen(t: Tree, it: Item, fr: seq<Extent>, ns: nat, g: nat)
    requires Shape(t, LevelOf(t)) && GenOK(t)
    ensures SplitGen(SplitRec(t, it, fr, ns, g), g)
    decreases t
  {
    if t.Node? {
      RoutedShape(t, it.k);
      var c := RouteKid(t.kids, it.k);
      SplitRecGen(t.kids[c].sub, it, fr, ns, g);
      SplitRecNode(t, it, fr, ns, g);
      SplitUpGen(t.level, t.kids, c, SplitRec(t.kids[c].sub, it, fr, ns, g), ns, g);
    }
  }

  /** cowInsertSplit keeps every pointer's generation equal to its child's. */
  lemma {:induction false} SplitTreeGen(t: Tree, it: Item, fr: seq<Extent>, ns: nat, g: nat)
    requires Shape(t, LevelOf(t)) && GenOK(t) && SplitTree(t, it, fr, ns, g).Ok?
    ensures GenOK(SplitTree(t, it, fr, ns, g).value.0)
  {
    SplitRecGen(t, it, fr, ns, g);
  }
}
