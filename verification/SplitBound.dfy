/** When a full leaf can be split (cow.go, btree_write.go). The split point balances data bytes only,
    so descriptors can unbalance it: the split succeeds exactly when that one cut fits, and an insert
    into a whole tree fails, apart from missing blocks and depth, exactly when the routed leaf refuses
    the item and the cut does not fit. With items that are neither nearly empty nor very large it
    always does. */
module SplitBound {
  import opened Keys
  import opened FreeSpace
  import opened Trees
  import opened CowSpec
  import opened CowLeaf
  import opened CowMutate

  const MIN_DATA: nat := 10

  /** At least ten data bytes, and with its descriptor at most an eighth of a leaf. */
  predicate Small(it: Item, ns: nat) {
    MIN_DATA <= |it.data| && 8 * (ITEM_SIZE + |it.data|) <= ns - NODE_HDR
  }

  ghost predicate AllSmall(s: seq<Item>, ns: nat) {
    forall i :: 0 <= i < |s| ==> Small(s[i], ns)
  }

  lemma {:induction false} SumStep(s: seq<Item>, p: nat)
    requires p < |s|
    ensures DataSum(s[..p + 1]) == DataSum(s[..p]) + |s[p].data|
    ensures LeafUse(s[..p + 1]) == LeafUse(s[..p]) + ITEM_SIZE + |s[p].data|
  {
    assert s[..p + 1][..p] == s[..p];
  }

  /** Descriptors are at most five sevenths of what small items take. */
  lemma {:induction false} HeavyUse(s: seq<Item>, ns: nat)
    requires AllSmall(s, ns)
    ensures 2 * LeafUse(s) <= 7 * DataSum(s)
  {
    if s != [] {
      HeavyUse(s[..|s| - 1], ns);
      SumStep(s, |s| - 1);
      assert s[..|s| - 1 + 1] == s;
      assert Small(s[|s| - 1], ns);
    }
  }

  lemma {:induction false} UseSplit(s: seq<Item>, p: nat)
    requires p <= |s|
    ensures LeafUse(s) == LeafUse(s[..p]) + LeafUse(s[p..])
    ensures DataSum(s) == DataSum(s[..p]) + DataSum(s[p..])
  {
    assert s == s[..p] + s[p..];
    DataSumConcat(s[..p], s[p..]);
  }

  /** The scan stops at the first prefix with half the data, or falls back to one. */
  lemma {:induction false} ScanStops(all: seq<Item>, i: nat, target: nat)
    requires i < |all| && (i > 0 ==> DataSum(all[..i]) < target)
    ensures var s := SplitScan(all, i, target);
            || (i < s < |all| && DataSum(all[..s]) >= target && (s > 1 ==> DataSum(all[..s - 1]) < target))
            || (s == 1 && DataSum(all[..|all| - 1]) < target)
            || (s == 1 && |all| == 1)
    decreases |all| - i
  {
    if i < |all| - 1 && DataSum(all[..i + 1]) < target {
      ScanStops(all, i + 1, target);
    }
  }

  // ---- the one cut that is tried ----------------------------------------------------------------

  /** The prefix of s items has half the data bytes. */
  predicate Half(all: seq<Item>, s: nat)
    requires s <= |all|
  {
    DataSum(all[..s]) >= DataSum(all) / 2
  }

  /** The first proper prefix with half the data bytes, or the first item when no proper prefix has. */
  ghost predicate IsCut(all: seq<Item>, s: nat) {
    && 0 < s < |all|
    && (forall p :: 0 < p < s ==> !Half(all, p))
    && (Half(all, s) || (s == 1 && forall p :: 0 < p < |all| ==> !Half(all, p)))
  }

  /** There is such a cut, and both sides of it fit a leaf. */
  ghost predicate CutFits(all: seq<Item>, ns: nat) {
    exists s: nat :: IsCut(all, s) && LeafFits(all[..s], ns) && LeafFits(all[s..], ns)
  }

  lemma {:induction false} HalfMono(all: seq<Item>, p: nat, q: nat)
    requires p <= q <= |all| && Half(all, p)
    ensures Half(all, q)
    decreases q
  {
    if p < q {
      HalfMono(all, p, q - 1);
      SumStep(all, q - 1);
    }
  }

  /** The scan finds the cut, and there is no other. */
  lemma {:induction false} CutIs(all: seq<Item>, s: nat)
    requires |all| >= 2
    ensures IsCut(all, s) <==> s == SplitPos(all)
  {
    hide DataSum;
    var h, c := DataSum(all) / 2, SplitPos(all);
    ScanStops(all, 0, h);
    forall p | 0 < p < |all| && Half(all, p)
      ensures Half(all, c) && c <= p
    {
      HalfMono(all, p, |all| - 1);
      if c > 1 && p < c {
        HalfMono(all, p, c - 1);
      }
    }
    assert IsCut(all, c);
  }

  /** A leaf with items is split exactly when the cut fits. */
  lemma {:induction false} SplitLeafIff(items: seq<Item>, it: Item, ns: nat)
    requires items != []
    ensures SplitLeaf(items, it, ns).Ok? <==> CutFits(InsertSorted(items, it), ns)
    ensures SplitLeaf(items, it, ns).Ok? ==>
              var (l, r) := SplitLeaf(items, it, ns).value;
              l != [] && r != [] && l + r == InsertSorted(items, it) && IsCut(InsertSorted(items, it), |l|)
  {
    hide SplitPos, InsertSorted, LeafFits, Half;
    var all := InsertSorted(items, it);
    InsertedCount(items, it);
    CutIs(all, SplitPos(all));
    if CutFits(all, ns) {
      var s: nat :| IsCut(all, s) && LeafFits(all[..s], ns) && LeafFits(all[s..], ns);
      CutIs(all, s);
    }
  }

  lemma {:induction false} InsertedCount(items: seq<Item>, it: Item)
    ensures |InsertSorted(items, it)| == |items| + 1
  {
  }

  /** The two halves of a refused insertion fit. */
  lemma {:induction false} HalvesFit(all: seq<Item>, ns: nat)
    requires all != [] && AllSmall(all, ns)
    requires var c := ns - NODE_HDR; c < LeafUse(all) && 8 * LeafUse(all) <= 9 * c
    ensures var s := SplitPos(all);
            0 < s < |all| && LeafFits(all[..s], ns) && LeafFits(all[s..], ns)
  {
    var c, d, target := ns - NODE_HDR, DataSum(all), DataSum(all) / 2;
    assert Small(all[0], ns);
    HeavyUse(all, ns);
    var n := |all|;
    ScanStops(all, 0, target);
    var s := SplitScan(all, 0, target);
    SumStep(all, n - 1);
    assert all[..n - 1 + 1] == all;
    assert Small(all[n - 1], ns);
    assert 0 < s < n;
    SplitBalanced(all, s, ns);
  }

  /** The arithmetic of the balance: capacity c; use and data of the left part without its last item
      (l, dl), of that item (u, d) and of the right part (r, dr). */
  lemma {:induction false} Balance(c: int, l: nat, dl: nat, u: nat, d: nat, r: nat, dr: nat)
    requires c < l + u + r && 8 * (l + u + r) <= 9 * c && 8 * u <= c
    requires 2 * l <= 7 * dl && 2 * r <= 7 * dr && dr <= r && d + ITEM_SIZE == u && dl <= l && MIN_DATA <= d
    requires dl + d >= (dl + d + dr) / 2 && (dl == 0 || dl < (dl + d + dr) / 2)
    ensures l + u <= c && r <= c
  {
  }

  lemma {:induction false} SplitBalanced(all: seq<Item>, s: nat, ns: nat)
    requires 0 < s < |all| && AllSmall(all, ns)
    requires var c := ns - NODE_HDR; c < LeafUse(all) && 8 * LeafUse(all) <= 9 * c
    requires DataSum(all[..s]) >= DataSum(all) / 2 && (s > 1 ==> DataSum(all[..s - 1]) < DataSum(all) / 2)
    ensures LeafFits(all[..s], ns) && LeafFits(all[s..], ns)
  {
    hide DataSum;
    UseSplit(all, s);
    HeavyUse(all[s..], ns);
    HeavyUse(all[..s - 1], ns);
    SumStep(all, s - 1);
    assert Small(all[s - 1], ns);
    assert s == 1 ==> all[..s - 1] == [];
    EmptyUse();
    Balance(ns - NODE_HDR, LeafUse(all[..s - 1]), DataSum(all[..s - 1]), ITEM_SIZE + |all[s - 1].data|,
            |all[s - 1].data|,
            LeafUse(all[s..]), DataSum(all[s..]));
  }

  lemma {:induction false} EmptyUse()
    ensures DataSum([]) == 0
  {
  }

  lemma {:induction false} InsertSmall(items: seq<Item>, it: Item, ns: nat)
    requires AllSmall(items, ns) && Small(it, ns)
    ensures AllSmall(InsertSorted(items, it), ns)
  {
  }

  /** A leaf of small items that refuses a small item splits into two non-empty leaves that fit. */
  lemma {:induction false} RefusedSplits(items: seq<Item>, it: Item, ns: nat)
    requires LeafFits(items, ns) && AllSmall(items, ns) && Small(it, ns)
    requires ApplyLeaf(Insert(it.k, it.data), items, ns).Err?
    ensures var r := SplitLeaf(items, it, ns);
            r.Ok? && r.value.0 != [] && r.value.1 != [] && r.value.0 + r.value.1 == InsertSorted(items, it)
  {
    hide DataSum, InsertSorted, SplitPos;
    var all := InsertSorted(items, it);
    InsertSortedUse(items, it);
    InsertSmall(items, it, ns);
    EmptyUse();
    assert all != [];
    HalvesFit(all, ns);
    CutAt(all, SplitPos(all));
  }

  // ---- a split can fail although one exists ---------------------------------------------------------

  /** Three items without data and one large one: the data-balanced split point leaves everything but
      the first item on the right, which is too much; cutting before the large item would fit. */
  lemma {:induction false} UnbalancedExample(a: Item, b: Item, c: Item, big: Item, ns: nat)
    requires ns == NODE_HDR + 100
    requires a.data == [] && b.data == [] && c.data == [] && |big.data| == 70
    requires Rank(a.k) < Rank(b.k) < Rank(c.k) < Rank(big.k)
    ensures LeafFits([a, b, c], ns) && LeafFits([big], ns)
    ensures ApplyLeaf(Insert(big.k, big.data), [a, b, c], ns) == Err(LeafFull)
    ensures SplitLeaf([a, b, c], big, ns) == Err(TooLarge)
  {
    var s := [a, b, c];
    var all := s + [big];
    UseOf([], a);
    UseOf([a], b);
    UseOf([a, b], c);
    UseOf(s, big);
    UseOf([], big);
    assert [] + [a] == [a] && [a] + [b] == [a, b] && [a, b] + [c] == s && [] + [big] == [big];
    assert InsertPos(s, big.k) == 3 by {
      assert s[0] == a && s[1] == b && s[2] == c;
    }
    assert s[..3] == s && s[3..] == [];
    assert InsertSorted(s, big) == all;
    assert all[..1] == [a] && all[..2] == [a, b] && all[..3] == s;
    assert SplitScan(all, 2, 35) == SplitScan(all, 3, 35) == 1;
    assert SplitScan(all, 0, 35) == SplitScan(all, 1, 35) == SplitScan(all, 2, 35);
    assert SplitPos(all) == 1;
    UseSplit(all, 1);
  }

  lemma {:induction false} UseOf(s: seq<Item>, x: Item)
    ensures DataSum(s + [x]) == DataSum(s) + |x.data|
    ensures LeafUse(s + [x]) == LeafUse(s) + ITEM_SIZE + |x.data|
  {
    assert (s + [x])[..|s|] == s;
  }

  // ---- whole trees -------------------------------------------------------------------------------------

  ghost predicate SmallTree(t: Tree, ns: nat) {
    match t
    case Leaf(_, _, items) => AllSmall(items, ns)
    case Node(_, _, _, kids) => forall i :: 0 <= i < |kids| ==> SmallTree(kids[i].sub, ns)
  }

  /** How an insertion may come out in place (m) and with splits (s), given whether the routed leaf refuses
      the item and whether the cut fits. */
  ghost predicate Outcomes(m: Mutated, s: Splitted, refuses: bool, fits: bool) {
    && !m.MDrop? && (m.MFail? ==> m.error == LeafFull || m.error == NoBlock) && (m == MFail(LeafFull) <==> refuses)
    && (refuses ==>
          && (s == SFail(TooLarge) <==> !fits)
          && (s.SFail? ==> s.error == TooLarge || s.error == NoBlock)
          && (s.Two? ==> FirstKeyOf(s.l).Some?))
  }

  predicate Refuses(items: seq<Item>, it: Item, ns: nat) {
    ApplyLeaf(Insert(it.k, it.data), items, ns).Err?
  }

  lemma {:induction false} LeafOutcomes(items: seq<Item>, it: Item, top: bool, fr: seq<Extent>, ns: nat, g: nat)
    ensures Outcomes(MutateLeaf(Insert(it.k, it.data), items, top, fr, ns, g), SplitAtLeaf(items, it, fr, ns, g),
                     Refuses(items, it, ns), CutFits(InsertSorted(items, it), ns))
  {
    hide DataSum, InsertSorted, SplitPos, SplitLeaf, CutFits, FirstFit;
    InsertedCount(items, it);
    SplitRefusal(items, it, ns);
    if items != [] {
      SplitLeafIff(items, it, ns);
    } else if Refuses(items, it, ns) {
      EmptyRefused(it, ns);
    }
  }

  lemma {:induction false} SplitRefusal(items: seq<Item>, it: Item, ns: nat)
    ensures SplitLeaf(items, it, ns).Err? ==> SplitLeaf(items, it, ns).error == TooLarge
  {
  }

  /** An item that an empty leaf refuses has no cut, and its split is refused. */
  lemma {:induction false} EmptyRefused(it: Item, ns: nat)
    requires Refuses([], it, ns)
    ensures SplitLeaf([], it, ns).Err? && !CutFits(InsertSorted([], it), ns)
  {
    var all := InsertSorted([], it);
    assert all == [] + [it];
    UseOf([], it);
    assert SplitPos(all) == 0 && all[0..] == all;
  }

  lemma {:induction false} StepOutcomes(lvl: nat, kids: seq<Kid>, c: nat, m: Mutated, s: Splitted, top: bool,
                                        fr: seq<Extent>, ns: nat, g: nat, refuses: bool, fits: bool)
    requires c < |kids| && Outcomes(m, s, refuses, fits)
    ensures Outcomes(MutateUp(lvl, kids, c, m, top, fr, ns, g), SplitUp(lvl, kids, c, s, ns, g), refuses, fits)
  {
    hide FirstFit;
    if s.Two? {
      var all := Widened(kids, c, s.l, s.sep, s.r, g);
      assert |all| == |kids| + 1 >= 2;
    }
  }

  lemma {:induction false} RecOutcomes(t: Tree, it: Item, top: bool, fr: seq<Extent>, ns: nat, g: nat)
    requires Shape(t, LevelOf(t))
    ensures Outcomes(MutateRec(t, Insert(it.k, it.data), top, fr, ns, g), SplitRec(t, it, fr, ns, g),
                     Refuses(RouteItems(t, it.k), it, ns), CutFits(InsertSorted(RouteItems(t, it.k), it), ns))
    decreases t
  {
    hide Outcomes, SplitUp, MutateUp, MutateLeaf, SplitAtLeaf, CutFits, Refuses, InsertSorted;
    match t
    case Leaf(_, _, items) => LeafOutcomes(items, it, top, fr, ns, g);
    case Node(_, _, lvl, kids) =>
      var c := RouteKid(kids, it.k);
      RoutedShape(t, it.k);
      var s := kids[c].sub;
      RecOutcomes(s, it, false, fr, ns, g);
      StepOutcomes(lvl, kids, c, MutateRec(s, Insert(it.k, it.data), false, fr, ns, g), SplitRec(s, it, fr, ns, g),
                   top, fr, ns, g, Refuses(RouteItems(s, it.k), it, ns),
                       CutFits(InsertSorted(RouteItems(s, it.k), it), ns));
  }

  /** Apart from a missing block and a tree deeper than any path the engine follows, an insert fails exactly
      when the routed leaf refuses the item and the cut of the leaf with the item does not fit. */
  lemma {:induction false} InsertTooLargeIff(t: Tree, k: Key, data: seq<u8>, fr: seq<Extent>, ns: nat, g: nat)
    requires Shape(t, LevelOf(t))
    ensures var r, it, items := InsertTree(t, k, data, fr, ns, g), Item(k, data), RouteItems(t, k);
            && (r == Err(TooLarge) <==>
                  LevelOf(t) <= MAX_DEPTH && Refuses(items, it, ns) && !CutFits(InsertSorted(items, it), ns))
            && (r.Err? ==>
                  r.error == TooLarge || r.error == NoBlock || (r.error == TooDeep && LevelOf(t) > MAX_DEPTH))
  {
    hide MutateRec, SplitRec, SpineAddrs, FreeAll, Shape, CutFits, Refuses, RouteItems, InsertSorted, FirstFit;
    RecOutcomes(t, Item(k, data), true, fr, ns, g);
  }

  /** The leaf that a key routes to in a tree of small items. */
  lemma {:induction false} RouteSmall(t: Tree, k: Key, ns: nat)
    requires Shape(t, LevelOf(t)) && Fits(t, ns) && SmallTree(t, ns)
    ensures AllSmall(RouteItems(t, k), ns) && LeafFits(RouteItems(t, k), ns)
    decreases t
  {
    hide LeafFits, AllSmall;
    if t.Node? {
      RoutedShape(t, k);
      RouteSmall(t.kids[RouteKid(t.kids, k)].sub, k, ns);
    }
  }

  /** Inserting a small item into a tree of small items fails only when a block cannot be allocated or
      the tree is deeper than any path the engine follows. */
  lemma {:induction false} InsertOnlyNoBlock(t: Tree, k: Key, data: seq<u8>, fr: seq<Extent>, ns: nat, g: nat)
    requires Shape(t, LevelOf(t)) && Fits(t, ns) && SmallTree(t, ns) && Small(Item(k, data), ns)
    ensures var r := InsertTree(t, k, data, fr, ns, g);
            r.Err? ==> r.error == NoBlock || (r.error == TooDeep && LevelOf(t) > MAX_DEPTH)
  {
    hide InsertTree, Shape, Fits, SmallTree, Small, CutFits, InsertSorted, SplitLeaf, LeafFits, AllSmall;
    var it, items := Item(k, data), RouteItems(t, k);
    InsertTooLargeIff(t, k, data, fr, ns, g);
    RouteSmall(t, k, ns);
    if Refuses(items, it, ns) {
      RefusedSplits(items, it, ns);
      if items == [] {
        EmptyRefused(it, ns);
      } else {
        SplitLeafIff(items, it, ns);
      }
    }
  }
}
