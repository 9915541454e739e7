/** searchTree (btree.go) as a function, and its exactness on well-formed trees. */
module SearchSpec {
  import opened Keys
  import opened FreeSpace
  import opened Trees
  import opened CowSpec
  import opened CowShape
  import opened CowLeaf
  import opened CowMutate
  import opened CowSplit
  import opened MapSpec
  import opened CowTheorems
  import opened CowExact

  /** searchTree: descend through the rightmost of the leading separators at most k; a node
      whose first separator is above k is a miss. */
  ghost function Search(t: Tree, k: Key): Option<seq<u8>>
    requires Shape(t, LevelOf(t))
    decreases t
  {
    if t.Leaf? then
      var i := IndexOf(t.items, k);
      if i == |t.items| then None else Some(t.items[i].data)
    else if Lead(Ptrs(t.kids), k) == 0 then None
    else RoutedShape(t, k); Search(t.kids[RouteKid(t.kids, k)].sub, k)
  }

  function Lookup(m: Dict, k: Key): Option<seq<u8>> {
    if k in m then Some(m[k]) else None
  }

  lemma {:induction false} LookupSorted(s: seq<Item>, k: Key, lo: int, hi: int)
    requires ItemsIn(s, lo, hi)
    ensures Lookup(ToMap(s), k) == var i := IndexOf(s, k); if i == |s| then None else Some(s[i].data)
  {
    ToMapKeys(s, k);
    var i := IndexOf(s, k);
    if i < |s| {
      PutBetween(s[..i], s[i], s[i+1..]);
      SplitAt(s, i);
    }
  }

  /** A key that falls back to the leftmost child is not in the subtree. */
  lemma {:induction false} FallbackAbsent(t: Tree, k: Key, lo: int, hi: int)
    requires t.Node? && Shape(t, LevelOf(t)) && Ordered(t, lo, hi) && Lead(Ptrs(t.kids), k) == 0
    ensures Absent(Contents(t), k)
  {
    assert Ptrs(t.kids)[0].k == t.kids[0].sep;
    assert KidsOrdered(t.kids, lo, hi);
    KidsOrderedSlice(t.kids, lo, hi, 0, |t.kids|);
    assert t.kids[0..|t.kids|] == t.kids;
    KidsContentsIn(t.kids, Rank(t.kids[0].sep), hi);
  }

  lemma {:induction false} SearchExact(t: Tree, k: Key, lo: int, hi: int)
    requires Shape(t, LevelOf(t)) && Ordered(t, lo, hi) && Rank(k) < hi
    ensures Search(t, k) == Lookup(ToMap(Contents(t)), k)
    decreases t
  {
    if t.Leaf? {
      LookupSorted(t.items, k, lo, hi);
    } else if Lead(Ptrs(t.kids), k) == 0 {
      FallbackAbsent(t, k, lo, hi);
      ToMapKeys(Contents(t), k);
    } else {
      RoutedShape(t, k);
      RouteBracket(t, k, lo, hi);
      var c := RouteKid(t.kids, k);
      SearchExact(t.kids[c].sub, k, Rank(t.kids[c].sep), Upper(t.kids, c, hi));
      assert Ptrs(t.kids)[c].k == t.kids[c].sep;
      SidesOfKid(t.kids, c, lo, hi);
      KidsContentsAt(t.kids, c);
      LookupMiddle(KidsContents(t.kids[..c]), Contents(t.kids[c].sub), KidsContents(t.kids[c+1..]), k);
    }
  }

  lemma {:induction false} LookupMiddle(l: seq<Item>, s: seq<Item>, r: seq<Item>, k: Key)
    requires Absent(l, k) && Absent(r, k)
    ensures Lookup(ToMap(l + s + r), k) == Lookup(ToMap(s), k)
  {
    ToMapConcat(l + s, r);
    ToMapConcat(l, s);
    ToMapKeys(l, k);
    ToMapKeys(r, k);
  }

  /** On every well-formed tree searchTree finds exactly the keys of the contents, with their data. */
  lemma {:induction false} SearchWellFormed(t: Tree, k: Key, ns: nat)
    requires WellFormed(t, ns)
    ensures Search(t, k) == Lookup(ToMap(Contents(t)), k)
  {
    CompareIsRank(k, k);
    SearchExact(t, k, 0, RANK_LIMIT);
  }

  /** The same without the map: what is found is the data of the item with that key. */
  lemma {:induction false} SearchFinds(t: Tree, k: Key, d: seq<u8>, ns: nat)
    requires WellFormed(t, ns)
    ensures Search(t, k) == Some(d) <==> Item(k, d) in Contents(t)
    ensures Search(t, k) == None <==> Absent(Contents(t), k)
  {
    SearchWellFormed(t, k, ns);
    ContentsIn(t, 0, RANK_LIMIT);
    ToMapHas(Contents(t), Item(k, d), 0, RANK_LIMIT);
    ToMapKeys(Contents(t), k);
  }

  // ---- searching for an uncovered key after its insertion --------------------------------------

  lemma {:induction false} LeadIs(ps: seq<Ptr>, k: Key, n: nat)
    requires n <= |ps| && (forall i :: 0 <= i < n ==> Rank(ps[i].k) <= Rank(k))
    requires n < |ps| ==> Rank(k) < Rank(ps[n].k)
    ensures Lead(ps, k) == n
  {
  }

  lemma {:induction false} LeadKid(ks: seq<Kid>, k: Key, n: nat)
    requires n <= |ks| && (forall i :: 0 <= i < n ==> Rank(ks[i].sep) <= Rank(k))
    requires n < |ks| ==> Rank(k) < Rank(ks[n].sep)
    ensures Lead(Ptrs(ks), k) == n
  {
    LeadIs(Ptrs(ks), k, n);
  }

  lemma {:induction false} LeadOf(ks: seq<Kid>, k: Key)
    ensures var n := Lead(Ptrs(ks), k);
            && n <= |ks| && (forall i :: 0 <= i < n ==> Rank(ks[i].sep) <= Rank(k))
            && (n < |ks| ==> Rank(k) < Rank(ks[n].sep))
  {
    var n := Lead(Ptrs(ks), k);
    forall i | 0 <= i < n ensures Rank(ks[i].sep) <= Rank(k) {
      assert Ptrs(ks)[i].k == ks[i].sep;
    }
    if n < |ks| {
      assert Ptrs(ks)[n].k == ks[n].sep;
    }
  }

  /** A search of the tree for k finds nothing. */
  ghost predicate Misses(t: Tree, k: Key) {
    Shape(t, LevelOf(t)) && Search(t, k) == None
  }

  /** A mutation below the root keeps the shape of the subtree. */
  lemma {:induction false} MutateSubShape(t: Tree, op: LeafOp, fr: seq<Extent>, ns: nat, g: nat)
    requires Shape(t, LevelOf(t))
    ensures var r := MutateRec(t, op, false, fr, ns, g); r.MKeep? ==> Shape(r.t, LevelOf(t))
    decreases t
  {
    if t.Node? {
      var c := RouteKid(t.kids, RouteKey(op));
      RoutedShape(t, RouteKey(op));
      MutateSubShape(t.kids[c].sub, op, fr, ns, g);
      MutateRecNode(t, op, false, fr, ns, g);
      MutateUpShape(t.level, t.kids, c, MutateRec(t.kids[c].sub, op, false, fr, ns, g), fr, ns, g);
    }
  }

  lemma {:induction false} MutateUpShape(lvl: nat, kids: seq<Kid>, c: nat, m: Mutated, fr: seq<Extent>, ns: nat, g: nat)
    requires c < |kids| && lvl > 0 && forall i :: 0 <= i < |kids| ==> Shape(kids[i].sub, lvl - 1)
    requires m.MKeep? ==> Shape(m.t, lvl - 1)
    ensures var r := MutateUp(lvl, kids, c, m, false, fr, ns, g); r.MKeep? ==> Shape(r.t, lvl)
  {
    if m.MDrop? {
      var rest := kids[..c] + kids[c+1..];
      forall i | 0 <= i < |rest| ensures Shape(rest[i].sub, lvl - 1) {
        assert rest[i] == kids[if i < c then i else i + 1];
      }
    }
  }

  /** Replacing a child under the same separators leaves the search route alone. */
  lemma {:induction false} SearchReplaced(ks: seq<Kid>, c: nat, x: Kid, k: Key)
    requires c < |ks| && x.sep == ks[c].sep
    ensures Lead(Ptrs(ks[c := x]), k) == Lead(Ptrs(ks), k)
  {
    LeadOf(ks, k);
    LeadKid(ks[c := x], k, Lead(Ptrs(ks), k));
  }

  lemma {:induction false} MutateMisses(t: Tree, k: Key, data: seq<u8>, fr: seq<Extent>, ns: nat, g: nat)
    requires Shape(t, LevelOf(t)) && !Covered(t, k)
    ensures var r := MutateRec(t, Insert(k, data), false, fr, ns, g); r.MKeep? ==> Misses(r.t, k)
    decreases t
  {
    var op := Insert(k, data);
    var r := MutateRec(t, op, false, fr, ns, g);
    RoutedShape(t, k);
    var c := RouteKid(t.kids, k);
    var s := t.kids[c].sub;
    MutateRecNode(t, op, false, fr, ns, g);
    MutateSubShape(t, op, fr, ns, g);
    if r.MKeep? {
      InsertStep(t, k, data, false, fr, ns, g);
      ShapeLevel(r.t, LevelOf(t));
      var x := Kid(t.kids[c].sep, g, MutateRec(s, op, false, fr, ns, g).t);
      SearchReplaced(t.kids, c, x, k);
      LeadOf(t.kids, k);
      if Rank(t.kids[0].sep) <= Rank(k) {
        MutateMisses(s, k, data, fr, ns, g);
      }
    }
  }

  /** An insert without split replaces the routed child of the root and keeps the rest. */
  lemma {:induction false} InsertStep(t: Tree, k: Key, data: seq<u8>, top: bool, fr: seq<Extent>, ns: nat, g: nat)
    requires Shape(t, LevelOf(t)) && t.Node? && MutateRec(t, Insert(k, data), top, fr, ns, g).MKeep?
    ensures var c := RouteKid(t.kids, k);
            var s := t.kids[c].sub;
            && Shape(s, LevelOf(s))
            && var m := MutateRec(s, Insert(k, data), false, fr, ns, g);
            var r := MutateRec(t, Insert(k, data), top, fr, ns, g);
            m.MKeep? && r.t.Node? && r.t.level == t.level && r.t.kids == t.kids[c := Kid(t.kids[c].sep, g, m.t)]
  {
    RoutedShape(t, k);
    var s := t.kids[RouteKid(t.kids, k)].sub;
    MutateRecNode(t, Insert(k, data), top, fr, ns, g);
    MutateContents(s, Insert(k, data), false, fr, ns, g);
    InsertedNonEmpty(RouteItems(s, k), Item(k, data));
  }

  /** Where the search goes after a split of the subtree. */
  ghost predicate SplitMisses(m: Splitted, k: Key) {
    match m
    case SFail(_) => true
    case One(t, _) => Misses(t, k)
    case Two(l, sep, r, _) =>
      Shape(l, LevelOf(l)) && Shape(r, LevelOf(r)) && if Rank(k) < Rank(sep) then Misses(l, k) else Misses(r, k)
  }

  ghost predicate SplitShape(m: Splitted, lvl: nat) {
    match m
    case SFail(_) => true
    case One(t, _) => Shape(t, lvl)
    case Two(l, _, r, _) => Shape(l, lvl) && Shape(r, lvl)
  }

  lemma {:induction false} SplitUpShape(lvl: nat, kids: seq<Kid>, c: nat, m: Splitted, ns: nat, g: nat)
    requires c < |kids| && lvl > 0 && SplitShape(m, lvl - 1)
    requires forall i :: 0 <= i < |kids| ==> Shape(kids[i].sub, lvl - 1)
    ensures SplitShape(SplitUp(lvl, kids, c, m, ns, g), lvl)
  {
    if m.Two? {
      var all := Widened(kids, c, m.l, m.sep, m.r, g);
      forall i | 0 <= i < |all| ensures Shape(all[i].sub, lvl - 1) {
        WidenedAt(kids, c, m.l, m.sep, m.r, g, i);
      }
    }
  }

  lemma {:induction false} WidenedAt(kids: seq<Kid>, c: nat, l: Tree, sep: Key, r: Tree, g: nat, i: nat)
    requires c < |kids| && i <= |kids|
    ensures |Widened(kids, c, l, sep, r, g)| == |kids| + 1
    ensures Widened(kids, c, l, sep, r, g)[i] ==
            if i < c then kids[i] else if i == c then Kid(kids[c].sep, g, l)
            else if i == c + 1 then Kid(sep, g, r) else kids[i-1]
  {
  }

  lemma {:induction false} SplitRecShape(t: Tree, it: Item, fr: seq<Extent>, ns: nat, g: nat)
    requires Shape(t, LevelOf(t))
    ensures SplitShape(SplitRec(t, it, fr, ns, g), LevelOf(t))
    decreases t
  {
    if t.Node? {
      RoutedShape(t, it.k);
      var c := RouteKid(t.kids, it.k);
      SplitRecShape(t.kids[c].sub, it, fr, ns, g);
      SplitRecNode(t, it, fr, ns, g);
      SplitUpShape(t.level, t.kids, c, SplitRec(t.kids[c].sub, it, fr, ns, g), ns, g);
    }
  }

  /** A node over kids ks misses k when its first n separators are the ones at most k and child
      n - 1 misses k. */
  lemma {:induction false} NodeMisses(t: Tree, k: Key, n: nat)
    requires t.Node? && Shape(t, t.level) && n <= |t.kids|
    requires forall i :: 0 <= i < n ==> Rank(t.kids[i].sep) <= Rank(k)
    requires n < |t.kids| ==> Rank(k) < Rank(t.kids[n].sep)
    requires n > 0 ==> Misses(t.kids[n-1].sub, k)
    ensures Misses(t, k)
  {
    LeadKid(t.kids, k, n);
  }

  /** The separators of the children around position n bracket k. */
  ghost predicate Brackets(ks: seq<Kid>, k: Key, n: nat) {
    && n <= |ks|
    && (forall i :: 0 <= i < n ==> Rank(ks[i].sep) <= Rank(k))
    && (forall i :: n <= i < |ks| ==> Rank(k) < Rank(ks[i].sep))
  }

  lemma {:induction false} HalvesMiss(lvl: nat, all: seq<Kid>, p: nat, fr: seq<Extent>, ns: nat, g: nat, k: Key, n: nat)
    requires lvl > 0 && 0 < p < |all| && Brackets(all, k, n)
    requires n > 0 ==> Misses(all[n-1].sub, k)
    requires SplitShape(TwoNodes(lvl, all[..p], all[p..], fr, ns, g), lvl)
    ensures SplitMisses(TwoNodes(lvl, all[..p], all[p..], fr, ns, g), k)
  {
    var r := TwoNodes(lvl, all[..p], all[p..], fr, ns, g);
    if r.Two? {
      if Rank(k) < Rank(all[p].sep) {
        assert n <= p;
        NodeMisses(r.l, k, n);
      } else {
        assert p < n;
        NodeMisses(r.r, k, n - p);
      }
    }
  }

  lemma {:induction false} SplitUpMisses(lvl: nat, kids: seq<Kid>, c: nat, m: Splitted, ns: nat, g: nat, k: Key, n: nat)
    requires c < |kids| && lvl > 0 && Brackets(kids, k, n) && c == (if n == 0 then 0 else n - 1)
    requires n > 0 ==> SplitMisses(m, k)
    requires n == 0 && m.Two? ==> Rank(k) < Rank(m.sep)
    requires SplitShape(SplitUp(lvl, kids, c, m, ns, g), lvl)
    ensures SplitMisses(SplitUp(lvl, kids, c, m, ns, g), k)
  {
    var r := SplitUp(lvl, kids, c, m, ns, g);
    match m
    case SFail(_) =>
    case One(s, _) =>
      if r.One? {
        NodeMisses(r.t, k, n);
      }
    case Two(l, sep, rr, fr) =>
      var all := Widened(kids, c, l, sep, rr, g);
      var n' := if n > 0 && Rank(sep) <= Rank(k) then n + 1 else n;
      forall i | 0 <= i < |all|
        ensures i < n' ==> Rank(all[i].sep) <= Rank(k)
        ensures n' <= i ==> Rank(k) < Rank(all[i].sep)
      {
        WidenedAt(kids, c, l, sep, rr, g, i);
      }
      WidenedFirst(kids, c, l, sep, rr, g);
      if r.One? {
        NodeMisses(r.t, k, n');
      } else if r.Two? {
        HalvesMiss(lvl, all, |all| / 2, fr, ns, g, k, n');
      }
  }

  /** Below everything in a subtree means below the separator its split produces. */
  lemma {:induction false} SplitSepAbove(t: Tree, it: Item, fr: seq<Extent>, ns: nat, g: nat, lo: int, hi: int)
    requires Shape(t, LevelOf(t)) && Full(t) && Ordered(t, lo, hi) && Rank(it.k) < lo <= hi
    ensures var m := SplitRec(t, it, fr, ns, g); m.Two? ==> Rank(it.k) < Rank(m.sep)
    decreases t
  {
    if t.Leaf? {
      LeafSepAbove(t.items, it, fr, ns, g);
    } else {
      RoutedShape(t, it.k);
      RouteBracket(t, it.k, lo, hi);
      var c := RouteKid(t.kids, it.k);
      SplitSepAbove(t.kids[c].sub, it, fr, ns, g, Rank(t.kids[c].sep), Upper(t.kids, c, hi));
      SplitRecNode(t, it, fr, ns, g);
      SplitUpSepAbove(t.level, t.kids, c, SplitRec(t.kids[c].sub, it, fr, ns, g), ns, g, Rank(it.k));
    }
  }

  lemma {:induction false} LeafSepAbove(items: seq<Item>, it: Item, fr: seq<Extent>, ns: nat, g: nat)
    requires items != [] && forall i :: 0 <= i < |items| ==> Rank(it.k) < Rank(items[i].k)
    ensures var m := SplitAtLeaf(items, it, fr, ns, g); m.Two? ==> Rank(it.k) < Rank(m.sep)
  {
    var all := InsertSorted(items, it);
    SplitPosRange(all);
    assert InsertPos(items, it.k) == 0;
    assert all[SplitPos(all)] == items[SplitPos(all) - 1];
  }

  lemma {:induction false} SplitUpSepAbove(lvl: nat, kids: seq<Kid>, c: nat, m: Splitted, ns: nat, g: nat, x: int)
    requires c < |kids| && (m.Two? ==> x < Rank(m.sep))
    requires forall i :: 0 <= i < |kids| ==> x < Rank(kids[i].sep)
    ensures var r := SplitUp(lvl, kids, c, m, ns, g); r.Two? ==> x < Rank(r.sep)
  {
    if m.Two? {
      var all := Widened(kids, c, m.l, m.sep, m.r, g);
      WidenedLen(kids, c, m.l, m.sep, m.r, g);
      WidenedAt(kids, c, m.l, m.sep, m.r, g, |all| / 2);
    }
  }

  lemma {:induction false} SplitRecMisses(t: Tree, it: Item, fr: seq<Extent>, ns: nat, g: nat, lo: int, hi: int)
    requires Shape(t, LevelOf(t)) && Full(t) && Ordered(t, lo, hi) && Rank(it.k) < hi && !Covered(t, it.k)
    ensures SplitMisses(SplitRec(t, it, fr, ns, g), it.k)
    decreases t
  {
    RoutedShape(t, it.k);
    RouteBracket(t, it.k, lo, hi);
    var c, n := RouteKid(t.kids, it.k), Lead(Ptrs(t.kids), it.k);
    var s := t.kids[c].sub;
    var m := SplitRec(s, it, fr, ns, g);
    SplitRecNode(t, it, fr, ns, g);
    SplitRecShape(t, it, fr, ns, g);
    LeadBrackets(t.kids, it.k, lo, hi);
    if n == 0 {
      SplitSepAbove(s, it, fr, ns, g, Rank(t.kids[c].sep), Upper(t.kids, c, hi));
    } else {
      assert Rank(t.kids[0].sep) <= Rank(it.k);
      SplitRecMisses(s, it, fr, ns, g, Rank(t.kids[c].sep), Upper(t.kids, c, hi));
    }
    SplitUpMisses(t.level, t.kids, c, m, ns, g, it.k, n);
  }

  lemma {:induction false} LeadBrackets(ks: seq<Kid>, k: Key, lo: int, hi: int)
    requires SepsIn(ks, lo, hi)
    ensures Brackets(ks, k, Lead(Ptrs(ks), k))
  {
    LeadOf(ks, k);
    var n := Lead(Ptrs(ks), k);
    forall i | n <= i < |ks| ensures Rank(k) < Rank(ks[i].sep) {
      assert i == n || Rank(ks[n].sep) < Rank(ks[i].sep);
    }
  }

  lemma {:induction false} SplitTreeMisses(t: Tree, it: Item, fr: seq<Extent>, ns: nat, g: nat)
    requires WellFormed(t, ns) && !Covered(t, it.k) && SplitTree(t, it, fr, ns, g).Ok?
    ensures Misses(SplitTree(t, it, fr, ns, g).value.0, it.k)
  {
    hide SplitRec, SpineAddrs, FreeAll, Ordered, Fits, Full, Rank;
    var m := SplitRec(t, it, fr, ns, g);
    CompareIsRank(it.k, it.k);
    SplitRecMisses(t, it, fr, ns, g, 0, RANK_LIMIT);
    SplitRecShape(t, it, fr, ns, g);
    if m.Two? {
      var root := SplitTree(t, it, fr, ns, g).value.0;
      ShapeLevel(m.l, LevelOf(t));
      ShapeLevel(m.r, LevelOf(t));
      var f := root.kids[0].sep;
      if Rank(it.k) < Rank(f) {
        LeadKid(root.kids, it.k, 0);
      } else if Rank(it.k) < Rank(m.sep) {
        NodeMisses(root, it.k, 1);
      } else {
        NodeMisses(root, it.k, 2);
      }
    }
  }

  lemma {:induction false} MutateTopMisses(t: Tree, k: Key, data: seq<u8>, fr: seq<Extent>, ns: nat, g: nat)
    requires Shape(t, LevelOf(t)) && !Covered(t, k)
    ensures var r := MutateRec(t, Insert(k, data), true, fr, ns, g); r.MKeep? ==> Misses(r.t, k)
  {
    var op := Insert(k, data);
    var r := MutateRec(t, op, true, fr, ns, g);
    if r.MKeep? {
      RoutedShape(t, k);
      var c := RouteKid(t.kids, k);
      var s := t.kids[c].sub;
      InsertStep(t, k, data, true, fr, ns, g);
      MutateSubShape(s, op, fr, ns, g);
      var x := Kid(t.kids[c].sep, g, MutateRec(s, op, false, fr, ns, g).t);
      SearchReplaced(t.kids, c, x, k);
      LeadOf(t.kids, k);
      if Rank(t.kids[0].sep) <= Rank(k) {
        MutateMisses(s, k, data, fr, ns, g);
      }
    }
  }

  /** Whether the key just inserted can be found again: exactly when the route covered it, or
      the two-leaf merge rebuilt the tree. */
  lemma {:induction false} InsertThenSearch(t: Tree, k: Key, data: seq<u8>, fr: seq<Extent>, ns: nat, g: nat)
    requires WellFormed(t, ns) && Absent(Contents(t), k)
    requires ns >= NODE_HDR + 2 * PTR_SIZE && InsertTree(t, k, data, fr, ns, g).Ok?
    ensures var t' := InsertTree(t, k, data, fr, ns, g).value.0;
            && Shape(t', LevelOf(t'))
            && Search(t', k) == if Covered(t, k) || Absorbed(t, Item(k, data), ns) then Some(data) else None
  {
    hide MutateRec, SpineAddrs, FreeAll, SplitTree, Absorbed, Contents, Absent, Ordered, Fits, Full, Shape;
    InsertWellFormedIff(t, k, data, fr, ns, g);
    InsertTreeRefines(t, k, data, fr, ns, g);
    var t' := InsertTree(t, k, data, fr, ns, g).value.0;
    if Covered(t, k) || Absorbed(t, Item(k, data), ns) {
      SearchWellFormed(t', k, ns);
    } else if MutateTree(t, Insert(k, data), fr, ns, g).Ok? {
      AbsorbedCollapses(t, k, data, fr, ns, g);
      MutateTopMisses(t, k, data, fr, ns, g);
    } else {
      SplitTreeMisses(t, Item(k, data), fr, ns, g);
    }
  }

  // ---- uncovered keys exist -------------------------------------------------------------------------

  function ExampleItem(n: u64): Item {
    Item(Key(n, 1, 0), [7])
  }

  function ExampleKid(sep: u64, s: Tree): Kid {
    Kid(Key(sep, 1, 0), 1, s)
  }

  /** An inner node with one leaf of one item. */
  function ExampleNode(a: nat, sep: u64, n: u64): Tree {
    Node(a, 1, 1, [ExampleKid(sep, Leaf(a + 1000, 1, [ExampleItem(n)]))])
  }

  /** What deleting the only item under separator 5 of the first child leaves: the root keeps
      separator 5 although its first child now starts at 8. */
  function ExampleTree(): Tree {
    Node(1000, 1, 2, [ExampleKid(5, ExampleNode(2000, 8, 8)), ExampleKid(20, ExampleNode(4000, 20, 20))])
  }

  lemma {:induction false} ExampleNodeGood(a: nat, sep: u64, n: u64, lo: int, hi: int)
    requires lo <= Rank(Key(sep, 1, 0)) <= Rank(Key(n, 1, 0)) < hi
    ensures Good(ExampleNode(a, sep, n), 1, lo, hi, 500)
    ensures Contents(ExampleNode(a, sep, n)) == [ExampleItem(n)]
  {
    var l := Leaf(a + 1000, 1, [ExampleItem(n)]);
    DataSumOne(ExampleItem(n));
    assert Good(l, 0, Rank(Key(sep, 1, 0)), hi, 500);
    OneGood(ExampleKid(sep, l), 0, hi, 500);
    NodeGood(ExampleNode(a, sep, n), 1, Rank(Key(sep, 1, 0)), hi, 500);
    OrderedWiden(ExampleNode(a, sep, n), Rank(Key(sep, 1, 0)), hi, lo, hi);
    KidsContentsOne(ExampleKid(sep, l));
  }

  lemma {:induction false} ExampleWellFormed()
    ensures WellFormed(ExampleTree(), 500)
    ensures Contents(ExampleTree()) == [ExampleItem(8), ExampleItem(20)]
  {
    var p, q := ExampleNode(2000, 8, 8), ExampleNode(4000, 20, 20);
    var r5, r20 := Rank(Key(5, 1, 0)), Rank(Key(20, 1, 0));
    ExampleNodeGood(2000, 8, 8, r5, r20);
    ExampleNodeGood(4000, 20, 20, r20, RANK_LIMIT);
    var x, y := ExampleKid(5, p), ExampleKid(20, q);
    OneGood(x, 1, r20, 500);
    OneGood(y, 1, RANK_LIMIT, 500);
    JoinGood([x], [y], 1, r5, r20, RANK_LIMIT, 500);
    TwoParts([x, y]);
    NodeGood(ExampleTree(), 2, r5, RANK_LIMIT, 500);
    OrderedWiden(ExampleTree(), r5, RANK_LIMIT, 0, RANK_LIMIT);
    KidsContentsConcat([x], [y]);
    KidsContentsOne(x);
    KidsContentsOne(y);
  }

  /** A key in the gap between a node's separator and its first child's first separator. */
  lemma {:induction false} GapUncovered(t: Tree, p: Tree, k: Key)
    requires t.Node? && Shape(t, t.level) && |t.kids| == 2 && t.kids[0].sub == p && p.Node? && p.kids != []
    requires Rank(t.kids[0].sep) <= Rank(k) < Rank(t.kids[1].sep) && Rank(k) < Rank(p.kids[0].sep)
    ensures !Covered(t, k) && RouteKid(t.kids, k) == 0 && RouteKid(p.kids, k) == 0
  {
    RoutedShape(t, k);
    LeadKid(t.kids, k, 1);
    LeadKid(p.kids, k, 0);
  }

  lemma {:induction false} OneExtentFit(start: nat, size: nat, ns: nat)
    requires size > ns
    ensures FirstFit([Extent(start, size)], ns) == Granted(start, [Extent(start + ns, size - ns)])
  {
    var s := [Extent(start, size)];
    assert TakeFront(s, 0, ns) == [Extent(start + ns, size - ns)];
  }

  /** A two-level route with room in its leaf: three fresh blocks are all an insert needs. */
  lemma {:induction false} TwoLevelInsertSucceeds(t: Tree, p: Tree, l: Tree, k: Key, data: seq<u8>, start: nat,
                                                  size: nat, ns: nat, g: nat)
    requires t.Node? && t.level <= MAX_DEPTH && Shape(t, t.level) && t.kids != [] && RouteKid(t.kids, k) == 0
             && t.kids[0].sub == p
    requires p.Node? && p.kids != [] && RouteKid(p.kids, k) == 0 && p.kids[0].sub == l && l.Leaf?
    requires ns - NODE_HDR - LeafUse(l.items) >= ITEM_SIZE + |data| && size > 3 * ns
    ensures MutateTree(t, Insert(k, data), [Extent(start, size)], ns, g).Ok?
  {
    var op, fr := Insert(k, data), [Extent(start, size)];
    RoutedShape(t, k);
    RoutedShape(p, k);
    InsertedNonEmpty(l.items, Item(k, data));
    OneExtentFit(start, size, ns);
    var m0 := MutateRec(l, op, false, fr, ns, g);
    assert m0.MKeep? && m0.fr == [Extent(start + ns, size - ns)];
    OneExtentFit(start + ns, size - ns, ns);
    MutateRecNode(p, op, false, fr, ns, g);
    var m1 := MutateRec(p, op, false, fr, ns, g);
    assert m1.MKeep? && m1.fr == [Extent(start + ns + ns, size - ns - ns)];
    OneExtentFit(start + ns + ns, size - ns - ns, ns);
    MutateRecNode(t, op, true, fr, ns, g);
  }

  /** A key lost to searchTree although it is in the contents. */
  lemma {:induction false} UncoveredLost(t: Tree, k: Key, data: seq<u8>, fr: seq<Extent>, ns: nat, g: nat)
    requires WellFormed(t, ns) && Absent(Contents(t), k) && !Covered(t, k) && !Absorbed(t, Item(k, data), ns)
    requires ns >= NODE_HDR + 2 * PTR_SIZE && InsertTree(t, k, data, fr, ns, g).Ok?
    ensures var t' := InsertTree(t, k, data, fr, ns, g).value.0;
            Holds(Contents(t'), k) && Misses(t', k) && !WellFormed(t', ns)
  {
    InsertTreeRefines(t, k, data, fr, ns, g);
    InsertedHolds([], Contents(t), [], Item(k, data));
    NoSides(InsertSorted(Contents(t), Item(k, data)));
    InsertThenSearch(t, k, data, fr, ns, g);
    InsertWellFormedIff(t, k, data, fr, ns, g);
  }

  lemma {:induction false} ExampleRoute()
    ensures var t, k := ExampleTree(), Key(6, 1, 0);
            && t.Node? && |t.kids| == 2 && t.level == 2 && t.kids[0].sub.Node? && t.kids[0].sub.kids != []
            && t.kids[0].sub.kids[0].sub == Leaf(3000, 1, [ExampleItem(8)])
            && Rank(t.kids[0].sep) <= Rank(k) < Rank(t.kids[1].sep) && Rank(k) < Rank(t.kids[0].sub.kids[0].sep)
  {
  }

  lemma {:induction false} ExampleInsertSucceeds()
    ensures var t, k := ExampleTree(), Key(6, 1, 0);
            && Shape(t, LevelOf(t)) && !Covered(t, k)
            && MutateTree(t, Insert(k, [7]), [Extent(10000, 10000)], 500, 2).Ok?
  {
    var t, k := ExampleTree(), Key(6, 1, 0);
    ExampleWellFormed();
    ExampleRoute();
    var p := t.kids[0].sub;
    GapUncovered(t, p, k);
    DataSumOne(ExampleItem(8));
    TwoLevelInsertSucceeds(t, p, p.kids[0].sub, k, [7], 10000, 10000, 500, 2);
  }

  /** Inserting 6 into that tree succeeds, the contents hold it, and searchTree does not find it. */
  lemma {:induction false} UncoveredExample()
    ensures var t, k := ExampleTree(), Key(6, 1, 0);
            && WellFormed(t, 500) && Absent(Contents(t), k)
            && var r := InsertTree(t, k, [7], [Extent(10000, 10000)], 500, 2);
            r.Ok? && Holds(Contents(r.value.0), k) && Misses(r.value.0, k)
  {
    hide MutateTree, SplitTree, WellFormed, Covered, Contents, Misses, Holds, Shape;
    ExampleWellFormed();
    ExampleInsertSucceeds();
    UncoveredLost(ExampleTree(), Key(6, 1, 0), [7], [Extent(10000, 10000)], 500, 2);
  }
}
