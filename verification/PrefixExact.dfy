/** When the passes of cowDeletePrefix (btree_write.go) remove every match, as a condition on the
    tree before the first pass. Every pass restarts at the route of (objID, typ, 0). */
module PrefixExact {
  import opened Keys
  import opened FreeSpace
  import opened Trees
  import opened CowSpec
  import opened CowShape
  import opened CowMutate
  import opened CowTheorems
  import opened CowExact
  import opened SearchSpec
  import opened WalkSpec
  import opened PrefixPass

  // ---- the condition -------------------------------------------------------------------------------

  /** Some node on the route of k does not take its first child. */
  ghost predicate Turns(t: Tree, k: Key)
    requires Shape(t, LevelOf(t))
    decreases t
  {
    if t.Leaf? then false
    else
      RoutedShape(t, k);
      var c := RouteKid(t.kids, k);
      c > 0 || Turns(t.kids[c].sub, k)
  }

  /** The contents right of the largest subtree whose first leaf is the routed one. */
  ghost function Beyond(t: Tree, k: Key): seq<Item>
    requires Shape(t, LevelOf(t))
    decreases t
  {
    if t.Leaf? || !Turns(t, k) then []
    else
      RoutedShape(t, k);
      var c := RouteKid(t.kids, k);
      Beyond(t.kids[c].sub, k) + KidsContents(t.kids[c+1..])
  }

  /** The first pass leaves a root over two leaves that fit into one. */
  ghost predicate Merges(t: Tree, objID: u64, typ: u8, ns: nat)
    requires Shape(t, LevelOf(t))
  {
    var k := Key(objID, typ, 0);
    var s := WithoutPrefix(RouteItems(t, k), objID, typ);
    LevelOf(t) == 1 && |t.kids| == (if s == [] then 3 else 2) && LeafFits(LeftOf(t, k) + s + RightOf(t, k), ns)
  }

  /** There is no match; or the routed leaf has one and all matches are in that leaf, or the leaf is
      all matches and none lies beyond the subtree it opens, or the two-leaf merge brings the rest
      together. */
  ghost predicate Removable(t: Tree, objID: u64, typ: u8, ns: nat) {
    var k := Key(objID, typ, 0);
    || WithPrefix(Contents(t), objID, typ) == []
    || (&& Shape(t, LevelOf(t)) && WithPrefix(RouteItems(t, k), objID, typ) != []
        && (|| WithPrefix(RightOf(t, k), objID, typ) == []
            || (WithoutPrefix(RouteItems(t, k), objID, typ) == [] && WithPrefix(Beyond(t, k), objID, typ) == [])
            || Merges(t, objID, typ, ns)))
  }

  /** The two at a node, from its routed child. */
  lemma {:induction false} TurnParts(t: Tree, k: Key)
    requires t.Node? && Shape(t, LevelOf(t))
    ensures var c := RouteKid(t.kids, k);
            var s := t.kids[c].sub;
            && Shape(s, LevelOf(s)) && LevelOf(s) == t.level - 1
            && (Turns(t, k) <==> c > 0 || Turns(s, k))
            && Beyond(t, k) == if c > 0 || Turns(s, k) then Beyond(s, k) + KidsContents(t.kids[c+1..]) else []
  {
    hide Shape, KidsContents, RouteKid, Rank;
    RoutedShape(t, k);
  }

  lemma {:induction false} LeafParts(t: Tree, k: Key)
    requires t.Leaf?
    ensures !Turns(t, k) && Beyond(t, k) == [] && RouteItems(t, k) == t.items && RightOf(t, k) == []
  {
  }

  // ---- sorted neighbours of a match ------------------------------------------------------------------

  lemma {:induction false} SomeMatch(s: seq<Item>, objID: u64, typ: u8) returns (j: nat)
    requires WithPrefix(s, objID, typ) != []
    ensures j < |s| && HasPrefix(s[j].k, objID, typ)
  {
    if HasPrefix(s[|s|-1].k, objID, typ) {
      j := |s| - 1;
    } else {
      j := SomeMatch(s[..|s|-1], objID, typ);
    }
  }

  lemma {:induction false} AllMatch(s: seq<Item>, objID: u64, typ: u8)
    requires forall i :: 0 <= i < |s| ==> HasPrefix(s[i].k, objID, typ)
    ensures WithoutPrefix(s, objID, typ) == []
  {
    if s != [] {
      AllMatch(s[..|s|-1], objID, typ);
    }
  }

  /** Items after (objID, typ, 0) and before a match are matches. */
  lemma {:induction false} BeforeMatch(a: seq<Item>, b: seq<Item>, objID: u64, typ: u8, lo: int, hi: int)
    requires ItemsIn(a + b, lo, hi) && AllAbove(Rank(Key(objID, typ, 0)), a) && WithPrefix(b, objID, typ) != []
    ensures WithoutPrefix(a, objID, typ) == []
  {
    var j := SomeMatch(b, objID, typ);
    forall i | 0 <= i < |a| ensures HasPrefix(a[i].k, objID, typ) {
      assert (a + b)[i] == a[i] && (a + b)[|a| + j] == b[j];
      PrefixIsInterval(b[j].k, objID, typ);
      PrefixIsInterval(a[i].k, objID, typ);
    }
    AllMatch(a, objID, typ);
  }

  /** If there is a match in a + b, the first part has one. */
  lemma {:induction false} FirstPartMatches(a: seq<Item>, b: seq<Item>, objID: u64, typ: u8, lo: int, hi: int)
    requires ItemsIn(a + b, lo, hi) && AllAbove(Rank(Key(objID, typ, 0)), a) && a != []
             && WithPrefix(a + b, objID, typ) != []
    ensures WithPrefix(a, objID, typ) != []
  {
    WithPrefixConcat(a, b, objID, typ);
    PrefixSplit(a, objID, typ);
    if WithPrefix(a, objID, typ) == [] {
      BeforeMatch(a, b, objID, typ, lo, hi);
    }
  }

  lemma {:induction false} BeyondInRight(t: Tree, objID: u64, typ: u8)
    requires Shape(t, LevelOf(t)) && WithPrefix(RightOf(t, Key(objID, typ, 0)), objID, typ) == []
    ensures WithPrefix(Beyond(t, Key(objID, typ, 0)), objID, typ) == []
    decreases t
  {
    if t.Node? {
      var k := Key(objID, typ, 0);
      RouteParts(t, k);
      var c := RouteKid(t.kids, k);
      var s, r := t.kids[c].sub, KidsContents(t.kids[c+1..]);
      WithPrefixConcat(RightOf(s, k), r, objID, typ);
      BeyondInRight(s, objID, typ);
      WithPrefixConcat(Beyond(s, k), r, objID, typ);
    }
  }

  // ---- where the route goes after a pass that empties the routed leaf -----------------------------------

  /** The next pass is routed to a leaf left of k, and nothing else of the matches was beyond. */
  ghost predicate WentLeft(t: Tree, t': Tree, k: Key)
    requires Shape(t, LevelOf(t)) && Shape(t', LevelOf(t'))
  {
    Turns(t, k) && Beyond(t, k) == RightOf(t, k) && AllBelow(RouteItems(t', k), Rank(k))
  }

  /** The next pass is routed to the next leaf, with the same items beyond. That leaf opens a tree of
      one or two levels. */
  ghost predicate WentRight(t: Tree, t': Tree, k: Key)
    requires Shape(t, LevelOf(t)) && Shape(t', LevelOf(t'))
  {
    && RouteItems(t', k) != [] && RouteItems(t', k) + RightOf(t', k) == RightOf(t, k)
    && Beyond(t', k) == Beyond(t, k) && (Turns(t', k) <==> Turns(t, k)) && (LevelOf(t') <= 1 ==> !Turns(t', k))
  }

  /** A key below a whole subtree is routed to its first leaf. */
  lemma {:induction false} BelowOpens(t: Tree, k: Key, lo: int, hi: int, ns: nat)
    requires Good(t, LevelOf(t), lo, hi, ns) && Rank(k) < lo <= hi
    ensures !Turns(t, k) && Beyond(t, k) == [] && RouteItems(t, k) != []
            && Contents(t) == RouteItems(t, k) + RightOf(t, k)
    decreases t
  {
    hide Shape, Turns, Beyond, RightOf, LeftOf, RouteItems, Contents, Ordered, Fits, KidsContents, RouteKid, Rank;
    RouteContents(t, k);
    RouteLeft(t, k, lo, hi);
    if t.Node? {
      NodeGood(t, t.level, lo, hi, ns);
      RouteParts(t, k);
      TurnParts(t, k);
      var c := RouteKid(t.kids, k);
      KidsGoodAt(t.kids, t.level - 1, lo, hi, ns, c);
      assert c == 0;
      BelowOpens(t.kids[0].sub, k, Rank(t.kids[0].sep), Upper(t.kids, 0, hi), ns);
    } else {
      LeafParts(t, k);
    }
  }

  /** The child left of a dropped one takes the route over. */
  lemma {:induction false} RouteAfterDrop(ks: seq<Kid>, k: Key, lo: int, hi: int)
    requires SepsIn(ks, lo, hi) && |ks| > 1
    ensures var c := RouteKid(ks, k);
            RouteKid(ks[..c] + ks[c+1..], k) == if c == 0 then 0 else c - 1
  {
    hide Rank;
    var c := RouteKid(ks, k);
    var rest := ks[..c] + ks[c+1..];
    assert forall i :: 0 <= i < |rest| ==> rest[i] == ks[if i < c then i else i + 1];
    assert Rank(ks[0].sep) < Rank(ks[1].sep);
    LeadKid(rest, k, c);
  }

  lemma {:induction false} NoTurn(t: Tree, k: Key)
    requires Shape(t, LevelOf(t)) && !Turns(t, k)
    ensures Beyond(t, k) == []
  {
  }

  /** Everything a tree routes to is part of its contents. */
  lemma {:induction false} RoutedBelow(t: Tree, k: Key)
    requires Shape(t, LevelOf(t)) && AllBelow(Contents(t), Rank(k))
    ensures AllBelow(RouteItems(t, k), Rank(k))
  {
    RouteContents(t, k);
    var l, s, r := LeftOf(t, k), RouteItems(t, k), RightOf(t, k);
    forall i | 0 <= i < |s| ensures Rank(s[i].k) < Rank(k) {
      assert (l + s + r)[|l| + i] == s[i];
    }
  }

  lemma {:induction false} KidBelow(ks: seq<Kid>, i: nat, r: int)
    requires i < |ks| && AllBelow(KidsContents(ks), r)
    ensures AllBelow(Contents(ks[i].sub), r)
  {
    KidsContentsAt(ks, i);
    var p, s, q := KidsContents(ks[..i]), Contents(ks[i].sub), KidsContents(ks[i+1..]);
    forall j | 0 <= j < |s| ensures Rank(s[j].k) < r {
      assert (p + s + q)[|p| + j] == s[j];
    }
  }

  /** t lost its routed child, which was not the first: rest is what is left of its children. */
  lemma {:induction false} DroppedLeft(t: Tree, t': Tree, k: Key, lo: int, hi: int, ns: nat)
    requires t.Node? && Good(t, t.level, lo, hi, ns) && Rank(k) < hi && Good(t', LevelOf(t'), lo, hi, ns)
    requires var c := RouteKid(t.kids, k);
             var s := t.kids[c].sub;
             && c > 0 && Shape(s, LevelOf(s)) && RightOf(s, k) == [] && !Turns(s, k)
             && (|| (t'.Node? && t'.kids == t.kids[..c] + t.kids[c+1..])
                 || (t.kids[..c] + t.kids[c+1..] == [t.kids[0]] && t' == t.kids[0].sub))
    ensures WentLeft(t, t', k)
  {
    hide Shape, Turns, Beyond, RightOf, LeftOf, RouteItems, Contents, Ordered, Fits, Full, KidsContents, RouteKid, Rank;
    var ks, c := t.kids, RouteKid(t.kids, k);
    RouteParts(t, k);
    TurnParts(t, k);
    assert [] + KidsContents(ks[c+1..]) == KidsContents(ks[c+1..]);
    NoTurn(ks[c].sub, k);
    RouteBracket(t, k, lo, hi);
    SidesOfKid(ks, c, lo, hi);
    if t'.Node? && t'.kids == ks[..c] + ks[c+1..] {
      RouteAfterDrop(ks, k, lo, hi);
      RouteParts(t', k);
      assert t'.kids[c-1] == ks[..c][c-1];
      KidBelow(ks[..c], c - 1, Rank(k));
      RoutedBelow(t'.kids[c-1].sub, k);
    } else {
      KidBelow(ks[..c], 0, Rank(k));
      RoutedBelow(t', k);
    }
  }

  /** t lost its routed child, which was the first. */
  lemma {:induction false} DroppedFirst(t: Tree, t': Tree, k: Key, lo: int, hi: int, ns: nat)
    requires t.Node? && Good(t, t.level, lo, hi, ns) && Rank(k) < hi && |t.kids| > 1
    requires var s := t.kids[0].sub;
             RouteKid(t.kids, k) == 0 && Shape(s, LevelOf(s)) && RightOf(s, k) == [] && !Turns(s, k)
    requires Good(t', LevelOf(t'), Rank(t.kids[1].sep), hi, ns) && Contents(t') == KidsContents(t.kids[1..])
    ensures WentRight(t, t', k)
  {
    hide Shape, Turns, Beyond, RightOf, LeftOf, RouteItems, Contents, Ordered, Fits, Full, KidsContents, RouteKid, Rank;
    RouteParts(t, k);
    TurnParts(t, k);
    RouteBracket(t, k, lo, hi);
    NodeGood(t, t.level, lo, hi, ns);
    KidsGoodAt(t.kids, t.level - 1, lo, hi, ns, 1);
    BelowOpens(t', k, Rank(t.kids[1].sep), hi, ns);
    assert [] + KidsContents(t.kids[1..]) == KidsContents(t.kids[1..]);
  }

  lemma {:induction false} SameRoute(ks: seq<Kid>, c: nat, x: Kid, k: Key)
    requires c < |ks| && x.sep == ks[c].sep
    ensures RouteKid(ks[c := x], k) == RouteKid(ks, k)
  {
    SearchReplaced(ks, c, x, k);
  }

  /** The routed child of t was replaced. */
  lemma {:induction false} WentUp(t: Tree, t': Tree, s': Tree, k: Key, g: nat)
    requires t.Node? && Shape(t, LevelOf(t)) && t'.Node? && t'.level == t.level && Shape(s', t.level - 1)
    requires Shape(s', LevelOf(s'))
    requires var c := RouteKid(t.kids, k);
             var s := t.kids[c].sub;
             && t'.kids == t.kids[c := Kid(t.kids[c].sep, g, s')]
             && Shape(s, LevelOf(s)) && (WentLeft(s, s', k) || WentRight(s, s', k))
    ensures Shape(t', LevelOf(t')) && (WentLeft(t, t', k) || WentRight(t, t', k))
  {
    hide Shape, Turns, Beyond, RightOf, LeftOf, RouteItems, Contents, KidsContents, AllBelow, Rank, RouteKid;
    var c := RouteKid(t.kids, k);
    var s, q := t.kids[c].sub, KidsContents(t.kids[c+1..]);
    if s.Leaf? {
      LeafParts(s, k);
    } else {
      RoutedShape(s, k);
    }
    ReplacedRoute(t, t', s', k, g);
    SameRoute(t.kids, c, Kid(t.kids[c].sep, g, s'), k);
    RouteParts(t, k);
    RouteParts(t', k);
    TurnParts(t, k);
    TurnParts(t', k);
    assert t'.kids[c+1..] == t.kids[c+1..];
    assert RouteItems(s', k) + (RightOf(s', k) + q) == (RouteItems(s', k) + RightOf(s', k)) + q;
  }

  /** What is left right of the first child, within its own bounds. */
  lemma {:induction false} RestGood(t: Tree, t': Tree, lo: int, hi: int, ns: nat)
    requires t.Node? && Good(t, t.level, lo, hi, ns) && |t.kids| > 1
    requires || (t'.Node? && t'.level == t.level && t'.kids == t.kids[1..])
             || (|t.kids| == 2 && t' == t.kids[1].sub)
    ensures Good(t', LevelOf(t'), Rank(t.kids[1].sep), hi, ns) && Contents(t') == KidsContents(t.kids[1..])
  {
    hide Rank, Shape, Ordered, Fits, Full, KidsContents;
    NodeGood(t, t.level, lo, hi, ns);
    if t'.Node? && t'.level == t.level && t'.kids == t.kids[1..] {
      SliceGood(t.kids, t.level - 1, lo, hi, ns, 1, |t.kids|);
      assert t.kids[1..|t.kids|] == t.kids[1..];
      FewerFit(|t.kids| - 1, |t.kids|, ns);
      NodeGood(t', t.level, Rank(t.kids[1].sep), hi, ns);
    } else {
      KidsGoodAt(t.kids, t.level - 1, lo, hi, ns, 1);
      GoodLevel(t', t.level - 1, Rank(t.kids[1].sep), hi, ns);
      assert t.kids[1..] == [t.kids[1]];
      KidsContentsOne(t.kids[1]);
    }
  }

  lemma {:induction false} GoodLevel(t: Tree, lvl: nat, lo: int, hi: int, ns: nat)
    requires Good(t, lvl, lo, hi, ns)
    ensures LevelOf(t) == lvl
  {
    ShapeLevel(t, lvl);
  }

  lemma {:induction false} FewerFit(m: nat, n: nat, ns: nat)
    requires m <= n && NodeFits(n, ns)
    ensures NodeFits(m, ns)
  {
  }

  /** A node whose routed child was dropped. */
  lemma {:induction false} DropUpRoutes(t: Tree, k: Key, top: bool, fr: seq<Extent>, ns: nat, g: nat, lo: int, hi: int)
    requires t.Node? && Good(t, t.level, lo, hi, ns) && Rank(k) < hi
    requires var c := RouteKid(t.kids, k);
             var s := t.kids[c].sub;
             && Shape(s, LevelOf(s)) && RightOf(s, k) == [] && !Turns(s, k)
             && var r := MutateUp(t.level, t.kids, c, MDrop, top, fr, ns, g);
                r.MKeep? && Contents(r.t) != [] && Good(r.t, LevelOf(r.t), lo, hi, ns)
    ensures var r := MutateUp(t.level, t.kids, RouteKid(t.kids, k), MDrop, top, fr, ns, g);
            WentLeft(t, r.t, k) || WentRight(t, r.t, k)
  {
    hide Rank, Shape, Ordered, Fits, Full, Turns, Beyond, RightOf, RouteItems, RouteKid, FirstFit, WentLeft, WentRight;
    var c := RouteKid(t.kids, k);
    var r := MutateUp(t.level, t.kids, c, MDrop, top, fr, ns, g);
    var rest := t.kids[..c] + t.kids[c+1..];
    if c > 0 {
      assert |rest| == 1 ==> rest == [t.kids[0]];
      DroppedLeft(t, r.t, k, lo, hi, ns);
    } else {
      assert rest == t.kids[1..];
      RestGood(t, r.t, lo, hi, ns);
      DroppedFirst(t, r.t, k, lo, hi, ns);
    }
  }

  lemma {:induction false} RoutedChild(t: Tree, k: Key, lo: int, hi: int, ns: nat)
    requires t.Node? && Good(t, t.level, lo, hi, ns) && Rank(k) < hi
    ensures var c := RouteKid(t.kids, k);
            var s := t.kids[c].sub;
            Good(s, LevelOf(s), Rank(t.kids[c].sep), Upper(t.kids, c, hi), ns) && LevelOf(s) == t.level - 1
                && Rank(k) < Upper(t.kids, c, hi)
  {
    hide Rank, Ordered, Fits, Full;
    NodeGood(t, t.level, lo, hi, ns);
    RoutedShape(t, k);
    KidsGoodAt(t.kids, t.level - 1, lo, hi, ns, RouteKid(t.kids, k));
    RouteBracket(t, k, lo, hi);
  }

  lemma {:induction false} DropRoutes(t: Tree, op: LeafOp, top: bool, fr: seq<Extent>, ns: nat, g: nat, lo: int,
                                      hi: int)
    requires Good(t, LevelOf(t), lo, hi, ns) && op.DeletePrefix? && Rank(RouteKey(op)) < hi && (top ==> t.Node?)
    requires ApplyLeaf(op, RouteItems(t, RouteKey(op)), ns) == Ok([])
    ensures var r, k := MutateRec(t, op, top, fr, ns, g), RouteKey(op);
            && (r.MDrop? ==> !Turns(t, k))
            && (r.MKeep? && Contents(r.t) != [] ==>
                  Good(r.t, LevelOf(r.t), lo, hi, ns) && (WentLeft(t, r.t, k) || WentRight(t, r.t, k)))
    decreases t
  {
    if t.Node? {
      hide Rank, Shape, Ordered, Fits, Full, Turns, Beyond, RightOf, RouteItems, RouteKid, Contents, MutateRec,
           MutateUp, ApplyLeaf, WentLeft, WentRight, LevelOf;
      var k := RouteKey(op);
      var c := RouteKid(t.kids, k);
      var s := t.kids[c].sub;
      RoutedChild(t, k, lo, hi, ns);
      RouteParts(t, k);
      TurnParts(t, k);
      DropRoutes(s, op, false, fr, ns, g, Rank(t.kids[c].sep), Upper(t.kids, c, hi));
      MutateContents(s, op, false, fr, ns, g);
      MutateGood(s, op, fr, ns, g, Rank(t.kids[c].sep), Upper(t.kids, c, hi));
      MutateRecNode(t, op, top, fr, ns, g);
      DropUp(t, MutateRec(s, op, false, fr, ns, g), k, top, fr, ns, g, lo, hi);
    }
  }

  /** One level up, whatever became of the routed child. */
  lemma {:induction false} DropUp(t: Tree, m: Mutated, k: Key, top: bool, fr: seq<Extent>, ns: nat, g: nat, lo: int,
                                  hi: int)
    requires t.Node? && Good(t, t.level, lo, hi, ns) && Rank(k) < hi
    requires var c := RouteKid(t.kids, k);
             var s := t.kids[c].sub;
             && Shape(s, LevelOf(s)) && LevelOf(s) == t.level - 1
             && (m.MDrop? ==> !Turns(s, k) && RightOf(s, k) == [])
             && (m.MKeep? ==> Good(m.t, LevelOf(s), Rank(t.kids[c].sep), Upper(t.kids, c, hi), ns))
             && (m.MKeep? && Contents(m.t) != [] ==>
                   Good(m.t, LevelOf(m.t), Rank(t.kids[c].sep), Upper(t.kids, c, hi), ns)
                       && (WentLeft(s, m.t, k) || WentRight(s, m.t, k)))
    ensures var r := MutateUp(t.level, t.kids, RouteKid(t.kids, k), m, top, fr, ns, g);
            && (r.MDrop? ==> m.MDrop? && |t.kids| == 1)
            && (r.MKeep? && Contents(r.t) != [] ==>
                  Good(r.t, LevelOf(r.t), lo, hi, ns) && (WentLeft(t, r.t, k) || WentRight(t, r.t, k)))
  {
    hide Rank, Shape, Ordered, Fits, Full, Turns, Beyond, RightOf, RouteItems, RouteKid, Contents, FirstFit, WentLeft,
         WentRight, SepsIn, Upper;
    var c := RouteKid(t.kids, k);
    var r := MutateUp(t.level, t.kids, c, m, top, fr, ns, g);
    NodeGood(t, t.level, lo, hi, ns);
    MutateUpGood(t.level, t.kids, c, m, top, fr, ns, g, lo, hi);
    if r.MKeep? && Contents(r.t) != [] {
      ShapeLevel(r.t, if r.shrunk then t.level - 1 else t.level);
      if m.MDrop? {
        DropUpRoutes(t, k, top, fr, ns, g, lo, hi);
      } else {
        FullNonEmpty(m.t, t.level - 1);
        WentUp(t, r.t, m.t, k, g);
      }
    }
  }

  // ---- the merge at the end of a pass -------------------------------------------------------------------

  /** The root after a pass is a node over two leaves exactly when the level and the number of leaves
      before the pass say so. */
  lemma {:induction false} TwoLeavesAfter(t: Tree, op: LeafOp, fr: seq<Extent>, ns: nat, g: nat)
    requires t.Node? && Shape(t, LevelOf(t)) && MutateRec(t, op, true, fr, ns, g).MKeep?
    requires ApplyLeaf(op, RouteItems(t, RouteKey(op)), ns).Ok?
    ensures var m := MutateRec(t, op, true, fr, ns, g);
            !m.shrunk && TwoLeafRoot(m.t) <==>
              t.level == 1 && |t.kids| == if ApplyLeaf(op, RouteItems(t, RouteKey(op)), ns).value == [] then 3 else 2
  {
    hide Rank, ApplyLeaf, RouteKid, FirstFit;
    var k := RouteKey(op);
    var c := RouteKid(t.kids, k);
    var s := t.kids[c].sub;
    RouteParts(t, k);
    RoutedShape(t, k);
    MutateRecNode(t, op, true, fr, ns, g);
    if t.level == 1 {
      assert forall i :: 0 <= i < |t.kids| ==> Shape(t.kids[i].sub, 0) && t.kids[i].sub.Leaf?;
      assert MutateRec(s, op, false, fr, ns, g) == MutateLeaf(op, s.items, false, fr, ns, g);
    }
  }

  /** What the merge makes of the tree that a pass has rewritten. */
  lemma {:induction false} MergeHappens(t: Tree, objID: u64, typ: u8, fr: seq<Extent>, ns: nat, g: nat)
    requires WellFormed(t, ns) && t.Node? && MutateTree(t, DeletePrefix(objID, typ), fr, ns, g).Ok?
    ensures var op, k := DeletePrefix(objID, typ), Key(objID, typ, 0);
            var m, t' := MutateRec(t, op, true, fr, ns, g), MutateTree(t, op, fr, ns, g).value.0;
            && m.MKeep? && ApplyLeaf(op, RouteItems(t, k), ns) == Ok(WithoutPrefix(RouteItems(t, k), objID, typ))
            && Contents(m.t) == LeftOf(t, k) + WithoutPrefix(RouteItems(t, k), objID, typ) + RightOf(t, k)
            && Contents(t') == Contents(m.t)
            && (if Merges(t, objID, typ, ns) then t'.Leaf? else t' == m.t)
  {
    hide Rank, Shape, Ordered, Fits, Full, RightOf, LeftOf, RouteItems, Contents, MutateRec, FirstFit, FreeAll,
         SpineAddrs, LeafFits, WithoutPrefix;
    var op, k := DeletePrefix(objID, typ), Key(objID, typ, 0);
    var m := MutateRec(t, op, true, fr, ns, g);
    MutateContents(t, op, true, fr, ns, g);
    TwoLeavesAfter(t, op, fr, ns, g);
    CollapseFindsRoom(t, k, m.fr, ns);
    CollapseKeeps(m.t, FreeAll(m.fr, SpineAddrs(t, k), ns), ns, g);
    if TwoLeafRoot(m.t) {
      TwoLeafContents(m.t);
    }
  }

  // ---- a pass keeps the condition ---------------------------------------------------------------------------

  lemma {:induction false} LeafRemovable(t: Tree, objID: u64, typ: u8, ns: nat)
    requires t.Leaf?
    ensures Removable(t, objID, typ, ns)
  {
  }

  lemma {:induction false} StuckNotRemovable(t: Tree, objID: u64, typ: u8, ns: nat)
    requires Shape(t, LevelOf(t)) && WithPrefix(RouteItems(t, Key(objID, typ, 0)), objID, typ) == []
    requires WithPrefix(Contents(t), objID, typ) != []
    ensures !Removable(t, objID, typ, ns)
  {
  }

  /** The routed leaf keeps items and matches lie right of it: without the merge, the next pass finds
      none in its leaf. */
  lemma {:induction false} KeptIsStuck(t: Tree, objID: u64, typ: u8, fr: seq<Extent>, ns: nat, g: nat)
    requires WellFormed(t, ns) && t.Node? && MutateTree(t, DeletePrefix(objID, typ), fr, ns, g).Ok?
    requires WithoutPrefix(RouteItems(t, Key(objID, typ, 0)), objID, typ) != []
    requires WithPrefix(RightOf(t, Key(objID, typ, 0)), objID, typ) != [] && !Merges(t, objID, typ, ns)
    ensures !Removable(MutateTree(t, DeletePrefix(objID, typ), fr, ns, g).value.0, objID, typ, ns)
  {
    hide Rank, Shape, Ordered, Fits, Full, RightOf, LeftOf, RouteItems, Contents, MutateRec, MutateTree, WithoutPrefix,
         WithPrefix, Merges, Removable;
    var op, k := DeletePrefix(objID, typ), Key(objID, typ, 0);
    var m := MutateRec(t, op, true, fr, ns, g);
    var s := WithoutPrefix(RouteItems(t, k), objID, typ);
    MergeHappens(t, objID, typ, fr, ns, g);
    RouteStays(t, op, true, fr, ns, g);
    FilteredNone(RouteItems(t, k), objID, typ);
    WithPrefixConcat(LeftOf(t, k) + s, RightOf(t, k), objID, typ);
    StuckNotRemovable(m.t, objID, typ, ns);
  }

  /** The next pass is at the next leaf: the condition is about the same items beyond. */
  lemma {:induction false} RightRemovableIff(t: Tree, t': Tree, objID: u64, typ: u8, ns: nat)
    requires WellFormed(t, ns) && Shape(t', LevelOf(t')) && WentRight(t, t', Key(objID, typ, 0))
    requires WithPrefix(RightOf(t, Key(objID, typ, 0)), objID, typ) != [] && WithPrefix(Contents(t'), objID, typ) != []
    ensures Removable(t', objID, typ, ns) <==> WithPrefix(Beyond(t, Key(objID, typ, 0)), objID, typ) == []
  {
    hide Rank, Shape, Ordered, Fits, Full, RightOf, LeftOf, RouteItems, Contents, WithoutPrefix, WithPrefix, Beyond,
         Turns, LeafFits;
    var k := Key(objID, typ, 0);
    var a, b := RouteItems(t', k), RightOf(t', k);
    RoutedLeaf(t, k, ns);
    var l := LeftOf(t, k) + RouteItems(t, k);
    SuffixIn(l, a + b, 0, RANK_LIMIT);
    PrefixAbove(Rank(k), a, b);
    FirstPartMatches(a, b, objID, typ, 0, RANK_LIMIT);
    if WithPrefix(b, objID, typ) == [] {
      BeyondInRight(t', objID, typ);
    } else {
      BeforeMatch(a, b, objID, typ, 0, RANK_LIMIT);
    }
    if LevelOf(t') == 1 {
      NoTurn(t', k);
      NoneInNone(objID, typ);
    }
  }

  lemma {:induction false} NoneInNone(objID: u64, typ: u8)
    ensures WithPrefix([], objID, typ) == []
  {
  }

  lemma {:induction false} SuffixIn(a: seq<Item>, b: seq<Item>, lo: int, hi: int)
    requires ItemsIn(a + b, lo, hi)
    ensures ItemsIn(b, lo, hi)
  {
    forall i | 0 <= i < |b| ensures b[i] == (a + b)[|a| + i] {
    }
  }

  lemma {:induction false} PrefixAbove(r: int, a: seq<Item>, b: seq<Item>)
    requires AllAbove(r, a + b)
    ensures AllAbove(r, a)
  {
    forall i | 0 <= i < |a| ensures a[i] == (a + b)[i] {
    }
  }

  /** The routed leaf is all matches, and more lie right of it. */
  lemma {:induction false} DroppedRemovableIff(t: Tree, objID: u64, typ: u8, fr: seq<Extent>, ns: nat, g: nat)
    requires WellFormed(t, ns) && t.Node? && MutateTree(t, DeletePrefix(objID, typ), fr, ns, g).Ok?
    requires WithoutPrefix(RouteItems(t, Key(objID, typ, 0)), objID, typ) == []
    requires WithPrefix(RightOf(t, Key(objID, typ, 0)), objID, typ) != [] && !Merges(t, objID, typ, ns)
    ensures Removable(MutateTree(t, DeletePrefix(objID, typ), fr, ns, g).value.0, objID, typ, ns) <==>
            WithPrefix(Beyond(t, Key(objID, typ, 0)), objID, typ) == []
  {
    hide Rank, Ordered, Fits, RightOf, LeftOf, RouteItems, Contents, MutateRec, MutateTree, WithoutPrefix, WithPrefix,
         Merges, Removable, Beyond, Turns, WentRight;
    var op, k := DeletePrefix(objID, typ), Key(objID, typ, 0);
    var m := MutateRec(t, op, true, fr, ns, g);
    MergeHappens(t, objID, typ, fr, ns, g);
    WithPrefixConcat(LeftOf(t, k) + [], RightOf(t, k), objID, typ);
    NoneInNone(objID, typ);
    RankBelow(k);
    DropRoutes(t, op, true, fr, ns, g, 0, RANK_LIMIT);
    if WentLeft(t, m.t, k) {
      BelowNone(RouteItems(m.t, k), objID, typ);
      StuckNotRemovable(m.t, objID, typ, ns);
    } else {
      RightRemovableIff(t, m.t, objID, typ, ns);
    }
  }

  lemma {:induction false} RankBelow(k: Key)
    ensures 0 <= Rank(k) < RANK_LIMIT
  {
    CompareIsRank(k, k);
  }

  /** A successful pass neither repairs nor spoils the condition. */
  lemma {:induction false} PassKeepsRemovable(t: Tree, objID: u64, typ: u8, fr: seq<Extent>, ns: nat, g: nat)
    requires WellFormed(t, ns) && MutateTree(t, DeletePrefix(objID, typ), fr, ns, g).Ok?
    ensures Removable(t, objID, typ, ns) <==>
            Removable(MutateTree(t, DeletePrefix(objID, typ), fr, ns, g).value.0, objID, typ, ns)
  {
    hide Rank, Shape, Ordered, Fits, Full, RightOf, LeftOf, RouteItems, Contents, MutateRec, WithoutPrefix, WithPrefix,
         Merges, Beyond;
    var op, k := DeletePrefix(objID, typ), Key(objID, typ, 0);
    PassStuckIff(t, objID, typ, fr, ns, g);
    if WithPrefix(RightOf(t, k), objID, typ) == [] {
      OnePassSuffices(t, objID, typ, fr, ns, g);
      FilteredNone(Contents(t), objID, typ);
    } else if t.Leaf? {
      LeafParts(t, k);
      NoneInNone(objID, typ);
    } else {
      RouteContents(t, k);
      WithPrefixConcat(LeftOf(t, k) + RouteItems(t, k), RightOf(t, k), objID, typ);
      MergeHappens(t, objID, typ, fr, ns, g);
      if Merges(t, objID, typ, ns) {
        LeafRemovable(MutateTree(t, op, fr, ns, g).value.0, objID, typ, ns);
      } else if WithoutPrefix(RouteItems(t, k), objID, typ) != [] {
        KeptIsStuck(t, objID, typ, fr, ns, g);
      } else {
        DroppedRemovableIff(t, objID, typ, fr, ns, g);
      }
    }
  }

  /** The documented claim that matches spanning several leaves are all removed: when the routed leaf
      keeps an item and matches remain to its right, the next pass is stuck exactly when the two-leaf
      merge does not bring them together. */
  lemma {:induction false} SpanStuck(t: Tree, objID: u64, typ: u8, fr: seq<Extent>, ns: nat, g: nat, fr2: seq<Extent>,
                                     g2: nat)
    requires WellFormed(t, ns) && MutateTree(t, DeletePrefix(objID, typ), fr, ns, g).Ok?
    requires WithoutPrefix(RouteItems(t, Key(objID, typ, 0)), objID, typ) != []
    requires WithPrefix(RightOf(t, Key(objID, typ, 0)), objID, typ) != []
    ensures var t' := MutateTree(t, DeletePrefix(objID, typ), fr, ns, g).value.0;
            && WithPrefix(Contents(t'), objID, typ) != [] && Shape(t', LevelOf(t'))
            && (MutateTree(t', DeletePrefix(objID, typ), fr2, ns, g2) == Err(Missing) <==> !Merges(t, objID, typ, ns))
  {
    hide Rank, Shape, Ordered, Fits, Full, RightOf, LeftOf, RouteItems, Contents, MutateRec, WithoutPrefix, WithPrefix,
         Merges, Removable;
    var op, k := DeletePrefix(objID, typ), Key(objID, typ, 0);
    var m, t' := MutateRec(t, op, true, fr, ns, g), MutateTree(t, op, fr, ns, g).value.0;
    if t.Leaf? {
      LeafParts(t, k);
      NoneInNone(objID, typ);
    }
    MergeHappens(t, objID, typ, fr, ns, g);
    RouteStays(t, op, true, fr, ns, g);
    FilteredNone(RouteItems(t, k), objID, typ);
    WithPrefixConcat(LeftOf(t, k) + WithoutPrefix(RouteItems(t, k), objID, typ), RightOf(t, k), objID, typ);
    if Merges(t, objID, typ, ns) {
      LeafRoute(t', k);
    }
    PassStuckIff(t', objID, typ, fr2, ns, g2);
  }

  lemma {:induction false} LeafRoute(t: Tree, k: Key)
    requires t.Leaf?
    ensures Shape(t, LevelOf(t)) && LevelOf(t) == 0 && RouteItems(t, k) == Contents(t)
  {
  }
}
