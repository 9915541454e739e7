/** searchTree, walkPrefixLeaves / collectPrefixItems (btree.go) and findLeafContainingPrefix
    (btree_write.go) on the device. */
module TreeWalk {
  import opened Keys
  import opened FreeSpace
  import opened Trees
  import opened CowSpec
  import opened CowMutate
  import opened CowExact
  import opened SearchSpec
  import opened CowEngine
  import opened WalkSpec

  // ---- searchTree --------------------------------------------------------------------------------

  /** searchTree's scan of one inner node: the child of the rightmost leading separator at most
      k, or 0. */
  method ChooseExact(ps: seq<Ptr>, k: Key) returns (chosen: nat)
    ensures chosen == if Lead(ps, k) == 0 then 0 else ps[Lead(ps, k) - 1].child
  {
    chosen := 0;
    var i := 0;
    while i < |ps|
      invariant 0 <= i <= |ps|
      invariant chosen == if i == 0 then 0 else ps[i-1].child
      invariant forall j :: 0 <= j < i ==> Rank(ps[j].k) <= Rank(k)
    {
      CompareIsRank(ps[i].k, k);
      if CompareKeys(ps[i].k, k.objID, k.typ, k.offset) > 0 {
        break;
      }
      chosen := ps[i].child;
      i := i + 1;
    }
    assert Lead(ps, k) == i;
  }

  method FindItem(items: seq<Item>, k: Key) returns (r: Option<seq<u8>>)
    ensures var i := IndexOf(items, k); r == if i == |items| then None else Some(items[i].data)
  {
    var i := 0;
    while i < |items|
      invariant 0 <= i <= |items| && forall j :: 0 <= j < i ==> items[j].k != k
    {
      if items[i].k == k {
        return Some(items[i].data);
      }
      i := i + 1;
    }
    return None;
  }

  lemma {:induction false} RouteAddr(t: Tree, k: Key, ns: nat)
    requires t.Node? && Shape(t, LevelOf(t)) && ns > 0 && Cnt(t, ns, 0) == 0 && Lead(Ptrs(t.kids), k) > 0
    ensures var c := RouteKid(t.kids, k);
            && Ptrs(t.kids)[Lead(Ptrs(t.kids), k) - 1].child == t.kids[c].sub.addr
            && t.kids[c].sub.addr != 0 && Cnt(t.kids[c].sub, ns, 0) == 0
  {
    KidsCntAt(t.kids, RouteKid(t.kids, k), ns, 0);
  }

  /** searchTree. Address 0 is never a node. */
  method SearchTree(dev: Device, root: nat, k: Key, ns: nat, ghost t: Tree) returns (r: Result<Option<seq<u8>>>)
    requires ns > 0 && Stored(dev, t) && root == t.addr && Shape(t, LevelOf(t))
    requires (forall b: nat :: Cnt(t, ns, b) <= 1) && Cnt(t, ns, 0) == 0
    ensures r == Ok(Search(t, k)) || (r == Err(TooDeep) && LevelOf(t) > MAX_DEPTH)
    ensures WellFormed(t, ns) && r.Ok? ==> forall d :: r.value == Some(d) <==> Item(k, d) in Contents(t)
  {
    hide Contents, Ordered, Fits, Full;
    if WellFormed(t, ns) {
      forall d ensures Search(t, k) == Some(d) <==> Item(k, d) in Contents(t) {
        SearchFinds(t, k, d, ns);
      }
    }
    var logAddr := root;
    var seen: set<nat> := {};
    var prevLevel := -1;
    ghost var cur := t;
    var depth := 0;
    while true
      invariant Stored(dev, cur) && logAddr == cur.addr && Shape(cur, LevelOf(cur))
      invariant depth + LevelOf(cur) == LevelOf(t) && depth <= MAX_DEPTH + 1
      invariant prevLevel == -1 || prevLevel == LevelOf(cur) + 1
      invariant Search(cur, k) == Search(t, k)
      invariant Unseen(cur, seen, ns) && Cnt(cur, ns, 0) == 0
      decreases LevelOf(cur)
    {
      if depth > MAX_DEPTH {
        return Err(TooDeep);
      }
      UnseenRoot(cur, seen, ns);
      if logAddr in seen || logAddr !in dev {
        return Err(Corrupt);
      }
      var buf := dev[logAddr];
      var level := if buf.LeafBlock? then 0 else buf.level;
      if prevLevel >= 0 && level != prevLevel - 1 {
        return Ok(None);
      }
      prevLevel := level;
      if buf.LeafBlock? {
        var found := FindItem(buf.items, k);
        return Ok(found);
      }
      RoutedShape(cur, k);
      var chosen := ChooseExact(buf.ptrs, k);
      if Lead(buf.ptrs, k) > 0 {
        RouteAddr(cur, k, ns);
        Descend(cur, RouteKid(cur.kids, k), seen, ns);
      }
      if chosen == 0 {
        return Ok(None);
      }
      seen := seen + {logAddr};
      logAddr := chosen;
      cur := cur.kids[RouteKid(cur.kids, k)].sub;
      depth := depth + 1;
    }
  }

  // ---- walks with an explicit stack ---------------------------------------------------------------

  datatype Frame = Frame(addr: nat, depth: nat)

  /** Levels count down to 0 at the leaves; unlike Shape, nodes may be without children. */
  ghost predicate Levelled(t: Tree, lvl: nat) {
    match t
    case Leaf(_, _, _) => lvl == 0
    case Node(_, _, l, kids) => lvl > 0 && l == lvl && forall i :: 0 <= i < |kids| ==> Levelled(kids[i].sub, lvl - 1)
  }

  lemma {:induction false} ShapeLevelled(t: Tree, lvl: nat)
    requires Shape(t, lvl)
    ensures Levelled(t, lvl)
    decreases t
  {
    if t.Node? {
      forall i | 0 <= i < |t.kids| ensures Levelled(t.kids[i].sub, lvl - 1) {
        ShapeLevelled(t.kids[i].sub, lvl - 1);
      }
    }
  }

  /** Stack frame f stands for subtree s of a tree of lvl levels. */
  ghost predicate Stands(f: Frame, s: Tree, dev: Device, lvl: nat) {
    && f.addr == s.addr && Stored(dev, s) && Orderable(s) && f.depth <= lvl && Levelled(s, lvl - f.depth)
  }

  ghost predicate Stacked(stack: seq<Frame>, ts: seq<Tree>, dev: Device, lvl: nat) {
    |stack| == |ts| && forall i :: 0 <= i < |stack| ==> Stands(stack[i], ts[i], dev, lvl)
  }

  /** The stacked subtrees are disjoint and were not visited. */
  ghost predicate Fresh(ts: seq<Tree>, seen: set<nat>, ns: nat) {
    && (forall b: nat :: StackCnt(ts, ns, b) <= 1)
    && (forall a :: a in seen ==> StackCnt(ts, ns, a) == 0)
  }

  lemma {:induction false} FreshTop(ts: seq<Tree>, seen: set<nat>, ns: nat)
    requires Fresh(ts, seen, ns) && ns > 0 && ts != []
    ensures ts[|ts|-1].addr !in seen
  {
    assert Hit(ts[|ts|-1].addr, ns, ts[|ts|-1].addr) == 1;
  }

  /** Popping the top and pushing its first n children. */
  lemma {:induction false} PopPush(ts: seq<Tree>, seen: set<nat>, ns: nat, n: nat)
    requires Fresh(ts, seen, ns) && ns > 0 && ts != [] && ts[|ts|-1].Node? && n <= |ts[|ts|-1].kids|
    ensures var cur := ts[|ts|-1];
            var ts' := Pushed(ts[..|ts|-1], cur.kids[..n]);
            Fresh(ts', seen + {cur.addr}, ns) && StackNodes(ts') < StackNodes(ts)
  {
    var cur := ts[|ts|-1];
    var ks := cur.kids[..n];
    var ts' := Pushed(ts[..|ts|-1], ks);
    CutAt(cur.kids, n);
    forall b: nat ensures StackCnt(ts', ns, b) <= 1 && (b in seen || b == cur.addr ==> StackCnt(ts', ns, b) == 0) {
      PushedFacts(ts[..|ts|-1], ks, ns, b);
      KidsCntConcat(ks, cur.kids[n..], ns, b);
      assert StackCnt(ts, ns, b) <= 1;
    }
    PushedFacts(ts[..|ts|-1], ks, ns, 0);
    KidsCountConcat(ks, cur.kids[n..]);
  }

  lemma {:induction false} PopLeaf(ts: seq<Tree>, seen: set<nat>, ns: nat)
    requires Fresh(ts, seen, ns) && ns > 0 && ts != []
    ensures Fresh(ts[..|ts|-1], seen + {ts[|ts|-1].addr}, ns) && StackNodes(ts[..|ts|-1]) < StackNodes(ts)
  {
    var cur, low := ts[|ts|-1], ts[..|ts|-1];
    forall b: nat ensures StackCnt(low, ns, b) <= 1 && (b in seen || b == cur.addr ==> StackCnt(low, ns, b) == 0) {
      assert StackCnt(ts, ns, b) == Cnt(cur, ns, b) + StackCnt(low, ns, b);
      assert StackCnt(ts, ns, b) <= 1;
      assert Cnt(cur, ns, b) >= Hit(cur.addr, ns, b);
    }
    assert StackNodes(ts) == NodeCount(cur) + StackNodes(low);
  }

  lemma {:induction false} StandsKid(f: Frame, s: Tree, dev: Device, lvl: nat, i: nat)
    requires Stands(f, s, dev, lvl) && s.Node? && i < |s.kids|
    ensures Stands(Frame(Ptrs(s.kids)[i].child, f.depth + 1), s.kids[i].sub, dev, lvl)
  {
    OrderableKid(s, i);
  }

  /** Pushes the first n children of a node in reverse, so that they are popped left to right. */
  method PushChildren(stack: seq<Frame>, ps: seq<Ptr>, n: nat, f: Frame, dev: Device, ghost ts: seq<Tree>,
                      ghost cur: Tree, ghost lvl: nat)
    returns (stack': seq<Frame>)
    requires Stacked(stack, ts, dev, lvl) && Stands(f, cur, dev, lvl) && cur.Node? && ps == Ptrs(cur.kids) && n <= |ps|
    ensures Stacked(stack', Pushed(ts, cur.kids[..n]), dev, lvl)
  {
    stack' := stack;
    ghost var ts' := ts;
    var i := n;
    assert Pushed(ts, cur.kids[n..n]) == ts;
    while i > 0
      invariant 0 <= i <= n
      invariant ts' == Pushed(ts, cur.kids[i..n])
      invariant Stacked(stack', ts', dev, lvl)
    {
      i := i - 1;
      StandsKid(f, cur, dev, lvl, i);
      assert cur.kids[i..n][1..] == cur.kids[i+1..n] && cur.kids[i..n][0] == cur.kids[i];
      stack' := stack' + [Frame(ps[i].child, f.depth + 1)];
      ts' := ts' + [cur.kids[i].sub];
    }
    assert cur.kids[0..n] == cur.kids[..n];
  }

  method CountReaching(ps: seq<Ptr>, objID: u64, typ: u8) returns (n: nat)
    ensures n == Reaching(ps, objID, typ)
  {
    n := 0;
    while n < |ps| && !PastPrefix(ps[n].k, objID, typ)
      invariant 0 <= n <= |ps| && forall i :: 0 <= i < n ==> !PastPrefix(ps[i].k, objID, typ)
    {
      n := n + 1;
    }
    var m := Reaching(ps, objID, typ);
  }

  method Matching(items: seq<Item>, objID: u64, typ: u8) returns (out: seq<Item>)
    ensures out == WithPrefix(items, objID, typ)
  {
    out := [];
    var i := 0;
    while i < |items|
      invariant 0 <= i <= |items| && out == WithPrefix(items[..i], objID, typ)
    {
      assert items[..i+1][..i] == items[..i];
      if HasPrefix(items[i].k, objID, typ) {
        out := out + [items[i]];
      }
      i := i + 1;
    }
    assert items[..i] == items;
  }

  /** What the top of the stack contributes: its first n children, when the others are past the
      prefix. */
  lemma {:induction false} TopPruned(ts: seq<Tree>, n: nat, objID: u64, typ: u8)
    requires ts != [] && ts[|ts|-1].Node? && Orderable(ts[|ts|-1]) && n == Reaching(Ptrs(ts[|ts|-1].kids), objID, typ)
    ensures WithPrefix(StackContents(ts), objID, typ) ==
            WithPrefix(StackContents(Pushed(ts[..|ts|-1], ts[|ts|-1].kids[..n])), objID, typ)
  {
    var cur, low := ts[|ts|-1], ts[..|ts|-1];
    var lo, hi :| Ordered(cur, lo, hi);
    assert KidsOrdered(cur.kids, lo, hi);
    assert n < |cur.kids| ==> Ptrs(cur.kids)[n].k == cur.kids[n].sep;
    PruneNone(cur.kids, n, lo, hi, objID, typ);
    PushedFacts(low, cur.kids[..n], 0, 0);
    WithPrefixConcat(KidsContents(cur.kids), StackContents(low), objID, typ);
    WithPrefixConcat(KidsContents(cur.kids[..n]), StackContents(low), objID, typ);
  }

  /** The state of a walk over t that has visited some nodes and still has stack to do. */
  ghost predicate WalkState(stack: seq<Frame>, ts: seq<Tree>, seen: set<nat>, visited: nat, dev: Device, t: Tree,
                            ns: nat) {
    && Stacked(stack, ts, dev, LevelOf(t)) && Fresh(ts, seen, ns) && visited + StackNodes(ts) <= NodeCount(t)
  }

  lemma {:induction false} WalkStart(dev: Device, t: Tree, ns: nat)
    requires Stored(dev, t) && Orderable(t) && Levelled(t, LevelOf(t)) && forall b: nat :: Cnt(t, ns, b) <= 1
    ensures WalkState([Frame(t.addr, 0)], [t], {}, 0, dev, t, ns)
    ensures StackContents([t]) == Contents(t)
  {
    assert [t][..0] == [];
    forall b: nat ensures StackCnt([t], ns, b) <= 1 {
      assert StackCnt([t], ns, b) == Cnt(t, ns, b);
    }
  }

  /** The guards of one round: depth, node count, and the visited set. */
  lemma {:induction false} RoundOK(stack: seq<Frame>, ts: seq<Tree>, seen: set<nat>, visited: nat, dev: Device,
                                   t: Tree, ns: nat)
    requires WalkState(stack, ts, seen, visited, dev, t, ns) && ns > 0 && stack != []
    ensures var top, cur := stack[|stack|-1], ts[|ts|-1];
            && Stands(top, cur, dev, LevelOf(t)) && top.addr in dev && dev[top.addr] == BlockOf(cur)
               && top.addr !in seen
            && top.depth <= LevelOf(t) && visited < NodeCount(t)
            && Stacked(stack[..|stack|-1], ts[..|ts|-1], dev, LevelOf(t))
  {
    FreshTop(ts, seen, ns);
    assert Stands(stack[|stack|-1], ts[|ts|-1], dev, LevelOf(t));
    assert StackNodes(ts) == NodeCount(ts[|ts|-1]) + StackNodes(ts[..|ts|-1]);
  }

  /** walkPrefixLeaves with the collecting visitor: a pruned depth-first walk over an explicit
      stack. When its guards let it finish, it returns exactly the matching items in key order;
      they do so on every tree of at most MAX_NODES nodes and MAX_DEPTH levels. */
  method WalkPrefix(dev: Device, root: nat, objID: u64, typ: u8, ns: nat, ghost t: Tree) returns (r: Result<seq<Item>>)
    requires ns > 0 && Stored(dev, t) && root == t.addr && Orderable(t) && Levelled(t, LevelOf(t))
    requires forall b: nat :: Cnt(t, ns, b) <= 1
    ensures r.Ok? ==> r.value == WithPrefix(Contents(t), objID, typ)
    ensures NodeCount(t) <= MAX_NODES && LevelOf(t) <= MAX_DEPTH ==> r.Ok?
  {
    var stack := [Frame(root, 0)];
    ghost var ts := [t];
    var seen: set<nat> := {};
    var visited := 0;
    var out: seq<Item> := [];
    WalkStart(dev, t, ns);
    while |stack| > 0
      invariant WalkState(stack, ts, seen, visited, dev, t, ns)
      invariant out + WithPrefix(StackContents(ts), objID, typ) == WithPrefix(Contents(t), objID, typ)
      decreases StackNodes(ts)
    {
      RoundOK(stack, ts, seen, visited, dev, t, ns);
      ghost var cur := ts[|ts|-1];
      var top := stack[|stack|-1];
      stack := stack[..|stack|-1];
      if top.depth > MAX_DEPTH {
        return Err(TooDeep);
      }
      visited := visited + 1;
      if visited > MAX_NODES {
        return Err(TooLarge);
      }
      if top.addr in seen || top.addr !in dev {
        return Err(Corrupt);
      }
      var buf := dev[top.addr];
      if buf.LeafBlock? {
        var m := Matching(buf.items, objID, typ);
        out := out + m;
        WithPrefixConcat(buf.items, StackContents(ts[..|ts|-1]), objID, typ);
        PopLeaf(ts, seen, ns);
        ts := ts[..|ts|-1];
      } else {
        var n := CountReaching(buf.ptrs, objID, typ);
        TopPruned(ts, n, objID, typ);
        PopPush(ts, seen, ns, n);
        stack := PushChildren(stack, buf.ptrs, n, top, dev, ts[..|ts|-1], cur, LevelOf(t));
        ts := Pushed(ts[..|ts|-1], cur.kids[..n]);
      }
      seen := seen + {top.addr};
    }
    return Ok(out);
  }

  /** collectPrefixItems: the matching items, or not-found when there are none. */
  method CollectPrefixItems(dev: Device, root: nat, objID: u64, typ: u8, ns: nat, ghost t: Tree)
    returns (r: Result<seq<Item>>)
    requires ns > 0 && Stored(dev, t) && root == t.addr && WellFormed(t, ns)
    requires forall b: nat :: Cnt(t, ns, b) <= 1
    ensures r.Ok? ==> r.value == WithPrefix(Contents(t), objID, typ) && r.value != []
    ensures r.Ok? ==> forall x :: x in r.value <==> x in Contents(t) && x.k.objID == objID && x.k.typ == typ
    ensures r.Ok? ==> ItemsIn(r.value, 0, RANK_LIMIT)
    ensures NodeCount(t) <= MAX_NODES && LevelOf(t) <= MAX_DEPTH ==>
              r == if WithPrefix(Contents(t), objID, typ) == [] then Err(Missing)
                  else Ok(WithPrefix(Contents(t), objID, typ))
  {
    hide Contents, Ordered, Fits, Full, Shape, WithPrefix;
    ShapeLevelled(t, LevelOf(t));
    FiltersAre(Contents(t), objID, typ);
    ContentsIn(t, 0, RANK_LIMIT);
    WithPrefixIn(Contents(t), objID, typ, 0, RANK_LIMIT);
    r := WalkPrefix(dev, root, objID, typ, ns, t);
    if r.Ok? && r.value == [] {
      r := Err(Missing);
    }
  }

  /** The children findLeafContainingPrefix pushes: all whose separator is not past the prefix. */
  method PushReaching(stack: seq<Frame>, ps: seq<Ptr>, f: Frame, objID: u64, typ: u8, dev: Device, ghost ts: seq<Tree>,
                      ghost cur: Tree, ghost lvl: nat)
    returns (stack': seq<Frame>)
    requires Stacked(stack, ts, dev, lvl) && Stands(f, cur, dev, lvl) && cur.Node? && ps == Ptrs(cur.kids)
    ensures Stacked(stack', Pushed(ts, cur.kids[..Reaching(ps, objID, typ)]), dev, lvl)
  {
    stack' := stack;
    ghost var ts' := ts;
    ghost var n := Reaching(ps, objID, typ);
    PastAfter(cur, objID, typ);
    var i := |ps|;
    assert cur.kids[n..n] == [];
    while i > 0
      invariant 0 <= i <= |ps|
      invariant ts' == Pushed(ts, cur.kids[if i < n then i else n..n])
      invariant Stacked(stack', ts', dev, lvl)
    {
      i := i - 1;
      if !PastPrefix(ps[i].k, objID, typ) {
        StandsKid(f, cur, dev, lvl, i);
        assert i < n;
        assert cur.kids[i..n][1..] == cur.kids[i+1..n] && cur.kids[i..n][0] == cur.kids[i];
        stack' := stack' + [Frame(ps[i].child, f.depth + 1)];
        ts' := ts' + [cur.kids[i].sub];
      }
    }
    assert cur.kids[0..n] == cur.kids[..n];
  }

  lemma {:induction false} PastAfter(cur: Tree, objID: u64, typ: u8)
    requires cur.Node? && Orderable(cur)
    ensures var ps := Ptrs(cur.kids);
            forall i :: 0 <= i < |ps| ==> (PastPrefix(ps[i].k, objID, typ) <==> Reaching(ps, objID, typ) <= i)
  {
    var lo, hi :| Ordered(cur, lo, hi);
    var ps := Ptrs(cur.kids);
    var n := Reaching(ps, objID, typ);
    forall i | n <= i < |ps| ensures PastPrefix(ps[i].k, objID, typ) {
      assert ps[n].k == cur.kids[n].sep && ps[i].k == cur.kids[i].sep;
      PrefixIsInterval(ps[n].k, objID, typ);
      PrefixIsInterval(ps[i].k, objID, typ);
      assert i == n || Rank(cur.kids[n].sep) < Rank(cur.kids[i].sep);
    }
  }

  lemma {:induction false} AnyMatch(s: seq<Item>, objID: u64, typ: u8)
    ensures WithPrefix(s, objID, typ) != [] <==> exists x :: x in s && x.k.objID == objID && x.k.typ == typ
  {
    FiltersAre(s, objID, typ);
    var m := WithPrefix(s, objID, typ);
    if m != [] {
      assert m[0] in m;
    }
  }

  /** findLeafContainingPrefix: whether some leaf holds a matching item. */
  method FindLeafContainingPrefix(dev: Device, root: nat, objID: u64, typ: u8, ns: nat, ghost t: Tree)
    returns (r: Result<bool>)
    requires ns > 0 && Stored(dev, t) && root == t.addr && Orderable(t) && Levelled(t, LevelOf(t))
    requires forall b: nat :: Cnt(t, ns, b) <= 1
    ensures r.Ok? ==> (r.value <==> WithPrefix(Contents(t), objID, typ) != [])
    ensures r.Ok? ==> (r.value <==> exists x :: x in Contents(t) && x.k.objID == objID && x.k.typ == typ)
    ensures NodeCount(t) <= MAX_NODES && LevelOf(t) <= MAX_DEPTH ==> r.Ok?
    ensures r.Err? ==> r.error == TooDeep || r.error == TooLarge
  {
    var stack := [Frame(root, 0)];
    ghost var ts := [t];
    var seen: set<nat> := {};
    var visited := 0;
    WalkStart(dev, t, ns);
    AnyMatch(Contents(t), objID, typ);
    while |stack| > 0
      invariant WalkState(stack, ts, seen, visited, dev, t, ns)
      invariant WithPrefix(StackContents(ts), objID, typ) == WithPrefix(Contents(t), objID, typ)
      decreases StackNodes(ts)
    {
      RoundOK(stack, ts, seen, visited, dev, t, ns);
      ghost var cur := ts[|ts|-1];
      var top := stack[|stack|-1];
      stack := stack[..|stack|-1];
      if top.depth > MAX_DEPTH {
        return Err(TooDeep);
      }
      visited := visited + 1;
      if visited > MAX_NODES {
        return Err(TooLarge);
      }
      if top.addr in seen || top.addr !in dev {
        return Err(Corrupt);
      }
      var buf := dev[top.addr];
      if buf.LeafBlock? {
        var m := Matching(buf.items, objID, typ);
        WithPrefixConcat(buf.items, StackContents(ts[..|ts|-1]), objID, typ);
        if m != [] {
          return Ok(true);
        }
        PopLeaf(ts, seen, ns);
        ts := ts[..|ts|-1];
      } else {
        ghost var n := Reaching(buf.ptrs, objID, typ);
        TopPruned(ts, n, objID, typ);
        PopPush(ts, seen, ns, n);
        stack := PushReaching(stack, buf.ptrs, top, objID, typ, dev, ts[..|ts|-1], cur, LevelOf(t));
        ts := Pushed(ts[..|ts|-1], cur.kids[..n]);
      }
      seen := seen + {top.addr};
    }
    return Ok(false);
  }
}
