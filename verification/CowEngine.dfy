/** cowInsert, cowUpdate, cowDelete and their helpers, on the device. */
module CowEngine {
  import opened Keys
  import opened FreeSpace
  import opened SpaceManagement
  import opened Trees
  import opened CowSpec
  import opened CowMutate
  import opened CowConserve
  import opened CowOutcome
  import opened Volumes

  /** Where the walk up the path stands: the child was dropped, or now lives at addr. */
  datatype Climb = Failed(error: Error) | Dropped | Kept(addr: nat, shrunk: bool)

  /** The result r of a copy-on-write operation that took the device from (dev0, fr0) to (dev, fr)
      is the outcome x that CowSpec computes. A failure keeps the old tree, frees nothing and loses
      the blocks that UsedUp says; blocks that were neither free nor part of t are spared in every case. */
  ghost predicate Refines(r: Result<nat>, x: Result<(Tree, seq<Extent>)>, t: Tree, dev: Device, fr: seq<Extent>,
                          dev0: Device, fr0: seq<Extent>, ns: nat)
  {
    match x
    case Ok(y) => r == Ok(y.0.addr) && Stored(dev, y.0) && fr == y.1 && Spared(dev0, dev, fr0, t, ns)
    case Err(e) =>
      r == Err(e) && Stored(dev, t) && Fewer(fr, fr0) && UsedUp(e, dev, fr, dev0, fr0, ns)
          && Spared(dev0, dev, fr0, t, ns)
  }

  class Volume {
    var dev: Device
    const sm: SpaceManager
    const ns: nat
    var generation: nat

    constructor (dev: Device, sm: SpaceManager, generation: nat)
      ensures this.dev == dev && this.sm == sm && this.ns == sm.nodeSize && this.generation == generation
    {
      this.dev := dev;
      this.sm := sm;
      this.ns := sm.nodeSize;
      this.generation := generation;
    }

    /** The node size is that of the allocator and holds at least two pointers. */
    ghost predicate Valid() {
      sm.nodeSize == ns && ns >= NODE_HDR + 2 * PTR_SIZE
    }

    /** writeCowNode: allocate a block and write the node there, with its new address and the
        committing generation. */
    method WriteCowNode(blk: Block) returns (r: Option<nat>)
      requires Valid()
      modifies this`dev, sm`freeExts
      ensures r.None? ==> FirstFit(old(sm.freeExts), ns).NoSpace? && dev == old(dev) && sm.freeExts == old(sm.freeExts)
      ensures r.Some? ==> FirstFit(old(sm.freeExts), ns) == Granted(r.value, sm.freeExts)
      ensures r.Some? ==> dev == WriteBlock(old(dev), ns, r.value, Stamp(blk, r.value, generation + 1))
    {
      r := sm.AllocNodeBlock();
      if r.Some? {
        dev := WriteBlock(dev, ns, r.value, Stamp(blk, r.value, generation + 1));
      }
    }

    /** tracePath: follow the route of k from the root to a leaf. */
    method TracePath(root: nat, k: Key, ghost t: Tree) returns (r: Result<seq<PathEntry>>)
      requires Valid() && Stored(dev, t) && root == t.addr && Shape(t, LevelOf(t))
      requires forall b: nat :: Cnt(t, ns, b) <= 1
      ensures r == if LevelOf(t) > MAX_DEPTH then Err(TooDeep) else Ok(PathOf(t, k))
    {
      hide Rank, Cnt, KidsCnt, FreeCnt;
      var path: seq<PathEntry> := [];
      var logAddr := root;
      var seen: set<nat> := {};
      ghost var cur := t;
      var depth := 0;
      while true
        invariant Stored(dev, cur) && logAddr == cur.addr && Shape(cur, LevelOf(cur))
        invariant depth + LevelOf(cur) == LevelOf(t) && depth <= MAX_DEPTH + 1
        invariant PathOf(t, k) == path + PathOf(cur, k)
        invariant Unseen(cur, seen, ns)
        decreases LevelOf(cur)
      {
        if depth > MAX_DEPTH {
          return Err(TooDeep);
        }
        UnseenRoot(cur, seen, ns);
        if logAddr in seen || logAddr !in dev {
          return Err(Corrupt);
        }
        var buf := dev[logAddr];
        if buf.LeafBlock? {
          return Ok(path + [PathEntry(logAddr, buf, 0)]);
        }
        RoutedShape(cur, k);
        var c := ChooseChild(buf.ptrs, k);
        PathStep(cur, k, path);
        Descend(cur, c, seen, ns);
        seen := seen + {logAddr};
        path := path + [PathEntry(logAddr, buf, c)];
        logAddr := buf.ptrs[c].child;
        cur := cur.kids[c].sub;
        depth := depth + 1;
      }
    }

    /** One node written back: a fresh copy with pointers ps, whose children are stored. */
    method WriteInner(lvl: nat, ps: seq<Ptr>, ghost kids: seq<Kid>, ghost t: Tree, ghost dev0: Device,
                      ghost fr0: seq<Extent>)
      returns (st: Climb)
      requires Valid() && ps == Ptrs(kids) && Stored(dev, t) && Clean(sm.freeExts, t, ns)
      requires forall i :: 0 <= i < |kids| ==> Stored(dev, kids[i].sub)
      requires forall b: nat :: FreeCnt(sm.freeExts, b) + KidsCnt(kids, ns, b) <= 1
      requires Spared(dev0, dev, fr0, t, ns) && Fewer(sm.freeExts, fr0) && Taking(fr0, sm.freeExts, ns)
      modifies this`dev, sm`freeExts
      ensures Working(st, CowNode(lvl, kids, old(sm.freeExts), ns, generation + 1), t, dev, sm.freeExts, dev0, fr0, ns)
      ensures st.Failed? ==> st.error == NoBlock
    {
      var w := WriteCowNode(InnerBlock(0, 0, lvl, ps));
      if w.None? {
        return Failed(NoBlock);
      }
      ghost var fr := old(sm.freeExts);
      ghost var n := Node(w.value, generation + 1, lvl, kids);
      StoreGranted(old(dev), fr, ns, n);
      GrantAvoids(fr, t, ns);
      WriteFrame(old(dev), t, ns, w.value, BlockOf(n));
      GrantFewer(fr, ns);
      TakingOne(fr0, fr, ns);
      GrantSpares(dev0, old(dev), fr0, fr, t, ns, BlockOf(n));
      return Kept(w.value, false);
    }

    /** One iteration of cowMutate's walk: node is the tree node of path entry pe, below the
        outcome for its routed child and m the outcome for node. */
    method StepUp(pe: PathEntry, st: Climb, top: bool, ghost node: Tree, ghost below: Mutated, ghost m: Mutated,
                  ghost t: Tree, ghost dev0: Device, ghost fr0: seq<Extent>)
      returns (st': Climb)
      requires Valid() && Link(pe, node, m, below, top, fr0, ns, generation + 1) && !below.MFail?
      requires Working(st, below, t, dev, sm.freeExts, dev0, fr0, ns) && Clean(fr0, t, ns) && Stored(dev, node)
      modifies this`dev, sm`freeExts
      ensures Working(st', m, t, dev, sm.freeExts, dev0, fr0, ns)
      ensures st'.Failed? ==> st'.error == NoBlock
    {
      var ptrs, c := pe.block.ptrs, pe.childIdx;
      FewerClean(sm.freeExts, fr0, t, ns);
      if st.Dropped? {
        var rest := ptrs[..c] + ptrs[c+1..];
        PtrsRemove(node.kids, c);
        ghost var kids := node.kids[..c] + node.kids[c+1..];
        RestStored(dev, node, c);
        if |rest| == 0 && !top {
          return Dropped;
        }
        if top && |rest| == 1 {
          return Kept(rest[0].child, true);
        }
        RestClean(fr0, node, c, ns);
        st' := WriteInner(pe.block.level, rest, kids, t, dev0, fr0);
      } else {
        ghost var x := Kid(node.kids[c].sep, generation + 1, below.t);
        PtrsSet(node.kids, c, x);
        var ps := ptrs[c := Ptr(ptrs[c].k, st.addr, generation + 1)];
        st' := WriteInner(pe.block.level, ps, node.kids[c := x], t, dev0, fr0);
      }
    }

    /** Returns the blocks of a replaced path to the allocator. */
    method FreeBlocks(addrs: seq<nat>)
      modifies sm`freeExts
      ensures sm.freeExts == FreeAll(old(sm.freeExts), addrs, ns)
    {
      var i := 0;
      while i < |addrs|
        invariant 0 <= i <= |addrs|
        invariant sm.freeExts == FreeAll(old(sm.freeExts), addrs[..i], ns)
      {
        assert addrs[..i+1][..i] == addrs[..i];
        sm.FreeRange(addrs[i], ns);
        i := i + 1;
      }
      assert addrs[..i] == addrs;
    }

    /** Writes the mutated leaf, unless it became empty and is not the root. */
    method WriteLeaf(items: seq<Item>, top: bool, ghost t: Tree) returns (st: Climb)
      requires Valid() && Stored(dev, t) && Clean(sm.freeExts, t, ns)
      modifies this`dev, sm`freeExts
      ensures Working(st, LeafWritten(items, top, old(sm.freeExts), ns, generation + 1), t, dev, sm.freeExts,
                      old(dev), old(sm.freeExts), ns)
      ensures st.Failed? ==> st.error == NoBlock
    {
      TakingNone(sm.freeExts, ns);
      if items == [] && !top {
        return Dropped;
      }
      var w := WriteCowNode(LeafBlock(0, 0, items));
      if w.None? {
        return Failed(NoBlock);
      }
      ghost var fr := old(sm.freeExts);
      ghost var n := Leaf(w.value, generation + 1, items);
      StoreNode(old(dev), ns, n);
      GrantAvoids(fr, t, ns);
      WriteFrame(old(dev), t, ns, w.value, BlockOf(n));
      GrantFewer(fr, ns);
      TakingOne(fr, fr, ns);
      GrantSpares(old(dev), old(dev), fr, fr, t, ns, BlockOf(n));
      return Kept(w.value, false);
    }

    /** The loop of cowMutate up the path, from the leaf's outcome st0. nodes and ms are the tree
        nodes on the path and the outcomes for them. */
    method WalkUp(path: seq<PathEntry>, st0: Climb, ghost nodes: seq<Tree>, ghost ms: seq<Mutated>, ghost t: Tree,
                  ghost dev0: Device, ghost fr0: seq<Extent>)
      returns (st: Climb, freed: seq<nat>)
      requires Valid() && Clean(fr0, t, ns) && Linked(path, nodes, ms, true, t, fr0, ns, generation + 1)
      requires Working(st0, ms[|ms|-1], t, dev, sm.freeExts, dev0, fr0, ns)
      modifies this`dev, sm`freeExts
      ensures Working(st, ms[0], t, dev, sm.freeExts, dev0, fr0, ns)
      ensures !st.Failed? ==> freed == AddrsUp(nodes)
      ensures st.Failed? && st.error != NoBlock ==> st == st0 && dev == old(dev) && sm.freeExts == old(sm.freeExts)
    {
      hide Stored, Clean, AddrsUp, Part, Spared, Fewer, FreeCnt, KidsClean, MutateUp;
      var i := |path| - 1;
      st := st0;
      freed := [path[i].addr];
      AddrsUpLast(nodes);
      while i > 0 && !st.Failed?
        invariant 0 <= i < |path|
        invariant Working(st, ms[i], t, dev, sm.freeExts, dev0, fr0, ns)
        invariant st.Failed? && st.error != NoBlock ==> st == st0 && dev == old(dev) && sm.freeExts == old(sm.freeExts)
        invariant freed == AddrsUp(nodes[i..])
      {
        assert Link(path[i-1], nodes[i-1], ms[i-1], ms[i], i == 1, fr0, ns, generation + 1);
        PartStored(dev, t, nodes[i-1]);
        st := StepUp(path[i-1], st, i == 1, nodes[i-1], ms[i], ms[i-1], t, dev0, fr0);
        freed := freed + [path[i-1].addr];
        AddrsUpStep(nodes, i - 1);
        i := i - 1;
      }
      assert nodes[0..] == nodes;
    }

    /** The walk of cowMutate: mutate the routed leaf and rewrite the path above it. */
    method MutatePath(path: seq<PathEntry>, op: LeafOp, ghost nodes: seq<Tree>, ghost ms: seq<Mutated>, ghost t: Tree)
      returns (st: Climb, freed: seq<nat>)
      requires Valid() && Stored(dev, t) && Clean(sm.freeExts, t, ns)
      requires Linked(path, nodes, ms, true, t, sm.freeExts, ns, generation + 1)
      requires var leaf := nodes[|nodes|-1];
               leaf.Leaf? && ms[|ms|-1] == MutateLeaf(op, leaf.items, |path| == 1, sm.freeExts, ns, generation + 1)
      modifies this`dev, sm`freeExts
      ensures Working(st, ms[0], t, dev, sm.freeExts, old(dev), old(sm.freeExts), ns)
      ensures !st.Failed? ==> freed == AddrsUp(nodes)
      ensures st == Failed(LeafFull) ==> dev == old(dev) && sm.freeExts == old(sm.freeExts)
    {
      hide Link, Stored, Clean, AddrsUp, Part, ApplyLeaf;
      var leaf := path[|path|-1];
      var a := ApplyLeaf(op, leaf.block.items, ns);
      if a.Err? {
        LeafRefusal(op, leaf.block.items, ns);
        TakingNone(sm.freeExts, ns);
        st := Failed(a.error);
      } else {
        st := WriteLeaf(a.value, |path| == 1, t);
      }
      st, freed := WalkUp(path, st, nodes, ms, t, old(dev), old(sm.freeExts));
    }

    /** tryCollapseTwoLeafRoot: merge a two-leaf tree whose items fit one leaf. */
    method TryCollapse(root: nat, ghost t: Tree, ghost t0: Tree, ghost dev0: Device, ghost fr0: seq<Extent>)
      returns (r: nat)
      requires Valid() && Stored(dev, t) && root == t.addr && Clean(sm.freeExts, t, ns)
      requires Spared(dev0, dev, fr0, t0, ns) && Within(sm.freeExts, fr0, t0, ns)
      modifies this`dev, sm`freeExts
      ensures var x := CowSpec.TryCollapse(t, old(sm.freeExts), ns, generation + 1);
              r == x.0.addr && Stored(dev, x.0) && sm.freeExts == x.1
      ensures Spared(dev0, dev, fr0, t0, ns)
    {
      var buf := dev[root];
      if !buf.InnerBlock? || buf.level != 1 || |buf.ptrs| != 2 {
        return root;
      }
      var leftLog, rightLog := buf.ptrs[0].child, buf.ptrs[1].child;
      assert Stored(dev, t.kids[0].sub) && Stored(dev, t.kids[1].sub);
      var left, right := dev[leftLog], dev[rightLog];
      if !left.LeafBlock? || !right.LeafBlock? {
        return root;
      }
      var combined := left.items + right.items;
      if !LeafFits(combined, ns) {
        return root;
      }
      var w := WriteCowNode(LeafBlock(0, 0, combined));
      if w.None? {
        return root;
      }
      ghost var n := Leaf(w.value, generation + 1, combined);
      StoreNode(old(dev), ns, n);
      GrantSpares(dev0, old(dev), fr0, old(sm.freeExts), t0, ns, BlockOf(n));
      FreeBlocks([root, leftLog, rightLog]);
      return w.value;
    }

    /** cowMutate after the path is known. */
    method MutateAlong(path: seq<PathEntry>, op: LeafOp, ghost t: Tree)
      returns (r: Result<nat>, ghost x: Result<(Tree, seq<Extent>)>)
      requires Valid() && Stored(dev, t) && Clean(sm.freeExts, t, ns)
      requires Shape(t, LevelOf(t)) && LevelOf(t) <= MAX_DEPTH && path == PathOf(t, RouteKey(op))
      modifies this`dev, sm`freeExts
      ensures x == MutateTree(t, op, old(sm.freeExts), ns, generation + 1)
      ensures Refines(r, x, t, dev, sm.freeExts, old(dev), old(sm.freeExts), ns)
      ensures r == Err(LeafFull) ==> dev == old(dev) && sm.freeExts == old(sm.freeExts) && LevelOf(t) <= MAX_DEPTH
    {
      hide Link, Part, Stored, Clean, MutateLeaf, AddrsUp, MutateDone, Finished, Working, Refines, Shape, MutateTree,
           PathOf;
      ghost var nodes, ms;
      nodes, ms, x := Plan(t, op, sm.freeExts, ns, generation + 1);
      var st, freed := MutatePath(path, op, nodes, ms, t);
      r := Finish(st, freed, nodes, ms[0], x, t, old(dev), old(sm.freeExts));
    }

    /** The end of cowMutate: free the old path and merge a two-leaf tree. m is the outcome of the
        walk and x that of the whole operation. */
    method Finish(st: Climb, freed: seq<nat>, ghost nodes: seq<Tree>, ghost m: Mutated,
                  ghost x: Result<(Tree, seq<Extent>)>,
                  ghost t: Tree, ghost dev0: Device, ghost fr0: seq<Extent>)
      returns (r: Result<nat>)
      requires Valid() && Working(st, m, t, dev, sm.freeExts, dev0, fr0, ns)
      requires !st.Failed? ==> freed == AddrsUp(nodes)
      requires Finished(m, nodes, t, fr0, ns) && x == MutateDone(m, AddrsUp(nodes), ns, generation + 1)
      modifies this`dev, sm`freeExts
      ensures Refines(r, x, t, dev, sm.freeExts, dev0, fr0, ns)
      ensures r == Err(LeafFull) ==> st == Failed(LeafFull) && dev == old(dev) && sm.freeExts == old(sm.freeExts)
    {
      if !st.Kept? {
        return Err(if st.Failed? then st.error else Corrupt);
      }
      FreeBlocks(freed);
      if st.shrunk {
        return Ok(st.addr);
      }
      var a := TryCollapse(st.addr, m.t, t, dev0, fr0);
      return Ok(a);
    }

    /** cowMutate. */
    method CowMutate(root: nat, op: LeafOp, ghost t: Tree)
      returns (r: Result<nat>, ghost x: Result<(Tree, seq<Extent>)>)
      requires Valid() && Stored(dev, t) && root == t.addr && Shape(t, LevelOf(t)) && Clean(sm.freeExts, t, ns)
      modifies this`dev, sm`freeExts
      ensures x == MutateTree(t, op, old(sm.freeExts), ns, generation + 1)
      ensures Refines(r, x, t, dev, sm.freeExts, old(dev), old(sm.freeExts), ns)
      ensures r == Err(LeafFull) ==> dev == old(dev) && sm.freeExts == old(sm.freeExts) && LevelOf(t) <= MAX_DEPTH
    {
      hide MutateRec, SpineAddrs, FreeAll, MutateDone, Stored, PathOf, FreeCnt, Cnt;
      CleanTree(sm.freeExts, t, ns);
      var path := TracePath(root, RouteKey(op), t);
      TakingNone(sm.freeExts, ns);
      if path.Err? {
        return Err(path.error), Err(TooDeep);
      }
      r, x := MutateAlong(path.value, op, t);
    }

    /** cowUpdate: replace the data of the item with key k. */
    method CowUpdate(root: nat, k: Key, data: seq<u8>, ghost t: Tree)
      returns (r: Result<nat>, ghost x: Result<(Tree, seq<Extent>)>)
      requires Valid() && Stored(dev, t) && root == t.addr && Shape(t, LevelOf(t)) && Clean(sm.freeExts, t, ns)
      modifies this`dev, sm`freeExts
      ensures x == MutateTree(t, Update(k, data), old(sm.freeExts), ns, generation + 1)
      ensures Refines(r, x, t, dev, sm.freeExts, old(dev), old(sm.freeExts), ns)
      ensures WellFormed(t, ns) && LevelOf(t) <= MAX_DEPTH ==> Updated(r, x, t, k, data, old(sm.freeExts), ns)
    {
      hide MutateTree, Stored, Clean, Shape, WellFormed, Updated;
      r, x := CowMutate(root, Update(k, data), t);
      if WellFormed(t, ns) && LevelOf(t) <= MAX_DEPTH {
        UpdatedIs(r, x, t, k, data, old(sm.freeExts), ns, generation + 1);
      }
    }

    /** cowDelete: remove the item with key k. */
    method CowDelete(root: nat, k: Key, ghost t: Tree) returns (r: Result<nat>, ghost x: Result<(Tree, seq<Extent>)>)
      requires Valid() && Stored(dev, t) && root == t.addr && Shape(t, LevelOf(t)) && Clean(sm.freeExts, t, ns)
      modifies this`dev, sm`freeExts
      ensures x == MutateTree(t, Delete(k), old(sm.freeExts), ns, generation + 1)
      ensures Refines(r, x, t, dev, sm.freeExts, old(dev), old(sm.freeExts), ns)
      ensures WellFormed(t, ns) && LevelOf(t) <= MAX_DEPTH ==> Deleted(r, x, t, k, old(sm.freeExts), ns)
    {
      hide MutateTree, Stored, Clean, Shape, WellFormed, Deleted;
      r, x := CowMutate(root, Delete(k), t);
      if WellFormed(t, ns) && LevelOf(t) <= MAX_DEPTH {
        DeletedIs(r, x, t, k, old(sm.freeExts), ns, generation + 1);
      }
    }
  }

  /** The blocks of cur are disjoint and none of their bytes was visited. */
  ghost predicate Unseen(cur: Tree, seen: set<nat>, ns: nat) {
    && (forall b: nat :: Cnt(cur, ns, b) <= 1)
    && (forall a :: a in seen ==> Cnt(cur, ns, a) == 0)
  }

  lemma {:induction false} UnseenRoot(cur: Tree, seen: set<nat>, ns: nat)
    requires Unseen(cur, seen, ns) && ns > 0
    ensures cur.addr !in seen
  {
    assert Hit(cur.addr, ns, cur.addr) == 1;
  }

  lemma {:induction false} Descend(cur: Tree, c: nat, seen: set<nat>, ns: nat)
    requires Unseen(cur, seen, ns) && ns > 0 && cur.Node? && c < |cur.kids|
    ensures Unseen(cur.kids[c].sub, seen + {cur.addr}, ns)
  {
    var kid := cur.kids[c].sub;
    forall b: nat ensures Cnt(kid, ns, b) <= 1 && (b in seen || b == cur.addr ==> Cnt(kid, ns, b) == 0) {
      KidsCntAt(cur.kids, c, ns, b);
      assert Cnt(cur, ns, b) <= 1;
    }
  }

  lemma {:induction false} PathStep(cur: Tree, k: Key, path: seq<PathEntry>)
    requires cur.Node? && Shape(cur, LevelOf(cur))
    ensures var c := RouteKid(cur.kids, k);
            && Shape(cur.kids[c].sub, LevelOf(cur.kids[c].sub))
            && path + PathOf(cur, k) == path + [PathEntry(cur.addr, BlockOf(cur), c)] + PathOf(cur.kids[c].sub, k)
  {
    RoutedShape(cur, k);
  }

  lemma {:induction false} CleanTree(fr: seq<Extent>, t: Tree, ns: nat)
    requires Clean(fr, t, ns)
    ensures forall b: nat :: Cnt(t, ns, b) <= 1
  {
    forall b: nat ensures Cnt(t, ns, b) <= 1 {
      assert FreeCnt(fr, b) + Cnt(t, ns, b) <= 1;
    }
  }

  /** Once the old path is freed, the free list and the new tree share no byte and together
      cover what the old ones covered. */
  lemma {:induction false} FreedBalance(t: Tree, op: LeafOp, m: Mutated, fr: seq<Extent>, ns: nat, g: nat)
    requires Shape(t, LevelOf(t)) && Clean(fr, t, ns) && m == MutateRec(t, op, true, fr, ns, g) && m.MKeep?
    ensures var fr2 := FreeAll(m.fr, SpineAddrs(t, RouteKey(op)), ns);
            Clean(fr2, m.t, ns) && Within(fr2, fr, t, ns)
  {
    var fr2 := FreeAll(m.fr, SpineAddrs(t, RouteKey(op)), ns);
    forall b: nat ensures FreeCnt(fr2, b) + Cnt(m.t, ns, b) <= 1 && FreeCnt(fr2, b) <= FreeCnt(fr, b) + Cnt(t, ns, b) {
      assert FreeCnt(fr, b) + Cnt(t, ns, b) <= 1;
      MutateCnt(t, op, true, fr, ns, g, b);
      FreeAllCnt(m.fr, SpineAddrs(t, RouteKey(op)), ns, b);
    }
  }

  /** After the walk over nodes with outcome m, freeing the old path leaves a clean state. */
  ghost predicate Finished(m: Mutated, nodes: seq<Tree>, t: Tree, fr: seq<Extent>, ns: nat) {
    match m
    case MFail(_) => true
    case MDrop => true
    case MKeep(t', fr', _) =>
      var fr2 := FreeAll(fr', AddrsUp(nodes), ns);
      Clean(fr2, t', ns) && Within(fr2, fr, t, ns)
  }

  lemma {:induction false} MutateTreeFinished(t: Tree, op: LeafOp, nodes: seq<Tree>, fr: seq<Extent>, ns: nat, g: nat)
    requires Shape(t, LevelOf(t)) && Clean(fr, t, ns)
    requires AddrsUp(nodes) == SpineAddrs(t, RouteKey(op))
    ensures Finished(MutateRec(t, op, true, fr, ns, g), nodes, t, fr, ns)
  {
    var m := MutateRec(t, op, true, fr, ns, g);
    if m.MKeep? {
      FreedBalance(t, op, m, fr, ns, g);
    }
  }

  lemma {:induction false} Plan(t: Tree, op: LeafOp, fr: seq<Extent>, ns: nat, g: nat)
    returns (nodes: seq<Tree>, ms: seq<Mutated>, x: Result<(Tree, seq<Extent>)>)
    requires Shape(t, LevelOf(t)) && Clean(fr, t, ns) && LevelOf(t) <= MAX_DEPTH
    ensures x == MutateTree(t, op, fr, ns, g)
    ensures Linked(PathOf(t, RouteKey(op)), nodes, ms, true, t, fr, ns, g)
    ensures nodes[|nodes|-1].Leaf?
    ensures ms[|ms|-1] == MutateLeaf(op, nodes[|nodes|-1].items, |nodes| == 1, fr, ns, g)
    ensures Finished(ms[0], nodes, t, fr, ns) && x == MutateDone(ms[0], AddrsUp(nodes), ns, g)
  {
    nodes, ms, x := NodesOn(t, RouteKey(op)), OutcomesOn(t, op, true, fr, ns, g), MutateTree(t, op, fr, ns, g);
    ChainHolds(t, op, true, fr, ns, g);
    SpineIsAddrs(t, RouteKey(op));
    MutateTreeFinished(t, op, nodes, fr, ns, g);
  }

  /** What WriteLeaf stands for on trees. */
  function LeafWritten(items: seq<Item>, top: bool, fr: seq<Extent>, ns: nat, g: nat): Mutated {
    if items == [] && !top then MDrop
    else match FirstFit(fr, ns)
         case NoSpace => MFail(NoBlock)
         case Granted(a, fr') => MKeep(Leaf(a, g, items), fr', false)
  }

  lemma {:induction false} FewerClean(fr: seq<Extent>, fr0: seq<Extent>, t: Tree, ns: nat)
    requires Fewer(fr, fr0) && Clean(fr0, t, ns)
    ensures Clean(fr, t, ns)
  {
    forall b: nat ensures FreeCnt(fr, b) + Cnt(t, ns, b) <= 1 {
      assert FreeCnt(fr, b) <= FreeCnt(fr0, b);
      assert FreeCnt(fr0, b) + Cnt(t, ns, b) <= 1;
    }
  }

  /** The children of a node whose routed child was just rewritten avoid the free bytes left. */
  lemma {:induction false} StepClean(node: Tree, op: LeafOp, fr: seq<Extent>, ns: nat, g: nat)
    requires node.Node? && Shape(node, LevelOf(node)) && Clean(fr, node, ns)
    ensures var c := RouteKid(node.kids, RouteKey(op));
            Shape(node.kids[c].sub, LevelOf(node.kids[c].sub))
    ensures var c := RouteKid(node.kids, RouteKey(op));
            KidsClean(node.kids, c, MutateRec(node.kids[c].sub, op, false, fr, ns, g), ns, g)
  {
    RoutedShape(node, RouteKey(op));
    var c := RouteKid(node.kids, RouteKey(op));
    var m := MutateRec(node.kids[c].sub, op, false, fr, ns, g);
    if m.MKeep? {
      var x := Kid(node.kids[c].sep, g, m.t);
      forall b: nat ensures FreeCnt(m.fr, b) + KidsCnt(node.kids[c := x], ns, b) <= 1 {
        assert FreeCnt(fr, b) + Cnt(node, ns, b) <= 1;
        MutateCnt(node.kids[c].sub, op, false, fr, ns, g, b);
        ReplacedCnt(node.kids, c, x, ns, b);
      }
    }
  }

  lemma {:induction false} ReplacedCnt(ks: seq<Kid>, c: nat, x: Kid, ns: nat, b: nat)
    requires c < |ks|
    ensures KidsCnt(ks[c := x], ns, b) + Cnt(ks[c].sub, ns, b) == KidsCnt(ks, ns, b) + Cnt(x.sub, ns, b)
  {
    KidsCntAt(ks, c, ns, b);
    KidsCntAt(ks[c := x], c, ns, b);
    assert ks[c := x][..c] == ks[..c] && ks[c := x][c+1..] == ks[c+1..];
  }

  /** A leaf mutation is refused for the leaf's sake. */
  lemma {:induction false} LeafRefusal(op: LeafOp, items: seq<Item>, ns: nat)
    ensures ApplyLeaf(op, items, ns).Err? ==> ApplyLeaf(op, items, ns).error in {LeafFull, NoRoom, Missing}
  {
  }

  /** The state between two levels of the walk: the outcome so far is on the device, the old
      tree and all foreign blocks still are, and blocks were only taken. */
  ghost predicate Working(st: Climb, m: Mutated, t: Tree, dev: Device, fr: seq<Extent>, dev0: Device, fr0: seq<Extent>,
                          ns: nat) {
    match m
    case MFail(e) => st == Failed(e) && Rest(t, dev, fr, dev0, fr0, ns) && UsedUp(e, dev, fr, dev0, fr0, ns)
    case MDrop => st == Dropped && fr == fr0 && Rest(t, dev, fr, dev0, fr0, ns)
    case MKeep(t', fr', shrunk) =>
      st == Kept(t'.addr, shrunk) && Stored(dev, t') && fr == fr' && Rest(t, dev, fr, dev0, fr0, ns)
  }

  ghost predicate Rest(t: Tree, dev: Device, fr: seq<Extent>, dev0: Device, fr0: seq<Extent>, ns: nat) {
    Stored(dev, t) && Spared(dev0, dev, fr0, t, ns) && Fewer(fr, fr0) && Taking(fr0, fr, ns)
  }

  /** Path entry pe is node; m is its outcome, given the outcome below for its routed child. */
  ghost predicate Link(pe: PathEntry, node: Tree, m: Mutated, below: Mutated, top: bool, fr: seq<Extent>, ns: nat,
                       g: nat) {
    match node
    case Leaf(_, _, _) => false
    case Node(a, _, lvl, kids) =>
      && pe.addr == a && pe.block == BlockOf(node) && pe.childIdx < |kids|
      && Clean(fr, node, ns) && KidsClean(kids, pe.childIdx, below, ns, g)
      && m == MutateUp(lvl, kids, pe.childIdx, below, top, fr, ns, g)
  }

  /** The children with the rewritten one in place avoid the free bytes left. */
  ghost predicate KidsClean(kids: seq<Kid>, c: nat, below: Mutated, ns: nat, g: nat)
    requires c < |kids|
  {
    match below
    case MFail(_) => true
    case MDrop => true
    case MKeep(s, fr, _) => forall b: nat :: FreeCnt(fr, b) + KidsCnt(kids[c := Kid(kids[c].sep, g, s)], ns, b) <= 1
  }

  /** node is t or lies below it. */
  ghost predicate Part(t: Tree, node: Tree) {
    t == node || (t.Node? && exists i :: 0 <= i < |t.kids| && Part(t.kids[i].sub, node))
  }

  lemma {:induction false} PartStored(dev: Device, t: Tree, node: Tree)
    requires Stored(dev, t) && Part(t, node)
    ensures Stored(dev, node)
    decreases t
  {
    if t != node {
      var i :| 0 <= i < |t.kids| && Part(t.kids[i].sub, node);
      PartStored(dev, t.kids[i].sub, node);
    }
  }

  /** The path, its nodes and their outcomes belong together; top says the first is the root. */
  ghost predicate Linked(path: seq<PathEntry>, nodes: seq<Tree>, ms: seq<Mutated>, top: bool, t: Tree, fr: seq<Extent>,
                         ns: nat, g: nat) {
    && |path| == |nodes| == |ms| > 0
    && path[|path|-1].addr == nodes[|nodes|-1].addr && path[|path|-1].block == BlockOf(nodes[|nodes|-1])
    && (forall i {:trigger nodes[i]} :: 0 <= i < |path| ==> Part(t, nodes[i]))
    && (forall i {:trigger ms[i]} :: 0 <= i < |path| && ms[i].MFail? ==> ms[0] == ms[i])
    && (forall i {:trigger path[i]} :: 0 <= i < |path| - 1 ==>
          Link(path[i], nodes[i], ms[i], ms[i+1], top && i == 0, fr, ns, g))
  }

  /** The addresses of the nodes, last one first. */
  ghost function AddrsUp(nodes: seq<Tree>): seq<nat> {
    if nodes == [] then [] else AddrsUp(nodes[1..]) + [nodes[0].addr]
  }

  lemma {:induction false} AddrsUpLast(nodes: seq<Tree>)
    requires nodes != []
    ensures AddrsUp(nodes[|nodes|-1..]) == [nodes[|nodes|-1].addr]
  {
    assert nodes[|nodes|-1..][1..] == [];
  }

  lemma {:induction false} AddrsUpStep(nodes: seq<Tree>, i: nat)
    requires i < |nodes|
    ensures AddrsUp(nodes[i..]) == AddrsUp(nodes[i+1..]) + [nodes[i].addr]
  {
    assert nodes[i..][1..] == nodes[i+1..];
  }

  /** The tree nodes on the route of k, root first. */
  ghost function NodesOn(t: Tree, k: Key): seq<Tree>
    requires Shape(t, LevelOf(t))
    decreases t
  {
    if t.Leaf? then [t] else RoutedShape(t, k); [t] + NodesOn(t.kids[RouteKid(t.kids, k)].sub, k)
  }

  /** The outcomes of the mutation for them. */
  ghost function OutcomesOn(t: Tree, op: LeafOp, top: bool, fr: seq<Extent>, ns: nat, g: nat): seq<Mutated>
    requires Shape(t, LevelOf(t))
    decreases t
  {
    var m := MutateRec(t, op, top, fr, ns, g);
    if t.Leaf? then [m]
    else
      RoutedShape(t, RouteKey(op));
      [m] + OutcomesOn(t.kids[RouteKid(t.kids, RouteKey(op))].sub, op, false, fr, ns, g)
  }

  lemma {:induction false} RootLink(t: Tree, op: LeafOp, top: bool, fr: seq<Extent>, ns: nat, g: nat)
    requires t.Node? && Shape(t, LevelOf(t)) && Clean(fr, t, ns)
    ensures var c := RouteKid(t.kids, RouteKey(op));
            && Shape(t.kids[c].sub, LevelOf(t.kids[c].sub))
            && Link(PathEntry(t.addr, BlockOf(t), c), t, MutateRec(t, op, top, fr, ns, g),
                    MutateRec(t.kids[c].sub, op, false, fr, ns, g), top, fr, ns, g)
  {
    StepClean(t, op, fr, ns, g);
    MutateRecNode(t, op, top, fr, ns, g);
  }

  lemma {:induction false} PartKid(t: Tree, c: nat, node: Tree)
    requires t.Node? && c < |t.kids| && Part(t.kids[c].sub, node)
    ensures Part(t, node)
  {
  }

  lemma {:induction false} PartSelf(t: Tree)
    ensures Part(t, t)
  {
  }

  /** A failure below is the outcome of the node as well. */
  lemma {:induction false} LinkFails(pe: PathEntry, node: Tree, m: Mutated, below: Mutated, top: bool, fr: seq<Extent>,
                                     ns: nat, g: nat)
    requires Link(pe, node, m, below, top, fr, ns, g)
    ensures below.MFail? ==> m == below
  {
  }

  lemma {:induction false} LinkCons(pe: PathEntry, node: Tree, m: Mutated, top: bool, c: nat,
                 path: seq<PathEntry>, nodes: seq<Tree>, ms: seq<Mutated>, fr: seq<Extent>, ns: nat, g: nat)
    requires node.Node? && c < |node.kids| && Linked(path, nodes, ms, false, node.kids[c].sub, fr, ns, g)
    requires Link(pe, node, m, ms[0], top, fr, ns, g)
    ensures Linked([pe] + path, [node] + nodes, [m] + ms, top, node, fr, ns, g)
  {
    hide Part, Link;
    var p, n, s := [pe] + path, [node] + nodes, [m] + ms;
    PartSelf(node);
    LinkFails(pe, node, m, ms[0], top, fr, ns, g);
    forall i {:trigger n[i]} | 0 <= i < |p| ensures Part(node, n[i]) {
      if i > 0 {
        PartKid(node, c, nodes[i-1]);
      }
    }
    forall i {:trigger p[i]} | 0 <= i < |p| - 1 ensures Link(p[i], n[i], s[i], s[i+1], top && i == 0, fr, ns, g) {
      if i > 0 {
        var q := path[i-1];
      }
    }
  }

  lemma {:induction false} ChainHolds(t: Tree, op: LeafOp, top: bool, fr: seq<Extent>, ns: nat, g: nat)
    requires Shape(t, LevelOf(t)) && Clean(fr, t, ns)
    ensures var p, nodes, ms := PathOf(t, RouteKey(op)), NodesOn(t, RouteKey(op)), OutcomesOn(t, op, top, fr, ns, g);
            && Linked(p, nodes, ms, top, t, fr, ns, g)
            && nodes[|nodes|-1].Leaf?
            && ms[|ms|-1] == MutateLeaf(op, nodes[|nodes|-1].items, top && |p| == 1, fr, ns, g)
            && ms[0] == MutateRec(t, op, top, fr, ns, g)
    decreases t
  {
    hide Linked, Clean, MutateRec, RouteKid, MutateLeaf, NodesOn, OutcomesOn, PathOf, Shape, Link, RouteKey;
    var k := RouteKey(op);
    if t.Leaf? {
      ChainLeaf(t, op, top, fr, ns, g);
    } else {
      ChainUnfold(t, op, top, fr, ns, g);
      var c := RouteKid(t.kids, k);
      var s := t.kids[c].sub;
      KidClean(fr, t, c, ns);
      ChainHolds(s, op, false, fr, ns, g);
      RootLink(t, op, top, fr, ns, g);
      LinkCons(PathEntry(t.addr, BlockOf(t), c), t, MutateRec(t, op, top, fr, ns, g), top, c,
               PathOf(s, k), NodesOn(s, k), OutcomesOn(s, op, false, fr, ns, g), fr, ns, g);
      LinkedLens(PathOf(s, k), NodesOn(s, k), OutcomesOn(s, op, false, fr, ns, g), false, s, fr, ns, g);
      ConsEnds(t, NodesOn(s, k));
      ConsEnds(MutateRec(t, op, top, fr, ns, g), OutcomesOn(s, op, false, fr, ns, g));
    }
  }

  lemma {:induction false} ChainLeaf(t: Tree, op: LeafOp, top: bool, fr: seq<Extent>, ns: nat, g: nat)
    requires t.Leaf? && Shape(t, LevelOf(t))
    ensures var p, nodes, ms := PathOf(t, RouteKey(op)), NodesOn(t, RouteKey(op)), OutcomesOn(t, op, top, fr, ns, g);
            && Linked(p, nodes, ms, top, t, fr, ns, g)
            && |p| == 1 && nodes == [t] && ms == [MutateLeaf(op, t.items, top, fr, ns, g)]
            && ms[0] == MutateRec(t, op, top, fr, ns, g)
  {
    hide MutateLeaf, Link;
  }

  /** The chain of a node is the node in front of its routed child's chain. */
  lemma {:induction false} ChainUnfold(t: Tree, op: LeafOp, top: bool, fr: seq<Extent>, ns: nat, g: nat)
    requires t.Node? && Shape(t, LevelOf(t))
    ensures var k := RouteKey(op);
            var c := RouteKid(t.kids, k);
            var s := t.kids[c].sub;
            && Shape(s, LevelOf(s))
            && PathOf(t, k) == [PathEntry(t.addr, BlockOf(t), c)] + PathOf(s, k)
            && NodesOn(t, k) == [t] + NodesOn(s, k)
            && OutcomesOn(t, op, top, fr, ns, g) ==
               [MutateRec(t, op, top, fr, ns, g)] + OutcomesOn(s, op, false, fr, ns, g)
  {
    hide MutateRec;
    RoutedShape(t, RouteKey(op));
  }

  lemma {:induction false} LinkedLens(path: seq<PathEntry>, nodes: seq<Tree>, ms: seq<Mutated>, top: bool, t: Tree,
                                      fr: seq<Extent>, ns: nat, g: nat)
    requires Linked(path, nodes, ms, top, t, fr, ns, g)
    ensures |path| == |nodes| == |ms| > 0
  {
    hide Link, Part;
  }

  lemma {:induction false} SpineIsAddrs(t: Tree, k: Key)
    requires Shape(t, LevelOf(t))
    ensures AddrsUp(NodesOn(t, k)) == SpineAddrs(t, k)
    decreases t
  {
    if t.Leaf? {
      assert [t][1..] == [];
    } else {
      RoutedShape(t, k);
      var s := t.kids[RouteKid(t.kids, k)].sub;
      SpineIsAddrs(s, k);
      SpineNode(t, k, 0, 0);
      assert ([t] + NodesOn(s, k))[1..] == NodesOn(s, k);
    }
  }

  lemma {:induction false} RestStored(dev: Device, node: Tree, c: nat)
    requires node.Node? && Stored(dev, node) && c < |node.kids|
    ensures var kids := node.kids[..c] + node.kids[c+1..];
            forall i :: 0 <= i < |kids| ==> Stored(dev, kids[i].sub)
  {
    var kids := node.kids[..c] + node.kids[c+1..];
    forall i | 0 <= i < |kids| ensures Stored(dev, kids[i].sub) {
      assert kids[i] == node.kids[if i < c then i else i + 1];
    }
  }

  lemma {:induction false} RestClean(fr: seq<Extent>, node: Tree, c: nat, ns: nat)
    requires node.Node? && Clean(fr, node, ns) && c < |node.kids|
    ensures forall b: nat :: FreeCnt(fr, b) + KidsCnt(node.kids[..c] + node.kids[c+1..], ns, b) <= 1
  {
    forall b: nat ensures FreeCnt(fr, b) + KidsCnt(node.kids[..c] + node.kids[c+1..], ns, b) <= 1 {
      assert FreeCnt(fr, b) + Cnt(node, ns, b) <= 1;
      KidsCntAt(node.kids, c, ns, b);
      KidsCntConcat(node.kids[..c], node.kids[c+1..], ns, b);
    }
  }

  /** tracePath's scan of one inner node. */
  method ChooseChild(ps: seq<Ptr>, k: Key) returns (c: nat)
    requires ps != []
    ensures c == Route(ps, k) && c < |ps|
  {
    var chosen := -1;
    var i := 0;
    while i < |ps|
      invariant 0 <= i <= |ps| && chosen == i - 1
      invariant forall j :: 0 <= j < i ==> Rank(ps[j].k) <= Rank(k)
    {
      CompareIsRank(ps[i].k, k);
      if CompareKeys(ps[i].k, k.objID, k.typ, k.offset) <= 0 {
        chosen := i;
      } else {
        break;
      }
      i := i + 1;
    }
    assert Lead(ps, k) == i;
    c := if chosen < 0 then 0 else chosen;
  }
}
