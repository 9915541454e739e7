/** cowInsertSplit and cowInsert on the device. */
module CowInsertEngine {
  import opened Keys
  import opened FreeSpace
  import opened Trees
  import opened CowSpec
  import opened CowLeaf
  import opened CowMutate
  import opened CowConserve
  import opened CowSplit
  import opened CowOutcome
  import opened Volumes
  import opened CowEngine

  /** Where the walk up the path stands: one new child, or two around a separator. */
  datatype SplitClimb = SplitFailed(error: Error) | Single(addr: nat) | Pair(left: nat, sep: Key, right: nat)

  /** The state between two levels of the walk. */
  ghost predicate Splitting(st: SplitClimb, m: Splitted, t: Tree, dev: Device, fr: seq<Extent>, dev0: Device,
                            fr0: seq<Extent>, ns: nat) {
    match m
    case SFail(e) => st == SplitFailed(e) && Rest(t, dev, fr, dev0, fr0, ns) && UsedUp(e, dev, fr, dev0, fr0, ns)
    case One(s, fr') => st == Single(s.addr) && Stored(dev, s) && fr == fr' && Rest(t, dev, fr, dev0, fr0, ns)
    case Two(l, sep, r, fr') =>
      st == Pair(l.addr, sep, r.addr) && Stored(dev, l) && Stored(dev, r) && fr == fr'
          && Rest(t, dev, fr, dev0, fr0, ns)
  }

  // ---- writing two nodes -------------------------------------------------------------------------

  /** The tree a block over stored children stands for once it is at address a. */
  ghost function TreeOf(blk: Block, kids: seq<Kid>, a: nat, g: nat): Tree {
    match blk
    case LeafBlock(_, _, items) => Leaf(a, g, items)
    case InnerBlock(_, _, lvl, _) => Node(a, g, lvl, kids)
  }

  ghost predicate Over(blk: Block, kids: seq<Kid>, dev: Device) {
    && (blk.LeafBlock? ==> kids == [])
    && (blk.InnerBlock? ==> blk.ptrs == Ptrs(kids))
    && forall i :: 0 <= i < |kids| ==> Stored(dev, kids[i].sub)
  }

  /** One granted block written: the new node is stored, and whatever avoided the free bytes
      stays stored. */
  lemma {:induction false} OneWritten(dev: Device, fr: seq<Extent>, blk: Block, kids: seq<Kid>, ns: nat, g: nat)
    requires ns > 0 && Over(blk, kids, dev) && FirstFit(fr, ns).Granted?
    requires forall b: nat :: FreeCnt(fr, b) + KidsCnt(kids, ns, b) <= 1
    ensures var a := FirstFit(fr, ns).addr;
            && BlockOf(TreeOf(blk, kids, a, g)) == Stamp(blk, a, g)
            && Stored(WriteBlock(dev, ns, a, Stamp(blk, a, g)), TreeOf(blk, kids, a, g))
  {
    var a := FirstFit(fr, ns).addr;
    var n := TreeOf(blk, kids, a, g);
    if n.Node? {
      StoreGranted(dev, fr, ns, n);
    } else {
      StoreNode(dev, ns, n);
    }
  }

  lemma {:induction false} StaysStored(dev: Device, fr: seq<Extent>, t: Tree, ns: nat, blk: Block)
    requires ns > 0 && Stored(dev, t) && Clean(fr, t, ns) && FirstFit(fr, ns).Granted?
    ensures Stored(WriteBlock(dev, ns, FirstFit(fr, ns).addr, blk), t)
    ensures Clean(FirstFit(fr, ns).rest, t, ns)
  {
    GrantAvoids(fr, t, ns);
    WriteFrame(dev, t, ns, FirstFit(fr, ns).addr, blk);
  }

  lemma {:induction false} StaysOver(dev: Device, fr: seq<Extent>, blk: Block, kids: seq<Kid>, ns: nat, w: Block)
    requires ns > 0 && Over(blk, kids, dev) && FirstFit(fr, ns).Granted?
    requires forall b: nat :: FreeCnt(fr, b) + KidsCnt(kids, ns, b) <= 1
    ensures Over(blk, kids, WriteBlock(dev, ns, FirstFit(fr, ns).addr, w))
  {
    forall i | 0 <= i < |kids| ensures Stored(WriteBlock(dev, ns, FirstFit(fr, ns).addr, w), kids[i].sub) {
      forall b: nat ensures FreeCnt(fr, b) + Cnt(kids[i].sub, ns, b) <= 1 {
        assert FreeCnt(fr, b) + KidsCnt(kids, ns, b) <= 1;
        KidCntLe(kids, i, ns, b);
      }
      StaysStored(dev, fr, kids[i].sub, ns, w);
    }
  }

  lemma {:induction false} RestWritten(t: Tree, dev: Device, fr: seq<Extent>, dev0: Device, fr0: seq<Extent>, ns: nat,
                                       blk: Block)
    requires ns > 0 && Rest(t, dev, fr, dev0, fr0, ns) && Clean(fr0, t, ns) && FirstFit(fr, ns).Granted?
    ensures Rest(t, WriteBlock(dev, ns, FirstFit(fr, ns).addr, blk), FirstFit(fr, ns).rest, dev0, fr0, ns)
  {
    FewerClean(fr, fr0, t, ns);
    StaysStored(dev, fr, t, ns, blk);
    GrantSpares(dev0, dev, fr0, fr, t, ns, blk);
    GrantFewer(fr, ns);
    TakingOne(fr0, fr, ns);
    forall b: nat ensures FreeCnt(FirstFit(fr, ns).rest, b) <= FreeCnt(fr0, b) {
      assert FreeCnt(FirstFit(fr, ns).rest, b) <= FreeCnt(fr, b) <= FreeCnt(fr0, b);
    }
  }

  /** What WritePair stands for on trees. */
  ghost function TwoOf(lb: Block, lk: seq<Kid>, rb: Block, rk: seq<Kid>, sep: Key, fr: seq<Extent>, ns: nat,
                       g: nat): Splitted {
    match FirstFit(fr, ns)
    case NoSpace => SFail(NoBlock)
    case Granted(a, fr1) =>
      match FirstFit(fr1, ns)
      case NoSpace => SFail(NoBlock)
      case Granted(b, fr2) => Two(TreeOf(lb, lk, a, g), sep, TreeOf(rb, rk, b, g), fr2)
  }

  ghost predicate Apart(fr: seq<Extent>, lk: seq<Kid>, rk: seq<Kid>, ns: nat) {
    forall b: nat :: FreeCnt(fr, b) + KidsCnt(lk, ns, b) + KidsCnt(rk, ns, b) <= 1
  }

  lemma {:induction false} PairApart(fr: seq<Extent>, lb: Block, lk: seq<Kid>, rk: seq<Kid>, ns: nat, g: nat)
    requires Apart(fr, lk, rk, ns) && FirstFit(fr, ns).Granted? && (lb.LeafBlock? ==> lk == [])
    ensures forall b: nat :: FreeCnt(fr, b) + KidsCnt(lk, ns, b) <= 1
    ensures forall b: nat :: FreeCnt(fr, b) + KidsCnt(rk, ns, b) <= 1
    ensures forall b: nat :: FreeCnt(FirstFit(fr, ns).rest, b) + KidsCnt(rk, ns, b) <= 1
    ensures Clean(FirstFit(fr, ns).rest, TreeOf(lb, lk, FirstFit(fr, ns).addr, g), ns)
  {
    var gr := FirstFit(fr, ns);
    forall b: nat
      ensures FreeCnt(fr, b) + KidsCnt(lk, ns, b) <= 1 && FreeCnt(fr, b) + KidsCnt(rk, ns, b) <= 1
      ensures FreeCnt(gr.rest, b) + KidsCnt(rk, ns, b) <= 1
      ensures FreeCnt(gr.rest, b) + Cnt(TreeOf(lb, lk, gr.addr, g), ns, b) <= 1
    {
      assert FreeCnt(fr, b) + KidsCnt(lk, ns, b) + KidsCnt(rk, ns, b) <= 1;
      FirstFitCnt(fr, ns, b);
    }
  }

  /** Writes two new nodes, the left one first. */
  method WritePair(v: Volume, lb: Block, rb: Block, sep: Key, ghost lk: seq<Kid>, ghost rk: seq<Kid>,
                   ghost t: Tree, ghost dev0: Device, ghost fr0: seq<Extent>)
    returns (st: SplitClimb)
    requires v.Valid() && Over(lb, lk, v.dev) && Over(rb, rk, v.dev) && Apart(v.sm.freeExts, lk, rk, v.ns)
    requires Rest(t, v.dev, v.sm.freeExts, dev0, fr0, v.ns) && Clean(fr0, t, v.ns)
    modifies v`dev, v.sm`freeExts
    ensures Splitting(st, TwoOf(lb, lk, rb, rk, sep, old(v.sm.freeExts), v.ns, v.generation + 1), t, v.dev,
                      v.sm.freeExts, dev0, fr0, v.ns)
  {
    hide Stored, Clean, Spared, Fewer, FreeCnt, KidsCnt, Cnt, Apart, FirstFit;
    ghost var fr, d := v.sm.freeExts, v.dev;
    var l := v.WriteCowNode(lb);
    if l.None? {
      return SplitFailed(NoBlock);
    }
    PairApart(fr, lb, lk, rk, v.ns, v.generation + 1);
    OneWritten(d, fr, lb, lk, v.ns, v.generation + 1);
    StaysOver(d, fr, rb, rk, v.ns, Stamp(lb, l.value, v.generation + 1));
    RestWritten(t, d, fr, dev0, fr0, v.ns, Stamp(lb, l.value, v.generation + 1));
    var r := WriteRight(v, rb, rk, TreeOf(lb, lk, l.value, v.generation + 1), t, dev0, fr0);
    st := if r.None? then SplitFailed(NoBlock) else Pair(l.value, sep, r.value);
  }

  /** Writes the right node after the left one, lt. */
  method WriteRight(v: Volume, rb: Block, ghost rk: seq<Kid>, ghost lt: Tree, ghost t: Tree, ghost dev0: Device,
                    ghost fr0: seq<Extent>)
    returns (r: Option<nat>)
    requires v.Valid() && Over(rb, rk, v.dev) && Stored(v.dev, lt) && Clean(v.sm.freeExts, lt, v.ns)
    requires forall b: nat :: FreeCnt(v.sm.freeExts, b) + KidsCnt(rk, v.ns, b) <= 1
    requires Rest(t, v.dev, v.sm.freeExts, dev0, fr0, v.ns) && Clean(fr0, t, v.ns)
    modifies v`dev, v.sm`freeExts
    ensures Rest(t, v.dev, v.sm.freeExts, dev0, fr0, v.ns)
    ensures r.None? ==> FirstFit(old(v.sm.freeExts), v.ns).NoSpace? && v.sm.freeExts == old(v.sm.freeExts)
    ensures r.Some? ==> FirstFit(old(v.sm.freeExts), v.ns) == Granted(r.value, v.sm.freeExts)
    ensures r.Some? ==> Stored(v.dev, lt) && Stored(v.dev, TreeOf(rb, rk, r.value, v.generation + 1))
  {
    ghost var fr, d := v.sm.freeExts, v.dev;
    r := v.WriteCowNode(rb);
    if r.Some? {
      OneWritten(d, fr, rb, rk, v.ns, v.generation + 1);
      StaysStored(d, fr, lt, v.ns, Stamp(rb, r.value, v.generation + 1));
      RestWritten(t, d, fr, dev0, fr0, v.ns, Stamp(rb, r.value, v.generation + 1));
    }
  }

  /** Writes one new inner node. */
  method WriteSingle(v: Volume, lvl: nat, ps: seq<Ptr>, ghost kids: seq<Kid>, ghost t: Tree, ghost dev0: Device,
                     ghost fr0: seq<Extent>)
    returns (st: SplitClimb)
    requires v.Valid() && Over(InnerBlock(0, 0, lvl, ps), kids, v.dev)
    requires forall b: nat :: FreeCnt(v.sm.freeExts, b) + KidsCnt(kids, v.ns, b) <= 1
    requires Rest(t, v.dev, v.sm.freeExts, dev0, fr0, v.ns) && Clean(fr0, t, v.ns)
    modifies v`dev, v.sm`freeExts
    ensures Splitting(st, OneNode(lvl, kids, old(v.sm.freeExts), v.ns, v.generation + 1), t, v.dev, v.sm.freeExts,
                      dev0, fr0, v.ns)
  {
    ghost var fr, d := v.sm.freeExts, v.dev;
    var blk := InnerBlock(0, 0, lvl, ps);
    var w := v.WriteCowNode(blk);
    if w.None? {
      return SplitFailed(NoBlock);
    }
    OneWritten(d, fr, blk, kids, v.ns, v.generation + 1);
    RestWritten(t, d, fr, dev0, fr0, v.ns, Stamp(blk, w.value, v.generation + 1));
    return Single(w.value);
  }

  // ---- one level up ------------------------------------------------------------------------------

  /** Path entry pe is node; m is its outcome, given the outcome below for its routed child. */
  ghost predicate SplitLink(pe: PathEntry, node: Tree, m: Splitted, below: Splitted, ns: nat, g: nat) {
    match node
    case Leaf(_, _, _) => false
    case Node(a, _, lvl, kids) =>
      && pe.addr == a && pe.block == BlockOf(node) && pe.childIdx < |kids|
      && SplitKidsClean(kids, pe.childIdx, below, ns, g)
      && m == SplitUp(lvl, kids, pe.childIdx, below, ns, g)
  }

  /** The children with the rewritten ones in place avoid the free bytes left. */
  ghost predicate SplitKidsClean(kids: seq<Kid>, c: nat, below: Splitted, ns: nat, g: nat)
    requires c < |kids|
  {
    match below
    case SFail(_) => true
    case One(s, fr) => forall b: nat :: FreeCnt(fr, b) + KidsCnt(kids[c := Kid(kids[c].sep, g, s)], ns, b) <= 1
    case Two(l, sep, r, fr) => forall b: nat :: FreeCnt(fr, b) + KidsCnt(Widened(kids, c, l, sep, r, g), ns, b) <= 1
  }

  lemma {:induction false} ReplacedStored(dev: Device, node: Tree, c: nat, x: Kid)
    requires node.Node? && c < |node.kids| && Stored(dev, node) && Stored(dev, x.sub)
    ensures var ks := node.kids[c := x]; forall i :: 0 <= i < |ks| ==> Stored(dev, ks[i].sub)
  {
  }

  lemma {:induction false} WidenedStored(dev: Device, node: Tree, c: nat, l: Tree, sep: Key, r: Tree, g: nat)
    requires node.Node? && c < |node.kids| && Stored(dev, node) && Stored(dev, l) && Stored(dev, r)
    ensures var all := Widened(node.kids, c, l, sep, r, g);
            forall i :: 0 <= i < |all| ==> Stored(dev, all[i].sub)
  {
    var all := Widened(node.kids, c, l, sep, r, g);
    forall i | 0 <= i < |all| ensures Stored(dev, all[i].sub) {
      if i < c {
        assert all[i] == node.kids[i];
      } else if i > c + 1 {
        assert all[i] == node.kids[i-1];
      }
    }
  }

  lemma {:induction false} CutApart(fr: seq<Extent>, all: seq<Kid>, p: nat, ns: nat)
    requires p <= |all| && forall b: nat :: FreeCnt(fr, b) + KidsCnt(all, ns, b) <= 1
    ensures Apart(fr, all[..p], all[p..], ns)
  {
    forall b: nat ensures FreeCnt(fr, b) + KidsCnt(all[..p], ns, b) + KidsCnt(all[p..], ns, b) <= 1 {
      CutAt(all, p);
      KidsCntConcat(all[..p], all[p..], ns, b);
      assert FreeCnt(fr, b) + KidsCnt(all, ns, b) <= 1;
    }
  }

  /** One iteration of cowInsertSplit's walk. */
  method StepSplit(v: Volume, pe: PathEntry, st: SplitClimb, ghost node: Tree, ghost below: Splitted, ghost m: Splitted,
                   ghost t: Tree, ghost dev0: Device, ghost fr0: seq<Extent>)
    returns (st': SplitClimb)
    requires v.Valid() && SplitLink(pe, node, m, below, v.ns, v.generation + 1) && !below.SFail?
    requires Splitting(st, below, t, v.dev, v.sm.freeExts, dev0, fr0, v.ns) && Clean(fr0, t, v.ns)
             && Stored(v.dev, node)
    modifies v`dev, v.sm`freeExts
    ensures Splitting(st', m, t, v.dev, v.sm.freeExts, dev0, fr0, v.ns)
  {
    hide FreeCnt, KidsCnt, Rest, Clean, FirstFit, UsedUp, Rank, Stored;
    var ptrs, c, lvl := pe.block.ptrs, pe.childIdx, pe.block.level;
    var g := v.generation + 1;
    if st.Single? {
      ghost var x := Kid(node.kids[c].sep, g, below.t);
      PtrsSet(node.kids, c, x);
      ReplacedStored(v.dev, node, c, x);
      st' := WriteSingle(v, lvl, ptrs[c := Ptr(ptrs[c].k, st.addr, g)], node.kids[c := x], t, dev0, fr0);
    } else {
      ghost var all := Widened(node.kids, c, below.l, below.sep, below.r, g);
      var ps := ptrs[..c] + [Ptr(ptrs[c].k, st.left, g), Ptr(st.sep, st.right, g)] + ptrs[c+1..];
      PtrsWiden(node.kids, c, below.l, below.sep, below.r, g);
      WidenedStored(v.dev, node, c, below.l, below.sep, below.r, g);
      if NodeFits(|ptrs| + 1, v.ns) {
        st' := WriteSingle(v, lvl, ps, all, t, dev0, fr0);
      } else {
        var p := |ps| / 2;
        PtrsCut(all, p);
        CutApart(v.sm.freeExts, all, p, v.ns);
        st' := WritePair(v, InnerBlock(0, 0, lvl, ps[..p]), InnerBlock(0, 0, lvl, ps[p..]), ps[p].k, all[..p],
                         all[p..], t, dev0, fr0);
      }
    }
  }

  // ---- the walk -------------------------------------------------------------------------------------

  ghost predicate SplitLinked(path: seq<PathEntry>, nodes: seq<Tree>, ms: seq<Splitted>, t: Tree, ns: nat, g: nat) {
    && |path| == |nodes| == |ms| > 0
    && path[|path|-1].addr == nodes[|nodes|-1].addr && path[|path|-1].block == BlockOf(nodes[|nodes|-1])
    && (forall i {:trigger nodes[i]} :: 0 <= i < |path| ==> Part(t, nodes[i]))
    && (forall i {:trigger ms[i]} :: 0 <= i < |path| && ms[i].SFail? ==> ms[0] == ms[i])
    && (forall i {:trigger path[i]} :: 0 <= i < |path| - 1 ==> SplitLink(path[i], nodes[i], ms[i], ms[i+1], ns, g))
  }

  /** The loop of cowInsertSplit up the path, from the split leaf's outcome st0. */
  method WalkSplit(v: Volume, path: seq<PathEntry>, st0: SplitClimb, ghost nodes: seq<Tree>, ghost ms: seq<Splitted>,
                   ghost t: Tree, ghost dev0: Device, ghost fr0: seq<Extent>)
    returns (st: SplitClimb, freed: seq<nat>)
    requires v.Valid() && Clean(fr0, t, v.ns) && SplitLinked(path, nodes, ms, t, v.ns, v.generation + 1)
    requires Splitting(st0, ms[|ms|-1], t, v.dev, v.sm.freeExts, dev0, fr0, v.ns)
    modifies v`dev, v.sm`freeExts
    ensures Splitting(st, ms[0], t, v.dev, v.sm.freeExts, dev0, fr0, v.ns)
    ensures !st.SplitFailed? ==> freed == AddrsUp(nodes)
  {
    hide Stored, Clean, AddrsUp, Part, Spared, Fewer, FreeCnt, SplitKidsClean, SplitUp;
    var i := |path| - 1;
    st := st0;
    freed := [path[i].addr];
    AddrsUpLast(nodes);
    while i > 0 && !st.SplitFailed?
      invariant 0 <= i < |path|
      invariant Splitting(st, ms[i], t, v.dev, v.sm.freeExts, dev0, fr0, v.ns)
      invariant freed == AddrsUp(nodes[i..])
    {
      assert SplitLink(path[i-1], nodes[i-1], ms[i-1], ms[i], v.ns, v.generation + 1);
      PartStored(v.dev, t, nodes[i-1]);
      st := StepSplit(v, path[i-1], st, nodes[i-1], ms[i], ms[i-1], t, dev0, fr0);
      freed := freed + [path[i-1].addr];
      AddrsUpStep(nodes, i - 1);
      i := i - 1;
    }
    assert nodes[0..] == nodes;
  }

  /** The split of the routed leaf. */
  method SplitRoutedLeaf(v: Volume, items: seq<Item>, it: Item, ghost t: Tree) returns (st: SplitClimb)
    requires v.Valid() && Stored(v.dev, t) && Clean(v.sm.freeExts, t, v.ns)
    modifies v`dev, v.sm`freeExts
    ensures Splitting(st, SplitAtLeaf(items, it, old(v.sm.freeExts), v.ns, v.generation + 1), t, v.dev, v.sm.freeExts,
                      old(v.dev), old(v.sm.freeExts), v.ns)
  {
    TakingNone(v.sm.freeExts, v.ns);
    var s := SplitLeaf(items, it, v.ns);
    if s.Err? {
      st := SplitFailed(s.error);
    } else if s.value.1 == [] {
      st := SplitFailed(Corrupt);
    } else {
      LeavesApart(v.sm.freeExts, t, v.ns);
      st := WritePair(v, LeafBlock(0, 0, s.value.0), LeafBlock(0, 0, s.value.1), s.value.1[0].k, [], [], t, v.dev,
                      v.sm.freeExts);
    }
  }

  /** The split of the routed leaf, and the walk up from it. */
  method SplitPath(v: Volume, path: seq<PathEntry>, it: Item, ghost nodes: seq<Tree>, ghost ms: seq<Splitted>,
                   ghost t: Tree)
    returns (st: SplitClimb, freed: seq<nat>)
    requires v.Valid() && Stored(v.dev, t) && Clean(v.sm.freeExts, t, v.ns)
    requires SplitLinked(path, nodes, ms, t, v.ns, v.generation + 1)
    requires var leaf := nodes[|nodes|-1];
             leaf.Leaf? && ms[|ms|-1] == SplitAtLeaf(leaf.items, it, v.sm.freeExts, v.ns, v.generation + 1)
    modifies v`dev, v.sm`freeExts
    ensures Splitting(st, ms[0], t, v.dev, v.sm.freeExts, old(v.dev), old(v.sm.freeExts), v.ns)
    ensures !st.SplitFailed? ==> freed == AddrsUp(nodes)
  {
    hide SplitLink, Stored, Clean, SplitAtLeaf, AddrsUp, Part, Rest, Splitting, FreeCnt;
    var items := path[|path|-1].block.items;
    assert items == nodes[|nodes|-1].items;
    st := SplitRoutedLeaf(v, items, it, t);
    st, freed := WalkSplit(v, path, st, nodes, ms, t, old(v.dev), old(v.sm.freeExts));
  }

  lemma {:induction false} LeavesApart(fr: seq<Extent>, t: Tree, ns: nat)
    requires Clean(fr, t, ns)
    ensures Apart(fr, [], [], ns)
  {
    forall b: nat ensures FreeCnt(fr, b) <= 1 {
      assert FreeCnt(fr, b) + Cnt(t, ns, b) <= 1;
    }
  }

  // ---- the chain of outcomes ----------------------------------------------------------------------------

  ghost function SplitsOn(t: Tree, it: Item, fr: seq<Extent>, ns: nat, g: nat): seq<Splitted>
    requires Shape(t, LevelOf(t))
    decreases t
  {
    var m := SplitRec(t, it, fr, ns, g);
    if t.Leaf? then [m]
    else RoutedShape(t, it.k); [m] + SplitsOn(t.kids[RouteKid(t.kids, it.k)].sub, it, fr, ns, g)
  }

  lemma {:induction false} SplitStepClean(node: Tree, it: Item, fr: seq<Extent>, ns: nat, g: nat)
    requires node.Node? && Shape(node, LevelOf(node)) && Clean(fr, node, ns)
    ensures var c := RouteKid(node.kids, it.k);
            Shape(node.kids[c].sub, LevelOf(node.kids[c].sub))
    ensures var c := RouteKid(node.kids, it.k);
            SplitKidsClean(node.kids, c, SplitRec(node.kids[c].sub, it, fr, ns, g), ns, g)
  {
    RoutedShape(node, it.k);
    var c := RouteKid(node.kids, it.k);
    var m := SplitRec(node.kids[c].sub, it, fr, ns, g);
    if m.One? {
      var x := Kid(node.kids[c].sep, g, m.t);
      forall b: nat ensures FreeCnt(m.fr, b) + KidsCnt(node.kids[c := x], ns, b) <= 1 {
        assert FreeCnt(fr, b) + Cnt(node, ns, b) <= 1;
        SplitRecCnt(node.kids[c].sub, it, fr, ns, g, b);
        ReplacedCnt(node.kids, c, x, ns, b);
      }
    } else if m.Two? {
      forall b: nat ensures FreeCnt(m.fr, b) + KidsCnt(Widened(node.kids, c, m.l, m.sep, m.r, g), ns, b) <= 1 {
        assert FreeCnt(fr, b) + Cnt(node, ns, b) <= 1;
        SplitRecCnt(node.kids[c].sub, it, fr, ns, g, b);
        WidenedCnt(node.kids, c, m.l, m.sep, m.r, g, ns, b);
        KidsCntAt(node.kids, c, ns, b);
      }
    }
  }

  lemma {:induction false} RootSplitLink(t: Tree, it: Item, fr: seq<Extent>, ns: nat, g: nat)
    requires t.Node? && Shape(t, LevelOf(t)) && Clean(fr, t, ns)
    ensures var c := RouteKid(t.kids, it.k);
            && Shape(t.kids[c].sub, LevelOf(t.kids[c].sub))
            && SplitLink(PathEntry(t.addr, BlockOf(t), c), t, SplitRec(t, it, fr, ns, g),
                         SplitRec(t.kids[c].sub, it, fr, ns, g), ns, g)
  {
    SplitStepClean(t, it, fr, ns, g);
    SplitRecNode(t, it, fr, ns, g);
  }

  lemma {:induction false} SplitLinkCons(pe: PathEntry, node: Tree, m: Splitted, c: nat,
                      path: seq<PathEntry>, nodes: seq<Tree>, ms: seq<Splitted>, ns: nat, g: nat)
    requires node.Node? && c < |node.kids| && SplitLinked(path, nodes, ms, node.kids[c].sub, ns, g)
    requires SplitLink(pe, node, m, ms[0], ns, g)
    ensures SplitLinked([pe] + path, [node] + nodes, [m] + ms, node, ns, g)
  {
    var p, n, s := [pe] + path, [node] + nodes, [m] + ms;
    forall i {:trigger n[i]} | 0 <= i < |p| ensures Part(node, n[i]) {
      if i > 0 {
        PartKid(node, c, nodes[i-1]);
      }
    }
    forall i {:trigger p[i]} | 0 <= i < |p| - 1 ensures SplitLink(p[i], n[i], s[i], s[i+1], ns, g) {
      if i > 0 {
        var q := path[i-1];
      }
    }
  }

  /** The chain of a node is the node in front of its routed child's chain. */
  lemma {:induction false} SplitUnfold(t: Tree, it: Item, fr: seq<Extent>, ns: nat, g: nat)
    requires t.Node? && Shape(t, LevelOf(t))
    ensures var c := RouteKid(t.kids, it.k);
            var s := t.kids[c].sub;
            && Shape(s, LevelOf(s))
            && PathOf(t, it.k) == [PathEntry(t.addr, BlockOf(t), c)] + PathOf(s, it.k)
            && NodesOn(t, it.k) == [t] + NodesOn(s, it.k)
            && SplitsOn(t, it, fr, ns, g) == [SplitRec(t, it, fr, ns, g)] + SplitsOn(s, it, fr, ns, g)
  {
    hide SplitRec;
    RoutedShape(t, it.k);
  }

  lemma {:induction false} SplitLens(path: seq<PathEntry>, nodes: seq<Tree>, ms: seq<Splitted>, t: Tree, ns: nat,
                                     g: nat)
    requires SplitLinked(path, nodes, ms, t, ns, g)
    ensures |path| == |nodes| == |ms| > 0
  {
    hide SplitLink, Part;
  }

  lemma {:induction false} SplitChainHolds(t: Tree, it: Item, fr: seq<Extent>, ns: nat, g: nat)
    requires Shape(t, LevelOf(t)) && Clean(fr, t, ns)
    ensures var p, nodes, ms := PathOf(t, it.k), NodesOn(t, it.k), SplitsOn(t, it, fr, ns, g);
            && SplitLinked(p, nodes, ms, t, ns, g)
            && nodes[|nodes|-1].Leaf?
            && ms[|ms|-1] == SplitAtLeaf(nodes[|nodes|-1].items, it, fr, ns, g)
            && ms[0] == SplitRec(t, it, fr, ns, g)
    decreases t
  {
    if t.Node? {
      hide SplitLinked, Clean, SplitRec, Stored, RouteKid, SplitAtLeaf, NodesOn, SplitsOn, PathOf, Shape, SplitLink;
      SplitUnfold(t, it, fr, ns, g);
      var c := RouteKid(t.kids, it.k);
      var s := t.kids[c].sub;
      KidClean(fr, t, c, ns);
      SplitChainHolds(s, it, fr, ns, g);
      RootSplitLink(t, it, fr, ns, g);
      SplitLinkCons(PathEntry(t.addr, BlockOf(t), c), t, SplitRec(t, it, fr, ns, g), c,
                    PathOf(s, it.k), NodesOn(s, it.k), SplitsOn(s, it, fr, ns, g), ns, g);
      SplitLens(PathOf(s, it.k), NodesOn(s, it.k), SplitsOn(s, it, fr, ns, g), s, ns, g);
      ConsEnds(t, NodesOn(s, it.k));
      ConsEnds(SplitRec(t, it, fr, ns, g), SplitsOn(s, it, fr, ns, g));
    }
  }

  // ---- the end of the operation ---------------------------------------------------------------------------

  /** A pair left over at the root avoids the free bytes. */
  ghost predicate SplitFinished(m: Splitted, ns: nat) {
    match m
    case SFail(_) => true
    case One(_, _) => true
    case Two(l, _, r, fr) => forall b: nat :: FreeCnt(fr, b) + Cnt(l, ns, b) + Cnt(r, ns, b) <= 1
  }

  lemma {:induction false} SplitPairClean(t: Tree, it: Item, fr: seq<Extent>, ns: nat, g: nat)
    requires Shape(t, LevelOf(t)) && Clean(fr, t, ns)
    ensures SplitFinished(SplitRec(t, it, fr, ns, g), ns)
  {
    var m := SplitRec(t, it, fr, ns, g);
    if m.Two? {
      forall b: nat ensures FreeCnt(m.fr, b) + Cnt(m.l, ns, b) + Cnt(m.r, ns, b) <= 1 {
        assert FreeCnt(fr, b) + Cnt(t, ns, b) <= 1;
        SplitRecCnt(t, it, fr, ns, g, b);
      }
    }
  }

  lemma {:induction false} SplitPlan(t: Tree, it: Item, fr: seq<Extent>, ns: nat, g: nat)
    returns (nodes: seq<Tree>, ms: seq<Splitted>, x: Result<(Tree, seq<Extent>)>)
    requires Shape(t, LevelOf(t)) && Clean(fr, t, ns)
    ensures x == SplitTree(t, it, fr, ns, g)
    ensures SplitLinked(PathOf(t, it.k), nodes, ms, t, ns, g) && |nodes| == LevelOf(t) + 1
    ensures nodes[|nodes|-1].Leaf? && ms[|ms|-1] == SplitAtLeaf(nodes[|nodes|-1].items, it, fr, ns, g)
    ensures SplitFinished(ms[0], ns) && x == SplitDone(ms[0], AddrsUp(nodes), |nodes|, ns, g)
  {
    hide NodesOn, SplitsOn, SplitLink, Part, Clean, SplitRec, SplitAtLeaf, SplitDone, SplitFinished, Shape, PathOf,
         AddrsUp;
    nodes, ms, x := NodesOn(t, it.k), SplitsOn(t, it, fr, ns, g), SplitTree(t, it, fr, ns, g);
    SplitChainHolds(t, it, fr, ns, g);
    SpineIsAddrs(t, it.k);
    SplitPairClean(t, it, fr, ns, g);
    PathLen(t, it.k);
  }

  /** buildNewRoot and its write: a root over the two halves. */
  method BuildNewRoot(v: Volume, left: nat, sep: Key, right: nat, lvl: nat, ghost l: Tree, ghost r: Tree,
                      ghost t: Tree, ghost dev0: Device, ghost fr0: seq<Extent>)
    returns (res: Result<nat>)
    requires v.Valid() && Stored(v.dev, l) && Stored(v.dev, r) && left == l.addr && right == r.addr
    requires forall b: nat :: FreeCnt(v.sm.freeExts, b) + Cnt(l, v.ns, b) + Cnt(r, v.ns, b) <= 1
    requires Rest(t, v.dev, v.sm.freeExts, dev0, fr0, v.ns) && Clean(fr0, t, v.ns)
    modifies v`dev, v.sm`freeExts
    ensures var y := GrowRoot(lvl, l, sep, r, old(v.sm.freeExts), v.ns, v.generation + 1);
            && (y.Err? ==> res == Err(y.error))
            && (y.Ok? ==> res == Ok(y.value.0.addr) && Stored(v.dev, y.value.0) && v.sm.freeExts == y.value.1)
    ensures Rest(t, v.dev, v.sm.freeExts, dev0, fr0, v.ns)
    ensures res.Err? ==> UsedUp(res.error, v.dev, v.sm.freeExts, dev0, fr0, v.ns)
  {
    var buf := v.dev[left];
    var first: Key;
    if buf.LeafBlock? {
      if buf.items == [] {
        return Err(Corrupt);
      }
      first := buf.items[0].k;
    } else {
      if buf.ptrs == [] {
        return Err(Corrupt);
      }
      first := buf.ptrs[0].k;
    }
    var g := v.generation + 1;
    ghost var kids := [Kid(first, g, l), Kid(sep, g, r)];
    RootKidsClean(v.sm.freeExts, kids, v.ns);
    assert Ptrs(kids) == [Ptr(first, left, g), Ptr(sep, right, g)];
    var st := WriteSingle(v, lvl, [Ptr(first, left, g), Ptr(sep, right, g)], kids, t, dev0, fr0);
    res := if st.Single? then Ok(st.addr) else Err(NoBlock);
  }

  lemma {:induction false} RootKidsClean(fr: seq<Extent>, kids: seq<Kid>, ns: nat)
    requires |kids| == 2 && forall b: nat :: FreeCnt(fr, b) + Cnt(kids[0].sub, ns, b) + Cnt(kids[1].sub, ns, b) <= 1
    ensures forall b: nat :: FreeCnt(fr, b) + KidsCnt(kids, ns, b) <= 1
  {
    forall b: nat ensures FreeCnt(fr, b) + KidsCnt(kids, ns, b) <= 1 {
      TwoKidsCnt(kids, ns, b);
    }
  }

  /** The end of cowInsertSplit: grow the root if it split, then free the old path. */
  method FinishSplit(v: Volume, st: SplitClimb, freed: seq<nat>, depth: nat, ghost nodes: seq<Tree>, ghost m: Splitted,
                     ghost x: Result<(Tree, seq<Extent>)>, ghost t: Tree, ghost dev0: Device, ghost fr0: seq<Extent>)
    returns (r: Result<nat>)
    requires v.Valid() && Splitting(st, m, t, v.dev, v.sm.freeExts, dev0, fr0, v.ns) && Clean(fr0, t, v.ns)
    requires !st.SplitFailed? ==> freed == AddrsUp(nodes)
    requires SplitFinished(m, v.ns) && x == SplitDone(m, AddrsUp(nodes), depth, v.ns, v.generation + 1)
    modifies v`dev, v.sm`freeExts
    ensures Refines(r, x, t, v.dev, v.sm.freeExts, dev0, fr0, v.ns)
  {
    hide AddrsUp, FreeAll, Stored, Cnt, Spared, Fewer, FreeCnt, Clean, GrowRoot;
    if st.SplitFailed? {
      return Err(st.error);
    }
    if st.Single? {
      r := Ok(st.addr);
    } else {
      r := BuildNewRoot(v, st.left, st.sep, st.right, depth, m.l, m.r, t, dev0, fr0);
      if r.Err? {
        return;
      }
    }
    v.FreeBlocks(freed);
  }

  /** cowInsertSplit after the path is known. */
  method SplitAlong(v: Volume, path: seq<PathEntry>, it: Item, ghost t: Tree)
    returns (r: Result<nat>, ghost x: Result<(Tree, seq<Extent>)>)
    requires v.Valid() && Stored(v.dev, t) && Clean(v.sm.freeExts, t, v.ns)
    requires Shape(t, LevelOf(t)) && path == PathOf(t, it.k)
    modifies v`dev, v.sm`freeExts
    ensures x == SplitTree(t, it, old(v.sm.freeExts), v.ns, v.generation + 1)
    ensures Refines(r, x, t, v.dev, v.sm.freeExts, old(v.dev), old(v.sm.freeExts), v.ns)
  {
    hide SplitLink, Part, Stored, Clean, SplitAtLeaf, AddrsUp, SplitDone, SplitFinished, Splitting, Refines, Shape,
         SplitTree, PathOf;
    ghost var nodes, ms;
    nodes, ms, x := SplitPlan(t, it, v.sm.freeExts, v.ns, v.generation + 1);
    var st, freed := SplitPath(v, path, it, nodes, ms, t);
    r := FinishSplit(v, st, freed, |path|, nodes, ms[0], x, t, old(v.dev), old(v.sm.freeExts));
  }

  /** cowInsertSplit. */
  method CowInsertSplit(v: Volume, root: nat, it: Item, ghost t: Tree)
    returns (r: Result<nat>, ghost x: Result<(Tree, seq<Extent>)>)
    requires v.Valid() && Stored(v.dev, t) && root == t.addr && Shape(t, LevelOf(t)) && LevelOf(t) <= MAX_DEPTH
    requires Clean(v.sm.freeExts, t, v.ns)
    modifies v`dev, v.sm`freeExts
    ensures x == SplitTree(t, it, old(v.sm.freeExts), v.ns, v.generation + 1)
    ensures Refines(r, x, t, v.dev, v.sm.freeExts, old(v.dev), old(v.sm.freeExts), v.ns)
  {
    CleanTree(v.sm.freeExts, t, v.ns);
    var path := v.TracePath(root, it.k, t);
    r, x := SplitAlong(v, path.value, it, t);
  }

  lemma {:induction false} InsertTreeIs(t: Tree, k: Key, data: seq<u8>, fr: seq<Extent>, ns: nat, g: nat)
    requires Shape(t, LevelOf(t))
    ensures InsertTree(t, k, data, fr, ns, g) ==
            var x := MutateTree(t, Insert(k, data), fr, ns, g);
            if x == Err(LeafFull) then SplitTree(t, Item(k, data), fr, ns, g) else x
  {
  }

  lemma {:induction false} LeafFullIs(r: Result<nat>, x: Result<(Tree, seq<Extent>)>, t: Tree, dev: Device,
                                      fr: seq<Extent>, dev0: Device, fr0: seq<Extent>, ns: nat)
    requires Refines(r, x, t, dev, fr, dev0, fr0, ns)
    ensures r == Err(LeafFull) <==> x == Err(LeafFull)
  {
  }

  /** cowInsert: insert in place when the leaf has room, else split. */
  method CowInsert(v: Volume, root: nat, k: Key, data: seq<u8>, ghost t: Tree)
    returns (r: Result<nat>, ghost x: Result<(Tree, seq<Extent>)>)
    requires v.Valid() && Stored(v.dev, t) && root == t.addr && Shape(t, LevelOf(t)) && Clean(v.sm.freeExts, t, v.ns)
    modifies v`dev, v.sm`freeExts
    ensures x == InsertTree(t, k, data, old(v.sm.freeExts), v.ns, v.generation + 1)
    ensures Refines(r, x, t, v.dev, v.sm.freeExts, old(v.dev), old(v.sm.freeExts), v.ns)
    ensures WellFormed(t, v.ns) && Absent(Contents(t), k) ==>
              Inserted(x, t, k, data, old(v.sm.freeExts), v.ns)
  {
    hide InsertTree, MutateTree, SplitTree, Stored, Clean, FreeCnt, Shape, WellFormed, Inserted, Absent;
    if WellFormed(t, v.ns) && Absent(Contents(t), k) {
      InsertedIs(InsertTree(t, k, data, v.sm.freeExts, v.ns, v.generation + 1), t, k, data, v.sm.freeExts, v.ns,
                 v.generation + 1);
    }
    InsertTreeIs(t, k, data, v.sm.freeExts, v.ns, v.generation + 1);
    var r1, x1 := v.CowMutate(root, Insert(k, data), t);
    LeafFullIs(r1, x1, t, v.dev, v.sm.freeExts, old(v.dev), old(v.sm.freeExts), v.ns);
    if r1 != Err(LeafFull) {
      return r1, x1;
    }
    r, x := CowInsertSplit(v, root, Item(k, data), t);
  }
}
