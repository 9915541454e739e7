/** The block device with its space manager, and the copy-on-write engine of btree_write.go as
    methods on it. Each method is proved to do on the device what CowSpec says on trees. */
module Volumes {
  import opened Keys
  import opened FreeSpace
  import opened Trees
  import opened CowSpec
  import opened CowMutate

  /** One node on the root-to-leaf path, with the index of the pointer that was followed. */
  datatype PathEntry = PathEntry(addr: nat, block: Block, childIdx: nat)

  /** Free bytes and tree blocks are disjoint, and no byte belongs to two of them. */
  ghost predicate Clean(fr: seq<Extent>, t: Tree, ns: nat) {
    forall b: nat :: FreeCnt(fr, b) + Cnt(t, ns, b) <= 1
  }

  /** The block at a has no byte that is free or belongs to t. */
  ghost predicate Foreign(fr: seq<Extent>, t: Tree, ns: nat, a: nat) {
    forall b: nat :: a <= b < a + ns ==> FreeCnt(fr, b) + Cnt(t, ns, b) == 0
  }

  /** Blocks that are neither free nor part of t read back unchanged. */
  ghost predicate Spared(dev0: Device, dev: Device, fr: seq<Extent>, t: Tree, ns: nat) {
    forall a :: a in dev0 && Foreign(fr, t, ns, a) ==> a in dev && dev[a] == dev0[a]
  }

  ghost predicate Fewer(fr': seq<Extent>, fr: seq<Extent>) {
    forall b: nat :: FreeCnt(fr', b) <= FreeCnt(fr, b)
  }

  /** The free list after n node blocks were granted from it, or all it has if these are fewer. */
  function AfterGrants(fr: seq<Extent>, ns: nat, n: nat): seq<Extent> {
    if n == 0 then fr
    else
      var p := AfterGrants(fr, ns, n - 1);
      match FirstFit(p, ns)
      case NoSpace => p
      case Granted(_, rest) => rest
  }

  /** fr is what some grants left of fr0. */
  ghost predicate Taking(fr0: seq<Extent>, fr: seq<Extent>, ns: nat) {
    exists n: nat :: fr == AfterGrants(fr0, ns, n)
  }

  lemma {:induction false} TakingNone(fr: seq<Extent>, ns: nat)
    ensures Taking(fr, fr, ns)
  {
    assert fr == AfterGrants(fr, ns, 0);
  }

  lemma {:induction false} TakingOne(fr0: seq<Extent>, fr: seq<Extent>, ns: nat)
    requires Taking(fr0, fr, ns) && FirstFit(fr, ns).Granted?
    ensures Taking(fr0, FirstFit(fr, ns).rest, ns)
  {
    var n: nat :| fr == AfterGrants(fr0, ns, n);
    assert FirstFit(fr, ns).rest == AfterGrants(fr0, ns, n + 1);
  }

  lemma {:induction false} ExhaustedStays(fr: seq<Extent>, ns: nat, m: nat, n: nat)
    requires m <= n && FirstFit(AfterGrants(fr, ns, m), ns).NoSpace?
    ensures AfterGrants(fr, ns, n) == AfterGrants(fr, ns, m)
    decreases n
  {
    if m < n {
      ExhaustedStays(fr, ns, m, n - 1);
    }
  }

  /** A list from which blocks were taken until none was left is determined by where it started: every
      block it could grant is gone. */
  lemma {:induction false} ExhaustedUnique(fr0: seq<Extent>, a: seq<Extent>, b: seq<Extent>, ns: nat)
    requires Taking(fr0, a, ns) && Taking(fr0, b, ns) && FirstFit(a, ns).NoSpace? && FirstFit(b, ns).NoSpace?
    ensures a == b
  {
    var m: nat :| a == AfterGrants(fr0, ns, m);
    var n: nat :| b == AfterGrants(fr0, ns, n);
    if m <= n {
      ExhaustedStays(fr0, ns, m, n);
    } else {
      ExhaustedStays(fr0, ns, n, m);
    }
  }

  /** What a failed operation has used up: every block on offer when it ran out of them, and nothing when
      it was refused before the first write. */
  ghost predicate UsedUp(e: Error, dev: Device, fr: seq<Extent>, dev0: Device, fr0: seq<Extent>, ns: nat) {
    && Taking(fr0, fr, ns)
    && (e == NoBlock ==> FirstFit(fr, ns).NoSpace?)
    && (e != NoBlock && e != Corrupt ==> fr == fr0 && dev == dev0)
  }

  /** Every free byte was free before or belonged to t. */
  ghost predicate Within(fr': seq<Extent>, fr: seq<Extent>, t: Tree, ns: nat) {
    forall b: nat :: FreeCnt(fr', b) <= FreeCnt(fr, b) + Cnt(t, ns, b)
  }

  function Stamp(blk: Block, a: nat, g: nat): Block {
    match blk
    case LeafBlock(_, _, items) => LeafBlock(a, g, items)
    case InnerBlock(_, _, lvl, ptrs) => InnerBlock(a, g, lvl, ptrs)
  }

  // ---- facts about single writes --------------------------------------------------------------

  lemma {:induction false} GrantAvoids(fr: seq<Extent>, t: Tree, ns: nat)
    requires Clean(fr, t, ns) && FirstFit(fr, ns).Granted?
    ensures Avoids(t, ns, FirstFit(fr, ns).addr)
    ensures Clean(FirstFit(fr, ns).rest, t, ns)
  {
    var g := FirstFit(fr, ns);
    forall b: nat
      ensures g.addr <= b < g.addr + ns ==> Cnt(t, ns, b) == 0
      ensures FreeCnt(g.rest, b) + Cnt(t, ns, b) <= 1
    {
      FirstFitCnt(fr, ns, b);
      assert FreeCnt(fr, b) + Cnt(t, ns, b) <= 1;
    }
  }

  lemma {:induction false} GrantFewer(fr: seq<Extent>, ns: nat)
    requires FirstFit(fr, ns).Granted?
    ensures Fewer(FirstFit(fr, ns).rest, fr)
  {
    forall b: nat ensures FreeCnt(FirstFit(fr, ns).rest, b) <= FreeCnt(fr, b) {
      FirstFitCnt(fr, ns, b);
    }
  }

  /** A write to a block granted from bytes that were free or belonged to t spares the rest. */
  lemma {:induction false} GrantSpares(dev0: Device, dev: Device, fr0: seq<Extent>, fr: seq<Extent>, t: Tree, ns: nat,
                                       blk: Block)
    requires ns > 0 && Spared(dev0, dev, fr0, t, ns) && Within(fr, fr0, t, ns) && FirstFit(fr, ns).Granted?
    ensures Spared(dev0, WriteBlock(dev, ns, FirstFit(fr, ns).addr, blk), fr0, t, ns)
  {
    var x := FirstFit(fr, ns).addr;
    var d := WriteBlock(dev, ns, x, blk);
    forall a | a in dev0 && Foreign(fr0, t, ns, a) ensures a in d && d[a] == dev0[a] {
      var b := if a < x then x else a;
      FirstFitCnt(fr, ns, b);
    }
  }

  /** Writing a node over stored children that the write avoids stores the tree. */
  lemma {:induction false} StoreNode(dev: Device, ns: nat, t: Tree)
    requires ns > 0 && (t.Node? ==> forall i :: 0 <= i < |t.kids| ==>
                        Stored(dev, t.kids[i].sub) && Avoids(t.kids[i].sub, ns, t.addr))
    ensures Stored(WriteBlock(dev, ns, t.addr, BlockOf(t)), t)
  {
    if t.Node? {
      forall i | 0 <= i < |t.kids| ensures Stored(WriteBlock(dev, ns, t.addr, BlockOf(t)), t.kids[i].sub) {
        WriteFrame(dev, t.kids[i].sub, ns, t.addr, BlockOf(t));
      }
    }
  }

  lemma {:induction false} KidCntLe(ks: seq<Kid>, i: nat, ns: nat, b: nat)
    requires i < |ks|
    ensures Cnt(ks[i].sub, ns, b) <= KidsCnt(ks, ns, b)
  {
    KidsCntAt(ks, i, ns, b);
  }

  /** A node built over ks at the block granted from fr. */
  lemma {:induction false} StoreGranted(dev: Device, fr: seq<Extent>, ns: nat, t: Tree)
    requires ns > 0 && t.Node? && FirstFit(fr, ns).Granted? && t.addr == FirstFit(fr, ns).addr
    requires forall i :: 0 <= i < |t.kids| ==> Stored(dev, t.kids[i].sub)
    requires forall b: nat :: FreeCnt(fr, b) + KidsCnt(t.kids, ns, b) <= 1
    ensures Stored(WriteBlock(dev, ns, t.addr, BlockOf(t)), t)
  {
    forall i | 0 <= i < |t.kids| ensures Avoids(t.kids[i].sub, ns, t.addr) {
      forall b: nat ensures FreeCnt(fr, b) + Cnt(t.kids[i].sub, ns, b) <= 1 {
        assert FreeCnt(fr, b) + KidsCnt(t.kids, ns, b) <= 1;
        KidCntLe(t.kids, i, ns, b);
      }
      GrantAvoids(fr, t.kids[i].sub, ns);
    }
    StoreNode(dev, ns, t);
  }

  // ---- pointers of edited nodes ----------------------------------------------------------------

  lemma {:induction false} PtrsSet(ks: seq<Kid>, c: nat, x: Kid)
    requires c < |ks|
    ensures Ptrs(ks[c := x]) == Ptrs(ks)[c := Ptr(x.sep, x.sub.addr, x.gen)]
  {
  }

  lemma {:induction false} PtrsRemove(ks: seq<Kid>, c: nat)
    requires c < |ks|
    ensures Ptrs(ks[..c] + ks[c+1..]) == Ptrs(ks)[..c] + Ptrs(ks)[c+1..]
  {
  }

  lemma {:induction false} PtrsWiden(ks: seq<Kid>, c: nat, l: Tree, sep: Key, r: Tree, g: nat)
    requires c < |ks|
    ensures Ptrs(Widened(ks, c, l, sep, r, g)) ==
            Ptrs(ks)[..c] + [Ptr(ks[c].sep, l.addr, g), Ptr(sep, r.addr, g)] + Ptrs(ks)[c+1..]
  {
  }

  lemma {:induction false} PtrsCut(ks: seq<Kid>, p: nat)
    requires p <= |ks|
    ensures Ptrs(ks[..p]) == Ptrs(ks)[..p] && Ptrs(ks[p..]) == Ptrs(ks)[p..]
  {
  }

  // ---- the traced path ----------------------------------------------------------------------------

  ghost function PathOf(t: Tree, k: Key): seq<PathEntry>
    requires Shape(t, LevelOf(t))
    decreases t
  {
    if t.Leaf? then [PathEntry(t.addr, BlockOf(t), 0)]
    else
      RoutedShape(t, k);
      var c := RouteKid(t.kids, k);
      [PathEntry(t.addr, BlockOf(t), c)] + PathOf(t.kids[c].sub, k)
  }

  lemma {:induction false} PathLen(t: Tree, k: Key)
    requires Shape(t, LevelOf(t))
    ensures |PathOf(t, k)| == LevelOf(t) + 1
    decreases t
  {
    if t.Node? {
      RoutedShape(t, k);
      PathLen(t.kids[RouteKid(t.kids, k)].sub, k);
    }
  }

  lemma {:induction false} KidClean(fr: seq<Extent>, t: Tree, c: nat, ns: nat)
    requires t.Node? && c < |t.kids| && Clean(fr, t, ns)
    ensures Clean(fr, t.kids[c].sub, ns)
  {
    forall b: nat ensures FreeCnt(fr, b) + Cnt(t.kids[c].sub, ns, b) <= 1 {
      assert FreeCnt(fr, b) + Cnt(t, ns, b) <= 1;
      KidsCntAt(t.kids, c, ns, b);
    }
  }
}
