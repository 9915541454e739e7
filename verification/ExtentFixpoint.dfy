/** The self-reference of the extent tree: its records describe its own blocks, and how many blocks
    it has depends on its records (extent_multilevel.go). */
module ExtentFixpoint {
  import opened Keys
  import opened FreeSpace
  import opened Trees
  import opened Partitions
  import opened InteriorShapes
  import opened BulkTree
  import opened Bytes
  import opened ExtentRecords
  import opened ExtentPlan

  /** A block group: chunk start, size and profile flags. */
  datatype Group = Group(start: u64, size: u64, flags: u64)

  /** multiLevelExtentInput. */
  datatype Input = Input(base: seq<Item>, baseUsed: map<u64, nat>, groups: seq<Group>, chunkOf: nat -> Option<u64>)

  /** What the rebuild hands over: one record per object, none of them a block group, a block of the
      extent tree itself or a block that the allocator holds free, and free addresses within 64 bits. */
  ghost predicate ValidInput(inp: Input, fr: seq<Extent>) {
    && PairsDistinct(inp.base)
    && (forall i :: 0 <= i < |inp.base| ==> inp.base[i].k.typ != BLOCK_GROUP_ITEM && !TreeOwned(inp.base[i]))
    && (forall i :: 0 <= i < |inp.base| && inp.base[i].k.typ == METADATA_ITEM ==>
        FreeCnt(fr, inp.base[i].k.objID as nat) == 0)
    && (forall i, j :: 0 <= i < j < |inp.groups| ==> inp.groups[i].start != inp.groups[j].start)
    && (forall b: nat :: FreeCnt(fr, b) > 0 ==> b < U64_LIMIT)
  }

  function BaseUsed(inp: Input, cs: u64): nat {
    if cs in inp.baseUsed then inp.baseUsed[cs] else 0
  }

  /** How many of the blocks lie in chunk cs. */
  function CountIn(inp: Input, addrs: seq<nat>, cs: u64): nat {
    if addrs == [] then 0
    else CountIn(inp, addrs[..|addrs|-1], cs) + if inp.chunkOf(addrs[|addrs|-1]) == Some(cs) then 1 else 0
  }

  function GroupUsed(inp: Input, addrs: seq<nat>, cs: u64, ns: nat): nat {
    BaseUsed(inp, cs) + CountIn(inp, addrs, cs) * ns
  }

  function GroupRec(g: Group, used: nat): Item {
    Item(Key(g.start, BLOCK_GROUP_ITEM, g.size), BlockGroupItemBytes(used, g.flags))
  }

  /** x records the block group g with the given used count. */
  ghost predicate RecordsGroup(x: Item, g: Group, used: nat) {
    x.k == Key(g.start, 0xC0, g.size) && ReadsGroup(x.data, used, g.flags)
  }

  function GroupRecs(inp: Input, addrs: seq<nat>, ns: nat): seq<Item> {
    seq(|inp.groups|, i requires 0 <= i < |inp.groups| =>
        GroupRec(inp.groups[i], GroupUsed(inp, addrs, inp.groups[i].start, ns)))
  }

  function LevelRecs(logs: seq<nat>, lvl: nat): seq<Item> {
    seq(|logs|, i requires 0 <= i < |logs| => BlockRec(logs[i], lvl))
  }

  function InnerRecs(logss: seq<seq<nat>>, lvl: nat): seq<Item> {
    if logss == [] then [] else LevelRecs(logss[0], lvl) + InnerRecs(logss[1..], lvl + 1)
  }

  function BlockRecs(p: Plan): seq<Item> {
    if p.NoPlan? then [] else LevelRecs(p.leafLogs, 0) + InnerRecs(p.logss, 1)
  }

  function Unsorted(inp: Input, p: Plan, ns: nat): seq<Item> {
    inp.base + BlockRecs(p) + GroupRecs(inp, Blocks(p), ns)
  }

  /** The key-sorted records of a layout. */
  function Records(inp: Input, p: Plan, ns: nat): seq<Item> {
    SortItems(Unsorted(inp, p, ns))
  }

  // ---- one record per block ---------------------------------------------------------------------------------------

  /** The (objectid, type) of the record for a block. */
  function BlockPair(a: nat): nat {
    U64(a) as nat * 0x100 + METADATA_ITEM as nat
  }

  ghost predicate Describe(recs: seq<Item>, addrs: seq<nat>) {
    |recs| == |addrs| && forall i :: 0 <= i < |addrs| ==> Pair(recs[i].k) == BlockPair(addrs[i]) && |recs[i].data| == 33
  }

  lemma {:induction false} InnerRecsDescribe(logss: seq<seq<nat>>, lvl: nat)
    ensures Describe(InnerRecs(logss, lvl), Flat(logss))
    decreases |logss|
  {
    if logss != [] {
      InnerRecsDescribe(logss[1..], lvl + 1);
    }
  }

  lemma {:induction false} BlockRecsDescribe(p: Plan)
    ensures Describe(BlockRecs(p), Blocks(p))
  {
    if p.Plan? {
      InnerRecsDescribe(p.logss, 1);
    }
  }

  lemma {:induction false} PairsJoin(a: seq<Item>, c: seq<Item>)
    requires PairsDistinct(a) && PairsDistinct(c)
    requires forall i, j :: 0 <= i < |a| && 0 <= j < |c| ==> Pair(a[i].k) != Pair(c[j].k)
    ensures PairsDistinct(a + c)
  {
  }

  /** No two records of a layout describe the same object. */
  lemma {:induction false} UnsortedPairs(inp: Input, fr: seq<Extent>, ns: nat, l: nat, icap: nat)
    requires ns > 0 && icap >= 2 && l >= 1 && Canonical(fr) && ValidInput(inp, fr) && PlanFor(fr, ns, l, icap).Plan?
    ensures PairsDistinct(Unsorted(inp, PlanFor(fr, ns, l, icap), ns))
  {
    var p := PlanFor(fr, ns, l, icap);
    var brs, grs := BlockRecs(p), GroupRecs(inp, Blocks(p), ns);
    BlockRecsDescribe(p);
    forall i | 0 <= i < |brs|
      ensures brs[i].k.typ == METADATA_ITEM && brs[i].k.objID as nat == Blocks(p)[i] && FreeCnt(fr, Blocks(p)[i]) > 0
    {
      BlockAt(inp, fr, ns, l, icap, i);
    }
    forall i, j | 0 <= i < j < |brs| ensures Pair(brs[i].k) != Pair(brs[j].k) {
      PlanShape(fr, ns, l, icap);
      TakenDistinct(fr, ns, BlockCount(l, icap), i, j);
      PairRank(brs[i].k, brs[j].k);
    }
    forall i, j | 0 <= i < |inp.base| && 0 <= j < |brs| ensures Pair(inp.base[i].k) != Pair(brs[j].k) {
      PairRank(inp.base[i].k, brs[j].k);
    }
    PairsJoin(inp.base, brs);
    forall i, j | 0 <= i < j < |grs| ensures Pair(grs[i].k) != Pair(grs[j].k) {
      PairRank(grs[i].k, grs[j].k);
    }
    forall i, j | 0 <= i < |inp.base + brs| && 0 <= j < |grs| ensures Pair((inp.base + brs)[i].k) != Pair(grs[j].k) {
      PairRank((inp.base + brs)[i].k, grs[j].k);
    }
    PairsJoin(inp.base + brs, grs);
  }

  lemma {:induction false} BlockAt(inp: Input, fr: seq<Extent>, ns: nat, l: nat, icap: nat, i: nat)
    requires ns > 0 && icap >= 2 && l >= 1 && ValidInput(inp, fr) && PlanFor(fr, ns, l, icap).Plan?
    requires var p := PlanFor(fr, ns, l, icap); i < |BlockRecs(p)| && Describe(BlockRecs(p), Blocks(p))
    ensures var p := PlanFor(fr, ns, l, icap);
            && BlockRecs(p)[i].k.typ == METADATA_ITEM && BlockRecs(p)[i].k.objID as nat == Blocks(p)[i]
            && FreeCnt(fr, Blocks(p)[i]) > 0
  {
    var p := PlanFor(fr, ns, l, icap);
    PlanShape(fr, ns, l, icap);
    TakenFree(fr, ns, BlockCount(l, icap), i);
    var a := Blocks(p)[i];
    assert a < U64_LIMIT;
    PairRank(BlockRecs(p)[i].k, Key(U64(a), METADATA_ITEM, 0));
  }

  /** The records of a layout are in strict key order. */
  lemma {:induction false} RecordsSorted(inp: Input, fr: seq<Extent>, ns: nat, l: nat, icap: nat)
    requires ns > 0 && icap >= 2 && l >= 1 && Canonical(fr) && ValidInput(inp, fr) && PlanFor(fr, ns, l, icap).Plan?
    ensures var r := Records(inp, PlanFor(fr, ns, l, icap), ns);
            ItemsIn(r, 0, RANK_LIMIT) && PairsDistinct(r) && r != []
  {
    var p := PlanFor(fr, ns, l, icap);
    UnsortedPairs(inp, fr, ns, l, icap);
    SortItemsSorted(Unsorted(inp, p, ns));
    SortedPairs(Unsorted(inp, p, ns));
    PlanShape(fr, ns, l, icap);
  }

  // ---- more leaves assumed, more leaves needed ----------------------------------------------------------------------

  /** The leaves that the records are packed into. */
  function LeavesOf(recs: seq<Item>, ns: nat): seq<Span> {
    Greedy(Needs(recs), 0, ns - NODE_HDR)
  }

  /** How many leaves the records of the layout for l leaves need. */
  function LeafCount(inp: Input, fr: seq<Extent>, ns: nat, l: nat, icap: nat): nat
    requires icap >= 2
  {
    |LeavesOf(Records(inp, PlanFor(fr, ns, l, icap), ns), ns)|
  }

  /** The layout for l leaves exists and its records need exactly l leaves. */
  ghost predicate SelfConsistent(inp: Input, fr: seq<Extent>, ns: nat, l: nat, icap: nat)
    requires icap >= 2
  {
    l >= 1 && PlanFor(fr, ns, l, icap).Plan? && LeafCount(inp, fr, ns, l, icap) == l
  }

  /** A layout for fewer leaves uses a prefix of the blocks. */
  lemma {:induction false} PlanPrefix(fr: seq<Extent>, ns: nat, l: nat, m: nat, icap: nat)
    requires icap >= 2 && 1 <= l <= m && PlanFor(fr, ns, m, icap).Plan?
    ensures PlanFor(fr, ns, l, icap).Plan?
    ensures var p, q := PlanFor(fr, ns, l, icap), PlanFor(fr, ns, m, icap);
            |Blocks(p)| <= |Blocks(q)| && Blocks(p) == Blocks(q)[..|Blocks(p)|]
  {
    BlockCountInjective(l, m, icap);
    TakePrefix(fr, ns, BlockCount(l, icap), BlockCount(m, icap));
    PlanShape(fr, ns, m, icap);
    PlanShape(fr, ns, l, icap);
  }

  lemma {:induction false} UnsortedReplaced(inp: Input, fr: seq<Extent>, ns: nat, l: nat, m: nat, icap: nat)
    requires icap >= 2 && 1 <= l <= m && PlanFor(fr, ns, m, icap).Plan?
    ensures Replaced(Unsorted(inp, PlanFor(fr, ns, l, icap), ns), Unsorted(inp, PlanFor(fr, ns, m, icap), ns))
  {
    var p, q := PlanFor(fr, ns, l, icap), PlanFor(fr, ns, m, icap);
    PlanPrefix(fr, ns, l, m, icap);
    BlockRecsDescribe(p);
    BlockRecsDescribe(q);
    SelfReplaced(inp.base);
    ConcatReplaced(inp.base, inp.base, BlockRecs(p), BlockRecs(q));
    ConcatReplaced(inp.base + BlockRecs(p), inp.base + BlockRecs(q), GroupRecs(inp, Blocks(p), ns),
                   GroupRecs(inp, Blocks(q), ns));
  }

  lemma {:induction false} StandInAt(x: Item, t: seq<Item>, j: nat)
    requires j < |t| && Stands(x, t[j])
    ensures HasStandIn(x, t)
  {
  }

  /** Index by index stand-ins, the second list possibly longer. */
  ghost predicate Pointwise(s: seq<Item>, t: seq<Item>) {
    |s| <= |t| && forall i :: 0 <= i < |s| ==> Stands(s[i], t[i])
  }

  lemma {:induction false} ConcatReplaced(a: seq<Item>, a': seq<Item>, c: seq<Item>, c': seq<Item>)
    requires Replaced(a, a') && Pointwise(c, c')
    ensures Replaced(a + c, a' + c')
  {
    var s, t := a + c, a' + c';
    forall i | 0 <= i < |s| ensures HasStandIn(s[i], t) {
      if i < |a| {
        assert HasStandIn(a[i], a');
        var j :| 0 <= j < |a'| && Stands(a[i], a'[j]);
        StandInAt(s[i], t, j);
      } else {
        StandInAt(s[i], t, |a'| + i - |a|);
      }
    }
  }

  lemma {:induction false} SelfReplaced(a: seq<Item>)
    ensures Replaced(a, a)
  {
    forall i | 0 <= i < |a| ensures HasStandIn(a[i], a) {
      StandInAt(a[i], a, i);
    }
  }

  lemma {:induction false} StandInMoves(x: Item, s: seq<Item>, t: seq<Item>, u: seq<Item>)
    requires Replaced(s, t) && x in s && forall y :: y in t ==> y in u
    ensures HasStandIn(x, u)
  {
    var k :| 0 <= k < |s| && s[k] == x;
    assert HasStandIn(s[k], t);
    var j :| 0 <= j < |t| && Stands(x, t[j]);
    assert t[j] in u;
    var h :| 0 <= h < |u| && u[h] == t[j];
    StandInAt(x, u, h);
  }

  lemma {:induction false} SortedReplaced(s: seq<Item>, t: seq<Item>)
    requires PairsDistinct(s) && PairsDistinct(t) && Replaced(s, t)
    ensures Replaced(SortItems(s), SortItems(t))
  {
    SortItemsSorted(s);
    SortItemsSorted(t);
    var r := SortItems(s);
    forall i | 0 <= i < |r| ensures HasStandIn(r[i], SortItems(t)) {
      StandInMoves(r[i], s, t, SortItems(t));
    }
  }

  /** The leaf count needed is monotone in the leaf count assumed. */
  lemma {:induction false} LeafCountMono(inp: Input, fr: seq<Extent>, ns: nat, l: nat, m: nat, icap: nat)
    requires ns > 0 && icap >= 2 && 1 <= l <= m && Canonical(fr) && ValidInput(inp, fr)
             && PlanFor(fr, ns, m, icap).Plan?
    ensures PlanFor(fr, ns, l, icap).Plan? && LeafCount(inp, fr, ns, l, icap) <= LeafCount(inp, fr, ns, m, icap)
  {
    var p, q := PlanFor(fr, ns, l, icap), PlanFor(fr, ns, m, icap);
    PlanPrefix(fr, ns, l, m, icap);
    UnsortedReplaced(inp, fr, ns, l, m, icap);
    UnsortedPairs(inp, fr, ns, l, icap);
    UnsortedPairs(inp, fr, ns, m, icap);
    SortedReplaced(Unsorted(inp, p, ns), Unsorted(inp, q, ns));
    RecordsSorted(inp, fr, ns, l, icap);
    RecordsSorted(inp, fr, ns, m, icap);
    MoreLeaves(Records(inp, p, ns), Records(inp, q, ns), ns - NODE_HDR);
  }

  // ---- the sizing iteration -----------------------------------------------------------------------------------------

  /** No self-consistent layout has fewer than l leaves. */
  ghost predicate LowerBound(inp: Input, fr: seq<Extent>, ns: nat, l: nat, icap: nat)
    requires icap >= 2
  {
    forall m: nat :: SelfConsistent(inp, fr, ns, m, icap) ==> l <= m
  }

  /** The layout for l leaves, if there are blocks for it, needs at least l leaves. */
  ghost predicate Grows(inp: Input, fr: seq<Extent>, ns: nat, l: nat, icap: nat)
    requires icap >= 2
  {
    PlanFor(fr, ns, l, icap).Plan? ==> l <= LeafCount(inp, fr, ns, l, icap)
  }

  /** Every layout needs a leaf. */
  lemma {:induction false} LeafCountPositive(inp: Input, fr: seq<Extent>, ns: nat, l: nat, icap: nat)
    requires ns > 0 && icap >= 2 && l >= 1 && Canonical(fr) && ValidInput(inp, fr) && PlanFor(fr, ns, l, icap).Plan?
    ensures LeafCount(inp, fr, ns, l, icap) >= 1
  {
    RecordsSorted(inp, fr, ns, l, icap);
    GreedyStep(Needs(Records(inp, PlanFor(fr, ns, l, icap), ns)), 0, ns - NODE_HDR);
  }

  /** One pass of the sizing loop keeps the bound and never shrinks the layout: the next leaf count is
      at least this one, the pass after it will not go back, and the pass is the last one exactly when
      it does not grow. */
  lemma {:induction false} SizingStep(inp: Input, fr: seq<Extent>, ns: nat, l: nat, icap: nat)
    requires ns > 0 && icap >= 2 && l >= 1 && Canonical(fr) && ValidInput(inp, fr) && PlanFor(fr, ns, l, icap).Plan?
    requires LowerBound(inp, fr, ns, l, icap) && Grows(inp, fr, ns, l, icap)
    ensures var next := LeafCount(inp, fr, ns, l, icap);
            && l <= next && LowerBound(inp, fr, ns, next, icap) && Grows(inp, fr, ns, next, icap)
            && (SelfConsistent(inp, fr, ns, l, icap) <==> next <= l)
  {
    var next := LeafCount(inp, fr, ns, l, icap);
    forall m: nat | SelfConsistent(inp, fr, ns, m, icap) ensures next <= m {
      LeafCountMono(inp, fr, ns, l, m, icap);
    }
    if PlanFor(fr, ns, next, icap).Plan? {
      LeafCountMono(inp, fr, ns, l, next, icap);
    }
  }

  /** When the blocks run out below the bound, no self-consistent layout exists at all. */
  lemma {:induction false} ShortMeansNone(inp: Input, fr: seq<Extent>, ns: nat, l: nat, icap: nat)
    requires icap >= 2 && l >= 1 && PlanFor(fr, ns, l, icap).NoPlan? && LowerBound(inp, fr, ns, l, icap)
    ensures forall m: nat :: !SelfConsistent(inp, fr, ns, m, icap)
  {
    forall m: nat ensures !SelfConsistent(inp, fr, ns, m, icap) {
      if SelfConsistent(inp, fr, ns, m, icap) {
        PlanPrefix(fr, ns, l, m, icap);
      }
    }
  }
}
