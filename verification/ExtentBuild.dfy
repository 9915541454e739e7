/** buildMultiLevelExtentTree (extent_multilevel.go): the sizing loop and its result. */
module ExtentBuild {
  import opened Keys
  import opened FreeSpace
  import opened Trees
  import opened CowSpec
  import opened CowConserve
  import opened Volumes
  import opened CowEngine
  import opened Relocation
  import opened Partitions
  import opened InteriorShapes
  import opened BulkTree
  import opened ExtentRecords
  import opened ExtentPlan
  import opened ExtentFixpoint
  import opened ExtentSelf
  import opened ExtentUsed
  import opened ExtentWrite

  /** extentLayout: one candidate tree. */
  datatype Layout = Layout(leafLogs: seq<nat>, logss: seq<seq<nat>>, rootLevel: nat, recs: seq<Item>, ranges: seq<Span>,
                           used: map<u64, nat>, blocks: seq<nat>)

  datatype BuildError = OutOfBlocks | NotConverged | RecordTooBig
  datatype BuildResult = NotBuilt(error: BuildError) | Built(root: nat, level: nat, bytesUsed: nat)

  /** Taking |addrs| blocks from fr0 gives addrs and leaves fr. */
  ghost predicate Drawn(fr0: seq<Extent>, ns: nat, addrs: seq<nat>, fr: seq<Extent>) {
    TakeBlocks(fr0, ns, |addrs|) == Taken(addrs, fr)
  }

  /** fr is what is left of fr0 after every block it could grant was taken. */
  ghost predicate Exhausted(fr0: seq<Extent>, fr: seq<Extent>, ns: nat) {
    Taking(fr0, fr, ns) && FirstFit(fr, ns).NoSpace?
  }

  lemma {:induction false} TakenAfter(fr: seq<Extent>, ns: nat, n: nat)
    requires TakeBlocks(fr, ns, n).Taken?
    ensures TakeBlocks(fr, ns, n).rest == AfterGrants(fr, ns, n)
  {
    if n > 0 {
      TakenAfter(fr, ns, n - 1);
    }
  }

  lemma {:induction false} DrawnOut(fr0: seq<Extent>, ns: nat, addrs: seq<nat>, fr: seq<Extent>)
    requires Drawn(fr0, ns, addrs, fr) && FirstFit(fr, ns).NoSpace?
    ensures Exhausted(fr0, fr, ns)
  {
    TakenAfter(fr0, ns, |addrs|);
  }

  lemma {:induction false} DrawnOne(fr0: seq<Extent>, ns: nat, addrs: seq<nat>, fr: seq<Extent>)
    requires Drawn(fr0, ns, addrs, fr)
    ensures match FirstFit(fr, ns)
            case NoSpace => TakeBlocks(fr0, ns, |addrs| + 1).Short?
            case Granted(a, rest) => Drawn(fr0, ns, addrs + [a], rest)
  {
  }

  /** n blocks in a row; prev are the ones taken before from fr0. */
  method AllocRun(v: Volume, n: nat, ghost fr0: seq<Extent>, ghost prev: seq<nat>) returns (logs: Option<seq<nat>>)
    requires v.Valid() && Drawn(fr0, v.ns, prev, v.sm.freeExts)
    modifies v.sm`freeExts
    ensures logs.Some? ==> |logs.value| == n && Drawn(fr0, v.ns, prev + logs.value, v.sm.freeExts)
    ensures logs.None? ==> TakeBlocks(fr0, v.ns, |prev| + n).Short? && Exhausted(fr0, v.sm.freeExts, v.ns)
  {
    var s: seq<nat> := [];
    assert prev + s == prev;
    while |s| < n
      invariant |s| <= n && Drawn(fr0, v.ns, prev + s, v.sm.freeExts)
    {
      DrawnOne(fr0, v.ns, prev + s, v.sm.freeExts);
      var a := v.sm.AllocNodeBlock();
      if a.None? {
        TakeShort(fr0, v.ns, |prev| + |s| + 1, |prev| + n);
        DrawnOut(fr0, v.ns, prev + s, v.sm.freeExts);
        return None;
      }
      assert prev + s + [a.value] == prev + (s + [a.value]);
      s := s + [a.value];
    }
    return Some(s);
  }

  lemma {:induction false} TakeShort(fr: seq<Extent>, ns: nat, m: nat, n: nat)
    requires m <= n && TakeBlocks(fr, ns, m).Short?
    ensures TakeBlocks(fr, ns, n).Short?
  {
    if TakeBlocks(fr, ns, n).Taken? {
      TakePrefix(fr, ns, m, n);
    }
  }

  /** The lengths of the address lists are the level counts. */
  ghost predicate Lengths(logss: seq<seq<nat>>, levels: seq<nat>) {
    |logss| <= |levels| && forall i :: 0 <= i < |logss| ==> |logss[i]| == levels[i]
  }

  lemma {:induction false} CutOfFlat(logss: seq<seq<nat>>, levels: seq<nat>)
    requires Lengths(logss, levels) && |logss| == |levels|
    ensures CutLevels(Flat(logss), levels) == logss
    decreases |logss|
  {
    if logss != [] {
      assert Lengths(logss[1..], levels[1..]);
      CutOfFlat(logss[1..], levels[1..]);
      var f := Flat(logss);
      assert f[..levels[0]] == logss[0] && f[levels[0]..] == Flat(logss[1..]);
    }
  }

  lemma {:induction false} FlatAppend(logss: seq<seq<nat>>, x: seq<nat>)
    ensures Flat(logss + [x]) == Flat(logss) + x
    decreases |logss|
  {
    if logss == [] {
      assert [x][1..] == [];
      assert [] + [x] == [x];
    } else {
      FlatAppend(logss[1..], x);
      assert (logss + [x])[1..] == logss[1..] + [x];
    }
  }

  lemma {:induction false} SumPrefix(levels: seq<nat>, i: nat)
    requires i <= |levels|
    ensures Sum(levels[..i]) <= Sum(levels)
    ensures i < |levels| ==> Sum(levels[..i+1]) == Sum(levels[..i]) + levels[i]
  {
    SumConcat(levels[..i], levels[i..]);
    CutAt(levels, i);
    if i < |levels| {
      SumConcat(levels[..i], [levels[i]]);
      assert levels[..i] + [levels[i]] == levels[..i+1];
      assert [levels[i]][1..] == [];
    }
  }

  /** The interior blocks of one attempt, level by level. */
  method AllocLevels(v: Volume, levels: seq<nat>, ghost fr0: seq<Extent>, ghost prev: seq<nat>)
    returns (r: Option<seq<seq<nat>>>)
    requires v.Valid() && Drawn(fr0, v.ns, prev, v.sm.freeExts)
    modifies v.sm`freeExts
    ensures r.Some? ==> CutLevels(Flat(r.value), levels) == r.value && |r.value| == |levels|
    ensures r.Some? ==> |Flat(r.value)| == Sum(levels) && Drawn(fr0, v.ns, prev + Flat(r.value), v.sm.freeExts)
    ensures r.None? ==> TakeBlocks(fr0, v.ns, |prev| + Sum(levels)).Short? && Exhausted(fr0, v.sm.freeExts, v.ns)
  {
    hide Drawn, Exhausted, CutLevels, TakeBlocks;
    var logss: seq<seq<nat>> := [];
    assert prev + Flat(logss) == prev;
    while |logss| < |levels|
      invariant Lengths(logss, levels) && |Flat(logss)| == Sum(levels[..|logss|])
      invariant Drawn(fr0, v.ns, prev + Flat(logss), v.sm.freeExts)
    {
      var i := |logss|;
      ghost var flat := Flat(logss);
      SumPrefix(levels, i);
      var run := AllocRun(v, levels[i], fr0, prev + flat);
      if run.None? {
        SumPrefix(levels, i + 1);
        TakeShort(fr0, v.ns, |prev| + |flat| + levels[i], |prev| + Sum(levels));
        return None;
      }
      FlatAppend(logss, run.value);
      assert prev + flat + run.value == prev + (flat + run.value);
      logss := logss + [run.value];
    }
    assert levels[..|logss|] == levels;
    CutOfFlat(logss, levels);
    return Some(logss);
  }

  /** The layout is the one that ExtentFixpoint computes for l leaves. */
  ghost predicate LayoutFor(lay: Layout, inp: Input, fr: seq<Extent>, rest: seq<Extent>, ns: nat, l: nat)
    requires NodeCap(ns) >= 2
  {
    var p := PlanFor(fr, ns, l, NodeCap(ns));
    && p == Plan(lay.leafLogs, lay.logss, rest) && lay.recs == Records(inp, p, ns)
    && lay.ranges == LeavesOf(lay.recs, ns) && lay.blocks == Blocks(p) && lay.rootLevel == |lay.logss|
    && MapSum(lay.used) == TotalUsed(inp, Blocks(p), ns)
  }

  /** The records as tryExtentLayout collects them, block groups charged from the used map. */
  method CollectRecords(inp: Input, p: Plan, ns: nat) returns (recs: seq<Item>, used: map<u64, nat>)
    ensures recs == Records(inp, p, ns)
    ensures MapSum(used) == TotalUsed(inp, Blocks(p), ns)
  {
    used := ChargeBlocks(inp, Blocks(p), ns);
    recs := inp.base + BlockRecs(p);
    var groups := seq(|inp.groups|,
                      i requires 0 <= i < |inp.groups| => GroupRec(inp.groups[i], At(used, inp.groups[i].start)));
    assert groups == GroupRecs(inp, Blocks(p), ns);
    recs := SortItems(recs + groups);
  }

  method PartitionRecords(recs: seq<Item>, ns: nat) returns (ranges: seq<Span>)
    ensures ranges == LeavesOf(recs, ns)
  {
    ranges := PartitionLeaves(Needs(recs), ns - NODE_HDR);
  }

  lemma {:induction false} NodeCapTwo(ns: nat)
    requires ns >= NODE_HDR + 2 * PTR_SIZE
    ensures NodeCap(ns) >= 2
  {
  }

  lemma {:induction false} PlanOf(fr: seq<Extent>, rest: seq<Extent>, ns: nat, l: nat, icap: nat, leafLogs: seq<nat>,
                                  logss: seq<seq<nat>>)
    requires icap >= 2 && |leafLogs| == l && CutLevels(Flat(logss), Levels(l, icap)) == logss
    requires |Flat(logss)| == Sum(Levels(l, icap)) && Drawn(fr, ns, leafLogs + Flat(logss), rest)
    ensures PlanFor(fr, ns, l, icap) == Plan(leafLogs, logss, rest)
  {
    var a := leafLogs + Flat(logss);
    assert a[..l] == leafLogs && a[l..] == Flat(logss);
  }

  /** The allocations of one attempt. */
  method TakeLayout(v: Volume, nLeaves: nat, levels: seq<nat>, ghost icap: nat) returns (p: Plan)
    requires v.Valid() && icap >= 2 && levels == Levels(nLeaves, icap)
    modifies v.sm`freeExts
    ensures p == PlanFor(old(v.sm.freeExts), v.ns, nLeaves, icap) && (p.Plan? ==> p.rest == v.sm.freeExts)
    ensures p.NoPlan? ==> Exhausted(old(v.sm.freeExts), v.sm.freeExts, v.ns)
  {
    ghost var fr0 := v.sm.freeExts;
    var leafLogs := AllocRun(v, nLeaves, fr0, []);
    if leafLogs.None? {
      TakeShort(fr0, v.ns, nLeaves, BlockCount(nLeaves, icap));
      return NoPlan;
    }
    assert [] + leafLogs.value == leafLogs.value;
    var logss := AllocLevels(v, levels, fr0, leafLogs.value);
    if logss.None? {
      return NoPlan;
    }
    PlanOf(fr0, v.sm.freeExts, v.ns, nLeaves, icap, leafLogs.value, logss.value);
    return Plan(leafLogs.value, logss.value, v.sm.freeExts);
  }

  /** tryExtentLayout: allocate the blocks of the layout that belongs to blockCount and derive its
      records and leaf partition. It fails exactly when the blocks run out, and keeps those it got. */
  method TryExtentLayout(v: Volume, inp: Input, blockCount: nat, ghost l: nat) returns (r: Option<Layout>)
    requires v.Valid() && NodeCap(v.ns) >= 2 && l >= 1 && blockCount == BlockCount(l, NodeCap(v.ns))
    modifies v.sm`freeExts
    ensures r.None? <==> PlanFor(old(v.sm.freeExts), v.ns, l, NodeCap(v.ns)).NoPlan?
    ensures r.None? ==> Exhausted(old(v.sm.freeExts), v.sm.freeExts, v.ns)
    ensures r.Some? ==> LayoutFor(r.value, inp, old(v.sm.freeExts), v.sm.freeExts, v.ns, l)
  {
    var nLeaves, levels, rootLevel := SolveLeaves(blockCount, NodeCap(v.ns));
    assert nLeaves == l;
    var p := TakeLayout(v, nLeaves, levels, NodeCap(v.ns));
    if p.NoPlan? {
      return None;
    }
    PlanShape(old(v.sm.freeExts), v.ns, l, NodeCap(v.ns));
    var recs, used := CollectRecords(inp, p, v.ns);
    var ranges := PartitionRecords(recs, v.ns);
    var lay := Layout(p.leafLogs, p.logss, rootLevel, recs, ranges, used, Blocks(p));
    r := Some(lay);
    LayoutSound(lay, inp, p, old(v.sm.freeExts), v.ns, l);
  }

  lemma {:induction false} LayoutSound(lay: Layout, inp: Input, p: Plan, fr: seq<Extent>, ns: nat, l: nat)
    requires NodeCap(ns) >= 2 && p.Plan? && p == PlanFor(fr, ns, l, NodeCap(ns))
    requires lay.leafLogs == p.leafLogs && lay.logss == p.logss && lay.rootLevel == |p.logss| && lay.blocks == Blocks(p)
    requires lay.recs == Records(inp, p, ns) && lay.ranges == LeavesOf(lay.recs, ns)
    requires MapSum(lay.used) == TotalUsed(inp, Blocks(p), ns)
    ensures LayoutFor(lay, inp, fr, p.rest, ns, l)
  {
  }

  // ---- the finished tree --------------------------------------------------------------------------------------------

  /** The layout for l leaves, stored as a search tree that holds exactly its records, describes
      exactly its own nodes and takes exactly its blocks from the free list fr that the sizing
      started with. */
  ghost predicate Finished(r: BuildResult, t: Tree, l: nat, inp: Input, fr: seq<Extent>, fr': seq<Extent>, ns: nat,
                           g: nat)
    requires NodeCap(ns) >= 2
  {
    var p := PlanFor(fr, ns, l, NodeCap(ns));
    && r.Built? && t.addr == r.root && LevelOf(t) == r.level && t.gen == g && GenOK(t) && WellFormed(t, ns)
    && Contents(t) == Records(inp, p, ns) && SelfDescribed(t, Contents(t), inp, Blocks(p), ns)
    && r.bytesUsed == TotalUsed(inp, Blocks(p), ns)
    && forall b: nat :: FreeCnt(fr', b) + Cnt(t, ns, b) == FreeCnt(fr, b)
  }

  lemma {:induction false} RangesInside(recs: seq<Item>, ns: nat)
    ensures var rs := LeavesOf(recs, ns);
            Tiles(rs, 0, |recs|) && forall i :: 0 <= i < |rs| ==> rs[i].start < rs[i].end <= |recs|
  {
    GreedyTiles(Needs(recs), 0, ns - NODE_HDR);
  }

  lemma {:induction false} HasRoot(ks: seq<Kid>, a: nat, lvl: nat)
    requires |ks| == 1
    ensures KidsHave(ks, a, lvl) <==> HasNode(ks[0].sub, a, lvl)
  {
    KidsHaveOne(ks[0], a, lvl);
    assert ks == [ks[0]];
  }

  lemma {:induction false} TreeCnt(ks: seq<Kid>, lay: Layout, inp: Input, fr: seq<Extent>, fr': seq<Extent>, ns: nat,
                                   l: nat, g: nat, b: nat)
    requires NodeCap(ns) >= 2 && l >= 1 && LayoutFor(lay, inp, fr, fr', ns, l) && |lay.ranges| == |lay.leafLogs| == l
    requires forall i :: 0 <= i < |lay.ranges| ==> lay.ranges[i].start < lay.ranges[i].end <= |lay.recs|
    requires |ks| == 1 && ks == Bulk(lay.recs, lay.ranges, lay.leafLogs, lay.logss, g)
    ensures FreeCnt(fr', b) + Cnt(ks[0].sub, ns, b) == FreeCnt(fr, b)
  {
    hide Bulk, FreeCnt, AddrsCnt, KidsCnt, Cnt, Planned, Records, LeavesOf, MapSum, TotalUsed, NodeCap;
    PlanShape(fr, ns, l, NodeCap(ns));
    BulkCnt(lay.recs, lay.ranges, lay.leafLogs, lay.logss, g, NodeCap(ns), ns, b);
    KidsCntOne(ks[0], ns, b);
    assert ks == [ks[0]];
    TakeCnt(fr, ns, BlockCount(l, NodeCap(ns)), b);
  }

  lemma {:induction false} TreeDescribed(ks: seq<Kid>, lay: Layout, inp: Input, fr: seq<Extent>, fr': seq<Extent>,
                                         ns: nat, l: nat, g: nat)
    requires ns > 0 && NodeCap(ns) >= 2 && l >= 1 && Canonical(fr) && ValidInput(inp, fr)
    requires LayoutFor(lay, inp, fr, fr', ns, l) && |lay.ranges| == |lay.leafLogs| == l
    requires forall i :: 0 <= i < |lay.ranges| ==> lay.ranges[i].start < lay.ranges[i].end <= |lay.recs|
    requires |ks| == 1 && ks == Bulk(lay.recs, lay.ranges, lay.leafLogs, lay.logss, g)
    ensures SelfDescribed(ks[0].sub, lay.recs, inp, Blocks(PlanFor(fr, ns, l, NodeCap(ns))), ns)
  {
    hide Bulk, PlanFor, Planned, Flat, Records, LeavesOf, MapSum, TotalUsed, NodeCap, SelfDescribed, Canonical,
         ValidInput, TreeOwned, Separate;
    var icap := NodeCap(ns);
    var p, t := PlanFor(fr, ns, l, icap), ks[0].sub;
    PlanShape(fr, ns, l, icap);
    forall a, lvl ensures HasNode(t, a, lvl) <==> InPlan(p.leafLogs, p.logss, a, lvl) {
      BulkHas(lay.recs, lay.ranges, lay.leafLogs, lay.logss, g, icap, a, lvl);
      HasRoot(ks, a, lvl);
    }
    PlanDescribesItself(t, inp, fr, ns, l, icap);
  }

  lemma {:induction false} TreeFinished(ks: seq<Kid>, lay: Layout, inp: Input, fr: seq<Extent>, fr': seq<Extent>,
                                        ns: nat, l: nat, g: nat, used: nat)
    requires ns > 0 && NodeCap(ns) >= 2 && l >= 1 && Canonical(fr) && ValidInput(inp, fr)
    requires LayoutFor(lay, inp, fr, fr', ns, l) && |lay.ranges| == |lay.leafLogs| && used == MapSum(lay.used)
    requires LeavesFit(lay.recs, lay.ranges, ns) && |ks| == 1
             && Raised(ks, lay.recs, lay.ranges, lay.leafLogs, lay.logss, g)
    ensures Finished(Built(ks[0].sub.addr, lay.rootLevel, used), ks[0].sub, l, inp, fr, fr', ns, g)
  {
    PlanShape(fr, ns, l, NodeCap(ns));
    RecordsSorted(inp, fr, ns, l, NodeCap(ns));
    RangesInside(lay.recs, ns);
    BulkWellFormed(lay.recs, lay.ranges, lay.leafLogs, lay.logss, g, ns);
    TreeDescribed(ks, lay, inp, fr, fr', ns, l, g);
    forall b: nat ensures FreeCnt(fr', b) + Cnt(ks[0].sub, ns, b) == FreeCnt(fr, b) {
      TreeCnt(ks, lay, inp, fr, fr', ns, l, g, b);
    }
  }

  /** The blocks of a layout are spare in the free list it was drawn from. */
  lemma {:induction false} LayoutSpare(lay: Layout, inp: Input, fr: seq<Extent>, fr': seq<Extent>, ns: nat, l: nat)
    requires ns > 0 && l >= 1 && NodeCap(ns) >= 2 && LayoutFor(lay, inp, fr, fr', ns, l)
    ensures Spare(lay.leafLogs + Flat(lay.logss), fr, ns) && Planned(|lay.leafLogs|, lay.logss, NodeCap(ns))
            && |lay.leafLogs| == l
    ensures forall i :: 0 <= i < |lay.ranges| ==> lay.ranges[i].start < lay.ranges[i].end <= |lay.recs|
    ensures |lay.ranges| == LeafCount(inp, fr, ns, l, NodeCap(ns)) && lay.blocks == lay.leafLogs + Flat(lay.logss)
    ensures PlanFor(fr, ns, l, NodeCap(ns)).Plan?
  {
    PlanShape(fr, ns, l, NodeCap(ns));
    RangesInside(lay.recs, ns);
    forall b: nat ensures AddrsCnt(lay.leafLogs + Flat(lay.logss), ns, b) <= FreeCnt(fr, b) {
      TakeCnt(fr, ns, BlockCount(l, NodeCap(ns)), b);
    }
  }

  lemma {:induction false} LayoutFreed(lay: Layout, inp: Input, fr: seq<Extent>, fr': seq<Extent>, ns: nat, l: nat)
    requires ns > 0 && l >= 1 && NodeCap(ns) >= 2 && Canonical(fr) && LayoutFor(lay, inp, fr, fr', ns, l)
    ensures FreeAll(fr', lay.blocks, ns) == fr
  {
    PlanShape(fr, ns, l, NodeCap(ns));
    TakeThenFree(fr, ns, BlockCount(l, NodeCap(ns)));
  }

  /** The sizing loop: at most 64 attempts, each undone before the next and each with more leaves than
      the one before. It stops with the least self-consistent layout; running out of blocks means that
      there is none, and giving up that each has more than 64 leaves. */
  method SizeExtentTree(v: Volume, inp: Input) returns (r: Option<Layout>, short: bool, ghost l: nat)
    requires v.Valid() && NodeCap(v.ns) >= 2 && Canonical(v.sm.freeExts) && ValidInput(inp, v.sm.freeExts)
    modifies v.sm`freeExts
    ensures r.Some? ==> LayoutFor(r.value, inp, old(v.sm.freeExts), v.sm.freeExts, v.ns, l)
    ensures r.Some? ==>
            |r.value.ranges| == |r.value.leafLogs| && LowerBound(inp, old(v.sm.freeExts), v.ns, l, NodeCap(v.ns))
    ensures r.Some? ==> SelfConsistent(inp, old(v.sm.freeExts), v.ns, l, NodeCap(v.ns))
    ensures r.None? && short ==> forall m: nat :: !SelfConsistent(inp, old(v.sm.freeExts), v.ns, m, NodeCap(v.ns))
    ensures r.None? && short ==> Exhausted(old(v.sm.freeExts), v.sm.freeExts, v.ns)
    ensures r.None? && !short ==> v.sm.freeExts == old(v.sm.freeExts)
    ensures r.None? && !short ==> forall m: nat :: SelfConsistent(inp, old(v.sm.freeExts), v.ns, m, NodeCap(v.ns)) ==>
            m > 64
  {
    ghost var fr := v.sm.freeExts;
    var icap := NodeCap(v.ns);
    var blockCount, iter := 1, 0;
    l := 1;
    assert Levels(1, icap) == [] && Sum([]) == 0;
    if PlanFor(fr, v.ns, 1, icap).Plan? {
      LeafCountPositive(inp, fr, v.ns, 1, icap);
    }
    while iter < 64
      invariant l >= 1 && blockCount == BlockCount(l, icap) && v.sm.freeExts == fr
      invariant LowerBound(inp, fr, v.ns, l, icap) && Grows(inp, fr, v.ns, l, icap)
      invariant iter <= 64 && l >= iter + 1
    {
      var lay := TryExtentLayout(v, inp, blockCount, l);
      if lay.None? {
        ShortMeansNone(inp, fr, v.ns, l, icap);
        return None, true, l;
      }
      LayoutSpare(lay.value, inp, fr, v.sm.freeExts, v.ns, l);
      var realLeaves := |lay.value.ranges|;
      if realLeaves == |lay.value.leafLogs| {
        return lay, false, l;
      }
      LayoutFreed(lay.value, inp, fr, v.sm.freeExts, v.ns, l);
      v.FreeBlocks(lay.value.blocks);
      SizingStep(inp, fr, v.ns, l, icap);
      l := realLeaves;
      var lv, itot, rl := InteriorShape(realLeaves, icap);
      blockCount := realLeaves + itot;
      iter := iter + 1;
    }
    return None, false, l;
  }

  /** buildMultiLevelExtentTree up to the root pointer and superblock updates, whose new values it
      returns. oldBlocks are the old tree's blocks, given back first when they are still in bounds. */
  method BuildMultiLevelExtentTree(v: Volume, inp: Input, oldBlocks: seq<nat>, oldExtSafe: bool)
    returns (r: BuildResult, ghost t: Tree, ghost l: nat, ghost fr: seq<Extent>)
    requires v.Valid() && Canonical(v.sm.freeExts)
    requires oldExtSafe ==> forall b: nat :: FreeCnt(v.sm.freeExts, b) + AddrsCnt(oldBlocks, v.ns, b) <= 1
    requires ValidInput(inp, if oldExtSafe then FreeAll(v.sm.freeExts, oldBlocks, v.ns) else v.sm.freeExts)
    modifies v`dev, v.sm`freeExts
    ensures NodeCap(v.ns) >= 2
    ensures fr == if oldExtSafe then FreeAll(old(v.sm.freeExts), oldBlocks, v.ns) else old(v.sm.freeExts)
    ensures r.Built? ==> Stored(v.dev, t) && Finished(r, t, l, inp, fr, v.sm.freeExts, v.ns, v.generation + 1)
    ensures r == NotBuilt(OutOfBlocks) ==> forall m: nat :: !SelfConsistent(inp, fr, v.ns, m, NodeCap(v.ns))
    ensures r == NotBuilt(OutOfBlocks) ==> Exhausted(fr, v.sm.freeExts, v.ns)
    ensures r == NotBuilt(NotConverged) ==> v.sm.freeExts == fr
    ensures r == NotBuilt(RecordTooBig) || r.Built? ==>
              && SelfConsistent(inp, fr, v.ns, l, NodeCap(v.ns)) && LowerBound(inp, fr, v.ns, l, NodeCap(v.ns))
              && (r.Built? <==> EachFits(Records(inp, PlanFor(fr, v.ns, l, NodeCap(v.ns)), v.ns), v.ns))
              && v.sm.freeExts == PlanFor(fr, v.ns, l, NodeCap(v.ns)).rest
    ensures r == NotBuilt(NotConverged) ==> forall m: nat :: SelfConsistent(inp, fr, v.ns, m, NodeCap(v.ns)) ==> m > 64
    ensures Untouched(old(v.dev), v.dev, fr, v.ns)
  {
    NodeCapTwo(v.ns);
    t := Leaf(0, 0, []);
    if oldExtSafe {
      FreeAllCanonical(v.sm.freeExts, oldBlocks, v.ns);
      v.FreeBlocks(oldBlocks);
    }
    fr := v.sm.freeExts;
    var lay, short;
    lay, short, l := SizeExtentTree(v, inp);
    if lay.None? {
      return NotBuilt(if short then OutOfBlocks else NotConverged), t, l, fr;
    }
    r, t := WriteExtentTree(v, inp, lay.value, fr, l);
  }

  /** Every record fits a leaf of its own. */
  ghost predicate EachFits(recs: seq<Item>, ns: nat) {
    forall i :: 0 <= i < |recs| ==> LeafFits([recs[i]], ns)
  }

  lemma {:induction false} LayoutRanges(lay: Layout, inp: Input, fr: seq<Extent>, fr': seq<Extent>, ns: nat, l: nat)
    requires NodeCap(ns) >= 2 && LayoutFor(lay, inp, fr, fr', ns, l)
    ensures lay.ranges == LeavesOf(lay.recs, ns) && lay.recs == Records(inp, PlanFor(fr, ns, l, NodeCap(ns)), ns)
    ensures fr' == PlanFor(fr, ns, l, NodeCap(ns)).rest
  {
  }

  lemma {:induction false} NeedsTotal(recs: seq<Item>, i: nat, j: nat)
    requires i <= j <= |recs|
    ensures Total(Needs(recs), i, j) == LeafUse(recs[i..j])
    decreases j - i
  {
    if i < j {
      NeedsTotal(recs, i, j - 1);
      var s := recs[i..j];
      assert s[..|s|-1] == recs[i..j-1] && s[|s|-1] == recs[j-1];
    }
  }

  /** Every index lies in one of the tiles. */
  lemma {:induction false} TileOf(rs: seq<Span>, i: nat, len: nat, x: nat) returns (k: nat)
    requires Tiles(rs, i, len) && i <= x < len
    ensures k < |rs| && rs[k].start <= x < rs[k].end
    decreases |rs|
  {
    if x < rs[0].end {
      k := 0;
    } else {
      k := TileOf(rs[1..], rs[0].end, len, x);
      k := k + 1;
    }
  }

  lemma {:induction false} OneOfFits(recs: seq<Item>, i: nat, j: nat, x: nat, ns: nat)
    requires i <= x < j <= |recs| && LeafFits(recs[i..j], ns)
    ensures LeafFits([recs[x]], ns)
  {
    NeedsTotal(recs, i, j);
    NeedsTotal(recs, x, x + 1);
    TotalMono(Needs(recs), i, x, j, x + 1);
    assert recs[x..x + 1] == [recs[x]];
  }

  /** The leaves that the records are packed into fit exactly when each record fits a leaf of its own. */
  lemma {:induction false} LeavesFitIff(recs: seq<Item>, ns: nat)
    ensures LeavesFit(recs, LeavesOf(recs, ns), ns) <==> EachFits(recs, ns)
  {
    hide Needs, Total, LeafUse;
    var rs, n := LeavesOf(recs, ns), Needs(recs);
    GreedyTiles(n, 0, ns - NODE_HDR);
    if LeavesFit(recs, rs, ns) {
      forall x | 0 <= x < |recs|
        ensures LeafFits([recs[x]], ns)
      {
        var k := TileOf(rs, 0, |recs|, x);
        OneOfFits(recs, rs[k].start, rs[k].end, x, ns);
      }
    }
    if EachFits(recs, ns) {
      forall k | 0 <= k < |rs|
        ensures rs[k].start < rs[k].end <= |recs| && LeafFits(recs[rs[k].start..rs[k].end], ns)
      {
        assert PieceFits(n, rs[k], ns - NODE_HDR);
        NeedsTotal(recs, rs[k].start, rs[k].end);
        if rs[k].end == rs[k].start + 1 {
          assert recs[rs[k].start..rs[k].end] == [recs[rs[k].start]];
        }
      }
    }
  }

  /** The part of the build after the sizing loop. */
  method WriteExtentTree(v: Volume, inp: Input, final: Layout, ghost fr: seq<Extent>, ghost l: nat)
    returns (r: BuildResult, ghost t: Tree)
    requires v.Valid() && NodeCap(v.ns) >= 2 && l >= 1 && Canonical(fr) && ValidInput(inp, fr)
    requires LayoutFor(final, inp, fr, v.sm.freeExts, v.ns, l) && |final.ranges| == |final.leafLogs|
    modifies v`dev
    ensures r.Built? ==> Stored(v.dev, t) && Finished(r, t, l, inp, fr, v.sm.freeExts, v.ns, v.generation + 1)
    ensures r.NotBuilt? ==> r.error == RecordTooBig
    ensures r.Built? <==> EachFits(final.recs, v.ns)
    ensures Untouched(old(v.dev), v.dev, fr, v.ns)
  {
    hide LayoutFor, Finished, Untouched, Laid, Planned, Flat, Canonical, ValidInput, Stored, LeavesFit, Raised, MapSum,
         NodeCap;
    var total := SumUsed(final.used);
    LayoutRanges(final, inp, fr, v.sm.freeExts, v.ns, l);
    LeavesFitIff(final.recs, v.ns);
    ghost var site, g := Site(v.dev, fr, v.ns), v.generation + 1;
    LayoutReady(final, inp, fr, v.sm.freeExts, v.ns, l, site);
    var ok; ghost var ks;
    ok, ks := WriteMultiLevelTree(v, final.recs, final.ranges, final.leafLogs, final.logss, NodeCap(v.ns), site);
    if !ok {
      return NotBuilt(RecordTooBig), Leaf(0, 0, []);
    }
    TreeFinished(ks, final, inp, fr, v.sm.freeExts, v.ns, l, g, total);
    return Built(InteriorRootLog(final.leafLogs, final.logss), final.rootLevel, total), ks[0].sub;
  }

  lemma {:induction false} LayoutReady(lay: Layout, inp: Input, fr: seq<Extent>, fr': seq<Extent>, ns: nat, l: nat,
                                       site: Site)
    requires ns > 0 && l >= 1 && NodeCap(ns) >= 2 && LayoutFor(lay, inp, fr, fr', ns, l) && Canonical(fr)
    requires site.fr == fr && site.ns == ns
    ensures Planned(|lay.leafLogs|, lay.logss, NodeCap(ns))
            && Laid(site, site.dev, [], [], lay.leafLogs + Flat(lay.logss))
    ensures forall i :: 0 <= i < |lay.ranges| ==> lay.ranges[i].start < lay.ranges[i].end <= |lay.recs|
  {
    LayoutSpare(lay, inp, fr, fr', ns, l);
    CanonicalDisjoint(fr);
    LaidStart(site, lay.leafLogs + Flat(lay.logss));
  }
}
