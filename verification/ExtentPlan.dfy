/** The layout of a rebuilt extent tree as a function of its leaf count (extent_multilevel.go), and
    the order on self-consistent layouts that the sizing loop relies on. */
module ExtentPlan {
  import opened Keys
  import opened FreeSpace
  import opened CowSpec
  import opened CowConserve
  import opened InteriorShapes
  import opened BulkTree

  // ---- taking blocks and giving them back -----------------------------------------------------------------

  datatype Taken = Short | Taken(addrs: seq<nat>, rest: seq<Extent>)

  /** n calls of allocNodeBlock. */
  function TakeBlocks(fr: seq<Extent>, ns: nat, n: nat): (r: Taken)
    ensures r.Taken? ==> |r.addrs| == n
  {
    if n == 0 then Taken([], fr)
    else
      match TakeBlocks(fr, ns, n - 1)
      case Short => Short
      case Taken(addrs, rest) =>
        match FirstFit(rest, ns)
        case NoSpace => Short
        case Granted(a, rest') => Taken(addrs + [a], rest')
  }

  /** The blocks a smaller request gets are the first ones of a larger request. */
  lemma {:induction false} TakePrefix(fr: seq<Extent>, ns: nat, m: nat, n: nat)
    requires m <= n && TakeBlocks(fr, ns, n).Taken?
    ensures TakeBlocks(fr, ns, m).Taken? && TakeBlocks(fr, ns, m).addrs == TakeBlocks(fr, ns, n).addrs[..m]
    decreases n
  {
    if m < n {
      TakePrefix(fr, ns, m, n - 1);
      var a := TakeBlocks(fr, ns, n).addrs;
      assert a[..n-1] == TakeBlocks(fr, ns, n - 1).addrs;
      assert a[..n-1][..m] == a[..m];
    } else {
      assert TakeBlocks(fr, ns, n).addrs[..n] == TakeBlocks(fr, ns, n).addrs;
    }
  }

  lemma {:induction false} TakeCnt(fr: seq<Extent>, ns: nat, n: nat, b: nat)
    requires TakeBlocks(fr, ns, n).Taken?
    ensures var r := TakeBlocks(fr, ns, n); FreeCnt(r.rest, b) + AddrsCnt(r.addrs, ns, b) == FreeCnt(fr, b)
  {
    if n > 0 {
      var p := TakeBlocks(fr, ns, n - 1);
      TakeCnt(fr, ns, n - 1, b);
      FirstFitCnt(p.rest, ns, b);
      AddrsCntAppend(p.addrs, FirstFit(p.rest, ns).addr, ns, b);
    }
  }

  lemma {:induction false} TakeCanonical(fr: seq<Extent>, ns: nat, n: nat)
    requires Canonical(fr) && TakeBlocks(fr, ns, n).Taken?
    ensures Canonical(TakeBlocks(fr, ns, n).rest)
  {
    if n > 0 {
      TakeCanonical(fr, ns, n - 1);
      FirstFitCanonical(TakeBlocks(fr, ns, n - 1).rest, ns);
    }
  }

  lemma {:induction false} FreeAllCanonical(fr: seq<Extent>, addrs: seq<nat>, ns: nat)
    requires Canonical(fr) && ns > 0 && forall b: nat :: FreeCnt(fr, b) + AddrsCnt(addrs, ns, b) <= 1
    ensures Canonical(FreeAll(fr, addrs, ns))
  {
    if addrs != [] {
      var p, a := addrs[..|addrs|-1], addrs[|addrs|-1];
      forall b: nat
        ensures FreeCnt(fr, b) + AddrsCnt(p, ns, b) <= 1
        ensures FreeCnt(FreeAll(fr, p, ns) + [Extent(a, ns)], b) <= 1
      {
        assert FreeCnt(fr, b) + AddrsCnt(addrs, ns, b) <= 1;
        FreeAllCnt(fr, p, ns, b);
        CntConcat(FreeAll(fr, p, ns), [Extent(a, ns)], b);
        CntOne(Extent(a, ns), b);
      }
      FreeAllCanonical(fr, p, ns);
      FreedCanonical(FreeAll(fr, p, ns), a, ns);
    }
  }

  /** freeLayout undoes the allocations of an attempt: the free list is the same list again. */
  lemma {:induction false} TakeThenFree(fr: seq<Extent>, ns: nat, n: nat)
    requires Canonical(fr) && ns > 0 && TakeBlocks(fr, ns, n).Taken?
    ensures var r := TakeBlocks(fr, ns, n); FreeAll(r.rest, r.addrs, ns) == fr
  {
    var r := TakeBlocks(fr, ns, n);
    TakeCanonical(fr, ns, n);
    CanonicalDisjoint(fr);
    forall b: nat
      ensures FreeCnt(r.rest, b) + AddrsCnt(r.addrs, ns, b) <= 1
      ensures FreeCnt(FreeAll(r.rest, r.addrs, ns), b) == FreeCnt(fr, b)
    {
      TakeCnt(fr, ns, n, b);
      assert FreeCnt(fr, b) <= 1;
      FreeAllCnt(r.rest, r.addrs, ns, b);
    }
    FreeAllCanonical(r.rest, r.addrs, ns);
    CanonicalUnique(FreeAll(r.rest, r.addrs, ns), fr);
  }

  lemma {:induction false} AddrHit(addrs: seq<nat>, i: nat, ns: nat)
    requires i < |addrs| && ns > 0
    ensures AddrsCnt(addrs, ns, addrs[i]) >= 1
  {
    if i < |addrs| - 1 {
      AddrHit(addrs[..|addrs|-1], i, ns);
    }
  }

  lemma {:induction false} TwoHits(addrs: seq<nat>, i: nat, j: nat, ns: nat)
    requires i < j < |addrs| && ns > 0 && addrs[i] == addrs[j]
    ensures AddrsCnt(addrs, ns, addrs[i]) >= 2
  {
    if j < |addrs| - 1 {
      TwoHits(addrs[..|addrs|-1], i, j, ns);
    } else {
      AddrHit(addrs[..|addrs|-1], i, ns);
    }
  }

  /** The blocks taken were free, and no two are the same. */
  lemma {:induction false} TakenDistinct(fr: seq<Extent>, ns: nat, n: nat, i: nat, j: nat)
    requires Canonical(fr) && ns > 0 && TakeBlocks(fr, ns, n).Taken? && i < j < n
    ensures TakeBlocks(fr, ns, n).addrs[i] != TakeBlocks(fr, ns, n).addrs[j]
  {
    var a := TakeBlocks(fr, ns, n).addrs;
    if a[i] == a[j] {
      TwoHits(a, i, j, ns);
      TakeCnt(fr, ns, n, a[i]);
      CanonicalDisjoint(fr);
    }
  }

  lemma {:induction false} TakenFree(fr: seq<Extent>, ns: nat, n: nat, i: nat)
    requires ns > 0 && TakeBlocks(fr, ns, n).Taken? && i < n
    ensures FreeCnt(fr, TakeBlocks(fr, ns, n).addrs[i]) > 0
  {
    var a := TakeBlocks(fr, ns, n).addrs;
    AddrHit(a, i, ns);
    TakeCnt(fr, ns, n, a[i]);
  }

  // ---- leaves and interior nodes ------------------------------------------------------------------------------

  function CutLevels(addrs: seq<nat>, levels: seq<nat>): seq<seq<nat>> {
    if levels == [] || levels[0] > |addrs| then []
    else [addrs[..levels[0]]] + CutLevels(addrs[levels[0]..], levels[1..])
  }

  lemma {:induction false} CutLevelsFlat(addrs: seq<nat>, levels: seq<nat>)
    requires Sum(levels) == |addrs|
    ensures Flat(CutLevels(addrs, levels)) == addrs && |CutLevels(addrs, levels)| == |levels|
    decreases |levels|
  {
    if levels != [] {
      var n := levels[0];
      CutLevelsFlat(addrs[n..], levels[1..]);
      assert CutLevels(addrs, levels)[1..] == CutLevels(addrs[n..], levels[1..]);
      assert addrs[..n] + addrs[n..] == addrs;
    }
  }

  lemma {:induction false} CutLevelsPlanned(children: nat, addrs: seq<nat>, levels: seq<nat>, icap: nat)
    requires children >= 1 && Pyramid(children, levels, icap) && Sum(levels) == |addrs|
    ensures Planned(children, CutLevels(addrs, levels), icap)
    decreases |levels|
  {
    if levels != [] {
      CutLevelsPlanned(levels[0], addrs[levels[0]..], levels[1..], icap);
      assert CutLevels(addrs, levels)[1..] == CutLevels(addrs[levels[0]..], levels[1..]);
    }
  }

  /** A candidate layout: the addresses of the leaves and of each interior level. */
  datatype Plan = NoPlan | Plan(leafLogs: seq<nat>, logss: seq<seq<nat>>, rest: seq<Extent>)

  function PlanFor(fr: seq<Extent>, ns: nat, l: nat, icap: nat): Plan
    requires icap >= 2
  {
    match TakeBlocks(fr, ns, BlockCount(l, icap))
    case Short => NoPlan
    case Taken(a, rest) => Plan(a[..l], CutLevels(a[l..], Levels(l, icap)), rest)
  }

  /** All blocks of a plan, in the order they were allocated. */
  function Blocks(p: Plan): seq<nat> {
    if p.NoPlan? then [] else p.leafLogs + Flat(p.logss)
  }

  lemma {:induction false} PlanShape(fr: seq<Extent>, ns: nat, l: nat, icap: nat)
    requires icap >= 2 && l >= 1 && PlanFor(fr, ns, l, icap).Plan?
    ensures var p := PlanFor(fr, ns, l, icap);
            && |p.leafLogs| == l && Planned(l, p.logss, icap) && |p.logss| == |Levels(l, icap)|
            && TakeBlocks(fr, ns, BlockCount(l, icap)) == Taken(Blocks(p), p.rest)
  {
    var a := TakeBlocks(fr, ns, BlockCount(l, icap)).addrs;
    var levels := Levels(l, icap);
    LevelsPyramid(l, icap);
    CutLevelsFlat(a[l..], levels);
    CutLevelsPlanned(l, a[l..], levels, icap);
    CutAt(a, l);
  }
}
