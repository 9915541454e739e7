/** Block conservation and the parent-transid invariant of the copy-on-write operations.
    Conservation is counted per byte: free extents covering it plus tree nodes covering it. */
module CowConserve {
  import opened Keys
  import opened FreeSpace
  import opened Trees
  import opened CowSpec
  import opened CowMutate

  function AddrsCnt(addrs: seq<nat>, ns: nat, b: nat): nat {
    if addrs == [] then 0 else AddrsCnt(addrs[..|addrs|-1], ns, b) + Hit(addrs[|addrs|-1], ns, b)
  }

  lemma {:induction false} AddrsCntAppend(addrs: seq<nat>, a: nat, ns: nat, b: nat)
    ensures AddrsCnt(addrs + [a], ns, b) == AddrsCnt(addrs, ns, b) + Hit(a, ns, b)
  {
    assert (addrs + [a])[..|addrs|] == addrs;
  }

  lemma {:induction false} OneAddrCnt(a: nat, ns: nat, b: nat)
    ensures AddrsCnt([a], ns, b) == Hit(a, ns, b)
  {
    assert [a][..0] == [];
  }

  /** The route of an inner node: the route of the routed child, then the node itself. */
  lemma {:induction false} SpineNode(t: Tree, k: Key, ns: nat, b: nat)
    requires t.Node? && Shape(t, LevelOf(t))
    ensures var s := t.kids[RouteKid(t.kids, k)].sub;
            && Shape(s, LevelOf(s))
            && SpineAddrs(t, k) == SpineAddrs(s, k) + [t.addr]
            && AddrsCnt(SpineAddrs(t, k), ns, b) == AddrsCnt(SpineAddrs(s, k), ns, b) + Hit(t.addr, ns, b)
  {
    RoutedShape(t, k);
    AddrsCntAppend(SpineAddrs(t.kids[RouteKid(t.kids, k)].sub, k), t.addr, ns, b);
  }

  lemma {:induction false} FreeAllCnt(fr: seq<Extent>, addrs: seq<nat>, ns: nat, b: nat)
    ensures FreeCnt(FreeAll(fr, addrs, ns), b) == FreeCnt(fr, b) + AddrsCnt(addrs, ns, b)
  {
    if addrs != [] {
      FreeAllCnt(fr, addrs[..|addrs|-1], ns, b);
      FreedCnt(FreeAll(fr, addrs[..|addrs|-1], ns), addrs[|addrs|-1], ns, b);
    }
  }

  lemma {:induction false} CowNodeCnt(lvl: nat, kids: seq<Kid>, fr: seq<Extent>, ns: nat, g: nat, b: nat)
    ensures var r := CowNode(lvl, kids, fr, ns, g);
            r.MKeep? ==> FreeCnt(r.fr, b) + Cnt(r.t, ns, b) == FreeCnt(fr, b) + KidsCnt(kids, ns, b)
  {
    if FirstFit(fr, ns).Granted? {
      FirstFitCnt(fr, ns, b);
    }
  }

  /** One step up the path; sp counts the old path nodes below. */
  lemma {:induction false} MutateUpCnt(lvl: nat, kids: seq<Kid>, c: nat, m: Mutated, top: bool, fr: seq<Extent>,
                                       ns: nat, g: nat, b: nat, sp: nat)
    requires c < |kids|
    requires m.MKeep? ==> FreeCnt(m.fr, b) + Cnt(m.t, ns, b) + sp == FreeCnt(fr, b) + Cnt(kids[c].sub, ns, b)
    requires m.MDrop? ==> sp == Cnt(kids[c].sub, ns, b)
    ensures var r := MutateUp(lvl, kids, c, m, top, fr, ns, g);
            && (r.MKeep? ==> FreeCnt(r.fr, b) + Cnt(r.t, ns, b) + sp == FreeCnt(fr, b) + KidsCnt(kids, ns, b))
            && (r.MDrop? ==> sp == KidsCnt(kids, ns, b))
  {
    KidsCntAt(kids, c, ns, b);
    match m
    case MFail(_) =>
    case MDrop =>
      var rest := kids[..c] + kids[c+1..];
      KidsCntConcat(kids[..c], kids[c+1..], ns, b);
      CowNodeCnt(lvl, rest, fr, ns, g, b);
      if |rest| == 1 {
        assert rest == [rest[0]];
        KidsCntOne(rest[0], ns, b);
      }
    case MKeep(s, fr', _) =>
      var ks := kids[c := Kid(kids[c].sep, g, s)];
      KidsCntAt(ks, c, ns, b);
      assert ks[..c] == kids[..c] && ks[c+1..] == kids[c+1..];
      CowNodeCnt(lvl, ks, fr', ns, g, b);
  }

  lemma {:induction false} MutateCnt(t: Tree, op: LeafOp, top: bool, fr: seq<Extent>, ns: nat, g: nat, b: nat)
    requires Shape(t, LevelOf(t))
    ensures var r := MutateRec(t, op, top, fr, ns, g);
            var sp := AddrsCnt(SpineAddrs(t, RouteKey(op)), ns, b);
            && (r.MKeep? ==> FreeCnt(r.fr, b) + Cnt(r.t, ns, b) + sp == FreeCnt(fr, b) + Cnt(t, ns, b))
            && (r.MDrop? ==> sp == Cnt(t, ns, b))
    decreases t
  {
    if t.Leaf? {
      OneAddrCnt(t.addr, ns, b);
      if FirstFit(fr, ns).Granted? {
        FirstFitCnt(fr, ns, b);
      }
    } else {
      var k := RouteKey(op);
      RoutedShape(t, k);
      var c := RouteKid(t.kids, k);
      var s := t.kids[c].sub;
      MutateCnt(s, op, false, fr, ns, g, b);
      MutateRecNode(t, op, top, fr, ns, g);
      MutateUpCnt(t.level, t.kids, c, MutateRec(s, op, false, fr, ns, g), top, fr, ns, g, b,
                  AddrsCnt(SpineAddrs(s, k), ns, b));
      SpineNode(t, k, ns, b);
    }
  }

  lemma {:induction false} TryCollapseCnt(t: Tree, fr: seq<Extent>, ns: nat, g: nat, b: nat)
    ensures var (t', fr') := TryCollapse(t, fr, ns, g);
            FreeCnt(fr', b) + Cnt(t', ns, b) == FreeCnt(fr, b) + Cnt(t, ns, b)
  {
    if TwoLeafRoot(t) && FirstFit(fr, ns).Granted? {
      var l, r := t.kids[0].sub, t.kids[1].sub;
      var gr := FirstFit(fr, ns);
      FirstFitCnt(fr, ns, b);
      FreeAllCnt(gr.rest, [t.addr, l.addr, r.addr], ns, b);
      ThreeCnt(t.addr, l.addr, r.addr, ns, b);
      TwoKidsCnt(t.kids, ns, b);
    }
  }

  lemma {:induction false} TwoKidsCnt(ks: seq<Kid>, ns: nat, b: nat)
    requires |ks| == 2
    ensures KidsCnt(ks, ns, b) == Cnt(ks[0].sub, ns, b) + Cnt(ks[1].sub, ns, b)
  {
    TwoParts(ks);
    KidsCntConcat([ks[0]], [ks[1]], ns, b);
    KidsCntOne(ks[0], ns, b);
    KidsCntOne(ks[1], ns, b);
  }

  lemma {:induction false} ThreeCnt(x: nat, y: nat, z: nat, ns: nat, b: nat)
    ensures AddrsCnt([x, y, z], ns, b) == Hit(x, ns, b) + Hit(y, ns, b) + Hit(z, ns, b)
  {
    AddrsCntAppend([x, y], z, ns, b);
    AddrsCntAppend([x], y, ns, b);
    OneAddrCnt(x, ns, b);
    assert [x, y] + [z] == [x, y, z] && [x] + [y] == [x, y];
  }

  /** cowMutate: every byte is covered as often after the operation as before it. */
  lemma {:induction false} MutateTreeConserves(t: Tree, op: LeafOp, fr: seq<Extent>, ns: nat, g: nat, b: nat)
    requires Shape(t, LevelOf(t)) && MutateTree(t, op, fr, ns, g).Ok?
    ensures var (t', fr') := MutateTree(t, op, fr, ns, g).value;
            FreeCnt(fr', b) + Cnt(t', ns, b) == FreeCnt(fr, b) + Cnt(t, ns, b)
  {
    MutateCnt(t, op, true, fr, ns, g, b);
    MutateDoneCnt(MutateRec(t, op, true, fr, ns, g), SpineAddrs(t, RouteKey(op)), ns, g, b);
  }

  lemma {:induction false} MutateDoneCnt(m: Mutated, path: seq<nat>, ns: nat, g: nat, b: nat)
    requires MutateDone(m, path, ns, g).Ok?
    ensures var x := MutateDone(m, path, ns, g).value;
            m.MKeep? && FreeCnt(x.1, b) + Cnt(x.0, ns, b) == FreeCnt(m.fr, b) + Cnt(m.t, ns, b) + AddrsCnt(path, ns, b)
  {
    FreeAllCnt(m.fr, path, ns, b);
    TryCollapseCnt(m.t, FreeAll(m.fr, path, ns), ns, g, b);
  }

  // ---- generations -----------------------------------------------------------------------

  lemma {:induction false} MutateUpGen(lvl: nat, kids: seq<Kid>, c: nat, m: Mutated, top: bool, fr: seq<Extent>,
                                       ns: nat, g: nat)
    requires c < |kids|
    requires forall i :: 0 <= i < |kids| ==> kids[i].gen == kids[i].sub.gen && GenOK(kids[i].sub)
    requires m.MKeep? ==> GenOK(m.t) && m.t.gen == g
    ensures var r := MutateUp(lvl, kids, c, m, top, fr, ns, g);
            r.MKeep? ==> GenOK(r.t) && (!r.shrunk ==> r.t.gen == g)
  {
    if m.MDrop? {
      var rest := kids[..c] + kids[c+1..];
      forall i | 0 <= i < |rest| ensures rest[i].gen == rest[i].sub.gen && GenOK(rest[i].sub) {
        assert rest[i] == kids[if i < c then i else i + 1];
      }
    }
  }

  lemma {:induction false} MutateGen(t: Tree, op: LeafOp, top: bool, fr: seq<Extent>, ns: nat, g: nat)
    requires Shape(t, LevelOf(t)) && GenOK(t)
    ensures var r := MutateRec(t, op, top, fr, ns, g);
            r.MKeep? ==> GenOK(r.t) && (!r.shrunk ==> r.t.gen == g) && (r.shrunk ==> top)
    decreases t
  {
    if t.Node? {
      var c := RouteKid(t.kids, RouteKey(op));
      RoutedShape(t, RouteKey(op));
      MutateGen(t.kids[c].sub, op, false, fr, ns, g);
      MutateRecNode(t, op, top, fr, ns, g);
      MutateUpGen(t.level, t.kids, c, MutateRec(t.kids[c].sub, op, false, fr, ns, g), top, fr, ns, g);
    }
  }

  /** cowMutate keeps every pointer's generation equal to its child's. */
  lemma {:induction false} MutateTreeGen(t: Tree, op: LeafOp, fr: seq<Extent>, ns: nat, g: nat)
    requires Shape(t, LevelOf(t)) && GenOK(t) && MutateTree(t, op, fr, ns, g).Ok?
    ensures GenOK(MutateTree(t, op, fr, ns, g).value.0)
  {
    MutateGen(t, op, true, fr, ns, g);
  }
}
