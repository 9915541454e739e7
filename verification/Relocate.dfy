/** relocateSubtreePath and relocateNodeBuffer (resize_reloc.go) on the device. */
module Relocation {
  import opened FreeSpace
  import opened Trees
  import opened CowSpec
  import opened Volumes
  import opened CowEngine
  import opened RelocateSpec
  import opened RelocateCount

  /** Blocks without a byte that is free in fr read back unchanged. */
  ghost predicate Untouched(dev: Device, dev': Device, fr: seq<Extent>, ns: nat) {
    forall a :: a in dev && InUse(a, fr, ns) ==> a in dev' && dev'[a] == dev[a]
  }

  ghost predicate InUse(a: nat, fr: seq<Extent>, ns: nat) {
    forall b: nat :: a <= b < a + ns ==> FreeCnt(fr, b) == 0
  }

  /** The result of a relocation is the one RelocateSpec computes; success or failure, only free
      bytes were written and no byte became free. */
  ghost predicate Relocates(r: Result<(nat, bool)>, x: Moved, dev: Device, fr: seq<Extent>, dev0: Device,
                            fr0: seq<Extent>, ns: nat) {
    match x
    case RDone(t, changed, fr') =>
      r == Ok((t.addr, changed)) && Stored(dev, t) && fr == fr' && Untouched(dev0, dev, fr0, ns) && Fewer(fr, fr0)
    case RFail(e) => r == Err(e) && Untouched(dev0, dev, fr0, ns) && Fewer(fr, fr0)
  }

  lemma {:induction false} UntouchedSelf(dev: Device, fr: seq<Extent>, ns: nat)
    ensures Untouched(dev, dev, fr, ns) && Fewer(fr, fr)
  {
  }

  lemma {:induction false} StillStored(dev: Device, dev': Device, fr: seq<Extent>, t: Tree, ns: nat)
    requires ns > 0 && Stored(dev, t) && Untouched(dev, dev', fr, ns) && Clean(fr, t, ns)
    ensures Stored(dev', t)
    decreases t
  {
    assert InUse(t.addr, fr, ns) by {
      forall b: nat | t.addr <= b < t.addr + ns ensures FreeCnt(fr, b) == 0 {
        assert FreeCnt(fr, b) + Cnt(t, ns, b) <= 1;
      }
    }
    if t.Node? {
      forall i | 0 <= i < |t.kids| ensures Stored(dev', t.kids[i].sub) {
        KidClean(fr, t, i, ns);
        StillStored(dev, dev', fr, t.kids[i].sub, ns);
      }
    }
  }

  lemma {:induction false} UntouchedThen(d0: Device, d1: Device, d2: Device, fr0: seq<Extent>, fr1: seq<Extent>,
                                         ns: nat)
    requires Untouched(d0, d1, fr0, ns) && Fewer(fr1, fr0) && Untouched(d1, d2, fr1, ns)
    ensures Untouched(d0, d2, fr0, ns)
  {
    forall a | a in d0 && InUse(a, fr0, ns) ensures a in d2 && d2[a] == d0[a] {
      assert InUse(a, fr1, ns) by {
        forall b: nat | a <= b < a + ns ensures FreeCnt(fr1, b) == 0 {
          assert FreeCnt(fr0, b) == 0;
        }
      }
    }
  }

  lemma {:induction false} GrantUntouched(dev: Device, fr: seq<Extent>, ns: nat, blk: Block)
    requires ns > 0 && FirstFit(fr, ns).Granted?
    ensures Untouched(dev, WriteBlock(dev, ns, FirstFit(fr, ns).addr, blk), fr, ns)
  {
    var x := FirstFit(fr, ns).addr;
    forall a | a in dev && InUse(a, fr, ns) ensures a + ns <= x || x + ns <= a {
      var b := if a < x then x else a;
      FirstFitCnt(fr, ns, b);
    }
  }

  /** The children done so far and the ones still to do share no byte with each other or with
      free space. */
  ghost predicate Tally(fr: seq<Extent>, kids: seq<Kid>, rest: seq<Kid>, ns: nat) {
    forall b: nat :: FreeCnt(fr, b) + KidsCnt(kids, ns, b) + KidsCnt(rest, ns, b) <= 1
  }

  lemma {:induction false} TallyStart(fr: seq<Extent>, t: Tree, ns: nat)
    requires t.Node? && Clean(fr, t, ns)
    ensures Tally(fr, [], t.kids[0..], ns)
  {
    assert t.kids[0..] == t.kids;
    forall b: nat ensures FreeCnt(fr, b) + KidsCnt(t.kids, ns, b) <= 1 {
      assert FreeCnt(fr, b) + Cnt(t, ns, b) <= 1;
    }
  }

  /** Passing child x on as y, with bytes moving between free space and the child only. */
  lemma {:induction false} TallyStep(fr: seq<Extent>, fr': seq<Extent>, kids: seq<Kid>, ks: seq<Kid>, i: nat, y: Kid,
                                     ns: nat)
    requires i < |ks| && Tally(fr, kids, ks[i..], ns)
    requires forall b: nat :: FreeCnt(fr', b) + Cnt(y.sub, ns, b) <= FreeCnt(fr, b) + Cnt(ks[i].sub, ns, b)
    ensures Tally(fr', kids + [y], ks[i+1..], ns)
  {
    assert ks[i..][1..] == ks[i+1..];
    forall b: nat ensures FreeCnt(fr', b) + KidsCnt(kids + [y], ns, b) + KidsCnt(ks[i+1..], ns, b) <= 1 {
      assert FreeCnt(fr, b) + KidsCnt(kids, ns, b) + KidsCnt(ks[i..], ns, b) <= 1;
      AddedKid(kids, y, ns, b);
    }
  }

  lemma {:induction false} TallyClean(fr: seq<Extent>, kids: seq<Kid>, rest: seq<Kid>, ns: nat, j: nat)
    requires Tally(fr, kids, rest, ns) && j < |kids|
    ensures Clean(fr, kids[j].sub, ns)
  {
    forall b: nat ensures FreeCnt(fr, b) + Cnt(kids[j].sub, ns, b) <= 1 {
      assert FreeCnt(fr, b) + KidsCnt(kids, ns, b) + KidsCnt(rest, ns, b) <= 1;
      KidCntLe(kids, j, ns, b);
    }
  }

  ghost predicate AllStored(dev: Device, kids: seq<Kid>) {
    forall j :: 0 <= j < |kids| ==> Stored(dev, kids[j].sub)
  }

  lemma {:induction false} StillAllStored(dev: Device, dev': Device, fr: seq<Extent>, kids: seq<Kid>, rest: seq<Kid>,
                                          ns: nat)
    requires ns > 0 && AllStored(dev, kids) && Untouched(dev, dev', fr, ns) && Tally(fr, kids, rest, ns)
    ensures AllStored(dev', kids)
  {
    forall j | 0 <= j < |kids| ensures Stored(dev', kids[j].sub) {
      TallyClean(fr, kids, rest, ns, j);
      StillStored(dev, dev', fr, kids[j].sub, ns);
    }
  }

  /** relocateNodeBuffer: write the node to a fresh block below the window. */
  method RelocateNodeBuffer(v: Volume, node: Block, w: Window, ghost t: Tree) returns (r: Result<(nat, bool)>)
    requires v.Valid() && node == BlockOf(t)
    requires t.Node? ==> AllStored(v.dev, t.kids) && Tally(v.sm.freeExts, t.kids, [], v.ns)
    modifies v`dev, v.sm`freeExts
    ensures Relocates(r, MoveNode(t, old(v.sm.freeExts), v.ns, v.generation + 1, w), v.dev, v.sm.freeExts,
                      old(v.dev), old(v.sm.freeExts), v.ns)
  {
    ghost var fr := v.sm.freeExts;
    var a := v.sm.AllocNodeBlock();
    if a.None? {
      return Err(NoBlock);
    }
    GrantFewer(fr, v.ns);
    if a.value + v.ns > w.start {
      ghost var rest := v.sm.freeExts;
      v.sm.FreeRange(a.value, v.ns);
      GrantReturned(fr, a.value, v.ns, rest);
      return Err(NoRoom);
    }
    v.dev := WriteBlock(v.dev, v.ns, a.value, Stamp(node, a.value, v.generation + 1));
    ghost var n := MoveNode(t, fr, v.ns, v.generation + 1, w).t;
    GrantUntouched(old(v.dev), fr, v.ns, BlockOf(n));
    if t.Node? {
      TallyAll(fr, t.kids, v.ns);
      StoreGranted(old(v.dev), fr, v.ns, n);
    }
    return Ok((a.value, true));
  }

  lemma {:induction false} TallyAll(fr: seq<Extent>, kids: seq<Kid>, ns: nat)
    requires Tally(fr, kids, [], ns)
    ensures forall b: nat :: FreeCnt(fr, b) + KidsCnt(kids, ns, b) <= 1
  {
    forall b: nat ensures FreeCnt(fr, b) + KidsCnt(kids, ns, b) <= 1 {
      assert FreeCnt(fr, b) + KidsCnt(kids, ns, b) + KidsCnt([], ns, b) <= 1;
    }
  }

  lemma {:induction false} GrantReturned(fr: seq<Extent>, a: nat, ns: nat, rest: seq<Extent>)
    requires FirstFit(fr, ns) == Granted(a, rest)
    ensures Fewer(Freed(rest, a, ns), fr)
  {
    forall b: nat ensures FreeCnt(Freed(rest, a, ns), b) <= FreeCnt(fr, b) {
      FirstFitCnt(fr, ns, b);
      FreedCnt(rest, a, ns, b);
    }
  }

  // ---- the walk over one node's children ---------------------------------------------------------

  /** Where the loop stands at child i: kids are done, ps is the node's pointer array. */
  ghost predicate Midway(t: Tree, i: nat, kids: seq<Kid>, changed: bool, ps: seq<Ptr>, depth: nat, dev: Device,
                         fr: seq<Extent>,
                         dev0: Device, fr0: seq<Extent>, ns: nat, g: nat, w: Window)
  {
    match t
    case Leaf(_, _, _) => false
    case Node(_, _, _, ks) =>
      && i == |kids| <= |ks| && |ps| == |ks| && ps[..i] == Ptrs(kids) && ps[i..] == Ptrs(ks)[i..]
      && RelocateKids(t, 0, [], false, depth, fr0, ns, g, w) == RelocateKids(t, i, kids, changed, depth, fr, ns, g, w)
      && AllStored(dev, kids) && Stored(dev, t) && Clean(fr, t, ns) && Tally(fr, kids, ks[i..], ns)
      && Fewer(fr, fr0) && Untouched(dev0, dev, fr0, ns)
  }

  lemma {:induction false} FewerThen(a: seq<Extent>, b: seq<Extent>, c: seq<Extent>, t: Tree, ns: nat)
    requires Fewer(a, b) && Fewer(b, c) && Clean(b, t, ns)
    ensures Fewer(a, c) && Clean(a, t, ns)
  {
    forall x: nat ensures FreeCnt(a, x) <= FreeCnt(c, x) && FreeCnt(a, x) + Cnt(t, ns, x) <= 1 {
      assert FreeCnt(a, x) <= FreeCnt(b, x) <= FreeCnt(c, x);
      assert FreeCnt(b, x) + Cnt(t, ns, x) <= 1;
    }
  }

  lemma {:induction false} Begin(t: Tree, depth: nat, dev: Device, fr: seq<Extent>, ns: nat, g: nat, w: Window)
    requires t.Node? && Stored(dev, t) && Clean(fr, t, ns)
    ensures Midway(t, 0, [], false, Ptrs(t.kids), depth, dev, fr, dev, fr, ns, g, w)
  {
    TallyStart(fr, t, ns);
    assert Ptrs([]) == [];
    assert Ptrs(t.kids)[..0] == [] && Ptrs(t.kids)[0..] == Ptrs(t.kids);
  }

  lemma {:induction false} Skip(t: Tree, i: nat, kids: seq<Kid>, changed: bool, ps: seq<Ptr>, depth: nat, dev: Device,
                                fr: seq<Extent>,
             dev0: Device, fr0: seq<Extent>, ns: nat, g: nat, w: Window)
    requires Midway(t, i, kids, changed, ps, depth, dev, fr, dev0, fr0, ns, g, w) && i < |t.kids|
    requires t.kids[i].sub.addr == 0
    ensures Midway(t, i + 1, kids + [t.kids[i]], changed, ps, depth, dev, fr, dev0, fr0, ns, g, w)
  {
    var x := t.kids[i];
    TallyStep(fr, fr, kids, t.kids, i, x, ns);
    PtrsMore(kids, x, ps, t.kids, i, ps[i]);
    assert ps[i := ps[i]] == ps;
  }

  lemma {:induction false} PtrsMore(kids: seq<Kid>, y: Kid, ps: seq<Ptr>, ks: seq<Kid>, i: nat, p: Ptr)
    requires i == |kids| < |ks| && |ps| == |ks| && ps[..i] == Ptrs(kids) && ps[i..] == Ptrs(ks)[i..]
    requires p == Ptr(y.sep, y.sub.addr, y.gen) || (y == ks[i] && p == ps[i])
    ensures ps[i := p][..i+1] == Ptrs(kids + [y]) && ps[i := p][i+1..] == Ptrs(ks)[i+1..]
  {
    assert ps[i..][0] == Ptrs(ks)[i];
    var qs := ps[i := p];
    forall j | 0 <= j < i + 1 ensures qs[..i+1][j] == Ptrs(kids + [y])[j] {
      if j < i {
        assert qs[j] == ps[..i][j];
      }
    }
    assert ps[i..][1..] == ps[i+1..] && Ptrs(ks)[i..][1..] == Ptrs(ks)[i+1..];
    assert qs[i+1..] == ps[i+1..];
  }

  /** The pointer that the loop leaves at a child. */
  function NewPtr(p: Ptr, a: nat, changed: bool, g: nat): Ptr {
    if changed then Ptr(p.k, a, g) else p
  }

  lemma {:induction false} Advance(t: Tree, i: nat, kids: seq<Kid>, changed: bool, ps: seq<Ptr>, depth: nat,
                                   dev: Device, fr: seq<Extent>,
                dev0: Device, fr0: seq<Extent>, ns: nat, g: nat, w: Window, r: Result<(nat, bool)>, dev': Device,
                    fr': seq<Extent>)
    returns (y: Kid)
    requires Midway(t, i, kids, changed, ps, depth, dev, fr, dev0, fr0, ns, g, w) && i < |t.kids| && ns > 0
    requires t.kids[i].sub.addr != 0 && r.Ok?
    requires Relocates(r, Relocate(t.kids[i].sub, depth + 1, fr, ns, g, w), dev', fr', dev, fr, ns)
    ensures Midway(t, i + 1, kids + [y], changed
                   || r.value.1, ps[i := NewPtr(ps[i], r.value.0, r.value.1, g)], depth, dev', fr',
                   dev0, fr0, ns, g, w)
  {
    var x := t.kids[i];
    var m := Relocate(x.sub, depth + 1, fr, ns, g, w);
    y := Repointed(x, m.t, m.changed, g);
    RelocateEvacuates(x.sub, depth + 1, fr, ns, g, w);
    forall b: nat ensures FreeCnt(fr', b) + Cnt(y.sub, ns, b) <= FreeCnt(fr, b) + Cnt(x.sub, ns, b) {
      RelocateCnt(x.sub, depth + 1, fr, ns, g, w, b);
    }
    StillAllStored(dev, dev', fr, kids, t.kids[i..], ns);
    StillStored(dev, dev', fr, t, ns);
    TallyStep(fr, fr', kids, t.kids, i, y, ns);
    UntouchedThen(dev0, dev, dev', fr0, fr, ns);
    FewerThen(fr', fr, fr0, t, ns);
    assert ps[i..][0] == Ptrs(t.kids)[i];
    PtrsMore(kids, y, ps, t.kids, i, NewPtr(ps[i], r.value.0, r.value.1, g));
  }

  lemma {:induction false} ChildAt(t: Tree, i: nat, kids: seq<Kid>, changed: bool, ps: seq<Ptr>, depth: nat,
                                   dev: Device, fr: seq<Extent>,
                dev0: Device, fr0: seq<Extent>, ns: nat, g: nat, w: Window)
    requires Midway(t, i, kids, changed, ps, depth, dev, fr, dev0, fr0, ns, g, w) && i < |ps|
    ensures t.Node? && i < |t.kids| && ps[i].child == t.kids[i].sub.addr
    ensures Stored(dev, t.kids[i].sub) && Clean(fr, t.kids[i].sub, ns)
  {
    assert ps[i..][0] == Ptrs(t.kids)[i];
    KidClean(fr, t, i, ns);
  }

  /** An error from a child ends the walk. */
  lemma {:induction false} Abandon(t: Tree, i: nat, kids: seq<Kid>, changed: bool, ps: seq<Ptr>, depth: nat,
                                   dev: Device, fr: seq<Extent>,
                dev0: Device, fr0: seq<Extent>, ns: nat, g: nat, w: Window, r: Result<(nat, bool)>, dev': Device,
                    fr': seq<Extent>)
    requires Midway(t, i, kids, changed, ps, depth, dev, fr, dev0, fr0, ns, g, w) && i < |t.kids| && depth <= MAX_DEPTH
    requires t.kids[i].sub.addr != 0 && r.Err?
    requires Relocates(r, Relocate(t.kids[i].sub, depth + 1, fr, ns, g, w), dev', fr', dev, fr, ns)
    ensures Relocates(r, Relocate(t, depth, fr0, ns, g, w), dev', fr', dev0, fr0, ns)
  {
    UntouchedThen(dev0, dev, dev', fr0, fr, ns);
    FewerThen(fr', fr, fr0, t, ns);
  }

  /** What the finished loop hands to the rest of the call. */
  lemma {:induction false} Finished(t: Tree, kids: seq<Kid>, changed: bool, ps: seq<Ptr>, depth: nat, dev: Device,
                                    fr: seq<Extent>,
                 dev0: Device, fr0: seq<Extent>, ns: nat, g: nat, w: Window)
    requires Midway(t, |ps|, kids, changed, ps, depth, dev, fr, dev0, fr0, ns, g, w) && depth <= MAX_DEPTH
    ensures t.Node? && ps == Ptrs(kids) && AllStored(dev, kids) && Tally(fr, kids, [], ns) && Fewer(fr, fr0)
            && Untouched(dev0, dev, fr0, ns)
    ensures Relocate(t, depth, fr0, ns, g, w) == Settle(Node(t.addr, t.gen, t.level, kids), changed, fr, ns, g, w)
    ensures !changed ==> Stored(dev, Node(t.addr, t.gen, t.level, kids))
  {
    assert ps[..|ps|] == ps && t.kids[|ps|..] == [];
    KidsEvacuate(t, 0, [], false, depth, fr0, ns, g, w);
    if !changed {
      assert kids == t.kids;
    }
  }

  lemma {:induction false} Compose(r: Result<(nat, bool)>, x: Moved, dev: Device, fr: seq<Extent>, dev1: Device,
                                   fr1: seq<Extent>,
                dev0: Device, fr0: seq<Extent>, ns: nat)
    requires Relocates(r, x, dev, fr, dev1, fr1, ns) && Untouched(dev0, dev1, fr0, ns) && Fewer(fr1, fr0)
    ensures Relocates(r, x, dev, fr, dev0, fr0, ns)
  {
    UntouchedThen(dev0, dev1, dev, fr0, fr1, ns);
    forall b: nat ensures FreeCnt(fr, b) <= FreeCnt(fr0, b) {
      assert FreeCnt(fr, b) <= FreeCnt(fr1, b) <= FreeCnt(fr0, b);
    }
  }

  /** The end of the call: a node that neither changed nor lies in the window stays where it is. */
  method SettleNode(v: Volume, logAddr: nat, node: Block, changed: bool, w: Window, ghost t: Tree, ghost dev0: Device,
                    ghost fr0: seq<Extent>)
    returns (r: Result<(nat, bool)>)
    requires v.Valid() && node == BlockOf(t) && logAddr == t.addr && (!changed ==> Stored(v.dev, t))
    requires t.Node? ==> AllStored(v.dev, t.kids) && Tally(v.sm.freeExts, t.kids, [], v.ns)
    requires Untouched(dev0, v.dev, fr0, v.ns) && Fewer(v.sm.freeExts, fr0)
    modifies v`dev, v.sm`freeExts
    ensures Relocates(r, Settle(t, changed, old(v.sm.freeExts), v.ns, v.generation + 1, w), v.dev, v.sm.freeExts, dev0,
                      fr0, v.ns)
  {
    if !changed && !Overlaps(logAddr, v.ns, w) {
      return Ok((logAddr, false));
    }
    r := RelocateNodeBuffer(v, node, w, t);
    Compose(r, MoveNode(t, old(v.sm.freeExts), v.ns, v.generation + 1, w), v.dev, v.sm.freeExts,
            old(v.dev), old(v.sm.freeExts), dev0, fr0, v.ns);
  }

  /** relocateSubtreePath: what it returns and leaves on the device is what Relocate computes. */
  method RelocateSubtreePath(v: Volume, logAddr: nat, w: Window, depth: nat, ghost t: Tree)
    returns (r: Result<(nat, bool)>)
    requires v.Valid() && Stored(v.dev, t) && logAddr == t.addr && Clean(v.sm.freeExts, t, v.ns)
    modifies v`dev, v.sm`freeExts
    ensures Relocates(r, Relocate(t, depth, old(v.sm.freeExts), v.ns, v.generation + 1, w), v.dev, v.sm.freeExts,
                      old(v.dev), old(v.sm.freeExts), v.ns)
    ensures var m := Relocate(t, depth, old(v.sm.freeExts), v.ns, v.generation + 1, w);
            r.Ok? && Cnt(t, v.ns, 0) == 0 ==>
              && m.RDone? && !InWindow(m.t, v.ns, w)
              && (w.start < w.end ==> (r.value.1 <==> InWindow(t, v.ns, w)))
    decreases t, 1
  {
    hide Clean, Untouched, Fewer, RelocateKids, Tally, AllStored, InWindow;
    ghost var dev0, fr0, g := v.dev, v.sm.freeExts, v.generation + 1;
    if Cnt(t, v.ns, 0) == 0 && Relocate(t, depth, fr0, v.ns, g, w).RDone? {
      RelocateBytes(t, depth, fr0, v.ns, g, w);
    }
    UntouchedSelf(dev0, fr0, v.ns);
    if depth > MAX_DEPTH {
      return Err(TooDeep);
    }
    if logAddr !in v.dev {
      return Err(Corrupt);
    }
    var node := v.dev[logAddr];
    if node.LeafBlock? {
      r := SettleNode(v, logAddr, node, false, w, t, dev0, fr0);
      return;
    }
    var ps, i, changed := node.ptrs, 0, false;
    ghost var kids: seq<Kid> := [];
    Begin(t, depth, v.dev, fr0, v.ns, g, w);
    while i < |ps|
      invariant i <= |ps| && Midway(t, i, kids, changed, ps, depth, v.dev, v.sm.freeExts, dev0, fr0, v.ns, g, w)
    {
      var c, y := RelocateChild(v, ps, i, w, depth, t, kids, changed, dev0, fr0);
      if c.Err? {
        return c;
      }
      ps := ps[i := NewPtr(ps[i], c.value.0, c.value.1, v.generation + 1)];
      changed := changed || c.value.1;
      kids := kids + [y];
      i := i + 1;
    }
    Finished(t, kids, changed, ps, depth, v.dev, v.sm.freeExts, dev0, fr0, v.ns, g, w);
    r := SettleNode(v, logAddr, InnerBlock(node.bytenr, node.gen, node.level, ps), changed, w,
                    Node(t.addr, t.gen, t.level, kids), dev0, fr0);
  }

  /** The body of the loop over the children. */
  method RelocateChild(v: Volume, ps: seq<Ptr>, i: nat, w: Window, depth: nat, ghost t: Tree, ghost kids: seq<Kid>,
                       ghost changed: bool,
                       ghost dev0: Device, ghost fr0: seq<Extent>)
    returns (c: Result<(nat, bool)>, ghost y: Kid)
    requires v.Valid() && i < |ps| && depth <= MAX_DEPTH
    requires Midway(t, i, kids, changed, ps, depth, v.dev, v.sm.freeExts, dev0, fr0, v.ns, v.generation + 1, w)
    modifies v`dev, v.sm`freeExts
    ensures c.Ok? ==>
            Midway(t, i + 1, kids + [y], changed
                   || c.value.1, ps[i := NewPtr(ps[i], c.value.0, c.value.1, v.generation + 1)],
                             depth, v.dev, v.sm.freeExts, dev0, fr0, v.ns, v.generation + 1, w)
    ensures c.Err? ==>
            Relocates(c, Relocate(t, depth, fr0, v.ns, v.generation + 1, w), v.dev, v.sm.freeExts, dev0, fr0, v.ns)
    decreases t, 0
  {
    var childLog := ps[i].child;
    ghost var dev1, fr1, g := v.dev, v.sm.freeExts, v.generation + 1;
    ChildAt(t, i, kids, changed, ps, depth, dev1, fr1, dev0, fr0, v.ns, g, w);
    if childLog == 0 {
      Skip(t, i, kids, changed, ps, depth, dev1, fr1, dev0, fr0, v.ns, g, w);
      assert ps[i := ps[i]] == ps;
      return Ok((0, false)), t.kids[i];
    }
    c := RelocateSubtreePath(v, childLog, w, depth + 1, t.kids[i].sub);
    if c.Err? {
      y := t.kids[i];
      Abandon(t, i, kids, changed, ps, depth, dev1, fr1, dev0, fr0, v.ns, g, w, c, v.dev, v.sm.freeExts);
    } else {
      y := Advance(t, i, kids, changed, ps, depth, dev1, fr1, dev0, fr0, v.ns, g, w, c, v.dev, v.sm.freeExts);
    }
  }
}
