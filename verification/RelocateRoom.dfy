/** When relocation succeeds: there is one free block below the window for every moving node. */
module RelocateRoom {
  import opened Keys
  import opened FreeSpace
  import opened Trees
  import opened CowSpec
  import opened RelocateSpec
  import opened RelocateCount

  /** The part of an extent below lim. */
  function Below(e: Extent, lim: nat): nat {
    if e.start >= lim then 0 else if e.End() <= lim then e.size else lim - e.start
  }

  /** How many node blocks the free list offers below lim. */
  function LowBlocks(s: seq<Extent>, ns: nat, lim: nat): nat
    requires ns > 0
  {
    if s == [] then 0 else BlocksOf(Below(s[0], lim), ns) + LowBlocks(s[1..], ns, lim)
  }

  lemma {:induction false} LowBlocksConcat(a: seq<Extent>, b: seq<Extent>, ns: nat, lim: nat)
    requires ns > 0
    ensures LowBlocks(a + b, ns, lim) == LowBlocks(a, ns, lim) + LowBlocks(b, ns, lim)
  {
    if a == [] {
      assert a + b == b;
    } else {
      LowBlocksConcat(a[1..], b, ns, lim);
      assert (a + b)[1..] == a[1..] + b;
    }
  }

  lemma {:induction false} LowBlocksAt(s: seq<Extent>, j: nat, ns: nat, lim: nat)
    requires ns > 0 && j < |s|
    ensures LowBlocks(s, ns, lim) ==
            LowBlocks(s[..j], ns, lim) + BlocksOf(Below(s[j], lim), ns) + LowBlocks(s[j+1..], ns, lim)
  {
    var l, m, r := s[..j], [s[j]], s[j+1..];
    SplitAt(s, j);
    LowBlocksConcat(l + m, r, ns, lim);
    LowBlocksConcat(l, m, ns, lim);
    assert m[1..] == [];
  }

  lemma {:induction false} NoLowBlocks(s: seq<Extent>, ns: nat, lim: nat)
    requires ns > 0 && forall i :: 0 <= i < |s| ==> Below(s[i], lim) < ns
    ensures LowBlocks(s, ns, lim) == 0
  {
    if s != [] {
      NoLowBlocks(s[1..], ns, lim);
    }
  }

  lemma {:induction false} TakeLow(s: seq<Extent>, j: nat, ns: nat, lim: nat)
    requires ns > 0 && j < |s| && s[j].size >= ns && s[j].start + ns <= lim
    ensures LowBlocks(TakeFront(s, j, ns), ns, lim) == LowBlocks(s, ns, lim) - 1
  {
    LowBlocksAt(s, j, ns, lim);
    var r := TakeFront(s, j, ns);
    if s[j].size == ns {
      LowBlocksConcat(s[..j], s[j+1..], ns, lim);
    } else {
      LowBlocksAt(r, j, ns, lim);
      assert r[..j] == s[..j] && r[j+1..] == s[j+1..];
    }
  }

  /** On a list in normal form first fit takes the lowest block, so it stays below lim exactly
      when some block below lim is free. */
  lemma {:induction false} MoveNodeIff(t: Tree, fr: seq<Extent>, ns: nat, g: nat, w: Window)
    requires ns > 0 && Canonical(fr)
    ensures var r := MoveNode(t, fr, ns, g, w);
            && (r.RDone? <==> LowBlocks(fr, ns, w.start) > 0)
            && (r.RDone? ==> Canonical(r.fr) && LowBlocks(r.fr, ns, w.start) == LowBlocks(fr, ns, w.start) - 1)
  {
    var j := FirstFitAt(fr, ns, 0);
    if FirstFit(fr, ns).NoSpace? || FirstFit(fr, ns).addr + ns > w.start {
      forall i | 0 <= i < |fr| ensures Below(fr[i], w.start) < ns {
        if FirstFit(fr, ns).Granted? && i > j {
          assert fr[j].End() < fr[i].start;
        }
      }
      NoLowBlocks(fr, ns, w.start);
    } else {
      TakeLow(fr, j, ns, w.start);
      FirstFitCanonical(fr, ns);
    }
  }

  /** How many nodes move. */
  ghost function MovedNodes(t: Tree, ns: nat, w: Window): nat
    decreases t
  {
    if !Moves(t, ns, w) then 0 else 1 + if t.Leaf? then 0 else KidsMovedNodes(t.kids, ns, w)
  }

  ghost function KidsMovedNodes(ks: seq<Kid>, ns: nat, w: Window): nat
    decreases ks
  {
    if ks == [] then 0
    else
      assert ks[0].sub < ks[0];
      (if ks[0].sub.addr == 0 then 0 else MovedNodes(ks[0].sub, ns, w)) + KidsMovedNodes(ks[1..], ns, w)
  }

  lemma {:induction false} StillNodes(ks: seq<Kid>, ns: nat, w: Window)
    requires forall i :: 0 <= i < |ks| && ks[i].sub.addr != 0 ==> !Moves(ks[i].sub, ns, w)
    ensures KidsMovedNodes(ks, ns, w) == 0
  {
    if ks != [] {
      StillNodes(ks[1..], ns, w);
    }
  }

  ghost predicate Supplied(ok: bool, need: nat, fr: seq<Extent>, fr': seq<Extent>, ns: nat, w: Window)
    requires ns > 0
  {
    && (ok <==> need <= LowBlocks(fr, ns, w.start))
    && (ok ==> Canonical(fr') && LowBlocks(fr', ns, w.start) == LowBlocks(fr, ns, w.start) - need)
  }

  /** Relocation of a levelled tree succeeds exactly when the free list offers as many blocks
      below the window as there are nodes to move, and it uses exactly that many. */
  lemma {:induction false} RelocateIff(t: Tree, depth: nat, fr: seq<Extent>, ns: nat, g: nat, w: Window)
    requires ns > 0 && Canonical(fr) && Shape(t, LevelOf(t)) && depth + LevelOf(t) <= MAX_DEPTH
    ensures var r := Relocate(t, depth, fr, ns, g, w);
            Supplied(r.RDone?, MovedNodes(t, ns, w), fr, if r.RDone? then r.fr else fr, ns, w)
    decreases t, 1, 0
  {
    if t.Leaf? {
      MoveNodeIff(t, fr, ns, g, w);
    } else {
      RelocateKidsIff(t, 0, [], false, depth, fr, ns, g, w);
      KidsEvacuate(t, 0, [], false, depth, fr, ns, g, w);
      assert t.kids[0..] == t.kids;
      var k := RelocateKids(t, 0, [], false, depth, fr, ns, g, w);
      if k.KDone? {
        MoveNodeIff(Node(t.addr, t.gen, t.level, k.kids), k.fr, ns, g, w);
      }
      if !Moves(t, ns, w) {
        StillNodes(t.kids, ns, w);
      }
    }
  }

  lemma {:induction false} RelocateKidsIff(t: Tree, i: nat, kids: seq<Kid>, changed: bool, depth: nat, fr: seq<Extent>,
                                           ns: nat, g: nat,
                                           w: Window)
    requires ns > 0 && Canonical(fr) && t.Node? && Shape(t, LevelOf(t)) && depth + LevelOf(t) <= MAX_DEPTH
             && i <= |t.kids|
    ensures var r := RelocateKids(t, i, kids, changed, depth, fr, ns, g, w);
            Supplied(r.KDone?, KidsMovedNodes(t.kids[i..], ns, w), fr, if r.KDone? then r.fr else fr, ns, w)
    decreases t, 0, |t.kids| - i
  {
    if i < |t.kids| {
      var x := t.kids[i];
      assert t.kids[i..][1..] == t.kids[i+1..];
      if x.sub.addr == 0 {
        RelocateKidsIff(t, i + 1, kids + [x], changed, depth, fr, ns, g, w);
      } else {
        var m := Relocate(x.sub, depth + 1, fr, ns, g, w);
        ShapeLevel(x.sub, t.level - 1);
        RelocateIff(x.sub, depth + 1, fr, ns, g, w);
        if m.RDone? {
          RelocateKidsIff(t, i + 1, kids + [Repointed(x, m.t, m.changed, g)], changed
                          || m.changed, depth, m.fr, ns, g, w);
        }
      }
    }
  }

  /** Evacuating a whole tree: it succeeds exactly when there is room, and then the tree denotes the
      same items, is still a search tree with matching generations, shares no byte with free
      space, and, without zero pointers, covers no byte of the window. */
  lemma {:induction false} RelocateTree(t: Tree, fr: seq<Extent>, ns: nat, g: nat, w: Window)
    requires ns > 0 && Canonical(fr) && WellFormed(t, ns) && GenOK(t) && LevelOf(t) <= MAX_DEPTH
    requires forall b: nat :: FreeCnt(fr, b) + Cnt(t, ns, b) <= 1
    ensures var r := Relocate(t, 0, fr, ns, g, w);
            && (r.RDone? <==> MovedNodes(t, ns, w) <= LowBlocks(fr, ns, w.start))
            && (r.RDone? ==> WellFormed(r.t, ns) && GenOK(r.t) && Contents(r.t) == Contents(t) && Clear(t, r.t, ns, w))
            && (r.RDone? && Cnt(t, ns, 0) == 0 ==> forall b: nat :: w.start <= b < w.end ==> Cnt(r.t, ns, b) == 0)
            && (r.RDone? ==> forall b: nat :: FreeCnt(r.fr, b) + Cnt(r.t, ns, b) <= 1)
  {
    var r := Relocate(t, 0, fr, ns, g, w);
    RelocateIff(t, 0, fr, ns, g, w);
    RelocateEvacuates(t, 0, fr, ns, g, w);
    if r.RDone? {
      TwinWellFormed(t, r.t, ns);
      if Cnt(t, ns, 0) == 0 {
        RelocateBytes(t, 0, fr, ns, g, w);
      }
      forall b: nat ensures FreeCnt(r.fr, b) + Cnt(r.t, ns, b) <= 1 {
        RelocateCnt(t, 0, fr, ns, g, w, b);
      }
    }
  }
}
