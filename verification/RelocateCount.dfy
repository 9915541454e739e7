/** What relocation does to the space: which bytes change hands. */
module RelocateCount {
  import opened Keys
  import opened FreeSpace
  import opened Trees
  import opened RelocateSpec

  /** How often a moving node of t covers byte b. */
  ghost function MovedCnt(t: Tree, ns: nat, w: Window, b: nat): nat
    decreases t
  {
    if !Moves(t, ns, w) then 0 else Hit(t.addr, ns, b) + if t.Leaf? then 0 else KidsMoved(t.kids, ns, w, b)
  }

  ghost function KidsMoved(ks: seq<Kid>, ns: nat, w: Window, b: nat): nat
    decreases ks
  {
    if ks == [] then 0
    else
      assert ks[0].sub < ks[0];
      (if ks[0].sub.addr == 0 then 0 else MovedCnt(ks[0].sub, ns, w, b)) + KidsMoved(ks[1..], ns, w, b)
  }

  lemma {:induction false} StillKids(ks: seq<Kid>, ns: nat, w: Window, b: nat)
    requires forall i :: 0 <= i < |ks| && ks[i].sub.addr != 0 ==> !Moves(ks[i].sub, ns, w)
    ensures KidsMoved(ks, ns, w, b) == 0
  {
    if ks != [] {
      StillKids(ks[1..], ns, w, b);
    }
  }

  /** Per byte: what is free or in the tree afterwards, plus the moved nodes' old blocks, is what
      was free or in the tree before. */
  lemma {:induction false} RelocateCnt(t: Tree, depth: nat, fr: seq<Extent>, ns: nat, g: nat, w: Window, b: nat)
    ensures var r := Relocate(t, depth, fr, ns, g, w);
            r.RDone? ==> FreeCnt(r.fr, b) + Cnt(r.t, ns, b) + MovedCnt(t, ns, w, b) == FreeCnt(fr, b) + Cnt(t, ns, b)
    decreases t, 1, 0
  {
    if t.Leaf? {
      MoveNodeCnt(t, fr, ns, g, w, b);
    } else if depth <= MAX_DEPTH {
      var k := RelocateKids(t, 0, [], false, depth, fr, ns, g, w);
      RelocateKidsCnt(t, 0, [], false, depth, fr, ns, g, w, b);
      KidsEvacuate(t, 0, [], false, depth, fr, ns, g, w);
      assert t.kids[0..] == t.kids;
      if k.KDone? {
        MoveNodeCnt(Node(t.addr, t.gen, t.level, k.kids), k.fr, ns, g, w, b);
        if !Moves(t, ns, w) {
          StillKids(t.kids, ns, w, b);
        }
      }
    }
  }

  lemma {:induction false} MoveNodeCnt(t: Tree, fr: seq<Extent>, ns: nat, g: nat, w: Window, b: nat)
    ensures var r := MoveNode(t, fr, ns, g, w);
            r.RDone? ==> FreeCnt(r.fr, b) + Cnt(r.t, ns, b) + Hit(t.addr, ns, b) == FreeCnt(fr, b) + Cnt(t, ns, b)
  {
    if FirstFit(fr, ns).Granted? {
      FirstFitCnt(fr, ns, b);
    }
  }

  lemma {:induction false} RelocateKidsCnt(t: Tree, i: nat, kids: seq<Kid>, changed: bool, depth: nat, fr: seq<Extent>,
                                           ns: nat, g: nat,
                                           w: Window, b: nat)
    requires t.Node? && i <= |t.kids|
    ensures var r := RelocateKids(t, i, kids, changed, depth, fr, ns, g, w);
            r.KDone? ==> FreeCnt(r.fr, b) + KidsCnt(r.kids, ns, b) + KidsMoved(t.kids[i..], ns, w, b)
                         == FreeCnt(fr, b) + KidsCnt(kids, ns, b) + KidsCnt(t.kids[i..], ns, b)
    decreases t, 0, |t.kids| - i
  {
    if i < |t.kids| {
      var x := t.kids[i];
      assert t.kids[i..][1..] == t.kids[i+1..];
      if x.sub.addr == 0 {
        RelocateKidsCnt(t, i + 1, kids + [x], changed, depth, fr, ns, g, w, b);
        AddedKid(kids, x, ns, b);
      } else {
        var m := Relocate(x.sub, depth + 1, fr, ns, g, w);
        RelocateCnt(x.sub, depth + 1, fr, ns, g, w, b);
        RelocateEvacuates(x.sub, depth + 1, fr, ns, g, w);
        if m.RDone? {
          var y := Repointed(x, m.t, m.changed, g);
          RelocateKidsCnt(t, i + 1, kids + [y], changed || m.changed, depth, m.fr, ns, g, w, b);
          AddedKid(kids, y, ns, b);
        }
      }
    }
  }

  lemma {:induction false} AddedKid(kids: seq<Kid>, x: Kid, ns: nat, b: nat)
    ensures KidsCnt(kids + [x], ns, b) == KidsCnt(kids, ns, b) + Cnt(x.sub, ns, b)
  {
    KidsCntConcat(kids, [x], ns, b);
    KidsCntOne(x, ns, b);
  }

  // ---- old blocks outside the window ---------------------------------------------------------------

  /** Every moving node lies inside the window. */
  ghost predicate Confined(t: Tree, ns: nat, w: Window) {
    Moves(t, ns, w) ==>
      && w.start <= t.addr && t.addr + ns <= w.end
      && (t.Node? ==> forall i :: 0 <= i < |t.kids| && t.kids[i].sub.addr != 0 ==> Confined(t.kids[i].sub, ns, w))
  }

  lemma {:induction false} MovedKidsAt(ks: seq<Kid>, i: nat, ns: nat, w: Window, b: nat)
    requires i < |ks| && ks[i].sub.addr != 0
    ensures MovedCnt(ks[i].sub, ns, w, b) <= KidsMoved(ks, ns, w, b)
  {
    if i > 0 {
      MovedKidsAt(ks[1..], i - 1, ns, w, b);
    }
  }

  lemma {:induction false} ConfinedCnt(t: Tree, ns: nat, w: Window, b: nat)
    requires Confined(t, ns, w) && !(w.start <= b < w.end)
    ensures MovedCnt(t, ns, w, b) == 0
    decreases t, 1
  {
    if t.Node? && Moves(t, ns, w) {
      ConfinedKids(t, 0, ns, w, b);
      assert t.kids[0..] == t.kids;
    }
  }

  lemma {:induction false} ConfinedKids(t: Tree, i: nat, ns: nat, w: Window, b: nat)
    requires t.Node? && i <= |t.kids| && Confined(t, ns, w) && Moves(t, ns, w) && !(w.start <= b < w.end)
    ensures KidsMoved(t.kids[i..], ns, w, b) == 0
    decreases t, 0, |t.kids| - i
  {
    if i < |t.kids| {
      if t.kids[i].sub.addr != 0 {
        ConfinedCnt(t.kids[i].sub, ns, w, b);
      }
      ConfinedKids(t, i + 1, ns, w, b);
      assert t.kids[i..][1..] == t.kids[i+1..];
    }
  }

  /** A moving node with a byte outside the window is a byte that MovedCnt counts there. */
  lemma {:induction false} NotConfined(t: Tree, ns: nat, w: Window) returns (b: nat)
    requires ns > 0 && !Confined(t, ns, w)
    ensures !(w.start <= b < w.end) && MovedCnt(t, ns, w, b) > 0
    decreases t
  {
    if t.addr < w.start {
      b := t.addr;
    } else if t.addr + ns > w.end {
      b := t.addr + ns - 1;
    } else {
      var i :| 0 <= i < |t.kids| && t.kids[i].sub.addr != 0 && !Confined(t.kids[i].sub, ns, w);
      b := NotConfined(t.kids[i].sub, ns, w);
      MovedKidsAt(t.kids, i, ns, w, b);
    }
  }

  /** The old blocks of moved nodes are not returned to the allocator. So outside the window every
      byte stays accounted for exactly when no moving node has a byte there. */
  lemma {:induction false} RelocateLeaksIff(t: Tree, depth: nat, fr: seq<Extent>, ns: nat, g: nat, w: Window)
    requires ns > 0 && Relocate(t, depth, fr, ns, g, w).RDone?
    ensures var r := Relocate(t, depth, fr, ns, g, w);
            Confined(t, ns, w) <==>
            forall b: nat :: !(w.start <= b < w.end) ==>
                FreeCnt(r.fr, b) + Cnt(r.t, ns, b) == FreeCnt(fr, b) + Cnt(t, ns, b)
  {
    var r := Relocate(t, depth, fr, ns, g, w);
    if Confined(t, ns, w) {
      forall b: nat | !(w.start <= b < w.end)
        ensures FreeCnt(r.fr, b) + Cnt(r.t, ns, b) == FreeCnt(fr, b) + Cnt(t, ns, b)
      {
        RelocateCnt(t, depth, fr, ns, g, w, b);
        ConfinedCnt(t, ns, w, b);
      }
    } else {
      var b := NotConfined(t, ns, w);
      RelocateCnt(t, depth, fr, ns, g, w, b);
    }
  }

  /** A root below the window over one leaf inside it: byte 1000 of the root's old block ends up
      neither free nor in the tree. */
  lemma {:induction false} LeakExample(l: Tree, t: Tree, fr: seq<Extent>, w: Window)
    requires l.Leaf? && l.addr == 9000 && t.Node? && t.addr == 1000 && t.kids == [Kid(Key(5, 1, 0), 1, l)]
    requires fr == [Extent(2000, 5000)] && w == Window(8000, 10000)
    ensures var r := Relocate(t, 0, fr, 500, 2, w);
            r.RDone? && FreeCnt(r.fr, 1000) + Cnt(r.t, 500, 1000) == 0 && FreeCnt(fr, 1000) + Cnt(t, 500, 1000) == 1
  {
    var kid := t.kids[0];
    var fr1 := TakeFront(fr, 0, 500);
    assert fr1 == [Extent(2500, 4500)];
    var m := Relocate(l, 1, fr, 500, 2, w);
    assert m == RDone(Leaf(2000, 2, l.items), true, fr1);
    var y := Kid(Key(5, 1, 0), 2, m.t);
    assert RelocateKids(t, 1, [] + [y], true, 0, fr1, 500, 2, w) == KDone([] + [y], true, fr1);
    assert RelocateKids(t, 0, [], false, 0, fr, 500, 2, w) == KDone([] + [y], true, fr1);
    var n := Node(t.addr, t.gen, t.level, [] + [y]);
    assert MoveNode(n, fr1, 500, 2, w).RDone?;
    RelocateCnt(t, 0, fr, 500, 2, w, 1000);
    assert Moves(kid.sub, 500, w);
    assert fr[1..] == [];
    AddedKid([], kid, 500, 1000);
    assert [] + [kid] == t.kids;
  }
}
