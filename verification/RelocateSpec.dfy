/** relocateSubtreePath (resize_reloc.go) as a function on trees: moving every node out of the
    address window [start, end) that a shrink removes. */
module RelocateSpec {
  import opened Keys
  import opened FreeSpace
  import opened Trees
  import opened CowSpec

  datatype Window = Window(start: nat, end: nat)

  datatype Moved = RFail(error: Error) | RDone(t: Tree, changed: bool, fr: seq<Extent>)
  datatype MovedKids = KFail(error: Error) | KDone(kids: seq<Kid>, changed: bool, fr: seq<Extent>)

  predicate Overlaps(a: nat, ns: nat, w: Window) {
    a < w.end && a + ns > w.start
  }

  /** relocateNodeBuffer: a fresh block wholly below the window, or an error. */
  function MoveNode(t: Tree, fr: seq<Extent>, ns: nat, g: nat, w: Window): Moved {
    match FirstFit(fr, ns)
    case NoSpace => RFail(NoBlock)
    case Granted(a, fr') =>
      if a + ns > w.start then RFail(NoRoom)
      else RDone(if t.Leaf? then Leaf(a, g, t.items) else Node(a, g, t.level, t.kids), true, fr')
  }

  ghost function Relocate(t: Tree, depth: nat, fr: seq<Extent>, ns: nat, g: nat, w: Window): Moved
    decreases t, 1, 0
  {
    if depth > MAX_DEPTH then RFail(TooDeep)
    else if t.Leaf? then Settle(t, false, fr, ns, g, w)
    else
      match RelocateKids(t, 0, [], false, depth, fr, ns, g, w)
      case KFail(e) => RFail(e)
      case KDone(kids, changed, fr') => Settle(Node(t.addr, t.gen, t.level, kids), changed, fr', ns, g, w)
  }

  /** A node is rewritten when it lies in the window or one of its children moved. */
  function Settle(t: Tree, changed: bool, fr: seq<Extent>, ns: nat, g: nat, w: Window): Moved {
    if !changed && !Overlaps(t.addr, ns, w) then RDone(t, false, fr) else MoveNode(t, fr, ns, g, w)
  }

  /** The loop over the children from index i on; kids are the ones already done. A zero child
      pointer is passed over. */
  ghost function RelocateKids(t: Tree, i: nat, kids: seq<Kid>, changed: bool, depth: nat, fr: seq<Extent>, ns: nat,
                              g: nat,
                              w: Window): MovedKids
    requires t.Node? && i <= |t.kids|
    decreases t, 0, |t.kids| - i
  {
    if i == |t.kids| then KDone(kids, changed, fr)
    else if t.kids[i].sub.addr == 0 then RelocateKids(t, i + 1, kids + [t.kids[i]], changed, depth, fr, ns, g, w)
    else
      match Relocate(t.kids[i].sub, depth + 1, fr, ns, g, w)
      case RFail(e) => KFail(e)
      case RDone(s, c, fr') => RelocateKids(t, i + 1, kids + [Repointed(t.kids[i], s, c, g)], changed
                                            || c, depth, fr', ns, g, w)
  }

  function Repointed(x: Kid, s: Tree, changed: bool, g: nat): Kid {
    if changed then Kid(x.sep, g, s) else x
  }

  // ---- the same tree at other addresses ------------------------------------------------------

  /** s' is s with other addresses and generations. */
  ghost predicate Twin(s: Tree, s': Tree) {
    match s
    case Leaf(_, _, items) => s'.Leaf? && s'.items == items
    case Node(_, _, lvl, kids) =>
      && s'.Node? && s'.level == lvl && |s'.kids| == |kids|
      && forall i :: 0 <= i < |kids| ==> s'.kids[i].sep == kids[i].sep && Twin(kids[i].sub, s'.kids[i].sub)
  }

  lemma {:induction false} TwinSelf(t: Tree)
    ensures Twin(t, t)
    decreases t
  {
    if t.Node? {
      forall i | 0 <= i < |t.kids| ensures Twin(t.kids[i].sub, t.kids[i].sub) {
        TwinSelf(t.kids[i].sub);
      }
    }
  }

  lemma {:induction false} TwinContents(s: Tree, s': Tree)
    requires Twin(s, s')
    ensures Contents(s') == Contents(s)
    decreases s, 1
  {
    if s.Node? {
      TwinKidsContents(s, s', 0);
      assert s.kids[0..] == s.kids && s'.kids[0..] == s'.kids;
    }
  }

  lemma {:induction false} TwinKidsContents(s: Tree, s': Tree, i: nat)
    requires s.Node? && Twin(s, s') && i <= |s.kids|
    ensures KidsContents(s'.kids[i..]) == KidsContents(s.kids[i..])
    decreases s, 0, |s.kids| - i
  {
    if i < |s.kids| {
      TwinContents(s.kids[i].sub, s'.kids[i].sub);
      TwinKidsContents(s, s', i + 1);
      assert s.kids[i..][1..] == s.kids[i+1..] && s'.kids[i..][1..] == s'.kids[i+1..];
    }
  }

  lemma {:induction false} TwinShape(s: Tree, s': Tree, lvl: nat)
    requires Twin(s, s') && Shape(s, lvl)
    ensures Shape(s', lvl)
    decreases s
  {
    if s.Node? {
      forall i | 0 <= i < |s'.kids| ensures Shape(s'.kids[i].sub, lvl - 1) {
        TwinShape(s.kids[i].sub, s'.kids[i].sub, lvl - 1);
      }
    }
  }

  lemma {:induction false} TwinFull(s: Tree, s': Tree, ns: nat)
    requires Twin(s, s')
    ensures Full(s) ==> Full(s')
    ensures Fits(s, ns) ==> Fits(s', ns)
    decreases s
  {
    if s.Node? {
      forall i | 0 <= i < |s'.kids|
        ensures Full(s) ==> Full(s'.kids[i].sub)
        ensures Fits(s, ns) ==> Fits(s'.kids[i].sub, ns)
      {
        TwinFull(s.kids[i].sub, s'.kids[i].sub, ns);
      }
    }
  }

  lemma {:induction false} TwinOrdered(s: Tree, s': Tree, lo: int, hi: int)
    requires Twin(s, s') && Ordered(s, lo, hi)
    ensures Ordered(s', lo, hi)
    decreases s
  {
    if s.Node? {
      forall i | 0 <= i < |s'.kids| ensures Ordered(s'.kids[i].sub, Rank(s'.kids[i].sep), Upper(s'.kids, i, hi)) {
        TwinOrdered(s.kids[i].sub, s'.kids[i].sub, Rank(s.kids[i].sep), Upper(s.kids, i, hi));
      }
    }
  }

  /** Moving nodes keeps the denotation and everything a search relies on. */
  lemma {:induction false} TwinWellFormed(s: Tree, s': Tree, ns: nat)
    requires Twin(s, s')
    ensures Contents(s') == Contents(s) && LevelOf(s') == LevelOf(s)
    ensures WellFormed(s, ns) ==> WellFormed(s', ns)
  {
    TwinContents(s, s');
    if WellFormed(s, ns) {
      TwinShape(s, s', LevelOf(s));
      TwinFull(s, s', ns);
      TwinOrdered(s, s', 0, RANK_LIMIT);
    }
  }

  // ---- which nodes move ------------------------------------------------------------------------

  /** A node moves exactly when it or a node reachable below it lies in the window. */
  ghost predicate Moves(t: Tree, ns: nat, w: Window) {
    || Overlaps(t.addr, ns, w)
    || (t.Node? && exists i :: 0 <= i < |t.kids| && t.kids[i].sub.addr != 0 && Moves(t.kids[i].sub, ns, w))
  }

  /** No node of s', the twin of s, that stands for a node of s reachable through non-zero pointers has a
      byte in the window. */
  ghost predicate Clear(s: Tree, s': Tree, ns: nat, w: Window) {
    && !Overlaps(s'.addr, ns, w)
    && (s.Node? ==>
          s'.Node? && |s'.kids| == |s.kids|
          && forall i :: 0 <= i < |s.kids| && s.kids[i].sub.addr != 0 ==> Clear(s.kids[i].sub, s'.kids[i].sub, ns, w))
  }

  /** s' is the relocation of s: an unmoved tree is itself, a moved root carries the committing
      generation and lies below the window, and nothing of s' is left in the window. */
  ghost predicate Evacuated(s: Tree, s': Tree, changed: bool, ns: nat, g: nat, w: Window) {
    && Twin(s, s') && (changed <==> Moves(s, ns, w)) && Clear(s, s', ns, w)
    && (GenOK(s) ==> GenOK(s'))
    && if changed then s'.gen == g && s'.addr + ns <= w.start else s' == s
  }

  ghost predicate KidDone(x: Kid, y: Kid, ns: nat, g: nat, w: Window) {
    if x.sub.addr == 0 then y == x
    else
      var c := Moves(x.sub, ns, w);
      y == Repointed(x, y.sub, c, g) && Evacuated(x.sub, y.sub, c, ns, g, w)
  }

  ghost predicate KidsDone(ks: seq<Kid>, ks': seq<Kid>, changed: bool, ns: nat, g: nat, w: Window) {
    && |ks'| <= |ks|
    && (forall j :: 0 <= j < |ks'| ==> KidDone(ks[j], ks'[j], ns, g, w))
    && (changed <==> exists j :: 0 <= j < |ks'| && ks[j].sub.addr != 0 && Moves(ks[j].sub, ns, w))
  }

  lemma {:induction false} RelocateEvacuates(t: Tree, depth: nat, fr: seq<Extent>, ns: nat, g: nat, w: Window)
    ensures var r := Relocate(t, depth, fr, ns, g, w); r.RDone? ==> Evacuated(t, r.t, r.changed, ns, g, w)
    decreases t, 1, 0
  {
    TwinSelf(t);
    if t.Node? && depth <= MAX_DEPTH {
      KidsEvacuate(t, 0, [], false, depth, fr, ns, g, w);
      var k := RelocateKids(t, 0, [], false, depth, fr, ns, g, w);
      if k.KDone? {
        SettleEvacuates(t, k.kids, k.changed, k.fr, ns, g, w);
      }
    }
  }

  lemma {:induction false} SettleEvacuates(t: Tree, kids: seq<Kid>, changed: bool, fr: seq<Extent>, ns: nat, g: nat,
                                           w: Window)
    requires t.Node? && KidsDone(t.kids, kids, changed, ns, g, w) && |kids| == |t.kids|
    ensures var r := Settle(Node(t.addr, t.gen, t.level, kids), changed, fr, ns, g, w);
            r.RDone? ==> Evacuated(t, r.t, r.changed, ns, g, w)
  {
    forall j | 0 <= j < |kids|
      ensures kids[j].sep == t.kids[j].sep && Twin(t.kids[j].sub, kids[j].sub)
      ensures t.kids[j].sub.addr != 0 ==> Clear(t.kids[j].sub, kids[j].sub, ns, w)
      ensures GenOK(t) ==> kids[j].gen == kids[j].sub.gen && GenOK(kids[j].sub)
    {
      assert KidDone(t.kids[j], kids[j], ns, g, w);
      TwinSelf(t.kids[j].sub);
    }
    if !changed {
      assert kids == t.kids;
    }
  }

  lemma {:induction false} KidsEvacuate(t: Tree, i: nat, kids: seq<Kid>, changed: bool, depth: nat, fr: seq<Extent>,
                                        ns: nat, g: nat,
                                        w: Window)
    requires t.Node? && i == |kids| && KidsDone(t.kids, kids, changed, ns, g, w)
    ensures var r := RelocateKids(t, i, kids, changed, depth, fr, ns, g, w);
            r.KDone? ==> |r.kids| == |t.kids| && KidsDone(t.kids, r.kids, r.changed, ns, g, w)
    decreases t, 0, |t.kids| - i
  {
    if i < |t.kids| {
      var x := t.kids[i];
      if x.sub.addr == 0 {
        KidsDoneMore(t.kids, kids, changed, x, false, ns, g, w);
        KidsEvacuate(t, i + 1, kids + [x], changed, depth, fr, ns, g, w);
      } else {
        var m := Relocate(x.sub, depth + 1, fr, ns, g, w);
        RelocateEvacuates(x.sub, depth + 1, fr, ns, g, w);
        if m.RDone? {
          var y := Repointed(x, m.t, m.changed, g);
          KidsDoneMore(t.kids, kids, changed, y, m.changed, ns, g, w);
          KidsEvacuate(t, i + 1, kids + [y], changed || m.changed, depth, m.fr, ns, g, w);
        }
      }
    }
  }

  lemma {:induction false} KidsDoneMore(ks: seq<Kid>, kids: seq<Kid>, changed: bool, y: Kid, c: bool, ns: nat, g: nat,
                                        w: Window)
    requires |kids| < |ks| && KidsDone(ks, kids, changed, ns, g, w) && KidDone(ks[|kids|], y, ns, g, w)
    requires c <==> ks[|kids|].sub.addr != 0 && Moves(ks[|kids|].sub, ns, w)
    ensures KidsDone(ks, kids + [y], changed || c, ns, g, w)
  {
  }

  // ---- the bytes of the window -------------------------------------------------------------------------

  lemma {:induction false} KidsCntNone(ks: seq<Kid>, ns: nat, b: nat)
    requires forall i :: 0 <= i < |ks| ==> Cnt(ks[i].sub, ns, b) == 0
    ensures KidsCnt(ks, ns, b) == 0
  {
    if ks != [] {
      KidsCntNone(ks[1..], ns, b);
    }
  }

  /** A tree that does not cover byte 0 has no child at address 0, and neither have its subtrees. */
  lemma {:induction false} NoZeroKid(t: Tree, i: nat, ns: nat)
    requires ns > 0 && Cnt(t, ns, 0) == 0 && t.Node? && i < |t.kids|
    ensures t.kids[i].sub.addr != 0 && Cnt(t.kids[i].sub, ns, 0) == 0
  {
    KidsCntAt(t.kids, i, ns, 0);
  }

  /** Some node of t covers a byte of the window. */
  ghost predicate InWindow(t: Tree, ns: nat, w: Window) {
    exists b: nat :: w.start <= b < w.end && Cnt(t, ns, b) > 0
  }

  /** A node has to move exactly when its subtree covers a byte of the window. */
  lemma {:induction false} MovesIff(t: Tree, ns: nat, w: Window)
    requires ns > 0 && Cnt(t, ns, 0) == 0
    ensures InWindow(t, ns, w) ==> Moves(t, ns, w)
    ensures w.start < w.end ==> (Moves(t, ns, w) ==> InWindow(t, ns, w))
    decreases t
  {
    if t.Node? {
      forall i | 0 <= i < |t.kids|
        ensures InWindow(t.kids[i].sub, ns, w) ==> t.kids[i].sub.addr != 0 && Moves(t.kids[i].sub, ns, w)
        ensures w.start < w.end && Moves(t.kids[i].sub, ns, w) ==> InWindow(t, ns, w)
      {
        NoZeroKid(t, i, ns);
        MovesIff(t.kids[i].sub, ns, w);
        if InWindow(t.kids[i].sub, ns, w) {
          var b: nat :| w.start <= b < w.end && Cnt(t.kids[i].sub, ns, b) > 0;
          KidsCntAt(t.kids, i, ns, b);
          assert Cnt(t, ns, b) > 0;
        }
      }
    }
    if InWindow(t, ns, w) && !Overlaps(t.addr, ns, w) {
      var b: nat :| w.start <= b < w.end && Cnt(t, ns, b) > 0;
      if forall i :: 0 <= i < |t.kids| ==> Cnt(t.kids[i].sub, ns, b) == 0 {
        KidsCntNone(t.kids, ns, b);
      }
    }
    if w.start < w.end && Overlaps(t.addr, ns, w) {
      var b := if t.addr < w.start then w.start else t.addr;
      assert Cnt(t, ns, b) > 0;
    }
  }

  /** A cleared tree covers no byte of the window. */
  lemma {:induction false} ClearCnt(s: Tree, s': Tree, ns: nat, w: Window, b: nat)
    requires ns > 0 && Cnt(s, ns, 0) == 0 && Twin(s, s') && Clear(s, s', ns, w) && w.start <= b < w.end
    ensures Cnt(s', ns, b) == 0
    decreases s
  {
    if s.Node? {
      forall i | 0 <= i < |s'.kids| ensures Cnt(s'.kids[i].sub, ns, b) == 0 {
        NoZeroKid(s, i, ns);
        ClearCnt(s.kids[i].sub, s'.kids[i].sub, ns, w, b);
      }
      KidsCntNone(s'.kids, ns, b);
    }
  }

  /** Relocating a tree without zero pointers, said of bytes: afterwards no node covers a byte of the window,
      and the tree has changed exactly when a node covered one. */
  lemma {:induction false} RelocateBytes(t: Tree, depth: nat, fr: seq<Extent>, ns: nat, g: nat, w: Window)
    requires ns > 0 && Cnt(t, ns, 0) == 0 && Relocate(t, depth, fr, ns, g, w).RDone?
    ensures var r := Relocate(t, depth, fr, ns, g, w);
            && !InWindow(r.t, ns, w)
            && (w.start < w.end ==> (r.changed <==> InWindow(t, ns, w)))
            && (!r.changed ==> r.t == t)
  {
    hide Relocate, Moves, Clear, Cnt;
    var r := Relocate(t, depth, fr, ns, g, w);
    RelocateEvacuates(t, depth, fr, ns, g, w);
    MovesIff(t, ns, w);
    forall b: nat | w.start <= b < w.end ensures Cnt(r.t, ns, b) == 0 {
      ClearCnt(t, r.t, ns, w, b);
    }
  }
}
