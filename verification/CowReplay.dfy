/** Runs of cowInsert, cowUpdate and cowDelete on the device, each committed under the next generation, and
    the search that follows them. */
module CowReplay {
  import opened Keys
  import opened FreeSpace
  import opened Trees
  import opened CowSpec
  import opened MapSpec
  import opened CowExact
  import opened CowRuns
  import opened SearchSpec
  import opened Volumes
  import opened CowEngine
  import opened CowInsertEngine
  import opened TreeWalk

  /** Every operation is allowed when it comes, as long as those before it succeed. */
  ghost predicate AllowedRun(t: Tree, fr: seq<Extent>, ops: seq<LeafOp>, g: nat, ns: nat)
    decreases |ops|
  {
    ops == [] ||
    (&& Shape(t, LevelOf(t)) && Allowed(t, ops[0], ns)
     && var x := Exec(t, Step(ops[0], g + 1), fr, ns);
     x.Ok? ==> AllowedRun(x.value.0, x.value.1, ops[1..], g + 1, ns))
  }

  /** The map after the operations. */
  function Applied(ops: seq<LeafOp>, m: Dict): Dict {
    if ops == [] then m else Effect(ops[|ops| - 1], Applied(ops[..|ops| - 1], m))
  }

  /** After the operations a key has what the last one that wrote it left, or what it had. */
  lemma {:induction false} LastWriter(ops: seq<LeafOp>, m: Dict, k: Key, i: nat)
    requires forall j :: 0 <= j < |ops| ==> !ops[j].DeletePrefix?
    requires i <= |ops| && (i < |ops| ==> Writes(ops[i], k))
    requires forall j :: 0 <= j < |ops| && (i < j || i == |ops|) ==> !Writes(ops[j], k)
    ensures Lookup(Applied(ops, m), k) == if i < |ops| then Leaves(ops[i]) else Lookup(m, k)
  {
    if ops != [] && i != |ops| - 1 {
      var p := ops[..|ops| - 1];
      LastWriter(p, m, k, if i == |ops| then |p| else i);
    }
  }

  lemma {:induction false} AppliedMore(ops: seq<LeafOp>, i: nat, m: Dict)
    requires i < |ops|
    ensures Applied(ops[..i + 1], m) == Effect(ops[i], Applied(ops[..i], m))
  {
    hide Effect;
    assert ops[..i + 1][..i] == ops[..i];
  }

  /** The stored tree t: a search tree with matching generations, disjoint from the free bytes. */
  ghost predicate Settled(dev: Device, fr: seq<Extent>, t: Tree, ns: nat) {
    Stored(dev, t) && WellFormed(t, ns) && GenOK(t) && Clean(fr, t, ns)
  }

  ghost predicate SameBytes(fr0: seq<Extent>, t0: Tree, fr: seq<Extent>, t: Tree, ns: nat) {
    forall b: nat :: FreeCnt(fr, b) + Cnt(t, ns, b) == FreeCnt(fr0, b) + Cnt(t0, ns, b)
  }

  /** The operation fails on t', with the free list that the operations from t to t' have left. */
  ghost predicate StopsAt(t: Tree, t': Tree, op: LeafOp, e: Error, fr0: seq<Extent>, g: nat, ns: nat)
    requires Shape(t', LevelOf(t'))
  {
    exists fr :: SameBytes(fr0, t, fr, t', ns) && Exec(t', Step(op, g), fr, ns) == Err(e)
  }

  lemma {:induction false} StepDone(t: Tree, op: LeafOp, fr: seq<Extent>, ns: nat, g: nat)
    requires WellFormed(t, ns) && GenOK(t) && Clean(fr, t, ns) && ns >= NODE_HDR + 2 * PTR_SIZE
    requires Allowed(t, op, ns) && Exec(t, Step(op, g), fr, ns).Ok?
    ensures var (t', fr') := Exec(t, Step(op, g), fr, ns).value;
            && WellFormed(t', ns) && GenOK(t') && Clean(fr', t', ns) && SameBytes(fr, t, fr', t', ns)
            && ToMap(Contents(t')) == Effect(op, ToMap(Contents(t)))
  {
    hide Exec, Allowed, WellFormed, FreeCnt, Cnt, Effect, ToMap, Contents;
    ShapeOf(t, ns);
    StepKeeps(t, Step(op, g), fr, ns);
    var (t', fr') := Exec(t, Step(op, g), fr, ns).value;
    forall b: nat
      ensures FreeCnt(fr', b) + Cnt(t', ns, b) == FreeCnt(fr, b) + Cnt(t, ns, b) <= 1
    {
      assert FreeCnt(fr, b) + Cnt(t, ns, b) <= 1;
      StepConserves(t, Step(op, g), fr, ns, b);
    }
  }

  /** One operation of a run on the device. */
  method Perform(v: Volume, root: nat, op: LeafOp, ghost t: Tree)
    returns (r: Result<nat>, ghost x: Result<(Tree, seq<Extent>)>)
    requires v.Valid() && Settled(v.dev, v.sm.freeExts, t, v.ns) && root == t.addr && Allowed(t, op, v.ns)
    modifies v`dev, v.sm`freeExts
    ensures x == Exec(t, Step(op, v.generation + 1), old(v.sm.freeExts), v.ns)
    ensures Refines(r, x, t, v.dev, v.sm.freeExts, old(v.dev), old(v.sm.freeExts), v.ns)
  {
    hide Refines, Stored, Clean, Ordered, Fits, Full, InsertTree, MutateTree, GenOK;
    match op {
      case Insert(k, data) => r, x := CowInsert(v, root, k, data, t);
      case Update(k, data) => r, x := v.CowUpdate(root, k, data, t);
      case Delete(k) => r, x := v.CowDelete(root, k, t);
      case DeletePrefix(_, _) =>
    }
  }

  /** A run on the device: every operation, in order, up to the first that fails. What is then stored is a
      search tree that denotes the map of the operations done; no byte leaks in a whole run. */
  method Replay(v: Volume, root: nat, ops: seq<LeafOp>, ghost t: Tree)
    returns (r: Result<nat>, done: nat, ghost t': Tree)
    requires v.Valid() && Settled(v.dev, v.sm.freeExts, t, v.ns) && root == t.addr
    requires AllowedRun(t, v.sm.freeExts, ops, v.generation, v.ns)
    modifies v`dev, v`generation, v.sm`freeExts
    ensures done <= |ops| && v.generation == old(v.generation) + done
    ensures r.Ok? ==> done == |ops| && r.value == t'.addr
    ensures Settled(v.dev, v.sm.freeExts, t', v.ns)
    ensures ToMap(Contents(t')) == Applied(ops[..done], ToMap(Contents(t)))
    ensures r.Ok? ==> SameBytes(old(v.sm.freeExts), t, v.sm.freeExts, t', v.ns)
    ensures r.Err? ==>
            forall b: nat ::
                FreeCnt(v.sm.freeExts, b) + Cnt(t', v.ns, b) <= old(FreeCnt(v.sm.freeExts, b)) + Cnt(t, v.ns, b)
    ensures r.Err? ==> done < |ops| && StopsAt(t, t', ops[done], r.error, old(v.sm.freeExts), v.generation + 1, v.ns)
  {
    hide Exec, Allowed, WellFormed, GenOK, Stored, FreeCnt, Cnt, Effect, ToMap, Contents, Applied, UsedUp, Spared;
    ghost var fr0 := v.sm.freeExts;
    var cur := root;
    t', done := t, 0;
    RunStart(ops, ToMap(Contents(t)));
    while done < |ops|
      invariant 0 <= done <= |ops| && cur == t'.addr && v.generation == old(v.generation) + done
      invariant Settled(v.dev, v.sm.freeExts, t', v.ns) && SameBytes(fr0, t, v.sm.freeExts, t', v.ns)
      invariant AllowedRun(t', v.sm.freeExts, ops[done..], v.generation, v.ns)
      invariant ToMap(Contents(t')) == Applied(ops[..done], ToMap(Contents(t)))
    {
      ghost var fr := v.sm.freeExts;
      assert ops[done..][0] == ops[done] && ops[done..][1..] == ops[done + 1..];
      var step; ghost var x;
      step, x := Perform(v, cur, ops[done], t');
      if step.Err? {
        FailedClean(fr, v.sm.freeExts, t', v.ns);
        assert StopsAt(t, t', ops[done], step.error, fr0, v.generation + 1, v.ns);
        return Err(step.error), done, t';
      }
      StepDone(t', ops[done], fr, v.ns, v.generation + 1);
      AppliedMore(ops, done, ToMap(Contents(t)));
      SameBytesTrans(fr0, t, fr, t', x.value.1, x.value.0, v.ns);
      t' := x.value.0;
      cur := step.value;
      v.generation := v.generation + 1;
      done := done + 1;
    }
    assert ops[..done] == ops;
    r := Ok(cur);
  }

  lemma {:induction false} RunStart(ops: seq<LeafOp>, m: Dict)
    ensures Applied(ops[..0], m) == m && ops[0..] == ops
  {
  }

  lemma {:induction false} SameBytesTrans(fr0: seq<Extent>, t0: Tree, fr1: seq<Extent>, t1: Tree, fr2: seq<Extent>,
                                          t2: Tree, ns: nat)
    requires SameBytes(fr0, t0, fr1, t1, ns) && SameBytes(fr1, t1, fr2, t2, ns)
    ensures SameBytes(fr0, t0, fr2, t2, ns)
  {
    hide FreeCnt, Cnt;
  }

  lemma {:induction false} FailedClean(fr0: seq<Extent>, fr: seq<Extent>, t: Tree, ns: nat)
    requires Clean(fr0, t, ns) && Fewer(fr, fr0)
    ensures Clean(fr, t, ns)
    ensures forall b: nat :: FreeCnt(fr, b) + Cnt(t, ns, b) <= FreeCnt(fr0, b) + Cnt(t, ns, b)
  {
    hide FreeCnt, Cnt;
  }

  /** A run and a search: the search answers from the map of the operations. */
  method ReplayThenSearch(v: Volume, root: nat, ops: seq<LeafOp>, k: Key, ghost t: Tree)
    returns (r: Result<nat>, found: Result<Option<seq<u8>>>, ghost t': Tree)
    requires v.Valid() && Settled(v.dev, v.sm.freeExts, t, v.ns) && root == t.addr
    requires AllowedRun(t, v.sm.freeExts, ops, v.generation, v.ns)
    requires FreeCnt(v.sm.freeExts, 0) + Cnt(t, v.ns, 0) == 0
    modifies v`dev, v`generation, v.sm`freeExts
    ensures r.Ok? ==> Stored(v.dev, t') && r.value == t'.addr
    ensures r.Ok? ==> || found == Ok(Lookup(Applied(ops, ToMap(Contents(t))), k))
                      || (found == Err(TooDeep) && LevelOf(t') > MAX_DEPTH)
    ensures r.Err? ==>
            && Shape(t', LevelOf(t'))
            && exists i :: 0 <= i < |ops|
                           && StopsAt(t, t', ops[i], r.error, old(v.sm.freeExts), v.generation + 1, v.ns)
  {
    hide WellFormed, GenOK, Stored, FreeCnt, Cnt, ToMap, Contents, Applied, AllowedRun, Search, StopsAt;
    var done;
    r, done, t' := Replay(v, root, ops, t);
    found := Ok(None);
    ShapeOf(t', v.ns);
    if r.Ok? {
      assert ops[..done] == ops;
      CleanTree(v.sm.freeExts, t', v.ns);
      ShapeOf(t', v.ns);
      assert FreeCnt(v.sm.freeExts, 0) + Cnt(t', v.ns, 0) == 0;
      found := SearchTree(v.dev, r.value, k, v.ns, t');
      SearchWellFormed(t', k, v.ns);
    }
  }
}
