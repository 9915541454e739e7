/** Runs of cowInsert, cowUpdate and cowDelete. */
module CowRuns {
  import opened Keys
  import opened FreeSpace
  import opened Trees
  import opened CowSpec
  import opened CowLeaf
  import opened CowMutate
  import opened CowConserve
  import opened MapSpec
  import opened CowTheorems
  import opened CowExact
  import opened SearchSpec

  /** One operation of a run, with the generation it commits under. */
  datatype Step = Step(op: LeafOp, gen: nat)

  ghost function Exec(t: Tree, s: Step, fr: seq<Extent>, ns: nat): Result<(Tree, seq<Extent>)>
    requires Shape(t, LevelOf(t))
  {
    if s.op.Insert? then InsertTree(t, s.op.k, s.op.data, fr, ns, s.gen) else MutateTree(t, s.op, fr, ns, s.gen)
  }

  /** The conditions under which a single operation keeps a tree well-formed: an inserted key is
      new and covered (or absorbed by the merge), and a delete leaves an item or a single leaf. */
  ghost predicate Allowed(t: Tree, op: LeafOp, ns: nat)
    requires Shape(t, LevelOf(t))
  {
    match op
    case Insert(k, data) => Absent(Contents(t), k) && (Covered(t, k) || Absorbed(t, Item(k, data), ns))
    case Update(k, _) => true
    case Delete(k) => t.Leaf? || |Contents(t)| > 1
    case DeletePrefix(_, _) => false
  }

  /** Every step of the run is allowed and succeeds, and takes (t, fr) to (t', fr'). */
  ghost predicate Runs(t: Tree, fr: seq<Extent>, steps: seq<Step>, t': Tree, fr': seq<Extent>, ns: nat)
    decreases |steps|
  {
    if steps == [] then t' == t && fr' == fr
    else
      && Shape(t, LevelOf(t)) && Allowed(t, steps[0].op, ns)
      && var x := Exec(t, steps[0], fr, ns);
      x.Ok? && Runs(x.value.0, x.value.1, steps[1..], t', fr', ns)
  }

  function Effects(steps: seq<Step>, m: Dict): Dict
    decreases |steps|
  {
    if steps == [] then m else Effects(steps[1..], Effect(steps[0].op, m))
  }

  /** Steps that do not write a key leave it as it was. */
  lemma {:induction false} NoStep(steps: seq<Step>, m: Dict, k: Key)
    requires forall j :: 0 <= j < |steps| ==> !steps[j].op.DeletePrefix? && !Writes(steps[j].op, k)
    ensures Lookup(Effects(steps, m), k) == Lookup(m, k)
    decreases |steps|
  {
    if steps != [] {
      NoStep(steps[1..], Effect(steps[0].op, m), k);
    }
  }

  /** After a run a key has what the last step that wrote it left. */
  lemma {:induction false} LastStep(steps: seq<Step>, m: Dict, k: Key, i: nat)
    requires forall j :: 0 <= j < |steps| ==> !steps[j].op.DeletePrefix?
    requires i < |steps| && Writes(steps[i].op, k) && forall j :: i < j < |steps| ==> !Writes(steps[j].op, k)
    ensures Lookup(Effects(steps, m), k) == Leaves(steps[i].op)
    decreases |steps|
  {
    if i == 0 {
      NoStep(steps[1..], Effect(steps[0].op, m), k);
    } else {
      LastStep(steps[1..], Effect(steps[0].op, m), k, i - 1);
    }
  }

  lemma {:induction false} StepKeeps(t: Tree, s: Step, fr: seq<Extent>, ns: nat)
    requires WellFormed(t, ns) && ns >= NODE_HDR + 2 * PTR_SIZE && Allowed(t, s.op, ns) && Exec(t, s, fr, ns).Ok?
    ensures var t' := Exec(t, s, fr, ns).value.0;
            && WellFormed(t', ns) && (GenOK(t) ==> GenOK(t'))
            && ToMap(Contents(t')) == Effect(s.op, ToMap(Contents(t)))
  {
    if s.op.Insert? {
      InsertWellFormedIff(t, s.op.k, s.op.data, fr, ns, s.gen);
      InsertTreeRefines(t, s.op.k, s.op.data, fr, ns, s.gen);
      if GenOK(t) {
        InsertTreeGen(t, s.op.k, s.op.data, fr, ns, s.gen);
      }
    } else {
      UpdateDeleteWellFormedIff(t, s.op, fr, ns, s.gen);
      MutateTreeRefines(t, s.op, fr, ns, s.gen);
      if GenOK(t) {
        MutateTreeGen(t, s.op, fr, ns, s.gen);
      }
    }
  }

  lemma {:induction false} StepConserves(t: Tree, s: Step, fr: seq<Extent>, ns: nat, b: nat)
    requires Shape(t, LevelOf(t)) && Exec(t, s, fr, ns).Ok?
    ensures var (t', fr') := Exec(t, s, fr, ns).value;
            FreeCnt(fr', b) + Cnt(t', ns, b) == FreeCnt(fr, b) + Cnt(t, ns, b)
  {
    if s.op.Insert? {
      InsertTreeConserves(t, s.op.k, s.op.data, fr, ns, s.gen, b);
    } else {
      MutateTreeConserves(t, s.op, fr, ns, s.gen, b);
    }
  }

  /** After every run the tree is well-formed, keeps the parent-transid invariant and holds
      exactly the map the operations describe. */
  lemma {:induction false} RunRefines(t: Tree, fr: seq<Extent>, steps: seq<Step>, t': Tree, fr': seq<Extent>, ns: nat)
    requires WellFormed(t, ns) && GenOK(t) && ns >= NODE_HDR + 2 * PTR_SIZE && Runs(t, fr, steps, t', fr', ns)
    ensures WellFormed(t', ns) && GenOK(t')
    ensures ToMap(Contents(t')) == Effects(steps, ToMap(Contents(t)))
    decreases |steps|
  {
    if steps != [] {
      var x := Exec(t, steps[0], fr, ns).value;
      StepKeeps(t, steps[0], fr, ns);
      RunRefines(x.0, x.1, steps[1..], t', fr', ns);
    }
  }

  /** After every run each byte is covered as often as before: nothing leaks and nothing is used
      twice. */
  lemma {:induction false} RunConserves(t: Tree, fr: seq<Extent>, steps: seq<Step>, t': Tree, fr': seq<Extent>,
                                        ns: nat, b: nat)
    requires Runs(t, fr, steps, t', fr', ns)
    ensures FreeCnt(fr', b) + Cnt(t', ns, b) == FreeCnt(fr, b) + Cnt(t, ns, b)
    decreases |steps|
  {
    if steps != [] {
      var x := Exec(t, steps[0], fr, ns).value;
      StepConserves(t, steps[0], fr, ns, b);
      RunConserves(x.0, x.1, steps[1..], t', fr', ns, b);
    }
  }

  /** After every run searchTree answers from the map the operations describe. */
  lemma {:induction false} RunThenSearch(t: Tree, fr: seq<Extent>, steps: seq<Step>, t': Tree, fr': seq<Extent>,
                                         ns: nat, k: Key)
    requires WellFormed(t, ns) && GenOK(t) && ns >= NODE_HDR + 2 * PTR_SIZE && Runs(t, fr, steps, t', fr', ns)
    ensures Shape(t', LevelOf(t')) && Search(t', k) == Lookup(Effects(steps, ToMap(Contents(t))), k)
  {
    RunRefines(t, fr, steps, t', fr', ns);
    SearchWellFormed(t', k, ns);
  }
}
