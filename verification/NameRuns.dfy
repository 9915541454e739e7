/** Runs of namespace operations: every state of a run is consistent and a tree of directories exactly when
    what the driver leaves unchecked holds at each operation. */
module NameRuns {
  import opened Keys
  import opened Names
  import opened NamesKeep
  import opened NameOps
  import opened NameMove
  import opened NameTree
  import opened NamePrune

  datatype Op =
    | Make(ino: nat, p: nat, name: string, kind: Kind, len: nat)
    | Link(c: nat, p: nat, name: string)
    | Unlink(p: nat, name: string)
    | RemoveDir(p: nat, name: string)
    | Move(op: nat, on: string, np: nat, nn: string)

  /** One operation as the driver carries it out, with its own refusals: an existing name is not created or
      linked again, a directory is not linked, a missing name is not removed or renamed, a directory is not
      unlinked or replaced, and only a directory is removed with its contents. */
  ghost function Step(st: State, h: Hash, o: Op): State {
    match o
    case Make(ino, p, name, kind, len) =>
      if Lookup(st, h, p, name).Some? then st else Created(st, h, ino, p, name, kind, if kind == Dir then 0 else len)
    case Link(c, p, name) =>
      if c !in st.inodes || st.inodes[c].kind == Dir || Lookup(st, h, p, name).Some? then st
      else Linked(st, h, c, p, name)
    case Unlink(p, name) =>
      (match Lookup(st, h, p, name)
       case None => st
       case Some(d) => if d.kind == Dir then st else Removed(st, h, d.child, p, name))
    case RemoveDir(p, name) =>
      (match Lookup(st, h, p, name)
       case None => st
       case Some(d) => if d.kind != Dir then st else Pruned(st, h, Outside(st.index, d.child, p, name)))
    case Move(op, on, np, nn) =>
      var r := Renamed(st, h, op, on, np, nn);
      if r.Moved? then r.st else st
  }

  /** The arguments path resolution and inode allocation deliver. */
  ghost predicate Resolved(st: State, o: Op) {
    match o
    case Make(ino, p, _, _, _) => IsNext(st, ino) && p in st.inodes
    case Link(_, p, _) => p in st.inodes
    case Unlink(_, _) => true
    case RemoveDir(_, _) => true
    case Move(_, _, np, _) => np in st.inodes
  }

  /** What the driver leaves unchecked: the parent is a directory, the name's hash is free in it, source and
      destination differ, and no directory moves below itself. Deletions are always safe. */
  ghost predicate Safe(st: State, h: Hash, o: Op) {
    match o
    case Make(_, p, name, _, _) =>
      Lookup(st, h, p, name).Some? || (p in st.inodes && st.inodes[p].kind == Dir && !Taken(st.index, h, p, name))
    case Link(c, p, name) =>
      c !in st.inodes || st.inodes[c].kind == Dir || Lookup(st, h, p, name).Some? ||
      (p in st.inodes && st.inodes[p].kind == Dir && !Taken(st.index, h, p, name))
    case Unlink(_, _) => true
    case RemoveDir(_, _) => true
    case Move(op, on, np, nn) =>
      Renamed(st, h, op, on, np, nn).Moved? ==>
        && !(op == np && on == nn) && np in st.inodes && st.inodes[np].kind == Dir
           && NoClash(st.index, h, op, on, np, nn)
        && (Lookup(st, h, op, on).Some? && Lookup(st, h, op, on).value.kind == Dir ==>
              !Below(st.index, Lookup(st, h, op, on).value.child, np))
  }

  /** Removing one name of a file keeps the invariant. */
  lemma {:induction false} UnlinkStep(st: State, h: Hash, p: nat, name: string)
    requires Good(st, h)
    ensures Good(Step(st, h, Unlink(p, name)), h)
  {
    hide Agree, Counted, Grounded, Lookup, EmptyDir, IsTree, Removed;
    var found := Lookup(st, h, p, name);
    if found.Some? && found.value.kind != Dir {
      var i := LookupEntry(st, h, p, name);
      FileEntry(st, h, i, found.value, p, name);
      RemovedIff(st, h, i, found.value.child, p, name);
      RemovedDrops(st, h, i, found.value.child, p, name);
      SubTree(st.index, Removed(st, h, found.value.child, p, name).index);
    }
  }

  /** Deleting a directory with its contents keeps the invariant. */
  lemma {:induction false} RemoveDirStep(st: State, h: Hash, p: nat, name: string)
    requires Good(st, h)
    ensures Good(Step(st, h, RemoveDir(p, name)), h)
  {
    hide Good, Lookup, Pruned, Outside;
    var found := Lookup(st, h, p, name);
    if found.Some? && found.value.kind == Dir {
      OutsideUpward(st, h, found.value.child, p, name);
      PrunedGood(st, h, Outside(st.index, found.value.child, p, name));
    }
  }

  /** It removes the directory's entry and every entry below it, at any depth, and no other; lookups in what
      is left are as before. */
  lemma {:induction false} RemoveDirGone(st: State, h: Hash, p: nat, name: string, e: Entry, q: nat, other: string)
    requires Good(st, h) && Lookup(st, h, p, name).Some? && Lookup(st, h, p, name).value.kind == Dir
    ensures var st', c := Step(st, h, RemoveDir(p, name)), Lookup(st, h, p, name).value.child;
            && (e in st'.index <==>
                e in st.index && !Below(st.index, c, e.parent) && !(e.parent == p && e.d.name == name))
            && Lookup(st', h, q, other) ==
               if (q == p && other == name) || Below(st.index, c, q) then None else Lookup(st, h, q, other)
  {
    hide Agree, Grounded, Counted, IsTree, Lookup, Below, Keep, ItemsOf, RefMap, InodesOf;
    var st', c := Step(st, h, RemoveDir(p, name)), Lookup(st, h, p, name).value.child;
    var keep := Outside(st.index, c, p, name);
    KeepHas(st.index, keep, e);
    RemoveDirStep(st, h, p, name);
    if Lookup(st', h, q, other).Some? {
      var i := LookupEntry(st', h, q, other);
      KeepHas(st.index, keep, st'.index[i]);
      EntryFound(st, h, st'.index[i]);
    } else if Lookup(st, h, q, other).Some? {
      var i := LookupEntry(st, h, q, other);
      KeepHas(st.index, keep, st.index[i]);
      if st.index[i] in keep {
        EntryFound(st', h, st.index[i]);
      }
    }
  }

  lemma {:induction false} EntryFound(st: State, h: Hash, e: Entry)
    requires Agree(st, h) && e in st.index
    ensures Lookup(st, h, e.parent, e.d.name) == Some(e.d)
  {
    hide Agree, Lookup;
    var i :| 0 <= i < |st.index| && st.index[i] == e;
    AgreeDistinct(st, h);
    LookupIs(st, h, e.parent, e.d.name);
    LookupUnique(st.index, h, e.parent, e.d.name, i);
  }

  lemma {:induction false} MoveStep(st: State, h: Hash, op: nat, on: string, np: nat, nn: string)
    requires Good(st, h)
    ensures Good(Step(st, h, Move(op, on, np, nn)), h) <==> Safe(st, h, Move(op, on, np, nn))
  {
    hide Consistent, Lookup, Renamed, IsTree, Below, NoClash;
    if Renamed(st, h, op, on, np, nn).Moved? {
      SourceFound(st, h, op, on, np, nn);
      RenamedIff(st, h, op, on, np, nn);
      if !(op == np && on == nn) {
        RenamedTreeIff(st, h, op, on, np, nn);
      }
    }
  }

  /** An operation keeps the invariant exactly when what the driver leaves unchecked holds. */
  lemma {:induction false} StepIff(st: State, h: Hash, o: Op)
    requires Good(st, h) && Resolved(st, o)
    ensures Good(Step(st, h, o), h) <==> Safe(st, h, o)
  {
    hide Consistent, Lookup, Taken, Created, Linked, IsTree;
    match o
    case Make(ino, p, name, kind, len) =>
      var n := if kind == Dir then 0 else len;
      CreatedIff(st, h, ino, p, name, kind, n);
      CreatedTree(st, h, ino, p, name, kind, n);
    case Link(c, p, name) =>
      if c in st.inodes && st.inodes[c].kind != Dir {
        LinkedIff(st, h, c, p, name);
        LinkedTree(st, h, c, p, name);
      }
    case Unlink(p, name) => UnlinkStep(st, h, p, name);
    case RemoveDir(p, name) => RemoveDirStep(st, h, p, name);
    case Move(op, on, np, nn) => MoveStep(st, h, op, on, np, nn);
  }

  ghost function Run(st: State, h: Hash, os: seq<Op>): State
    decreases |os|
  {
    if os == [] then st else Run(Step(st, h, os[0]), h, os[1..])
  }

  ghost predicate ResolvedRun(st: State, h: Hash, os: seq<Op>)
    decreases |os|
  {
    os == [] || (Resolved(st, os[0]) && ResolvedRun(Step(st, h, os[0]), h, os[1..]))
  }

  ghost predicate SafeRun(st: State, h: Hash, os: seq<Op>)
    decreases |os|
  {
    os == [] || (Safe(st, h, os[0]) && SafeRun(Step(st, h, os[0]), h, os[1..]))
  }

  /** Every state of a run keeps the invariant exactly when every operation's guard holds when it comes. */
  lemma {:induction false} RunIff(st: State, h: Hash, os: seq<Op>)
    requires Good(st, h) && ResolvedRun(st, h, os)
    ensures SafeRun(st, h, os) <==> forall n :: 0 <= n <= |os| ==> Good(Run(st, h, os[..n]), h)
    decreases |os|
  {
    hide Good, Safe, Step, Resolved;
    assert os[..0] == [];
    if os != [] {
      var next := Step(st, h, os[0]);
      StepIff(st, h, os[0]);
      forall n | 1 <= n <= |os|
        ensures Run(st, h, os[..n]) == Run(next, h, os[1..][..n - 1])
      {
        assert os[..n][1..] == os[1..][..n - 1];
      }
      assert Run(st, h, os[..1]) == next by {
        assert os[1..][..0] == [];
      }
      if Good(next, h) {
        RunIff(next, h, os[1..]);
        RunSplit(st, h, os, next);
      }
    }
  }

  lemma {:induction false} RunSplit(st: State, h: Hash, os: seq<Op>, next: State)
    requires os != [] && Good(st, h)
    requires forall n {:trigger os[..n]} :: 1 <= n <= |os| ==> Run(st, h, os[..n]) == Run(next, h, os[1..][..n - 1])
    ensures (forall n :: 0 <= n <= |os| ==> Good(Run(st, h, os[..n]), h)) <==>
            (forall m :: 0 <= m <= |os[1..]| ==> Good(Run(next, h, os[1..][..m]), h))
  {
    hide Good;
    assert os[..0] == [];
    if forall n :: 0 <= n <= |os| ==> Good(Run(st, h, os[..n]), h) {
      forall m | 0 <= m <= |os[1..]|
        ensures Good(Run(next, h, os[1..][..m]), h)
      {
        assert Good(Run(st, h, os[..m + 1]), h);
      }
    }
    if forall m :: 0 <= m <= |os[1..]| ==> Good(Run(next, h, os[1..][..m]), h) {
      forall n | 0 <= n <= |os|
        ensures Good(Run(st, h, os[..n]), h)
      {
        if n > 0 {
          assert Good(Run(next, h, os[1..][..n - 1]), h);
        }
      }
    }
  }

  // ---- inputs on which the driver breaks the invariant ----------------------------------------------------

  /** The empty file system after one creation in the root directory. */
  ghost function One(h: Hash, kind: Kind): State {
    Step(Start(), h, Make(257, ROOT, "a", kind, 0))
  }

  lemma {:induction false} OneGood(h: Hash, kind: Kind)
    ensures Good(One(h, kind), h)
    ensures One(h, kind) == Created(Start(), h, 257, ROOT, "a", kind, 0)
  {
    StartGood(h);
    StepIff(Start(), h, Make(257, ROOT, "a", kind, 0));
  }

  /** What the one name and any other find. */
  lemma {:induction false} OneLookup(h: Hash, kind: Kind, p: nat, name: string)
    ensures Lookup(One(h, kind), h, p, name) == if p == ROOT && name == "a" then Some(DirItem(257, kind, "a")) else None
  {
    OneGood(h, kind);
    StartGood(h);
    CreatedLookup(Start(), h, 257, ROOT, "a", kind, 0, p, name);
  }

  /** An operation that the driver carries out and that breaks the invariant. */
  ghost predicate Breaks(st: State, h: Hash, o: Op) {
    Good(st, h) && Resolved(st, o) && !Good(Step(st, h, o), h)
  }

  /** A file is created below a regular file. */
  lemma {:induction false} BelowFileExample(h: Hash)
    ensures Breaks(One(h, File), h, Make(258, 257, "b", File, 0))
  {
    hide Good, Lookup, One;
    OneGood(h, File);
    OneLookup(h, File, 257, "b");
    StepIff(One(h, File), h, Make(258, 257, "b", File, 0));
  }

  /** Two names of one directory have the same hash. */
  lemma {:induction false} HashTakenExample(h: Hash)
    requires h("a") == h("b")
    ensures Breaks(One(h, File), h, Make(258, ROOT, "b", File, 0))
  {
    hide Good, Lookup, One;
    OneGood(h, File);
    OneLookup(h, File, ROOT, "b");
    assert One(h, File).index[0].parent == ROOT && One(h, File).index[0].d.name == "a";
    assert Taken(One(h, File).index, h, ROOT, "b");
    StepIff(One(h, File), h, Make(258, ROOT, "b", File, 0));
  }

  /** A file is renamed onto itself. */
  lemma {:induction false} SelfRenameExample(h: Hash)
    ensures Breaks(One(h, File), h, Move(ROOT, "a", ROOT, "a"))
  {
    hide Good, Lookup, One;
    OneGood(h, File);
    OneLookup(h, File, ROOT, "a");
    StepIff(One(h, File), h, Move(ROOT, "a", ROOT, "a"));
  }

  /** A directory is moved into itself. */
  lemma {:induction false} IntoItselfExample(h: Hash)
    ensures Breaks(One(h, Dir), h, Move(ROOT, "a", 257, "b"))
  {
    hide Lookup, One;
    var st := One(h, Dir);
    OneGood(h, Dir);
    OneLookup(h, Dir, ROOT, "a");
    OneLookup(h, Dir, 257, "b");
    var rank :| Ranked(st.index, rank);
    InsideSelf(st.index, rank, 257);
    assert Below(st.index, 257, 257);
    StepIff(st, h, Move(ROOT, "a", 257, "b"));
  }
}
