/** What the namespace operations leave alone: inode records and file data. */
module NameFrame {
  import opened Keys
  import opened Names
  import opened NamesKeep
  import opened NameOps
  import opened NameMove
  import opened NamePrune
  import opened NameTree
  import opened NameRuns

  /** Every inode of both states has the same kind, links(x) more links, and sizes(x) more bytes of size. */
  ghost predicate Reckoned(a: map<nat, Inode>, b: map<nat, Inode>, links: nat -> int, sizes: nat -> int) {
    forall x :: x in a && x in b ==>
        b[x].kind == a[x].kind && b[x].nlink == a[x].nlink + links(x) && b[x].size == a[x].size + sizes(x)
  }

  /** File data is kept exactly with its inode. */
  ghost predicate BodiesKept(st: State, st': State) {
    forall x :: x in st'.bodies <==> x in st.bodies && x in st'.inodes
  }

  /** A create adds one inode, with one link, the length and, unless a directory, data; its parent grows by
      twice the name. */
  ghost predicate CreateFrame(st: State, st': State, ino: nat, p: nat, name: string, kind: Kind, len: nat) {
    && (forall x :: x in st'.inodes <==> x in st.inodes || x == ino)
    && ino in st'.inodes && st'.inodes[ino] == Inode(kind, 1, len)
    && Reckoned(st.inodes, st'.inodes, _ => 0, x => if x == p then 2 * |name| else 0)
    && (forall x :: x in st'.bodies <==> x in st.bodies || (x == ino && kind != Dir))
  }

  lemma {:induction false} CreatedFrame(st: State, h: Hash, ino: nat, p: nat, name: string, kind: Kind, len: nat)
    requires IsNext(st, ino) && p in st.inodes
    ensures CreateFrame(st, Created(st, h, ino, p, name, kind, len), ino, p, name, kind, len)
  {
    hide NextIdx;
  }

  /** A link adds one to the inode's links; its new parent grows by twice the name. */
  ghost predicate LinkFrame(st: State, st': State, c: nat, p: nat, name: string) {
    && st'.inodes.Keys == st.inodes.Keys && st'.bodies == st.bodies
    && Reckoned(st.inodes, st'.inodes, x => if x == c then 1 else 0, x => if x == p then 2 * |name| else 0)
  }

  lemma {:induction false} LinkedFrame(st: State, h: Hash, c: nat, p: nat, name: string)
    requires c in st.inodes
    ensures LinkFrame(st, Linked(st, h, c, p, name), c, p, name)
  {
    hide NextIdx, WithRef;
  }

  /** A removal takes one link, and with the last the inode and its data; the parent shrinks by twice the
      name. */
  ghost predicate RemoveFrame(st: State, st': State, c: nat, p: nat, name: string) {
    && (forall x :: x in st'.inodes <==> x in st.inodes && (x == c ==> st.inodes[x].nlink > 1))
    && Reckoned(st.inodes, st'.inodes, x => if x == c then -1 else 0, x => if x == p then -2 * |name| else 0)
    && BodiesKept(st, st')
  }

  lemma {:induction false} RemovedFrame(st: State, h: Hash, i: nat, c: nat, p: nat, name: string)
    requires Consistent(st, h) && Named(st, i, c, p, name)
    ensures RemoveFrame(st, Removed(st, h, c, p, name), c, p, name)
  {
    hide Agree, WithoutRef, WithoutEntry, Links, DirSize;
    assert InodeRight(st.inodes[p], p, st.index);
    DropCounts(st.index, i, p);
  }

  /** A rename takes one link of a replaced destination, and with the last its inode and data; the old parent
      shrinks by twice the old name, the new one grows by twice the new name unless that was there. */
  ghost predicate RenameFrame(st: State, st': State, dst: Option<DirItem>, op: nat, on: string, np: nat, nn: string) {
    && (forall x :: x in st'.inodes <==>
            x in st.inodes && (dst.Some? && x == dst.value.child ==> st.inodes[x].nlink > 1))
    && Reckoned(st.inodes, st'.inodes, x => if dst.Some? && x == dst.value.child then -1 else 0,
                x => (if x == op then -2 * |on| else 0) + (if x == np && dst.None? then 2 * |nn| else 0))
    && BodiesKept(st, st')
  }

  lemma {:induction false} MovedFrame(st: State, h: Hash, i: nat, d: DirItem, op: nat, on: string, np: nat, nn: string)
    requires Consistent(st, h) && Source(st, i, d, op, on) && np in st.inodes
    ensures RenameFrame(st, MovedEntry(st, h, d, op, on, np, nn), None, op, on, np, nn)
  {
    hide Agree, WithoutRef, WithRef, WithoutEntry, Links, DirSize, NextIdx;
    assert InodeRight(st.inodes[op], op, st.index);
    DropCounts(st.index, i, op);
  }

  lemma {:induction false} RenamedFrame(st: State, h: Hash, op: nat, on: string, np: nat, nn: string)
    requires Consistent(st, h) && Renamed(st, h, op, on, np, nn).Moved? && np in st.inodes && !(op == np && on == nn)
    ensures RenameFrame(st, Renamed(st, h, op, on, np, nn).st, Lookup(st, h, np, nn), op, on, np, nn)
  {
    hide Agree, Grounded, Counted, Lookup, MovedEntry, Removed;
    var s1, dst := Cleared(st, h, np, nn), Lookup(st, h, np, nn);
    ClearedKeeps(st, h, np, nn, op, on);
    var j := LookupEntry(s1, h, op, on);
    if dst.Some? {
      var i := LookupEntry(st, h, np, nn);
      FileEntry(st, h, i, dst.value, np, nn);
      RemovedFrame(st, h, i, dst.value.child, np, nn);
    }
    MovedFrame(s1, h, j, Lookup(st, h, op, on).value, op, on, np, nn);
  }

  // ---- refusals -----------------------------------------------------------------------------------------

  /** Which operations the driver refuses, said of entries and kinds. */
  ghost predicate Refused(st: State, o: Op) {
    match o
    case Make(_, p, name, _, _) => InDir(st.index, p, name)
    case Link(c, p, name) => c !in st.inodes || st.inodes[c].kind == Dir || InDir(st.index, p, name)
    case Unlink(p, name) => !InDir(st.index, p, name) || DirInDir(st, p, name)
    case RemoveDir(p, name) => !DirInDir(st, p, name)
    case Move(op, on, np, nn) => !InDir(st.index, op, on) || DirInDir(st, np, nn)
  }

  /** A refused operation changes nothing; any other adds, removes or replaces an entry, or renames one onto
      itself. */
  lemma {:induction false} RefusedIff(st: State, h: Hash, o: Op)
    requires Good(st, h) && Resolved(st, o)
    ensures Refused(st, o) ==> Step(st, h, o) == st
    ensures Step(st, h, o).index == st.index ==> Refused(st, o) || (o.Move? && o.op == o.np && o.on == o.nn)
  {
    hide Agree, Counted, Grounded, IsTree, Lookup, NextIdx, WithoutRef, WithRef, InDir, DirInDir;
    match o
    case Make(_, p, name, _, _) => LookupMeans(st, h, p, name);
    case Link(_, p, name) => LookupMeans(st, h, p, name);
    case Unlink(p, name) =>
      LookupMeans(st, h, p, name);
      if Lookup(st, h, p, name).Some? && Lookup(st, h, p, name).value.kind != Dir {
        var i := LookupEntry(st, h, p, name);
        FileEntry(st, h, i, Lookup(st, h, p, name).value, p, name);
        RemovedDrops(st, h, i, Lookup(st, h, p, name).value.child, p, name);
      }
    case RemoveDir(p, name) =>
      LookupMeans(st, h, p, name);
      if Lookup(st, h, p, name).Some? && Lookup(st, h, p, name).value.kind == Dir {
        hide Step;
        var i := LookupEntry(st, h, p, name);
        RemoveDirGone(st, h, p, name, st.index[i], p, name);
        assert st.index[i] in st.index;
      }
    case Move(op, on, np, nn) =>
      RenamedWhen(st, h, op, on, np, nn);
      if Renamed(st, h, op, on, np, nn).Moved? && !(op == np && on == nn) {
        SourceGone(st, h, op, on, np, nn);
      }
  }

  lemma {:induction false} SourceGone(st: State, h: Hash, op: nat, on: string, np: nat, nn: string)
    requires Consistent(st, h) && Renamed(st, h, op, on, np, nn).Moved? && !(op == np && on == nn)
    ensures Renamed(st, h, op, on, np, nn).st.index != st.index
  {
    hide Agree, Grounded, Counted, Lookup, Cleared, MovedEntry, Removed, NextIdx, Rest, Distinct;
    var s1, d := Cleared(st, h, np, nn), Lookup(st, h, op, on).value;
    var i := LookupEntry(st, h, op, on);
    ClearedKeeps(st, h, np, nn, op, on);
    var j := LookupEntry(s1, h, op, on);
    MovedIndex(s1, h, j, d, op, on, np, nn);
    AgreeDistinct(s1, h);
    RestHas(s1.index, h, j, st.index[i]);
    assert st.index[i] in st.index;
  }

  // ---- runs ---------------------------------------------------------------------------------------------

  /** Inode x is the same in both states: its kind, the size of a file, and whether it has data. */
  ghost predicate Same(st: State, st': State, x: nat)
    requires x in st.inodes && x in st'.inodes
  {
    && st'.inodes[x].kind == st.inodes[x].kind && (x in st'.bodies <==> x in st.bodies)
    && (st.inodes[x].kind != Dir ==> st'.inodes[x].size == st.inodes[x].size)
  }

  /** No operation changes an inode it leaves. */
  lemma {:induction false} StepKeeps(st: State, h: Hash, o: Op, x: nat)
    requires Good(st, h) && Resolved(st, o) && Safe(st, h, o) && x in st.inodes && x in Step(st, h, o).inodes
    ensures Same(st, Step(st, h, o), x)
  {
    hide Agree, Counted, IsTree, Lookup, Taken, Created, Linked, Removed, Renamed, Below, NoClash;
    match o
    case Make(ino, p, name, kind, len) =>
      CreatedFrame(st, h, ino, p, name, kind, if kind == Dir then 0 else len);
    case Link(c, p, name) =>
      if c in st.inodes {
        LinkedFrame(st, h, c, p, name);
      }
    case Unlink(p, name) =>
      if Lookup(st, h, p, name).Some? && Lookup(st, h, p, name).value.kind != Dir {
        var i := LookupEntry(st, h, p, name);
        FileEntry(st, h, i, Lookup(st, h, p, name).value, p, name);
        RemovedFrame(st, h, i, Lookup(st, h, p, name).value.child, p, name);
      }
    case RemoveDir(p, name) =>
      hide Keep, ItemsOf, RefMap, Outside;
    case Move(op, on, np, nn) =>
      if Renamed(st, h, op, on, np, nn).Moved? {
        SourceFound(st, h, op, on, np, nn);
        var i := LookupEntry(st, h, op, on);
        RenamedFrame(st, h, op, on, np, nn);
      }
  }

  /** So a file that a run never removes keeps its size and its data, whatever happens around it. */
  lemma {:induction false} RunKeeps(st: State, h: Hash, os: seq<Op>, x: nat)
    requires Good(st, h) && ResolvedRun(st, h, os) && SafeRun(st, h, os)
    requires forall n :: 0 <= n <= |os| ==> x in Run(st, h, os[..n]).inodes
    ensures x in st.inodes && x in Run(st, h, os).inodes && Same(st, Run(st, h, os), x)
    decreases |os|
  {
    hide Good, Safe, Step, Resolved;
    assert os[..0] == [] && os[..|os|] == os;
    if os != [] {
      var next := Step(st, h, os[0]);
      forall n | 0 <= n <= |os[1..]| ensures Run(next, h, os[1..][..n]) == Run(st, h, os[..n + 1]) {
        assert os[..n + 1][1..] == os[1..][..n];
      }
      assert os[1..][..0] == [];
      StepIff(st, h, os[0]);
      StepKeeps(st, h, os[0], x);
      RunKeeps(next, h, os[1..], x);
    }
  }
}
