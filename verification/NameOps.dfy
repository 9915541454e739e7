/** Creating, linking, removing and renaming (write.go, mkdir.go, link.go, delete.go, rename.go) as
    transformations of the recorded namespace, and exactly when they keep it consistent. */
module NameOps {
  import opened Keys
  import opened Names
  import opened NamesKeep

  /** nextInodeNum: one more than the largest inode number. */
  ghost predicate IsNext(st: State, ino: nat) {
    && ino > ROOT && (forall c :: c in st.inodes ==> c < ino)
    && (ino - 1 == ROOT || ino - 1 in st.inodes)
  }

  // ---- create ---------------------------------------------------------------------------------------

  function NewEntry(st: State, p: nat, name: string, c: nat, kind: Kind): Entry {
    Entry(p, NextIdx(st.index, p), DirItem(c, kind, name))
  }

  /** createInodeWithDirEntry and makeDir. */
  function Created(st: State, h: Hash, ino: nat, p: nat, name: string, kind: Kind, len: nat): State {
    var e := NewEntry(st, p, name, ino, kind);
    State(Resize(st.inodes[ino := Inode(kind, 1, len)], p, NameSize(name)),
          if kind == Dir then st.bodies else st.bodies + {ino},
          st.index + [e], st.items[(p, h(name)) := e.d], st.refs[(ino, p) := [Ref(e.idx, name)]])
  }

  lemma {:induction false} NewFresh(st: State, h: Hash, p: nat, name: string, c: nat, kind: Kind)
    requires !Taken(st.index, h, p, name)
    ensures Fresh(st.index, h, NewEntry(st, p, name, c, kind))
  {
    hide Taken;
  }

  /** Nothing in a consistent namespace mentions an inode that does not exist. */
  lemma {:induction false} AbsentGone(st: State, h: Hash, c: nat)
    requires Consistent(st, h) && c !in st.inodes
    ensures Links(st.index, c) == 0 && DirSize(st.index, c) == 0 && c !in st.bodies
    ensures forall i :: 0 <= i < |st.index| ==> st.index[i].parent != c && st.index[i].d.child != c
    ensures forall k :: k in st.items ==> k.0 != c && st.items[k].child != c
    ensures forall k :: k in st.refs ==> k.0 != c && k.1 != c
  {
    hide ItemAt, RefsOf, Counted;
    LinksZero(st.index, c);
    DirSizeZero(st.index, c);
    forall k | k in st.items
      ensures k.0 != c && st.items[k].child != c
    {
      assert ItemAt(st.index, h, k.0, k.1) == if (k.0, k.1) in st.items then Some(st.items[(k.0, k.1)]) else None;
      ItemFrom(st.index, h, k.0, k.1);
    }
    forall k | k in st.refs
      ensures k.0 != c && k.1 != c
    {
      assert RefsOf(st.index, k.0, k.1) == RefsHere(st.refs, k.0, k.1);
      var r := st.refs[k][0];
      RefFrom(st.index, k.0, k.1, r);
    }
  }

  lemma {:induction false} CreatedAdds(st: State, h: Hash, ino: nat, p: nat, name: string, kind: Kind, len: nat)
    requires Consistent(st, h) && IsNext(st, ino)
    ensures var st' := Created(st, h, ino, p, name, kind, len);
            var a := AddEntry(st, h, NewEntry(st, p, name, ino, kind));
            st'.index == a.index && st'.items == a.items && st'.refs == a.refs
  {
    hide Consistent, NextIdx;
    AbsentGone(st, h, ino);
    assert (ino, p) !in st.refs;
    var e := NewEntry(st, p, name, ino, kind);
    assert RefsHere(st.refs, ino, p) + [Ref(e.idx, name)] == [Ref(e.idx, name)];
  }

  lemma {:induction false} AgreeOf(st: State, st': State, h: Hash)
    requires Agree(st, h) && st'.index == st.index && st'.items == st.items && st'.refs == st.refs
    ensures Agree(st', h)
  {
  }

  lemma {:induction false} CreatedCounted(st: State, h: Hash, ino: nat, p: nat, name: string, kind: Kind, len: nat)
    requires Consistent(st, h) && IsNext(st, ino) && p in st.inodes && st.inodes[p].kind == Dir
    requires kind == Dir ==> len == 0
    ensures var st' := Created(st, h, ino, p, name, kind, len);
            Counted(st'.inodes, st'.index)
  {
    hide NextIdx, Agree, Links, DirSize;
    var st', e := Created(st, h, ino, p, name, kind, len), NewEntry(st, p, name, ino, kind);
    AbsentGone(st, h, ino);
    forall c | c in st'.inodes
      ensures InodeRight(st'.inodes[c], c, st'.index)
    {
      AddCounts(st.index, e, c);
      if c != ino {
        assert InodeRight(st.inodes[c], c, st.index);
      }
    }
  }

  lemma {:induction false} CreatedGrounded(st: State, h: Hash, ino: nat, p: nat, name: string, kind: Kind, len: nat)
    requires Consistent(st, h) && IsNext(st, ino) && p in st.inodes && st.inodes[p].kind == Dir
    ensures var st' := Created(st, h, ino, p, name, kind, len); Grounded(st'.inodes, st'.index)
  {
    hide NextIdx, Agree, Counted;
  }

  /** Creating keeps the namespace consistent exactly when the parent is a directory in which the name's
      hash is free. The driver checks neither. */
  lemma {:induction false} CreatedIff(st: State, h: Hash, ino: nat, p: nat, name: string, kind: Kind, len: nat)
    requires Consistent(st, h) && IsNext(st, ino) && p in st.inodes && (kind == Dir ==> len == 0)
    ensures Consistent(Created(st, h, ino, p, name, kind, len), h) <==>
            st.inodes[p].kind == Dir && !Taken(st.index, h, p, name)
  {
    hide Distinct, ItemsMatch, RefsMatch, Taken, Links, DirSize, NextIdx;
    var st', e := Created(st, h, ino, p, name, kind, len), NewEntry(st, p, name, ino, kind);
    CreatedAdds(st, h, ino, p, name, kind, len);
    if Taken(st.index, h, p, name) {
      ClashDisagrees(st, h, e);
    } else if st.inodes[p].kind != Dir {
      assert st'.index[|st.index|] == e;
    } else {
      NewFresh(st, h, p, name, ino, kind);
      AddAgrees(st, h, e);
      AgreeOf(AddEntry(st, h, e), st', h);
      CreatedCounted(st, h, ino, p, name, kind, len);
      CreatedGrounded(st, h, ino, p, name, kind, len);
    }
  }

  /** After a create the new name finds the new inode and every other lookup is as before. */
  lemma {:induction false} CreatedLookup(st: State, h: Hash, ino: nat, p: nat, name: string, kind: Kind, len: nat,
                                         q: nat, other: string)
    requires Consistent(st, h) && Consistent(Created(st, h, ino, p, name, kind, len), h)
    requires IsNext(st, ino) && p in st.inodes && (kind == Dir ==> len == 0)
    ensures Lookup(Created(st, h, ino, p, name, kind, len), h, q, other) ==
            if q == p && other == name then Some(DirItem(ino, kind, name)) else Lookup(st, h, q, other)
  {
    hide Agree, Grounded, Counted, Lookup, IndexLookup, Taken, NextIdx, Links;
    var st', e := Created(st, h, ino, p, name, kind, len), NewEntry(st, p, name, ino, kind);
    CreatedIff(st, h, ino, p, name, kind, len);
    NewFresh(st, h, p, name, ino, kind);
    LookupIs(st, h, q, other);
    LookupIs(st', h, q, other);
    AgreeDistinct(st, h);
    AddLookup(st.index, h, e, q, other);
  }

  lemma {:induction false} AgreeDistinct(st: State, h: Hash)
    requires Agree(st, h)
    ensures Distinct(st.index, h)
  {
  }

  // ---- link -----------------------------------------------------------------------------------------

  function MoreLinks(inodes: map<nat, Inode>, c: nat, delta: int): map<nat, Inode>
    requires c in inodes && inodes[c].nlink + delta >= 0
  {
    inodes[c := inodes[c].(nlink := inodes[c].nlink + delta)]
  }

  /** linkInode, from the source inode on. */
  function Linked(st: State, h: Hash, c: nat, p: nat, name: string): State
    requires c in st.inodes
  {
    var a := AddEntry(st, h, NewEntry(st, p, name, c, st.inodes[c].kind));
    a.(inodes := Resize(MoreLinks(st.inodes, c, 1), p, NameSize(name)))
  }

  lemma {:induction false} LinkedCounted(st: State, h: Hash, c: nat, p: nat, name: string)
    requires Consistent(st, h) && c in st.inodes && st.inodes[c].kind != Dir && p in st.inodes
             && st.inodes[p].kind == Dir
    ensures var st' := Linked(st, h, c, p, name); Counted(st'.inodes, st'.index) && Grounded(st'.inodes, st'.index)
  {
    hide NextIdx, Agree, WithRef;
    var st', e := Linked(st, h, c, p, name), NewEntry(st, p, name, c, st.inodes[c].kind);
    assert InodeRight(st.inodes[ROOT], ROOT, st.index);
    forall x | x in st'.inodes
      ensures InodeRight(st'.inodes[x], x, st'.index)
    {
      AddCounts(st.index, e, x);
      assert InodeRight(st.inodes[x], x, st.index);
    }
  }

  /** Linking a file keeps the namespace consistent exactly when the new parent is a directory in which
      the name's hash is free. */
  lemma {:induction false} LinkedIff(st: State, h: Hash, c: nat, p: nat, name: string)
    requires Consistent(st, h) && c in st.inodes && st.inodes[c].kind != Dir && p in st.inodes
    ensures Consistent(Linked(st, h, c, p, name), h) <==> st.inodes[p].kind == Dir && !Taken(st.index, h, p, name)
  {
    hide Distinct, ItemsMatch, RefsMatch, Taken, Links, DirSize, NextIdx, WithRef;
    var st', e := Linked(st, h, c, p, name), NewEntry(st, p, name, c, st.inodes[c].kind);
    if Taken(st.index, h, p, name) {
      ClashDisagrees(st, h, e);
    } else if st.inodes[p].kind != Dir {
      assert st'.index[|st.index|] == e;
    } else {
      NewFresh(st, h, p, name, c, st.inodes[c].kind);
      AddAgrees(st, h, e);
      AgreeOf(AddEntry(st, h, e), st', h);
      LinkedCounted(st, h, c, p, name);
    }
  }

  // ---- remove -----------------------------------------------------------------------------------------

  /** removeInode: one name of several, or the inode with its last name. */
  function Removed(st: State, h: Hash, c: nat, p: nat, name: string): State {
    if c in st.inodes && st.inodes[c].nlink > 1 then
      var d := DropEntry(st, h, c, p, name);
      d.(inodes := Resize(MoreLinks(st.inodes, c, -1), p, 0 - NameSize(name)))
    else
      State(Resize(st.inodes - {c}, p, 0 - NameSize(name)), st.bodies - {c},
            WithoutEntry(st.index, p, name), st.items - {(p, h(name))}, st.refs - {(c, p)})
  }

  /** No entry is in the directory. */
  ghost predicate EmptyDir(s: seq<Entry>, d: nat) {
    forall i :: 0 <= i < |s| ==> s[i].parent != d
  }

  /** Entry i is the one named, and its parent is not its child. */
  ghost predicate Named(st: State, i: nat, c: nat, p: nat, name: string) {
    i < |st.index| && st.index[i].parent == p && st.index[i].d.name == name && st.index[i].d.child == c && c != p
  }

  lemma {:induction false} LastRef(st: State, h: Hash, i: nat, c: nat, p: nat, name: string)
    requires Consistent(st, h) && Named(st, i, c, p, name) && st.inodes[c].nlink <= 1
    ensures Links(st.index, c) == 1
    ensures WithoutRef(st.refs, c, p, name) == st.refs - {(c, p)}
  {
    hide RefsOf, Links, DirSize, Distinct, ItemsMatch, WithoutName;
    assert InodeRight(st.inodes[c], c, st.index);
    LinksPositive(st.index, i);
    assert RefsOf(st.index, c, p) == RefsHere(st.refs, c, p);
    RefsBound(st.index, c, p);
    RefFrom(st.index, c, p, Ref(st.index[i].idx, name));
    assert st.refs[(c, p)] == [Ref(st.index[i].idx, name)];
    WithoutNameOne(Ref(st.index[i].idx, name));
  }

  lemma {:induction false} LinksPositive(s: seq<Entry>, i: nat)
    requires i < |s|
    ensures Links(s, s[i].d.child) > 0
  {
    LinksZero(s, s[i].d.child);
  }

  lemma {:induction false} RemovedDrops(st: State, h: Hash, i: nat, c: nat, p: nat, name: string)
    requires Consistent(st, h) && Named(st, i, c, p, name)
    ensures var st', d := Removed(st, h, c, p, name), DropEntry(st, h, c, p, name);
            && st'.index == d.index == st.index[..i] + st.index[i + 1..] && st'.items == d.items && st'.refs == d.refs
            && Agree(st', h)
  {
    hide Agree, Counted, FindName, WithoutRef, Links;
    var st' := Removed(st, h, c, p, name);
    assert st.index[i] in st.index;
    DropAgrees(st, h, i);
    if st.inodes[c].nlink <= 1 {
      LastRef(st, h, i, c, p, name);
    }
    AgreeOf(DropEntry(st, h, c, p, name), st', h);
  }

  lemma {:induction false} RemovedCounted(st: State, h: Hash, i: nat, c: nat, p: nat, name: string)
    requires Consistent(st, h) && Named(st, i, c, p, name) && EmptyDir(st.index, c)
    ensures var st' := Removed(st, h, c, p, name); Counted(st'.inodes, st'.index)
  {
    hide Agree, FindName, WithoutRef, WithoutEntry, Links, DirSize;
    var st' := Removed(st, h, c, p, name);
    RemovedDrops(st, h, i, c, p, name);
    LinksPositive(st.index, i);
    if st.inodes[c].nlink <= 1 {
      LastRef(st, h, i, c, p, name);
    }
    assert InodeRight(st.inodes[c], c, st.index);
    forall x | x in st'.inodes
      ensures InodeRight(st'.inodes[x], x, st'.index)
    {
      DropCounts(st.index, i, x);
      assert InodeRight(st.inodes[x], x, st.index);
    }
  }

  lemma {:induction false} RemovedGrounded(st: State, h: Hash, i: nat, c: nat, p: nat, name: string)
    requires Consistent(st, h) && Named(st, i, c, p, name) && EmptyDir(st.index, c)
    ensures var st' := Removed(st, h, c, p, name); Grounded(st'.inodes, st'.index)
  {
    hide Agree, FindName, WithoutRef, WithoutEntry, Links, DirSize;
    var st' := Removed(st, h, c, p, name);
    RemovedDrops(st, h, i, c, p, name);
    DropCounts(st.index, i, c);
    if st.inodes[c].nlink <= 1 {
      LastRef(st, h, i, c, p, name);
      LinksZero(st'.index, c);
    }
    forall x | 0 <= x < |st'.index|
      ensures st'.index[x] == st.index[if x < i then x else x + 1]
    {
    }
  }

  /** Removing a name keeps the namespace consistent exactly when it is no directory with entries. */
  lemma {:induction false} RemovedIff(st: State, h: Hash, i: nat, c: nat, p: nat, name: string)
    requires Consistent(st, h) && Named(st, i, c, p, name)
    ensures Consistent(Removed(st, h, c, p, name), h) <==> EmptyDir(st.index, c)
  {
    hide Agree, FindName, WithoutRef, WithoutEntry, Links, DirSize;
    var st' := Removed(st, h, c, p, name);
    RemovedDrops(st, h, i, c, p, name);
    RootStays(st, h, i, c, p, name);
    if EmptyDir(st.index, c) {
      RemovedCounted(st, h, i, c, p, name);
      RemovedGrounded(st, h, i, c, p, name);
    } else {
      var j :| 0 <= j < |st.index| && st.index[j].parent == c;
      assert st.inodes[c].kind == Dir;
      assert InodeRight(st.inodes[c], c, st.index);
      var m := if j < i then j else j - 1;
      assert st'.index[m] == st.index[j];
    }
  }

  lemma {:induction false} RootStays(st: State, h: Hash, i: nat, c: nat, p: nat, name: string)
    requires Consistent(st, h) && Named(st, i, c, p, name)
    ensures var st' := Removed(st, h, c, p, name);
            ROOT in st'.inodes && st'.inodes[ROOT].kind == Dir && st'.bodies <= st'.inodes.Keys
  {
    hide Agree, Counted, WithoutRef, WithoutEntry;
    assert st.index[i].d.child != ROOT;
  }

  /** After a removal the name is gone, every other lookup is as before, and an inode that lost its last
      name has left nothing behind. */
  lemma {:induction false} RemovedLookup(st: State, h: Hash, i: nat, c: nat, p: nat, name: string, q: nat,
                                         other: string)
    requires Consistent(st, h) && Named(st, i, c, p, name)
    ensures Lookup(Removed(st, h, c, p, name), h, q, other) ==
            if q == p && other == name then None else Lookup(st, h, q, other)
    ensures c in Removed(st, h, c, p, name).inodes <==> Links(st.index, c) > 1
  {
    hide Agree, FindName, WithoutRef, WithoutEntry, Links, Lookup, IndexLookup;
    RemovedDrops(st, h, i, c, p, name);
    LookupIs(st, h, q, other);
    LookupIs(Removed(st, h, c, p, name), h, q, other);
    AgreeDistinct(st, h);
    DropLookup(st.index, h, i, q, other);
    LinksPositive(st.index, i);
    assert InodeRight(st.inodes[c], c, st.index);
  }
}
