/** Renaming (rename.go): what it does to the recorded namespace, when it keeps it consistent, and when it
    keeps the directories a tree. */
module NameMove {
  import opened Keys
  import opened Names
  import opened NamesKeep
  import opened NameOps

  datatype Renaming = NoSource | IsDirectory | Moved(st: State)

  /** The destination's old entry removed. */
  function Cleared(st: State, h: Hash, np: nat, nn: string): State {
    var dst := Lookup(st, h, np, nn);
    if dst.Some? then Removed(st, h, dst.value.child, np, nn) else st
  }

  /** The source entry taken out and put in again under its new name. */
  function MovedEntry(st: State, h: Hash, d: DirItem, op: nat, on: string, np: nat, nn: string): State {
    var s2 := DropEntry(st, h, d.child, op, on);
    var s3 := AddEntry(s2, h, NewEntry(s2, np, nn, d.child, d.kind));
    s3.(inodes := Resize(Resize(s3.inodes, op, 0 - NameSize(on)), np, NameSize(nn)))
  }

  /** renameEntry, from the two parents on. */
  function Renamed(st: State, h: Hash, op: nat, on: string, np: nat, nn: string): Renaming {
    var src, dst := Lookup(st, h, op, on), Lookup(st, h, np, nn);
    if src.None? then NoSource
    else if dst.Some? && dst.value.kind == Dir then IsDirectory
    else Moved(MovedEntry(Cleared(st, h, np, nn), h, src.value, op, on, np, nn))
  }

  // ---- moving one entry ------------------------------------------------------------------------------

  /** Entry i is the one the source name finds. */
  ghost predicate Source(st: State, i: nat, d: DirItem, op: nat, on: string) {
    i < |st.index| && st.index[i].parent == op && st.index[i].d == d && d.name == on
  }

  function Rest(s: seq<Entry>, i: nat): seq<Entry>
    requires i < |s|
  {
    s[..i] + s[i + 1..]
  }

  lemma {:induction false} MovedIndex(st: State, h: Hash, i: nat, d: DirItem, op: nat, on: string, np: nat, nn: string)
    requires Agree(st, h) && Source(st, i, d, op, on)
    ensures var s2 := DropEntry(st, h, d.child, op, on);
            && s2.index == Rest(st.index, i) && Agree(s2, h)
            && MovedEntry(st, h, d, op, on, np, nn).index == Rest(st.index, i) + [NewEntry(s2, np, nn, d.child, d.kind)]
  {
    hide Agree, NextIdx, WithoutEntry, WithoutRef, WithRef;
    DropAgrees(st, h, i);
  }

  lemma {:induction false} MovedCounted(st: State, h: Hash, i: nat, d: DirItem, op: nat, on: string, np: nat,
                                        nn: string)
    requires Consistent(st, h) && Source(st, i, d, op, on) && np in st.inodes && st.inodes[np].kind == Dir
    ensures var st' := MovedEntry(st, h, d, op, on, np, nn); Counted(st'.inodes, st'.index)
  {
    hide Agree, NextIdx, WithoutEntry, WithoutRef, WithRef, Links, DirSize;
    var st' := MovedEntry(st, h, d, op, on, np, nn);
    var e := NewEntry(DropEntry(st, h, d.child, op, on), np, nn, d.child, d.kind);
    MovedIndex(st, h, i, d, op, on, np, nn);
    forall x | x in st'.inodes
      ensures InodeRight(st'.inodes[x], x, st'.index)
    {
      DropCounts(st.index, i, x);
      AddCounts(Rest(st.index, i), e, x);
      assert InodeRight(st.inodes[x], x, st.index);
    }
  }

  lemma {:induction false} MovedGrounded(st: State, h: Hash, i: nat, d: DirItem, op: nat, on: string, np: nat,
                                         nn: string)
    requires Consistent(st, h) && Source(st, i, d, op, on) && np in st.inodes && st.inodes[np].kind == Dir
    ensures var st' := MovedEntry(st, h, d, op, on, np, nn); Grounded(st'.inodes, st'.index)
  {
    hide Agree, NextIdx, WithoutEntry, WithoutRef, WithRef, Counted;
    var st' := MovedEntry(st, h, d, op, on, np, nn);
    MovedIndex(st, h, i, d, op, on, np, nn);
    forall x | 0 <= x < |st.index| - 1
      ensures st'.index[x] == st.index[if x < i then x else x + 1]
    {
    }
  }

  /** Moving keeps a consistent namespace consistent exactly when the new parent is a directory in which,
      the moved entry aside, the new name's hash is free. */
  lemma {:induction false} MovedIff(st: State, h: Hash, i: nat, d: DirItem, op: nat, on: string, np: nat, nn: string)
    requires Consistent(st, h) && Source(st, i, d, op, on)
    ensures Consistent(MovedEntry(st, h, d, op, on, np, nn), h) <==>
            np in st.inodes && st.inodes[np].kind == Dir && !Taken(Rest(st.index, i), h, np, nn)
  {
    hide Agree, NextIdx, WithoutEntry, WithoutRef, WithRef, Links, DirSize, Taken, Counted, Distinct;
    var st' := MovedEntry(st, h, d, op, on, np, nn);
    var s2 := DropEntry(st, h, d.child, op, on);
    var e := NewEntry(s2, np, nn, d.child, d.kind);
    MovedIndex(st, h, i, d, op, on, np, nn);
    if Taken(Rest(st.index, i), h, np, nn) {
      ClashDisagrees(s2, h, e);
      NotAgree(st', h);
    } else if !(np in st.inodes && st.inodes[np].kind == Dir) {
      assert st'.index[|st'.index| - 1] == e;
      assert !Grounded(st'.inodes, st'.index);
    } else {
      NewFresh(s2, h, np, nn, d.child, d.kind);
      AddAgrees(s2, h, e);
      AgreeOf(AddEntry(s2, h, e), st', h);
      MovedCounted(st, h, i, d, op, on, np, nn);
      MovedGrounded(st, h, i, d, op, on, np, nn);
    }
  }

  lemma {:induction false} NotAgree(st: State, h: Hash)
    requires !Distinct(st.index, h)
    ensures !Agree(st, h)
  {
  }

  lemma {:induction false} MovedLookup(st: State, h: Hash, i: nat, d: DirItem, op: nat, on: string, np: nat,
                                       nn: string, q: nat, name: string)
    requires Consistent(st, h) && Source(st, i, d, op, on)
    requires Consistent(MovedEntry(st, h, d, op, on, np, nn), h)
    ensures Lookup(MovedEntry(st, h, d, op, on, np, nn), h, q, name) ==
            if q == np && name == nn then Some(DirItem(d.child, d.kind, nn))
            else if q == op && name == on then None
            else Lookup(st, h, q, name)
  {
    hide Agree, NextIdx, WithoutEntry, WithoutRef, WithRef, Links, DirSize, Taken, Counted, Distinct, Grounded, Lookup,
         IndexLookup;
    var st' := MovedEntry(st, h, d, op, on, np, nn);
    var s2 := DropEntry(st, h, d.child, op, on);
    var e := NewEntry(s2, np, nn, d.child, d.kind);
    MovedIff(st, h, i, d, op, on, np, nn);
    MovedIndex(st, h, i, d, op, on, np, nn);
    NewFresh(s2, h, np, nn, d.child, d.kind);
    LookupIs(st, h, q, name);
    LookupIs(st', h, q, name);
    AgreeDistinct(st, h);
    AgreeDistinct(s2, h);
    DropLookup(st.index, h, i, q, name);
    AddLookup(s2.index, h, e, q, name);
  }

  // ---- the whole rename --------------------------------------------------------------------------------

  /** The entry a successful lookup comes from. */
  lemma {:induction false} LookupEntry(st: State, h: Hash, p: nat, name: string) returns (i: nat)
    requires Agree(st, h) && Lookup(st, h, p, name).Some?
    ensures Source(st, i, Lookup(st, h, p, name).value, p, name)
  {
    hide Agree;
    LookupIs(st, h, p, name);
    i := FindName(st.index, p, name);
  }

  /** A found file is no directory with entries, nor its own parent. */
  lemma {:induction false} FileEntry(st: State, h: Hash, i: nat, d: DirItem, p: nat, name: string)
    requires Consistent(st, h) && Source(st, i, d, p, name) && d.kind != Dir
    ensures Named(st, i, d.child, p, name) && EmptyDir(st.index, d.child)
  {
    hide Agree, Counted;
  }

  /** Clearing the destination keeps the namespace consistent and every other lookup. */
  lemma {:induction false} ClearedKeeps(st: State, h: Hash, np: nat, nn: string, q: nat, name: string)
    requires Consistent(st, h) && (Lookup(st, h, np, nn).Some? ==> Lookup(st, h, np, nn).value.kind != Dir)
    ensures Consistent(Cleared(st, h, np, nn), h)
    ensures Lookup(Cleared(st, h, np, nn), h, q, name) == if q == np && name == nn then None else Lookup(st, h, q, name)
  {
    hide Agree, Grounded, Counted, Lookup, Removed, Links;
    var dst := Lookup(st, h, np, nn);
    if dst.Some? {
      var i := LookupEntry(st, h, np, nn);
      FileEntry(st, h, i, dst.value, np, nn);
      RemovedIff(st, h, i, dst.value.child, np, nn);
      RemovedLookup(st, h, i, dst.value.child, np, nn, q, name);
    }
  }

  /** Clearing removes the destination's entry, a file's, and nothing else from the index; directories stay. */
  lemma {:induction false} ClearedIndex(st: State, h: Hash, np: nat, nn: string, e: Entry)
    requires Consistent(st, h) && (Lookup(st, h, np, nn).Some? ==> Lookup(st, h, np, nn).value.kind != Dir)
    ensures e in Cleared(st, h, np, nn).index <==> e in st.index && !(e.parent == np && e.d.name == nn)
    ensures forall x :: x in st.inodes && st.inodes[x].kind == Dir ==>
              x in Cleared(st, h, np, nn).inodes && Cleared(st, h, np, nn).inodes[x].kind == Dir
    ensures forall x :: x in Cleared(st, h, np, nn).inodes ==>
            x in st.inodes && Cleared(st, h, np, nn).inodes[x].kind == st.inodes[x].kind
  {
    hide Agree, Counted, Lookup, Links, WithoutRef, WithoutEntry;
    var dst := Lookup(st, h, np, nn);
    AgreeDistinct(st, h);
    if dst.Some? {
      var i := LookupEntry(st, h, np, nn);
      FileEntry(st, h, i, dst.value, np, nn);
      RemovedDrops(st, h, i, dst.value.child, np, nn);
      RestHas(st.index, h, i, e);
    } else {
      NoneNamed(st, h, np, nn);
    }
  }

  lemma {:induction false} NoneNamed(st: State, h: Hash, p: nat, name: string)
    requires Agree(st, h) && Lookup(st, h, p, name).None?
    ensures forall i :: 0 <= i < |st.index| ==> !(st.index[i].parent == p && st.index[i].d.name == name)
  {
    hide Agree;
    LookupIs(st, h, p, name);
  }

  lemma {:induction false} RestHas(s: seq<Entry>, h: Hash, i: nat, e: Entry)
    requires Distinct(s, h) && i < |s|
    ensures e in Rest(s, i) <==> e in s && !(e.parent == s[i].parent && e.d.name == s[i].d.name)
  {
    var r := Rest(s, i);
    if e in r {
      var k :| 0 <= k < |r| && r[k] == e;
      assert r[k] == s[if k < i then k else k + 1];
    }
    if e in s && !(e.parent == s[i].parent && e.d.name == s[i].d.name) {
      var j :| 0 <= j < |s| && s[j] == e;
      assert r[if j < i then j else j - 1] == e;
    }
  }

  /** Every entry of the new parent with the new name's hash is the destination or the source itself. */
  ghost predicate NoClash(s: seq<Entry>, h: Hash, op: nat, on: string, np: nat, nn: string) {
    forall e :: e in s && e.parent == np && h(e.d.name) == h(nn) ==>
        e.d.name == nn || (e.parent == op && e.d.name == on)
  }

  lemma {:induction false} UntakenHas(s: seq<Entry>, h: Hash, p: nat, name: string, e: Entry)
    requires !Taken(s, h, p, name)
    ensures !(e in s && e.parent == p && h(e.d.name) == h(name))
  {
    if e in s {
      var j :| 0 <= j < |s| && s[j] == e;
    }
  }

  lemma {:induction false} NoClashIff(st: State, h: Hash, op: nat, on: string, np: nat, nn: string, i: nat)
    requires Consistent(st, h) && (Lookup(st, h, np, nn).Some? ==> Lookup(st, h, np, nn).value.kind != Dir)
    requires var c := Cleared(st, h, np, nn);
             Distinct(c.index, h) && i < |c.index| && c.index[i].parent == op && c.index[i].d.name == on
    ensures !Taken(Rest(Cleared(st, h, np, nn).index, i), h, np, nn) <==> NoClash(st.index, h, op, on, np, nn)
  {
    hide Consistent, Lookup, Cleared, Distinct, Rest;
    var s1 := Cleared(st, h, np, nn).index;
    var r := Rest(s1, i);
    forall e
      ensures e in r <==> e in st.index && !(e.parent == np && e.d.name == nn) && !(e.parent == op && e.d.name == on)
    {
      ClearedIndex(st, h, np, nn, e);
      RestHas(s1, h, i, e);
    }
    if Taken(r, h, np, nn) {
      var j :| 0 <= j < |r| && r[j].parent == np && h(r[j].d.name) == h(nn);
      assert r[j] in r;
    } else {
      forall e | e in st.index && e.parent == np && h(e.d.name) == h(nn)
        ensures e.d.name == nn || (e.parent == op && e.d.name == on)
      {
        UntakenHas(r, h, np, nn, e);
      }
    }
  }

  /** Renaming an entry onto itself destroys it: its inode, or one of its links, is gone but the entry is
      put back. */
  lemma {:induction false} SelfRename(st: State, h: Hash, i: nat, d: DirItem, p: nat, name: string)
    requires Consistent(st, h) && Source(st, i, d, p, name) && d.kind != Dir && Lookup(st, h, p, name) == Some(d)
    ensures !Consistent(MovedEntry(Cleared(st, h, p, name), h, d, p, name, p, name), h)
  {
    hide Agree, NextIdx, WithoutRef, WithRef, Links, DirSize, FindName, Lookup;
    var s1 := Cleared(st, h, p, name);
    var st' := MovedEntry(s1, h, d, p, name, p, name);
    var c := d.child;
    FileEntry(st, h, i, d, p, name);
    RemovedDrops(st, h, i, c, p, name);
    RemovedLookup(st, h, i, c, p, name, p, name);
    ClearedKeeps(st, h, p, name, p, name);
    NothingToDrop(s1, h, p, name);
    var e := NewEntry(DropEntry(s1, h, c, p, name), p, name, c, d.kind);
    assert st'.index == s1.index + [e];
    AddCounts(s1.index, e, c);
    DropCounts(st.index, i, c);
    assert InodeRight(st.inodes[c], c, st.index);
    if c in s1.inodes {
      assert c in st'.inodes && !InodeRight(st'.inodes[c], c, st'.index);
    } else {
      assert st'.index[|s1.index|] == e && c !in st'.inodes;
      assert !Grounded(st'.inodes, st'.index);
    }
  }

  lemma {:induction false} NothingToDrop(st: State, h: Hash, p: nat, name: string)
    requires Agree(st, h) && Lookup(st, h, p, name).None?
    ensures WithoutEntry(st.index, p, name) == st.index
  {
    hide Agree;
    NoneNamed(st, h, p, name);
  }

  /** An entry of directory p has the name. */
  ghost predicate InDir(s: seq<Entry>, p: nat, name: string) {
    exists i :: 0 <= i < |s| && s[i].parent == p && s[i].d.name == name
  }

  /** A directory is entered in directory p under the name. */
  ghost predicate DirInDir(st: State, p: nat, name: string) {
    exists i :: 0 <= i < |st.index| && st.index[i].parent == p && st.index[i].d.name == name
                && st.index[i].d.child in st.inodes && st.inodes[st.index[i].d.child].kind == Dir
  }

  /** What a lookup answers about entries and kinds. */
  lemma {:induction false} LookupMeans(st: State, h: Hash, p: nat, name: string)
    requires Consistent(st, h)
    ensures Lookup(st, h, p, name).Some? <==> InDir(st.index, p, name)
    ensures Lookup(st, h, p, name).Some? && Lookup(st, h, p, name).value.kind == Dir <==> DirInDir(st, p, name)
  {
    hide Agree, Counted, Lookup;
    AgreeDistinct(st, h);
    if Lookup(st, h, p, name).Some? {
      var i := LookupEntry(st, h, p, name);
      OneNamed(st.index, h, p, name, i);
    } else {
      NoneNamed(st, h, p, name);
    }
  }

  lemma {:induction false} OneNamed(s: seq<Entry>, h: Hash, p: nat, name: string, i: nat)
    requires Distinct(s, h) && i < |s| && s[i].parent == p && s[i].d.name == name
    ensures forall j :: 0 <= j < |s| && s[j].parent == p && s[j].d.name == name ==> j == i
  {
  }

  /** A rename is refused exactly when there is no entry of the old name, or one of the new name is a
      directory's. */
  lemma {:induction false} RenamedWhen(st: State, h: Hash, op: nat, on: string, np: nat, nn: string)
    requires Consistent(st, h)
    ensures var r := Renamed(st, h, op, on, np, nn);
            && (r.NoSource? <==> !InDir(st.index, op, on))
            && (r.IsDirectory? <==> InDir(st.index, op, on) && DirInDir(st, np, nn))
  {
    hide Consistent, Lookup, MovedEntry, Cleared, InDir, DirInDir;
    LookupMeans(st, h, op, on);
    LookupMeans(st, h, np, nn);
  }

  /** Renaming an existing entry keeps the namespace consistent exactly when source and destination are
      different entries, the new parent is a directory, and no third entry has the new name's hash. */
  lemma {:induction false} RenamedIff(st: State, h: Hash, op: nat, on: string, np: nat, nn: string)
    requires Consistent(st, h) && Renamed(st, h, op, on, np, nn).Moved?
    ensures Consistent(Renamed(st, h, op, on, np, nn).st, h) <==>
            !(op == np && on == nn) && np in st.inodes && st.inodes[np].kind == Dir
                && NoClash(st.index, h, op, on, np, nn)
  {
    hide Agree, Grounded, Counted, Lookup, Cleared, MovedEntry, NoClash, Taken, Rest;
    var d := Lookup(st, h, op, on).value;
    var i := LookupEntry(st, h, op, on);
    if op == np && on == nn {
      SelfRename(st, h, i, d, op, on);
    } else {
      var s1 := Cleared(st, h, np, nn);
      ClearedKeeps(st, h, np, nn, op, on);
      var j := LookupEntry(s1, h, op, on);
      AgreeDistinct(s1, h);
      ClearedIndex(st, h, np, nn, st.index[i]);
      MovedIff(s1, h, j, d, op, on, np, nn);
      NoClashIff(st, h, op, on, np, nn, j);
    }
  }

  /** After such a rename the new name finds the entry's inode, the old one finds nothing, and every other
      lookup is as before. */
  lemma {:induction false} RenamedLookup(st: State, h: Hash, op: nat, on: string, np: nat, nn: string, q: nat,
                                         name: string)
    requires Consistent(st, h) && Renamed(st, h, op, on, np, nn).Moved?
             && Consistent(Renamed(st, h, op, on, np, nn).st, h)
    ensures var d := Lookup(st, h, op, on).value;
            Lookup(Renamed(st, h, op, on, np, nn).st, h, q, name) ==
            if q == np && name == nn then Some(DirItem(d.child, d.kind, nn))
            else if q == op && name == on then None
            else Lookup(st, h, q, name)
  {
    hide Agree, Grounded, Counted, Lookup, Cleared, MovedEntry, NoClash;
    RenamedIff(st, h, op, on, np, nn);
    var s1, d := Cleared(st, h, np, nn), Lookup(st, h, op, on).value;
    ClearedKeeps(st, h, np, nn, op, on);
    ClearedKeeps(st, h, np, nn, q, name);
    var j := LookupEntry(s1, h, op, on);
    MovedLookup(s1, h, j, d, op, on, np, nn, q, name);
  }
}
