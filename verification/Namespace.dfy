/** The namespace operations as the driver runs them, one item change after the other (write.go, mkdir.go,
    link.go, delete.go, rename.go), proved against NameOps and NameMove. */
module Namespaces {
  import opened Keys
  import opened Names
  import opened NameOps
  import opened NameMove
  import opened NameTree
  import opened NamePrune
  import opened NameRuns
  import opened NameFrame

  datatype NameError = NotFound | Exists | IsADirectory | NotADirectory
  datatype Done = Fine | Refused(error: NameError)

  /** The entries of one directory, in index order. */
  function EntriesOf(s: seq<Entry>, d: nat): seq<Entry> {
    if s == [] then [] else EntriesOf(s[..|s| - 1], d) + if s[|s| - 1].parent == d then [s[|s| - 1]] else []
  }

  lemma {:induction false} EntriesOfHas(s: seq<Entry>, d: nat, e: Entry)
    ensures e in EntriesOf(s, d) <==> e in s && e.parent == d
  {
    if s != [] {
      EntriesOfHas(s[..|s| - 1], d, e);
      assert e in s <==> e in s[..|s| - 1] || e == s[|s| - 1];
    }
  }

  ghost predicate Unique(s: seq<Entry>) {
    forall i, j :: 0 <= i < j < |s| ==> s[i] != s[j]
  }

  lemma {:induction false} EntriesOfUnique(s: seq<Entry>, h: Hash, d: nat)
    requires Distinct(s, h)
    ensures Unique(EntriesOf(s, d))
  {
    if s != [] {
      var t, e := s[..|s| - 1], s[|s| - 1];
      EntriesOfUnique(t, h, d);
      EntriesOfHas(t, d, e);
      assert e !in t by {
        forall j | 0 <= j < |t|
          ensures t[j] != e
        {
          assert s[j] == t[j];
        }
      }
    }
  }

  class Namespace {
    var inodes: map<nat, Inode>
    var bodies: set<nat>
    var index: seq<Entry>
    var items: map<(nat, nat), DirItem>
    var refs: map<(nat, nat), seq<Ref>>
    const hash: Hash

    constructor (hash: Hash)
      ensures this.hash == hash && Good(Now(), hash)
    {
      this.hash := hash;
      inodes, bodies, index, items, refs := map[ROOT := Inode(Dir, 1, 0)], {}, [], map[], map[];
      new;
      StartGood(hash);
    }

    function Now(): State
      reads this
    {
      State(inodes, bodies, index, items, refs)
    }

    /** The scan of a directory's DIR_INDEX items for a name. */
    method ScanIndex(p: nat, name: string) returns (i: nat)
      ensures i == FindName(index, p, name)
    {
      hide FindName;
      i := 0;
      while i < |index| && !(index[i].parent == p && index[i].d.name == name)
        invariant i <= |index|
        invariant forall j :: 0 <= j < i ==> !(index[j].parent == p && index[j].d.name == name)
      {
        i := i + 1;
      }
      ghost var m := FindName(index, p, name);
    }

    /** lookupDirEntry. */
    method LookupDirEntry(p: nat, name: string) returns (r: Option<DirItem>)
      ensures r == Lookup(Now(), hash, p, name)
    {
      var k := (p, hash(name));
      if k in items && items[k].name == name {
        return Some(items[k]);
      }
      var i := ScanIndex(p, name);
      r := if i < |index| then Some(index[i].d) else None;
    }

    /** nextInodeNum: a scan of all inode items for the largest number. */
    method NextInodeNum() returns (ino: nat)
      ensures IsNext(Now(), ino)
    {
      var max, left := ROOT, inodes.Keys;
      while left != {}
        invariant left <= inodes.Keys && max >= ROOT && (max == ROOT || max in inodes)
        invariant forall c :: c in inodes && c !in left ==> c <= max
        decreases left
      {
        var c :| c in left;
        if c > max {
          max := c;
        }
        left := left - {c};
      }
      ino := max + 1;
    }

    method NextDirIndexOffset(p: nat) returns (m: nat)
      ensures m == NextIdx(index, p)
    {
      var max := 2;
      var i := 0;
      assert index[..0] == [];
      while i < |index|
        invariant 0 <= i <= |index|
        invariant max + 1 == NextIdx(index[..i], p)
      {
        assert index[..i + 1][..i] == index[..i];
        if index[i].parent == p && index[i].idx > max {
          max := index[i].idx;
        }
        i := i + 1;
      }
      assert index[..i] == index;
      m := max + 1;
    }

    method DropIndex(p: nat, name: string)
      modifies this`index
      ensures index == WithoutEntry(old(index), p, name)
    {
      var i := ScanIndex(p, name);
      if i < |index| {
        index := index[..i] + index[i + 1..];
      }
    }

    /** appendInodeRef. */
    method AppendInodeRef(c: nat, p: nat, r: Ref)
      modifies this`refs
      ensures refs == WithRef(old(refs), c, p, r)
    {
      if (c, p) in refs {
        var rs := refs[(c, p)];
        var i := 0;
        while i < |rs|
          invariant 0 <= i <= |rs| && refs == old(refs)
          invariant forall j :: 0 <= j < i ==> rs[j].name != r.name
        {
          if rs[i].name == r.name {
            return;
          }
          i := i + 1;
        }
        refs := refs[(c, p) := rs + [r]];
      } else {
        refs := refs[(c, p) := [r]];
        assert RefsHere(old(refs), c, p) + [r] == [r];
      }
    }

    /** removeInodeRef. */
    method RemoveInodeRef(c: nat, p: nat, name: string)
      modifies this`refs
      ensures refs == WithoutRef(old(refs), c, p, name)
    {
      if (c, p) !in refs {
        return;
      }
      var rs := refs[(c, p)];
      var kept: seq<Ref> := [];
      var i := 0;
      assert rs[..0] == [];
      while i < |rs|
        invariant 0 <= i <= |rs| && refs == old(refs)
        invariant kept == WithoutName(rs[..i], name)
      {
        assert rs[..i + 1][..i] == rs[..i];
        if rs[i].name != name {
          kept := kept + [rs[i]];
        }
        i := i + 1;
      }
      assert rs[..i] == rs;
      if |kept| == 0 {
        refs := refs - {(c, p)};
      } else {
        refs := refs[(c, p) := kept];
      }
    }

    /** adjustDirSize. */
    method AdjustDirSize(p: nat, delta: int)
      requires p in inodes
      modifies this`inodes
      ensures inodes == Resize(old(inodes), p, delta)
    {
      if delta == 0 {
        assert inodes == Resize(inodes, p, delta);
        return;
      }
      var size := inodes[p].size + delta;
      if size < 0 {
        size := 0;
      }
      inodes := inodes[p := inodes[p].(size := size)];
    }

    /** createInodeWithDirEntry and makeDir, for a name that does not exist yet. */
    method Create(p: nat, name: string, kind: Kind, len: nat) returns (r: Done, ghost ino: nat)
      requires p in inodes && (kind == Dir ==> len == 0)
      modifies this
      ensures Lookup(old(Now()), hash, p, name).Some? ==> r == Refused(Exists) && Now() == old(Now())
      ensures Lookup(old(Now()), hash, p, name).None? ==>
                r == Fine && IsNext(old(Now()), ino) && Now() == Created(old(Now()), hash, ino, p, name, kind, len)
      ensures r == Fine ==> CreateFrame(old(Now()), Now(), ino, p, name, kind, len)
    {
      hide NextIdx, Lookup, CreateFrame;
      ino := 0;
      var found := LookupDirEntry(p, name);
      if found.Some? {
        return Refused(Exists), ino;
      }
      var n := NextInodeNum();
      ino := n;
      CreatedFrame(Now(), hash, n, p, name, kind, len);
      inodes := inodes[n := Inode(kind, 1, len)];
      if kind != Dir {
        bodies := bodies + {n};
      }
      var idx := NextDirIndexOffset(p);
      var d := DirItem(n, kind, name);
      index := index + [Entry(p, idx, d)];
      items := items[(p, hash(name)) := d];
      refs := refs[(n, p) := [Ref(idx, name)]];
      AdjustDirSize(p, NameSize(name));
      r := Fine;
    }

    /** linkInode, for a resolved source inode. */
    method LinkInode(c: nat, p: nat, name: string) returns (r: Done)
      requires p in inodes
      modifies this
      ensures r == if c !in old(inodes) then Refused(NotFound)
                   else if old(inodes)[c].kind == Dir then Refused(IsADirectory)
                   else if Lookup(old(Now()), hash, p, name).Some? then Refused(Exists)
                   else Fine
      ensures Now() == Step(old(Now()), hash, Link(c, p, name))
      ensures r == Fine ==> LinkFrame(old(Now()), Now(), c, p, name)
    {
      hide NextIdx, Lookup, WithRef, LinkFrame;
      if c !in inodes {
        return Refused(NotFound);
      }
      if inodes[c].kind == Dir {
        return Refused(IsADirectory);
      }
      var found := LookupDirEntry(p, name);
      if found.Some? {
        return Refused(Exists);
      }
      LinkedFrame(Now(), hash, c, p, name);
      var idx := NextDirIndexOffset(p);
      var d := DirItem(c, inodes[c].kind, name);
      index := index + [Entry(p, idx, d)];
      items := items[(p, hash(name)) := d];
      AppendInodeRef(c, p, Ref(idx, name));
      inodes := inodes[c := inodes[c].(nlink := inodes[c].nlink + 1)];
      AdjustDirSize(p, NameSize(name));
      r := Fine;
    }

    /** unlinkInodeOnly. */
    method UnlinkInodeOnly(c: nat, p: nat, name: string)
      requires c in inodes && p in inodes && inodes[c].nlink > 1
      modifies this
      ensures Now() == Removed(old(Now()), hash, c, p, name)
    {
      hide WithoutRef, WithoutEntry;
      DropIndex(p, name);
      items := items - {(p, hash(name))};
      RemoveInodeRef(c, p, name);
      inodes := inodes[c := inodes[c].(nlink := inodes[c].nlink - 1)];
      AdjustDirSize(p, 0 - NameSize(name));
    }

    /** removeInode. */
    method RemoveInode(c: nat, p: nat, name: string)
      requires c in inodes && p in inodes && c != p
      modifies this
      ensures Now() == Removed(old(Now()), hash, c, p, name)
    {
      hide WithoutRef, WithoutEntry;
      if inodes[c].nlink > 1 {
        UnlinkInodeOnly(c, p, name);
        return;
      }
      bodies := bodies - {c};
      refs := refs - {(c, p)};
      inodes := inodes - {c};
      DropIndex(p, name);
      items := items - {(p, hash(name))};
      AdjustDirSize(p, 0 - NameSize(name));
    }

    /** deleteFile, from the parent on. */
    method DeleteFile(p: nat, name: string) returns (r: Done)
      requires Good(Now(), hash)
      modifies this
      ensures var found := Lookup(old(Now()), hash, p, name);
              if found.None? then r == Refused(NotFound) && Now() == old(Now())
              else if found.value.kind == Dir then r == Refused(IsADirectory) && Now() == old(Now())
              else r == Fine
      ensures Now() == Step(old(Now()), hash, Unlink(p, name)) && Good(Now(), hash)
      ensures r == Fine ==>
                RemoveFrame(old(Now()), Now(), Lookup(old(Now()), hash, p, name).value.child, p, name)
    {
      hide Agree, Counted, Lookup, Removed, IsTree, RemoveFrame;
      ghost var st := Now();
      var found := LookupDirEntry(p, name);
      if found.None? {
        return Refused(NotFound);
      }
      if found.value.kind == Dir {
        return Refused(IsADirectory);
      }
      ghost var i := LookupEntry(st, hash, p, name);
      FileEntry(st, hash, i, found.value, p, name);
      RemovedFrame(st, hash, i, found.value.child, p, name);
      RemoveInode(found.value.child, p, name);
      UnlinkStep(st, hash, p, name);
      r := Fine;
    }

    /** renameEntry, for resolved parents. */
    method Rename(op: nat, on: string, np: nat, nn: string) returns (r: Done)
      requires Good(Now(), hash) && op in inodes && np in inodes
      modifies this
      ensures match Renamed(old(Now()), hash, op, on, np, nn)
              case NoSource => r == Refused(NotFound) && Now() == old(Now())
              case IsDirectory => r == Refused(IsADirectory) && Now() == old(Now())
              case Moved(st) => r == Fine && Now() == st
      ensures r == Fine && !(op == np && on == nn) ==>
                RenameFrame(old(Now()), Now(), Lookup(old(Now()), hash, np, nn), op, on, np, nn)
    {
      hide Agree, Counted, Lookup, IsTree, MovedEntry, Removed, RenameFrame;
      ghost var st := Now();
      if Renamed(st, hash, op, on, np, nn).Moved? && !(op == np && on == nn) {
        RenamedFrame(st, hash, op, on, np, nn);
      }
      var src := LookupDirEntry(op, on);
      if src.None? {
        return Refused(NotFound);
      }
      var dst := LookupDirEntry(np, nn);
      if dst.Some? {
        if dst.value.kind == Dir {
          return Refused(IsADirectory);
        }
        ghost var i := LookupEntry(st, hash, np, nn);
        FileEntry(st, hash, i, dst.value, np, nn);
        ParentsStay(st, hash, op, on, np, nn);
        RemoveInode(dst.value.child, np, nn);
      }
      assert Now() == Cleared(st, hash, np, nn);
      MoveEntry(src.value, op, on, np, nn);
      r := Fine;
    }

    /** The second half of a rename: the old entry out, the new one in. */
    method MoveEntry(src: DirItem, op: nat, on: string, np: nat, nn: string)
      requires op in inodes && np in inodes
      modifies this
      ensures Now() == MovedEntry(old(Now()), hash, src, op, on, np, nn)
    {
      hide NextIdx, WithoutRef, WithRef, WithoutEntry;
      DropIndex(op, on);
      items := items - {(op, hash(on))};
      RemoveInodeRef(src.child, op, on);
      var idx := NextDirIndexOffset(np);
      var d := DirItem(src.child, src.kind, nn);
      index := index + [Entry(np, idx, d)];
      items := items[(np, hash(nn)) := d];
      AppendInodeRef(d.child, np, Ref(idx, nn));
      AdjustDirSize(op, 0 - NameSize(on));
      AdjustDirSize(np, NameSize(nn));
    }

    /** purgeDirContents: afterwards nothing is left in the directory or below it, entries outside it are
        untouched, and inodes that are left are what they were. closed is any set of directories that
        contains everything below one of its members. */
    method PurgeDirContents(d: nat, ghost rank: nat -> nat, ghost closed: nat -> bool)
      requires Consistent(Now(), hash) && Ranked(index, rank) && d in inodes && inodes[d].kind == Dir
      requires closed(d) && Closed(index, closed)
      modifies this
      ensures Consistent(Now(), hash) && Ranked(index, rank) && Closed(index, closed)
      ensures d in inodes && inodes[d].kind == Dir && EmptyDir(index, d)
      ensures Thinned(old(index), index) && Derived(old(Now()), Now())
      ensures forall e :: e in index ==> e in old(index)
      ensures forall e :: e in old(index) && (!closed(e.parent) || rank(e.parent) > rank(d)) ==> e in index
      ensures forall e :: e in index ==> !Inside(old(index), rank, d, e.parent)
      decreases rank(d)
    {
      hide Consistent, Removed, Thinned, Derived, Ranked, Closed, Unique, EntriesOf, EmptyDir, Inside;
      var snap := EntriesOf(index, d);
      SnapFacts(Now(), hash, d, snap);
      SameState(Now(), hash);
      var n := 0;
      while n < |snap|
        invariant 0 <= n <= |snap|
        invariant Consistent(Now(), hash) && Ranked(index, rank) && Closed(index, closed)
        invariant d in inodes && inodes[d].kind == Dir
        invariant Thinned(old(index), index) && Derived(old(Now()), Now())
        invariant forall e :: e in index ==> e in old(index)
        invariant forall e :: e in old(index) && (!closed(e.parent) || rank(e.parent) > rank(d)) ==> e in index
        invariant forall k :: n <= k < |snap| ==> snap[k] in index
        invariant forall e :: e in index && e.parent == d ==> exists k :: n <= k < |snap| && snap[k] == e
      {
        ghost var st := Now();
        PurgeEntry(d, snap, n, rank, closed);
        ThinnedTrans(old(index), st.index, index);
        DerivedTrans(old(Now()), st, Now());
        n := n + 1;
      }
      EmptyNow(index, d);
      forall e | e in index
        ensures !Inside(old(index), rank, d, e.parent)
      {
        AllBelowGone(old(Now()), Now(), hash, rank, d, e);
      }
    }

    /** One entry of a directory that is being purged. */
    method PurgeEntry(d: nat, snap: seq<Entry>, n: nat, ghost rank: nat -> nat, ghost closed: nat -> bool)
      requires Consistent(Now(), hash) && Ranked(index, rank) && d in inodes && inodes[d].kind == Dir
      requires closed(d) && Closed(index, closed) && n < |snap| && Unique(snap)
      requires forall k :: 0 <= k < |snap| ==> snap[k].parent == d
      requires forall k :: n <= k < |snap| ==> snap[k] in index
      modifies this
      ensures Consistent(Now(), hash) && Ranked(index, rank) && Closed(index, closed)
      ensures d in inodes && inodes[d].kind == Dir
      ensures Thinned(old(index), index) && Derived(old(Now()), Now())
      ensures forall e :: e in index ==> e in old(index) && e != snap[n]
      ensures forall e :: e in old(index) && (!closed(e.parent) || rank(e.parent) > rank(d)) ==> e in index
      ensures forall k :: n < k < |snap| ==> snap[k] in index
      decreases rank(d), 0
    {
      hide Consistent, Removed, EmptyDir, Thinned, Derived;
      ghost var s0 := index;
      SameState(Now(), hash);
      var e := snap[n];
      EntryFacts(Now(), hash, rank, closed, e);
      if e.d.kind == Dir {
        PurgeDirContents(e.d.child, rank, closed);
      }
      ghost var st := Now();
      assert forall k :: n <= k < |snap| ==> snap[k] in index by {
        forall k | n <= k < |snap|
          ensures snap[k] in index
        {
          assert snap[k] in s0;
        }
      }
      ghost var i := DroppedEntry(st, hash, rank, e);
      RemoveInode(e.d.child, d, e.d.name);
      PurgedStep(st, hash, i, rank, closed, e, snap, n);
      ParentKept(st, hash, i, e);
      RemovedThins(st, hash, i, e);
      ThinnedTrans(s0, st.index, index);
      DerivedTrans(old(Now()), st, Now());
    }

    /** deleteDir, from the parent on: the directory and all below it are gone, everything else stays. */
    method DeleteDir(p: nat, name: string) returns (r: Done)
      requires Good(Now(), hash)
      modifies this
      ensures r == match Lookup(old(Now()), hash, p, name)
                   case None => Refused(NotFound)
                   case Some(d) => if d.kind != Dir then Refused(NotADirectory) else Fine
      ensures Now() == Step(old(Now()), hash, RemoveDir(p, name)) && Good(Now(), hash)
      ensures r == Fine ==>
                var c := Lookup(old(Now()), hash, p, name).value.child;
                && c !in inodes && Derived(old(Now()), Now())
                && forall e :: e in index <==>
                     e in old(index) && !Below(old(index), c, e.parent) && !(e.parent == p && e.d.name == name)
    {
      hide Consistent, Lookup, Removed, EmptyDir, Ranked, Closed, Thinned, Derived, Pruned, Inside, Below;
      ghost var st0 := Now();
      var found := LookupDirEntry(p, name);
      if found.None? {
        return Refused(NotFound);
      }
      if found.value.kind != Dir {
        return Refused(NotADirectory);
      }
      ghost var rank, e := TreeRank(st0, hash, p, name);
      ghost var closed := (x: nat) => Ranked(st0.index, rank) && Inside(st0.index, rank, found.value.child, x);
      InsideClosed(st0.index, rank, found.value.child, closed);
      EntryFacts(st0, hash, rank, closed, e);
      PurgeDirContents(found.value.child, rank, closed);
      ghost var st := Now();
      ghost var i := DroppedEntry(st, hash, rank, e);
      RemoveInode(found.value.child, p, name);
      LastDir(st, hash, i, rank, e);
      RemovedThins(st, hash, i, e);
      ThinnedTrans(st0.index, st.index, index);
      DerivedTrans(st0, st, Now());
      DeletedIs(st0, st, Now(), hash, rank, e, p, name);
      RemoveDirStep(st0, hash, p, name);
      r := Fine;
    }
  }

  /** What is below a member is a member. */
  ghost predicate Closed(s: seq<Entry>, closed: nat -> bool) {
    forall e :: e in s && e.d.kind == Dir && closed(e.parent) ==> closed(e.d.child)
  }

  /** Clearing the destination leaves both parents in place. */
  lemma {:induction false} ParentsStay(st: State, h: Hash, op: nat, on: string, np: nat, nn: string)
    requires Consistent(st, h) && Lookup(st, h, op, on).Some? && Lookup(st, h, np, nn).Some?
    requires Lookup(st, h, np, nn).value.kind != Dir
    ensures var c := Cleared(st, h, np, nn); op in c.inodes && np in c.inodes
  {
    hide Agree, Counted, Lookup, Cleared;
    var i := LookupEntry(st, h, op, on);
    var j := LookupEntry(st, h, np, nn);
    ClearedIndex(st, h, np, nn, st.index[i]);
  }

  lemma {:induction false} SnapFacts(st: State, h: Hash, d: nat, snap: seq<Entry>)
    requires Consistent(st, h) && snap == EntriesOf(st.index, d)
    ensures Unique(snap)
    ensures forall k :: 0 <= k < |snap| ==> snap[k].parent == d && snap[k] in st.index
    ensures forall e :: e in st.index && e.parent == d ==> exists k :: 0 <= k < |snap| && snap[k] == e
  {
    hide ItemsMatch, RefsMatch, Grounded, Counted, EntriesOf;
    EntriesOfUnique(st.index, h, d);
    forall k | 0 <= k < |snap|
      ensures snap[k].parent == d && snap[k] in st.index
    {
      EntriesOfHas(st.index, d, snap[k]);
    }
    forall e | e in st.index && e.parent == d
      ensures exists k :: 0 <= k < |snap| && snap[k] == e
    {
      EntriesOfHas(st.index, d, e);
    }
  }

  lemma {:induction false} EmptyNow(s: seq<Entry>, d: nat)
    requires forall e :: e in s ==> e.parent != d
    ensures EmptyDir(s, d)
  {
  }

  lemma {:induction false} EntryFacts(st: State, h: Hash, rank: nat -> nat, closed: nat -> bool, e: Entry)
    requires Consistent(st, h) && Ranked(st.index, rank) && Closed(st.index, closed) && e in st.index
    ensures e.d.child in st.inodes && st.inodes[e.d.child].kind == e.d.kind && e.parent in st.inodes
    ensures e.d.kind == Dir ==> rank(e.d.child) < rank(e.parent)
    ensures e.d.kind == Dir && closed(e.parent) ==> closed(e.d.child)
  {
    hide Agree, Counted;
    var i :| 0 <= i < |st.index| && st.index[i] == e;
  }

  lemma {:induction false} DroppedEntry(st: State, h: Hash, rank: nat -> nat, e: Entry) returns (i: nat)
    requires Consistent(st, h) && Ranked(st.index, rank) && e in st.index
    ensures i < |st.index| && st.index[i] == e && Named(st, i, e.d.child, e.parent, e.d.name)
    ensures e.d.child in st.inodes && e.parent in st.inodes
    ensures e.d.kind != Dir ==> EmptyDir(st.index, e.d.child)
  {
    hide Agree, Counted;
    i :| 0 <= i < |st.index| && st.index[i] == e;
  }

  /** Removing one entry of a directory, after the directory it names has been purged. */
  lemma {:induction false} PurgedStep(st: State, h: Hash, i: nat, rank: nat -> nat, closed: nat -> bool, e: Entry,
                                      snap: seq<Entry>, n: nat)
    requires Consistent(st, h) && Ranked(st.index, rank) && Closed(st.index, closed)
    requires i < |st.index| && st.index[i] == e && Named(st, i, e.d.child, e.parent, e.d.name)
    requires EmptyDir(st.index, e.d.child)
    requires n < |snap| && snap[n] == e && Unique(snap)
    requires forall k :: 0 <= k < |snap| ==> snap[k].parent == e.parent
    requires forall k :: n <= k < |snap| ==> snap[k] in st.index
    ensures var t := Removed(st, h, e.d.child, e.parent, e.d.name);
            && Consistent(t, h) && Ranked(t.index, rank) && Closed(t.index, closed)
            && (forall x :: x in t.index <==> x in st.index && x != e)
            && (forall k :: n < k < |snap| ==> snap[k] in t.index)
  {
    hide Agree, Counted, Grounded, Removed, EmptyDir;
    var t := Removed(st, h, e.d.child, e.parent, e.d.name);
    RemovedIff(st, h, i, e.d.child, e.parent, e.d.name);
    RemovedDrops(st, h, i, e.d.child, e.parent, e.d.name);
    AgreeDistinct(st, h);
    forall x
      ensures x in t.index <==> x in st.index && x != e
    {
      RestHas(st.index, h, i, x);
      SameNameSame(st.index, h, i, x);
    }
    forall k | 0 <= k < |t.index|
      ensures t.index[k] in st.index
    {
      assert t.index[k] in t.index;
    }
    RankedSub(st.index, t.index, rank);
    forall k | n < k < |snap|
      ensures snap[k] in t.index
    {
      assert snap[n] != snap[k];
    }
  }

  lemma {:induction false} ParentKept(st: State, h: Hash, i: nat, e: Entry)
    requires Consistent(st, h) && i < |st.index| && st.index[i] == e && Named(st, i, e.d.child, e.parent, e.d.name)
    ensures var t := Removed(st, h, e.d.child, e.parent, e.d.name);
            e.parent in t.inodes && t.inodes[e.parent].kind == Dir
  {
    hide Agree, Counted, WithoutRef, WithoutEntry;
  }

  lemma {:induction false} RankedSub(s: seq<Entry>, t: seq<Entry>, rank: nat -> nat)
    requires Ranked(s, rank) && forall k :: 0 <= k < |t| ==> t[k] in s
    ensures Ranked(t, rank)
  {
    forall k | 0 <= k < |t| && t[k].d.kind == Dir
      ensures rank(t[k].d.child) < rank(t[k].parent)
    {
      var j :| 0 <= j < |s| && s[j] == t[k];
    }
  }

  lemma {:induction false} SameNameSame(s: seq<Entry>, h: Hash, i: nat, x: Entry)
    requires Distinct(s, h) && i < |s|
    ensures x in s && x.parent == s[i].parent && x.d.name == s[i].d.name <==> x == s[i]
  {
    if x in s {
      var j :| 0 <= j < |s| && s[j] == x;
      if j < i {
        assert s[j].parent == s[i].parent ==> h(s[j].d.name) != h(s[i].d.name);
      } else if i < j {
        assert s[i].parent == s[j].parent ==> h(s[i].d.name) != h(s[j].d.name);
      }
    }
  }

  lemma {:induction false} TreeRank(st: State, h: Hash, p: nat, name: string) returns (rank: nat -> nat, e: Entry)
    requires Good(st, h) && Lookup(st, h, p, name).Some?
    ensures Ranked(st.index, rank)
    ensures e in st.index && e.parent == p && e.d == Lookup(st, h, p, name).value && e.d.name == name
  {
    hide Agree, Counted, Grounded, Lookup;
    rank :| Ranked(st.index, rank);
    var i := LookupEntry(st, h, p, name);
    e := st.index[i];
  }

  lemma {:induction false} LastDir(st: State, h: Hash, i: nat, rank: nat -> nat, e: Entry)
    requires Consistent(st, h) && Ranked(st.index, rank) && e.d.kind == Dir
    requires i < |st.index| && st.index[i] == e && Named(st, i, e.d.child, e.parent, e.d.name)
    requires EmptyDir(st.index, e.d.child)
    ensures var t := Removed(st, h, e.d.child, e.parent, e.d.name);
            && Good(t, h) && Lookup(t, h, e.parent, e.d.name) == None && e.d.child !in t.inodes
            && (forall x :: x in t.index <==> x in st.index && x != e)
  {
    hide Agree, Removed, EmptyDir, Lookup, Links, DirSize;
    PurgedStep(st, h, i, rank, _ => true, e, [e], 0);
    RemovedLookup(st, h, i, e.d.child, e.parent, e.d.name, e.parent, e.d.name);
    assert InodeRight(st.inodes[e.d.child], e.d.child, st.index);
  }

  lemma {:induction false} SameState(st: State, h: Hash)
    requires Consistent(st, h)
    ensures Thinned(st.index, st.index) && Derived(st, st)
  {
    ThinnedRefl(st.index);
  }

  lemma {:induction false} RemovedThins(st: State, h: Hash, i: nat, e: Entry)
    requires Consistent(st, h) && i < |st.index| && st.index[i] == e && Named(st, i, e.d.child, e.parent, e.d.name)
    ensures var t := Removed(st, h, e.d.child, e.parent, e.d.name); Thinned(st.index, t.index) && Derived(st, t)
  {
    hide Agree, Counted, Removed, Thinned, Derived;
    AgreeDistinct(st, h);
    RemovedDrops(st, h, i, e.d.child, e.parent, e.d.name);
    RestThinned(st.index, h, i);
    RemovedDerived(st, h, e.d.child, e.parent, e.d.name);
  }

  lemma {:induction false} InsideClosed(s: seq<Entry>, rank: nat -> nat, c: nat, closed: nat -> bool)
    requires Ranked(s, rank) && forall x :: closed(x) <==> Inside(s, rank, c, x)
    ensures closed(c) && Closed(s, closed)
  {
    InsideSelf(s, rank, c);
    forall e | e in s && e.d.kind == Dir && closed(e.parent)
      ensures closed(e.d.child)
    {
      var i :| 0 <= i < |s| && s[i] == e;
      InsideDown(s, rank, c, i);
    }
  }

  /** The state that purging and removing leave is the pruned one. */
  lemma {:induction false} DeletedIs(st0: State, st: State, st': State, h: Hash, rank: nat -> nat, e: Entry, p: nat,
                                     name: string)
    requires Good(st0, h) && Consistent(st, h) && Consistent(st', h) && Ranked(st0.index, rank)
    requires e in st0.index && e.parent == p && e.d.name == name && e.d.kind == Dir
             && Lookup(st0, h, p, name) == Some(e.d)
    requires (forall x :: x in st.index ==> x in st0.index) && EmptyDir(st.index, e.d.child)
    requires forall x :: x in st0.index && !Inside(st0.index, rank, e.d.child, x.parent) ==> x in st.index
    requires forall x :: x in st'.index <==> x in st.index && x != e
    requires Thinned(st0.index, st'.index) && Derived(st0, st')
    ensures st' == Step(st0, h, RemoveDir(p, name))
    ensures forall x :: x in st'.index <==>
              x in st0.index && !Below(st0.index, e.d.child, x.parent) && !(x.parent == p && x.d.name == name)
  {
    hide Consistent, IsTree, Lookup, EmptyDir, Ranked, Derived, Inside, Below, Keep, Pruned;
    var c, keep := e.d.child, Outside(st0.index, e.d.child, p, name);
    var i :| 0 <= i < |st0.index| && st0.index[i] == e;
    ConsistentDistinct(st0, h);
    forall x
      ensures x in st'.index <==>
              x in st0.index && !Below(st0.index, c, x.parent) && !(x.parent == p && x.d.name == name)
    {
      BelowIsInside(st0.index, rank, c, x.parent);
      SameNameSame(st0.index, h, i, x);
      if x in st.index {
        AllBelowGone(st0, st, h, rank, c, x);
      }
    }
    KeepSame(st0.index, Elems(st'.index), keep);
    PrunedUnique(st0, st', h, keep);
  }

  lemma {:induction false} ConsistentDistinct(st: State, h: Hash)
    requires Consistent(st, h)
    ensures Distinct(st.index, h)
  {
  }
}
