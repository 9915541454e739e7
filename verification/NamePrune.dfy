/** Recursive deletion (delete.go) as one step: a set of entries stays, and the rest of the state is what
    these entries determine. */
module NamePrune {
  import opened Keys
  import opened Names
  import opened NamesKeep
  import opened NameOps
  import opened NameMove
  import opened NameTree

  // ---- keeping some of the entries --------------------------------------------------------------------

  function Keep(s: seq<Entry>, keep: set<Entry>): seq<Entry> {
    if s == [] then [] else Keep(s[..|s| - 1], keep) + if s[|s| - 1] in keep then [s[|s| - 1]] else []
  }

  lemma {:induction false} KeepHas(s: seq<Entry>, keep: set<Entry>, e: Entry)
    ensures e in Keep(s, keep) <==> e in s && e in keep
  {
    if s != [] {
      KeepHas(s[..|s| - 1], keep, e);
      assert e in s <==> e in s[..|s| - 1] || e == s[|s| - 1];
    }
  }

  lemma {:induction false} KeepConcat(a: seq<Entry>, b: seq<Entry>, keep: set<Entry>)
    ensures Keep(a + b, keep) == Keep(a, keep) + Keep(b, keep)
  {
    if b == [] {
      assert a + b == a;
    } else {
      KeepConcat(a, b[..|b| - 1], keep);
      assert (a + b)[..|a + b| - 1] == a + b[..|b| - 1];
    }
  }

  lemma {:induction false} KeepAll(s: seq<Entry>, keep: set<Entry>)
    requires forall e :: e in s ==> e in keep
    ensures Keep(s, keep) == s
  {
    if s != [] {
      KeepAll(s[..|s| - 1], keep);
      assert s == s[..|s| - 1] + [s[|s| - 1]];
    }
  }

  lemma {:induction false} KeepSame(s: seq<Entry>, keep: set<Entry>, keep': set<Entry>)
    requires forall e :: e in s ==> (e in keep <==> e in keep')
    ensures Keep(s, keep) == Keep(s, keep')
  {
    if s != [] {
      KeepSame(s[..|s| - 1], keep, keep');
    }
  }

  lemma {:induction false} KeepTwice(s: seq<Entry>, a: set<Entry>, b: set<Entry>)
    ensures Keep(Keep(s, a), b) == Keep(s, a * b)
  {
    if s != [] {
      var t, e := s[..|s| - 1], s[|s| - 1];
      KeepTwice(t, a, b);
      if e in a {
        KeepConcat(Keep(t, a), [e], b);
        assert [e][..0] == [];
      } else {
        assert Keep(t, a) + [] == Keep(t, a);
      }
    }
  }

  function Elems(s: seq<Entry>): set<Entry> {
    set e | e in s
  }

  /** t is s without some entries, in the same order. */
  ghost predicate Thinned(s: seq<Entry>, t: seq<Entry>) {
    t == Keep(s, Elems(t))
  }

  lemma {:induction false} ThinnedRefl(s: seq<Entry>)
    ensures Thinned(s, s)
  {
    KeepAll(s, Elems(s));
  }

  lemma {:induction false} ThinnedIn(s: seq<Entry>, t: seq<Entry>, e: Entry)
    requires Thinned(s, t) && e in t
    ensures e in s
  {
    KeepHas(s, Elems(t), e);
  }

  lemma {:induction false} ThinnedTrans(s: seq<Entry>, t: seq<Entry>, u: seq<Entry>)
    requires Thinned(s, t) && Thinned(t, u)
    ensures Thinned(s, u)
  {
    KeepTwice(s, Elems(t), Elems(u));
    forall e | e in Elems(u)
      ensures e in Elems(t)
    {
      ThinnedIn(t, u, e);
    }
    assert Elems(t) * Elems(u) == Elems(u);
  }

  lemma {:induction false} RestThinned(s: seq<Entry>, h: Hash, i: nat)
    requires Distinct(s, h) && i < |s|
    ensures Thinned(s, Rest(s, i))
  {
    var r := Rest(s, i);
    var a, e, b := s[..i], s[i], s[i + 1..];
    SplitAt(s, i);
    KeepConcat(a + [e], b, Elems(r));
    KeepConcat(a, [e], Elems(r));
    RestHas(s, h, i, e);
    assert [e][..0] == [];
    KeepAll(a, Elems(r));
    KeepAll(b, Elems(r));
    assert a + [] == a;
  }

  lemma {:induction false} KeepDistinct(s: seq<Entry>, h: Hash, keep: set<Entry>)
    requires Distinct(s, h)
    ensures Distinct(Keep(s, keep), h)
  {
    if s != [] {
      var t, e := s[..|s| - 1], s[|s| - 1];
      KeepDistinct(t, h, keep);
      if e in keep {
        forall i | 0 <= i < |Keep(t, keep)| && Keep(t, keep)[i].parent == e.parent
          ensures Keep(t, keep)[i].idx != e.idx && h(Keep(t, keep)[i].d.name) != h(e.d.name)
        {
          KeepHas(t, keep, Keep(t, keep)[i]);
          var j :| 0 <= j < |t| && t[j] == Keep(t, keep)[i];
          assert s[j] == t[j];
        }
      }
    }
  }

  lemma {:induction false} KeepLinks(s: seq<Entry>, keep: set<Entry>, c: nat)
    ensures Links(Keep(s, keep), c) <= Links(s, c)
  {
    if s != [] {
      var t, e := s[..|s| - 1], s[|s| - 1];
      KeepLinks(t, keep, c);
      if e in keep {
        AddCounts(Keep(t, keep), e, c);
      } else {
        assert Keep(s, keep) == Keep(t, keep);
      }
    }
  }

  // ---- the state that kept entries determine -----------------------------------------------------------

  /** The inode as these entries make it. */
  function Recounted(ino: Inode, c: nat, s: seq<Entry>): Inode {
    if ino.kind == Dir then ino.(size := DirSize(s, c)) else ino.(nlink := Links(s, c))
  }

  function InodesOf(inodes: map<nat, Inode>, s: seq<Entry>): map<nat, Inode> {
    map c | c in inodes && (c == ROOT || Links(s, c) > 0) :: Recounted(inodes[c], c, s)
  }

  function ItemsOf(items: map<(nat, nat), DirItem>, s: seq<Entry>, h: Hash): map<(nat, nat), DirItem> {
    map k | k in items && ItemAt(s, h, k.0, k.1).Some? :: ItemAt(s, h, k.0, k.1).value
  }

  function RefMap(refs: map<(nat, nat), seq<Ref>>, s: seq<Entry>): map<(nat, nat), seq<Ref>> {
    map k | k in refs && RefsOf(s, k.0, k.1) != [] :: RefsOf(s, k.0, k.1)
  }

  /** Only the entries of keep stay; inodes without an entry go with everything they own. */
  function Pruned(st: State, h: Hash, keep: set<Entry>): State {
    var s := Keep(st.index, keep);
    var inodes := InodesOf(st.inodes, s);
    State(inodes, st.bodies * inodes.Keys, s, ItemsOf(st.items, s, h), RefMap(st.refs, s))
  }

  /** st' has some of the inodes of st, with their kinds, files with their sizes, and their data. */
  ghost predicate Derived(st: State, st': State) {
    && (forall c :: c in st'.inodes ==> c in st.inodes && st'.inodes[c].kind == st.inodes[c].kind)
    && (forall c :: c in st'.inodes && st.inodes[c].kind != Dir ==> st'.inodes[c].size == st.inodes[c].size)
    && st'.bodies == st.bodies * st'.inodes.Keys
  }

  lemma {:induction false} DerivedTrans(a: State, b: State, c: State)
    requires Derived(a, b) && Derived(b, c)
    ensures Derived(a, c)
  {
  }

  lemma {:induction false} RemovedDerived(st: State, h: Hash, c: nat, p: nat, name: string)
    requires st.bodies <= st.inodes.Keys && p in st.inodes && st.inodes[p].kind == Dir && c != p
    ensures Derived(st, Removed(st, h, c, p, name))
  {
    hide WithoutEntry, WithoutRef;
  }

  /** Every kept DIR_ITEM and INODE_REF was there before. */
  lemma {:induction false} KeptRecords(st: State, h: Hash, keep: set<Entry>, p: nat, x: nat)
    requires Consistent(st, h)
    ensures var s := Keep(st.index, keep);
            && (ItemAt(s, h, p, x).Some? ==> (p, x) in st.items)
            && (RefsOf(s, p, x) != [] ==> (p, x) in st.refs)
  {
    hide ItemAt, RefsOf, Keep, Counted, Grounded;
    var s := Keep(st.index, keep);
    if ItemAt(s, h, p, x).Some? {
      ItemFrom(s, h, p, x);
      var i :| 0 <= i < |s| && s[i].parent == p && h(s[i].d.name) == x;
      KeepHas(st.index, keep, s[i]);
      var j :| 0 <= j < |st.index| && st.index[j] == s[i];
      ItemFrom(st.index, h, p, x);
      assert ItemAt(st.index, h, p, x) == if (p, x) in st.items then Some(st.items[(p, x)]) else None;
    }
    if RefsOf(s, p, x) != [] {
      var r := RefsOf(s, p, x)[0];
      RefFrom(s, p, x, r);
      var i :| 0 <= i < |s| && s[i].parent == x && s[i].d.child == p && Ref(s[i].idx, s[i].d.name) == r;
      KeepHas(st.index, keep, s[i]);
      var j :| 0 <= j < |st.index| && st.index[j] == s[i];
      RefFrom(st.index, p, x, r);
      assert RefsOf(st.index, p, x) == RefsHere(st.refs, p, x);
    }
  }

  /** DIR_ITEM and INODE_REF items are determined by the entries they agree with. */
  lemma {:induction false} SameRecords(st: State, st': State, h: Hash, keep: set<Entry>)
    requires Consistent(st, h) && Agree(st', h) && st'.index == Keep(st.index, keep)
    ensures st'.items == Pruned(st, h, keep).items && st'.refs == Pruned(st, h, keep).refs
  {
    hide ItemAt, RefsOf, Keep, Counted, Grounded, Distinct, InodesOf, Consistent;
    var t := Pruned(st, h, keep);
    forall k
      ensures k in st'.items <==> k in t.items
      ensures k in st'.items ==> st'.items[k] == t.items[k]
    {
      KeptRecords(st, h, keep, k.0, k.1);
      assert ItemAt(st'.index, h, k.0, k.1) == if (k.0, k.1) in st'.items then Some(st'.items[(k.0, k.1)]) else None;
    }
    forall k
      ensures k in st'.refs <==> k in t.refs
      ensures k in st'.refs ==> st'.refs[k] == t.refs[k]
    {
      KeptRecords(st, h, keep, k.0, k.1);
      assert RefsOf(st'.index, k.0, k.1) == RefsHere(st'.refs, k.0, k.1);
    }
  }

  lemma {:induction false} SameInodes(st: State, st': State, h: Hash, keep: set<Entry>)
    requires Consistent(st, h) && Consistent(st', h) && st'.index == Keep(st.index, keep) && Derived(st, st')
    ensures st'.inodes == InodesOf(st.inodes, st'.index)
  {
    hide Agree, Links, DirSize, Keep;
    forall c
      ensures c in st'.inodes <==> c in st.inodes && (c == ROOT || Links(st'.index, c) > 0)
      ensures c in st'.inodes ==> st'.inodes[c] == Recounted(st.inodes[c], c, st'.index)
    {
      if c in st'.inodes {
        assert InodeRight(st'.inodes[c], c, st'.index);
        assert InodeRight(st.inodes[c], c, st.index);
      } else {
        LinksZero(st'.index, c);
      }
    }
  }

  /** A consistent state with the kept entries that derives from st is the pruned one. */
  lemma {:induction false} PrunedUnique(st: State, st': State, h: Hash, keep: set<Entry>)
    requires Consistent(st, h) && Consistent(st', h) && st'.index == Keep(st.index, keep) && Derived(st, st')
    ensures st' == Pruned(st, h, keep)
  {
    hide Agree, Grounded, Counted, Keep, InodesOf, ItemsOf, RefMap;
    SameRecords(st, st', h, keep);
    SameInodes(st, st', h, keep);
  }

  // ---- pruning keeps the invariant ------------------------------------------------------------------------

  /** A kept entry's directory is the root or is itself kept. */
  ghost predicate Upward(s: seq<Entry>, keep: set<Entry>) {
    forall e :: e in s && e in keep ==> e.parent == ROOT || exists f :: f in s && f in keep && f.d.child == e.parent
  }

  lemma {:induction false} PrunedAgree(st: State, h: Hash, keep: set<Entry>)
    requires Consistent(st, h)
    ensures Agree(Pruned(st, h, keep), h)
  {
    hide ItemAt, RefsOf, Keep, Counted, Grounded, Distinct, InodesOf;
    var t := Pruned(st, h, keep);
    KeepDistinct(st.index, h, keep);
    forall p: nat, x: nat
      ensures ItemAt(t.index, h, p, x) == if (p, x) in t.items then Some(t.items[(p, x)]) else None
      ensures RefsOf(t.index, p, x) == RefsHere(t.refs, p, x)
    {
      KeptRecords(st, h, keep, p, x);
    }
  }

  lemma {:induction false} PrunedGrounded(st: State, h: Hash, keep: set<Entry>)
    requires Consistent(st, h) && Upward(st.index, keep)
    ensures Grounded(Pruned(st, h, keep).inodes, Pruned(st, h, keep).index)
  {
    hide Agree, Keep, Counted, Links, ItemsOf, RefMap;
    var s := Keep(st.index, keep);
    forall i | 0 <= i < |s|
      ensures s[i] in st.index && s[i] in keep && Links(s, s[i].d.child) > 0
      ensures s[i].parent == ROOT || Links(s, s[i].parent) > 0
    {
      KeepHas(st.index, keep, s[i]);
      LinksPositive(s, i);
      if s[i].parent != ROOT {
        var f :| f in st.index && f in keep && f.d.child == s[i].parent;
        KeepHas(st.index, keep, f);
        var j :| 0 <= j < |s| && s[j] == f;
        LinksPositive(s, j);
      }
    }
  }

  lemma {:induction false} PrunedCounted(st: State, h: Hash, keep: set<Entry>)
    requires Consistent(st, h)
    ensures Counted(Pruned(st, h, keep).inodes, Pruned(st, h, keep).index)
  {
    hide Agree, Keep, Grounded, Links, DirSize, ItemsOf, RefMap;
    var t := Pruned(st, h, keep);
    assert st.inodes[ROOT].kind == Dir;
    forall c | c in t.inodes
      ensures InodeRight(t.inodes[c], c, t.index)
    {
      KeepLinks(st.index, keep, c);
      assert InodeRight(st.inodes[c], c, st.index);
    }
  }

  /** Pruning keeps the invariant when every kept entry stays reachable. */
  lemma {:induction false} PrunedGood(st: State, h: Hash, keep: set<Entry>)
    requires Good(st, h) && Upward(st.index, keep)
    ensures Good(Pruned(st, h, keep), h)
  {
    hide Agree, Keep, Grounded, Counted, ItemsOf, RefMap, Links, IsTree;
    var t := Pruned(st, h, keep);
    PrunedAgree(st, h, keep);
    PrunedGrounded(st, h, keep);
    PrunedCounted(st, h, keep);
    forall e | e in t.index
      ensures e in st.index
    {
      KeepHas(st.index, keep, e);
    }
    SubTree(st.index, t.index);
  }

  // ---- deleting a directory with its contents ---------------------------------------------------------------

  /** The entries outside directory c, without its own entry. */
  ghost function Outside(s: seq<Entry>, c: nat, p: nat, name: string): set<Entry> {
    set e | e in s && !Below(s, c, e.parent) && !(e.parent == p && e.d.name == name)
  }

  /** What is inside does not depend on the ranks chosen. */
  lemma {:induction false} InsideAnyRank(s: seq<Entry>, rank: nat -> nat, rank': nat -> nat, d: nat, x: nat)
    requires Ranked(s, rank) && Ranked(s, rank') && Inside(s, rank, d, x)
    ensures Inside(s, rank', d, x)
    decreases rank(d)
  {
    if d != x {
      var i :| 0 <= i < |s| && s[i].d.kind == Dir && s[i].parent == d && Inside(s, rank, s[i].d.child, x);
      InsideAnyRank(s, rank, rank', s[i].d.child, x);
    }
  }

  lemma {:induction false} BelowIsInside(s: seq<Entry>, rank: nat -> nat, d: nat, x: nat)
    requires Ranked(s, rank)
    ensures Below(s, d, x) <==> Inside(s, rank, d, x)
  {
    if Below(s, d, x) {
      var r: nat -> nat :| Ranked(s, r) && Inside(s, r, d, x);
      InsideAnyRank(s, r, rank, d, x);
    }
  }

  /** The entry through which a directory below d is reached. */
  lemma {:induction false} InsideUp(s: seq<Entry>, rank: nat -> nat, d: nat, x: nat) returns (g: Entry)
    requires Ranked(s, rank) && Inside(s, rank, d, x) && x != d
    ensures g in s && g.d.kind == Dir && g.d.child == x && Inside(s, rank, d, g.parent)
    decreases rank(d)
  {
    var i :| 0 <= i < |s| && s[i].d.kind == Dir && s[i].parent == d && Inside(s, rank, s[i].d.child, x);
    if s[i].d.child == x {
      g := s[i];
      assert Inside(s, rank, d, d);
    } else {
      g := InsideUp(s, rank, s[i].d.child, x);
      assert Inside(s, rank, d, g.parent);
    }
  }

  /** A directory that is not the root has an entry. */
  lemma {:induction false} DirHasEntry(st: State, h: Hash, x: nat) returns (f: Entry)
    requires Consistent(st, h) && x in st.inodes && st.inodes[x].kind == Dir && x != ROOT
    ensures f in st.index && f.d.child == x && f.d.kind == Dir
  {
    hide Agree, Links, DirSize;
    assert InodeRight(st.inodes[x], x, st.index);
    LinksZero(st.index, x);
    var i :| 0 <= i < |st.index| && st.index[i].d.child == x;
    f := st.index[i];
  }

  lemma {:induction false} OutsideUpward(st: State, h: Hash, c: nat, p: nat, name: string)
    requires Good(st, h) && Lookup(st, h, p, name).Some? && Lookup(st, h, p, name).value.child == c
             && Lookup(st, h, p, name).value.kind == Dir
    ensures Upward(st.index, Outside(st.index, c, p, name))
  {
    hide Agree, Counted, Lookup, Inside, Below;
    var keep := Outside(st.index, c, p, name);
    var rank :| Ranked(st.index, rank);
    var i := LookupEntry(st, h, p, name);
    forall e | e in st.index && e in keep && e.parent != ROOT
      ensures exists f :: f in st.index && f in keep && f.d.child == e.parent
    {
      var k :| 0 <= k < |st.index| && st.index[k] == e;
      var f := DirHasEntry(st, h, e.parent);
      var j :| 0 <= j < |st.index| && st.index[j] == f;
      BelowIsInside(st.index, rank, c, e.parent);
      BelowIsInside(st.index, rank, c, f.parent);
      if Inside(st.index, rank, c, f.parent) {
        InsideDown(st.index, rank, c, j);
      }
      if f.parent == p && f.d.name == name {
        AgreeDistinct(st, h);
        FoundAt(st.index, h, p, name, j);
        FoundAt(st.index, h, p, name, i);
        InsideSelf(st.index, rank, c);
      }
      assert f in keep;
    }
  }

  lemma {:induction false} InsideSelf(s: seq<Entry>, rank: nat -> nat, d: nat)
    requires Ranked(s, rank)
    ensures Inside(s, rank, d, d)
  {
  }

  /** When a consistent state has lost entries of st and directory d is empty in it, everything below d is
      gone: each directory left would need an entry, up to one in d. */
  lemma {:induction false} AllBelowGone(st: State, st': State, h: Hash, rank: nat -> nat, d: nat, e: Entry)
    requires Consistent(st, h) && Consistent(st', h) && Ranked(st.index, rank)
    requires (forall x :: x in st'.index ==> x in st.index) && EmptyDir(st'.index, d)
    requires e in st'.index
    ensures !Inside(st.index, rank, d, e.parent)
    decreases if rank(e.parent) <= rank(d) then rank(d) - rank(e.parent) else 0
  {
    hide Agree, Counted, Inside;
    var k :| 0 <= k < |st'.index| && st'.index[k] == e;
    if Inside(st.index, rank, d, e.parent) {
      var g := InsideUp(st.index, rank, d, e.parent);
      var j :| 0 <= j < |st.index| && st.index[j] == g;
      var f := DirHasEntry(st', h, e.parent);
      OnlyEntry(st, h, j, f);
      InsideRank(st.index, rank, d, e.parent);
      InsideRank(st.index, rank, d, g.parent);
      AllBelowGone(st, st', h, rank, d, f);
      assert false;
    }
  }
}
