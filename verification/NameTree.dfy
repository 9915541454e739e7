/** The directories form a tree (rename.go): creating, linking and removing keep it one; renaming does
    exactly when a directory is not moved below itself, which the driver does not check. */
module NameTree {
  import opened Names
  import opened NamesKeep
  import opened NameOps
  import opened NameMove

  /** Directories get smaller ranks on the way down, so no directory is inside itself. */
  ghost predicate Ranked(s: seq<Entry>, rank: nat -> nat) {
    forall i :: 0 <= i < |s| && s[i].d.kind == Dir ==> rank(s[i].d.child) < rank(s[i].parent)
  }

  ghost predicate IsTree(s: seq<Entry>) {
    exists rank: nat -> nat :: Ranked(s, rank)
  }

  /** x is d or a directory below d. */
  ghost predicate Inside(s: seq<Entry>, rank: nat -> nat, d: nat, x: nat)
    requires Ranked(s, rank)
    decreases rank(d)
  {
    d == x || exists i :: 0 <= i < |s| && s[i].d.kind == Dir && s[i].parent == d && Inside(s, rank, s[i].d.child, x)
  }

  lemma {:induction false} InsideRank(s: seq<Entry>, rank: nat -> nat, d: nat, x: nat)
    requires Ranked(s, rank) && Inside(s, rank, d, x)
    ensures rank(x) <= rank(d)
    decreases rank(d)
  {
    if d != x {
      var i :| 0 <= i < |s| && s[i].d.kind == Dir && s[i].parent == d && Inside(s, rank, s[i].d.child, x);
      InsideRank(s, rank, s[i].d.child, x);
    }
  }

  /** What is below something inside is inside. */
  lemma {:induction false} InsideDown(s: seq<Entry>, rank: nat -> nat, d: nat, i: nat)
    requires Ranked(s, rank) && i < |s| && s[i].d.kind == Dir && Inside(s, rank, d, s[i].parent)
    ensures Inside(s, rank, d, s[i].d.child)
    decreases rank(d)
  {
    if d == s[i].parent {
      assert Inside(s, rank, s[i].d.child, s[i].d.child);
    } else {
      var j :| 0 <= j < |s| && s[j].d.kind == Dir && s[j].parent == d && Inside(s, rank, s[j].d.child, s[i].parent);
      InsideDown(s, rank, s[j].d.child, i);
    }
  }

  /** A way down that avoids top is also a way down in the kept entries. */
  lemma {:induction false} InsideStepsFrom(s: seq<Entry>, rank: nat -> nat, rank': nat -> nat, keep: seq<Entry>,
                                           top: nat, d: nat, x: nat)
    requires Ranked(s, rank) && Inside(s, rank, d, x) && Ranked(keep, rank') && rank(d) <= rank(top)
    requires forall i :: 0 <= i < |s| && s[i].d.kind == Dir && s[i].d.child != top ==> s[i] in keep
    ensures rank'(x) <= rank'(d)
    decreases rank(d)
  {
    if d != x {
      var i :| 0 <= i < |s| && s[i].d.kind == Dir && s[i].parent == d && Inside(s, rank, s[i].d.child, x);
      assert rank(s[i].d.child) < rank(d);
      var j :| 0 <= j < |keep| && keep[j] == s[i];
      InsideStepsFrom(s, rank, rank', keep, top, s[i].d.child, x);
    }
  }

  // ---- renaming ----------------------------------------------------------------------------------------

  /** The index a move leaves, directory entries only: the same ones with the source's parent replaced. */
  ghost predicate MovedDirs(s: seq<Entry>, t: seq<Entry>, c: nat, np: nat) {
    && (forall e :: e in t && e.d.kind == Dir ==> (e in s && e.d.child != c) || (e.d.child == c && e.parent == np))
    && (forall e :: e in s && e.d.kind == Dir && e.d.child != c ==> e in t)
    && (exists e :: e in t && e.d.kind == Dir && e.d.child == c && e.parent == np)
  }

  /** Ranks after the move: the subtree keeps its ranks, everything else is lifted above it. */
  ghost function Lifted(s: seq<Entry>, rank: nat -> nat, c: nat): nat -> nat
    requires Ranked(s, rank)
  {
    x => if Inside(s, rank, c, x) then rank(x) else rank(x) + rank(c) + 1
  }

  lemma {:induction false} MoveDown(t: seq<Entry>, rank': nat -> nat, c: nat, np: nat, e: Entry)
    requires Ranked(t, rank') && e in t && e.d.kind == Dir && e.d.child == c && e.parent == np
    ensures rank'(c) < rank'(np)
  {
    var i :| 0 <= i < |t| && t[i] == e;
  }

  /** With the new parent inside the moved directory no ranks can exist. */
  lemma {:induction false} NoRanks(s: seq<Entry>, t: seq<Entry>, rank: nat -> nat, rank': nat -> nat, c: nat, np: nat)
    requires Ranked(s, rank) && MovedDirs(s, t, c, np) && Inside(s, rank, c, np)
    ensures !Ranked(t, rank')
  {
    forall i | 0 <= i < |s| && s[i].d.kind == Dir && s[i].d.child != c
      ensures s[i] in t
    {
      assert s[i] in s;
    }
    var e :| e in t && e.d.kind == Dir && e.d.child == c && e.parent == np;
    if Ranked(t, rank') {
      MoveDown(t, rank', c, np, e);
      InsideStepsFrom(s, rank, rank', t, c, c, np);
      assert false;
    }
  }

  /** Moving a directory keeps the directories a tree exactly when the new parent is not inside it. */
  lemma {:induction false} MoveTreeIff(s: seq<Entry>, t: seq<Entry>, rank: nat -> nat, c: nat, np: nat)
    requires Ranked(s, rank) && MovedDirs(s, t, c, np)
    ensures IsTree(t) <==> !Inside(s, rank, c, np)
  {
    if Inside(s, rank, c, np) {
      forall rank': nat -> nat
        ensures !Ranked(t, rank')
      {
        NoRanks(s, t, rank, rank', c, np);
      }
    } else {
      LiftedRanks(s, t, rank, c, np);
    }
  }

  lemma {:induction false} LiftedRanks(s: seq<Entry>, t: seq<Entry>, rank: nat -> nat, c: nat, np: nat)
    requires Ranked(s, rank) && MovedDirs(s, t, c, np) && !Inside(s, rank, c, np)
    ensures Ranked(t, Lifted(s, rank, c))
  {
    var r := Lifted(s, rank, c);
    forall i | 0 <= i < |t| && t[i].d.kind == Dir
      ensures r(t[i].d.child) < r(t[i].parent)
    {
      var e := t[i];
      assert e in t;
      if e.d.child == c {
        assert Inside(s, rank, c, c);
      } else {
        var j :| 0 <= j < |s| && s[j] == e;
        if Inside(s, rank, c, e.parent) {
          InsideDown(s, rank, c, j);
        } else if Inside(s, rank, c, e.d.child) {
          InsideRank(s, rank, c, e.d.child);
        }
      }
    }
  }

  /** x is c or a directory below it, in a tree. */
  ghost predicate Below(s: seq<Entry>, c: nat, x: nat) {
    exists rank: nat -> nat :: Ranked(s, rank) && Inside(s, rank, c, x)
  }

  lemma {:induction false} OnlyEntry(st: State, h: Hash, i: nat, e: Entry)
    requires Consistent(st, h) && i < |st.index| && st.index[i].d.kind == Dir && e in st.index
             && e.d.child == st.index[i].d.child
    ensures e == st.index[i]
  {
    hide Agree, Links, DirSize;
    var c := st.index[i].d.child;
    var j :| 0 <= j < |st.index| && st.index[j] == e;
    var r := Rest(st.index, i);
    if j != i {
      var k := if j < i then j else j - 1;
      assert r[k] == e;
      LinksPositive(r, k);
    }
    DropCounts(st.index, i, c);
    assert InodeRight(st.inodes[c], c, st.index);
  }

  /** What a rename does to the entries. */
  lemma {:induction false} RenamedEntries(st: State, h: Hash, op: nat, on: string, np: nat, nn: string, e: Entry)
    returns (n: Entry)
    requires Consistent(st, h) && Renamed(st, h, op, on, np, nn).Moved? && !(op == np && on == nn)
    ensures n.parent == np && n.d == DirItem(Lookup(st, h, op, on).value.child, Lookup(st, h, op, on).value.kind, nn)
    ensures n in Renamed(st, h, op, on, np, nn).st.index
    ensures e in Renamed(st, h, op, on, np, nn).st.index <==>
            e == n || (e in st.index && !(e.parent == np && e.d.name == nn) && !(e.parent == op && e.d.name == on))
  {
    hide Agree, Grounded, Counted, Lookup, Cleared, NextIdx, WithoutRef, WithRef, WithoutEntry;
    var s1, d := Cleared(st, h, np, nn), Lookup(st, h, op, on).value;
    ClearedKeeps(st, h, np, nn, op, on);
    var j := LookupEntry(s1, h, op, on);
    AgreeDistinct(s1, h);
    MovedIndex(s1, h, j, d, op, on, np, nn);
    n := NewEntry(DropEntry(s1, h, d.child, op, on), np, nn, d.child, d.kind);
    ClearedIndex(st, h, np, nn, e);
    RestHas(s1.index, h, j, e);
    assert Renamed(st, h, op, on, np, nn).st.index == Rest(s1.index, j) + [n];
    assert Renamed(st, h, op, on, np, nn).st.index[|Rest(s1.index, j)|] == n;
  }

  lemma {:induction false} RenamedDirs(st: State, h: Hash, op: nat, on: string, np: nat, nn: string)
    requires Consistent(st, h) && Renamed(st, h, op, on, np, nn).Moved? && !(op == np && on == nn)
    requires Lookup(st, h, op, on).value.kind == Dir
    ensures MovedDirs(st.index, Renamed(st, h, op, on, np, nn).st.index, Lookup(st, h, op, on).value.child, np)
  {
    hide Agree, Counted, Lookup, Renamed, Grounded;
    SourceFound(st, h, op, on, np, nn);
    var d, t := Lookup(st, h, op, on).value, Renamed(st, h, op, on, np, nn).st.index;
    var i := LookupEntry(st, h, op, on);
    forall e | e in t && e.d.kind == Dir
      ensures (e in st.index && e.d.child != d.child) || (e.d.child == d.child && e.parent == np)
    {
      var n := RenamedEntries(st, h, op, on, np, nn, e);
      if e != n && e.d.child == d.child {
        OnlyEntry(st, h, i, e);
      }
    }
    forall e | e in st.index && e.d.kind == Dir && e.d.child != d.child
      ensures e in t
    {
      var n := RenamedEntries(st, h, op, on, np, nn, e);
      DestinationFile(st, h, op, on, np, nn, e);
      SourceOnly(st, h, i, e);
    }
    var n := RenamedEntries(st, h, op, on, np, nn, st.index[i]);
  }

  lemma {:induction false} SourceFound(st: State, h: Hash, op: nat, on: string, np: nat, nn: string)
    requires Renamed(st, h, op, on, np, nn).Moved?
    ensures Lookup(st, h, op, on).Some?
    ensures Lookup(st, h, np, nn).Some? ==> Lookup(st, h, np, nn).value.kind != Dir
  {
  }

  /** No directory entry has the destination's name. */
  lemma {:induction false} DestinationFile(st: State, h: Hash, op: nat, on: string, np: nat, nn: string, e: Entry)
    requires Consistent(st, h) && Renamed(st, h, op, on, np, nn).Moved? && e in st.index && e.d.kind == Dir
    ensures !(e.parent == np && e.d.name == nn)
  {
    hide Agree, Counted, Lookup, Renamed, Grounded;
    SourceFound(st, h, op, on, np, nn);
    LookupIs(st, h, np, nn);
    AgreeDistinct(st, h);
    var j :| 0 <= j < |st.index| && st.index[j] == e;
    if e.parent == np && e.d.name == nn {
      LookupUnique(st.index, h, np, nn, j);
      assert false;
    }
  }

  lemma {:induction false} SourceOnly(st: State, h: Hash, i: nat, e: Entry)
    requires Consistent(st, h) && i < |st.index| && e in st.index && e.d.child != st.index[i].d.child
    ensures !(e.parent == st.index[i].parent && e.d.name == st.index[i].d.name)
  {
    hide Counted, Grounded, ItemsMatch, RefsMatch;
    var j :| 0 <= j < |st.index| && st.index[j] == e;
    assert j < i || i < j;
  }

  /** A rename between different entries keeps the directories a tree exactly when it does not move a
      directory into itself or below. */
  lemma {:induction false} RenamedTreeIff(st: State, h: Hash, op: nat, on: string, np: nat, nn: string)
    requires Consistent(st, h) && IsTree(st.index) && Renamed(st, h, op, on, np, nn).Moved? && !(op == np && on == nn)
    ensures IsTree(Renamed(st, h, op, on, np, nn).st.index) <==>
            (Lookup(st, h, op, on).value.kind != Dir || !Below(st.index, Lookup(st, h, op, on).value.child, np))
  {
    hide Consistent, Lookup, Renamed, Inside;
    SourceFound(st, h, op, on, np, nn);
    var d, t := Lookup(st, h, op, on).value, Renamed(st, h, op, on, np, nn).st.index;
    if d.kind != Dir {
      var rank :| Ranked(st.index, rank);
      forall i | 0 <= i < |t| && t[i].d.kind == Dir
        ensures rank(t[i].d.child) < rank(t[i].parent)
      {
        var n := RenamedEntries(st, h, op, on, np, nn, t[i]);
        assert t[i] in t;
        var j :| 0 <= j < |st.index| && st.index[j] == t[i];
      }
      assert Ranked(t, rank);
    } else {
      RenamedDirs(st, h, op, on, np, nn);
      forall rank: nat -> nat | Ranked(st.index, rank)
        ensures IsTree(t) <==> !Inside(st.index, rank, d.child, np)
      {
        MoveTreeIff(st.index, t, rank, d.child, np);
      }
      var rank :| Ranked(st.index, rank);
    }
  }

  // ---- the other operations ------------------------------------------------------------------------------

  lemma {:induction false} SubTree(s: seq<Entry>, t: seq<Entry>)
    requires IsTree(s) && forall e :: e in t && e.d.kind == Dir ==> e in s
    ensures IsTree(t)
  {
    var rank :| Ranked(s, rank);
    forall i | 0 <= i < |t| && t[i].d.kind == Dir
      ensures rank(t[i].d.child) < rank(t[i].parent)
    {
      assert t[i] in t;
      var j :| 0 <= j < |s| && s[j] == t[i];
    }
    assert Ranked(t, rank);
  }

  lemma {:induction false} CreatedTree(st: State, h: Hash, ino: nat, p: nat, name: string, kind: Kind, len: nat)
    requires Consistent(st, h) && IsTree(st.index) && IsNext(st, ino) && p in st.inodes
    ensures IsTree(Created(st, h, ino, p, name, kind, len).index)
  {
    hide Agree, Counted, NextIdx;
    var rank :| Ranked(st.index, rank);
    var rank' := x => if x == ino then 0 else rank(x) + 1;
    var t := Created(st, h, ino, p, name, kind, len).index;
    forall i | 0 <= i < |t| && t[i].d.kind == Dir
      ensures rank'(t[i].d.child) < rank'(t[i].parent)
    {
      if i < |st.index| {
        assert t[i] == st.index[i];
      }
    }
    assert Ranked(t, rank');
  }

  lemma {:induction false} LinkedTree(st: State, h: Hash, c: nat, p: nat, name: string)
    requires IsTree(st.index) && c in st.inodes && st.inodes[c].kind != Dir
    ensures IsTree(Linked(st, h, c, p, name).index)
  {
    SubTree(st.index, Linked(st, h, c, p, name).index);
  }

  /** The invariant: the records agree, counts and sizes are right, and the directories are a tree. */
  ghost predicate Good(st: State, h: Hash) {
    Consistent(st, h) && IsTree(st.index)
  }

  /** The empty file system. */
  function Start(): State {
    State(map[ROOT := Inode(Dir, 1, 0)], {}, [], map[], map[])
  }

  lemma {:induction false} StartGood(h: Hash)
    ensures Good(Start(), h)
  {
    assert Ranked([], x => 0);
  }
}
