/** Directory entries as the driver records them three times (write.go, dir.go, delete.go): DIR_INDEX by
    position, DIR_ITEM by name hash, INODE_REF from the child back to the parent. */
module Names {
  import opened Keys

  const ROOT: nat := 256

  type Hash = string -> nat

  datatype Kind = File | Symlink | Dir
  datatype Inode = Inode(kind: Kind, nlink: nat, size: nat)
  datatype DirItem = DirItem(child: nat, kind: Kind, name: string)
  /** A DIR_INDEX item. */
  datatype Entry = Entry(parent: nat, idx: nat, d: DirItem)
  /** One back-reference of an INODE_REF item. */
  datatype Ref = Ref(idx: nat, name: string)

  /** The items of a file tree: inodes by number, the inodes that have file data, DIR_INDEX items,
      DIR_ITEM items by (directory, name hash), INODE_REF items by (child, directory). */
  datatype State = State(inodes: map<nat, Inode>, bodies: set<nat>, index: seq<Entry>,
                         items: map<(nat, nat), DirItem>, refs: map<(nat, nat), seq<Ref>>)

  // ---- what the DIR_INDEX items determine ------------------------------------------------------------

  function Links(s: seq<Entry>, c: nat): nat {
    if s == [] then 0 else Links(s[..|s| - 1], c) + if s[|s| - 1].d.child == c then 1 else 0
  }

  function NameSize(name: string): nat {
    2 * |name|
  }

  function DirSize(s: seq<Entry>, p: nat): nat {
    if s == [] then 0 else DirSize(s[..|s| - 1], p) + if s[|s| - 1].parent == p then NameSize(s[|s| - 1].d.name) else 0
  }

  function RefOf(e: Entry, c: nat, p: nat): seq<Ref> {
    if e.d.child == c && e.parent == p then [Ref(e.idx, e.d.name)] else []
  }

  function RefsOf(s: seq<Entry>, c: nat, p: nat): seq<Ref> {
    if s == [] then [] else RefsOf(s[..|s| - 1], c, p) + RefOf(s[|s| - 1], c, p)
  }

  /** The entry of directory p whose name hashes to x. */
  function ItemAt(s: seq<Entry>, h: Hash, p: nat, x: nat): Option<DirItem> {
    if s == [] then None
    else
      var e := s[|s| - 1];
      if e.parent == p && h(e.d.name) == x then Some(e.d) else ItemAt(s[..|s| - 1], h, p, x)
  }

  /** The first entry of directory p with the name, or the number of entries. */
  function FindName(s: seq<Entry>, p: nat, name: string): (i: nat)
    ensures i <= |s|
    ensures i < |s| ==> s[i].parent == p && s[i].d.name == name
    ensures forall j :: 0 <= j < i ==> !(s[j].parent == p && s[j].d.name == name)
  {
    if s == [] || (s[0].parent == p && s[0].d.name == name) then 0
    else
      var q := FindName(s[1..], p, name);
      assert forall j :: 0 < j < q + 1 ==> s[j] == s[1..][j - 1];
      q + 1
  }

  /** nextDirIndexOffset. */
  function NextIdx(s: seq<Entry>, p: nat): (m: nat)
    ensures m > 2
    ensures forall i :: 0 <= i < |s| && s[i].parent == p ==> s[i].idx < m
    ensures m == 3 || exists i :: 0 <= i < |s| && s[i].parent == p && s[i].idx == m - 1
  {
    if s == [] then 3
    else
      var e, m := s[|s| - 1], NextIdx(s[..|s| - 1], p);
      assert forall i :: 0 <= i < |s| - 1 ==> s[i] == s[..|s| - 1][i];
      if e.parent == p && e.idx >= m then e.idx + 1 else m
  }

  function OneIf(b: bool): nat {
    if b then 1 else 0
  }

  lemma {:induction false} LinksConcat(a: seq<Entry>, b: seq<Entry>, c: nat)
    ensures Links(a + b, c) == Links(a, c) + Links(b, c)
  {
    if b == [] {
      assert a + b == a;
    } else {
      LinksConcat(a, b[..|b| - 1], c);
      assert (a + b)[..|a + b| - 1] == a + b[..|b| - 1];
    }
  }

  lemma {:induction false} DirSizeConcat(a: seq<Entry>, b: seq<Entry>, p: nat)
    ensures DirSize(a + b, p) == DirSize(a, p) + DirSize(b, p)
  {
    if b == [] {
      assert a + b == a;
    } else {
      DirSizeConcat(a, b[..|b| - 1], p);
      assert (a + b)[..|a + b| - 1] == a + b[..|b| - 1];
    }
  }

  lemma {:induction false} RefsConcat(a: seq<Entry>, b: seq<Entry>, c: nat, p: nat)
    ensures RefsOf(a + b, c, p) == RefsOf(a, c, p) + RefsOf(b, c, p)
  {
    hide RefOf;
    if b == [] {
      assert a + b == a;
    } else {
      RefsConcat(a, b[..|b| - 1], c, p);
      assert (a + b)[..|a + b| - 1] == a + b[..|b| - 1];
    }
  }

  lemma {:induction false} ItemConcat(a: seq<Entry>, b: seq<Entry>, h: Hash, p: nat, x: nat)
    ensures ItemAt(a + b, h, p, x) == if ItemAt(b, h, p, x).Some? then ItemAt(b, h, p, x) else ItemAt(a, h, p, x)
  {
    if b == [] {
      assert a + b == a;
    } else {
      ItemConcat(a, b[..|b| - 1], h, p, x);
      assert (a + b)[..|a + b| - 1] == a + b[..|b| - 1];
    }
  }

  /** One entry alone. */
  lemma {:induction false} OfOne(e: Entry, h: Hash, c: nat, p: nat, x: nat)
    ensures Links([e], c) == OneIf(e.d.child == c)
    ensures DirSize([e], p) == if e.parent == p then NameSize(e.d.name) else 0
    ensures RefsOf([e], c, p) == RefOf(e, c, p)
    ensures ItemAt([e], h, p, x) == if e.parent == p && h(e.d.name) == x then Some(e.d) else None
  {
    assert [e][..0] == [];
  }

  lemma {:induction false} LinksZero(s: seq<Entry>, c: nat)
    ensures Links(s, c) == 0 <==> forall i :: 0 <= i < |s| ==> s[i].d.child != c
  {
    if s != [] {
      LinksZero(s[..|s| - 1], c);
      assert forall i :: 0 <= i < |s| - 1 ==> s[i] == s[..|s| - 1][i];
    }
  }

  lemma {:induction false} DirSizeZero(s: seq<Entry>, p: nat)
    requires forall i :: 0 <= i < |s| ==> s[i].parent != p
    ensures DirSize(s, p) == 0
  {
    if s != [] {
      DirSizeZero(s[..|s| - 1], p);
    }
  }

  lemma {:induction false} RefsBound(s: seq<Entry>, c: nat, p: nat)
    ensures |RefsOf(s, c, p)| <= Links(s, c)
  {
    if s != [] {
      RefsBound(s[..|s| - 1], c, p);
    }
  }

  /** Every reference comes from an entry. */
  lemma {:induction false} RefFrom(s: seq<Entry>, c: nat, p: nat, r: Ref)
    ensures r in RefsOf(s, c, p) <==>
            exists i :: 0 <= i < |s| && s[i].parent == p && s[i].d.child == c && Ref(s[i].idx, s[i].d.name) == r
  {
    if s != [] {
      var t, e := s[..|s| - 1], s[|s| - 1];
      RefFrom(t, c, p, r);
      if i :| 0 <= i < |t| && t[i].parent == p && t[i].d.child == c && Ref(t[i].idx, t[i].d.name) == r {
        assert s[i] == t[i];
      }
      if i :| 0 <= i < |s| && s[i].parent == p && s[i].d.child == c && Ref(s[i].idx, s[i].d.name) == r {
        assert i < |t| ==> t[i] == s[i];
      }
    }
  }

  lemma {:induction false} ItemFrom(s: seq<Entry>, h: Hash, p: nat, x: nat)
    ensures ItemAt(s, h, p, x).Some? <==> exists i :: 0 <= i < |s| && s[i].parent == p && h(s[i].d.name) == x
    ensures ItemAt(s, h, p, x).Some? ==>
            exists i :: 0 <= i < |s| && s[i].parent == p && h(s[i].d.name) == x && s[i].d == ItemAt(s, h, p, x).value
  {
    if s != [] {
      var t := s[..|s| - 1];
      ItemFrom(t, h, p, x);
      assert forall i :: 0 <= i < |t| ==> s[i] == t[i];
    }
  }

  // ---- the three records agree -----------------------------------------------------------------------

  /** In one directory, positions and name hashes are distinct. */
  ghost predicate Distinct(s: seq<Entry>, h: Hash) {
    forall i, j :: 0 <= i < j < |s| && s[i].parent == s[j].parent ==>
      s[i].idx != s[j].idx && h(s[i].d.name) != h(s[j].d.name)
  }

  ghost predicate ItemsMatch(s: seq<Entry>, items: map<(nat, nat), DirItem>, h: Hash) {
    forall p: nat, x: nat :: ItemAt(s, h, p, x) == if (p, x) in items then Some(items[(p, x)]) else None
  }

  function RefsHere(refs: map<(nat, nat), seq<Ref>>, c: nat, p: nat): seq<Ref> {
    if (c, p) in refs then refs[(c, p)] else []
  }

  ghost predicate RefsMatch(s: seq<Entry>, refs: map<(nat, nat), seq<Ref>>) {
    && (forall c: nat, p: nat :: RefsOf(s, c, p) == RefsHere(refs, c, p))
    && (forall k :: k in refs ==> refs[k] != [])
  }

  /** DIR_INDEX, DIR_ITEM and INODE_REF record the same entries. */
  ghost predicate Agree(st: State, h: Hash) {
    Distinct(st.index, h) && ItemsMatch(st.index, st.items, h) && RefsMatch(st.index, st.refs)
  }

  /** Every entry joins an existing directory and an existing inode of its kind. */
  ghost predicate Grounded(inodes: map<nat, Inode>, s: seq<Entry>) {
    forall i :: 0 <= i < |s| ==>
      && s[i].idx > 2 && s[i].d.child != ROOT
      && s[i].parent in inodes && inodes[s[i].parent].kind == Dir
      && s[i].d.child in inodes && inodes[s[i].d.child].kind == s[i].d.kind
  }

  /** Link counts and directory sizes: a file has as many links as entries; a directory has one link, one
      entry unless it is the root, and twice its entries' name bytes as its size. */
  ghost predicate InodeRight(ino: Inode, c: nat, s: seq<Entry>) {
    if ino.kind == Dir then ino.nlink == 1 && ino.size == DirSize(s, c) && Links(s, c) == OneIf(c != ROOT)
    else ino.nlink == Links(s, c) > 0
  }

  ghost predicate Counted(inodes: map<nat, Inode>, s: seq<Entry>) {
    forall c :: c in inodes ==> InodeRight(inodes[c], c, s)
  }

  ghost predicate Consistent(st: State, h: Hash) {
    && Agree(st, h) && Grounded(st.inodes, st.index) && Counted(st.inodes, st.index)
    && ROOT in st.inodes && st.inodes[ROOT].kind == Dir
    && st.bodies <= st.inodes.Keys
  }

  // ---- the steps the operations are made of ------------------------------------------------------------

  predicate HasRefName(rs: seq<Ref>, name: string) {
    exists i :: 0 <= i < |rs| && rs[i].name == name
  }

  /** appendInodeRef. */
  function WithRef(refs: map<(nat, nat), seq<Ref>>, c: nat, p: nat, r: Ref): map<(nat, nat), seq<Ref>> {
    if (c, p) in refs && HasRefName(refs[(c, p)], r.name) then refs else refs[(c, p) := RefsHere(refs, c, p) + [r]]
  }

  function WithoutName(rs: seq<Ref>, name: string): seq<Ref> {
    if rs == [] then []
    else WithoutName(rs[..|rs| - 1], name) + if rs[|rs| - 1].name != name then [rs[|rs| - 1]] else []
  }

  /** removeInodeRef. */
  function WithoutRef(refs: map<(nat, nat), seq<Ref>>, c: nat, p: nat, name: string): map<(nat, nat), seq<Ref>> {
    if (c, p) !in refs then refs
    else
      var kept := WithoutName(refs[(c, p)], name);
      if kept == [] then refs - {(c, p)} else refs[(c, p) := kept]
  }

  /** The deletion of a directory's DIR_INDEX item by name. */
  function WithoutEntry(s: seq<Entry>, p: nat, name: string): seq<Entry> {
    var i := FindName(s, p, name);
    if i == |s| then s else s[..i] + s[i + 1..]
  }

  /** adjustDirSize. */
  function Resize(inodes: map<nat, Inode>, p: nat, delta: int): map<nat, Inode> {
    if p !in inodes then inodes
    else
      var size := inodes[p].size + delta;
      inodes[p := inodes[p].(size := if size < 0 then 0 else size)]
  }

  // ---- lookup -----------------------------------------------------------------------------------------

  /** lookupDirEntry: by name hash, then by a scan. */
  function Lookup(st: State, h: Hash, p: nat, name: string): Option<DirItem> {
    if (p, h(name)) in st.items && st.items[(p, h(name))].name == name then Some(st.items[(p, h(name))])
    else
      var i := FindName(st.index, p, name);
      if i < |st.index| then Some(st.index[i].d) else None
  }

  /** In any state: a name is found exactly when the item of its hash or an entry has it, and what is found is
      one of those. */
  lemma {:induction false} LookupFinds(st: State, h: Hash, p: nat, name: string)
    ensures var r, k := Lookup(st, h, p, name), (p, h(name));
            && (r.Some? <==>
                  || (k in st.items && st.items[k].name == name)
                  || exists i :: 0 <= i < |st.index| && st.index[i].parent == p && st.index[i].d.name == name)
            && (r.Some? ==>
                  || (k in st.items && st.items[k].name == name && r.value == st.items[k])
                  || exists i :: 0 <= i < |st.index| && st.index[i].parent == p && st.index[i].d.name == name
                                 && r.value == st.index[i].d)
  {
  }

  function IndexLookup(s: seq<Entry>, p: nat, name: string): Option<DirItem> {
    var i := FindName(s, p, name);
    if i < |s| then Some(s[i].d) else None
  }

  /** When the records agree, both ways of looking up give the directory's one entry of that name. */
  lemma {:induction false} LookupIs(st: State, h: Hash, p: nat, name: string)
    requires Agree(st, h)
    ensures Lookup(st, h, p, name) == IndexLookup(st.index, p, name)
    ensures Lookup(st, h, p, name).Some? ==> Lookup(st, h, p, name).value.name == name
  {
    hide FindName, ItemAt;
    var x := h(name);
    if (p, x) in st.items && st.items[(p, x)].name == name {
      assert ItemAt(st.index, h, p, x) == Some(st.items[(p, x)]);
      ItemFrom(st.index, h, p, x);
      var i :| 0 <= i < |st.index| && st.index[i].parent == p && h(st.index[i].d.name) == x
          && st.index[i].d == st.items[(p, x)];
      FoundAt(st.index, h, p, name, i);
    }
  }

  /** With distinct names the scan finds the entry wherever it is. */
  lemma {:induction false} FoundAt(s: seq<Entry>, h: Hash, p: nat, name: string, i: nat)
    requires Distinct(s, h) && i < |s| && s[i].parent == p && s[i].d.name == name
    ensures FindName(s, p, name) == i
  {
    hide FindName;
    var j := FindName(s, p, name);
    assert j <= i;
  }
}
