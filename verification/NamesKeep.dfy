/** How adding and dropping one entry keeps DIR_INDEX, DIR_ITEM and INODE_REF in agreement, and what it
    does to link counts, directory sizes and lookups. */
module NamesKeep {
  import opened Keys
  import opened Names

  // ---- adding ---------------------------------------------------------------------------------------

  /** Some other name of the directory has this name's hash. */
  ghost predicate Taken(s: seq<Entry>, h: Hash, p: nat, name: string) {
    exists i :: 0 <= i < |s| && s[i].parent == p && h(s[i].d.name) == h(name)
  }

  ghost predicate Fresh(s: seq<Entry>, h: Hash, e: Entry) {
    !Taken(s, h, e.parent, e.d.name) && forall i :: 0 <= i < |s| && s[i].parent == e.parent ==> s[i].idx != e.idx
  }

  lemma {:induction false} AddDistinct(s: seq<Entry>, h: Hash, e: Entry)
    requires Distinct(s, h) && Fresh(s, h, e)
    ensures Distinct(s + [e], h)
  {
  }

  lemma {:induction false} AddItems(s: seq<Entry>, items: map<(nat, nat), DirItem>, h: Hash, e: Entry)
    requires ItemsMatch(s, items, h)
    ensures ItemsMatch(s + [e], items[(e.parent, h(e.d.name)) := e.d], h)
  {
    hide ItemAt;
    var items' := items[(e.parent, h(e.d.name)) := e.d];
    forall p: nat, x: nat
      ensures ItemAt(s + [e], h, p, x) == if (p, x) in items' then Some(items'[(p, x)]) else None
    {
      ItemConcat(s, [e], h, p, x);
      OfOne(e, h, 0, p, x);
    }
  }

  /** No reference of the child under this parent has the name yet. */
  lemma {:induction false} NoSuchRef(s: seq<Entry>, h: Hash, e: Entry)
    requires Fresh(s, h, e)
    ensures !HasRefName(RefsOf(s, e.d.child, e.parent), e.d.name)
  {
    hide RefsOf;
    var rs := RefsOf(s, e.d.child, e.parent);
    forall i | 0 <= i < |rs|
      ensures rs[i].name != e.d.name
    {
      assert rs[i] in rs;
      RefFrom(s, e.d.child, e.parent, rs[i]);
      var j :| 0 <= j < |s| && s[j].parent == e.parent && s[j].d.child == e.d.child
          && Ref(s[j].idx, s[j].d.name) == rs[i];
    }
  }

  lemma {:induction false} AddRefs(s: seq<Entry>, refs: map<(nat, nat), seq<Ref>>, h: Hash, e: Entry)
    requires RefsMatch(s, refs) && Fresh(s, h, e)
    ensures RefsMatch(s + [e], WithRef(refs, e.d.child, e.parent, Ref(e.idx, e.d.name)))
  {
    hide RefsOf, HasRefName, Fresh;
    NoSuchRef(s, h, e);
    assert RefsOf(s, e.d.child, e.parent) == RefsHere(refs, e.d.child, e.parent);
    var refs' := WithRef(refs, e.d.child, e.parent, Ref(e.idx, e.d.name));
    forall c: nat, p: nat
      ensures RefsOf(s + [e], c, p) == RefsHere(refs', c, p)
    {
      RefsConcat(s, [e], c, p);
      OfOne(e, h, c, p, 0);
      assert RefsOf(s, c, p) == RefsHere(refs, c, p);
    }
  }

  /** No name is recorded twice. */
  ghost predicate NamesOnce(rs: seq<Ref>) {
    forall i, j :: 0 <= i < j < |rs| ==> rs[i].name != rs[j].name
  }

  /** Adding a reference records its name once, keeps the other references and touches no other item. */
  lemma {:induction false} WithRefOnce(refs: map<(nat, nat), seq<Ref>>, c: nat, p: nat, r: Ref)
    ensures var refs' := WithRef(refs, c, p, r);
            && HasRefName(RefsHere(refs', c, p), r.name) && RefsHere(refs, c, p) <= RefsHere(refs', c, p)
            && (NamesOnce(RefsHere(refs, c, p)) ==> NamesOnce(RefsHere(refs', c, p)))
            && (forall k :: k in refs' && k != (c, p) <==> k in refs && k != (c, p))
            && (forall k :: k in refs && k != (c, p) ==> refs'[k] == refs[k])
  {
    var rs, rs' := RefsHere(refs, c, p), RefsHere(WithRef(refs, c, p, r), c, p);
    if !((c, p) in refs && HasRefName(refs[(c, p)], r.name)) {
      assert rs' == rs + [r] && rs'[|rs|].name == r.name;
    }
  }

  function AddEntry(st: State, h: Hash, e: Entry): State {
    st.(index := st.index + [e], items := st.items[(e.parent, h(e.d.name)) := e.d],
        refs := WithRef(st.refs, e.d.child, e.parent, Ref(e.idx, e.d.name)))
  }

  /** A fresh entry keeps the three records in agreement. */
  lemma {:induction false} AddAgrees(st: State, h: Hash, e: Entry)
    requires Agree(st, h) && Fresh(st.index, h, e)
    ensures Agree(AddEntry(st, h, e), h)
  {
    hide Distinct, ItemsMatch, RefsMatch, Fresh, WithRef;
    AddDistinct(st.index, h, e);
    AddItems(st.index, st.items, h, e);
    AddRefs(st.index, st.refs, h, e);
  }

  /** An entry whose name hash is taken does not: the one DIR_ITEM cannot be both entries. */
  lemma {:induction false} ClashDisagrees(st: State, h: Hash, e: Entry)
    requires Taken(st.index, h, e.parent, e.d.name)
    ensures !Distinct(AddEntry(st, h, e).index, h)
  {
    var i :| 0 <= i < |st.index| && st.index[i].parent == e.parent && h(st.index[i].d.name) == h(e.d.name);
    var s := st.index + [e];
    assert s[i] == st.index[i] && s[|st.index|] == e;
  }

  // ---- dropping --------------------------------------------------------------------------------------

  lemma {:induction false} DropDistinct(s: seq<Entry>, h: Hash, i: nat)
    requires Distinct(s, h) && i < |s|
    ensures Distinct(s[..i] + s[i + 1..], h)
  {
    var r := s[..i] + s[i + 1..];
    forall x, y | 0 <= x < y < |r| && r[x].parent == r[y].parent
      ensures r[x].idx != r[y].idx && h(r[x].d.name) != h(r[y].d.name)
    {
      assert r[x] == s[if x < i then x else x + 1] && r[y] == s[if y < i then y else y + 1];
    }
  }

  /** Nothing but entry i of its directory has its name hash. */
  lemma {:induction false} Lonely(s: seq<Entry>, h: Hash, i: nat)
    requires Distinct(s, h) && i < |s|
    ensures !Taken(s[..i], h, s[i].parent, s[i].d.name) && !Taken(s[i + 1..], h, s[i].parent, s[i].d.name)
  {
    var b := s[i + 1..];
    forall j | 0 <= j < |b|
      ensures !(b[j].parent == s[i].parent && h(b[j].d.name) == h(s[i].d.name))
    {
      assert b[j] == s[i + 1 + j];
    }
  }

  lemma {:induction false} DropItems(s: seq<Entry>, items: map<(nat, nat), DirItem>, h: Hash, i: nat)
    requires ItemsMatch(s, items, h) && Distinct(s, h) && i < |s|
    ensures ItemsMatch(s[..i] + s[i + 1..], items - {(s[i].parent, h(s[i].d.name))}, h)
  {
    hide ItemAt, Distinct, Taken;
    var a, e, b := s[..i], s[i], s[i + 1..];
    var items' := items - {(e.parent, h(e.d.name))};
    SplitAt(s, i);
    Lonely(s, h, i);
    forall p: nat, x: nat
      ensures ItemAt(a + b, h, p, x) == if (p, x) in items' then Some(items'[(p, x)]) else None
    {
      assert ItemAt(s, h, p, x) == if (p, x) in items then Some(items[(p, x)]) else None;
      ItemConcat(a, b, h, p, x);
      ItemConcat(a + [e], b, h, p, x);
      ItemConcat(a, [e], h, p, x);
      OfOne(e, h, 0, p, x);
      if p == e.parent && x == h(e.d.name) {
        NotTaken(a, h, p, e.d.name);
        NotTaken(b, h, p, e.d.name);
      }
    }
  }

  lemma {:induction false} NotTaken(s: seq<Entry>, h: Hash, p: nat, name: string)
    requires !Taken(s, h, p, name)
    ensures ItemAt(s, h, p, h(name)).None?
  {
    ItemFrom(s, h, p, h(name));
  }

  lemma {:induction false} WithoutNameConcat(a: seq<Ref>, b: seq<Ref>, name: string)
    ensures WithoutName(a + b, name) == WithoutName(a, name) + WithoutName(b, name)
  {
    if b == [] {
      assert a + b == a;
    } else {
      WithoutNameConcat(a, b[..|b| - 1], name);
      assert (a + b)[..|a + b| - 1] == a + b[..|b| - 1];
    }
  }

  lemma {:induction false} WithoutNameNone(rs: seq<Ref>, name: string)
    requires forall i :: 0 <= i < |rs| ==> rs[i].name != name
    ensures WithoutName(rs, name) == rs
  {
    if rs != [] {
      WithoutNameNone(rs[..|rs| - 1], name);
      assert rs == rs[..|rs| - 1] + [rs[|rs| - 1]];
    }
  }

  /** Dropping the name of entry i from its child's references drops exactly that reference. */
  lemma {:induction false} DropRefName(s: seq<Entry>, h: Hash, i: nat)
    requires Distinct(s, h) && i < |s|
    ensures var e := s[i];
            WithoutName(RefsOf(s, e.d.child, e.parent), e.d.name) ==
            RefsOf(s[..i] + s[i + 1..], e.d.child, e.parent)
  {
    hide RefsOf, Distinct, Taken, WithoutName;
    var a, e, b := s[..i], s[i], s[i + 1..];
    var c, p, name := e.d.child, e.parent, e.d.name;
    SplitAt(s, i);
    Lonely(s, h, i);
    RefsConcat(a, b, c, p);
    RefsConcat(a + [e], b, c, p);
    RefsConcat(a, [e], c, p);
    OfOne(e, h, c, p, 0);
    UntakenRefs(a, h, c, p, name);
    UntakenRefs(b, h, c, p, name);
    WithoutMiddle(RefsOf(a, c, p), Ref(e.idx, name), RefsOf(b, c, p));
  }

  lemma {:induction false} WithoutMiddle(a: seq<Ref>, r: Ref, b: seq<Ref>)
    requires forall i :: 0 <= i < |a| ==> a[i].name != r.name
    requires forall i :: 0 <= i < |b| ==> b[i].name != r.name
    ensures WithoutName(a + [r] + b, r.name) == a + b
  {
    hide WithoutName;
    WithoutNameConcat(a + [r], b, r.name);
    WithoutNameConcat(a, [r], r.name);
    WithoutNameNone(a, r.name);
    WithoutNameNone(b, r.name);
    WithoutNameOne(r);
    assert a + [] == a;
  }

  lemma {:induction false} WithoutNameOne(r: Ref)
    ensures WithoutName([r], r.name) == []
  {
    assert [r][..0] == [];
  }

  lemma {:induction false} UntakenRefs(s: seq<Entry>, h: Hash, c: nat, p: nat, name: string)
    requires !Taken(s, h, p, name)
    ensures var rs := RefsOf(s, c, p); forall i :: 0 <= i < |rs| ==> rs[i].name != name
  {
    hide RefsOf;
    var rs := RefsOf(s, c, p);
    forall i | 0 <= i < |rs|
      ensures rs[i].name != name
    {
      assert rs[i] in rs;
      RefFrom(s, c, p, rs[i]);
      var j :| 0 <= j < |s| && s[j].parent == p && s[j].d.child == c && Ref(s[j].idx, s[j].d.name) == rs[i];
    }
  }

  lemma {:induction false} DropRefs(s: seq<Entry>, refs: map<(nat, nat), seq<Ref>>, h: Hash, i: nat)
    requires RefsMatch(s, refs) && Distinct(s, h) && i < |s|
    ensures RefsMatch(s[..i] + s[i + 1..], WithoutRef(refs, s[i].d.child, s[i].parent, s[i].d.name))
  {
    hide RefsOf, Distinct, WithoutName;
    var a, e, b := s[..i], s[i], s[i + 1..];
    var refs' := WithoutRef(refs, e.d.child, e.parent, e.d.name);
    SplitAt(s, i);
    DropRefName(s, h, i);
    WithoutNothing(e.d.name);
    forall c: nat, p: nat
      ensures RefsOf(a + b, c, p) == RefsHere(refs', c, p)
    {
      assert RefsOf(s, c, p) == RefsHere(refs, c, p);
      if !(c == e.d.child && p == e.parent) {
        RefsConcat(a, b, c, p);
        RefsConcat(a + [e], b, c, p);
        RefsConcat(a, [e], c, p);
        OfOne(e, h, c, p, 0);
        assert RefsOf(a, c, p) + [] + RefsOf(b, c, p) == RefsOf(a, c, p) + RefsOf(b, c, p);
      }
    }
  }

  lemma {:induction false} WithoutNothing(name: string)
    ensures WithoutName([], name) == []
  {
  }

  /** The three deletions that take one entry away. */
  function DropEntry(st: State, h: Hash, c: nat, p: nat, name: string): State {
    st.(index := WithoutEntry(st.index, p, name), items := st.items - {(p, h(name))},
        refs := WithoutRef(st.refs, c, p, name))
  }

  /** Dropping an entry keeps the three records in agreement. */
  lemma {:induction false} DropAgrees(st: State, h: Hash, i: nat)
    requires Agree(st, h) && i < |st.index|
    ensures var e := st.index[i];
            && DropEntry(st, h, e.d.child, e.parent, e.d.name).index == st.index[..i] + st.index[i + 1..]
            && Agree(DropEntry(st, h, e.d.child, e.parent, e.d.name), h)
  {
    hide Distinct, ItemsMatch, RefsMatch, WithoutRef, FindName;
    var e := st.index[i];
    FoundAt(st.index, h, e.parent, e.d.name, i);
    DropDistinct(st.index, h, i);
    DropItems(st.index, st.items, h, i);
    DropRefs(st.index, st.refs, h, i);
  }

  // ---- counts and lookups ------------------------------------------------------------------------------

  lemma {:induction false} AddCounts(s: seq<Entry>, e: Entry, c: nat)
    ensures Links(s + [e], c) == Links(s, c) + OneIf(e.d.child == c)
    ensures DirSize(s + [e], c) == DirSize(s, c) + if e.parent == c then NameSize(e.d.name) else 0
  {
    LinksConcat(s, [e], c);
    DirSizeConcat(s, [e], c);
    OfOne(e, _ => 0, c, c, 0);
  }

  lemma {:induction false} DropCounts(s: seq<Entry>, i: nat, c: nat)
    requires i < |s|
    ensures Links(s, c) == Links(s[..i] + s[i + 1..], c) + OneIf(s[i].d.child == c)
    ensures DirSize(s, c) == DirSize(s[..i] + s[i + 1..], c) + if s[i].parent == c then NameSize(s[i].d.name) else 0
  {
    hide Links, DirSize;
    var a, e, b := s[..i], s[i], s[i + 1..];
    SplitAt(s, i);
    LinksConcat(a + [e], b, c);
    LinksConcat(a, [e], c);
    LinksConcat(a, b, c);
    DirSizeConcat(a + [e], b, c);
    DirSizeConcat(a, [e], c);
    DirSizeConcat(a, b, c);
    OfOne(e, _ => 0, c, c, 0);
  }

  /** A lookup is determined by which entry there is. */
  lemma {:induction false} LookupUnique(s: seq<Entry>, h: Hash, p: nat, name: string, i: nat)
    requires Distinct(s, h) && i < |s| && s[i].parent == p && s[i].d.name == name
    ensures IndexLookup(s, p, name) == Some(s[i].d)
  {
    hide FindName;
    FoundAt(s, h, p, name, i);
  }

  lemma {:induction false} NotThere(s: seq<Entry>, p: nat, name: string)
    requires forall j :: 0 <= j < |s| ==> !(s[j].parent == p && s[j].d.name == name)
    ensures IndexLookup(s, p, name) == None
  {
  }

  lemma {:induction false} AddLookup(s: seq<Entry>, h: Hash, e: Entry, p: nat, name: string)
    requires Distinct(s, h) && Fresh(s, h, e)
    ensures IndexLookup(s + [e], p, name) ==
            if p == e.parent && name == e.d.name then Some(e.d) else IndexLookup(s, p, name)
  {
    hide FindName;
    var t := s + [e];
    AddDistinct(s, h, e);
    if p == e.parent && name == e.d.name {
      LookupUnique(t, h, p, name, |s|);
    } else {
      var i := FindName(s, p, name);
      if i < |s| {
        assert t[i] == s[i];
        LookupUnique(t, h, p, name, i);
      } else {
        assert forall j :: 0 <= j < |s| ==> t[j] == s[j];
        NotThere(t, p, name);
      }
    }
  }

  lemma {:induction false} DropLookup(s: seq<Entry>, h: Hash, i: nat, p: nat, name: string)
    requires Distinct(s, h) && i < |s|
    ensures IndexLookup(s[..i] + s[i + 1..], p, name) ==
            if p == s[i].parent && name == s[i].d.name then None else IndexLookup(s, p, name)
  {
    hide FindName, Distinct;
    var r := s[..i] + s[i + 1..];
    DropDistinct(s, h, i);
    var j := FindName(s, p, name);
    if p == s[i].parent && name == s[i].d.name {
      Lonely(s, h, i);
      forall k | 0 <= k < |r|
        ensures !(r[k].parent == p && r[k].d.name == name)
      {
        assert r[k] == if k < i then s[..i][k] else s[i + 1..][k - i];
      }
      NotThere(r, p, name);
    } else if j < |s| {
      var m := if j < i then j else j - 1;
      assert r[m] == s[j];
      LookupUnique(r, h, p, name, m);
    } else {
      assert forall k :: 0 <= k < |r| ==> r[k] == s[if k < i then k else k + 1];
      NotThere(r, p, name);
    }
  }
}
