/** Leaf mutations: order, capacity and meaning of the items they leave. */
module CowLeaf {
  import opened Keys
  import opened Trees
  import opened CowSpec

  lemma {:induction false} DataSumConcat(a: seq<Item>, b: seq<Item>)
    ensures DataSum(a + b) == DataSum(a) + DataSum(b)
  {
    if b == [] {
      assert a + b == a;
    } else {
      var b', x := b[..|b|-1], b[|b|-1];
      DataSumConcat(a, b');
      assert (a + b)[..|a + b|-1] == a + b';
    }
  }

  lemma {:induction false} DataSumOne(x: Item)
    ensures DataSum([x]) == |x.data|
  {
    assert [x][..0] == [];
  }

  lemma {:induction false} DataSumAt(s: seq<Item>, i: nat)
    requires i < |s|
    ensures DataSum(s) == DataSum(s[..i]) + |s[i].data| + DataSum(s[i+1..])
  {
    SplitAt(s, i);
    DataSumConcat(s[..i] + [s[i]], s[i+1..]);
    DataSumConcat(s[..i], [s[i]]);
    DataSumOne(s[i]);
  }

  lemma {:induction false} InsertSortedUse(s: seq<Item>, it: Item)
    ensures LeafUse(InsertSorted(s, it)) == LeafUse(s) + ITEM_SIZE + |it.data|
  {
    var p := InsertPos(s, it.k);
    assert s == s[..p] + s[p..];
    DataSumConcat(s[..p], s[p..]);
    DataSumConcat(s[..p] + [it], s[p..]);
    DataSumConcat(s[..p], [it]);
    DataSumOne(it);
  }

  lemma {:induction false} RemoveUse(s: seq<Item>, i: nat)
    requires i < |s|
    ensures LeafUse(s[..i] + s[i+1..]) == LeafUse(s) - ITEM_SIZE - |s[i].data|
  {
    DataSumAt(s, i);
    DataSumConcat(s[..i], s[i+1..]);
  }

  lemma {:induction false} ReplaceUse(s: seq<Item>, i: nat, x: Item)
    requires i < |s|
    ensures LeafUse(s[i := x]) == LeafUse(s) - |s[i].data| + |x.data|
  {
    var r := s[i := x];
    DataSumAt(s, i);
    DataSumAt(r, i);
    assert r[..i] == s[..i] && r[i+1..] == s[i+1..];
  }

  lemma {:induction false} WithoutPrefixConcat(a: seq<Item>, b: seq<Item>, objID: u64, typ: u8)
    ensures WithoutPrefix(a + b, objID, typ) == WithoutPrefix(a, objID, typ) + WithoutPrefix(b, objID, typ)
  {
    if b == [] {
      assert a + b == a;
    } else {
      var b', x := b[..|b|-1], b[|b|-1];
      WithoutPrefixConcat(a, b', objID, typ);
      assert (a + b)[..|a + b|-1] == a + b';
    }
  }

  lemma {:induction false} WithoutPrefixUse(s: seq<Item>, objID: u64, typ: u8)
    ensures |WithoutPrefix(s, objID, typ)| <= |s|
    ensures DataSum(WithoutPrefix(s, objID, typ)) <= DataSum(s)
  {
    if s != [] {
      var q, x := s[..|s|-1], s[|s|-1];
      WithoutPrefixUse(q, objID, typ);
      assert WithoutPrefix(q, objID, typ) + [] == WithoutPrefix(q, objID, typ);
      DataSumConcat(WithoutPrefix(q, objID, typ), [x]);
      DataSumOne(x);
    }
  }

  /** A mutation that succeeds leaves a leaf that fits. */
  lemma {:induction false} ApplyLeafFits(op: LeafOp, items: seq<Item>, ns: nat)
    requires LeafFits(items, ns) && ApplyLeaf(op, items, ns).Ok?
    ensures LeafFits(ApplyLeaf(op, items, ns).value, ns)
  {
    match op
    case Insert(k, data) => InsertSortedUse(items, Item(k, data));
    case Update(k, data) =>
      ReplaceUse(items, IndexOf(items, k), Item(k, data));
    case Delete(k) =>
      RemoveUse(items, IndexOf(items, k));
    case DeletePrefix(objID, typ) =>
      WithoutPrefixUse(items, objID, typ);
  }

  ghost predicate Absent(s: seq<Item>, k: Key) {
    forall i :: 0 <= i < |s| ==> s[i].k != k
  }

  lemma {:induction false} InsertSortedIn(s: seq<Item>, it: Item, lo: int, hi: int)
    requires ItemsIn(s, lo, hi) && lo <= Rank(it.k) < hi && Absent(s, it.k)
    ensures ItemsIn(InsertSorted(s, it), lo, hi)
  {
    hide Rank, InsertPos;
    var p := InsertPos(s, it.k);
    forall i | 0 <= i < p ensures Rank(s[i].k) < Rank(it.k) {
      CompareIsRank(s[i].k, it.k);
    }
    forall i | p <= i < |s| ensures Rank(it.k) < Rank(s[i].k) {
      assert i == p || Rank(s[p].k) < Rank(s[i].k);
    }
    ItemsInJoin(s[..p], it, s[p..], lo, hi);
  }

  lemma {:induction false} ItemsInJoin(a: seq<Item>, x: Item, b: seq<Item>, lo: int, hi: int)
    requires lo <= Rank(x.k) < hi
    requires ItemsIn(a, lo, Rank(x.k)) && ItemsIn(b, Rank(x.k) + 1, hi)
    ensures ItemsIn(a + [x] + b, lo, hi)
  {
    ItemsInConcat(a, [x], lo, Rank(x.k), Rank(x.k) + 1);
    ItemsInConcat(a + [x], b, lo, Rank(x.k) + 1, hi);
  }

  ghost predicate EndsBelow(s: seq<Item>, r: int) {
    forall i :: 0 <= i < |s| ==> Rank(s[i].k) < r
  }

  lemma {:induction false} AppendIn(s: seq<Item>, x: Item, lo: int, hi: int)
    requires ItemsIn(s, lo, hi) && EndsBelow(s, Rank(x.k)) && lo <= Rank(x.k) < hi
    ensures ItemsIn(s + [x], lo, hi)
  {
  }

  lemma {:induction false} WithoutPrefixIn(s: seq<Item>, objID: u64, typ: u8, lo: int, hi: int)
    requires ItemsIn(s, lo, hi)
    ensures ItemsIn(WithoutPrefix(s, objID, typ), lo, hi)
    ensures forall r :: EndsBelow(s, r) ==> EndsBelow(WithoutPrefix(s, objID, typ), r)
  {
    if s != [] {
      var q, x := s[..|s|-1], s[|s|-1];
      WithoutPrefixIn(q, objID, typ, lo, hi);
      forall r | EndsBelow(s, r) ensures EndsBelow(q, r) {
      }
      assert EndsBelow(q, Rank(x.k));
      var w := WithoutPrefix(q, objID, typ);
      AppendIn(w, x, lo, hi);
      assert w + [] == w;
    }
  }

  lemma {:induction false} RemoveIn(s: seq<Item>, i: nat, lo: int, hi: int)
    requires ItemsIn(s, lo, hi) && i < |s|
    ensures ItemsIn(s[..i] + s[i+1..], lo, hi)
  {
    var r := s[..i] + s[i+1..];
    forall j | 0 <= j < |r| ensures r[j] == s[if j < i then j else j + 1] {
    }
  }

  lemma {:induction false} ReplaceIn(s: seq<Item>, i: nat, x: Item, lo: int, hi: int)
    requires ItemsIn(s, lo, hi) && i < |s| && x.k == s[i].k
    ensures ItemsIn(s[i := x], lo, hi)
  {
  }

  /** A mutation keeps the leaf sorted and within the bounds, provided an inserted key is new
      and within them. */
  lemma {:induction false} ApplyLeafIn(op: LeafOp, items: seq<Item>, ns: nat, lo: int, hi: int)
    requires ItemsIn(items, lo, hi) && ApplyLeaf(op, items, ns).Ok?
    requires op.Insert? ==> lo <= Rank(op.k) < hi && Absent(items, op.k)
    ensures ItemsIn(ApplyLeaf(op, items, ns).value, lo, hi)
  {
    hide ItemsIn, Rank, DataSum;
    match op
    case Insert(k, data) => InsertSortedIn(items, Item(k, data), lo, hi);
    case Update(k, data) => ReplaceIn(items, IndexOf(items, k), Item(k, data), lo, hi);
    case Delete(k) =>
      RemoveIn(items, IndexOf(items, k), lo, hi);
    case DeletePrefix(objID, typ) =>
      WithoutPrefixIn(items, objID, typ, lo, hi);
  }

  // ---- when a leaf takes a mutation ----------------------------------------------------------------------

  /** items' is items without the first item that has key k. */
  ghost predicate FirstGone(items: seq<Item>, items': seq<Item>, k: Key) {
    exists i :: 0 <= i < |items| && items[i].k == k && Absent(items[..i], k) && items' == items[..i] + items[i + 1..]
  }

  /** items' is items with the data of the first item that has key k replaced. */
  ghost predicate FirstReplaced(items: seq<Item>, items': seq<Item>, k: Key, data: seq<u8>) {
    exists i :: 0 <= i < |items| && items[i].k == k && Absent(items[..i], k) && items' == items[i := Item(k, data)]
  }

  /** The bytes that replacing the data of the first item with key k would take do not fit. */
  ghost predicate TooBig(items: seq<Item>, k: Key, data: seq<u8>, ns: nat) {
    exists items' :: FirstReplaced(items, items', k, data) && !LeafFits(items', ns)
  }

  /** A leaf refuses a deletion exactly when it has no item with the key. */
  lemma {:induction false} DeleteLeafIff(items: seq<Item>, k: Key, ns: nat)
    ensures var a := ApplyLeaf(Delete(k), items, ns);
            if Absent(items, k) then a == Err(Missing) else a.Ok? && FirstGone(items, a.value, k)
  {
    var i := IndexOf(items, k);
    if i < |items| {
      assert Absent(items[..i], k);
    }
  }

  /** A leaf that fits refuses an update exactly when it has no item with the key or would not fit. */
  lemma {:induction false} UpdateLeafIff(items: seq<Item>, k: Key, data: seq<u8>, ns: nat)
    requires LeafFits(items, ns)
    ensures var a := ApplyLeaf(Update(k, data), items, ns);
            if Absent(items, k) then a == Err(Missing)
            else if TooBig(items, k, data, ns) then a == Err(NoRoom)
            else a.Ok? && FirstReplaced(items, a.value, k, data)
  {
    hide DataSum;
    var i := IndexOf(items, k);
    if i < |items| {
      var items' := items[i := Item(k, data)];
      assert Absent(items[..i], k);
      assert FirstReplaced(items, items', k, data);
      ReplaceUse(items, i, Item(k, data));
      forall other | FirstReplaced(items, other, k, data)
        ensures other == items'
      {
        OneFirst(items, k, i);
      }
    }
  }

  lemma {:induction false} OneFirst(items: seq<Item>, k: Key, i: nat)
    requires i < |items| && items[i].k == k && Absent(items[..i], k)
    ensures forall j :: 0 <= j < |items| && items[j].k == k && Absent(items[..j], k) ==> j == i
  {
    forall j | 0 <= j < |items| && items[j].k == k && i != j
      ensures !Absent(items[..j], k)
    {
      assert i < j ==> items[..j][i].k == k;
    }
  }

  /** A leaf refuses an insertion exactly when it would not fit with the item. */
  lemma {:induction false} InsertLeafIff(items: seq<Item>, k: Key, data: seq<u8>, ns: nat)
    ensures ApplyLeaf(Insert(k, data), items, ns) ==
            var all := InsertSorted(items, Item(k, data));
            if LeafFits(all, ns) then Ok(all) else Err(LeafFull)
  {
    InsertSortedUse(items, Item(k, data));
  }

  /** A leaf refuses a prefix deletion exactly when it has no match; otherwise exactly the matches go. */
  lemma {:induction false} DeletePrefixLeafIff(items: seq<Item>, objID: u64, typ: u8, ns: nat)
    ensures var a := ApplyLeaf(DeletePrefix(objID, typ), items, ns);
            if forall i :: 0 <= i < |items| ==> items[i].k.objID != objID || items[i].k.typ != typ
            then a == Err(Missing)
            else a.Ok? && forall x :: x in a.value <==> x in items && !(x.k.objID == objID && x.k.typ == typ)
  {
    WithoutPrefixSame(items, objID, typ);
    forall x
      ensures x in WithoutPrefix(items, objID, typ) <==> x in items && !(x.k.objID == objID && x.k.typ == typ)
    {
      WithoutPrefixHas(items, objID, typ, x);
    }
  }

  lemma {:induction false} WithoutPrefixHas(s: seq<Item>, objID: u64, typ: u8, x: Item)
    ensures x in WithoutPrefix(s, objID, typ) <==> x in s && !(x.k.objID == objID && x.k.typ == typ)
  {
    if s != [] {
      var q, y := s[..|s|-1], s[|s|-1];
      WithoutPrefixHas(q, objID, typ, x);
      assert s == q + [y];
    }
  }

  lemma {:induction false} WithoutPrefixSame(s: seq<Item>, objID: u64, typ: u8)
    ensures var r := WithoutPrefix(s, objID, typ);
            |r| <= |s| && (|r| == |s| <==> forall i :: 0 <= i < |s| ==> s[i].k.objID != objID || s[i].k.typ != typ)
  {
    if s != [] {
      var q := s[..|s|-1];
      WithoutPrefixSame(q, objID, typ);
      assert forall i :: 0 <= i < |q| ==> q[i] == s[i];
    }
  }
}
