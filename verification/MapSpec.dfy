/** The sorted item sequence of a tree read as a finite map, and the effect of the
    operations on that map. */
module MapSpec {
  import opened Keys
  import opened Trees
  import opened CowSpec
  import opened CowLeaf
  import opened CowMutate

  type Dict = map<Key, seq<u8>>

  function ToMap(s: seq<Item>): Dict {
    if s == [] then map[] else ToMap(s[..|s|-1])[s[|s|-1].k := s[|s|-1].data]
  }

  /** What an operation means for the map. */
  function Effect(op: LeafOp, m: Dict): Dict {
    match op
    case Insert(k, data) => m[k := data]
    case Update(k, data) => m[k := data]
    case Delete(k) => m - {k}
    case DeletePrefix(objID, typ) => map k | k in m && !HasPrefix(k, objID, typ) :: m[k]
  }

  /** The operation writes key k. */
  predicate Writes(op: LeafOp, k: Key) {
    !op.DeletePrefix? && op.k == k
  }

  /** What an operation leaves under its key. */
  function Leaves(op: LeafOp): Option<seq<u8>>
    requires !op.DeletePrefix?
  {
    match op
    case Insert(_, data) => Some(data)
    case Update(_, data) => Some(data)
    case Delete(_) => None
  }

  lemma {:induction false} ToMapConcat(a: seq<Item>, b: seq<Item>)
    ensures ToMap(a + b) == ToMap(a) + ToMap(b)
  {
    if b == [] {
      assert a + b == a;
    } else {
      var b', x := b[..|b|-1], b[|b|-1];
      ToMapConcat(a, b');
      assert (a + b)[..|a + b|-1] == a + b';
    }
  }

  lemma {:induction false} ToMapOne(x: Item)
    ensures ToMap([x]) == map[x.k := x.data]
  {
    assert [x][..0] == [];
  }

  lemma {:induction false} ToMapKeys(s: seq<Item>, k: Key)
    ensures k !in ToMap(s) <==> Absent(s, k)
  {
    if s != [] {
      ToMapKeys(s[..|s|-1], k);
      var q := s[..|s|-1];
      assert Absent(s, k) <==> Absent(q, k) && s[|s|-1].k != k;
    }
  }

  /** The map of a sorted sequence has exactly its items. */
  lemma {:induction false} ToMapHas(s: seq<Item>, x: Item, lo: int, hi: int)
    requires ItemsIn(s, lo, hi)
    ensures x in s <==> x.k in ToMap(s) && ToMap(s)[x.k] == x.data
  {
    if s != [] {
      var q, y := s[..|s|-1], s[|s|-1];
      PrefixIn(s, lo, hi);
      ToMapHas(q, x, lo, hi);
      assert x in s <==> x in q || x == y;
      forall i | 0 <= i < |q| ensures q[i].k != y.k {
        assert Rank(s[i].k) < Rank(y.k);
      }
    }
  }

  /** Writing one key in the middle of a sequence that does not mention it afterwards. */
  lemma {:induction false} PutBetween(a: seq<Item>, x: Item, b: seq<Item>)
    requires Absent(b, x.k)
    ensures ToMap(a + [x] + b) == ToMap(a + b)[x.k := x.data]
  {
    ToMapConcat(a + [x], b);
    ToMapConcat(a, [x]);
    ToMapConcat(a, b);
    ToMapOne(x);
    ToMapKeys(b, x.k);
  }

  lemma {:induction false} TakeBetween(a: seq<Item>, x: Item, b: seq<Item>)
    requires Absent(a, x.k) && Absent(b, x.k)
    ensures ToMap(a + b) == ToMap(a + [x] + b) - {x.k}
  {
    PutBetween(a, x, b);
    ToMapConcat(a, b);
    ToMapKeys(a, x.k);
    ToMapKeys(b, x.k);
    assert x.k !in ToMap(a + b);
  }

  /** A strictly sorted sequence is determined by its map. */
  lemma {:induction false} SortedUnique(s: seq<Item>, t: seq<Item>, lo: int, hi: int)
    requires ItemsIn(s, lo, hi) && ItemsIn(t, lo, hi) && ToMap(s) == ToMap(t)
    ensures s == t
  {
    LastIsKey(s);
    LastIsKey(t);
    if s != [] && t != [] {
      SameLast(s, t, lo, hi);
      PrefixIn(s, lo, hi);
      PrefixIn(t, lo, hi);
      SortedUnique(s[..|s|-1], t[..|t|-1], lo, hi);
      LastOff(s);
      LastOff(t);
    }
  }

  lemma {:induction false} PrefixIn(s: seq<Item>, lo: int, hi: int)
    requires ItemsIn(s, lo, hi) && s != []
    ensures ItemsIn(s[..|s|-1], lo, hi)
  {
  }

  lemma {:induction false} LastOff<T>(s: seq<T>)
    requires s != []
    ensures s == s[..|s|-1] + [s[|s|-1]]
  {
  }

  /** Equal maps have the same largest key, with the same data, and equal maps below it. */
  lemma {:induction false} SameLast(s: seq<Item>, t: seq<Item>, lo: int, hi: int)
    requires ItemsIn(s, lo, hi) && ItemsIn(t, lo, hi) && ToMap(s) == ToMap(t) && s != [] && t != []
    ensures s[|s|-1] == t[|t|-1] && ToMap(s[..|s|-1]) == ToMap(t[..|t|-1])
  {
    var x, y := s[|s|-1], t[|t|-1];
    LastIsMax(s, t, lo, hi);
    LastIsMax(t, s, lo, hi);
    CompareIsRank(x.k, y.k);
    LastIsNew(s, lo, hi);
    LastIsNew(t, lo, hi);
  }

  lemma {:induction false} LastIsKey(s: seq<Item>)
    ensures s != [] ==> s[|s|-1].k in ToMap(s)
    ensures s == [] ==> ToMap(s) == map[]
  {
  }

  lemma {:induction false} LastIsNew(s: seq<Item>, lo: int, hi: int)
    requires ItemsIn(s, lo, hi) && s != []
    ensures ToMap(s[..|s|-1]) == ToMap(s) - {s[|s|-1].k}
    ensures s[|s|-1].k in ToMap(s) && ToMap(s)[s[|s|-1].k] == s[|s|-1].data
  {
    var q, k := s[..|s|-1], s[|s|-1].k;
    ToMapKeys(q, k);
    assert Absent(q, k);
  }

  lemma {:induction false} LastIsMax(s: seq<Item>, t: seq<Item>, lo: int, hi: int)
    requires ItemsIn(s, lo, hi) && s != [] && t != [] && ToMap(s) == ToMap(t)
    ensures Rank(t[|t|-1].k) <= Rank(s[|s|-1].k)
  {
    var k := t[|t|-1].k;
    ToMapKeys(s, k);
    var i :| 0 <= i < |s| && s[i].k == k;
    assert i == |s| - 1 || Rank(s[i].k) < Rank(s[|s|-1].k);
  }

  // ---- one leaf among its neighbours -----------------------------------------------------

  lemma {:induction false} BelowAbsent(s: seq<Item>, k: Key)
    requires AllBelow(s, Rank(k)) || AllAbove(Rank(k), s)
    ensures Absent(s, k)
  {
  }

  lemma {:induction false} AbsentConcat(a: seq<Item>, b: seq<Item>, k: Key)
    requires Absent(a, k) && Absent(b, k)
    ensures Absent(a + b, k)
  {
  }

  /** The leaf mutation has its map effect on the whole contents. */
  lemma {:induction false} LeafEffect(op: LeafOp, l: seq<Item>, s: seq<Item>, r: seq<Item>, ns: nat, lo: int, hi: int)
    requires !op.DeletePrefix? && ApplyLeaf(op, s, ns).Ok?
    requires AllBelow(l, Rank(op.k)) && AllAbove(Rank(op.k), r) && ItemsIn(s, lo, hi)
    requires op.Insert? ==> Absent(s, op.k)
    ensures ToMap(l + ApplyLeaf(op, s, ns).value + r) == Effect(op, ToMap(l + s + r))
  {
    BelowAbsent(l, op.k);
    BelowAbsent(r, op.k);
    LeafEffectAt(op, l, s, r, ns, lo, hi);
  }

  lemma {:induction false} LeafEffectAt(op: LeafOp, l: seq<Item>, s: seq<Item>, r: seq<Item>, ns: nat, lo: int, hi: int)
    requires !op.DeletePrefix? && ApplyLeaf(op, s, ns).Ok?
    requires Absent(l, op.k) && Absent(r, op.k) && ItemsIn(s, lo, hi)
    requires op.Insert? ==> Absent(s, op.k)
    ensures ToMap(l + ApplyLeaf(op, s, ns).value + r) == Effect(op, ToMap(l + s + r))
  {
    match op
    case Insert(k, data) => InsertEffect(l, s, r, Item(k, data));
    case Update(k, data) => UpdateEffect(l, s, r, Item(k, data), lo, hi);
    case Delete(k) => DeleteEffect(l, s, r, k, lo, hi);
  }

  lemma {:induction false} Regroup2<T>(a: seq<T>, b: seq<T>, c: seq<T>, d: seq<T>)
    ensures a + (b + c) + d == (a + b) + (c + d)
  {
  }

  lemma {:induction false} InsertEffect(l: seq<Item>, s: seq<Item>, r: seq<Item>, x: Item)
    requires Absent(s, x.k) && Absent(r, x.k)
    ensures ToMap(l + InsertSorted(s, x) + r) == ToMap(l + s + r)[x.k := x.data]
  {
    var p := InsertPos(s, x.k);
    AbsentConcat(s[p..], r, x.k);
    PutBetween(l + s[..p], x, s[p..] + r);
    Regroup(l, s[..p], [x], s[p..], r);
    CutAt(s, p);
    Regroup2(l, s[..p], s[p..], r);
  }

  /** The items around the one with key k, in a sorted leaf. */
  lemma {:induction false} AroundIndex(l: seq<Item>, s: seq<Item>, r: seq<Item>, k: Key, lo: int, hi: int)
    requires IndexOf(s, k) < |s| && Absent(l, k) && Absent(r, k) && ItemsIn(s, lo, hi)
    ensures var i := IndexOf(s, k);
            && Absent(l + s[..i], k) && Absent(s[i+1..] + r, k)
            && l + s + r == (l + s[..i]) + [s[i]] + (s[i+1..] + r)
  {
    var i := IndexOf(s, k);
    AbsentConcat(l, s[..i], k);
    AbsentConcat(s[i+1..], r, k);
    SplitAt(s, i);
    Regroup(l, s[..i], [s[i]], s[i+1..], r);
  }

  lemma {:induction false} UpdateEffect(l: seq<Item>, s: seq<Item>, r: seq<Item>, x: Item, lo: int, hi: int)
    requires IndexOf(s, x.k) < |s| && Absent(l, x.k) && Absent(r, x.k) && ItemsIn(s, lo, hi)
    ensures var i := IndexOf(s, x.k);
            ToMap(l + s[i := x] + r) == ToMap(l + s + r)[x.k := x.data]
  {
    var i := IndexOf(s, x.k);
    AroundIndex(l, s, r, x.k, lo, hi);
    PutBetween(l + s[..i], x, s[i+1..] + r);
    PutBetween(l + s[..i], s[i], s[i+1..] + r);
    SetAt(s, i, x);
    Regroup(l, s[..i], [x], s[i+1..], r);
  }

  lemma {:induction false} SetAt<T>(s: seq<T>, i: nat, x: T)
    requires i < |s|
    ensures s[i := x] == s[..i] + [x] + s[i+1..]
  {
  }

  lemma {:induction false} DeleteEffect(l: seq<Item>, s: seq<Item>, r: seq<Item>, k: Key, lo: int, hi: int)
    requires IndexOf(s, k) < |s| && Absent(l, k) && Absent(r, k) && ItemsIn(s, lo, hi)
    ensures var i := IndexOf(s, k);
            ToMap(l + (s[..i] + s[i+1..]) + r) == ToMap(l + s + r) - {k}
  {
    var i := IndexOf(s, k);
    AroundIndex(l, s, r, k, lo, hi);
    TakeBetween(l + s[..i], s[i], s[i+1..] + r);
    Regroup2(l, s[..i], s[i+1..], r);
  }
}
