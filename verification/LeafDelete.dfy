/** leafDeleteItem (cow.go) on a node buffer: the data below the deleted item moves up over it in
    place, the data positions of the moved items grow, and the descriptor is closed up. */
module LeafDelete {
  import opened Keys
  import opened Bytes
  import opened Trees
  import opened CowSpec
  import opened CowLeaf
  import opened LeafLayout
  import opened LeafBytes

  lemma {:induction false} LaidSlot(b: seq<u8>, items: seq<Item>, at: seq<int>, i: nat)
    requires Laid(b, items, at) && i < |items|
    ensures DescOff(|items|) <= at[i] && at[i] + |items[i].data| <= |b| && DescOff(|items|) <= |b| <= MAX_NODE_SIZE
    ensures DescAt(b, i) == Desc(items[i].k, at[i], |items[i].data|)
    ensures b[at[i]..at[i] + |items[i].data|] == items[i].data
  {
    hide ReadDesc;
    assert Slot(b, i, items[i], at[i]);
  }

  // ---- the data area -------------------------------------------------------------------------------

  ghost predicate DataAt(b: seq<u8>, it: Item, p: int) {
    0 <= p && p + |it.data| <= |b| && b[p..p + |it.data|] == it.data
  }

  /** The node with the data range [lo, del) moved up by s bytes over the deleted data. */
  function GapClosed(b: seq<u8>, lo: nat, del: nat, s: nat): (c: seq<u8>)
    requires lo <= del && del + s <= |b|
    ensures |c| == |b|
  {
    Put(Put(b, lo + s, b[lo..del]), lo, Zeros(s))
  }

  lemma {:induction false} GapAbove(b: seq<u8>, lo: nat, del: nat, s: nat, p: nat, q: nat)
    requires lo <= del && del + s <= |b| && p <= q <= |b| && (del + s <= p || q <= lo)
    ensures GapClosed(b, lo, del, s)[p..q] == b[p..q]
  {
    hide Put, Zeros;
    PutApart(b, lo + s, b[lo..del], p, q);
    PutApart(Put(b, lo + s, b[lo..del]), lo, Zeros(s), p, q);
  }

  lemma {:induction false} GapMoved(b: seq<u8>, lo: nat, del: nat, s: nat, p: nat, q: nat)
    requires lo <= p <= q <= del && del + s <= |b|
    ensures GapClosed(b, lo, del, s)[p + s..q + s] == b[p..q]
  {
    hide Zeros, Put;
    var c := Put(b, lo + s, b[lo..del]);
    PutHere(b, lo + s, b[lo..del]);
    SliceSlice(c, lo + s, del + s, p - lo, q - lo);
    SliceSlice(b, lo, del, p - lo, q - lo);
    PutApart(c, lo, Zeros(s), p + s, q + s);
  }

  /** Where the data of a surviving item ends up. */
  function NewStart(p: int, del: int, s: nat): int {
    if p < del then p + s else p
  }

  /** Closing the gap carries the data of every other item to its new position. */
  lemma {:induction false} DataShifted(b: seq<u8>, items: seq<Item>, at: seq<int>, idx: nat, j: nat, lo: nat)
    requires |at| == |items| && Laid(b, items, at) && Stack(items, at) && idx < |items| && j < |items| && j != idx
    requires DescOff(|items|) <= lo <= at[idx] && lo <= at[j] && at[idx] + |items[idx].data| <= |b|
    ensures DataAt(GapClosed(b, lo, at[idx], |items[idx].data|), items[j], NewStart(at[j], at[idx], |items[idx].data|))
    ensures DescOff(|items|) <= NewStart(at[j], at[idx], |items[idx].data|)
  {
    hide GapClosed, DescAt, Slot, Laid;
    var p, del, s := at[j], at[idx], |items[idx].data|;
    LaidSlot(b, items, at, j);
    if items[j].data == [] {
      LaidSlot(b, items, at, idx);
    } else if s == 0 {
      GapNone(b, lo, del);
    } else if del < p {
      GapAbove(b, lo, del, s, p, p + |items[j].data|);
    } else {
      GapMoved(b, lo, del, s, p, p + |items[j].data|);
    }
  }

  lemma {:induction false} GapNone(b: seq<u8>, lo: nat, del: nat)
    requires lo <= del <= |b|
    ensures GapClosed(b, lo, del, 0) == b
  {
  }

  /** The least data position, as the scan over all items finds it. */
  method LowestData(a: array<u8>, idx: nat) returns (lo: nat)
    requires Sound(a[..]) && idx < Count(a[..])
    ensures DescOff(Count(a[..])) <= lo
    ensures forall i :: 0 <= i < Count(a[..]) ==> lo <= Starts(a[..])[i]
  {
    hide ReadDesc, UnLe;
    var n := Count(a[..]);
    lo := DescAt(a[..], idx).start;
    var i := 0;
    while i < n
      invariant 0 <= i <= n
      invariant DescOff(n) <= lo <= DescAt(a[..], idx).start
      invariant forall j :: 0 <= j < i ==> lo <= DescAt(a[..], j).start
    {
      if i != idx && DescAt(a[..], i).start < lo {
        lo := DescAt(a[..], i).start;
      }
      i := i + 1;
    }
  }

  method CloseGap(a: array<u8>, lo: nat, del: nat, s: nat)
    requires lo <= del && del + s <= a.Length
    modifies a
    ensures a[..] == GapClosed(old(a[..]), lo, del, s)
  {
    hide Put, Zeros;
    ghost var b := a[..];
    if del > lo {
      Move(a, lo + s, lo, del - lo);
    } else {
      PutNothing(b, lo + s);
      assert b[lo..del] == [];
    }
    Clear(a, lo, s);
  }

  function Without(items: seq<Item>, idx: nat): (r: seq<Item>)
    requires idx < |items|
    ensures |r| == |items| - 1
  {
    items[..idx] + items[idx + 1..]
  }

  /** The old index of the item that is at index j after the deletion. */
  function Kept(idx: nat, j: nat): (k: nat)
    ensures k != idx && j <= k <= j + 1
  {
    if j < idx then j else j + 1
  }

  // ---- the descriptors ------------------------------------------------------------------------------

  lemma {:induction false} FieldSet(d: seq<u8>, v: seq<u8>, e: seq<u8>)
    requires |d| == ITEM_SIZE && |v| == 4 && e == d[..17] + v + d[21..]
    ensures e[0..8] == d[0..8] && e[8] == d[8] && e[9..17] == d[9..17] && e[17..21] == v && e[21..25] == d[21..25]
  {
  }

  lemma {:induction false} InSlice(b: seq<u8>, p: nat, q: nat, x: nat, v: seq<u8>)
    requires p <= x && x + |v| <= q <= |b|
    ensures Put(b, x, v)[p..q] == b[p..q][..x - p] + v + b[p..q][x - p + |v|..]
  {
  }

  /** Overwriting the data position of descriptor i changes that field and nothing else. */
  lemma {:induction false} StartSet(b: seq<u8>, i: nat, v: nat)
    requires DescOff(i + 1) <= |b| && NODE_HDR <= v <= MAX_NODE_SIZE
    ensures var c := Put(b, DescOff(i) + 17, Le(v - NODE_HDR, 4));
            DescAt(c, i) == Desc(DescAt(b, i).k, v, DescAt(b, i).size)
  {
    hide Le, UnLe, Power, Put;
    Widths();
    LeRoundTrip(v - NODE_HDR, 4);
    var o := DescOff(i);
    InSlice(b, o, o + ITEM_SIZE, o + 17, Le(v - NODE_HDR, 4));
    FieldSet(b[o..o + ITEM_SIZE], Le(v - NODE_HDR, 4), Put(b, o + 17, Le(v - NODE_HDR, 4))[o..o + ITEM_SIZE]);
  }

  lemma {:induction false} StartApart(b: seq<u8>, i: nat, v: nat, j: nat)
    requires DescOff(i + 1) <= |b| && DescOff(j + 1) <= |b| && j != i && NODE_HDR <= v
    ensures DescAt(Put(b, DescOff(i) + 17, Le(v - NODE_HDR, 4)), j) == DescAt(b, j)
  {
    PutApart(b, DescOff(i) + 17, Le(v - NODE_HDR, 4), DescOff(j), DescOff(j + 1));
  }

  /** Two buffers that differ only in the first n descriptors. */
  ghost predicate SameOutside(b: seq<u8>, c: seq<u8>, n: nat) {
    |c| == |b| && DescOff(n) <= |b| && c[..NODE_HDR] == b[..NODE_HDR] && c[DescOff(n)..] == b[DescOff(n)..]
  }

  lemma {:induction false} OutsidePut(b: seq<u8>, c: seq<u8>, n: nat, p: nat, v: seq<u8>)
    requires SameOutside(b, c, n) && NODE_HDR <= p && p + |v| <= DescOff(n)
    ensures SameOutside(b, Put(c, p, v), n)
  {
    PutApart(c, p, v, 0, NODE_HDR);
    PutApart(c, p, v, DescOff(n), |c|);
    var d := Put(c, p, v);
    assert d[..NODE_HDR] == d[0..NODE_HDR] && c[..NODE_HDR] == c[0..NODE_HDR];
    assert d[DescOff(n)..] == d[DescOff(n)..|d|] && c[DescOff(n)..] == c[DescOff(n)..|c|];
  }

  /** A descriptor after the update pass. */
  function Bumped(d: Desc, del: nat, s: nat): Desc {
    Desc(d.k, if d.start < del then d.start + s else d.start, d.size)
  }

  ghost predicate BumpedUpTo(b: seq<u8>, c: seq<u8>, n: nat, idx: nat, del: nat, s: nat, i: nat)
    requires DescOff(n) <= |b| && i <= n
  {
    && SameOutside(b, c, n)
    && forall j :: 0 <= j < n ==>
       DescAt(c, j) == if j < i && j != idx then Bumped(DescAt(b, j), del, s) else DescAt(b, j)
  }

  lemma {:induction false} BumpStep(b: seq<u8>, c: seq<u8>, n: nat, idx: nat, del: nat, s: nat, i: nat)
    requires DescOff(n) <= |b| && i < n && i != idx && BumpedUpTo(b, c, n, idx, del, s, i)
    requires del + s <= MAX_NODE_SIZE && DescAt(b, i).start < del
    ensures var v := DescAt(c, i).start + s;
            v >= NODE_HDR && BumpedUpTo(b, Put(c, DescOff(i) + 17, Le(v - NODE_HDR, 4)), n, idx, del, s, i + 1)
  {
    hide Put, Le, ReadDesc;
    assert DescAt(c, i) == DescAt(b, i);
    StartAbove(c, i);
    var v := DescAt(c, i).start + s;
    var d := Put(c, DescOff(i) + 17, Le(v - NODE_HDR, 4));
    StartSet(c, i, v);
    OutsidePut(b, c, n, DescOff(i) + 17, Le(v - NODE_HDR, 4));
    forall j | 0 <= j < n
      ensures DescAt(d, j) == if j < i + 1 && j != idx then Bumped(DescAt(b, j), del, s) else DescAt(b, j)
    {
      if j != i {
        StartApart(c, i, v, j);
      }
    }
  }

  lemma {:induction false} StartAbove(b: seq<u8>, i: nat)
    requires DescOff(i + 1) <= |b|
    ensures DescAt(b, i).start >= NODE_HDR
  {
  }

  method BumpStarts(a: array<u8>, n: nat, idx: nat, del: nat, s: nat)
    requires DescOff(n) <= a.Length && idx < n && del + s <= MAX_NODE_SIZE
    modifies a
    ensures BumpedUpTo(old(a[..]), a[..], n, idx, del, s, n)
  {
    hide Put, Le, ReadDesc;
    ghost var b := a[..];
    var i := 0;
    while i < n
      invariant 0 <= i <= n
      invariant BumpedUpTo(b, a[..], n, idx, del, s, i)
    {
      if i != idx {
        var p := DescAt(a[..], i).start;
        if p < del {
          BumpStep(b, a[..], n, idx, del, s, i);
          CopyInto(a, DescOff(i) + 17, Le(p + s - NODE_HDR, 4));
        }
      }
      i := i + 1;
    }
  }

  lemma {:induction false} DescMoved(b: seq<u8>, n: nat, idx: nat, j: nat)
    requires idx < n && DescOff(n) <= |b| && j < n - 1
    ensures var c := Put(Put(b, DescOff(idx), b[DescOff(idx + 1)..DescOff(n)]), DescOff(n - 1), Zeros(ITEM_SIZE));
            DescAt(c, j) == DescAt(b, Kept(idx, j))
  {
    hide Put, Zeros, ReadDesc;
    var t := b[DescOff(idx + 1)..DescOff(n)];
    var d := Put(b, DescOff(idx), t);
    PutApart(d, DescOff(n - 1), Zeros(ITEM_SIZE), DescOff(j), DescOff(j + 1));
    if j < idx {
      PutApart(b, DescOff(idx), t, DescOff(j), DescOff(j + 1));
    } else {
      PutHere(b, DescOff(idx), t);
      MovedSlice(b, d, DescOff(idx), DescOff(idx + 1), |t|, DescOff(j), ITEM_SIZE);
    }
  }

  lemma {:induction false} MovedSlice(b: seq<u8>, d: seq<u8>, dst: nat, src: nat, n: nat, p: nat, k: nat)
    requires |d| == |b| && dst <= src && src + n <= |b| && dst <= p && p + k <= dst + n
    requires d[dst..dst + n] == b[src..src + n]
    ensures d[p..p + k] == b[p + (src - dst)..p + (src - dst) + k]
  {
    SliceSlice(d, dst, dst + n, p - dst, p - dst + k);
    SliceSlice(b, src, src + n, p - dst, p - dst + k);
  }

  method DropDesc(a: array<u8>, n: nat, idx: nat)
    requires idx < n && DescOff(n) <= a.Length
    modifies a
    ensures SameOutside(old(a[..]), a[..], n)
    ensures forall j :: 0 <= j < n - 1 ==> DescAt(a[..], j) == DescAt(old(a[..]), Kept(idx, j))
  {
    hide Put, Zeros, ReadDesc;
    ghost var b := a[..];
    ghost var t := b[DescOff(idx + 1)..DescOff(n)];
    OutsidePut(b, b, n, DescOff(idx), t);
    OutsidePut(b, Put(b, DescOff(idx), t), n, DescOff(n - 1), Zeros(ITEM_SIZE));
    ghost var e := Put(Put(b, DescOff(idx), t), DescOff(n - 1), Zeros(ITEM_SIZE));
    forall j | 0 <= j < n - 1
      ensures DescAt(e, j) == DescAt(b, Kept(idx, j))
    {
      DescMoved(b, n, idx, j);
    }
    Move(a, DescOff(idx), DescOff(idx + 1), DescOff(n) - DescOff(idx + 1));
    Clear(a, DescOff(n - 1), ITEM_SIZE);
  }

  // ---- the whole deletion ------------------------------------------------------------------------------

  /** The data positions the deletion leaves. */
  function StartsAfter(at: seq<int>, idx: nat, s: nat): (r: seq<int>)
    requires idx < |at|
    ensures |r| == |at| - 1
  {
    seq(|at| - 1, j requires 0 <= j < |at| - 1 => NewStart(at[Kept(idx, j)], at[idx], s))
  }

  lemma {:induction false} StackAfter(items: seq<Item>, at: seq<int>, idx: nat)
    requires |at| == |items| && idx < |items| && Stack(items, at)
    ensures Stack(Without(items, idx), StartsAfter(at, idx, |items[idx].data|))
  {
    var items', at' := Without(items, idx), StartsAfter(at, idx, |items[idx].data|);
    forall i, j | 0 <= i < j < |items'| && items'[i].data != [] && items'[j].data != []
      ensures at'[j] + |items'[j].data| <= at'[i] || at'[i] + |items'[i].data| <= at'[j]
    {
      KeptItem(items, at, idx, i);
      KeptItem(items, at, idx, j);
    }
  }

  // ---- when the node is tight again ----------------------------------------------------------------

  /** Deleting is tight again unless the item had data and the next one has none. */
  predicate ClosesUp(items: seq<Item>, idx: nat)
    requires idx < |items|
  {
    items[idx].data == [] || idx == |items| - 1 || items[idx + 1].data != []
  }

  lemma {:induction false} SumWithout(items: seq<Item>, idx: nat, j: nat)
    requires idx < |items| && j < |items| - 1
    ensures DataSum(Without(items, idx)[..j + 1]) ==
            if j < idx then DataSum(items[..j + 1]) else DataSum(items[..j + 2]) - |items[idx].data|
  {
    hide DataSum;
    var r := Without(items, idx);
    if j < idx {
      assert r[..j + 1] == items[..j + 1];
    } else {
      var s := items[..j + 2];
      assert r[..j + 1] == s[..idx] + s[idx + 1..];
      DataSumAt(s, idx);
      DataSumConcat(s[..idx], s[idx + 1..]);
    }
  }

  lemma {:induction false} StartAfterAt(items: seq<Item>, idx: nat, n: nat, j: nat)
    requires idx < |items| && j < |items| - 1
    ensures StartsAfter(Packed(items, n), idx, |items[idx].data|)[j] == Packed(Without(items, idx), n)[j] <==>
            (j < idx || items[idx].data == [] || Packed(items, n)[j + 1] < Packed(items, n)[idx])
  {
    hide DataSum;
    SumWithout(items, idx, j);
    if j < idx {
      PackedDown(items, n, j, idx);
    }
  }

  lemma {:induction false} StartsAfterIff(items: seq<Item>, idx: nat, n: nat)
    requires idx < |items|
    ensures StartsAfter(Packed(items, n), idx, |items[idx].data|) == Packed(Without(items, idx), n) <==>
            ClosesUp(items, idx)
  {
    hide DataSum, Packed, StartsAfter;
    var x, y := StartsAfter(Packed(items, n), idx, |items[idx].data|), Packed(Without(items, idx), n);
    if ClosesUp(items, idx) {
      forall j | 0 <= j < |items| - 1
        ensures x[j] == y[j]
      {
        StartAfterAt(items, idx, n, j);
        if j >= idx && items[idx].data != [] {
          PackedStep(items, n, idx + 1);
          if j > idx {
            PackedDown(items, n, idx + 1, j + 1);
          }
        }
      }
    } else {
      StartAfterAt(items, idx, n, idx);
      PackedStep(items, n, idx + 1);
      assert x[idx] != y[idx];
    }
  }

  /** Two items, the second without data: deleting the first leaves the second where it was, not packed. */
  lemma {:induction false} GapExample(k: Key, l: Key, n: nat)
    ensures var items := [Item(k, [7]), Item(l, [])];
            StartsAfter(Packed(items, n), 0, 1) != Packed(Without(items, 0), n)
  {
    hide Packed, StartsAfter;
    var items := [Item(k, [7]), Item(l, [])];
    assert !ClosesUp(items, 0);
    StartsAfterIff(items, 0, n);
  }

  // ---- putting the phases together -------------------------------------------------------------------

  /** One surviving item through the update of the data positions and the closing of the descriptors. */
  lemma {:induction false} SlotAfter(c: seq<u8>, d: seq<u8>, e: seq<u8>, n: nat, idx: nat, del: nat, s: nat, j: nat,
                                     it: Item, q: nat)
    requires DescOff(n) <= |c| && idx < n && j < n - 1
    requires BumpedUpTo(c, d, n, idx, del, s, n) && SameOutside(d, e, n)
    requires DescAt(e, j) == DescAt(d, Kept(idx, j)) && DescAt(c, Kept(idx, j)) == Desc(it.k, q, |it.data|)
    requires DataAt(c, it, NewStart(q, del, s)) && DescOff(n) <= NewStart(q, del, s)
    ensures Slot(e, j, it, NewStart(q, del, s))
  {
    hide ReadDesc;
    var p := NewStart(q, del, s);
    assert DescAt(d, Kept(idx, j)) == Desc(it.k, p, |it.data|);
    TailSlice(c, d, DescOff(n), p, p + |it.data|);
    TailSlice(d, e, DescOff(n), p, p + |it.data|);
  }

  lemma {:induction false} TailSlice(b: seq<u8>, c: seq<u8>, n: nat, p: nat, q: nat)
    requires |c| == |b| && n <= |b| && c[n..] == b[n..] && n <= p <= q <= |b|
    ensures c[p..q] == b[p..q]
  {
    SliceSlice(c, n, |c|, p - n, q - n);
    SliceSlice(b, n, |b|, p - n, q - n);
    assert c[n..] == c[n..|c|] && b[n..] == b[n..|b|];
  }

  lemma {:induction false} GapDesc(b: seq<u8>, lo: nat, del: nat, s: nat, k: nat)
    requires DescOff(k + 1) <= lo <= del && del + s <= |b|
    ensures DescAt(GapClosed(b, lo, del, s), k) == DescAt(b, k)
  {
    hide GapClosed, ReadDesc;
    GapAbove(b, lo, del, s, DescOff(k), DescOff(k + 1));
  }

  lemma {:induction false} KeptItem(items: seq<Item>, at: seq<int>, idx: nat, j: nat)
    requires |at| == |items| && idx < |items| && j < |items| - 1
    ensures Without(items, idx)[j] == items[Kept(idx, j)]
    ensures StartsAfter(at, idx, |items[idx].data|)[j] == NewStart(at[Kept(idx, j)], at[idx], |items[idx].data|)
  {
  }

  /** The buffers of a deletion: b before, c with the gap closed, d with the positions updated, e with the
      descriptor gone. */
  ghost predicate Phases(b: seq<u8>, items: seq<Item>, at: seq<int>, idx: nat, lo: nat, c: seq<u8>, d: seq<u8>,
                         e: seq<u8>) {
    && |at| == |items| && Laid(b, items, at) && Stack(items, at) && idx < |items|
    && DescOff(|items|) <= lo && (forall i :: 0 <= i < |at| ==> lo <= at[i])
    && at[idx] + |items[idx].data| <= |b|
    && c == GapClosed(b, lo, at[idx], |items[idx].data|)
    && DescOff(|items|) <= |b|
    && BumpedUpTo(c, d, |items|, idx, at[idx], |items[idx].data|, |items|)
    && SameOutside(d, e, |items|)
    && |e| == |d|
    && forall j :: 0 <= j < |items| - 1 ==> DescAt(e, j) == DescAt(d, Kept(idx, j))
  }

  lemma {:induction false} DeletedSlot(b: seq<u8>, items: seq<Item>, at: seq<int>, idx: nat, lo: nat, c: seq<u8>,
                                       d: seq<u8>, e: seq<u8>, j: nat)
    requires Phases(b, items, at, idx, lo, c, d, e) && j < |items| - 1
    ensures Slot(e, j, Without(items, idx)[j], StartsAfter(at, idx, |items[idx].data|)[j])
    ensures DescOff(|items|) <= StartsAfter(at, idx, |items[idx].data|)[j]
  {
    hide GapClosed, DescAt, BumpedUpTo, Slot, DataAt, StartsAfter, Without, Kept, NewStart, SameOutside, Laid, Stack;
    var k := Kept(idx, j);
    LaidSlot(b, items, at, k);
    DataShifted(b, items, at, idx, k, lo);
    GapDesc(b, lo, at[idx], |items[idx].data|, k);
    KeptItem(items, at, idx, j);
    SlotAfter(c, d, e, |items|, idx, at[idx], |items[idx].data|, j, items[k], at[k]);
  }

  /** The node after the three phases and the new item count. */
  lemma {:induction false} DeletedLaid(b: seq<u8>, items: seq<Item>, at: seq<int>, idx: nat, lo: nat, c: seq<u8>,
                                       d: seq<u8>, e: seq<u8>, f: seq<u8>)
    requires Phases(b, items, at, idx, lo, c, d, e) && NODE_HDR <= |e|
    requires f == Put(e, COUNT_AT, Le(|items| - 1, 4))
    ensures Laid(f, Without(items, idx), StartsAfter(at, idx, |items[idx].data|))
  {
    hide GapClosed, DescAt, Put, Le, BumpedUpTo, Slot, StartsAfter, Without, Kept, SameOutside, Count, Laid, Phases;
    PhaseSizes(b, items, at, idx, lo, c, d, e);
    var at', items' := StartsAfter(at, idx, |items[idx].data|), Without(items, idx);
    CountSet(e, |items| - 1);
    forall j | 0 <= j < |items'|
      ensures Slot(f, j, items'[j], at'[j]) && DescOff(|items'|) <= at'[j]
    {
      DeletedSlot(b, items, at, idx, lo, c, d, e, j);
      CountApart(e, |items| - 1, j, items'[j], at'[j]);
    }
    LaidIntro(f, items', at');
  }

  lemma {:induction false} PhaseSizes(b: seq<u8>, items: seq<Item>, at: seq<int>, idx: nat, lo: nat, c: seq<u8>,
                                      d: seq<u8>, e: seq<u8>)
    requires Phases(b, items, at, idx, lo, c, d, e)
    ensures idx < |items| == |at| && |e| == |b| && DescOff(|items|) <= |b| <= MAX_NODE_SIZE
    ensures SameHeader(b, Put(e, COUNT_AT, Le(|items| - 1, 4)))
  {
    hide GapClosed, DescAt, Put, Le, Slot, SameHeader;
    GapAbove(b, lo, at[idx], |items[idx].data|, 0, NODE_HDR);
    assert c[..NODE_HDR] == c[0..NODE_HDR] && b[..NODE_HDR] == b[0..NODE_HDR];
    HeaderAround(b, e, |items| - 1);
  }

  lemma {:induction false} LaidIntro(b: seq<u8>, items: seq<Item>, at: seq<int>)
    requires |at| == |items| && NODE_HDR <= |b| <= MAX_NODE_SIZE && Count(b) == |items| && DescOff(|items|) <= |b|
    requires forall i :: 0 <= i < |items| ==> Slot(b, i, items[i], at[i]) && DescOff(|items|) <= at[i]
    ensures Laid(b, items, at)
  {
  }

  /** What the finished deletion leaves. */
  lemma {:induction false} DeletedResult(b: seq<u8>, items: seq<Item>, at: seq<int>, idx: nat, f: seq<u8>)
    requires Sound(b) && items == Parse(b) && at == Starts(b) && Stack(items, at) && idx < |items| && |f| == |b|
    requires Laid(f, Without(items, idx), StartsAfter(at, idx, |items[idx].data|))
    ensures Stacked(f) && Parse(f) == Without(items, idx) && Starts(f) == StartsAfter(at, idx, |items[idx].data|)
    ensures Tight(b) ==> (Tight(f) <==> ClosesUp(items, idx))
  {
    hide ReadDesc, Packed, StartsAfter, Without, Stack, DataSum, Laid, ClosesUp;
    var items', at' := Without(items, idx), StartsAfter(at, idx, |items[idx].data|);
    LaidStarts(f, items', at');
    StackAfter(items, at, idx);
    LaidTightIff(f, items', at');
    if Tight(b) {
      TightStacked(b);
      StartsAfterIff(items, idx, |b|);
    }
  }

  /** leafDeleteItem. The item is gone and all others stay readable whatever their sizes; a tight node
      is tight again exactly when the deletion closes up. */
  method LeafDeleteItem(a: array<u8>, idx: nat)
    requires Stacked(a[..]) && idx < Count(a[..])
    modifies a
    ensures Stacked(a[..]) && Parse(a[..]) == Without(old(Parse(a[..])), idx)
    ensures Starts(a[..]) == StartsAfter(old(Starts(a[..])), idx, |old(Parse(a[..]))[idx].data|)
    ensures Tight(old(a[..])) ==> (Tight(a[..]) <==> ClosesUp(old(Parse(a[..])), idx))
    ensures SameHeader(old(a[..]), a[..])
  {
    hide GapClosed, DescAt, Put, Le, BumpedUpTo, StartsAfter, SameOutside, Slot, Laid, Count, Stack,
         ClosesUp, SameHeader, Tight, Sound, Parse, Starts, Without, Kept;
    ghost var b, items, at := a[..], Parse(a[..]), Starts(a[..]);
    SoundLaid(b);
    LaidSlot(b, items, at, idx);
    var n := Count(a[..]);
    var d := DescAt(a[..], idx);
    var lo := LowestData(a, idx);
    CloseGap(a, lo, d.start, d.size);
    ghost var c := a[..];
    BumpStarts(a, n, idx, d.start, d.size);
    ghost var e := a[..];
    DropDesc(a, n, idx);
    ghost var f := a[..];
    PhaseSizes(b, items, at, idx, lo, c, e, f);
    CopyInto(a, COUNT_AT, Le(n - 1, 4));
    DeletedLaid(b, items, at, idx, lo, c, e, f, a[..]);
    DeletedResult(b, items, at, idx, a[..]);
  }

  // ---- the mutations of cowDelete and cowDeletePrefix --------------------------------------------------

  /** The mutation of cowDelete: find the item, then remove it. */
  method LeafDelete(a: array<u8>, k: Key) returns (r: Result<()>)
    requires Stacked(a[..])
    modifies a
    ensures match ApplyLeaf(Delete(k), old(Parse(a[..])), a.Length)
            case Err(e) => r == Err(e) && a[..] == old(a[..])
            case Ok(items) =>
              && r.Ok? && Stacked(a[..]) && Parse(a[..]) == items && SameHeader(old(a[..]), a[..])
              && (Tight(old(a[..])) ==> (Tight(a[..]) <==> ClosesUp(old(Parse(a[..])), IndexOf(old(Parse(a[..])), k))))
    ensures r == Err(Missing) <==> Absent(old(Parse(a[..])), k)
    ensures r.Err? ==> r == Err(Missing) && a[..] == old(a[..])
    ensures r.Ok? ==> FirstGone(old(Parse(a[..])), Parse(a[..]), k)
  {
    hide Tight, Sound, ReadDesc, Stack, ClosesUp, SameHeader, Parse, Starts, UnLe, FirstGone, Absent;
    SizeOf(a[..]);
    DeleteLeafIff(Parse(a[..]), k, a.Length);
    var i := FindItemIdx(a, k);
    if i == Count(a[..]) {
      return Err(Missing);
    }
    LeafDeleteItem(a, i);
    r := Ok(());
  }

  lemma {:induction false} WithoutPrefixNone(s: seq<Item>, objID: u64, typ: u8)
    requires forall i :: 0 <= i < |s| ==> !HasPrefix(s[i].k, objID, typ)
    ensures WithoutPrefix(s, objID, typ) == s
  {
    if s != [] {
      WithoutPrefixNone(s[..|s| - 1], objID, typ);
      assert s == s[..|s| - 1] + [s[|s| - 1]];
    }
  }

  lemma {:induction false} WithoutPrefixLen(s: seq<Item>, objID: u64, typ: u8)
    ensures |WithoutPrefix(s, objID, typ)| <= |s|
    ensures (exists i :: 0 <= i < |s| && HasPrefix(s[i].k, objID, typ)) ==> |WithoutPrefix(s, objID, typ)| < |s|
  {
    if s != [] {
      WithoutPrefixLen(s[..|s| - 1], objID, typ);
      assert forall i :: 0 <= i < |s| - 1 ==> s[i] == s[..|s| - 1][i];
    }
  }

  /** The items from m on filtered: the state of the deletion loop. */
  function Filtered(items: seq<Item>, m: nat, objID: u64, typ: u8): seq<Item>
    requires m <= |items|
  {
    items[..m] + WithoutPrefix(items[m..], objID, typ)
  }

  /** Stretches without a match do not matter. */
  lemma {:induction false} FilteredStretch(items: seq<Item>, m: nat, x: nat, objID: u64, typ: u8)
    requires m <= x <= |items|
    requires forall i :: m <= i < x ==> !HasPrefix(items[i].k, objID, typ)
    ensures Filtered(items, m, objID, typ) == Filtered(items, x, objID, typ)
  {
    hide WithoutPrefix;
    var mid := items[m..x];
    assert items[m..] == mid + items[x..] && items[..x] == items[..m] + mid;
    WithoutPrefixConcat(mid, items[x..], objID, typ);
    WithoutPrefixNone(mid, objID, typ);
  }

  /** Removing a match just below m from the filtered list. */
  lemma {:induction false} FilteredDrop(items: seq<Item>, x: nat, objID: u64, typ: u8)
    requires x < |items| && HasPrefix(items[x].k, objID, typ)
    ensures |Filtered(items, x + 1, objID, typ)| > x
    ensures Without(Filtered(items, x + 1, objID, typ), x) == Filtered(items, x, objID, typ)
  {
    var t := items[x + 1..];
    assert items[x..] == [items[x]] + t;
    WithoutPrefixConcat([items[x]], t, objID, typ);
    assert [items[x]][..0] == [];
    assert WithoutPrefix([items[x]], objID, typ) == [];
    var w := WithoutPrefix(t, objID, typ);
    assert items[..x + 1] + w == items[..x] + [items[x]] + w;
  }

  /** findItemIdxPrefix: the matching indexes in ascending order. */
  method FindItemIdxPrefix(a: array<u8>, objID: u64, typ: u8) returns (idx: seq<nat>)
    requires Sound(a[..])
    ensures Matches(Parse(a[..]), objID, typ, |Parse(a[..])|, idx)
  {
    hide ReadDesc, UnLe, HasPrefix;
    ghost var items := Parse(a[..]);
    var n := Count(a[..]);
    idx := [];
    var i := 0;
    while i < n
      invariant 0 <= i <= n
      invariant Matches(items, objID, typ, i, idx)
    {
      assert items[i] == ItemAt(a[..], i);
      if HasPrefix(DescAt(a[..], i).k, objID, typ) {
        idx := idx + [i];
      }
      i := i + 1;
    }
  }

  /** idx lists the matches among the first n items in ascending order. */
  ghost predicate Matches(items: seq<Item>, objID: u64, typ: u8, n: nat, idx: seq<nat>)
    requires n <= |items|
  {
    && (forall j :: 0 <= j < |idx| ==> idx[j] < n && HasPrefix(items[idx[j]].k, objID, typ))
    && (forall i, j :: 0 <= i < j < |idx| ==> idx[i] < idx[j])
    && (forall i :: 0 <= i < n && HasPrefix(items[i].k, objID, typ) ==> i in idx)
  }

  /** Just above the j-th match, or zero. */
  function Above(idx: seq<nat>, j: nat): nat
    requires j <= |idx|
  {
    if j == 0 then 0 else idx[j - 1] + 1
  }

  lemma {:induction false} NotListed(idx: seq<nat>, j: nat, x: nat)
    requires forall i, j :: 0 <= i < j < |idx| ==> idx[i] < idx[j]
    requires j <= |idx| && Above(idx, j) <= x && (j < |idx| ==> x < idx[j])
    ensures x !in idx
  {
    forall m | 0 <= m < |idx|
      ensures idx[m] != x
    {
      if m < j - 1 {
        assert idx[m] < idx[j - 1];
      } else if m > j {
        assert idx[j] < idx[m];
      }
    }
  }

  lemma {:induction false} NoMatchBetween(items: seq<Item>, objID: u64, typ: u8, idx: seq<nat>, j: nat)
    requires Matches(items, objID, typ, |items|, idx) && j <= |idx|
    ensures Above(idx, j) <= if j < |idx| then idx[j] else |items|
    ensures forall i :: Above(idx, j) <= i < (if j < |idx| then idx[j] else |items|) ==>
            !HasPrefix(items[i].k, objID, typ)
  {
    hide HasPrefix;
    forall i | Above(idx, j) <= i < (if j < |idx| then idx[j] else |items|)
      ensures !HasPrefix(items[i].k, objID, typ)
    {
      NotListed(idx, j, i);
    }
  }

  lemma {:induction false} StepDown(items: seq<Item>, objID: u64, typ: u8, idx: seq<nat>, j: nat)
    requires Matches(items, objID, typ, |items|, idx) && j < |idx|
    ensures Above(idx, j + 1) <= |items| && Above(idx, j) <= |items|
    ensures |Filtered(items, Above(idx, j + 1), objID, typ)| > idx[j]
    ensures Without(Filtered(items, Above(idx, j + 1), objID, typ), idx[j]) ==
            Filtered(items, Above(idx, j), objID, typ)
  {
    hide HasPrefix, Filtered, Without;
    NoMatchBetween(items, objID, typ, idx, j);
    FilteredDrop(items, idx[j], objID, typ);
    FilteredStretch(items, Above(idx, j), idx[j], objID, typ);
  }

  lemma {:induction false} AllFiltered(items: seq<Item>, objID: u64, typ: u8, idx: seq<nat>)
    requires Matches(items, objID, typ, |items|, idx)
    ensures Above(idx, |idx|) <= |items| && Filtered(items, Above(idx, |idx|), objID, typ) == items
    ensures Filtered(items, Above(idx, 0), objID, typ) == WithoutPrefix(items, objID, typ)
    ensures idx == [] <==> |WithoutPrefix(items, objID, typ)| == |items|
  {
    hide HasPrefix;
    NoMatchBetween(items, objID, typ, idx, |idx|);
    FilteredStretch(items, Above(idx, |idx|), |items|, objID, typ);
    assert items[|items|..] == [] && items[..|items|] == items && items[0..] == items;
    if idx != [] {
      assert HasPrefix(items[idx[0]].k, objID, typ);
    }
    WithoutPrefixLen(items, objID, typ);
  }

  lemma {:induction false} SelfHeader(b: seq<u8>)
    requires NODE_HDR <= |b|
    ensures SameHeader(b, b)
  {
  }

  lemma {:induction false} HeaderChain(b: seq<u8>, c: seq<u8>, d: seq<u8>)
    requires SameHeader(b, c) && SameHeader(c, d)
    ensures SameHeader(b, d)
  {
  }

  // ---- when the node is tight after all matches are gone ---------------------------------------------------

  /** No item lies above its packed position. */
  ghost predicate Lags(items: seq<Item>, at: seq<int>, n: nat)
    requires |at| == |items|
  {
    forall i :: 0 <= i < |items| ==> at[i] <= Packed(items, n)[i]
  }

  /** The first m items lie at their packed positions. */
  ghost predicate EvenUpTo(items: seq<Item>, at: seq<int>, n: nat, m: nat)
    requires |at| == |items|
  {
    forall i :: 0 <= i < m && i < |items| ==> at[i] == Packed(items, n)[i]
  }

  /** Some item lies below its packed position. */
  ghost predicate Broken(items: seq<Item>, at: seq<int>, n: nat)
    requires |at| == |items|
  {
    exists i :: 0 <= i < |items| && at[i] < Packed(items, n)[i]
  }

  lemma {:induction false} PackedWithout(items: seq<Item>, x: nat, n: nat, j: nat)
    requires x < |items| && j < |items| - 1
    ensures Packed(Without(items, x), n)[j] ==
            if j < x then Packed(items, n)[j] else Packed(items, n)[j + 1] + |items[x].data|
  {
    hide DataSum;
    SumWithout(items, x, j);
  }

  /** Where one item ends up: items before x stay, items behind it never catch up. */
  lemma {:induction false} LagAt(items: seq<Item>, at: seq<int>, x: nat, n: nat, j: nat)
    requires |at| == |items| && x < |items| && j < |items| - 1 && Lags(items, at, n) && EvenUpTo(items, at, n, x + 1)
    ensures var at', p' := StartsAfter(at, x, |items[x].data|), Packed(Without(items, x), n);
            && (j < x ==> at'[j] == p'[j])
            && (j >= x ==> p'[j] - at'[j] == Packed(items, n)[j + 1] - at[j + 1]
                                             + if at[j + 1] < at[x] then 0 else |items[x].data|)
  {
    hide Packed;
    PackedWithout(items, x, n, j);
    if j < x {
      PackedDown(items, n, j, x);
    }
  }

  lemma {:induction false} DropStep(items: seq<Item>, at: seq<int>, x: nat, n: nat)
    requires |at| == |items| && x < |items| && Lags(items, at, n) && EvenUpTo(items, at, n, x + 1)
    ensures var items', at' := Without(items, x), StartsAfter(at, x, |items[x].data|);
            && Lags(items', at', n) && EvenUpTo(items', at', n, x)
            && (Broken(items', at', n) <==> Broken(items, at, n) || !ClosesUp(items, x))
  {
    hide Packed, StartsAfter;
    var items', at' := Without(items, x), StartsAfter(at, x, |items[x].data|);
    forall j | 0 <= j < |items'|
      ensures at'[j] <= Packed(items', n)[j] && (j < x ==> at'[j] == Packed(items', n)[j])
    {
      LagAt(items, at, x, n, j);
    }
    if j :| 0 <= j < |items'| && at'[j] < Packed(items', n)[j] {
      LagAt(items, at, x, n, j);
      if at[j + 1] == Packed(items, n)[j + 1] {
        NextEmpty(items, at, x, n, j);
      }
    }
    if i :| 0 <= i < |items| && at[i] < Packed(items, n)[i] {
      LagAt(items, at, x, n, i - 1);
      assert at'[i - 1] < Packed(items', n)[i - 1];
    }
    if !ClosesUp(items, x) {
      LagAt(items, at, x, n, x);
      PackedStep(items, n, x + 1);
      assert at'[x] < Packed(items', n)[x];
    }
  }

  /** An item behind x that is packed and yet not below x is reached through empty items only. */
  lemma {:induction false} NextEmpty(items: seq<Item>, at: seq<int>, x: nat, n: nat, j: nat)
    requires |at| == |items| && x <= j < |items| - 1 && at[x] == Packed(items, n)[x]
             && at[j + 1] == Packed(items, n)[j + 1]
    requires at[j + 1] >= at[x]
    ensures items[x + 1].data == []
  {
    hide Packed;
    PackedStep(items, n, x + 1);
    if j > x {
      PackedDown(items, n, x + 1, j + 1);
    }
  }

  /** A match with data whose next item that stays has none. */
  predicate LeavesGap(items: seq<Item>, x: nat, objID: u64, typ: u8)
    requires x < |items|
  {
    var rest := WithoutPrefix(items[x + 1..], objID, typ);
    HasPrefix(items[x].k, objID, typ) && items[x].data != [] && rest != [] && rest[0].data == []
  }

  /** The loop meets the match at its own index, followed by the items that stay. */
  lemma {:induction false} ClosesUpIff(items: seq<Item>, x: nat, objID: u64, typ: u8)
    requires x < |items| && HasPrefix(items[x].k, objID, typ)
    ensures x < |Filtered(items, x + 1, objID, typ)|
    ensures ClosesUp(Filtered(items, x + 1, objID, typ), x) <==> !LeavesGap(items, x, objID, typ)
  {
    hide WithoutPrefix;
    var f := Filtered(items, x + 1, objID, typ);
    assert f[x] == items[x];
    assert |f| > x + 1 ==> f[x + 1] == WithoutPrefix(items[x + 1..], objID, typ)[0];
  }

  /** Some match from the j-th on leaves a gap. */
  ghost predicate GapFrom(items: seq<Item>, idx: seq<nat>, j: nat, objID: u64, typ: u8)
    requires forall m :: 0 <= m < |idx| ==> idx[m] < |items|
  {
    exists m :: j <= m < |idx| && LeavesGap(items, idx[m], objID, typ)
  }

  /** The state of the deletion loop above the j-th match. */
  ghost predicate Sinking(b: seq<u8>, items: seq<Item>, idx: seq<nat>, j: nat, n: nat, objID: u64, typ: u8)
    requires Sound(b) && j <= |idx| && forall m :: 0 <= m < |idx| ==> idx[m] < |items|
  {
    && Lags(Parse(b), Starts(b), n) && EvenUpTo(Parse(b), Starts(b), n, Above(idx, j))
    && (Broken(Parse(b), Starts(b), n) <==> GapFrom(items, idx, j, objID, typ))
  }

  lemma {:induction false} SinkStart(b: seq<u8>, items: seq<Item>, idx: seq<nat>, objID: u64, typ: u8)
    requires Tight(b) && items == Parse(b) && forall m :: 0 <= m < |idx| ==> idx[m] < |items|
    ensures Sinking(b, items, idx, |idx|, |b|, objID, typ)
  {
    hide Packed, LeavesGap;
    TightStacked(b);
  }

  lemma {:induction false} SinkStep(b: seq<u8>, c: seq<u8>, items: seq<Item>, idx: seq<nat>, j: nat, n: nat,
                                    objID: u64, typ: u8)
    requires Sound(b) && Sound(c) && j < |idx| && Matches(items, objID, typ, |items|, idx)
    requires Sinking(b, items, idx, j + 1, n, objID, typ)
    requires Parse(b) == Filtered(items, idx[j] + 1, objID, typ) && idx[j] < |Parse(b)|
    requires Parse(c) == Without(Parse(b), idx[j])
             && Starts(c) == StartsAfter(Starts(b), idx[j], |Parse(b)[idx[j]].data|)
    ensures Sinking(c, items, idx, j, n, objID, typ)
  {
    hide Packed, Parse, Starts, Sound, StartsAfter, Without, Filtered, LeavesGap, HasPrefix, ClosesUp;
    DropStep(Parse(b), Starts(b), idx[j], n);
    ClosesUpIff(items, idx[j], objID, typ);
    GapMore(items, idx, j, objID, typ);
    AboveLess(idx, j);
  }

  lemma {:induction false} AboveLess(idx: seq<nat>, j: nat)
    requires j < |idx| && forall i, j :: 0 <= i < j < |idx| ==> idx[i] < idx[j]
    ensures Above(idx, j) <= idx[j] && Above(idx, j + 1) == idx[j] + 1
  {
  }

  lemma {:induction false} GapMore(items: seq<Item>, idx: seq<nat>, j: nat, objID: u64, typ: u8)
    requires j < |idx| && forall m :: 0 <= m < |idx| ==> idx[m] < |items|
    ensures GapFrom(items, idx, j, objID, typ) <==>
            GapFrom(items, idx, j + 1, objID, typ) || LeavesGap(items, idx[j], objID, typ)
  {
    hide LeavesGap;
  }

  /** At the end the node is tight exactly when no match left a gap. */
  lemma {:induction false} SinkEnd(b: seq<u8>, items: seq<Item>, idx: seq<nat>, objID: u64, typ: u8)
    requires Sound(b) && Matches(items, objID, typ, |items|, idx) && Sinking(b, items, idx, 0, |b|, objID, typ)
    ensures Tight(b) <==> forall x :: 0 <= x < |items| ==> !LeavesGap(items, x, objID, typ)
  {
    hide Packed, ReadDesc;
    SoundLaid(b);
    LaidTightIff(b, Parse(b), Starts(b));
    if x :| 0 <= x < |items| && LeavesGap(items, x, objID, typ) {
      assert HasPrefix(items[x].k, objID, typ);
      var m :| 0 <= m < |idx| && idx[m] == x;
    }
  }

  /** The mutation of cowDeletePrefix: every match, from the last to the first. Whatever the item sizes,
      the node then holds exactly the other items; a tight node is tight again exactly when no match with
      data is followed, among the items that stay, by one without. */
  method LeafDeletePrefix(a: array<u8>, objID: u64, typ: u8) returns (r: Result<()>)
    requires Stacked(a[..])
    modifies a
    ensures match ApplyLeaf(DeletePrefix(objID, typ), old(Parse(a[..])), a.Length)
            case Err(e) => r == Err(e) && a[..] == old(a[..])
            case Ok(items) =>
              && r.Ok? && Stacked(a[..]) && Parse(a[..]) == items && SameHeader(old(a[..]), a[..])
              && (Tight(old(a[..])) ==>
                    (Tight(a[..]) <==> forall x :: 0 <= x < |old(Parse(a[..]))| ==>
                     !LeavesGap(old(Parse(a[..])), x, objID, typ)))
    ensures if forall i :: 0 <= i < |old(Parse(a[..]))| ==>
                old(Parse(a[..]))[i].k.objID != objID || old(Parse(a[..]))[i].k.typ != typ
            then r == Err(Missing)
            else r.Ok? && forall x :: x in Parse(a[..]) <==>
                x in old(Parse(a[..])) && !(x.k.objID == objID && x.k.typ == typ)
  {
    hide Tight, Sound, ReadDesc, Stack, ClosesUp, SameHeader, Without, UnLe, WithoutPrefix, Filtered, Above, HasPrefix,
         Parse, Starts,
         StartsAfter, Sinking, LeavesGap;
    ghost var b, items := a[..], Parse(a[..]);
    SizeOf(b);
    SelfHeader(b);
    DeletePrefixLeafIff(items, objID, typ, |b|);
    var idx := FindItemIdxPrefix(a, objID, typ);
    AllFiltered(items, objID, typ, idx);
    if Tight(b) {
      SinkStart(b, items, idx, objID, typ);
    }
    var i := |idx|;
    while i > 0
      invariant 0 <= i <= |idx|
      invariant Stacked(a[..]) && SameHeader(b, a[..])
      invariant Above(idx, i) <= |items| && Parse(a[..]) == Filtered(items, Above(idx, i), objID, typ)
      invariant i == |idx| ==> a[..] == b
      invariant Tight(b) ==> Sinking(a[..], items, idx, i, |b|, objID, typ)
    {
      i := i - 1;
      ghost var c := a[..];
      StepDown(items, objID, typ, idx, i);
      AboveLess(idx, i);
      LeafDeleteItem(a, idx[i]);
      if Tight(b) {
        SinkStep(c, a[..], items, idx, i, |b|, objID, typ);
      }
      HeaderChain(b, c, a[..]);
    }
    if |idx| == 0 {
      return Err(Missing);
    }
    if Tight(b) {
      SinkEnd(a[..], items, idx, objID, typ);
    }
    r := Ok(());
  }
}
