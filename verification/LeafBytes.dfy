/** The leaf editor (cow.go, btree_write.go) on a node buffer whose data areas do not overlap. Each operation
    carries out on bytes what CowSpec.ApplyLeaf says of item lists, except that an insert into a node with
    gaps can be refused although the item would fit. Every rebuild leaves a tight node. */
module LeafBytes {
  import opened Keys
  import opened Bytes
  import opened FreeSpace
  import opened Trees
  import opened CowSpec
  import opened CowLeaf
  import opened LeafLayout

  // ---- writing one item --------------------------------------------------------------------------

  lemma {:induction false} FiveFields(b: seq<u8>, o: nat, x: Desc)
    requires o + ITEM_SIZE <= |b| && x.start >= NODE_HDR
    ensures Put(Put(Put(Put(Put(b, o, Le(x.k.objID as nat, 8)), o + 8, [x.k.typ]), o + 9, Le(x.k.offset as nat, 8)),
                    o + 17, Le(x.start - NODE_HDR, 4)), o + 21, Le(x.size, 4)) == Put(b, o, DescBytes(x))
  {
    var f1, f2, f3, f4, f5 := Le(x.k.objID as nat, 8), [x.k.typ], Le(x.k.offset as nat, 8), Le(x.start - NODE_HDR, 4),
        Le(x.size, 4);
    PutTwice(b, o, f1, f2);
    PutTwice(b, o, f1 + f2, f3);
    PutTwice(b, o, f1 + f2 + f3, f4);
    PutTwice(b, o, f1 + f2 + f3 + f4, f5);
  }

  method PutDesc(a: array<u8>, i: nat, x: Desc)
    requires DescOff(i + 1) <= a.Length && x.start >= NODE_HDR
    modifies a
    ensures a[..] == Put(old(a[..]), DescOff(i), DescBytes(x))
  {
    hide Put;
    var o := DescOff(i);
    FiveFields(a[..], o, x);
    CopyInto(a, o, Le(x.k.objID as nat, 8));
    CopyInto(a, o + 8, [x.k.typ]);
    CopyInto(a, o + 9, Le(x.k.offset as nat, 8));
    CopyInto(a, o + 17, Le(x.start - NODE_HDR, 4));
    CopyInto(a, o + 21, Le(x.size, 4));
  }

  function PutItem(b: seq<u8>, i: nat, it: Item, p: nat): (c: seq<u8>)
    requires DescOff(i + 1) <= p && p + |it.data| <= |b|
    ensures |c| == |b|
  {
    Put(Put(b, p, it.data), DescOff(i), DescBytes(Desc(it.k, p, |it.data|)))
  }

  method WriteItem(a: array<u8>, i: nat, it: Item, p: nat)
    requires DescOff(i + 1) <= p && p + |it.data| <= a.Length
    modifies a
    ensures a[..] == PutItem(old(a[..]), i, it, p)
  {
    hide Put, DescBytes;
    CopyInto(a, p, it.data);
    PutDesc(a, i, Desc(it.k, p, |it.data|));
  }

  lemma {:induction false} PutItemSlot(b: seq<u8>, i: nat, it: Item, p: nat)
    requires DescOff(i + 1) <= p && p + |it.data| <= |b| <= MAX_NODE_SIZE
    ensures Slot(PutItem(b, i, it, p), i, it, p)
    ensures PutItem(b, i, it, p)[..NODE_HDR] == b[..NODE_HDR]
  {
    var d, x := Put(b, p, it.data), Desc(it.k, p, |it.data|);
    var c := PutItem(b, i, it, p);
    PutHere(d, DescOff(i), DescBytes(x));
    DescRoundTrip(x);
    PutHere(b, p, it.data);
    PutApart(d, DescOff(i), DescBytes(x), p, p + |it.data|);
    PutApart(b, p, it.data, 0, NODE_HDR);
    PutApart(d, DescOff(i), DescBytes(x), 0, NODE_HDR);
    assert c[0..NODE_HDR] == c[..NODE_HDR] && b[0..NODE_HDR] == b[..NODE_HDR];
  }

  /** Writing item i leaves every earlier slot whose data lies above it. */
  lemma {:induction false} PutItemKeeps(b: seq<u8>, i: nat, it: Item, p: nat, j: nat, other: Item, q: int)
    requires DescOff(i + 1) <= p && p + |it.data| <= |b|
    requires j < i && Slot(b, j, other, q) && p + |it.data| <= q
    ensures Slot(PutItem(b, i, it, p), j, other, q)
  {
    var d, x := Put(b, p, it.data), Desc(it.k, p, |it.data|);
    PutApart(b, p, it.data, DescOff(j), DescOff(j + 1));
    PutApart(b, p, it.data, q, q + |other.data|);
    PutApart(d, DescOff(i), DescBytes(x), DescOff(j), DescOff(j + 1));
    PutApart(d, DescOff(i), DescBytes(x), q, q + |other.data|);
    SlotKept(b, PutItem(b, i, it, p), j, other, q);
  }

  // ---- packing a list of items ---------------------------------------------------------------------

  ghost predicate PackedUpTo(b: seq<u8>, items: seq<Item>, n: nat)
    requires n <= |items|
  {
    forall j :: 0 <= j < n ==> Slot(b, j, items[j], Packed(items, |b|)[j])
  }

  lemma {:induction false} PackedDown(items: seq<Item>, n: nat, j: nat, i: nat)
    requires j < i < |items|
    ensures Packed(items, n)[i] + |items[i].data| <= Packed(items, n)[j]
    decreases i
  {
    PackedStep(items, n, i);
    if j < i - 1 {
      PackedDown(items, n, j, i - 1);
    }
  }

  /** Item i finds room above its descriptor exactly when the items up to it fit. */
  lemma {:induction false} PackRoom(items: seq<Item>, n: nat, i: nat)
    requires i < |items|
    ensures DescOff(i + 1) <= Packed(items, n)[i] <==> LeafFits(items[..i + 1], n)
    ensures LeafFits(items, n) ==> LeafFits(items[..i + 1], n)
  {
    DataSumStep(items, i);
  }

  lemma {:induction false} PackStep(b: seq<u8>, items: seq<Item>, i: nat)
    requires i < |items| && |b| <= MAX_NODE_SIZE && DescOff(i + 1) <= Packed(items, |b|)[i]
    requires PackedUpTo(b, items, i)
    ensures Packed(items, |b|)[i] + |items[i].data| <= |b|
    ensures var c := PutItem(b, i, items[i], Packed(items, |b|)[i]);
            PackedUpTo(c, items, i + 1) && c[..NODE_HDR] == b[..NODE_HDR]
  {
    hide PutItem, Slot, DataSum;
    var p := Packed(items, |b|)[i];
    PackedStep(items, |b|, i);
    if i > 0 {
      PackedDown(items, |b|, 0, i);
      PackedStep(items, |b|, 0);
    }
    var c := PutItem(b, i, items[i], p);
    PutItemSlot(b, i, items[i], p);
    forall j | 0 <= j < i
      ensures Slot(c, j, items[j], Packed(items, |b|)[j])
    {
      PackedDown(items, |b|, j, i);
      PutItemKeeps(b, i, items[i], p, j, items[j], Packed(items, |b|)[j]);
    }
  }

  /** The rewrite loop: data from the end of the node backwards, descriptors from the header on. */
  method PackItems(a: array<u8>, items: seq<Item>)
    requires LeafFits(items, a.Length) && a.Length <= MAX_NODE_SIZE
    modifies a
    ensures PackedUpTo(a[..], items, |items|)
    ensures a[..NODE_HDR] == old(a[..NODE_HDR])
  {
    ghost var b := a[..];
    var cursor := a.Length;
    var i := 0;
    while i < |items|
      invariant 0 <= i <= |items|
      invariant cursor == if i == 0 then a.Length else Packed(items, a.Length)[i - 1]
      invariant PackedUpTo(a[..], items, i)
      invariant a[..][..NODE_HDR] == b[..NODE_HDR]
    {
      PackedStep(items, a.Length, i);
      PackRoom(items, a.Length, i);
      PackStep(a[..], items, i);
      cursor := cursor - |items[i].data|;
      WriteItem(a, i, items[i], cursor);
      i := i + 1;
    }
    assert a[..NODE_HDR] == a[..][..NODE_HDR];
  }

  lemma {:induction false} CountKept(b: seq<u8>, c: seq<u8>)
    requires NODE_HDR <= |b| && NODE_HDR <= |c| && c[..NODE_HDR] == b[..NODE_HDR]
    ensures Count(c) == Count(b)
  {
    SliceOfTake(b, NODE_HDR, COUNT_AT, COUNT_AT + 4);
    SliceOfTake(c, NODE_HDR, COUNT_AT, COUNT_AT + 4);
  }

  lemma {:induction false} CountSet(b: seq<u8>, n: nat)
    requires NODE_HDR <= |b| && n <= MAX_NODE_SIZE
    ensures Count(Put(b, COUNT_AT, Le(n, 4))) == n
  {
    Widths();
    PutHere(b, COUNT_AT, Le(n, 4));
    LeRoundTrip(n, 4);
  }

  lemma {:induction false} CountApart(b: seq<u8>, n: nat, i: nat, it: Item, p: int)
    requires NODE_HDR <= |b| && Slot(b, i, it, p)
    ensures Slot(Put(b, COUNT_AT, Le(n, 4)), i, it, p)
  {
    PutApart(b, COUNT_AT, Le(n, 4), DescOff(i), DescOff(i + 1));
    PutApart(b, COUNT_AT, Le(n, 4), p, p + |it.data|);
    SlotKept(b, Put(b, COUNT_AT, Le(n, 4)), i, it, p);
  }

  /** A packed node with the right item count is tight and holds the items. */
  lemma {:induction false} PackedTight(c: seq<u8>, items: seq<Item>)
    requires LeafFits(items, |c|) && |c| <= MAX_NODE_SIZE
    requires PackedUpTo(c, items, |items|) && Count(c) == |items|
    ensures Tight(c) && Parse(c) == items
  {
    var at := Packed(items, |c|);
    forall i | 0 <= i < |items|
      ensures Slot(c, i, items[i], at[i]) && DescOff(|items|) <= at[i]
    {
      PackedStep(items, |c|, i);
    }
    assert Laid(c, items, at);
    LaidParse(c, items, at);
    LaidTightIff(c, items, at);
  }

  /** Setting the item count of a packed buffer completes a tight leaf. */
  lemma {:induction false} CountCompletes(b: seq<u8>, items: seq<Item>, c: seq<u8>)
    requires LeafFits(items, |b|) && |b| <= MAX_NODE_SIZE
    requires PackedUpTo(b, items, |items|)
    requires c == Put(b, COUNT_AT, Le(|items|, 4))
    ensures Tight(c) && Parse(c) == items
  {
    CountSet(b, |items|);
    forall i | 0 <= i < |items|
      ensures Slot(c, i, items[i], Packed(items, |b|)[i])
    {
      CountApart(b, |items|, i, items[i], Packed(items, |b|)[i]);
    }
    PackedTight(c, items);
  }

  /** The header fields an edit leaves alone: everything but the item count. */
  ghost predicate SameHeader(b: seq<u8>, c: seq<u8>) {
    && NODE_HDR <= |b| && NODE_HDR <= |c|
    && c[..COUNT_AT] == b[..COUNT_AT] && c[COUNT_AT + 4..NODE_HDR] == b[COUNT_AT + 4..NODE_HDR]
  }

  lemma {:induction false} HeaderAround(b: seq<u8>, c: seq<u8>, n: nat)
    requires NODE_HDR <= |b| && |c| == |b| && c[..NODE_HDR] == b[..NODE_HDR]
    ensures SameHeader(b, Put(c, COUNT_AT, Le(n, 4)))
  {
    var d := Put(c, COUNT_AT, Le(n, 4));
    assert d[..COUNT_AT] == c[..NODE_HDR][..COUNT_AT];
    assert d[COUNT_AT + 4..NODE_HDR] == c[..NODE_HDR][COUNT_AT + 4..];
    assert b[..COUNT_AT] == b[..NODE_HDR][..COUNT_AT];
    assert b[COUNT_AT + 4..NODE_HDR] == b[..NODE_HDR][COUNT_AT + 4..];
  }

  /** Repack the whole node and set its item count. */
  method Rewrite(a: array<u8>, items: seq<Item>)
    requires LeafFits(items, a.Length) && a.Length <= MAX_NODE_SIZE
    modifies a
    ensures Tight(a[..]) && Parse(a[..]) == items
    ensures SameHeader(old(a[..]), a[..])
  {
    ghost var b := a[..];
    PackItems(a, items);
    assert a[..][..NODE_HDR] == b[..NODE_HDR];
    HeaderAround(b, a[..], |items|);
    ghost var c := a[..];
    CopyInto(a, COUNT_AT, Le(|items|, 4));
    CountCompletes(c, items, a[..]);
  }

  /** buildLeafFromItems: a fresh node with the header of an existing one. It fails exactly when the
      items do not fit. */
  method BuildLeafFromItems(headerSrc: seq<u8>, items: seq<Item>, nodeSize: nat) returns (r: Result<array<u8>>)
    requires NODE_HDR <= |headerSrc| && NODE_HDR <= nodeSize <= MAX_NODE_SIZE
    ensures r.Ok? <==> LeafFits(items, nodeSize)
    ensures r.Err? ==> r.error == TooLarge
    ensures r.Ok? ==> fresh(r.value) && Tight(r.value[..]) && Parse(r.value[..]) == items && r.value.Length == nodeSize
    ensures r.Ok? ==> r.value[..COUNT_AT] == headerSrc[..COUNT_AT] && r.value[LEVEL_AT] == 0
  {
    hide Put, Le, Packed, Slot, DataSum, Tight, Parse, Sound, PutItem, Count;
    var buf := new u8[nodeSize](_ => 0);
    ghost var z := buf[..];
    CopyInto(buf, 0, headerSrc[..NODE_HDR]);
    CopyInto(buf, COUNT_AT, Le(|items|, 4));
    SetByte(buf, LEVEL_AT, 0);
    ghost var b := buf[..];
    var cursor := nodeSize;
    var i := 0;
    while i < |items|
      invariant 0 <= i <= |items|
      invariant i == 0 || LeafFits(items[..i], nodeSize)
      invariant cursor == if i == 0 then nodeSize else Packed(items, nodeSize)[i - 1]
      invariant PackedUpTo(buf[..], items, i)
      invariant buf[..][..NODE_HDR] == b[..NODE_HDR]
    {
      PackedStep(items, nodeSize, i);
      PackRoom(items, nodeSize, i);
      var used := NODE_HDR + (i + 1) * ITEM_SIZE + (nodeSize - cursor);
      if used + |items[i].data| > nodeSize {
        return Err(TooLarge);
      }
      PackStep(buf[..], items, i);
      cursor := cursor - |items[i].data|;
      WriteItem(buf, i, items[i], cursor);
      i := i + 1;
    }
    assert items[..i] == items;
    EmptyFits(items, nodeSize);
    BuiltHeader(headerSrc[..NODE_HDR], z, |items|, buf[..]);
    PackedTight(buf[..], items);
    r := Ok(buf);
  }

  lemma {:induction false} EmptyFits(items: seq<Item>, n: nat)
    requires NODE_HDR <= n
    ensures items == [] ==> LeafFits(items, n)
    ensures LeafFits(items, n) ==> |items| <= n
  {
  }

  lemma {:induction false} BuiltHeader(h: seq<u8>, z: seq<u8>, n: nat, f: seq<u8>)
    requires |h| == NODE_HDR <= |z| == |f| && n <= MAX_NODE_SIZE
    requires f[..NODE_HDR] == Put(Put(z, 0, h), COUNT_AT, Le(n, 4))[LEVEL_AT := 0][..NODE_HDR]
    ensures Count(f) == n && f[..COUNT_AT] == h[..COUNT_AT] && f[LEVEL_AT] == 0
  {
    hide Le, UnLe;
    CountSet(Put(z, 0, h), n);
    var g := Put(Put(z, 0, h), COUNT_AT, Le(n, 4));
    var g' := g[LEVEL_AT := 0];
    assert g'[COUNT_AT..COUNT_AT + 4] == g[COUNT_AT..COUNT_AT + 4];
    CountKept(g', f);
    assert f[LEVEL_AT] == f[..NODE_HDR][LEVEL_AT] == g'[LEVEL_AT];
    assert f[..COUNT_AT] == f[..NODE_HDR][..COUNT_AT] == g'[..NODE_HDR][..COUNT_AT];
    assert g'[..NODE_HDR][..COUNT_AT] == h[..COUNT_AT];
  }

  // ---- reading ---------------------------------------------------------------------------------------

  /** The snapshot every rebuild starts from. */
  method Snapshot(a: array<u8>) returns (recs: seq<Item>)
    requires Sound(a[..])
    ensures recs == Parse(a[..])
  {
    var n := Count(a[..]);
    recs := [];
    var i := 0;
    while i < n
      invariant 0 <= i <= n
      invariant recs == Parse(a[..])[..i]
    {
      var d := DescAt(a[..], i);
      recs := recs + [Item(d.k, a[..][d.start..d.start + d.size])];
      assert Parse(a[..])[i] == ItemAt(a[..], i);
      i := i + 1;
    }
  }

  /** findItemIdx: the first item with the key, or the item count. */
  method FindItemIdx(a: array<u8>, k: Key) returns (i: nat)
    requires Sound(a[..])
    ensures i == IndexOf(Parse(a[..]), k)
  {
    ghost var items := Parse(a[..]);
    var n := Count(a[..]);
    i := 0;
    while i < n && DescAt(a[..], i).k != k
      invariant i <= n
      invariant forall j :: 0 <= j < i ==> items[j].k != k
    {
      assert items[i] == ItemAt(a[..], i);
      i := i + 1;
    }
    if i < n {
      assert items[i] == ItemAt(a[..], i);
    }
    FirstMatch(items, k, i);
  }

  lemma {:induction false} FirstMatch(items: seq<Item>, k: Key, i: nat)
    requires i <= |items|
    requires forall j :: 0 <= j < i ==> items[j].k != k
    requires i < |items| ==> items[i].k == k
    ensures i == IndexOf(items, k)
  {
    var m := IndexOf(items, k);
  }

  lemma {:induction false} FirstGreater(items: seq<Item>, k: Key, i: nat)
    requires i <= |items|
    requires forall j :: 0 <= j < i ==> Rank(items[j].k) <= Rank(k)
    requires i < |items| ==> Rank(k) < Rank(items[i].k)
    ensures i == InsertPos(items, k)
  {
    var m := InsertPos(items, k);
  }

  /** The insertion point: the first item whose key is greater. */
  method FindInsertIdx(a: array<u8>, k: Key) returns (i: nat)
    requires Sound(a[..])
    ensures i == InsertPos(Parse(a[..]), k)
  {
    hide CompareKeys, Rank, ReadDesc;
    ghost var items := Parse(a[..]);
    var n := Count(a[..]);
    i := 0;
    while i < n && CompareKeys(DescAt(a[..], i).k, k.objID, k.typ, k.offset) <= 0
      invariant i <= n
      invariant forall j :: 0 <= j < i ==> Rank(items[j].k) <= Rank(k)
    {
      assert items[i] == ItemAt(a[..], i);
      CompareIsRank(items[i].k, k);
      i := i + 1;
    }
    if i < n {
      assert items[i] == ItemAt(a[..], i);
      CompareIsRank(items[i].k, k);
    }
    FirstGreater(items, k, i);
  }

  /** The data of any two items that have some does not overlap. */
  ghost predicate Stack(items: seq<Item>, at: seq<int>)
    requires |at| == |items|
  {
    forall i, j :: 0 <= i < j < |items| && items[i].data != [] && items[j].data != [] ==>
      at[j] + |items[j].data| <= at[i] || at[i] + |items[i].data| <= at[j]
  }

  /** A readable node whose data does not overlap. */
  ghost predicate Stacked(b: seq<u8>) {
    Sound(b) && Stack(Parse(b), Starts(b))
  }

  lemma {:induction false} TightStacked(b: seq<u8>)
    requires Tight(b)
    ensures Stacked(b) && Starts(b) == Packed(Parse(b), |b|)
  {
    hide Packed, ReadDesc;
    SoundLaid(b);
    var items, at := Parse(b), Starts(b);
    LaidTightIff(b, items, at);
    forall i, j | 0 <= i < j < |items| && items[i].data != [] && items[j].data != []
      ensures at[j] + |items[j].data| <= at[i]
    {
      PackedDown(items, |b|, i, j);
    }
  }

  /** The least of n and the positions. */
  function Least(at: seq<int>, n: int): (m: int)
    ensures m <= n && forall i :: 0 <= i < |at| ==> m <= at[i]
  {
    if at == [] then n
    else
      var m := Least(at[..|at| - 1], n);
      assert forall i :: 0 <= i < |at| - 1 ==> at[i] == at[..|at| - 1][i];
      if at[|at| - 1] < m then at[|at| - 1] else m
  }

  /** Where the data area begins. */
  function Lowest(b: seq<u8>): int
    requires Sound(b)
  {
    Least(Starts(b), |b|)
  }

  /** The scan for the least data position of all items. */
  method DataAreaEnd(a: array<u8>) returns (e: nat)
    requires Sound(a[..])
    ensures e == Lowest(a[..])
  {
    hide ReadDesc, UnLe;
    ghost var at := Starts(a[..]);
    var n := Count(a[..]);
    e := a.Length;
    var i := 0;
    while i < n
      invariant 0 <= i <= n
      invariant e == Least(at[..i], a.Length)
    {
      assert at[..i + 1][..i] == at[..i] && at[i] == DescAt(a[..], i).start;
      var d := DescAt(a[..], i);
      if d.start < e {
        e := d.start;
      }
      i := i + 1;
    }
    assert at[..n] == at;
  }

  /** In a tight node the data area holds the data and nothing else. */
  lemma {:induction false} TightLowest(b: seq<u8>)
    requires Tight(b)
    ensures Lowest(b) == |b| - DataSum(Parse(b))
  {
    hide Packed, Parse, Starts, Tight, DataSum;
    TightStacked(b);
    PackedLeast(Parse(b), |b|, |Parse(b)|);
    var items := Parse(b);
    assert items[..|items|] == items && Packed(items, |b|)[..|items|] == Packed(items, |b|);
  }

  lemma {:induction false} PackedLeast(items: seq<Item>, n: nat, i: nat)
    requires i <= |items|
    ensures Least(Packed(items, n)[..i], n) == n - DataSum(items[..i])
  {
    if i > 0 {
      PackedLeast(items, n, i - 1);
      DataSumStep(items, i - 1);
      assert Packed(items, n)[..i][..i - 1] == Packed(items, n)[..i - 1];
    }
  }

  /** The ranges that the items' data takes. */
  ghost function Areas(items: seq<Item>, at: seq<int>): (r: seq<Extent>)
    requires |at| == |items| && forall i :: 0 <= i < |at| ==> at[i] >= 0
    ensures |r| == |items| && forall i :: 0 <= i < |r| ==> r[i] == Extent(at[i], |items[i].data|)
  {
    seq(|items|, i requires 0 <= i < |items| => Extent(at[i], |items[i].data|))
  }

  lemma {:induction false} AreasTotal(items: seq<Item>, at: seq<int>)
    requires |at| == |items| && forall i :: 0 <= i < |at| ==> at[i] >= 0
    ensures TotalFree(Areas(items, at)) == DataSum(items)
  {
    if items != [] {
      var n := |items| - 1;
      AreasTotal(items[..n], at[..n]);
      assert Areas(items, at)[..n] == Areas(items[..n], at[..n]);
    }
  }

  lemma {:induction false} ApartOnce(s: seq<Extent>, b: nat)
    requires forall i, j :: 0 <= i < j < |s| && s[i].size > 0 && s[j].size > 0 ==>
               s[j].End() <= s[i].start || s[i].End() <= s[j].start
    ensures FreeCnt(s, b) <= 1
  {
    if s != [] {
      var t := s[1..];
      assert forall i :: 0 <= i < |t| ==> t[i] == s[i + 1];
      ApartOnce(t, b);
      CntIsFree(t, b);
    }
  }

  lemma {:induction false} StackRoom(items: seq<Item>, at: seq<int>, lo: nat, n: nat)
    requires |at| == |items| && Stack(items, at) && lo <= n
    requires forall i :: 0 <= i < |items| ==> lo <= at[i] && at[i] + |items[i].data| <= n
    ensures DataSum(items) <= n - lo
  {
    hide FreeCnt, CoverSum, TotalFree, DataSum;
    var s := Areas(items, at);
    forall b: nat
      ensures FreeCnt(s, b) <= 1
    {
      ApartOnce(s, b);
    }
    AreasTotal(items, at);
    CoverSumIsTotal(s, n);
    CoverSumFrom(s, lo, n);
  }

  /** In any node the data fits into the data area. */
  lemma {:induction false} StackedRoom(b: seq<u8>)
    requires Stacked(b)
    ensures DescOff(Count(b)) <= Lowest(b) && DataSum(Parse(b)) <= |b| - Lowest(b)
  {
    hide ReadDesc, DataSum;
    SoundLaid(b);
    var items, at := Parse(b), Starts(b);
    forall i | 0 <= i < |items|
      ensures at[i] + |items[i].data| <= |b|
    {
      assert Slot(b, i, items[i], at[i]);
    }
    LeastAbove(at, |b|, DescOff(Count(b)));
    StackRoom(items, at, Lowest(b), |b|);
  }

  lemma {:induction false} LeastAbove(at: seq<int>, n: int, lo: int)
    requires lo <= n && forall i :: 0 <= i < |at| ==> lo <= at[i]
    ensures lo <= Least(at, n)
  {
    if at != [] {
      LeastAbove(at[..|at| - 1], n, lo);
    }
  }

  // ---- the three edits ---------------------------------------------------------------------------------

  /** The node after an edit: as the item-level specification says, or untouched on an error. A tight node
      stays tight. */
  ghost predicate Edited(was: seq<u8>, now: seq<u8>, spec: Result<seq<Item>>, r: Result<()>) {
    match spec
    case Err(e) => r == Err(e) && now == was
    case Ok(items) =>
      r.Ok? && Stacked(now) && (Tight(was) ==> Tight(now)) && Parse(now) == items && SameHeader(was, now)
  }

  /** Inserting into the room between the descriptors and the data area. */
  function InsertBytes(b: seq<u8>, k: Key, data: seq<u8>): Result<seq<Item>>
    requires Sound(b)
  {
    if Lowest(b) - DescOff(Count(b)) < ITEM_SIZE + |data| then Err(LeafFull)
    else Ok(InsertSorted(Parse(b), Item(k, data)))
  }

  /** The bytes refuse an item that the item list would take exactly when it fits only with the gaps. */
  lemma {:induction false} InsertBytesIff(b: seq<u8>, k: Key, data: seq<u8>)
    requires Stacked(b)
    ensures InsertBytes(b, k, data) == ApplyLeaf(Insert(k, data), Parse(b), |b|) <==>
            !(Lowest(b) - DescOff(Count(b)) < ITEM_SIZE + |data| <= |b| - DescOff(Count(b)) - DataSum(Parse(b)))
    ensures Tight(b) ==> InsertBytes(b, k, data) == ApplyLeaf(Insert(k, data), Parse(b), |b|)
  {
    hide Tight, Parse, Stack, InsertSorted, DataSum, Lowest, Count;
    StackedRoom(b);
    SizeOf(b);
    if Tight(b) {
      TightLowest(b);
    }
  }

  lemma {:induction false} SizeOf(b: seq<u8>)
    requires Sound(b)
    ensures NODE_HDR <= |b| <= MAX_NODE_SIZE && |Parse(b)| == Count(b)
  {
  }

  /** leafInsertItem: the result is tight whatever gaps there were. */
  method LeafInsertItem(a: array<u8>, k: Key, data: seq<u8>) returns (r: Result<()>)
    requires Stacked(a[..])
    modifies a
    ensures Edited(old(a[..]), a[..], InsertBytes(old(a[..]), k, data), r)
    ensures Tight(old(a[..])) ==> Edited(old(a[..]), a[..], ApplyLeaf(Insert(k, data), old(Parse(a[..])), a.Length), r)
    ensures r.Ok? ==> Tight(a[..])
  {
    hide Tight, Sound, Parse, Stack, DataSum, Lowest, Count, Starts, SameHeader;
    StackedRoom(a[..]);
    SizeOf(a[..]);
    InsertBytesIff(a[..], k, data);
    var n := Count(a[..]);
    var area := DataAreaEnd(a);
    var idx := FindInsertIdx(a, k);
    var needed := ITEM_SIZE + |data|;
    var free := a.Length - (NODE_HDR + n * ITEM_SIZE) - (a.Length - area);
    if free < needed {
      return Err(LeafFull);
    }
    var recs := Snapshot(a);
    InsertSortedUse(recs, Item(k, data));
    recs := recs[..idx] + [Item(k, data)] + recs[idx..];
    Rewrite(a, recs);
    TightStacked(a[..]);
    r := Ok(());
  }

  lemma {:induction false} SameSizeAt(b: seq<u8>, items: seq<Item>, at: seq<int>, idx: nat, data: seq<u8>, i: nat)
    requires Laid(b, items, at) && Stack(items, at) && idx < |items| && |data| == |items[idx].data| && i < |items|
    ensures var p := at[idx];
            && DescOff(|items|) <= p && p + |data| <= |b|
            && Slot(Put(b, p, data), i, items[idx := Item(items[idx].k, data)][i], at[i])
  {
    hide ReadDesc, DataSum;
    var p := at[idx];
    assert Slot(b, i, items[i], at[i]) && Slot(b, idx, items[idx], p);
    PutHere(b, p, data);
    PutApart(b, p, data, DescOff(i), DescOff(i + 1));
    if i != idx {
      if items[i].data != [] && data != [] {
        PutApart(b, p, data, at[i], at[i] + |items[i].data|);
      } else if data == [] {
        PutNothing(b, p);
      }
      SlotKept(b, Put(b, p, data), i, items[i], at[i]);
    }
  }

  lemma {:induction false} HeaderKept(b: seq<u8>, p: nat, data: seq<u8>)
    requires NODE_HDR <= p && p + |data| <= |b|
    ensures Count(Put(b, p, data)) == Count(b) && SameHeader(b, Put(b, p, data))
  {
    hide UnLe;
    PutApart(b, p, data, COUNT_AT, COUNT_AT + 4);
    PutApart(b, p, data, COUNT_AT + 4, NODE_HDR);
    PutApart(b, p, data, 0, COUNT_AT);
    assert Put(b, p, data)[..COUNT_AT] == Put(b, p, data)[0..COUNT_AT];
  }

  lemma {:induction false} SameSizeSlot(b: seq<u8>, items: seq<Item>, idx: nat, data: seq<u8>)
    requires Stacked(b) && items == Parse(b) && idx < |items| && |data| == |items[idx].data|
    ensures DescAt(b, idx).start + |data| <= |b|
    ensures var c := Put(b, DescAt(b, idx).start, data);
            Stacked(c) && (Tight(b) ==> Tight(c)) && Parse(c) == items[idx := Item(items[idx].k, data)]
                && SameHeader(b, c)
  {
    hide Packed, ReadDesc, DataSum, Put;
    SoundLaid(b);
    var at := Starts(b);
    var p := at[idx];
    assert Slot(b, idx, items[idx], p);
    var c := Put(b, p, data);
    var items' := items[idx := Item(items[idx].k, data)];
    HeaderKept(b, p, data);
    forall i | 0 <= i < |items|
      ensures Slot(c, i, items'[i], at[i]) && DescOff(|items'|) <= at[i]
    {
      SameSizeAt(b, items, at, idx, data, i);
    }
    assert Laid(c, items', at);
    LaidStarts(c, items', at);
    SameSizePacked(items, idx, data, |b|);
    LaidTightIff(b, items, at);
    LaidTightIff(c, items', at);
  }

  lemma {:induction false} LaidStarts(b: seq<u8>, items: seq<Item>, at: seq<int>)
    requires Laid(b, items, at)
    ensures Sound(b) && Parse(b) == items && Starts(b) == at
  {
    hide ReadDesc;
    LaidParse(b, items, at);
    forall i | 0 <= i < |items|
      ensures Starts(b)[i] == at[i]
    {
      assert Slot(b, i, items[i], at[i]);
    }
  }

  lemma {:induction false} SameSizePacked(items: seq<Item>, idx: nat, data: seq<u8>, n: nat)
    requires idx < |items| && |data| == |items[idx].data|
    ensures Packed(items[idx := Item(items[idx].k, data)], n) == Packed(items, n)
  {
    var items' := items[idx := Item(items[idx].k, data)];
    forall i | 0 <= i < |items|
      ensures Packed(items', n)[i] == Packed(items, n)[i]
    {
      SameSizeSum(items, items', i + 1);
    }
  }

  lemma {:induction false} SameSizeSum(s: seq<Item>, t: seq<Item>, n: nat)
    requires |s| == |t| && n <= |s|
    requires forall i :: 0 <= i < |s| ==> |s[i].data| == |t[i].data|
    ensures DataSum(s[..n]) == DataSum(t[..n])
  {
    if n > 0 {
      SameSizeSum(s, t, n - 1);
      DataSumStep(s, n - 1);
      DataSumStep(t, n - 1);
    }
  }

  /** The summed data lengths of the descriptors. */
  method DataUsed(a: array<u8>) returns (used: nat)
    requires Sound(a[..])
    ensures used == DataSum(Parse(a[..]))
  {
    ghost var items := Parse(a[..]);
    var n := Count(a[..]);
    used := 0;
    var i := 0;
    while i < n
      invariant 0 <= i <= n
      invariant used == DataSum(items[..i])
    {
      assert items[i] == ItemAt(a[..], i);
      DataSumStep(items, i);
      used := used + DescAt(a[..], i).size;
      i := i + 1;
    }
    assert items[..n] == items;
  }

  /** leafReplaceItemData: in place when the size stays, a rebuild otherwise. */
  method LeafReplaceItemData(a: array<u8>, idx: nat, data: seq<u8>) returns (r: Result<()>)
    requires Stacked(a[..]) && idx < Count(a[..])
    modifies a
    ensures var items := old(Parse(a[..]));
            var tooBig := |data| != |items[idx].data|
                && |data| - |items[idx].data| > a.Length - NODE_HDR - LeafUse(items);
            Edited(old(a[..]), a[..], if tooBig then Err(NoRoom) else Ok(items[idx := Item(items[idx].k, data)]), r)
    ensures r.Ok? && |data| != |old(Parse(a[..]))[idx].data| ==> Tight(a[..])
  {
    hide Tight, Stack, ReadDesc, UnLe, DataSum, Starts;
    var n := Count(a[..]);
    var d := DescAt(a[..], idx);
    ghost var items := Parse(a[..]);
    assert items[idx] == ItemAt(a[..], idx);
    if |data| == d.size {
      SameSizeSlot(a[..], items, idx, data);
      CopyInto(a, d.start, data);
      return Ok(());
    }
    var used := DataUsed(a);
    var free := a.Length - NODE_HDR - n * ITEM_SIZE - used;
    if |data| - d.size > free {
      return Err(NoRoom);
    }
    var recs := Snapshot(a);
    ReplaceUse(recs, idx, Item(recs[idx].k, data));
    recs := recs[idx := Item(recs[idx].k, data)];
    HeaderKept(a[..], NODE_HDR, Zeros(a.Length - NODE_HDR));
    Clear(a, NODE_HDR, a.Length - NODE_HDR);
    Rewrite(a, recs);
    TightStacked(a[..]);
    r := Ok(());
  }

  /** The mutation of cowUpdate: find the item, then replace its data. */
  method LeafUpdate(a: array<u8>, k: Key, data: seq<u8>) returns (r: Result<()>)
    requires Stacked(a[..])
    modifies a
    ensures Edited(old(a[..]), a[..], ApplyLeaf(Update(k, data), old(Parse(a[..])), a.Length), r)
    ensures r == Err(Missing) <==> Absent(old(Parse(a[..])), k)
    ensures r == Err(NoRoom) <==> TooBig(old(Parse(a[..])), k, data, a.Length)
    ensures r.Err? ==> (r == Err(Missing) || r == Err(NoRoom)) && a[..] == old(a[..])
    ensures r.Ok? ==> FirstReplaced(old(Parse(a[..])), Parse(a[..]), k, data)
  {
    StackedRoom(a[..]);
    UpdateLeafIff(Parse(a[..]), k, data, a.Length);
    var i := FindItemIdx(a, k);
    if i == Count(a[..]) {
      return Err(Missing);
    }
    r := LeafReplaceItemData(a, i, data);
  }
}
