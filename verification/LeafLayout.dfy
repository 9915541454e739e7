/** The byte image of a leaf (btree.go, cow.go): a header, one descriptor per item growing forward
    from the header, and the items' data growing backward from the end of the node. */
module LeafLayout {
  import opened Keys
  import opened Bytes
  import opened Trees
  import opened CowLeaf

  const MAX_NODE_SIZE: nat := 0x1_0000
  const COUNT_AT: nat := 0x60
  const LEVEL_AT: nat := 0x64

  /** A descriptor: the item's key, where its data starts in the node, and its length. */
  datatype Desc = Desc(k: Key, start: nat, size: nat)

  function ReadDesc(d: seq<u8>): Desc
    requires |d| == ITEM_SIZE
  {
    Desc(Key(U64(UnLe(d[0..8])), d[8], U64(UnLe(d[9..17]))), NODE_HDR + UnLe(d[17..21]), UnLe(d[21..25]))
  }

  function DescBytes(x: Desc): (d: seq<u8>)
    requires x.start >= NODE_HDR
    ensures |d| == ITEM_SIZE
  {
    Le(x.k.objID as nat, 8) + [x.k.typ] + Le(x.k.offset as nat, 8) + Le(x.start - NODE_HDR, 4) + Le(x.size, 4)
  }

  lemma {:induction false} Fields(e: seq<u8>, f: seq<u8>, g: seq<u8>, h: seq<u8>, i: seq<u8>)
    requires |e| == 8 && |f| == 1 && |g| == 8 && |h| == 4 && |i| == 4
    ensures var d := e + f + g + h + i;
            d[0..8] == e && d[8] == f[0] && d[9..17] == g && d[17..21] == h && d[21..25] == i
  {
  }

  lemma {:induction false} DescRoundTrip(x: Desc)
    requires NODE_HDR <= x.start <= MAX_NODE_SIZE && x.size <= MAX_NODE_SIZE
    ensures ReadDesc(DescBytes(x)) == x
    ensures var d := DescBytes(x);
            && UnLe(d[0..8]) == x.k.objID as nat && d[8] == x.k.typ && UnLe(d[9..17]) == x.k.offset as nat
            && UnLe(d[17..21]) == x.start - 101 && UnLe(d[21..25]) == x.size
  {
    hide Le, UnLe, Power;
    Widths();
    Fields(Le(x.k.objID as nat, 8), [x.k.typ], Le(x.k.offset as nat, 8), Le(x.start - NODE_HDR, 4), Le(x.size, 4));
    LeRoundTrip(x.k.objID as nat, 8);
    LeRoundTrip(x.k.offset as nat, 8);
    LeRoundTrip(x.start - NODE_HDR, 4);
    LeRoundTrip(x.size, 4);
  }

  /** Where descriptor i starts: 25 bytes each, after the header of 101. */
  function DescOff(i: nat): nat {
    101 + 25 * i
  }

  function DescAt(b: seq<u8>, i: nat): Desc
    requires DescOff(i + 1) <= |b|
  {
    ReadDesc(b[DescOff(i)..DescOff(i + 1)])
  }

  function Count(b: seq<u8>): nat
    requires NODE_HDR <= |b|
  {
    UnLe(b[COUNT_AT..COUNT_AT + 4])
  }

  /** Every item's descriptor and data lie inside the node, the data above all descriptors. */
  predicate Sound(b: seq<u8>) {
    && NODE_HDR <= |b| <= MAX_NODE_SIZE
    && DescOff(Count(b)) <= |b|
    && forall i :: 0 <= i < Count(b) ==>
         DescOff(Count(b)) <= DescAt(b, i).start && DescAt(b, i).start + DescAt(b, i).size <= |b|
  }

  function ItemAt(b: seq<u8>, i: nat): Item
    requires Sound(b) && i < Count(b)
  {
    var d := DescAt(b, i);
    Item(d.k, b[d.start..d.start + d.size])
  }

  /** The items a reader finds in the node. */
  function Parse(b: seq<u8>): (r: seq<Item>)
    requires Sound(b)
    ensures |r| == Count(b)
  {
    seq(Count(b), i requires 0 <= i < Count(b) && Sound(b) => ItemAt(b, i))
  }

  /** The rule of the kernel's leaf checker: the first item's data ends the node, and every other
      item's data ends where its predecessor's begins. */
  predicate Tight(b: seq<u8>) {
    && Sound(b)
    && forall i :: 0 <= i < Count(b) ==>
         DescAt(b, i).start + DescAt(b, i).size == if i == 0 then |b| else DescAt(b, i - 1).start
  }

  // ---- where the data lies ---------------------------------------------------------------------

  /** Item i of the node is it, with its data at position p. */
  predicate Slot(b: seq<u8>, i: nat, it: Item, p: int) {
    && DescOff(i + 1) <= |b|
    && DescOff(i + 1) <= p && p + |it.data| <= |b|
    && DescAt(b, i) == Desc(it.k, p, |it.data|)
    && b[p..p + |it.data|] == it.data
  }

  /** The node holds the items, item i with its data at at[i]. */
  ghost predicate Laid(b: seq<u8>, items: seq<Item>, at: seq<int>) {
    && |at| == |items|
    && NODE_HDR <= |b| <= MAX_NODE_SIZE
    && Count(b) == |items|
    && DescOff(|items|) <= |b|
    && forall i :: 0 <= i < |items| ==> Slot(b, i, items[i], at[i]) && DescOff(|items|) <= at[i]
  }

  /** The data positions of a tight node of n bytes. */
  function Packed(items: seq<Item>, n: nat): (at: seq<int>)
    ensures |at| == |items|
  {
    seq(|items|, i requires 0 <= i < |items| => n - DataSum(items[..i + 1]))
  }

  lemma {:induction false} DataSumStep(items: seq<Item>, i: nat)
    requires i < |items|
    ensures DataSum(items[..i + 1]) == DataSum(items[..i]) + |items[i].data|
    ensures DataSum(items[..i + 1]) <= DataSum(items)
  {
    assert items[..i + 1][..i] == items[..i];
    assert items == items[..i + 1] + items[i + 1..];
    DataSumConcat(items[..i + 1], items[i + 1..]);
  }

  lemma {:induction false} PackedStep(items: seq<Item>, n: nat, i: nat)
    requires i < |items|
    ensures Packed(items, n)[i] + |items[i].data| == if i == 0 then n else Packed(items, n)[i - 1]
    ensures Packed(items, n)[i] >= n - DataSum(items)
  {
    DataSumStep(items, i);
  }

  lemma {:induction false} LaidParse(b: seq<u8>, items: seq<Item>, at: seq<int>)
    requires Laid(b, items, at)
    ensures Sound(b) && Parse(b) == items
  {
    forall i | 0 <= i < Count(b)
      ensures DescOff(Count(b)) <= DescAt(b, i).start && DescAt(b, i).start + DescAt(b, i).size <= |b|
    {
      assert Slot(b, i, items[i], at[i]);
    }
    forall i | 0 <= i < Count(b)
      ensures Parse(b)[i] == items[i]
    {
      assert Slot(b, i, items[i], at[i]);
    }
  }

  /** A node is tight exactly when its data lies at the packed positions. */
  lemma {:induction false} LaidTightIff(b: seq<u8>, items: seq<Item>, at: seq<int>)
    requires Laid(b, items, at)
    ensures Tight(b) <==> at == Packed(items, |b|)
  {
    LaidParse(b, items, at);
    if Tight(b) {
      forall i | 0 <= i < |items|
        ensures at[i] == Packed(items, |b|)[i]
      {
        TightIsPacked(b, items, at, i);
      }
    }
    if at == Packed(items, |b|) {
      forall i | 0 <= i < Count(b)
        ensures DescAt(b, i).start + DescAt(b, i).size == if i == 0 then |b| else DescAt(b, i - 1).start
      {
        PackedStep(items, |b|, i);
        assert Slot(b, i, items[i], at[i]);
        assert i > 0 ==> Slot(b, i - 1, items[i - 1], at[i - 1]);
      }
    }
  }

  lemma {:induction false} TightIsPacked(b: seq<u8>, items: seq<Item>, at: seq<int>, i: nat)
    requires Laid(b, items, at) && Tight(b) && i < |items|
    ensures at[i] == Packed(items, |b|)[i]
  {
    hide Packed, ReadDesc, DataSum;
    PackedStep(items, |b|, i);
    assert Slot(b, i, items[i], at[i]);
    if i > 0 {
      TightIsPacked(b, items, at, i - 1);
      assert Slot(b, i - 1, items[i - 1], at[i - 1]);
    }
  }

  /** The positions a sound node's descriptors give. */
  function Starts(b: seq<u8>): (at: seq<int>)
    requires Sound(b)
    ensures |at| == Count(b)
  {
    seq(Count(b), i requires 0 <= i < Count(b) && Sound(b) => DescAt(b, i).start)
  }

  lemma {:induction false} SoundLaid(b: seq<u8>)
    requires Sound(b)
    ensures Laid(b, Parse(b), Starts(b))
  {
    forall i | 0 <= i < Count(b)
      ensures Slot(b, i, Parse(b)[i], Starts(b)[i]) && DescOff(Count(b)) <= Starts(b)[i]
    {
      assert Parse(b)[i] == ItemAt(b, i);
    }
  }

  /** A tight node is laid out at the packed positions, and its items fit a leaf. */
  lemma {:induction false} TightLaid(b: seq<u8>)
    requires Tight(b)
    ensures Laid(b, Parse(b), Packed(Parse(b), |b|))
    ensures LeafFits(Parse(b), |b|)
  {
    SoundLaid(b);
    var items := Parse(b);
    LaidTightIff(b, items, Starts(b));
    if items != [] {
      var i := |items| - 1;
      assert items[..i + 1] == items;
      assert Slot(b, i, items[i], Starts(b)[i]);
    }
  }

  /** A slot survives when its descriptor and its data do. */
  lemma {:induction false} SlotKept(b: seq<u8>, c: seq<u8>, i: nat, it: Item, p: int)
    requires |c| == |b| && Slot(b, i, it, p)
    requires c[DescOff(i)..DescOff(i + 1)] == b[DescOff(i)..DescOff(i + 1)]
    requires c[p..p + |it.data|] == b[p..p + |it.data|]
    ensures Slot(c, i, it, p)
  {
  }
}
