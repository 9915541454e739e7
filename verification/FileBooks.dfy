/** The books of a file: what its extents take of the device, what goes back to the free list, and the byte
    count its inode should have (write.go, truncate.go). */
module FileBooks {
  import opened Keys
  import opened Bytes
  import opened FreeSpace
  import opened Trees
  import opened FileExtents
  import opened FileResize
  import opened FileState

  // ---- giving space back ------------------------------------------------------------------------------

  /** One more extent at the end. */
  lemma {:induction false} AppendBooks(s: seq<Extent>, x: Extent, sector: nat)
    ensures TotalFree(s + [x]) == TotalFree(s) + x.size
    ensures sector > 0 ==> (WholeSizes(s + [x], sector) <==> WholeSizes(s, sector) && Whole(x.size, sector))
  {
    hide Whole;
    var t := s + [x];
    assert t[..|s|] == s && t[|s|] == x;
    if sector > 0 && WholeSizes(t, sector) {
      forall i | 0 <= i < |s|
        ensures Whole(s[i].size, sector)
      {
        assert t[i] == s[i];
      }
    }
  }

  lemma {:induction false} InsertExtBooks(p: seq<Extent>, x: Extent, sector: nat)
    ensures TotalFree(InsertExt(p, x)) == TotalFree(p) + x.size
    ensures sector > 0 && WholeSizes(p, sector) && Whole(x.size, sector) ==> WholeSizes(InsertExt(p, x), sector)
  {
    hide Whole, WholeSizes, TotalFree;
    if p == [] || p[|p| - 1].start <= x.start {
      AppendBooks(p, x, sector);
    } else {
      var q, y := p[..|p| - 1], p[|p| - 1];
      assert p == q + [y];
      InsertExtBooks(q, x, sector);
      AppendBooks(q, y, sector);
      AppendBooks(InsertExt(q, x), y, sector);
    }
  }

  lemma {:induction false} SortExtBooks(s: seq<Extent>, sector: nat)
    ensures TotalFree(SortExt(s)) == TotalFree(s)
    ensures sector > 0 && WholeSizes(s, sector) ==> WholeSizes(SortExt(s), sector)
  {
    hide Whole, WholeSizes, TotalFree, InsertExt;
    if s != [] {
      var q, y := s[..|s| - 1], s[|s| - 1];
      assert s == q + [y];
      SortExtBooks(q, sector);
      AppendBooks(q, y, sector);
      InsertExtBooks(SortExt(q), y, sector);
    }
  }

  lemma {:induction false} MergeOneBooks(acc: seq<Extent>, x: Extent, sector: nat)
    ensures TotalFree(MergeOne(acc, x)) == TotalFree(acc) + x.size
    ensures sector > 0 && WholeSizes(acc, sector) && Whole(x.size, sector) ==> WholeSizes(MergeOne(acc, x), sector)
  {
    hide Whole, WholeSizes, TotalFree;
    if acc != [] && acc[|acc| - 1].End() == x.start {
      var q, y := acc[..|acc| - 1], acc[|acc| - 1];
      assert acc == q + [y];
      AppendBooks(q, y, sector);
      AppendBooks(q, Extent(y.start, y.size + x.size), sector);
      if sector > 0 && Whole(y.size, sector) && Whole(x.size, sector) {
        WholeDiff(y.size, x.size, sector);
      }
    } else {
      AppendBooks(acc, x, sector);
    }
  }

  lemma {:induction false} MergeExtBooks(s: seq<Extent>, sector: nat)
    ensures TotalFree(MergeExt(s)) == TotalFree(s)
    ensures sector > 0 && WholeSizes(s, sector) ==> WholeSizes(MergeExt(s), sector)
  {
    hide Whole, WholeSizes, TotalFree, MergeOne;
    if s != [] {
      var q, y := s[..|s| - 1], s[|s| - 1];
      assert s == q + [y];
      MergeExtBooks(q, sector);
      AppendBooks(q, y, sector);
      MergeOneBooks(MergeExt(q), y, sector);
    }
  }

  /** Freeing adds its size to the free space, and whole sectors stay whole. */
  lemma {:induction false} FreedBooks(s: seq<Extent>, start: nat, size: nat, sector: nat)
    ensures TotalFree(Freed(s, start, size)) == TotalFree(s) + size
    ensures sector > 0 && WholeSizes(s, sector) && Whole(size, sector) ==> WholeSizes(Freed(s, start, size), sector)
  {
    hide Whole, WholeSizes, TotalFree, SortExt, MergeExt;
    var t := s + [Extent(start, size)];
    AppendBooks(s, Extent(start, size), sector);
    SortExtBooks(t, sector);
    MergeExtBooks(SortExt(t), sector);
  }

  // ---- what extents take of the device ------------------------------------------------------------------

  /** The extents' sizes are whole sectors. */
  ghost predicate WholeItems(items: seq<Item>, sector: nat)
    requires sector > 0
  {
    forall i :: 0 <= i < |items| ==> Whole(ItemUse(items[i]), sector)
  }

  lemma {:induction false} UseIsTotal(items: seq<Item>, deviceSize: nat)
    requires forall i :: 0 <= i < |items| ==> Plain(items[i], deviceSize)
    ensures DiskUse(items) == TotalFree(Disks(items))
    ensures forall i :: 0 <= i < |Disks(items)| ==> Disks(items)[i].End() <= deviceSize
  {
    hide ParseExt;
    if items != [] {
      var p, it := items[..|items| - 1], items[|items| - 1];
      UseIsTotal(p, deviceSize);
      assert Plain(it, deviceSize);
      TotalConcat(Disks(p), ItemDisk(it));
      OneTotal(it);
    }
  }

  lemma {:induction false} OneTotal(it: Item)
    ensures TotalFree(ItemDisk(it)) == ItemUse(it)
  {
    hide ParseExt;
    if ItemDisk(it) != [] {
      assert ItemDisk(it)[..0] == [];
    }
  }

  /** Extents that own no byte twice take no more than the device has. */
  lemma {:induction false} UseBound(items: seq<Item>, size: nat, deviceSize: nat)
    requires Tidy(items, size, deviceSize) && forall b: nat :: FreeCnt(Disks(items), b) <= 1
    ensures DiskUse(items) <= deviceSize
  {
    hide Plain, ItemEnd, DiskUse, Disks, FreeCnt, TotalFree;
    UseIsTotal(items, deviceSize);
    CoverSumIsTotal(Disks(items), deviceSize);
    CoverSumOnce(Disks(items), deviceSize);
  }

  // ---- the byte count of the inode ------------------------------------------------------------------------

  function InlineLen(it: Item): nat {
    var e := ParseExt(it.data);
    if e.Inline? then |e.raw| else 0
  }

  function InlineSum(items: seq<Item>): nat {
    if items == [] then 0 else InlineSum(items[..|items| - 1]) + InlineLen(items[|items| - 1])
  }

  /** What an inode's byte count should be: inline bytes count as well. */
  function ProperBytes(items: seq<Item>): nat {
    DiskUse(items) + InlineSum(items)
  }

  lemma {:induction false} InlineAppend(items: seq<Item>, it: Item)
    ensures InlineSum(items + [it]) == InlineSum(items) + InlineLen(it)
  {
    assert (items + [it])[..|items|] == items;
  }

  lemma {:induction false} InlineConcat(a: seq<Item>, b: seq<Item>)
    ensures InlineSum(a + b) == InlineSum(a) + InlineSum(b)
  {
    hide InlineLen;
    if b == [] {
      assert a + b == a;
    } else {
      InlineConcat(a, b[..|b| - 1]);
      assert (a + b)[..|a + b| - 1] == a + b[..|b| - 1];
    }
  }

  lemma {:induction false} NewItemInline(ino: u64, fo: nat, gen: nat, disk: nat, diskNum: nat, num: nat)
    requires fo < U64_LIMIT && disk < U64_LIMIT && diskNum < U64_LIMIT && num < U64_LIMIT
    ensures InlineLen(NewItem(ino, fo, gen, disk, diskNum, num)) == 0
  {
    hide ParseExt, EncodeRegular;
    RegularRoundTrip(gen, disk, diskNum, num);
  }

  lemma {:induction false} InlineItemLen(ino: u64, gen: nat, data: seq<u8>)
    requires |data| < U64_LIMIT
    ensures InlineLen(Item(ExtentKey(ino, 0), EncodeInline(gen, data))) == |data|
  {
    hide ParseExt, EncodeInline;
    InlineRoundTrip(gen, data);
  }

  /** A truncation leaves inline bytes of an item exactly when it has some and starts below the new end. */
  lemma {:induction false} ShrinkInline(it: Item, n: nat, image: seq<u8>)
    requires Plain(it, |image|) && ItemEnd(it) < U64_LIMIT && n < U64_LIMIT
    ensures InlineSum(ShrinkItem(it, n)) == 0 <==> (it.k.offset as nat < n ==> InlineLen(it) == 0)
  {
    hide ParseExt, Trimmed, SpanOf, PlainBytes;
    ShrinkPlain(it, n, image);
    SpanAgrees(it.data);
    var e, fo := ParseExt(it.data), it.k.offset as nat;
    if ItemEnd(it) <= n {
      InlineAppend([], it);
      assert [] + [it] == [it];
    } else if fo < n {
      var t := ShrinkItem(it, n)[0];
      InlineAppend([], t);
      assert ShrinkItem(it, n) == [] + [t];
      if e.Inline? {
        TrimmedInline(it.data, n - fo);
      } else {
        TrimmedRegular(it.data, n - fo);
      }
    }
  }

  lemma {:induction false} ShrunkInline(items: seq<Item>, size: nat, n: nat, image: seq<u8>)
    requires Tidy(items, size, |image|) && size < U64_LIMIT && n < U64_LIMIT
    ensures InlineSum(Shrunk(items, n)) == 0 <==>
            forall i :: 0 <= i < |items| && items[i].k.offset as nat < n ==> InlineLen(items[i]) == 0
  {
    hide Plain, ItemEnd, InlineLen, ShrinkItem, InlineSum;
    if items == [] {
      NoInline();
    } else {
      var p, it := items[..|items| - 1], items[|items| - 1];
      TidyPrefix(items, size, |image|, |items| - 1);
      ShrunkInline(p, size, n, image);
      assert Plain(it, |image|) && ItemEnd(it) <= size;
      ShrinkInline(it, n, image);
      InlineConcat(Shrunk(p, n), ShrinkItem(it, n));
      assert forall i :: 0 <= i < |p| ==> p[i] == items[i];
    }
  }

  lemma {:induction false} NoInline()
    ensures InlineSum([]) == 0
  {
  }

  /** The count a shrinking truncation stores is the right one exactly when no item that starts below the new
      end has inline bytes. */
  lemma {:induction false} RescanRightIff(items: seq<Item>, size: nat, n: nat, image: seq<u8>)
    requires Tidy(items, size, |image|) && n < size < U64_LIMIT && forall b: nat :: FreeCnt(Disks(items), b) <= 1
    ensures DiskUse(Shrunk(items, n)) % U64_LIMIT == ProperBytes(Shrunk(items, n)) <==>
            forall i :: 0 <= i < |items| && items[i].k.offset as nat < n ==> InlineLen(items[i]) == 0
  {
    hide Plain, ItemEnd, InlineLen, Disks, FreeCnt, DiskUse, InlineSum, Shrunk;
    ShrunkInline(items, size, n, image);
    ShrunkTidy(items, size, n, image, U64_LIMIT);
    forall b: nat
      ensures FreeCnt(Disks(Shrunk(items, n)), b) <= 1
    {
      ShrunkDisks(items, size, n, image, b);
    }
    UseBound(Shrunk(items, n), n, |image|);
  }

  lemma {:induction false} InlineCut(it: Item, data: seq<u8>, n: nat)
    requires ParseExt(it.data) == Inline(0, |data|, data) && it.k.offset == 0 && 0 < n < |data| < U64_LIMIT
    ensures DiskUse(Shrunk([it], n)) == 0 && ProperBytes(Shrunk([it], n)) == n
  {
    hide ParseExt, Trimmed, SpanOf;
    SpanAgrees(it.data);
    TrimmedInline(it.data, n);
    var t := Item(it.k, Trimmed(it.data, n));
    assert [it][..0] == [];
    assert Shrunk([it], n) == [] + [t];
    DiskUseAppend([], t);
    InlineAppend([], t);
  }

  /** An inline file of ten bytes cut to five: the stored count is 0 and should be 5. */
  lemma {:induction false} RescanExample(ino: u64, gen: nat, data: seq<u8>)
    requires |data| == 10
    ensures var items := Shrunk([Item(ExtentKey(ino, 0), EncodeInline(gen, data))], 5);
            DiskUse(items) == 0 && ProperBytes(items) == 5
  {
    hide ParseExt, EncodeInline, Shrunk, DiskUse, ProperBytes;
    InlineRoundTrip(gen, data);
    InlineCut(Item(ExtentKey(ino, 0), EncodeInline(gen, data)), data, 5);
  }

  // ---- space a truncation loses ---------------------------------------------------------------------------

  /** A file of one sector on the device, cut to nothing: its sector is lost. */
  lemma {:induction false} TruncateLeakExample(ino: u64, gen: nat, image: seq<u8>)
    requires 0x4000 <= |image| <= MAX_SIZE
    ensures var items := [NewItem(ino, 0, gen, 0x2000, 0x1000, 0x1000)];
            && Tidy(items, 0x1000, |image|)
            && FreeCnt(Disks(items), 0x2000) == 1 && FreeCnt(Disks(Shrunk(items, 0)), 0x2000) == 0
  {
    hide Plain, PlainBytes, ItemEnd, ItemDisk, Disks, FreeCnt, NewItem, ShrinkItem;
    var it := NewItem(ino, 0, gen, 0x2000, 0x1000, 0x1000);
    NewItemIs(ino, 0, gen, 0x2000, 0x1000, 0x1000, image);
    KeyOf(ino, 0, gen, 0x2000, 0x1000, 0x1000);
    ShrinkPlain(it, 0, image);
    assert [it][..0] == [];
    assert Shrunk([it], 0) == [] + [];
    assert [] + [it] == [it];
    NoDisks(0x2000);
    DisksAppend([], it, 0x2000);
    CntOne(Extent(0x2000, 0x1000), 0x2000);
  }
}
