/** Writing, overwriting and truncating one file (write.go, truncate.go) against the shared device and
    free-space list. Logical and device addresses coincide. */
module FileState {
  import opened Keys
  import opened Bytes
  import opened FreeSpace
  import opened SpaceManagement
  import opened Trees
  import opened Division
  import opened FileExtents
  import opened FileRead
  import opened FileResize

  const EXTENT_DATA: u8 := 0x6C
  const MAX_INLINE: nat := 2048

  function ExtentKey(ino: u64, fo: nat): Key
    requires fo < U64_LIMIT
  {
    Key(ino, EXTENT_DATA, fo as u64)
  }

  // ---- the device under a file ----------------------------------------------------------------------

  /** Content depends only on the bytes the items own. */
  lemma {:induction false} ContentFrame(items: seq<Item>, size: nat, image: seq<u8>, image': seq<u8>)
    requires Tidy(items, size, |image|) && |image'| == |image|
    requires forall b: nat :: b < |image| && FreeCnt(Disks(items), b) > 0 ==> image'[b] == image[b]
    ensures Content(EnvOf(image'), items, size) == Content(EnvOf(image), items, size)
  {
    hide Plain, PlainBytes, ItemEnd, Put, EffectOf, ItemDisk, Disks, FreeCnt, Content;
    if items == [] {
      NothingFrame(size, image, image');
    } else {
      var p, it := items[..|items| - 1], items[|items| - 1];
      assert items == p + [it];
      TidyFront(items, size, |image|);
      TidyPrefix(items, size, |image|, |items| - 1);
      forall b: nat | b < |image|
        ensures FreeCnt(Disks(p), b) > 0 ==> image'[b] == image[b]
        ensures FreeCnt(ItemDisk(it), b) > 0 ==> image'[b] == image[b]
      {
        DisksAppend(p, it, b);
      }
      ContentFrame(p, size, image, image');
      ContentPlain(p, it, size, image);
      ContentPlain(p, it, size, image');
      BytesFrame(it, image, image');
    }
  }

  lemma {:induction false} NothingFrame(size: nat, image: seq<u8>, image': seq<u8>)
    ensures Content(EnvOf(image'), [], size) == Content(EnvOf(image), [], size)
  {
  }

  lemma {:induction false} BytesFrame(it: Item, image: seq<u8>, image': seq<u8>)
    requires Plain(it, |image|) && |image'| == |image|
    requires forall b: nat :: b < |image| && FreeCnt(ItemDisk(it), b) > 0 ==> image'[b] == image[b]
    ensures PlainBytes(it, image') == PlainBytes(it, image)
  {
    hide ParseExt;
    var e := ParseExt(it.data);
    if e.Regular? && e.disk != 0 {
      forall b: nat | e.disk <= b < e.disk + e.num
        ensures image'[b] == image[b]
      {
        CntOne(Extent(e.disk, e.diskNum), b);
      }
    }
  }

  /** The items written so far hold the first fo bytes of the data. */
  ghost predicate Partial(items: seq<Item>, fo: nat, image: seq<u8>, data: seq<u8>) {
    && Tidy(items, fo, |image|) && fo <= |data|
    && (forall i :: 0 <= i < |items| ==> items[i].k.offset as nat < fo)
    && Content(EnvOf(image), items, fo) == data[..fo]
  }

  lemma {:induction false} PartialNone(image: seq<u8>, data: seq<u8>)
    requires |image| <= MAX_SIZE
    ensures Partial([], 0, image, data)
  {
  }

  /** A new extent's item. */
  function NewItem(ino: u64, fo: nat, gen: nat, disk: nat, diskNum: nat, num: nat): Item
    requires fo < U64_LIMIT
  {
    Item(ExtentKey(ino, fo), EncodeRegular(gen, disk, diskNum, num))
  }

  /** The items are EXTENT_DATA items of the inode and carry the generation. */
  ghost predicate Stamped(items: seq<Item>, ino: u64, gen: nat) {
    forall i :: 0 <= i < |items| ==>
        && items[i].k.objID == ino && items[i].k.typ == 0x6C
        && |items[i].data| >= 0x15 && UnLe(items[i].data[..8]) == Mod(gen, U64_LIMIT)
  }

  lemma {:induction false} StampOf(gen: nat, rest: seq<u8>)
    ensures UnLe((Le(gen, 8) + rest)[..8]) == Mod(gen, U64_LIMIT)
  {
    hide Le, UnLe;
    Widths();
    LeWraps(gen, 8);
    assert (Le(gen, 8) + rest)[..8] == Le(gen, 8);
  }

  lemma {:induction false} NewItemStamped(items: seq<Item>, ino: u64, fo: nat, gen: nat, disk: nat, diskNum: nat,
                                          num: nat)
    requires fo < U64_LIMIT && Stamped(items, ino, gen)
    ensures Stamped(items + [NewItem(ino, fo, gen, disk, diskNum, num)], ino, gen)
  {
    hide Le, UnLe;
    var rest := Le(num, 8) + [0, 0, 0, 0, 1] + Le(disk, 8) + Le(diskNum, 8) + Le(0, 8) + Le(num, 8);
    StampOf(gen, rest);
    assert EncodeRegular(gen, disk, diskNum, num) == Le(gen, 8) + rest;
  }

  lemma {:induction false} InlineStamped(ino: u64, gen: nat, data: seq<u8>)
    ensures Stamped([Item(ExtentKey(ino, 0), EncodeInline(gen, data))], ino, gen)
  {
    hide Le, UnLe;
    var rest := Le(|data|, 8) + [0, 0, 0, 0, 0] + data;
    StampOf(gen, rest);
    assert EncodeInline(gen, data) == Le(gen, 8) + rest;
  }

  lemma {:induction false} NewItemIs(ino: u64, fo: nat, gen: nat, disk: nat, diskNum: nat, num: nat, image: seq<u8>)
    requires fo + num < U64_LIMIT && num <= diskNum && 0 < disk && disk + diskNum <= |image| <= MAX_SIZE
    ensures var it := NewItem(ino, fo, gen, disk, diskNum, num);
            && Plain(it, |image|) && ItemEnd(it) == fo + num
            && PlainBytes(it, image) == image[disk..disk + num]
            && ItemDisk(it) == [Extent(disk, diskNum)]
  {
    hide ParseExt, EncodeRegular;
    RegularRoundTrip(gen, disk, diskNum, num);
  }

  lemma {:induction false} Extended(data: seq<u8>, fo: nat, n: nat)
    requires fo + n <= |data|
    ensures Put(Resized(data[..fo], fo + n), fo, data[fo..fo + n]) == data[..fo + n]
  {
  }

  /** One extent more: the data goes to device bytes no item owns, and the item is appended. */
  lemma {:induction false} WriteStep(items: seq<Item>, fo: nat, image: seq<u8>, image': seq<u8>, data: seq<u8>,
                                     it: Item,
                  ino: u64, gen: nat, disk: nat, diskNum: nat, num: nat)
    requires Partial(items, fo, image, data) && fo + num <= |data| < U64_LIMIT
    requires 0 < num <= diskNum && 0 < disk && disk + diskNum <= |image| <= MAX_SIZE
    requires image' == Put(image, disk, data[fo..fo + num])
    requires forall b: nat :: disk <= b < disk + diskNum ==> FreeCnt(Disks(items), b) == 0
    requires it == NewItem(ino, fo, gen, disk, diskNum, num)
    ensures Partial(items + [it], fo + num, image', data)
    ensures forall b: nat :: FreeCnt(Disks(items + [it]), b) == FreeCnt(Disks(items), b) + Hit(disk, diskNum, b)
  {
    hide Plain, PlainBytes, ItemEnd, Put, EffectOf, ItemDisk, Disks, FreeCnt, Content, NewItem, Resized;
    forall b: nat | b < |image| && FreeCnt(Disks(items), b) > 0
      ensures image'[b] == image[b]
    {
      PutAt(image, disk, data[fo..fo + num], b);
    }
    NewItemIs(ino, fo, gen, disk, diskNum, num, image');
    KeyOf(ino, fo, gen, disk, diskNum, num);
    ContentFrame(items, fo, image, image');
    ContentGrow(items, fo, fo + num, image');
    ContentPlain(items, it, fo + num, image');
    PutHere(image, disk, data[fo..fo + num]);
    Extended(data, fo, num);
    TidyAppend(items, it, fo + num, |image|);
    forall b: nat
      ensures FreeCnt(Disks(items + [it]), b) == FreeCnt(Disks(items), b) + Hit(disk, diskNum, b)
    {
      DisksAppend(items, it, b);
      CntOne(Extent(disk, diskNum), b);
    }
  }

  lemma {:induction false} KeyOf(ino: u64, fo: nat, gen: nat, disk: nat, diskNum: nat, num: nat)
    requires fo < U64_LIMIT
    ensures NewItem(ino, fo, gen, disk, diskNum, num).k.offset as nat == fo
  {
  }

  /** Two items without device bytes: the inline item and the hole. */
  lemma {:induction false} InlineIs(ino: u64, gen: nat, data: seq<u8>, image: seq<u8>)
    requires |data| < U64_LIMIT && |image| <= MAX_SIZE
    ensures var it := Item(ExtentKey(ino, 0), EncodeInline(gen, data));
            && Tidy([it], |data|, |image|) && Content(EnvOf(image), [it], |data|) == data
            && forall b: nat :: FreeCnt(Disks([it]), b) == 0
  {
    hide ParseExt, EncodeInline, EffectOf, Put;
    var it := Item(ExtentKey(ino, 0), EncodeInline(gen, data));
    InlineRoundTrip(gen, data);
    assert Plain(it, |image|);
    OneItem(it, |data|, image);
    PutWhole(Zeros(|data|), data);
  }

  lemma {:induction false} HoleIs(ino: u64, gen: nat, data: seq<u8>, image: seq<u8>)
    requires |data| < U64_LIMIT && |image| <= MAX_SIZE && forall i :: 0 <= i < |data| ==> data[i] == 0
    ensures var it := NewItem(ino, 0, gen, 0, 0, |data|);
            && Tidy([it], |data|, |image|) && Content(EnvOf(image), [it], |data|) == data
            && forall b: nat :: FreeCnt(Disks([it]), b) == 0
  {
    hide ParseExt, EncodeRegular, EffectOf, Put;
    var it := NewItem(ino, 0, gen, 0, 0, |data|);
    RegularRoundTrip(gen, 0, 0, |data|);
    assert Plain(it, |image|);
    OneItem(it, |data|, image);
    PutNothing(Zeros(|data|), 0);
    assert Zeros(|data|) == data;
  }

  lemma {:induction false} OneItem(it: Item, size: nat, image: seq<u8>)
    requires Plain(it, |image|) && ItemEnd(it) <= size && |image| <= MAX_SIZE && it.k.offset == 0
    requires ItemDisk(it) == []
    ensures Tidy([it], size, |image|)
    ensures |PlainBytes(it, image)| <= size
            && Content(EnvOf(image), [it], size) == Put(Zeros(size), 0, PlainBytes(it, image))
    ensures forall b: nat :: FreeCnt(Disks([it]), b) == 0
  {
    hide Plain, PlainBytes, ItemEnd, Put, EffectOf, ItemDisk;
    ContentPlain([], it, size, image);
    assert [] + [it] == [it];
    forall b: nat
      ensures FreeCnt(Disks([it]), b) == 0
    {
      DisksAppend([], it, b);
    }
  }

  // ---- device usage -------------------------------------------------------------------------------------

  /** The device bytes the items' extents take. */
  function DiskUse(items: seq<Item>): nat {
    if items == [] then 0
    else DiskUse(items[..|items| - 1]) + ItemUse(items[|items| - 1])
  }

  function ItemUse(it: Item): nat {
    var e := ParseExt(it.data);
    if e.Regular? && e.disk != 0 then e.diskNum else 0
  }

  lemma {:induction false} DiskUseAppend(items: seq<Item>, it: Item)
    ensures DiskUse(items + [it]) == DiskUse(items) + ItemUse(it)
  {
    assert (items + [it])[..|items|] == items;
  }

  lemma {:induction false} NewItemUse(ino: u64, fo: nat, gen: nat, disk: nat, diskNum: nat, num: nat)
    requires fo < U64_LIMIT && disk < U64_LIMIT && diskNum < U64_LIMIT && num < U64_LIMIT
    ensures ItemUse(NewItem(ino, fo, gen, disk, diskNum, num)) == if disk == 0 then 0 else diskNum
  {
    hide ParseExt, EncodeRegular;
    RegularRoundTrip(gen, disk, diskNum, num);
  }

  lemma {:induction false} InlineUse(ino: u64, gen: nat, data: seq<u8>)
    requires |data| < U64_LIMIT
    ensures ItemUse(Item(ExtentKey(ino, 0), EncodeInline(gen, data))) == 0
  {
    hide ParseExt, EncodeInline;
    InlineRoundTrip(gen, data);
  }

  /** len rounded up to whole sectors. */
  function SectorRound(len: nat, sector: nat): nat
    requires sector > 0
  {
    (len + sector - 1) / sector * sector
  }

  predicate Whole(x: nat, sector: nat)
    requires sector > 0
  {
    Mod(x, sector) == 0
  }

  lemma {:induction false} WholeIff(x: nat, sector: nat)
    requires sector > 0
    ensures Whole(x, sector) <==> x == Div(x, sector) * sector
  {
    hide Div, Mod;
    DivMod(x, sector);
  }

  lemma {:induction false} WholeTimes(q: nat, sector: nat)
    requires sector > 0
    ensures Whole(q * sector, sector)
  {
    hide Div, Mod;
    DivUnique(q * sector, q, 0, sector);
  }

  lemma {:induction false} WholeDiff(x: nat, y: nat, sector: nat)
    requires sector > 0 && Whole(x, sector) && Whole(y, sector)
    ensures Whole(x + y, sector)
    ensures x >= y ==> Whole(x - y, sector)
  {
    hide Div, Mod, Whole;
    WholeIff(x, sector);
    WholeIff(y, sector);
    var p, q := Div(x, sector), Div(y, sector);
    assert x + y == (p + q) * sector;
    WholeTimes(p + q, sector);
    if x >= y {
      if p < q {
        MulLess(p, q, sector);
        assert false;
      }
      assert x - y == (p - q) * sector;
      WholeTimes(p - q, sector);
    }
  }

  lemma {:induction false} WholeSmall(x: nat, sector: nat)
    requires 0 < x < sector
    ensures !Whole(x, sector)
  {
    hide Div, Mod;
    ModSmall(x, sector);
  }

  lemma {:induction false} RoundIsWhole(len: nat, sector: nat)
    requires sector > 0
    ensures Whole(SectorRound(len, sector), sector) && len <= SectorRound(len, sector) < len + sector
  {
    hide Whole;
    RoundUp(len, sector);
    WholeTimes((len + sector - 1) / sector, sector);
  }

  /** A whole number of sectors that covers len with less than a sector to spare is len rounded up. */
  lemma {:induction false} RoundUnique(len: nat, t: nat, sector: nat)
    requires sector > 0 && Whole(t, sector) && len <= t < len + sector
    ensures t == SectorRound(len, sector)
  {
    hide Whole, SectorRound;
    RoundIsWhole(len, sector);
    var r := SectorRound(len, sector);
    WholeDiff(t, r, sector);
    WholeDiff(r, t, sector);
    if t < r {
      WholeSmall(r - t, sector);
      assert false;
    } else if r < t {
      WholeSmall(t - r, sector);
      assert false;
    }
  }

  // ---- free space in whole sectors --------------------------------------------------------------------------

  ghost predicate WholeSizes(fr: seq<Extent>, sector: nat)
    requires sector > 0
  {
    forall i :: 0 <= i < |fr| ==> Whole(fr[i].size, sector)
  }

  lemma {:induction false} TotalAt(fr: seq<Extent>, i: nat)
    requires i < |fr|
    ensures TotalFree(fr) == TotalFree(fr[..i]) + fr[i].size + TotalFree(fr[i + 1..])
  {
    SplitAt(fr, i);
    TotalConcat(fr[..i] + [fr[i]], fr[i + 1..]);
    TotalConcat(fr[..i], [fr[i]]);
    assert [fr[i]][..0] == [];
  }

  lemma {:induction false} TakeFrontTotal(fr: seq<Extent>, i: nat, take: nat)
    requires i < |fr| && take <= fr[i].size
    ensures TotalFree(TakeFront(fr, i, take)) == TotalFree(fr) - take
  {
    TotalAt(fr, i);
    var r := TakeFront(fr, i, take);
    if fr[i].size == take {
      TotalConcat(fr[..i], fr[i + 1..]);
    } else {
      TotalAt(r, i);
      assert r[..i] == fr[..i] && r[i + 1..] == fr[i + 1..];
    }
  }

  lemma {:induction false} TakeFrontWhole(fr: seq<Extent>, i: nat, take: nat, sector: nat)
    requires sector > 0 && i < |fr| && take <= fr[i].size && WholeSizes(fr, sector) && Whole(take, sector)
    ensures WholeSizes(TakeFront(fr, i, take), sector)
  {
    hide Whole;
    WholeDiff(fr[i].size, take, sector);
  }

  lemma {:induction false} TotalNone(fr: seq<Extent>, sector: nat)
    requires sector > 0 && WholeSizes(fr, sector) && forall i :: 0 <= i < |fr| ==> fr[i].size < sector
    ensures TotalFree(fr) == 0
  {
    hide Whole;
    if fr != [] {
      TotalNone(fr[..|fr| - 1], sector);
      if fr[|fr| - 1].size > 0 {
        WholeSmall(fr[|fr| - 1].size, sector);
        assert false;
      }
    }
  }

  /** What a greedy grant does to a list of whole sectors. */
  lemma {:induction false} GrantWhole(fr: seq<Extent>, rem: nat, sector: nat, disk: nat, take: nat, fr': seq<Extent>)
    requires sector > 0 && UpToGrant(fr, rem, sector, disk, take, fr')
    ensures TotalFree(fr) == TotalFree(fr') + take
    ensures take <= if rem < sector then sector else rem
    ensures WholeSizes(fr, sector) ==> WholeSizes(fr', sector) && Whole(take, sector)
  {
    hide Whole, WholeSizes, TotalFree;
    var cap := if rem < sector then sector else rem;
    var i :| && 0 <= i < |fr| && disk == fr[i].start && 0 <= take <= fr[i].size
             && (forall k :: 0 <= k < |fr| ==> fr[k].size <= fr[i].size)
             && take == (if fr[i].size > cap then cap / sector * sector else fr[i].size)
             && fr' == TakeFront(fr, i, take);
    TakeFrontTotal(fr, i, take);
    if fr[i].size > cap {
      RoundDown(cap, sector);
      WholeTimes(cap / sector, sector);
    }
    if WholeSizes(fr, sector) {
      assert Whole(fr[i].size, sector) by {
        WholeAt(fr, sector, i);
      }
      TakeFrontWhole(fr, i, take, sector);
    }
  }

  lemma {:induction false} WholeAt(fr: seq<Extent>, sector: nat, i: nat)
    requires sector > 0 && WholeSizes(fr, sector) && i < |fr|
    ensures Whole(fr[i].size, sector)
  {
  }

  lemma {:induction false} FirstFitTotal(fr: seq<Extent>, need: nat)
    requires FirstFit(fr, need).Granted?
    ensures TotalFree(fr) == TotalFree(FirstFit(fr, need).rest) + need
  {
    hide TotalFree;
    var j := FirstFitAt(fr, need, 0);
    TakeFrontTotal(fr, j, need);
  }
}
