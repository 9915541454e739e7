/** One file as the driver keeps it: its extent items, its inode size and byte count, the shared device
    and the shared free-space list. */
module FileStore {
  import opened Keys
  import opened Bytes
  import opened FreeSpace
  import opened SpaceManagement
  import opened Trees
  import opened CowSpec
  import opened FileExtents
  import opened FileRead
  import opened FileResize
  import opened FileState
  import opened FileBooks
  import opened FileRuns
  import Division

  /** No device byte is free twice, owned twice, or free and owned; free bytes lie on the device, past
      its first byte. */
  ghost predicate Exclusive(fr: seq<Extent>, items: seq<Item>, deviceSize: nat) {
    forall b: nat :: FreeCnt(fr, b) + FreeCnt(Disks(items), b) <= 1 && (FreeCnt(fr, b) > 0 ==> 0 < b < deviceSize)
  }

  /** Every device byte is as free or as owned as before. */
  ghost predicate Conserved(fr: seq<Extent>, items: seq<Item>, fr': seq<Extent>, items': seq<Item>) {
    forall b: nat :: FreeCnt(fr', b) + FreeCnt(Disks(items'), b) == FreeCnt(fr, b) + FreeCnt(Disks(items), b)
  }

  /** Bytes that were not free are unchanged. */
  ghost predicate OnlyFreeWritten(fr: seq<Extent>, image: seq<u8>, image': seq<u8>) {
    |image'| == |image| && forall b: nat :: b < |image| && FreeCnt(fr, b) == 0 ==> image'[b] == image[b]
  }

  predicate AllZero(data: seq<u8>) {
    forall i :: 0 <= i < |data| ==> data[i] == 0
  }

  /** isAllZero. */
  method IsAllZero(b: seq<u8>) returns (r: bool)
    ensures r <==> AllZero(b)
  {
    var i := 0;
    while i < |b|
      invariant 0 <= i <= |b| && AllZero(b[..i])
    {
      if b[i] != 0 {
        return false;
      }
      assert b[..i + 1] == b[..i] + [b[i]];
      i := i + 1;
    }
    assert b[..i] == b;
    return true;
  }

  /** classifyExtent: the byte count the inode gets. */
  function ClassifiedBytes(data: seq<u8>, sector: nat): nat
    requires sector > 0
  {
    if |data| <= MAX_INLINE then |data| else if AllZero(data) then 0 else SectorRound(|data|, sector)
  }

  /** The data needs device space. */
  predicate NeedsDisk(data: seq<u8>) {
    |data| > MAX_INLINE && !AllZero(data)
  }

  /** No free extent holds a whole sector. */
  ghost predicate NoSector(fr: seq<Extent>, sector: nat) {
    forall i :: 0 <= i < |fr| ==> fr[i].size < sector
  }

  /** A grant taken from an exclusive state lies on the device and is owned by no item. */
  lemma {:induction false} GrantApart(fr: seq<Extent>, fr': seq<Extent>, items: seq<Item>, deviceSize: nat, disk: nat,
                                      n: nat)
    requires Exclusive(fr, items, deviceSize) && n > 0
    requires forall b: nat :: FreeCnt(fr, b) == FreeCnt(fr', b) + Hit(disk, n, b)
    ensures 0 < disk && disk + n <= deviceSize
    ensures forall b: nat :: disk <= b < disk + n ==> FreeCnt(Disks(items), b) == 0
    ensures forall b: nat :: disk <= b < disk + n ==> FreeCnt(fr, b) > 0
  {
    hide FreeCnt, Disks;
    assert Hit(disk, n, disk) == 1;
    assert Hit(disk, n, disk + n - 1) == 1;
    assert FreeCnt(fr, disk) > 0 && FreeCnt(fr, disk + n - 1) > 0;
    forall b: nat | disk <= b < disk + n
      ensures FreeCnt(Disks(items), b) == 0 && FreeCnt(fr, b) > 0
    {
      assert Hit(disk, n, b) == 1;
    }
  }

  lemma {:induction false} WrittenStep(fr: seq<Extent>, image0: seq<u8>, image: seq<u8>, image': seq<u8>, disk: nat,
                                       s: seq<u8>)
    requires OnlyFreeWritten(fr, image0, image) && disk + |s| <= |image| && image' == Put(image, disk, s)
    requires forall b: nat :: disk <= b < disk + |s| ==> FreeCnt(fr, b) > 0
    ensures OnlyFreeWritten(fr, image0, image')
  {
    hide FreeCnt, Put;
    forall b: nat | b < |image0| && FreeCnt(fr, b) == 0
      ensures image'[b] == image0[b]
    {
      PutAt(image, disk, s, b);
    }
  }

  class FileNode {
    var items: seq<Item>
    var size: nat
    var nbytes: nat
    const ino: u64
    const sm: SpaceManager
    const image: array<u8>
    const sector: nat

    constructor (ino: u64, sm: SpaceManager, image: array<u8>, sector: nat)
      ensures this.ino == ino && this.sm == sm && this.image == image && this.sector == sector
      ensures items == [] && size == 0 && nbytes == 0
    {
      this.ino, this.sm, this.image, this.sector := ino, sm, image, sector;
      items, size, nbytes := [], 0, 0;
    }

    ghost predicate Sound()
      reads this, sm
    {
      sector > 0 && image.Length <= MAX_SIZE && Exclusive(sm.freeExts, items, image.Length)
    }

    ghost function Text(): seq<u8>
      reads this, image
    {
      Content(EnvOf(image[..]), items, size)
    }

    /** The books are in order and the items are tidy: what a successful write leaves. */
    ghost predicate Settled()
      reads this, sm
    {
      Sound() && Tidy(items, size, image.Length) && size < U64_LIMIT
    }

    /** Free space and extents are whole sectors. */
    ghost predicate Aligned()
      reads this, sm
    {
      sector > 0 && WholeSizes(sm.freeExts, sector) && WholeItems(items, sector)
    }

    /** One extent: write its data to the granted device range and record the item. */
    method WriteChunk(data: seq<u8>, gen: nat, fo: nat, num: nat, disk: nat, diskNum: nat)
      requires image.Length <= MAX_SIZE && Partial(items, fo, image[..], data) && fo + num <= |data| < U64_LIMIT
      requires 0 < num <= diskNum && 0 < disk && disk + diskNum <= image.Length
      requires forall b: nat :: disk <= b < disk + diskNum ==> FreeCnt(Disks(items), b) == 0
      modifies this`items, image
      ensures Partial(items, fo + num, image[..], data)
      ensures items == old(items) + [NewItem(ino, fo, gen, disk, diskNum, num)]
      ensures image[..] == Put(old(image[..]), disk, data[fo..fo + num])
      ensures DiskUse(items) == old(DiskUse(items)) + diskNum
      ensures forall b: nat :: FreeCnt(Disks(items), b) == old(FreeCnt(Disks(items), b)) + Hit(disk, diskNum, b)
    {
      hide Partial, Put, NewItem, DiskUse, ItemUse, Disks, FreeCnt;
      ghost var b := image[..];
      CopyInto(image, disk, data[fo..fo + num]);
      var it := NewItem(ino, fo, gen, disk, diskNum, num);
      WriteStep(items, fo, b, image[..], data, it, ino, gen, disk, diskNum, num);
      DiskUseAppend(items, it);
      NewItemUse(ino, fo, gen, disk, diskNum, num);
      items := items + [it];
    }

    /** The greedy fill of fragmented free space. */
    method WriteFragments(data: seq<u8>, gen: nat) returns (ok: bool)
      requires Sound() && items == [] && 0 < |data| < U64_LIMIT
      modifies this`items, sm`freeExts, image
      ensures Sound() && Conserved(old(sm.freeExts), [], sm.freeExts, items)
      ensures OnlyFreeWritten(old(sm.freeExts), old(image[..]), image[..])
      ensures ok ==> Opens(items, data) && Partial(items, |data|, image[..], data)
      ensures !ok ==> exists fo :: Partial(items, fo, image[..], data)
      ensures ok ==> |data| <= DiskUse(items) < |data| + sector
      ensures Stamped(items, ino, gen)
      ensures DiskUse(items) + TotalFree(sm.freeExts) == TotalFree(old(sm.freeExts)) && InlineSum(items) == 0
      ensures WholeSizes(old(sm.freeExts), sector) ==>
              Whole(DiskUse(items), sector) && WholeSizes(sm.freeExts, sector) && WholeItems(items, sector)
      ensures WholeSizes(old(sm.freeExts), sector) && !ok ==> TotalFree(old(sm.freeExts)) < |data|
      ensures !ok ==> NoSector(sm.freeExts, sector)
    {
      hide Partial, Put, NewItem, DiskUse, Disks, FreeCnt, TotalFree, WholeSizes, Whole, UpToGrant, Exclusive,
           Conserved, OnlyFreeWritten,
           Opens, InlineSum, WholeItems, Stamped;
      ghost var fr0, b0 := sm.freeExts, image[..];
      NoneStamped(ino, gen);
      var remaining, fo := |data|, 0;
      Started(fr0, items, b0, data, sector);
      while remaining > 0
        invariant 0 <= remaining && fo + remaining == |data|
        invariant Exclusive(sm.freeExts, items, image.Length) && Conserved(fr0, [], sm.freeExts, items)
        invariant OnlyFreeWritten(fr0, b0, image[..])
        invariant Partial(items, fo, image[..], data) && Stamped(items, ino, gen)
        invariant if fo > 0 then Opens(items, data) else items == []
        invariant InlineSum(items) == 0 && (WholeSizes(fr0, sector) ==> WholeItems(items, sector))
        invariant DiskUse(items) + TotalFree(sm.freeExts) == TotalFree(fr0)
        invariant if remaining > 0 then DiskUse(items) == fo else fo <= DiskUse(items) < fo + sector
        invariant WholeSizes(fr0, sector) ==> WholeSizes(sm.freeExts, sector) && Whole(DiskUse(items), sector)
      {
        ghost var fr, old', b := sm.freeExts, items, image[..];
        var g := sm.AllocDataBytesUpTo(remaining, sector);
        if g.None? {
          if WholeSizes(fr0, sector) {
            TotalNone(fr, sector);
          }
          return false;
        }
        var (disk, diskNum) := g.value;
        GrantWhole(fr, remaining, sector, disk, diskNum, sm.freeExts);
        GrantApart(fr, sm.freeExts, items, image.Length, disk, diskNum);
        var num := if diskNum > remaining then remaining else diskNum;
        WriteChunk(data, gen, fo, num, disk, diskNum);
        FreeBefore(fr0, fr, old', disk, diskNum);
        ChunkDone(fr0, fr, old', sm.freeExts, items, image.Length, disk, diskNum);
        WrittenStep(fr0, b0, b, image[..], disk, data[fo..fo + num]);
        ChunkItem(old', items, data, ino, fo, gen, disk, diskNum, num, sector);
        NewItemStamped(old', ino, fo, gen, disk, diskNum, num);
        if WholeSizes(fr0, sector) {
          WholeDiff(DiskUse(old'), diskNum, sector);
        }
        fo := fo + num;
        remaining := remaining - num;
      }
      ok := true;
    }

    /** One extent for all of the data, if the free list offers one. */
    method WriteSingle(data: seq<u8>, gen: nat) returns (ok: bool)
      requires Sound() && items == [] && 0 < |data| < U64_LIMIT
      modifies this`items, sm`freeExts, image
      ensures Sound() && Conserved(old(sm.freeExts), [], sm.freeExts, items)
      ensures OnlyFreeWritten(old(sm.freeExts), old(image[..]), image[..])
      ensures !ok ==> items == [] && sm.freeExts == old(sm.freeExts) && image[..] == old(image[..])
      ensures ok ==>
              Opens(items, data) && Tidy(items, |data|, image.Length)
                  && Content(EnvOf(image[..]), items, |data|) == data
      ensures ok ==>
              InlineSum(items) == 0 && DiskUse(items) == SectorRound(|data|, sector) <= TotalFree(old(sm.freeExts))
      ensures ok ==> Stamped(items, ino, gen) && |items| == 1
      ensures ok && WholeSizes(old(sm.freeExts), sector) ==>
              WholeSizes(sm.freeExts, sector) && WholeItems(items, sector)
    {
      hide Put, NewItem, DiskUse, ItemUse, Disks, FreeCnt, TotalFree, WholeSizes, Whole, Exclusive, OnlyFreeWritten,
           Conserved, Content, Tidy,
           FirstFit, SectorRound, Opens, InlineSum, WholeItems, Partial, Stamped;
      ghost var fr0, b0 := sm.freeExts, image[..];
      Started(fr0, items, b0, data, sector);
      RoundIsWhole(|data|, sector);
      var g := sm.AllocDataBytes(|data|, sector);
      if g.None? {
        return false;
      }
      var (disk, diskNum) := g.value;
      assert diskNum == SectorRound(|data|, sector) by {
        RoundIs(|data|, sector);
      }
      forall b: nat
        ensures FreeCnt(fr0, b) == FreeCnt(sm.freeExts, b) + Hit(disk, diskNum, b)
      {
        FirstFitCnt(fr0, diskNum, b);
      }
      FirstFitTotal(fr0, diskNum);
      GrantApart(fr0, sm.freeExts, items, image.Length, disk, diskNum);
      PartialNone(b0, data);
      WriteChunk(data, gen, 0, |data|, disk, diskNum);
      ChunkDone(fr0, fr0, [], sm.freeExts, items, image.Length, disk, diskNum);
      WrittenStep(fr0, b0, b0, image[..], disk, data[0..|data|]);
      ChunkItem([], items, data, ino, 0, gen, disk, diskNum, |data|, sector);
      NoneStamped(ino, gen);
      NewItemStamped([], ino, 0, gen, disk, diskNum, |data|);
      FirstFitWhole(fr0, diskNum, sector);
      PartialIs(items, |data|, image[..], data);
      return true;
    }

    /** writeExtents: inline, sparse, one extent, or fragments. */
    method WriteExtents(data: seq<u8>, gen: nat) returns (ok: bool)
      requires Sound() && items == [] && |data| < U64_LIMIT
      modifies this`items, sm`freeExts, image
      ensures Sound() && Conserved(old(sm.freeExts), [], sm.freeExts, items)
      ensures OnlyFreeWritten(old(sm.freeExts), old(image[..]), image[..])
      ensures ok ==>
              Opens(items, data) && Tidy(items, |data|, image.Length)
                  && Content(EnvOf(image[..]), items, |data|) == data
      ensures !ok ==> exists fo :: Partial(items, fo, image[..], data)
      ensures !ok ==> NeedsDisk(data) && NoSector(sm.freeExts, sector)
      ensures ok ==> InlineSum(items) == if |data| <= 2048 then |data| else 0
      ensures Stamped(items, ino, gen)
      ensures WholeSizes(old(sm.freeExts), sector) ==> WholeSizes(sm.freeExts, sector) && WholeItems(items, sector)
      ensures ok && NeedsDisk(data) ==> |data| <= DiskUse(items) < |data| + sector
      ensures !NeedsDisk(data) ==> ok && DiskUse(items) == 0 && sm.freeExts == old(sm.freeExts)
      ensures ok && NeedsDisk(data) && WholeSizes(old(sm.freeExts), sector) ==>
              DiskUse(items) == SectorRound(|data|, sector)
      ensures NeedsDisk(data) && WholeSizes(old(sm.freeExts), sector) ==>
                (ok <==> SectorRound(|data|, sector) <= TotalFree(old(sm.freeExts)))
    {
      hide Put, NewItem, DiskUse, ItemUse, Disks, FreeCnt, TotalFree, WholeSizes, Whole, Exclusive, OnlyFreeWritten,
           Content, Tidy,
           EncodeInline, FirstFit, SectorRound, Opens, InlineSum, WholeItems, Partial, Stamped;
      NoneStamped(ino, gen);
      ghost var fr0, b0 := sm.freeExts, image[..];
      Started(fr0, items, b0, data, sector);
      if |data| <= MAX_INLINE {
        InlineIs(ino, gen, data, image[..]);
        InlineUse(ino, gen, data);
        var it := Item(ExtentKey(ino, 0), EncodeInline(gen, data));
        DiskUseAppend([], it);
        assert [] + [it] == [it];
        items := [it];
        InlineOpens(ino, gen, data, sector);
        InlineStamped(ino, gen, data);
        NoneOwned(fr0, items, image.Length);
        return true;
      }
      var zero := IsAllZero(data);
      if zero {
        HoleIs(ino, gen, data, image[..]);
        NewItemUse(ino, 0, gen, 0, 0, |data|);
        var it := NewItem(ino, 0, gen, 0, 0, |data|);
        DiskUseAppend([], it);
        assert [] + [it] == [it];
        items := [it];
        ChunkItem([], items, data, ino, 0, gen, 0, 0, |data|, sector);
        NewItemStamped([], ino, 0, gen, 0, 0, |data|);
        NoneOwned(fr0, items, image.Length);
        return true;
      }
      RoundIsWhole(|data|, sector);
      var single := WriteSingle(data, gen);
      if single {
        return true;
      }
      ok := WriteFragments(data, gen);
      if ok {
        PartialIs(items, |data|, image[..], data);
      }
      if WholeSizes(fr0, sector) && ok {
        RoundUnique(|data|, DiskUse(items), sector);
      }
    }

    /** freeInodeExtents: every device range the items own goes back to the free list. */
    method FreeInodeExtents()
      modifies sm`freeExts
      ensures forall b: nat :: FreeCnt(sm.freeExts, b) == old(FreeCnt(sm.freeExts, b)) + FreeCnt(Disks(items), b)
      ensures TotalFree(sm.freeExts) == TotalFree(old(sm.freeExts)) + DiskUse(items)
      ensures sector > 0 && WholeSizes(old(sm.freeExts), sector) && WholeItems(items, sector) ==>
              WholeSizes(sm.freeExts, sector)
    {
      hide FreeCnt, ParseExt, Hit, TotalFree, DiskUse, WholeSizes, WholeItems, Whole, Freed;
      ghost var fr0 := sm.freeExts;
      NothingFreed(items);
      NoUse(items);
      var i := 0;
      while i < |items|
        invariant 0 <= i <= |items|
        invariant forall b: nat :: FreeCnt(sm.freeExts, b) == FreeCnt(fr0, b) + FreeCnt(Disks(items[..i]), b)
        invariant TotalFree(sm.freeExts) == TotalFree(fr0) + DiskUse(items[..i])
        invariant sector > 0 && WholeSizes(fr0, sector) && WholeItems(items, sector) ==> WholeSizes(sm.freeExts, sector)
      {
        ghost var fr := sm.freeExts;
        var e := ParseExt(items[i].data);
        if e.Regular? && e.disk != 0 {
          sm.FreeRange(e.disk, e.diskNum);
        }
        FreedStep(fr0, fr, sm.freeExts, items, i);
        FreedUse(fr, sm.freeExts, items, i, sector);
        i := i + 1;
      }
      assert items[..i] == items;
    }

    /** overwriteFile: give back the old extents, write the new ones, refresh the inode. A failure leaves the
        old size and byte count over the items of a part of the new data: the old extents are gone. */
    method Overwrite(data: seq<u8>, gen: nat) returns (ok: bool)
      requires Sound() && |data| < U64_LIMIT && ItemsOnDevice(items, image.Length)
      modifies this`items, this`size, this`nbytes, sm`freeExts, image
      ensures Sound() && Conserved(old(sm.freeExts), old(items), sm.freeExts, items)
      ensures forall b: nat :: b < image.Length && old(FreeCnt(sm.freeExts, b)) + old(FreeCnt(Disks(items), b)) == 0 ==>
                image[b] == old(image[b])
      ensures ok ==>
              size == |data| && nbytes == ClassifiedBytes(data, sector) && Tidy(items, size, image.Length)
                  && Text() == data
      ensures ok ==> Opens(items, data)
      ensures Stamped(items, ino, gen)
      ensures !ok ==> size == old(size) && nbytes == old(nbytes) && exists fo :: Partial(items, fo, image[..], data)
      ensures !ok ==> NeedsDisk(data) && NoSector(sm.freeExts, sector)
      ensures old(Aligned()) ==> Aligned() && (ok ==> nbytes == ProperBytes(items))
      ensures old(Aligned()) && NeedsDisk(data) ==>
                (ok <==> SectorRound(|data|, sector) <= old(TotalFree(sm.freeExts)) + old(DiskUse(items)))
    {
      hide FreeCnt, Disks, Content, Tidy, DiskUse, SectorRound, TotalFree, WholeSizes, Partial, Opens, WholeItems,
           InlineSum, Stamped;
      ghost var fr0, old', b0 := sm.freeExts, items, image[..];
      FreeInodeExtents();
      ghost var fr1 := sm.freeExts;
      items := [];
      AllReleased(fr0, old', fr1, image.Length);
      ok := WriteExtents(data, gen);
      Released(fr0, old', fr1, sm.freeExts, items);
      ReleasedBytes(fr0, old', fr1, b0, image[..]);
      if ok {
        size := |data|;
        if |data| <= MAX_INLINE {
          nbytes := |data|;
        } else {
          var zero := IsAllZero(data);
          nbytes := if zero then 0 else SectorRound(|data|, sector);
        }
      }
    }

    /** Any run of writes and truncations: the content is the byte string the same run makes, and reading it
        back works exactly when the file is empty, or fits the device and its items are not lost. */
    method Replay(ops: seq<FileOp>, gen: nat) returns (ok: bool)
      requires Settled() && forall i :: 0 <= i < |ops| ==> InRange(ops[i])
      modifies this`items, this`size, this`nbytes, sm`freeExts, image
      ensures ok ==> Settled() && Text() == Played(old(Text()), ops)
      ensures ok ==>
              (WholeReadable(EnvOf(image[..]), items, size) <==>
               size == 0 || (size <= image.Length && !Lost(old(items), ops)))
      ensures old(Aligned()) ==> Aligned()
      ensures !ok ==> NoSector(sm.freeExts, sector)
      ensures !ok ==> exists i :: 0 <= i < |ops| && ops[i].Store? && NeedsDisk(ops[i].data)
    {
      hide Content, Tidy, Exclusive, Resized, FreeCnt, Disks, NeedsDisk, ClassifiedBytes, WholeReadable, Tracks, Lost,
           Opens, Partial,
           WholeSizes, WholeItems, DiskUse, TotalFree, ProperBytes, Conserved, SectorRound, TruncItems, NoSector;
      ghost var start, first := Text(), items;
      var i := 0;
      PlayedNone(start, ops);
      TracksStart(items);
      assert ops[..0] == [];
      while i < |ops|
        invariant 0 <= i <= |ops| && Settled()
        invariant Text() == Played(start, ops[..i])
        invariant Tracks(items, first, ops[..i])
        invariant old(Aligned()) ==> Aligned()
      {
        PlayedMore(start, ops, i);
        assert ops[..i + 1] == ops[..i] + [ops[i]];
        match ops[i] {
          case Store(data) =>
            ItemsLie(items, size, image.Length);
            ok := Overwrite(data, gen);
            if !ok {
              return;
            }
            TracksStore(items, first, ops[..i], data);
          case Cut(n) =>
            TidyApart(items, size, image.Length, 0);
            TracksCut(items, size, n, first, ops[..i], image[..]);
            Truncate(n);
        }
        i := i + 1;
      }
      assert ops[..i] == ops;
      TrackedReadable(items, size, first, ops, image[..]);
      ok := true;
    }

    /** A run followed by readFileData: it delivers the byte string of the run or fails as Replay says. */
    method ReadBack(ops: seq<FileOp>, gen: nat) returns (ok: bool, r: Outcome<array<u8>>)
      requires Settled() && forall i :: 0 <= i < |ops| ==> InRange(ops[i])
      modifies this`items, this`size, this`nbytes, sm`freeExts, image
      ensures ok ==> (r.Good? <==> size == 0 || (size <= image.Length && !Lost(old(items), ops)))
      ensures ok && r.Good? ==> r.value[..] == Played(old(Text()), ops) && size == |Played(old(Text()), ops)|
      ensures !ok ==> NoSector(sm.freeExts, sector)
      ensures !ok ==> exists i :: 0 <= i < |ops| && ops[i].Store? && NeedsDisk(ops[i].data)
    {
      hide Content, Tidy, Lost, WholeReadable, Played;
      ok := Replay(ops, gen);
      r := ReadFileData(EnvOf(image[..]), items, size);
    }

    /** truncateInode, from the inode on. */
    method Truncate(n: nat)
      requires InOrder(items) && n < U64_LIMIT
      modifies this`items, this`size, this`nbytes
      ensures size == n && items == TruncItems(old(items), old(size), n)
      ensures nbytes == if n < old(size) then DiskUse(items) % U64_LIMIT else old(nbytes)
      ensures old(Settled()) ==> Settled() && Text() == Resized(old(Text()), n)
      ensures old(Settled()) && n < old(size) ==>
                (nbytes == ProperBytes(items) <==>
                 forall i :: 0 <= i < |old(items)| && old(items)[i].k.offset as nat < n ==>
                     InlineLen(old(items)[i]) == 0)
      ensures old(Settled()) && old(Aligned()) ==> Aligned()
    {
      hide ShrinkItem, Shrunk, IndexOf, DiskUse, ItemUse, Content, Tidy, Disks, FreeCnt, Resized, ProperBytes,
           InlineLen, WholeItems, WholeSizes;
      if Settled() {
        TruncateContent(items, size, n, image[..]);
        TruncatedSound(sm.freeExts, items, size, n, image[..]);
        OwnedOnce(sm.freeExts, items, image.Length);
        if n < size {
          RescanRightIff(items, size, n, image[..]);
        }
        if Aligned() {
          ShrunkWhole(items, size, n, image[..], sector);
        }
      }
      if n >= size {
        size := n;
        return;
      }
      ShrinkAll(n);
      size := n;
      var used := SumUse();
      nbytes := used;
    }

    /** The loop over the items. */
    method ShrinkAll(n: nat)
      requires InOrder(items)
      modifies this`items
      ensures items == Shrunk(old(items), n)
    {
      hide ShrinkItem, Shrunk, IndexOf;
      var snap := items;
      var i := 0;
      NothingShrunk(snap, n);
      while i < |snap|
        invariant 0 <= i <= |snap|
        invariant items == Shrunk(snap[..i], n) + snap[i..]
      {
        ShrunkStep(snap, i, n, items);
        ShrinkOne(snap[i], n);
        i := i + 1;
      }
      assert snap[..i] == snap && snap[i..] == [];
    }

    /** One step of the truncation: the item is kept, deleted or updated by its key. */
    method ShrinkOne(m: Item, n: nat)
      requires IndexOf(items, m.k) < |items|
      modifies this`items
      ensures var x, was := IndexOf(old(items), m.k), old(items);
              (items == was && ShrinkItem(m, n) == [m]) || items == was[..x] + ShrinkItem(m, n) + was[x + 1..]
    {
      hide SpanOf, Trimmed;
      var fo := m.k.offset as nat;
      var x := IndexOf(items, m.k);
      if SpanOf(m.data).Some? && (fo + SpanOf(m.data).value) % U64_LIMIT > n {
        if fo >= n {
          items := items[..x] + items[x + 1..];
        } else {
          var it := Item(m.k, Trimmed(m.data, n - fo));
          SetAt(items, x, it);
          items := items[x := it];
        }
      }
    }

    /** The rescan that recomputes the byte count, in 64-bit arithmetic. */
    method SumUse() returns (used: nat)
      ensures used == DiskUse(items) % U64_LIMIT
    {
      hide ParseExt, DiskUse;
      used := 0;
      var i := 0;
      NoUse(items);
      while i < |items|
        invariant 0 <= i <= |items|
        invariant used == DiskUse(items[..i]) % U64_LIMIT
      {
        UseStep(items, i);
        var e := ParseExt(items[i].data);
        if e.Regular? && e.disk != 0 {
          used := (used + e.diskNum) % U64_LIMIT;
        }
        i := i + 1;
      }
      assert items[..i] == items;
    }
  }

  lemma {:induction false} SetAt(s: seq<Item>, x: nat, it: Item)
    requires x < |s|
    ensures s[x := it] == s[..x] + [it] + s[x + 1..]
  {
  }

  lemma {:induction false} NoUse(items: seq<Item>)
    ensures DiskUse(items[..0]) == 0
  {
  }

  lemma {:induction false} UseStep(items: seq<Item>, i: nat)
    requires i < |items|
    ensures DiskUse(items[..i + 1]) % U64_LIMIT == (DiskUse(items[..i]) % U64_LIMIT + ItemUse(items[i])) % U64_LIMIT
    ensures ItemUse(items[i]) == 0 ==> DiskUse(items[..i + 1]) == DiskUse(items[..i])
  {
    hide DiskUse, ItemUse;
    assert items[..i + 1] == items[..i] + [items[i]];
    DiskUseAppend(items[..i], items[i]);
    Division.ModShift(DiskUse(items[..i]), ItemUse(items[i]), U64_LIMIT);
  }

  /** The extents of a tidy file lie on the device. */
  lemma {:induction false} ItemsLie(items: seq<Item>, size: nat, deviceSize: nat)
    requires Tidy(items, size, deviceSize)
    ensures ItemsOnDevice(items, deviceSize)
  {
    hide ParseExt, FreeCnt, Disks;
    forall b: nat | FreeCnt(Disks(items), b) > 0
      ensures 0 < b < deviceSize
    {
      DisksWitness(items, b);
      var i :| 0 <= i < |items| && FreeCnt(ItemDisk(items[i]), b) > 0;
      assert Plain(items[i], deviceSize);
      OwnedByte(items[i], deviceSize, b);
    }
  }

  lemma {:induction false} OwnedByte(it: Item, deviceSize: nat, b: nat)
    requires Plain(it, deviceSize) && FreeCnt(ItemDisk(it), b) > 0
    ensures 0 < b < deviceSize
  {
    hide ParseExt;
    var e := ParseExt(it.data);
    if e.Regular? && e.disk != 0 {
      CntOne(Extent(e.disk, e.diskNum), b);
    }
  }

  /** A truncation only lets go of device bytes. */
  lemma {:induction false} TruncatedSound(fr: seq<Extent>, items: seq<Item>, size: nat, n: nat, image: seq<u8>)
    requires Exclusive(fr, items, |image|) && Tidy(items, size, |image|) && size < U64_LIMIT
    ensures Exclusive(fr, TruncItems(items, size, n), |image|)
  {
    hide FreeCnt, Disks, Tidy, Shrunk;
    forall b: nat
      ensures FreeCnt(fr, b) + FreeCnt(Disks(TruncItems(items, size, n)), b) <= 1
              && (FreeCnt(fr, b) > 0 ==> 0 < b < |image|)
    {
      assert FreeCnt(fr, b) + FreeCnt(Disks(items), b) <= 1;
      ShrunkDisks(items, size, n, image, b);
    }
  }

  lemma {:induction false} NothingShrunk(items: seq<Item>, n: nat)
    ensures items == Shrunk(items[..0], n) + items[0..]
  {
  }

  /** Truncation moves no item. */
  lemma {:induction false} ShrunkBelow(items: seq<Item>, n: nat, hi: u64)
    requires forall i :: 0 <= i < |items| ==> items[i].k.offset < hi
    ensures forall j :: 0 <= j < |Shrunk(items, n)| ==> Shrunk(items, n)[j].k.offset < hi
  {
    hide SpanOf, Trimmed;
    if items == [] {
      assert Shrunk(items, n) == [];
    } else {
      ShrunkBelow(items[..|items| - 1], n, hi);
    }
  }

  /** The item being truncated is found right behind the ones already done. */
  lemma {:induction false} ShrunkStep(snap: seq<Item>, i: nat, n: nat, all: seq<Item>)
    requires InOrder(snap) && i < |snap| && all == Shrunk(snap[..i], n) + snap[i..]
    ensures var x := IndexOf(all, snap[i].k);
            && x < |all| && all[..x] == Shrunk(snap[..i], n) && all[x + 1..] == snap[i + 1..]
    ensures Shrunk(snap[..i + 1], n) == Shrunk(snap[..i], n) + ShrinkItem(snap[i], n)
    ensures all == Shrunk(snap[..i], n) + [snap[i]] + snap[i + 1..]
  {
    hide ShrinkItem, Shrunk, IndexOf;
    ShrunkMore(snap, i, n);
    var r := Shrunk(snap[..i], n);
    assert forall j :: 0 <= j < i ==> snap[..i][j].k.offset < snap[i].k.offset;
    ShrunkBelow(snap[..i], n, snap[i].k.offset);
    DropOne(snap, i);
    FoundBehind(r, snap[i], snap[i + 1..], all);
  }

  lemma {:induction false} DropOne(s: seq<Item>, i: nat)
    requires i < |s|
    ensures s[i..] == [s[i]] + s[i + 1..]
  {
  }

  lemma {:induction false} ShrunkMore(snap: seq<Item>, i: nat, n: nat)
    requires i < |snap|
    ensures Shrunk(snap[..i + 1], n) == Shrunk(snap[..i], n) + ShrinkItem(snap[i], n)
  {
    hide ShrinkItem;
    assert snap[..i + 1][..i] == snap[..i];
  }

  lemma {:induction false} FoundBehind(r: seq<Item>, m: Item, rest: seq<Item>, all: seq<Item>)
    requires all == r + ([m] + rest) && forall j :: 0 <= j < |r| ==> r[j].k.offset < m.k.offset
    ensures var x := IndexOf(all, m.k); x < |all| && all[..x] == r && all[x + 1..] == rest
    ensures all == r + [m] + rest
  {
    hide IndexOf;
    var x := IndexOf(all, m.k);
    assert all[|r|] == m;
    assert forall j :: 0 <= j < |r| ==> all[j] == r[j];
    assert x == |r|;
  }

  // ---- the books of an overwrite -------------------------------------------------------------------------

  /** The extents the items name lie on the device, past its first byte. */
  ghost predicate ItemsOnDevice(items: seq<Item>, deviceSize: nat) {
    forall b: nat :: FreeCnt(Disks(items), b) > 0 ==> 0 < b < deviceSize
  }

  lemma {:induction false} NothingFreed(items: seq<Item>)
    ensures forall b: nat :: FreeCnt(Disks(items[..0]), b) == 0
  {
    hide FreeCnt, Disks;
    assert items[..0] == [];
    forall b: nat
      ensures FreeCnt(Disks([]), b) == 0
    {
      NoDisks(b);
    }
  }

  lemma {:induction false} FreedStep(fr0: seq<Extent>, fr: seq<Extent>, fr': seq<Extent>, items: seq<Item>, i: nat)
    requires i < |items|
    requires forall b: nat :: FreeCnt(fr, b) == FreeCnt(fr0, b) + FreeCnt(Disks(items[..i]), b)
    requires var e := ParseExt(items[i].data);
             if e.Regular? && e.disk != 0 then forall b: nat ::
                 FreeCnt(fr', b) == FreeCnt(fr, b) + Hit(e.disk, e.diskNum, b)
             else fr' == fr
    ensures forall b: nat :: FreeCnt(fr', b) == FreeCnt(fr0, b) + FreeCnt(Disks(items[..i + 1]), b)
  {
    hide FreeCnt, ParseExt, Disks, Hit;
    forall b: nat
      ensures FreeCnt(fr', b) == FreeCnt(fr0, b) + FreeCnt(Disks(items[..i + 1]), b)
    {
      assert items[..i + 1] == items[..i] + [items[i]];
      DisksAppend(items[..i], items[i], b);
      var e := ParseExt(items[i].data);
      if e.Regular? && e.disk != 0 {
        CntOne(Extent(e.disk, e.diskNum), b);
      } else {
        CntNone(b);
      }
    }
  }

  lemma {:induction false} CntNone(b: nat)
    ensures FreeCnt([], b) == 0
  {
  }

  lemma {:induction false} AllReleased(fr0: seq<Extent>, items: seq<Item>, fr1: seq<Extent>, deviceSize: nat)
    requires Exclusive(fr0, items, deviceSize) && ItemsOnDevice(items, deviceSize)
    requires forall b: nat :: FreeCnt(fr1, b) == FreeCnt(fr0, b) + FreeCnt(Disks(items), b)
    ensures Exclusive(fr1, [], deviceSize)
  {
    hide FreeCnt, Disks;
    forall b: nat
      ensures FreeCnt(fr1, b) + FreeCnt(Disks([]), b) <= 1 && (FreeCnt(fr1, b) > 0 ==> 0 < b < deviceSize)
    {
      NoDisks(b);
    }
  }

  lemma {:induction false} Released(fr0: seq<Extent>, items0: seq<Item>, fr1: seq<Extent>, fr2: seq<Extent>,
                                    items: seq<Item>)
    requires forall b: nat :: FreeCnt(fr1, b) == FreeCnt(fr0, b) + FreeCnt(Disks(items0), b)
    requires Conserved(fr1, [], fr2, items)
    ensures Conserved(fr0, items0, fr2, items)
  {
    hide FreeCnt, Disks;
    forall b: nat
      ensures FreeCnt(fr2, b) + FreeCnt(Disks(items), b) == FreeCnt(fr0, b) + FreeCnt(Disks(items0), b)
    {
      NoDisks(b);
    }
  }

  lemma {:induction false} ReleasedBytes(fr0: seq<Extent>, items0: seq<Item>, fr1: seq<Extent>, image: seq<u8>,
                                         image': seq<u8>)
    requires forall b: nat :: FreeCnt(fr1, b) == FreeCnt(fr0, b) + FreeCnt(Disks(items0), b)
    requires OnlyFreeWritten(fr1, image, image')
    ensures forall b: nat :: b < |image| && FreeCnt(fr0, b) + FreeCnt(Disks(items0), b) == 0 ==> image'[b] == image[b]
  {
    hide FreeCnt, Disks;
  }

  lemma {:induction false} RoundIs(len: nat, sector: nat)
    requires sector > 0
    ensures SectorRound(len, sector) == (len + sector - 1) / sector * sector
  {
  }

  /** Before anything is written. */
  lemma {:induction false} NoneStamped(ino: u64, gen: nat)
    ensures Stamped([], ino, gen)
  {
  }

  lemma {:induction false} Started(fr: seq<Extent>, items: seq<Item>, image: seq<u8>, data: seq<u8>, sector: nat)
    requires items == [] && |image| <= MAX_SIZE && sector > 0
    ensures Conserved(fr, [], fr, items) && OnlyFreeWritten(fr, image, image) && Partial(items, 0, image, data)
    ensures DiskUse(items) == 0 && Whole(0, sector) && InlineSum(items) == 0 && WholeItems(items, sector)
  {
    PartialNone(image, data);
    WholeTimes(0, sector);
  }

  lemma {:induction false} NoneOwned(fr: seq<Extent>, items: seq<Item>, deviceSize: nat)
    requires Exclusive(fr, [], deviceSize) && forall b: nat :: FreeCnt(Disks(items), b) == 0
    ensures Exclusive(fr, items, deviceSize) && Conserved(fr, [], fr, items)
  {
    hide FreeCnt, Disks;
    forall b: nat
      ensures FreeCnt(Disks([]), b) == 0
    {
      NoDisks(b);
    }
  }

  /** A byte granted now was free at the start. */
  lemma {:induction false} FreeBefore(fr0: seq<Extent>, fr: seq<Extent>, items: seq<Item>, disk: nat, n: nat)
    requires Conserved(fr0, [], fr, items) && forall b: nat :: disk <= b < disk + n ==> FreeCnt(fr, b) > 0
    ensures forall b: nat :: disk <= b < disk + n ==> FreeCnt(fr0, b) > 0
  {
    hide FreeCnt, Disks;
    forall b: nat | disk <= b < disk + n
      ensures FreeCnt(fr0, b) > 0
    {
      NoDisks(b);
    }
  }

  /** A granted range moved from the free list to an item keeps the books. */
  lemma {:induction false} ChunkDone(fr0: seq<Extent>, fr: seq<Extent>, items: seq<Item>, fr': seq<Extent>,
                                     items': seq<Item>, deviceSize: nat,
                  disk: nat, n: nat)
    requires Conserved(fr0, [], fr, items) && Exclusive(fr, items, deviceSize)
    requires forall b: nat :: FreeCnt(fr, b) == FreeCnt(fr', b) + Hit(disk, n, b)
    requires forall b: nat :: FreeCnt(Disks(items'), b) == FreeCnt(Disks(items), b) + Hit(disk, n, b)
    ensures Conserved(fr0, [], fr', items') && Exclusive(fr', items', deviceSize)
  {
    hide FreeCnt, Disks, Hit;
  }

  // ---- the items of a write ---------------------------------------------------------------------------------

  /** One more extent item: it opens the file or leaves the first item alone, and takes whole sectors. */
  lemma {:induction false} ChunkItem(items: seq<Item>, items': seq<Item>, data: seq<u8>, ino: u64, fo: nat, gen: nat,
                                     disk: nat, diskNum: nat,
                                     num: nat, sector: nat)
    requires fo + num < U64_LIMIT && disk < U64_LIMIT && diskNum < U64_LIMIT && sector > 0 && num > 0 && data != []
    requires items' == items + [NewItem(ino, fo, gen, disk, diskNum, num)]
    requires if fo > 0 then Opens(items, data) else items == []
    ensures Opens(items', data) && InlineSum(items') == InlineSum(items)
    ensures WholeItems(items, sector) && (disk != 0 ==> Whole(diskNum, sector)) ==> WholeItems(items', sector)
  {
    hide NewItem, InlineSum, Whole, ItemUse;
    var it := NewItem(ino, fo, gen, disk, diskNum, num);
    NewItemUse(ino, fo, gen, disk, diskNum, num);
    NewItemInline(ino, fo, gen, disk, diskNum, num);
    InlineAppend(items, it);
    WholeZero(sector);
    KeyOf(ino, fo, gen, disk, diskNum, num);
    NewItemEnd(ino, fo, gen, disk, diskNum, num);
  }

  lemma {:induction false} WholeZero(sector: nat)
    requires sector > 0
    ensures Whole(0, sector)
  {
    WholeTimes(0, sector);
  }

  lemma {:induction false} NewItemEnd(ino: u64, fo: nat, gen: nat, disk: nat, diskNum: nat, num: nat)
    requires fo + num < U64_LIMIT && disk < U64_LIMIT && diskNum < U64_LIMIT
    ensures ItemEnd(NewItem(ino, fo, gen, disk, diskNum, num)) == fo + num
  {
    hide ParseExt, EncodeRegular;
    RegularRoundTrip(gen, disk, diskNum, num);
  }

  lemma {:induction false} InlineOpens(ino: u64, gen: nat, data: seq<u8>, sector: nat)
    requires |data| < U64_LIMIT && sector > 0
    ensures var items := [Item(ExtentKey(ino, 0), EncodeInline(gen, data))];
            Opens(items, data) && InlineSum(items) == |data| && WholeItems(items, sector)
  {
    hide ParseExt, EncodeInline, InlineLen, Whole;
    var it := Item(ExtentKey(ino, 0), EncodeInline(gen, data));
    InlineRoundTrip(gen, data);
    InlineItemLen(ino, gen, data);
    InlineAppend([], it);
    assert [] + [it] == [it];
    InlineUse(ino, gen, data);
    WholeZero(sector);
  }

  lemma {:induction false} PartialIs(items: seq<Item>, fo: nat, image: seq<u8>, data: seq<u8>)
    requires Partial(items, fo, image, data) && fo == |data|
    ensures Tidy(items, |data|, |image|) && Content(EnvOf(image), items, |data|) == data
  {
    assert data[..fo] == data;
  }

  lemma {:induction false} FirstFitWhole(fr: seq<Extent>, need: nat, sector: nat)
    requires FirstFit(fr, need).Granted? && sector > 0 && Whole(need, sector)
    ensures WholeSizes(fr, sector) ==> WholeSizes(FirstFit(fr, need).rest, sector)
  {
    hide Whole, WholeSizes;
    var j := FirstFitAt(fr, need, 0);
    if WholeSizes(fr, sector) {
      TakeFrontWhole(fr, j, need, sector);
    }
  }

  lemma {:induction false} FreedUse(fr: seq<Extent>, fr': seq<Extent>, items: seq<Item>, i: nat, sector: nat)
    requires i < |items|
    requires var e := ParseExt(items[i].data);
             fr' == if e.Regular? && e.disk != 0 then Freed(fr, e.disk, e.diskNum) else fr
    ensures TotalFree(fr') + DiskUse(items[..i]) == TotalFree(fr) + DiskUse(items[..i + 1])
    ensures sector > 0 && WholeSizes(fr, sector) && WholeItems(items, sector) ==> WholeSizes(fr', sector)
  {
    hide ParseExt, TotalFree, DiskUse, WholeSizes, Whole, Freed;
    assert items[..i + 1] == items[..i] + [items[i]];
    DiskUseAppend(items[..i], items[i]);
    var e := ParseExt(items[i].data);
    if e.Regular? && e.disk != 0 {
      FreedBooks(fr, e.disk, e.diskNum, sector);
    }
  }

  lemma {:induction false} OwnedOnce(fr: seq<Extent>, items: seq<Item>, deviceSize: nat)
    requires Exclusive(fr, items, deviceSize)
    ensures forall b: nat :: FreeCnt(Disks(items), b) <= 1
  {
    hide FreeCnt, Disks;
  }

  /** Truncation keeps every extent that it keeps at its size. */
  lemma {:induction false} ShrunkWhole(items: seq<Item>, size: nat, n: nat, image: seq<u8>, sector: nat)
    requires Tidy(items, size, |image|) && size < U64_LIMIT && sector > 0 && WholeItems(items, sector)
    ensures WholeItems(TruncItems(items, size, n), sector)
  {
    hide Plain, ItemEnd, ShrinkItem, Whole, ItemUse, PlainBytes, ItemDisk;
    if n < size {
      ShrunkWholeItems(items, size, n, image, sector);
    }
  }

  lemma {:induction false} ShrunkWholeItems(items: seq<Item>, size: nat, n: nat, image: seq<u8>, sector: nat)
    requires Tidy(items, size, |image|) && size < U64_LIMIT && sector > 0 && WholeItems(items, sector)
    ensures WholeItems(Shrunk(items, n), sector)
  {
    hide Plain, ItemEnd, ShrinkItem, Whole, ItemUse, PlainBytes, ItemDisk;
    if items != [] {
      var p, it := items[..|items| - 1], items[|items| - 1];
      TidyPrefix(items, size, |image|, |items| - 1);
      assert forall i :: 0 <= i < |p| ==> p[i] == items[i];
      ShrunkWholeItems(p, size, n, image, sector);
      assert Plain(it, |image|) && ItemEnd(it) <= size;
      ShrinkPlain(it, n, image);
      if ShrinkItem(it, n) != [] {
        OneTotal(it);
        OneTotal(ShrinkItem(it, n)[0]);
      }
    }
  }
}
