/** Runs of writes and truncations on the extent items of one file (write.go, truncate.go), and when the file
    can still be read back afterwards. */
module FileRuns {
  import opened Keys
  import opened Bytes
  import opened Trees
  import opened FileExtents
  import opened FileRead
  import opened FileResize
  import opened FileState

  // ---- truncation -------------------------------------------------------------------------------------

  function TruncItems(items: seq<Item>, size: nat, n: nat): seq<Item> {
    if n < size then Shrunk(items, n) else items
  }

  /** One truncation: the file stays tidy and its content is the old content, cut or extended with zeros. */
  lemma {:induction false} TruncateContent(items: seq<Item>, size: nat, n: nat, image: seq<u8>)
    requires Tidy(items, size, |image|) && size < U64_LIMIT && n < U64_LIMIT
    ensures Tidy(TruncItems(items, size, n), n, |image|)
    ensures Content(EnvOf(image), TruncItems(items, size, n), n) == Resized(Content(EnvOf(image), items, size), n)
  {
    hide Plain, ItemEnd, Content, Shrunk, EffectOf;
    if n < size {
      ShrunkTidy(items, size, n, image, U64_LIMIT);
      ContentShrink(items, size, n, image);
    } else {
      TidyWiden(items, size, n, |image|);
      ContentGrow(items, size, n, image);
    }
  }

  /** A run of truncations. */
  function RunItems(items: seq<Item>, size: nat, ns: seq<nat>): seq<Item>
    decreases |ns|
  {
    if ns == [] then items else RunItems(TruncItems(items, size, ns[0]), ns[0], ns[1..])
  }

  function RunSize(size: nat, ns: seq<nat>): nat {
    if ns == [] then size else ns[|ns| - 1]
  }

  /** The same run on plain byte strings. */
  function RunBytes(b: seq<u8>, ns: seq<nat>): seq<u8>
    decreases |ns|
  {
    if ns == [] then b else RunBytes(Resized(b, ns[0]), ns[1..])
  }

  /** Byte x of the data outlives the cuts. */
  predicate Outlives(x: nat, data: seq<u8>, cuts: seq<nat>) {
    x < |data| && forall j :: 0 <= j < |cuts| ==> x < cuts[j]
  }

  /** Cut and grown again and again, a byte string has its last length, its bytes below every cut and zeros. */
  lemma {:induction false} RunBytesIs(b: seq<u8>, ns: seq<nat>, x: nat)
    requires x < |RunBytes(b, ns)|
    ensures |RunBytes(b, ns)| == if ns == [] then |b| else ns[|ns| - 1]
    ensures RunBytes(b, ns)[x] == if Outlives(x, b, ns) then b[x] else 0
    decreases |ns|
  {
    if ns != [] {
      RunBytesIs(Resized(b, ns[0]), ns[1..], x);
      assert Outlives(x, b, ns) <==> x < ns[0] && Outlives(x, b, ns[1..]);
    }
  }

  /** Any run of truncations keeps the file tidy and does to its content what it does to a byte string. */
  lemma {:induction false} TruncateRun(items: seq<Item>, size: nat, ns: seq<nat>, image: seq<u8>)
    requires Tidy(items, size, |image|) && size < U64_LIMIT && forall i :: 0 <= i < |ns| ==> ns[i] < U64_LIMIT
    ensures Tidy(RunItems(items, size, ns), RunSize(size, ns), |image|)
    ensures Content(EnvOf(image), RunItems(items, size, ns), RunSize(size, ns)) ==
            RunBytes(Content(EnvOf(image), items, size), ns)
    decreases |ns|
  {
    hide Content, TruncItems, Resized, Tidy;
    if ns != [] {
      TruncateContent(items, size, ns[0], image);
      TruncateRun(TruncItems(items, size, ns[0]), ns[0], ns[1..], image);
    }
  }

  // ---- when the items vanish -----------------------------------------------------------------------------

  /** A truncation to n drops an item that covers [o, e): it starts at or past n and ends past it. */
  predicate Drops(o: nat, e: nat, n: nat) {
    n <= o && n < e
  }

  /** The first item decides: when it is dropped all are, and otherwise it stays where it is. */
  lemma {:induction false} FirstShrunk(items: seq<Item>, size: nat, n: nat, image: seq<u8>)
    requires Tidy(items, size, |image|) && items != [] && size < U64_LIMIT
    ensures var o, e, r := items[0].k.offset as nat, ItemEnd(items[0]), Shrunk(items, n);
            && (r == [] <==> Drops(o, e, n))
            && (r != [] ==> r[0].k.offset as nat == o && ItemEnd(r[0]) == Min(e, n))
  {
    hide ShrinkItem, PlainBytes, ItemDisk, Plain, ItemEnd;
    var p, it := items[..|items| - 1], items[|items| - 1];
    assert Plain(it, |image|) && ItemEnd(it) <= size;
    ShrinkPlain(it, n, image);
    EndAfterStart(it);
    if |items| == 1 {
      assert p == [];
      assert Shrunk(items, n) == [] + ShrinkItem(it, n);
    } else {
      assert items[0] == p[0];
      TidyPrefix(items, size, |image|, |items| - 1);
      FirstShrunk(p, size, n, image);
      assert items[0].k.offset < it.k.offset;
    }
  }

  lemma {:induction false} FirstTruncated(items: seq<Item>, size: nat, n: nat, image: seq<u8>)
    requires Tidy(items, size, |image|) && items != [] && size < U64_LIMIT
    ensures var o, e, r := items[0].k.offset as nat, ItemEnd(items[0]), TruncItems(items, size, n);
            && (r == [] <==> Drops(o, e, n))
            && (r != [] ==> r[0].k.offset as nat == o && ItemEnd(r[0]) == Min(e, n))
  {
    hide Plain, ItemEnd, Shrunk;
    if n < size {
      FirstShrunk(items, size, n, image);
    } else {
      assert ItemEnd(items[0]) <= size;
    }
  }

  /** The item covering [o, e') is dropped by the same truncations as one covering [o, e). */
  predicate SameDrops(o: nat, e: nat, e': nat) {
    o <= e && o <= e' && (o < e <==> o < e')
  }

  lemma {:induction false} DropsKept(o: nat, e: nat, e': nat, n: nat)
    requires SameDrops(o, e, e')
    ensures Drops(o, e', n) <==> Drops(o, e, n)
    ensures !Drops(o, e, n) ==> SameDrops(o, e, Min(e', n))
  {
  }

  lemma {:induction false} NoneStaysNone(size: nat, ns: seq<nat>)
    ensures RunItems([], size, ns) == []
    decreases |ns|
  {
    if ns != [] {
      assert Shrunk([], ns[0]) == [];
      NoneStaysNone(ns[0], ns[1..]);
    }
  }

  /** Over a run of truncations the items vanish exactly when one of them drops the first item. */
  lemma {:induction false} RunEmptyIff(items: seq<Item>, size: nat, ns: seq<nat>, image: seq<u8>, e: nat)
    requires Tidy(items, size, |image|) && items != [] && size < U64_LIMIT
    requires SameDrops(items[0].k.offset as nat, e, ItemEnd(items[0]))
    requires forall i :: 0 <= i < |ns| ==> ns[i] < U64_LIMIT
    ensures RunItems(items, size, ns) == [] <==> exists i :: 0 <= i < |ns| && Drops(items[0].k.offset as nat, e, ns[i])
    decreases |ns|
  {
    hide Tidy, Shrunk, ItemEnd, TruncItems, Drops, SameDrops;
    if ns != [] {
      var o, n := items[0].k.offset as nat, ns[0];
      TruncateContent(items, size, n, image);
      FirstTruncated(items, size, n, image);
      DropsKept(o, e, ItemEnd(items[0]), n);
      if Drops(o, e, n) {
        NoneStaysNone(n, ns[1..]);
      } else {
        RunEmptyIff(TruncItems(items, size, n), n, ns[1..], image, e);
        if i :| 0 <= i < |ns| && Drops(o, e, ns[i]) {
          assert ns[1..][i - 1] == ns[i];
        }
        if i :| 0 <= i < |ns[1..]| && Drops(o, e, ns[1..][i]) {
          assert ns[i + 1] == ns[1..][i];
        }
      }
    }
  }

  /** A file reads back after any run of truncations exactly when it ends empty, or it had items, none of the
      truncations dropped the first one, and it is not larger than the device. */
  lemma {:induction false} ReadableAfterRunIff(items: seq<Item>, size: nat, ns: seq<nat>, image: seq<u8>)
    requires Tidy(items, size, |image|) && size < U64_LIMIT
    requires forall i :: 0 <= i < |ns| ==> ns[i] < U64_LIMIT
    ensures var size' := RunSize(size, ns);
            WholeReadable(EnvOf(image), RunItems(items, size, ns), size') <==>
              || size' == 0
              || (&& size' <= |image| && items != []
                  && forall i :: 0 <= i < |ns| ==> !Drops(items[0].k.offset as nat, ItemEnd(items[0]), ns[i]))
  {
    hide Tidy, WholeReadable, RunItems, Drops, ItemEnd;
    TruncateRun(items, size, ns, image);
    if items == [] {
      NoneStaysNone(size, ns);
    } else {
      EndAfterStart(items[0]);
      RunEmptyIff(items, size, ns, image, ItemEnd(items[0]));
    }
    TidyReadable(RunItems(items, size, ns), RunSize(size, ns), image);
  }

  /** Cutting a ten-byte inline file to zero and growing it again leaves a file that cannot be read. */
  lemma {:induction false} CutAndGrowUnreadable(ino: u64, gen: nat, data: seq<u8>, image: seq<u8>)
    requires |data| == 10 && 10 <= |image| <= MAX_SIZE
    ensures var items := [Item(ExtentKey(ino, 0), EncodeInline(gen, data))];
            && WholeReadable(EnvOf(image), items, 10)
            && !WholeReadable(EnvOf(image), RunItems(items, 10, [0, 10]), 10)
  {
    hide WholeReadable, RunItems, EncodeInline, Tidy;
    var it := Item(ExtentKey(ino, 0), EncodeInline(gen, data));
    InlineIs(ino, gen, data, image);
    InlineRoundTrip(gen, data);
    TidyReadable([it], 10, image);
    var ns := [0, 10];
    assert Drops(it.k.offset as nat, ItemEnd(it), ns[0]);
    ReadableAfterRunIff([it], 10, ns, image);
  }

  /** An empty file keeps its one empty item through every truncation. */
  lemma {:induction false} EmptyStaysReadable(ino: u64, gen: nat, ns: seq<nat>, image: seq<u8>)
    requires |image| <= MAX_SIZE && forall i :: 0 <= i < |ns| ==> ns[i] <= |image|
    ensures WholeReadable(EnvOf(image), RunItems([Item(ExtentKey(ino, 0), EncodeInline(gen, []))], 0, ns),
                          RunSize(0, ns))
  {
    hide WholeReadable, RunItems, EncodeInline, Tidy;
    InlineIs(ino, gen, [], image);
    InlineRoundTrip(gen, []);
    ReadableAfterRunIff([Item(ExtentKey(ino, 0), EncodeInline(gen, []))], 0, ns, image);
  }

  // ---- writes and truncations --------------------------------------------------------------------------

  datatype FileOp = Store(data: seq<u8>) | Cut(n: nat)

  predicate InRange(op: FileOp) {
    match op
    case Store(data) => |data| < U64_LIMIT
    case Cut(n) => n < U64_LIMIT
  }

  /** The run on a plain byte string. */
  ghost function Played(b: seq<u8>, ops: seq<FileOp>): seq<u8> {
    if ops == [] then b
    else
      var p := Played(b, ops[..|ops| - 1]);
      match ops[|ops| - 1]
      case Store(data) => data
      case Cut(n) => Resized(p, n)
  }

  lemma {:induction false} PlayedNone(b: seq<u8>, ops: seq<FileOp>)
    ensures Played(b, ops[..0]) == b
  {
  }

  lemma {:induction false} PlayedMore(b: seq<u8>, ops: seq<FileOp>, i: nat)
    requires i < |ops|
    ensures Played(b, ops[..i + 1]) ==
            match ops[i] { case Store(data) => data case Cut(n) => Resized(Played(b, ops[..i]), n) }
  {
    hide Resized;
    assert ops[..i + 1][..i] == ops[..i];
  }

  /** After a run the file has the length of its last cut, the bytes of its last write, or of the start, below
      every cut since, and zeros. */
  lemma {:induction false} PlayedIs(b: seq<u8>, ops: seq<FileOp>, data: seq<u8>, cuts: seq<nat>, x: nat)
    requires |cuts| <= |ops| && forall i :: 0 <= i < |cuts| ==> ops[|ops| - |cuts| + i] == Cut(cuts[i])
    requires if |cuts| == |ops| then data == b else ops[|ops| - |cuts| - 1] == Store(data)
    ensures |Played(b, ops)| == if cuts == [] then |data| else cuts[|cuts| - 1]
    ensures x < |Played(b, ops)| ==> Played(b, ops)[x] == if Outlives(x, data, cuts) then data[x] else 0
  {
    if cuts != [] {
      var p, c, n := ops[..|ops| - 1], cuts[..|cuts| - 1], cuts[|cuts| - 1];
      assert ops[|ops| - |cuts| + (|cuts| - 1)] == Cut(n);
      forall i | 0 <= i < |c| ensures p[|p| - |c| + i] == Cut(c[i]) {
        assert ops[|ops| - |cuts| + i] == Cut(cuts[i]);
      }
      PlayedIs(b, p, data, c, x);
      assert Outlives(x, data, cuts) <==> x < n && Outlives(x, data, c);
    }
  }

  /** Where the first item of the file lies after the last write of the run; without a write, where the first
      item lay at the start. */
  function Head(items: seq<Item>, ops: seq<FileOp>): (nat, nat) {
    if ops == [] then if items == [] then (0, 0) else (items[0].k.offset as nat, ItemEnd(items[0]))
    else
      match ops[|ops| - 1]
      case Store(data) => (0, |data|)
      case Cut(_) => Head(items, ops[..|ops| - 1])
  }

  /** The file has no items after the run: it had none, or a truncation since the last write dropped the first
      one. After a write of data that is a truncation of a non-empty write to zero. */
  predicate Lost(items: seq<Item>, ops: seq<FileOp>) {
    if ops == [] then items == []
    else
      var p := ops[..|ops| - 1];
      match ops[|ops| - 1]
      case Store(_) => false
      case Cut(n) => Lost(items, p) || Drops(Head(items, p).0, Head(items, p).1, n)
  }

  /** After a write of data the items are lost exactly by cutting non-empty data to zero. */
  lemma {:induction false} LostAfterStore(items: seq<Item>, ops: seq<FileOp>, data: seq<u8>, cuts: seq<nat>)
    requires |ops| > |cuts| && ops[|ops| - |cuts| - 1] == Store(data)
    requires forall i :: 0 <= i < |cuts| ==> ops[|ops| - |cuts| + i] == Cut(cuts[i])
    ensures Lost(items, ops) <==> data != [] && 0 in cuts
    ensures Head(items, ops) == (0, |data|)
  {
    if cuts != [] {
      var p, c := ops[..|ops| - 1], cuts[..|cuts| - 1];
      assert ops[|ops| - |cuts| + (|cuts| - 1)] == Cut(cuts[|cuts| - 1]);
      forall i | 0 <= i < |c|
        ensures p[|p| - |c| + i] == Cut(c[i])
      {
        assert ops[|ops| - |cuts| + i] == Cut(cuts[i]);
      }
      LostAfterStore(items, p, data, c);
      assert cuts == c + [cuts[|cuts| - 1]];
    }
  }

  /** The first item now, against the head of the run: gone when lost, else at the same place and dropped by
      the same truncations. */
  ghost predicate Tracks(now: seq<Item>, items: seq<Item>, ops: seq<FileOp>) {
    && (now == [] <==> Lost(items, ops))
    && (now != [] ==>
        now[0].k.offset as nat == Head(items, ops).0
            && SameDrops(Head(items, ops).0, Head(items, ops).1, ItemEnd(now[0])))
  }

  lemma {:induction false} TracksStart(items: seq<Item>)
    ensures Tracks(items, items, [])
  {
    if items != [] {
      EndAfterStart(items[0]);
    }
  }

  /** The items of a successful write: the first one starts the file and is empty only if the data is. */
  ghost predicate Opens(items: seq<Item>, data: seq<u8>) {
    items != [] && items[0].k.offset == 0 && (ItemEnd(items[0]) > 0 <==> data != [])
  }

  lemma {:induction false} TracksStore(now: seq<Item>, items: seq<Item>, ops: seq<FileOp>, data: seq<u8>)
    requires Opens(now, data)
    ensures Tracks(now, items, ops + [Store(data)])
  {
    hide ItemEnd;
  }

  lemma {:induction false} TracksCut(now: seq<Item>, size: nat, n: nat, items: seq<Item>, ops: seq<FileOp>,
                                     image: seq<u8>)
    requires Tracks(now, items, ops) && Tidy(now, size, |image|) && size < U64_LIMIT
    ensures Tracks(TruncItems(now, size, n), items, ops + [Cut(n)])
  {
    hide ItemEnd, Tidy, SameDrops, Drops, Shrunk, Lost, Head;
    LostCut(items, ops, n);
    if now == [] {
      NoneTruncated(size, n);
    } else {
      FirstTruncated(now, size, n, image);
      DropsKept(Head(items, ops).0, Head(items, ops).1, ItemEnd(now[0]), n);
    }
  }

  lemma {:induction false} NoneTruncated(size: nat, n: nat)
    ensures TruncItems([], size, n) == []
  {
  }

  lemma {:induction false} LostCut(items: seq<Item>, ops: seq<FileOp>, n: nat)
    ensures Lost(items, ops + [Cut(n)]) <==> Lost(items, ops) || Drops(Head(items, ops).0, Head(items, ops).1, n)
    ensures Head(items, ops + [Cut(n)]) == Head(items, ops)
  {
    assert (ops + [Cut(n)])[..|ops|] == ops;
  }

  /** A tracked tidy file reads back exactly when it is empty, or is not larger than the device and its items
      are not lost. */
  lemma {:induction false} TrackedReadable(now: seq<Item>, size: nat, items: seq<Item>, ops: seq<FileOp>,
                                           image: seq<u8>)
    requires Tracks(now, items, ops) && Tidy(now, size, |image|) && size < U64_LIMIT
    ensures WholeReadable(EnvOf(image), now, size) <==> size == 0 || (size <= |image| && !Lost(items, ops))
  {
    hide WholeReadable, Tidy, Lost, Head;
    TidyReadable(now, size, image);
  }
}
