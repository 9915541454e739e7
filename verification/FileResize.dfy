/** What writing and truncating do to extent items and to the content they describe (write.go,
    truncate.go), for files without compressed extents. */
module FileResize {
  import opened Keys
  import opened Bytes
  import opened FreeSpace
  import opened Trees
  import opened FileExtents
  import opened FileRead

  /** The environment of a single device without compression: every address is mapped. */
  function EnvOf(image: seq<u8>): Env {
    Env(image, _ => true, |image|, (_, _, _) => None)
  }

  // ---- item payloads ------------------------------------------------------------------------------

  /** encodeExtentData. */
  function EncodeRegular(gen: nat, disk: nat, diskNum: nat, num: nat): (d: seq<u8>)
    ensures |d| == 0x35
  {
    Le(gen, 8) + Le(num, 8) + [0, 0, 0, 0, 1] + Le(disk, 8) + Le(diskNum, 8) + Le(0, 8) + Le(num, 8)
  }

  /** encodeExtentDataInline. */
  function EncodeInline(gen: nat, raw: seq<u8>): (d: seq<u8>)
    ensures |d| == 0x15 + |raw|
  {
    Le(gen, 8) + Le(|raw|, 8) + [0, 0, 0, 0, 0] + raw
  }

  lemma {:induction false} SevenFields(e: seq<u8>, f: seq<u8>, g: seq<u8>, h: seq<u8>, i: seq<u8>, j: seq<u8>,
                                       k: seq<u8>)
    requires |e| == 8 && |f| == 8 && |g| == 5 && |h| == 8 && |i| == 8 && |j| == 8 && |k| == 8
    ensures var d := e + f + g + h + i + j + k;
            && d[0x08..0x10] == f && d[0x10] == g[0] && d[0x14] == g[4] && d[0x15..0x1D] == h
            && d[0x1D..0x25] == i && d[0x25..0x2D] == j && d[0x2D..0x35] == k
  {
  }

  lemma {:induction false} RegularRoundTrip(gen: nat, disk: nat, diskNum: nat, num: nat)
    requires disk < U64_LIMIT && diskNum < U64_LIMIT && num < U64_LIMIT
    ensures ParseExt(EncodeRegular(gen, disk, diskNum, num)) == Regular(0, num, disk, diskNum, 0, num)
  {
    hide Le, UnLe, Power;
    Widths();
    SevenFields(Le(gen, 8), Le(num, 8), [0, 0, 0, 0, 1], Le(disk, 8), Le(diskNum, 8), Le(0, 8), Le(num, 8));
    LeRoundTrip(num, 8);
    LeRoundTrip(disk, 8);
    LeRoundTrip(diskNum, 8);
    LeRoundTrip(0, 8);
  }

  lemma {:induction false} InlineRoundTrip(gen: nat, raw: seq<u8>)
    requires |raw| < U64_LIMIT
    ensures ParseExt(EncodeInline(gen, raw)) == Inline(0, |raw|, raw)
  {
    hide Le, UnLe, Power;
    Widths();
    LeRoundTrip(|raw|, 8);
    InlineFields(Le(gen, 8), Le(|raw|, 8), raw);
  }

  lemma {:induction false} InlineFields(e: seq<u8>, f: seq<u8>, raw: seq<u8>)
    requires |e| == 8 && |f| == 8
    ensures var d := e + f + [0, 0, 0, 0, 0] + raw;
            d[0x08..0x10] == f && d[0x10] == 0 && d[0x14] == 0 && d[0x15..] == raw
  {
  }

  // ---- spans and trimming ----------------------------------------------------------------------------

  /** The bytes of the file an item covers. */
  function Span(e: Ext): nat {
    match e
    case Skip => 0
    case Inline(_, _, raw) => |raw|
    case Regular(_, _, _, _, _, num) => num
  }

  function ItemEnd(it: Item): nat {
    it.k.offset as nat + Span(ParseExt(it.data))
  }

  /** The bytes of the file truncation takes an item to cover; none for items it leaves alone. */
  function SpanOf(d: seq<u8>): Option<nat> {
    if |d| <= 0x14 then None
    else if d[0x14] == 0 then Some(|d| - 0x15)
    else if |d| < 0x35 then None
    else Some(UnLe(d[0x2D..0x35]))
  }

  lemma {:induction false} SpanAgrees(d: seq<u8>)
    ensures !ParseExt(d).Skip? ==> SpanOf(d) == Some(Span(ParseExt(d)))
  {
  }

  /** The trimmed payload of an item that straddles the new end. */
  function Trimmed(d: seq<u8>, kept: nat): seq<u8>
    requires SpanOf(d).Some? && kept <= SpanOf(d).value
  {
    if d[0x14] == 0 then Put(d[..0x15 + kept], 0x08, Le(kept, 8))
    else Put(Put(d, 0x08, Le(kept, 8)), 0x2D, Le(kept, 8))
  }

  lemma {:induction false} TrimmedInline(d: seq<u8>, kept: nat)
    requires ParseExt(d).Inline? && SpanOf(d).Some? && kept <= SpanOf(d).value && kept < U64_LIMIT
    ensures kept <= |ParseExt(d).raw|
    ensures ParseExt(Trimmed(d, kept)) == Inline(ParseExt(d).comp, kept, ParseExt(d).raw[..kept])
  {
    hide Le, UnLe, Power;
    Widths();
    LeRoundTrip(kept, 8);
    var e := d[..0x15 + kept];
    var t := Put(e, 0x08, Le(kept, 8));
    PutHere(e, 0x08, Le(kept, 8));
    PutAt(e, 0x08, Le(kept, 8), 0x10);
    PutAt(e, 0x08, Le(kept, 8), 0x14);
    PutApart(e, 0x08, Le(kept, 8), 0x15, |e|);
    assert t[0x15..] == t[0x15..|t|] && e[0x15..] == e[0x15..|e|];
    SliceOfTake(d, 0x15 + kept, 0x15, 0x15 + kept);
    SliceSlice(d, 0x15, |d|, 0, kept);
    assert d[0x15..] == d[0x15..|d|];
  }

  lemma {:induction false} TrimmedRegular(d: seq<u8>, kept: nat)
    requires ParseExt(d).Regular? && SpanOf(d).Some? && kept <= SpanOf(d).value && kept < U64_LIMIT
    ensures var e := ParseExt(d);
            ParseExt(Trimmed(d, kept)) == Regular(e.comp, kept, e.disk, e.diskNum, e.ext, kept)
  {
    hide Le, UnLe, Power, Put;
    Widths();
    LeRoundTrip(kept, 8);
    var v := Le(kept, 8);
    var c := Put(d, 0x08, v);
    var t := Put(c, 0x2D, v);
    PutHere(d, 0x08, v);
    PutApart(c, 0x2D, v, 0x08, 0x10);
    PutHere(c, 0x2D, v);
    FieldsApart(d, c, t, v);
  }

  lemma {:induction false} FieldsApart(d: seq<u8>, c: seq<u8>, t: seq<u8>, v: seq<u8>)
    requires |d| >= 0x35 && |v| == 8 && c == Put(d, 0x08, v) && t == Put(c, 0x2D, v)
    ensures t[0x10] == d[0x10] && t[0x14] == d[0x14]
    ensures t[0x15..0x1D] == d[0x15..0x1D] && t[0x1D..0x25] == d[0x1D..0x25] && t[0x25..0x2D] == d[0x25..0x2D]
  {
    hide Put;
    PutAt(d, 0x08, v, 0x10);
    PutAt(c, 0x2D, v, 0x10);
    PutAt(d, 0x08, v, 0x14);
    PutAt(c, 0x2D, v, 0x14);
    PutApart(d, 0x08, v, 0x15, 0x1D);
    PutApart(c, 0x2D, v, 0x15, 0x1D);
    PutApart(d, 0x08, v, 0x1D, 0x25);
    PutApart(c, 0x2D, v, 0x1D, 0x25);
    PutApart(d, 0x08, v, 0x25, 0x2D);
    PutApart(c, 0x2D, v, 0x25, 0x2D);
  }

  // ---- tidy files --------------------------------------------------------------------------------------

  /** An uncompressed item whose bytes lie on the device. */
  predicate Plain(it: Item, deviceSize: nat) {
    match ParseExt(it.data)
    case Skip => false
    case Inline(comp, _, _) => comp == 0
    case Regular(comp, _, disk, diskNum, ext, num) =>
      comp == 0 && ext == 0 && (disk != 0 ==> num <= diskNum && disk + diskNum <= deviceSize)
  }

  /** The items of a file as this driver leaves them: plain, in order, not overlapping, none past the end. */
  ghost predicate Tidy(items: seq<Item>, size: nat, deviceSize: nat) {
    && deviceSize <= MAX_SIZE
    && (forall i :: 0 <= i < |items| ==> Plain(items[i], deviceSize) && ItemEnd(items[i]) <= size)
    && (forall i, j :: 0 <= i < j < |items| ==>
          items[i].k.offset < items[j].k.offset && ItemEnd(items[i]) <= items[j].k.offset as nat)
  }

  lemma {:induction false} TidyPrefix(items: seq<Item>, size: nat, deviceSize: nat, n: nat)
    requires Tidy(items, size, deviceSize) && n <= |items|
    ensures Tidy(items[..n], size, deviceSize)
  {
    hide Plain, ItemEnd;
  }

  lemma {:induction false} TidyAppend(items: seq<Item>, it: Item, size: nat, deviceSize: nat)
    requires Tidy(items, it.k.offset as nat, deviceSize) && Plain(it, deviceSize) && ItemEnd(it) <= size
    requires forall i :: 0 <= i < |items| ==> items[i].k.offset < it.k.offset
    ensures Tidy(items + [it], size, deviceSize)
  {
    hide Plain, ParseExt;
  }

  /** A tidy file passes the overlap check. */
  lemma {:induction false} TidyApart(items: seq<Item>, size: nat, deviceSize: nat, limit: nat)
    requires Tidy(items, size, deviceSize) && size < U64_LIMIT
    ensures InOrder(items) && Apart(items, limit)
  {
    hide Plain, ParseExt;
    forall i | 0 <= i < |items| && Counts(items[i], limit)
      ensures EndOf(items[i]) < U64_LIMIT
    {
      assert ItemEnd(items[i]) <= size;
    }
    forall i, j | 0 <= i < j < |items| && Counts(items[i], limit) && Counts(items[j], limit)
      ensures EndOf(items[i]) <= items[j].k.offset as nat
    {
      assert ItemEnd(items[i]) <= items[j].k.offset as nat;
    }
    ApartPairwise(items, limit);
  }

  /** The bytes a plain item puts into the file; a hole puts none. */
  function PlainBytes(it: Item, image: seq<u8>): seq<u8>
    requires Plain(it, |image|)
  {
    match ParseExt(it.data)
    case Inline(_, _, raw) => raw
    case Regular(_, _, disk, _, _, num) => if disk == 0 then [] else image[disk..disk + num]
  }

  lemma {:induction false} EffectPlain(it: Item, size: nat, image: seq<u8>)
    requires Plain(it, |image|) && ItemEnd(it) <= size && |image| <= MAX_SIZE
    ensures var o := EffectOf(EnvOf(image), it, size);
            && !o.Fail?
            && o == (if o.Write? then Write(it.k.offset as nat, PlainBytes(it, image)) else Quiet)
            && (o.Quiet? ==> PlainBytes(it, image) == [])
            && it.k.offset as nat + |PlainBytes(it, image)| <= size
  {
    hide ParseExt, ClampRam;
    var e := ParseExt(it.data);
    if e.Inline? {
      assert e.raw[..|e.raw|] == e.raw;
    } else if e.disk != 0 {
      assert PlainAddr(e, 0) == e.disk;
      assert image[e.disk..e.disk + 0] == [];
    }
  }

  /** Content grows one plain item at a time. */
  lemma {:induction false} ContentPlain(items: seq<Item>, it: Item, size: nat, image: seq<u8>)
    requires Plain(it, |image|) && ItemEnd(it) <= size && |image| <= MAX_SIZE
    ensures it.k.offset as nat + |PlainBytes(it, image)| <= size
    ensures Content(EnvOf(image), items + [it], size) ==
            Put(Content(EnvOf(image), items, size), it.k.offset as nat, PlainBytes(it, image))
  {
    hide EffectOf, Plain, PlainBytes, ItemEnd, Put;
    assert (items + [it])[..|items|] == items;
    EffectPlain(it, size, image);
    PutNothing(Content(EnvOf(image), items, size), it.k.offset as nat);
  }

  /** A tidy file that has items, or no bytes, and is not larger than the device reads whole. */
  lemma {:induction false} TidyReadable(items: seq<Item>, size: nat, image: seq<u8>)
    requires Tidy(items, size, |image|) && size < U64_LIMIT
    ensures WholeReadable(EnvOf(image), items, size) <==> size == 0 || (items != [] && size <= |image|)
  {
    hide EffectOf, Plain, Apart;
    TidyApart(items, size, |image|, size);
    forall i | 0 <= i < |items|
      ensures !EffectOf(EnvOf(image), items[i], size).Fail?
    {
      EffectPlain(items[i], size, image);
    }
  }

  // ---- resizing ------------------------------------------------------------------------------------------

  /** A byte string cut or extended with zeros to n bytes. */
  function Resized(b: seq<u8>, n: nat): (r: seq<u8>)
    ensures |r| == n
  {
    if n <= |b| then b[..n] else b + Zeros(n - |b|)
  }

  lemma {:induction false} PutGrown(c: seq<u8>, p: nat, s: seq<u8>, n: nat)
    requires p + |s| <= |c| <= n
    ensures Put(Resized(c, n), p, s) == Resized(Put(c, p, s), n)
  {
  }

  lemma {:induction false} ContentGrow(items: seq<Item>, size: nat, n: nat, image: seq<u8>)
    requires Tidy(items, size, |image|) && size <= n
    ensures Content(EnvOf(image), items, n) == Resized(Content(EnvOf(image), items, size), n)
  {
    hide Plain, PlainBytes, ItemEnd, Put, Resized, Content, EffectOf;
    if items == [] {
      NoItems(image, size, n);
    } else {
      var p, it := items[..|items| - 1], items[|items| - 1];
      assert items == p + [it];
      TidyPrefix(items, size, |image|, |items| - 1);
      ContentGrow(p, size, n, image);
      ContentPlain(p, it, size, image);
      ContentPlain(p, it, n, image);
      PutGrown(Content(EnvOf(image), p, size), it.k.offset as nat, PlainBytes(it, image), n);
    }
  }

  lemma {:induction false} NoItems(image: seq<u8>, size: nat, n: nat)
    ensures Content(EnvOf(image), [], n) == Resized(Content(EnvOf(image), [], size), n)
  {
  }

  /** One item through a truncation to n bytes: kept, dropped or trimmed. */
  function ShrinkItem(it: Item, n: nat): seq<Item> {
    var fo := it.k.offset as nat;
    match SpanOf(it.data)
    case None => [it]
    case Some(span) =>
      if (fo + span) % U64_LIMIT <= n then [it]
      else if fo >= n then []
      else [Item(it.k, Trimmed(it.data, n - fo))]
  }

  /** Byte i of a trimmed payload outside the length fields is as before. */
  ghost predicate SameElsewhere(d: seq<u8>, d': seq<u8>) {
    && 0x14 < |d| && |d'| <= |d|
    && forall i :: 0 <= i < |d'| && !(0x08 <= i < 0x10) && (d[0x14] != 0 ==> !(0x2D <= i < 0x35)) ==> d'[i] == d[i]
  }

  /** What truncation does to the bytes of any item. */
  lemma {:induction false} ShrinkItemBytes(it: Item, n: nat)
    requires n < U64_LIMIT
    ensures var d, fo, r := it.data, it.k.offset as nat, ShrinkItem(it, n);
            if |d| <= 0x14 || (d[0x14] != 0 && |d| < 0x35) then r == [it]
            else
              var span := if d[0x14] == 0 then |d| - 0x15 else UnLe(d[0x2D..0x35]);
              if (fo + span) % U64_LIMIT <= n then r == [it]
              else if fo >= n then r == []
              else
                && |r| == 1 && r[0].k == it.k && |r[0].data| >= 0x15 && SameElsewhere(d, r[0].data)
                && UnLe(r[0].data[0x08..0x10]) == n - fo
                && if d[0x14] == 0 then |r[0].data| == 0x15 + (n - fo)
                   else |r[0].data| == |d| && UnLe(r[0].data[0x2D..0x35]) == n - fo
  {
    hide Le, UnLe, Power, Put;
    var d, fo := it.data, it.k.offset as nat;
    if SpanOf(d).Some? && (fo + SpanOf(d).value) % U64_LIMIT > n && fo < n {
      var kept := n - fo;
      Widths();
      LeRoundTrip(kept, 8);
      if d[0x14] == 0 {
        TrimInlineBytes(d, kept);
      } else {
        TrimRegularBytes(d, kept);
      }
    }
  }

  lemma {:induction false} TrimInlineBytes(d: seq<u8>, kept: nat)
    requires |d| > 0x14 && d[0x14] == 0 && 0x15 + kept <= |d|
    ensures var t := Trimmed(d, kept);
            |t| == 0x15 + kept && SameElsewhere(d, t) && t[0x08..0x10] == Le(kept, 8)
  {
    hide Le, UnLe;
  }

  lemma {:induction false} TrimRegularBytes(d: seq<u8>, kept: nat)
    requires |d| >= 0x35 && d[0x14] != 0 && kept <= UnLe(d[0x2D..0x35])
    ensures var t := Trimmed(d, kept);
            |t| == |d| && SameElsewhere(d, t) && t[0x08..0x10] == Le(kept, 8) && t[0x2D..0x35] == Le(kept, 8)
  {
    hide Le, UnLe;
  }

  function Shrunk(items: seq<Item>, n: nat): seq<Item> {
    if items == [] then []
    else Shrunk(items[..|items| - 1], n) + ShrinkItem(items[|items| - 1], n)
  }

  /** The device range an item owns: none for inline items and holes. */
  function ItemDisk(it: Item): seq<Extent> {
    match ParseExt(it.data)
    case Regular(_, _, disk, diskNum, _, _) => if disk == 0 then [] else [Extent(disk, diskNum)]
    case _ => []
  }

  /** The trimmed item: same place, fewer bytes, same blocks on the device. */
  lemma {:induction false} TrimmedItem(it: Item, n: nat, image: seq<u8>)
    requires Plain(it, |image|) && it.k.offset as nat < n < ItemEnd(it) && n < U64_LIMIT
    ensures SpanOf(it.data).Some? && n - it.k.offset as nat <= SpanOf(it.data).value
    ensures var t := Item(it.k, Trimmed(it.data, n - it.k.offset as nat));
            && Plain(t, |image|) && ItemEnd(t) == n
            && PlainBytes(t, image) == PlainBytes(it, image)[..Min(|PlainBytes(it, image)|, n - it.k.offset as nat)]
            && ItemDisk(t) == ItemDisk(it)
  {
    hide ParseExt, Trimmed, SpanOf;
    SpanAgrees(it.data);
    var e, kept := ParseExt(it.data), n - it.k.offset as nat;
    if e.Inline? {
      TrimmedInline(it.data, kept);
    } else {
      TrimmedRegular(it.data, kept);
      if e.disk != 0 {
        SliceSlice(image, e.disk, e.disk + e.num, 0, kept);
        assert image[e.disk..e.disk + e.num][..kept] == image[e.disk..e.disk + e.num][0..kept];
      }
    }
  }

  /** What a truncation does to one plain item. */
  lemma {:induction false} ShrinkPlain(it: Item, n: nat, image: seq<u8>)
    requires Plain(it, |image|) && ItemEnd(it) < U64_LIMIT
    ensures var fo := it.k.offset as nat;
            if ItemEnd(it) <= n then ShrinkItem(it, n) == [it]
            else if fo >= n then ShrinkItem(it, n) == []
            else
              && |ShrinkItem(it, n)| == 1
              && var t := ShrinkItem(it, n)[0];
                 && t.k == it.k && Plain(t, |image|) && ItemEnd(t) == n && ItemDisk(t) == ItemDisk(it)
                 && PlainBytes(t, image) == PlainBytes(it, image)[..Min(|PlainBytes(it, image)|, n - fo)]
  {
    hide ParseExt, Trimmed, SpanOf, PlainBytes, ItemDisk;
    SpanAgrees(it.data);
    if it.k.offset as nat < n < ItemEnd(it) {
      TrimmedItem(it, n, image);
    }
  }

  lemma {:induction false} PutCut(c: seq<u8>, p: nat, s: seq<u8>, n: nat)
    requires p + |s| <= |c| && n <= |c|
    ensures n <= p ==> Put(c, p, s)[..n] == c[..n]
    ensures p < n ==> Put(c, p, s)[..n] == Put(c[..n], p, s[..Min(|s|, n - p)])
  {
  }

  lemma {:induction false} TidyWiden(items: seq<Item>, size: nat, n: nat, deviceSize: nat)
    requires Tidy(items, size, deviceSize) && size <= n
    ensures Tidy(items, n, deviceSize)
  {
    hide Plain, ItemEnd;
  }

  /** All items but the last one end where it starts. */
  lemma {:induction false} TidyFront(items: seq<Item>, size: nat, deviceSize: nat)
    requires Tidy(items, size, deviceSize) && items != []
    ensures Tidy(items[..|items| - 1], items[|items| - 1].k.offset as nat, deviceSize)
    ensures Plain(items[|items| - 1], deviceSize) && ItemEnd(items[|items| - 1]) <= size
  {
    hide Plain, ItemEnd;
  }

  /** Truncation keeps a file tidy at its new size. */
  lemma {:induction false} ShrunkTidy(items: seq<Item>, size: nat, n: nat, image: seq<u8>, hi: int)
    requires Tidy(items, size, |image|) && size < U64_LIMIT
    requires forall i :: 0 <= i < |items| ==> items[i].k.offset as int < hi
    ensures var r := Shrunk(items, n);
            Tidy(r, Min(size, n), |image|) && forall i :: 0 <= i < |r| ==> r[i].k.offset as int < hi
  {
    hide Plain, ItemEnd, ShrinkItem, ItemDisk, PlainBytes;
    if items != [] {
      var p, it := items[..|items| - 1], items[|items| - 1];
      var fo, r := it.k.offset as nat, Shrunk(p, n);
      TidyFront(items, size, |image|);
      EndAfterStart(it);
      ShrunkTidy(p, fo, n, image, fo);
      ShrinkPlain(it, n, image);
      TidyWiden(r, Min(fo, n), Min(size, n), |image|);
      if ItemEnd(it) <= n || fo < n {
        TidyWiden(r, Min(fo, n), fo, |image|);
        TidyAppend(r, ShrinkItem(it, n)[0], Min(size, n), |image|);
        assert ShrinkItem(it, n) == [ShrinkItem(it, n)[0]];
      }
    }
  }

  lemma {:induction false} EndAfterStart(it: Item)
    ensures it.k.offset as nat <= ItemEnd(it)
  {
  }

  /** The content of a truncated file is the old content, cut. */
  lemma {:induction false} ContentShrink(items: seq<Item>, size: nat, n: nat, image: seq<u8>)
    requires Tidy(items, size, |image|) && n <= size < U64_LIMIT
    ensures Content(EnvOf(image), Shrunk(items, n), n) == Content(EnvOf(image), items, size)[..n]
  {
    hide Plain, PlainBytes, ItemEnd, Put, Content, EffectOf, ShrinkItem, ItemDisk;
    if items == [] {
      EmptyContent(image, size, n);
    } else {
      var p, it := items[..|items| - 1], items[|items| - 1];
      var fo, r, c := it.k.offset as nat, Shrunk(p, n), Content(EnvOf(image), p, size);
      assert items == p + [it];
      TidyFront(items, size, |image|);
      TidyPrefix(items, size, |image|, |items| - 1);
      ContentShrink(p, size, n, image);
      ContentPlain(p, it, size, image);
      ShrinkPlain(it, n, image);
      EndAfterStart(it);
      PutCut(c, fo, PlainBytes(it, image), n);
      if ItemEnd(it) <= n {
        PlainShort(it, image);
        ContentPlain(r, it, n, image);
        PutCutWhole(c, fo, PlainBytes(it, image), n);
      } else if fo < n {
        var t := ShrinkItem(it, n)[0];
        assert ShrinkItem(it, n) == [t];
        ContentPlain(r, t, n, image);
      } else {
        assert r + [] == r;
      }
    }
  }

  lemma {:induction false} EmptyContent(image: seq<u8>, size: nat, n: nat)
    requires n <= size
    ensures Content(EnvOf(image), [], n) == Content(EnvOf(image), [], size)[..n]
  {
  }

  lemma {:induction false} PlainShort(it: Item, image: seq<u8>)
    requires Plain(it, |image|)
    ensures it.k.offset as nat + |PlainBytes(it, image)| <= ItemEnd(it)
  {
  }

  lemma {:induction false} PutCutWhole(c: seq<u8>, p: nat, s: seq<u8>, n: nat)
    requires p + |s| <= n <= |c|
    ensures Put(c, p, s)[..n] == Put(c[..n], p, s)
  {
  }

  // ---- what the items own on the device ----------------------------------------------------------------

  function Disks(items: seq<Item>): seq<Extent> {
    if items == [] then [] else Disks(items[..|items| - 1]) + ItemDisk(items[|items| - 1])
  }

  lemma {:induction false} DisksAppend(items: seq<Item>, it: Item, b: nat)
    ensures FreeCnt(Disks(items + [it]), b) == FreeCnt(Disks(items), b) + FreeCnt(ItemDisk(it), b)
  {
    hide ItemDisk, FreeCnt;
    assert (items + [it])[..|items|] == items;
    CntConcat(Disks(items), ItemDisk(it), b);
  }

  /** The items a truncation drops. */
  function Dropped(items: seq<Item>, n: nat): seq<Item> {
    if items == [] then []
    else Dropped(items[..|items| - 1], n) +
         (if ShrinkItem(items[|items| - 1], n) == [] then [items[|items| - 1]] else [])
  }

  /** Truncation frees nothing: what a tidy file owned is still owned, except by the dropped items. */
  lemma {:induction false} ShrunkDisks(items: seq<Item>, size: nat, n: nat, image: seq<u8>, b: nat)
    requires Tidy(items, size, |image|) && size < U64_LIMIT
    ensures FreeCnt(Disks(items), b) == FreeCnt(Disks(Shrunk(items, n)), b) + FreeCnt(Disks(Dropped(items, n)), b)
  {
    hide Plain, ItemEnd, ShrinkItem, ItemDisk, PlainBytes, Disks, FreeCnt;
    if items == [] {
      NoDisks(b);
    } else {
      var p, it := items[..|items| - 1], items[|items| - 1];
      assert items == p + [it];
      TidyFront(items, size, |image|);
      TidyPrefix(items, size, |image|, |items| - 1);
      ShrunkDisks(p, size, n, image, b);
      ShrinkPlain(it, n, image);
      DisksAppend(p, it, b);
      if ShrinkItem(it, n) == [] {
        DisksAppend(Dropped(p, n), it, b);
        assert Shrunk(p, n) + [] == Shrunk(p, n);
      } else {
        var t := ShrinkItem(it, n)[0];
        assert ShrinkItem(it, n) == [t];
        assert Dropped(p, n) + [] == Dropped(p, n);
        DisksAppend(Shrunk(p, n), t, b);
      }
    }
  }

  lemma {:induction false} NoDisks(b: nat)
    ensures FreeCnt(Disks([]), b) == 0
  {
  }

  /** The dropped items are the ones at or past the new end that are not empty. */
  lemma {:induction false} DroppedAre(items: seq<Item>, n: nat, it: Item)
    ensures it in Dropped(items, n) <==> it in items && ShrinkItem(it, n) == []
  {
    hide ShrinkItem;
    if items != [] {
      DroppedAre(items[..|items| - 1], n, it);
      assert it in items <==> it in items[..|items| - 1] || it == items[|items| - 1];
    }
  }

  lemma {:induction false} DisksWitness(items: seq<Item>, b: nat)
    ensures FreeCnt(Disks(items), b) > 0 <==> exists i :: 0 <= i < |items| && FreeCnt(ItemDisk(items[i]), b) > 0
  {
    hide ItemDisk, FreeCnt, Disks;
    if items == [] {
      NoDisks(b);
    } else {
      var p, it := items[..|items| - 1], items[|items| - 1];
      assert items == p + [it];
      DisksWitness(p, b);
      DisksAppend(p, it, b);
      if FreeCnt(Disks(p), b) > 0 {
        var i :| 0 <= i < |p| && FreeCnt(ItemDisk(p[i]), b) > 0;
        assert items[i] == p[i];
      }
      assert items[|items| - 1] == it;
    }
  }

  /** An item that owns bytes of the device, starts at or past n and ends past it. */
  predicate OwnsPast(it: Item, n: nat) {
    var e := ParseExt(it.data);
    e.Regular? && e.disk != 0 && e.diskNum > 0 && it.k.offset as nat >= n && it.k.offset as nat + e.num > n
  }

  /** A truncation loses device space exactly when some item that owns some starts at or past the new end. */
  lemma {:induction false} TruncateLeaksIff(items: seq<Item>, size: nat, n: nat, image: seq<u8>)
    requires Tidy(items, size, |image|) && size < U64_LIMIT
    ensures (exists b :: FreeCnt(Disks(Shrunk(items, n)), b) < FreeCnt(Disks(items), b)) <==>
            (exists i :: 0 <= i < |items| && OwnsPast(items[i], n))
  {
    hide Plain, ItemDisk, Disks, FreeCnt, Shrunk, ShrinkItem;
    if b :| FreeCnt(Disks(Shrunk(items, n)), b) < FreeCnt(Disks(items), b) {
      ShrunkDisks(items, size, n, image, b);
      DisksWitness(Dropped(items, n), b);
      var d :| 0 <= d < |Dropped(items, n)| && FreeCnt(ItemDisk(Dropped(items, n)[d]), b) > 0;
      var it := Dropped(items, n)[d];
      DroppedAre(items, n, it);
      var i :| 0 <= i < |items| && items[i] == it;
      DroppedOwns(it, n, image, b);
      assert OwnsPast(items[i], n);
    }
    if i :| 0 <= i < |items| && OwnsPast(items[i], n) {
      var b := OwnedDropped(items[i], n, image);
      DroppedAre(items, n, items[i]);
      var d :| 0 <= d < |Dropped(items, n)| && Dropped(items, n)[d] == items[i];
      DisksWitness(Dropped(items, n), b);
      ShrunkDisks(items, size, n, image, b);
    }
  }

  lemma {:induction false} DroppedOwns(it: Item, n: nat, image: seq<u8>, b: nat)
    requires Plain(it, |image|) && ItemEnd(it) < U64_LIMIT && ShrinkItem(it, n) == [] && FreeCnt(ItemDisk(it), b) > 0
    ensures OwnsPast(it, n)
  {
    hide ParseExt, ShrinkItem, PlainBytes;
    ShrinkPlain(it, n, image);
  }

  lemma {:induction false} OwnedDropped(it: Item, n: nat, image: seq<u8>) returns (b: nat)
    requires Plain(it, |image|) && ItemEnd(it) < U64_LIMIT && OwnsPast(it, n)
    ensures ShrinkItem(it, n) == [] && FreeCnt(ItemDisk(it), b) > 0
  {
    hide ParseExt, ShrinkItem, PlainBytes;
    ShrinkPlain(it, n, image);
    var e := ParseExt(it.data);
    b := e.disk;
    CntOne(Extent(e.disk, e.diskNum), b);
  }
}
