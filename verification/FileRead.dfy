/** Reading a file whole (read.go) and through a window (openfile.go). Both give the content its extent
    items describe; the window reads only what it needs of an uncompressed extent. */
module FileRead {
  import opened Keys
  import opened Bytes
  import opened Trees
  import opened FileExtents
  import opened FileBytes

  datatype ReadError = NotFound | OutOfBounds | Unreadable
  datatype Outcome<+T> = Good(value: T) | Bad(error: ReadError)

  // ---- the whole file -----------------------------------------------------------------------------

  lemma {:induction false} ContentStep(env: Env, items: seq<Item>, size: nat, i: nat)
    requires i < |items|
    ensures var c, o := Content(env, items[..i], size), EffectOf(env, items[i], size);
            && (o.Write? ==> o.p + |o.data| <= size)
            && Content(env, items[..i + 1], size) == if o.Write? then Put(c, o.p, o.data) else c
  {
    hide EffectOf;
    assert items[..i + 1][..i] == items[..i];
    EffectFits(env, items[i], size);
  }

  lemma {:induction false} PrevEndStep(items: seq<Item>, limit: nat, i: nat)
    requires i < |items|
    ensures PrevEnd(items[..i + 1], limit) == if Counts(items[i], limit) then EndOf(items[i])
            else PrevEnd(items[..i], limit)
  {
    hide ParseExt;
    assert items[..i + 1][..i] == items[..i];
  }

  /** readFileData succeeds exactly when this holds. */
  ghost predicate WholeReadable(env: Env, items: seq<Item>, size: nat) {
    size == 0 || (items != [] && size <= env.dev && Apart(items, size) && Legible(env, items, size))
  }

  method ApplyEffect(env: Env, it: Item, size: nat, out: array<u8>) returns (ok: bool)
    requires out.Length == size
    modifies out
    ensures var o := EffectOf(env, it, size);
            && ok == !o.Fail?
            && (o.Write? ==> o.p + |o.data| <= size && out[..] == Put(old(out[..]), o.p, o.data))
            && (o.Quiet? ==> out[..] == old(out[..]))
  {
    hide ParseExt, Decompress, ClampRam, Put, Unpacked, ReadImage;
    var fo := it.k.offset as nat;
    if fo >= size {
      return true;
    }
    var remaining := size - fo;
    match ParseExt(it.data)
    case Skip => ok := true;
    case Inline(comp, ram, raw) =>
      match Decompress(env, raw, comp, ClampRam(ram, remaining)) {
        case None => ok := false;
        case Some(x) =>
          var n := Min(|x|, remaining);
          CopyInto(out, fo, x[..n]);
          ok := true;
      }
    case Regular(comp, _, disk, _, _, num) =>
      var e := ParseExt(it.data);
      EffectFits(env, it, size);
      if disk == 0 {
        return true;
      }
      var n := Min(num, remaining);
      if comp == 0 {
        if !env.mapped(PlainAddr(e, 0)) {
          return false;
        }
        match ReadImage(env, PlainAddr(e, 0), n) {
          case None => ok := false;
          case Some(x) =>
            CopyInto(out, fo, x);
            ok := true;
        }
      } else {
        match Unpacked(env, e, n) {
          case None => ok := false;
          case Some(x) =>
            CopyInto(out, fo, x);
            ok := true;
        }
      }
  }

  /** readFileData. */
  method ReadFileData(env: Env, items: seq<Item>, size: nat) returns (r: Outcome<array<u8>>)
    ensures r.Good? <==> WholeReadable(env, items, size)
    ensures r.Good? ==> r.value[..] == Content(env, items, size)
    ensures r.Good? && Sane(env) ==> forall x :: 0 <= x < size ==> ByteLaw(env, items, size, x, r.value[..][x])
    ensures items == [] && size > 0 ==> r == Bad(NotFound)
  {
    hide ParseExt, Content, EffectOf, Put, PrevEnd, Zeros, ByteLaw;
    if size == 0 {
      var none := new u8[0];
      NoContent(env, items);
      return Good(none);
    }
    if items == [] {
      return Bad(NotFound);
    }
    if size > env.dev {
      return Bad(OutOfBounds);
    }
    var out := new u8[size](_ => 0);
    NothingYet(env, items, size, out[..]);
    var prevEnd := 0;
    var i := 0;
    while i < |items|
      invariant 0 <= i <= |items|
      invariant prevEnd == PrevEnd(items[..i], size)
      invariant out[..] == Content(env, items[..i], size)
      invariant forall j :: 0 <= j < i && Counts(items[j], size) ==>
                  EndOf(items[j]) < U64_LIMIT && PrevEnd(items[..j], size) <= items[j].k.offset as nat
      invariant forall j :: 0 <= j < i ==> !EffectOf(env, items[j], size).Fail?
    {
      var fo := items[i].k.offset as nat;
      PrevEndStep(items, size, i);
      ContentStep(env, items, size, i);
      if fo < size && ParseExt(items[i].data).Regular? {
        var end := fo + ParseExt(items[i].data).num;
        if end >= U64_LIMIT || fo < prevEnd {
          return Bad(OutOfBounds);
        }
        prevEnd := end;
      }
      var ok := ApplyEffect(env, items[i], size, out);
      if !ok {
        return Bad(Unreadable);
      }
      i := i + 1;
    }
    assert items[..i] == items;
    if Sane(env) {
      forall x | 0 <= x < size ensures ByteLaw(env, items, size, x, Content(env, items, size)[x]) {
        ContentByte(env, items, size, x);
      }
    }
    r := Good(out);
  }

  lemma {:induction false} NothingYet(env: Env, items: seq<Item>, size: nat, b: seq<u8>)
    requires |b| == size && forall i :: 0 <= i < size ==> b[i] == 0
    ensures items[..0] == [] && PrevEnd(items[..0], size) == 0 && b == Content(env, items[..0], size)
  {
  }

  lemma {:induction false} NoContent(env: Env, items: seq<Item>)
    ensures Content(env, items, 0) == []
  {
    hide Content;
    assert |Content(env, items, 0)| == 0;
  }

  // ---- opening ---------------------------------------------------------------------------------------

  datatype OpenFile = OpenFile(size: nat, items: seq<Item>)

  function OpenSize(size: nat): nat {
    Min(size, MAX_SIZE)
  }

  /** openBtrfsFile succeeds exactly when this holds: the overlap check covers every item, also those
      beyond the end of the file. */
  ghost predicate Openable(items: seq<Item>, size: nat) {
    size == 0 || (items != [] && Apart(items, U64_LIMIT))
  }

  /** openBtrfsFile, from the collected items on. */
  method Open(items: seq<Item>, size: nat) returns (r: Outcome<OpenFile>)
    ensures r.Good? <==> Openable(items, size)
    ensures r.Good? ==> r.value == OpenFile(OpenSize(size), if size == 0 then [] else items)
  {
    hide ParseExt, PrevEnd;
    if size == 0 {
      return Good(OpenFile(0, []));
    }
    if items == [] {
      return Bad(NotFound);
    }
    NoEnd(items);
    var prevEnd := 0;
    var i := 0;
    while i < |items|
      invariant 0 <= i <= |items|
      invariant prevEnd == PrevEnd(items[..i], U64_LIMIT)
      invariant forall j :: 0 <= j < i && Counts(items[j], U64_LIMIT) ==>
                  EndOf(items[j]) < U64_LIMIT && PrevEnd(items[..j], U64_LIMIT) <= items[j].k.offset as nat
    {
      PrevEndStep(items, U64_LIMIT, i);
      var fo := items[i].k.offset as nat;
      if ParseExt(items[i].data).Regular? {
        var end := fo + ParseExt(items[i].data).num;
        if end >= U64_LIMIT || fo < prevEnd {
          return Bad(OutOfBounds);
        }
        prevEnd := end;
      }
      i := i + 1;
    }
    r := Good(OpenFile(OpenSize(size), items));
  }

  lemma {:induction false} NoEnd(items: seq<Item>)
    ensures PrevEnd(items[..0], U64_LIMIT) == 0
  {
  }

  // ---- the window -------------------------------------------------------------------------------------

  /** The part of b that lies in the window, which starts at off and has n bytes. */
  function Window(b: seq<u8>, off: nat, n: nat): (w: seq<u8>)
    requires off + n <= |b|
    ensures |w| == n
  {
    b[off..off + n]
  }

  function Max(a: nat, b: nat): nat {
    if a > b then a else b
  }

  /** copyWindow: the part of src, which starts at file offset so, that lies in the window. */
  function Copied(w: seq<u8>, off: nat, so: nat, src: seq<u8>): (r: seq<u8>)
    ensures |r| == |w|
  {
    var lo, top := Max(so, off), Min(so + |src|, off + |w|);
    if top <= lo then w else Put(w, lo - off, src[lo - so..top - so])
  }

  /** Overlaying and then looking through the window is copying into the window. */
  lemma {:induction false} WindowOfPut(b: seq<u8>, off: nat, n: nat, p: nat, src: seq<u8>)
    requires off + n <= |b| && p + |src| <= |b|
    ensures Window(Put(b, p, src), off, n) == Copied(Window(b, off, n), off, p, src)
  {
    hide Put;
    var x, y := Window(Put(b, p, src), off, n), Copied(Window(b, off, n), off, p, src);
    forall i | 0 <= i < n
      ensures x[i] == y[i]
    {
      PutAt(b, p, src, off + i);
      var lo, top := Max(p, off), Min(p + |src|, off + n);
      if lo < top {
        PutAt(Window(b, off, n), lo - off, src[lo - p..top - p], i);
      }
    }
  }

  lemma {:induction false} CopiedBefore(w: seq<u8>, off: nat, so: nat, src: seq<u8>)
    requires so + |src| <= off
    ensures Copied(w, off, so, src) == w
  {
  }

  lemma {:induction false} CopiedInside(w: seq<u8>, off: nat, so: nat, src: seq<u8>)
    requires off <= so && so + |src| <= off + |w|
    ensures Copied(w, off, so, src) == Put(w, so - off, src)
  {
  }

  method CopyWindow(dst: array<u8>, want: nat, off: nat, so: nat, src: seq<u8>)
    requires want <= dst.Length
    modifies dst
    ensures dst[..want] == Copied(old(dst[..want]), off, so, src)
    ensures dst[want..] == old(dst[want..])
  {
    hide Put;
    ghost var b := dst[..];
    var hi, end := off + want, so + |src|;
    var lo, top := Max(so, off), Min(end, hi);
    if top <= lo {
      return;
    }
    PutPrefix(dst[..], want, lo - off, src[lo - so..top - so]);
    CopyInto(dst, lo - off, src[lo - so..top - so]);
    ghost var c := dst[..];
    assert dst[..want] == c[..want] && dst[want..] == c[want..];
    assert old(dst[..want]) == b[..want] && old(dst[want..]) == b[want..];
  }

  lemma {:induction false} PutPrefix(b: seq<u8>, n: nat, p: nat, s: seq<u8>)
    requires p + |s| <= n <= |b|
    ensures Put(b, p, s)[..n] == Put(b[..n], p, s) && Put(b, p, s)[n..] == b[n..]
  {
  }

  /** A window item through the effect of the whole item. */
  function WindowEffect(w: seq<u8>, off: nat, o: Effect): (r: seq<u8>)
    ensures |r| == |w|
  {
    if o.Write? then Copied(w, off, o.p, o.data) else w
  }

  lemma {:induction false} WindowStep(env: Env, items: seq<Item>, size: nat, i: nat, off: nat, n: nat)
    requires i < |items| && off + n <= size
    ensures Window(Content(env, items[..i + 1], size), off, n) ==
            WindowEffect(Window(Content(env, items[..i], size), off, n), off, EffectOf(env, items[i], size))
  {
    hide Content, EffectOf, Window, Copied, Put;
    var o := EffectOf(env, items[i], size);
    ContentStep(env, items, size, i);
    if o.Write? {
      WindowOfPut(Content(env, items[..i], size), off, n, o.p, o.data);
    }
  }

  /** Items at or past the end of the window do not show in it. */
  lemma {:induction false} WindowRest(env: Env, items: seq<Item>, size: nat, i: nat, m: nat, off: nat, n: nat)
    requires i <= m <= |items| && off + n <= size && InOrder(items)
    requires i < |items| ==> off + n <= items[i].k.offset as nat
    ensures Window(Content(env, items[..m], size), off, n) == Window(Content(env, items[..i], size), off, n)
    decreases m
  {
    hide Content, EffectOf, Window;
    if i < m {
      WindowRest(env, items, size, i, m - 1, off, n);
      WindowStep(env, items, size, m - 1, off, n);
      EffectFits(env, items[m - 1], size);
      assert i < m - 1 ==> items[i].k.offset < items[m - 1].k.offset;
    }
  }

  lemma {:induction false} WindowEmpty(env: Env, items: seq<Item>, size: nat, off: nat, n: nat)
    requires off + n <= size
    ensures Window(Content(env, items[..0], size), off, n) == Zeros(n)
  {
  }

  /** The addresses an uncompressed extent reads, beyond its first, are mapped too. */
  ghost predicate MappedThrough(env: Env, it: Item, size: nat) {
    var e := ParseExt(it.data);
    it.k.offset as nat < size && e.Regular? && e.comp == 0 && e.disk != 0 ==>
      forall d: nat :: d < Min(e.num, size - it.k.offset as nat) ==> env.mapped(PlainAddr(e, d))
  }

  /** Reading a piece of an uncompressed extent is reading it whole and cutting the piece out. */
  lemma {:induction false} PlainPiece(env: Env, e: Ext, n: nat, skip: nat, m: nat)
    requires Sane(env) && e.Regular? && skip + m <= n
    requires ReadImage(env, PlainAddr(e, 0), n).Some?
    ensures m > 0 ==>
            ReadImage(env, PlainAddr(e, skip), m) == Some(ReadImage(env, PlainAddr(e, 0), n).value[skip..skip + m])
  {
    if m > 0 {
      var a := PlainAddr(e, 0);
      NoWrap(e.disk + e.ext, skip);
      SliceSlice(env.image, a, a + n, skip, skip + m);
    }
  }

  /** The plain branch of fill: what is copied is the window's part of the whole extent. */
  lemma {:induction false} PlainCopied(env: Env, e: Ext, fo: nat, n: nat, w: seq<u8>, off: nat)
    requires Sane(env) && e.Regular? && fo < off + |w| && off < fo + n
    requires ReadImage(env, PlainAddr(e, 0), n).Some?
    ensures var lo, top := Max(fo, off), Min(fo + n, off + |w|);
            && lo <= top && (lo == fo || lo - fo < n)
            && ReadImage(env, PlainAddr(e, lo - fo), top - lo).Some?
            && |ReadImage(env, PlainAddr(e, lo - fo), top - lo).value| == top - lo
            && Copied(w, off, fo, ReadImage(env, PlainAddr(e, 0), n).value) ==
               Put(w, lo - off, ReadImage(env, PlainAddr(e, lo - fo), top - lo).value)
  {
    hide Put, PlainAddr;
    var lo, top := Max(fo, off), Min(fo + n, off + |w|);
    PlainPiece(env, e, n, lo - fo, top - lo);
    if lo == top {
      PutNothing(w, lo - off);
    }
  }

  /** The window of n bytes at off can be filled from the item: it does not reach the window, or it can be
      unpacked, or, uncompressed, the address of its first byte in the window is mapped and its part of the
      window can be read. */
  ghost predicate Shown(env: Env, it: Item, size: nat, off: nat, n: nat) {
    var fo := it.k.offset as nat;
    fo < Min(size, off + n) ==>
      match ParseExt(it.data)
      case Skip => true
      case Inline(comp, ram, raw) => Decompress(env, raw, comp, ClampRam(ram, size - fo)).Some?
      case Regular(comp, _, disk, _, _, num) =>
        var e, m := ParseExt(it.data), Min(num, size - fo);
        var lo, top := Max(fo, off), Min(fo + m, off + n);
        fo + m > off && disk != 0 ==>
          if comp == 0 then
            lo <= top && env.mapped(PlainAddr(e, lo - fo)) && ReadImage(env, PlainAddr(e, lo - fo), top - lo).Some?
          else Unpacked(env, e, m).Some?
  }

  /** A window fails on an item exactly when it reaches the window and its bytes in it cannot be read. */
  lemma {:induction false} ShownIff(env: Env, it: Item, size: nat, off: nat, n: nat)
    ensures var d, fo := it.data, it.k.offset as nat;
            var end := if IsRegular(d) then fo + Below(Word(d, 0x2D), fo, size) else fo;
            !Shown(env, it, size, off, n) <==>
            && fo < size && fo < off + n && (IsRegular(d) ==> off < end)
            && Broken(env, d, fo, size, Max(fo, off), Max(Max(fo, off), Min(end, off + n)))
  {
    hide UnLe, Unpacked, BrokenPacked;
    if IsRegular(it.data) && it.data[0x10] != 0 {
      PackedFailsIff(env, it.data, Below(Word(it.data, 0x2D), it.k.offset as nat, size));
    }
  }

  /** An item that can be read whole and is mapped throughout shows in every window. */
  lemma {:induction false} MappedShown(env: Env, it: Item, size: nat, off: nat, n: nat)
    requires Sane(env) && !EffectOf(env, it, size).Fail? && MappedThrough(env, it, size)
    ensures Shown(env, it, size, off, n)
  {
    hide ParseExt, Decompress, ClampRam, Unpacked, PlainAddr, Put;
    var e, fo := ParseExt(it.data), it.k.offset as nat;
    if fo < Min(size, off + n) && e.Regular? && e.comp == 0 && e.disk != 0 {
      var m := Min(e.num, size - fo);
      if fo + m > off {
        PlainCopied(env, e, fo, m, Zeros(n), off);
        assert env.mapped(PlainAddr(e, Max(fo, off) - fo));
      }
    }
  }

  /** What a window shows of an item: only the part in the window of an uncompressed extent is read. */
  ghost function Piece(env: Env, it: Item, size: nat, off: nat, n: nat): Effect {
    var fo := it.k.offset as nat;
    if fo >= Min(size, off + n) then Quiet
    else match ParseExt(it.data)
         case Skip => Quiet
         case Inline(_, _, _) => EffectOf(env, it, size)
         case Regular(comp, _, disk, _, _, num) =>
           var e, m := ParseExt(it.data), Min(num, size - fo);
           var lo, top := Max(fo, off), Min(fo + m, off + n);
           if fo + m <= off || disk == 0 then Quiet
           else if comp != 0 then EffectOf(env, it, size)
           else match ReadImage(env, PlainAddr(e, lo - fo), top - lo)
                case None => Fail
                case Some(x) => Write(lo, x)
  }

  /** One item of fill. */
  method FillItem(env: Env, it: Item, size: nat, dst: array<u8>, want: nat, off: nat) returns (ok: bool)
    requires Sane(env) && want <= dst.Length && it.k.offset as nat < off + want
    modifies dst
    ensures dst[want..] == old(dst[want..])
    ensures var o := EffectOf(env, it, size);
            ok && !o.Fail? ==> dst[..want] == WindowEffect(old(dst[..want]), off, o)
    ensures ok ==> dst[..want] == WindowEffect(old(dst[..want]), off, Piece(env, it, size, off, want))
    ensures ok <==> Shown(env, it, size, off, want)
  {
    hide ParseExt, Decompress, ClampRam, Put, Unpacked, ReadImage, PlainAddr, Copied;
    var fo := it.k.offset as nat;
    if fo >= size {
      return true;
    }
    var remaining := size - fo;
    match ParseExt(it.data)
    case Skip => ok := true;
    case Inline(comp, ram, raw) =>
      match Decompress(env, raw, comp, ClampRam(ram, remaining)) {
        case None => ok := false;
        case Some(x) =>
          var n := Min(|x|, remaining);
          CopyWindow(dst, want, off, fo, x[..n]);
          ok := true;
      }
    case Regular(comp, _, disk, _, _, num) =>
      var e := ParseExt(it.data);
      var n := Min(num, remaining);
      EffectFits(env, it, size);
      WriteLength(env, it, size);
      if fo + n <= off || disk == 0 {
        if EffectOf(env, it, size).Write? && disk != 0 {
          CopiedBefore(dst[..want], off, fo, EffectOf(env, it, size).data);
        }
        return true;
      }
      if comp == 0 {
        ok := FillPlain(env, e, fo, n, dst, want, off);
      } else {
        match Unpacked(env, e, n) {
          case None => ok := false;
          case Some(x) =>
            CopyWindow(dst, want, off, fo, x);
            ok := true;
        }
      }
  }

  /** A regular extent writes exactly the bytes it covers of the file. */
  lemma {:induction false} WriteLength(env: Env, it: Item, size: nat)
    requires it.k.offset as nat < size && ParseExt(it.data).Regular?
    ensures var o := EffectOf(env, it, size);
            o.Write? ==> |o.data| == Min(ParseExt(it.data).num, size - it.k.offset as nat)
  {
    hide ParseExt, Decompress, ClampRam, PlainAddr;
  }

  method FillPlain(env: Env, e: Ext, fo: nat, n: nat, dst: array<u8>, want: nat, off: nat) returns (ok: bool)
    requires Sane(env) && e.Regular? && want <= dst.Length && fo < off + want && off < fo + n
    modifies dst
    ensures dst[want..] == old(dst[want..])
    ensures var x := ReadImage(env, PlainAddr(e, 0), n);
            ok && x.Some? ==> dst[..want] == Copied(old(dst[..want]), off, fo, x.value)
    ensures var lo, top := Max(fo, off), Min(fo + n, off + want);
            var x := ReadImage(env, PlainAddr(e, lo - fo), top - lo);
            ok && x.Some? ==> dst[..want] == Copied(old(dst[..want]), off, lo, x.value)
    ensures var lo, top := Max(fo, off), Min(fo + n, off + want);
            ok <==> env.mapped(PlainAddr(e, lo - fo)) && ReadImage(env, PlainAddr(e, lo - fo), top - lo).Some?
  {
    hide Put, ReadImage, PlainAddr, Copied;
    ghost var b := dst[..];
    ghost var w := dst[..want];
    var hi := off + want;
    var lo, top := Max(fo, off), Min(fo + n, hi);
    if ReadImage(env, PlainAddr(e, 0), n).Some? {
      PlainCopied(env, e, fo, n, w, off);
    }
    if !env.mapped(PlainAddr(e, lo - fo)) {
      return false;
    }
    var piece := ReadImage(env, PlainAddr(e, lo - fo), top - lo);
    if piece.None? {
      return false;
    }
    ReadLength(env, PlainAddr(e, lo - fo), top - lo);
    PutPrefix(b, want, lo - off, piece.value);
    CopiedInside(w, off, lo, piece.value);
    CopyInto(dst, lo - off, piece.value);
    ghost var c := dst[..];
    assert dst[..want] == c[..want] && dst[want..] == c[want..] && w == b[..want] && old(dst[want..]) == b[want..];
    ok := true;
  }

  lemma {:induction false} ReadLength(env: Env, a: nat, n: nat)
    ensures ReadImage(env, a, n).Some? ==> |ReadImage(env, a, n).value| == n
  {
  }

  /** The items that start below the limit can be read whole. */
  ghost predicate LegibleBelow(env: Env, items: seq<Item>, size: nat, limit: nat) {
    forall i :: 0 <= i < |items| && items[i].k.offset as nat < limit ==> !EffectOf(env, items[i], size).Fail?
  }

  // ---- every byte of the window ------------------------------------------------------------------------

  /** An item that shows in the window puts there exactly what its payload gives. */
  lemma {:induction false} PieceGives(env: Env, it: Item, size: nat, off: nat, n: nat, x: nat, v: u8)
    requires Sane(env) && Shown(env, it, size, off, n) && off <= x < off + n && x < size
    ensures Puts(Piece(env, it, size, off, n), x, v) <==> Gives(env, it.data, it.k.offset as nat, size, x, v)
  {
    hide UnLe, ReadImage, Expanded, EffectOf, PlainAddr;
    var fo := it.k.offset as nat;
    EffectFits(env, it, size);
    if fo <= x {
      if IsInline(it.data) {
        InlinePuts(env, it, size, x, v);
      } else if IsRegular(it.data) {
        if it.data[0x10] == 0 {
          PlainPiecePuts(env, it, size, off, n, x, v);
        } else {
          PackedPiecePuts(env, it, size, off, n, x, v);
        }
      }
    }
  }

  /** The two sides do not depend on how far the window reaches when nothing wraps around. */
  lemma {:induction false} PlainPiecePuts(env: Env, it: Item, size: nat, off: nat, n: nat, x: nat, v: u8)
    requires Sane(env) && Shown(env, it, size, off, n) && off <= x < off + n
    requires it.k.offset as nat <= x < size && IsRegular(it.data) && it.data[0x10] == 0
    ensures Puts(Piece(env, it, size, off, n), x, v) <==> GivesPlain(env, it.data, it.k.offset as nat, x, v)
  {
    hide ParseExt, Word;
    RegularFields(it.data);
    var e, fo := ParseExt(it.data), it.k.offset as nat;
    var lo := Max(fo, off);
    if x - fo < e.num {
      NoWrap(e.disk + e.ext + (lo - fo), x - lo);
    }
  }

  lemma {:induction false} PackedPiecePuts(env: Env, it: Item, size: nat, off: nat, n: nat, x: nat, v: u8)
    requires Shown(env, it, size, off, n) && off <= x < off + n
    requires it.k.offset as nat <= x < size && IsRegular(it.data) && it.data[0x10] != 0
    ensures Puts(Piece(env, it, size, off, n), x, v) <==> GivesPacked(env, it.data, it.k.offset as nat, size, x, v)
  {
    hide ParseExt, Word, Unpacked, ReadImage, Expanded;
    RegularFields(it.data);
    var e, fo := ParseExt(it.data), it.k.offset as nat;
    if x - fo < e.num {
      PackedPuts(env, it, size, x, v);
    } else {
      EffectFits(env, it, size);
      WriteLength(env, it, size);
    }
  }

  lemma {:induction false} EffectByte(w: seq<u8>, off: nat, o: Effect, x: nat)
    requires off <= x < off + |w|
    ensures var now := WindowEffect(w, off, o)[x - off];
            Puts(o, x, now) || (now == w[x - off] && forall v :: !Puts(o, x, v))
  {
    hide Put;
    if o.Write? {
      var lo, top := Max(o.p, off), Min(o.p + |o.data|, off + |w|);
      if lo < top {
        PutAt(w, lo - off, o.data[lo - o.p..top - o.p], x - off);
      }
    }
  }

  /** The byte at x, old before the item, is now after it. */
  lemma {:induction false} ShownByte(env: Env, it: Item, size: nat, off: nat, w: seq<u8>, x: nat)
    requires Sane(env) && Shown(env, it, size, off, |w|) && off <= x < off + |w| && x < size
    ensures Given(env, it.data, it.k.offset as nat, size, x, w[x - off],
                  WindowEffect(w, off, Piece(env, it, size, off, |w|))[x - off])
  {
    hide Shown, Piece, Gives, WindowEffect, Puts;
    var o := Piece(env, it, size, off, |w|);
    var now := WindowEffect(w, off, o)[x - off];
    EffectByte(w, off, o, x);
    PieceGives(env, it, size, off, |w|, x, now);
    if Touches(env, it.data, it.k.offset as nat, size, x) {
      var v :| Gives(env, it.data, it.k.offset as nat, size, x, v);
      PieceGives(env, it, size, off, |w|, x, v);
    }
  }

  /** The window w at off holds bytes of the file. */
  ghost predicate WindowLaw(env: Env, items: seq<Item>, size: nat, w: seq<u8>, off: nat) {
    forall j :: 0 <= j < |w| ==> ByteLaw(env, items, size, off + j, w[j])
  }

  lemma {:induction false} LawStart(env: Env, items: seq<Item>, size: nat, n: nat, off: nat)
    ensures WindowLaw(env, items[..0], size, Zeros(n), off)
  {
    hide ByteLaw;
    assert items[..0] == [];
    forall j | 0 <= j < n ensures ByteLaw(env, [], size, off + j, Zeros(n)[j]) {
      NoItems(env, size, off + j);
    }
  }

  lemma {:induction false} WindowLawStep(env: Env, items: seq<Item>, size: nat, i: nat, w: seq<u8>, off: nat)
    requires Sane(env) && i < |items| && off + |w| <= size && Shown(env, items[i], size, off, |w|)
    requires WindowLaw(env, items[..i], size, w, off)
    ensures WindowLaw(env, items[..i + 1], size, WindowEffect(w, off, Piece(env, items[i], size, off, |w|)), off)
  {
    hide ByteLaw, Given, Shown, Piece, WindowEffect;
    var w' := WindowEffect(w, off, Piece(env, items[i], size, off, |w|));
    forall j | 0 <= j < |w| ensures ByteLaw(env, items[..i + 1], size, off + j, w'[j]) {
      ShownByte(env, items[i], size, off, w, off + j);
      LawStep(env, items, size, off + j, i, w[j], w'[j]);
    }
  }

  lemma {:induction false} WindowLawRest(env: Env, items: seq<Item>, size: nat, i: nat, w: seq<u8>, off: nat)
    requires i <= |items| && InOrder(items) && WindowLaw(env, items[..i], size, w, off)
    requires i < |items| ==> off + |w| <= items[i].k.offset as nat
    ensures WindowLaw(env, items, size, w, off)
  {
    hide ByteLaw;
    forall j | 0 <= j < |w| ensures ByteLaw(env, items, size, off + j, w[j]) {
      LawRest(env, items, size, off + j, i, w[j]);
    }
  }

  lemma {:induction false} PastShown(env: Env, it: Item, size: nat, off: nat, n: nat)
    requires off + n <= it.k.offset as nat
    ensures Shown(env, it, size, off, n)
  {
  }

  /** fill: the items up to the end of the window. */
  method Fill(env: Env, f: OpenFile, dst: array<u8>, want: nat, off: nat) returns (ok: bool)
    requires Sane(env) && want <= dst.Length && off + want <= f.size && InOrder(f.items)
    requires dst[..want] == Zeros(want)
    modifies dst
    ensures dst[want..] == old(dst[want..])
    ensures ok && LegibleBelow(env, f.items, f.size, off + want) ==>
            dst[..want] == Window(Content(env, f.items, f.size), off, want)
    ensures ok ==> WindowLaw(env, f.items, f.size, dst[..want], off)
    ensures ok <==> forall i :: 0 <= i < |f.items| ==> Shown(env, f.items[i], f.size, off, want)
  {
    hide EffectOf, Content, Window, WindowEffect, Zeros, Shown, WindowLaw, Piece;
    ghost var good := LegibleBelow(env, f.items, f.size, off + want);
    WindowEmpty(env, f.items, f.size, off, want);
    LawStart(env, f.items, f.size, want, off);
    var i := 0;
    while i < |f.items| && f.items[i].k.offset as nat < off + want
      invariant 0 <= i <= |f.items|
      invariant dst[want..] == old(dst[want..])
      invariant good ==> dst[..want] == Window(Content(env, f.items[..i], f.size), off, want)
      invariant WindowLaw(env, f.items[..i], f.size, dst[..want], off)
      invariant forall j :: 0 <= j < i ==> Shown(env, f.items[j], f.size, off, want)
    {
      WindowStep(env, f.items, f.size, i, off, want);
      ghost var w := dst[..want];
      ok := FillItem(env, f.items[i], f.size, dst, want, off);
      if !ok {
        return;
      }
      WindowLawStep(env, f.items, f.size, i, w, off);
      i := i + 1;
    }
    WindowRest(env, f.items, f.size, i, |f.items|, off, want);
    WindowLawRest(env, f.items, f.size, i, dst[..want], off);
    assert f.items[..|f.items|] == f.items;
    forall j | i <= j < |f.items|
      ensures Shown(env, f.items[j], f.size, off, want)
    {
      assert i < j ==> f.items[i].k.offset < f.items[j].k.offset;
      PastShown(env, f.items[j], f.size, off, want);
    }
    ok := true;
  }

  datatype Status = Done | Eof | Failed

  /** ReadAt of an open file: the window of the content, end-of-file exactly when the window is cut short
      or starts at or past the end. */
  method ReadAt(env: Env, f: OpenFile, p: array<u8>, off: int) returns (n: nat, st: Status)
    requires Sane(env) && InOrder(f.items)
    modifies p
    ensures n <= p.Length && (st != Failed ==> p[n..] == old(p[n..]))
    ensures off < 0 ==> st == Failed && n == 0
    ensures off >= f.size ==> st == Eof && n == 0
    ensures 0 <= off < f.size && st != Failed ==>
            && n == Min(p.Length, f.size - off)
            && (st == Eof <==> n < p.Length)
            && (LegibleBelow(env, f.items, f.size, off + n) ==> p[..n] == Window(Content(env, f.items, f.size), off, n))
            && WindowLaw(env, f.items, f.size, p[..n], off)
    ensures st == Failed ==> n == 0
    ensures 0 <= off < f.size ==>
            (st != Failed <==>
             forall i :: 0 <= i < |f.items| ==> Shown(env, f.items[i], f.size, off, Min(p.Length, f.size - off)))
  {
    hide EffectOf, Content, Window, Zeros, Put, LegibleBelow, Shown, WindowLaw;
    if off < 0 {
      return 0, Failed;
    }
    if off >= f.size {
      return 0, Eof;
    }
    var want := Min(p.Length, f.size - off);
    ghost var b := p[..];
    PutPrefix(b, want, 0, Zeros(want));
    PutWhole(b[..want], Zeros(want));
    Clear(p, 0, want);
    ghost var c := p[..];
    assert p[..want] == c[..want] && p[want..] == c[want..] && old(p[want..]) == b[want..];
    var ok := Fill(env, f, p, want, off);
    if !ok {
      return 0, Failed;
    }
    if want < p.Length {
      return want, Eof;
    }
    return want, Done;
  }

  lemma {:induction false} PutWhole(b: seq<u8>, s: seq<u8>)
    requires |s| == |b|
    ensures Put(b, 0, s) == s
  {
  }
}
