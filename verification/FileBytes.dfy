/** Where every byte of a file comes from, read off the raw EXTENT_DATA payloads (read.go). */
module FileBytes {
  import opened Keys
  import opened Bytes
  import opened Trees
  import opened FileExtents

  /** The little-endian number of eight bytes at p. */
  ghost function Word(d: seq<u8>, p: nat): nat
    requires p + 8 <= |d|
  {
    UnLe(d[p..p + 8])
  }

  /** How many bytes of an extent of num bytes at fo lie below the size. */
  ghost function Below(num: nat, fo: nat, size: nat): nat {
    if fo >= size then 0 else if num < size - fo then num else size - fo
  }

  ghost predicate IsInline(d: seq<u8>) {
    |d| > 0x14 && d[0x14] == 0
  }

  /** A regular extent with data; preallocated extents have type 2 and holes disk address 0. */
  ghost predicate IsRegular(d: seq<u8>) {
    |d| >= 0x35 && d[0x14] == 1 && Word(d, 0x15) != 0
  }

  /** What a compressed payload expands to, at most a 128 KiB and what is needed. */
  ghost function Expanded(env: Env, packed: seq<u8>, comp: u8, ram: nat, need: nat): Option<seq<u8>> {
    var most := if ram > 0x2_0000 then 0x2_0000 else ram;
    env.codec(packed, comp, if most > need then need else most)
  }

  /** Byte x - fo of an inline payload, as it stands or decompressed. */
  ghost predicate GivesInline(env: Env, d: seq<u8>, fo: nat, size: nat, x: nat, v: u8)
    requires fo <= x < size
  {
    && IsInline(d)
    && if d[0x10] == 0 then x - fo < |d| - 0x15 && v == d[0x15 + (x - fo)]
       else
         var y := Expanded(env, d[0x15..], d[0x10], Word(d, 0x08), size - fo);
         y.Some? && x - fo < |y.value| && v == y.value[x - fo]
  }

  /** The byte at the disk address plus the offset into the extent plus x - fo. */
  ghost predicate GivesPlain(env: Env, d: seq<u8>, fo: nat, x: nat, v: u8)
    requires fo <= x
  {
    && IsRegular(d) && d[0x10] == 0 && x - fo < Word(d, 0x2D)
    && var a := (Word(d, 0x15) + Word(d, 0x25) + (x - fo)) % U64_LIMIT;
       a < |env.image| && v == env.image[a]
  }

  /** Byte x - fo from the offset on of what the codec makes of the whole extent on disk. */
  ghost predicate GivesPacked(env: Env, d: seq<u8>, fo: nat, size: nat, x: nat, v: u8)
    requires fo <= x < size
  {
    && IsRegular(d) && d[0x10] != 0 && x - fo < Word(d, 0x2D)
    && var disk, diskNum, ext := Word(d, 0x15), Word(d, 0x1D), Word(d, 0x25);
       && (diskNum == 0 || disk + diskNum <= |env.image|)
       && var packed := if diskNum == 0 then [] else env.image[disk..disk + diskNum];
          var y := Expanded(env, packed, d[0x10], Word(d, 0x08), (ext + Below(Word(d, 0x2D), fo, size)) % U64_LIMIT);
          y.Some? && ext + (x - fo) < |y.value| && v == y.value[ext + (x - fo)]
  }

  /** Payload d at file offset fo gives byte x of a file of the given size the value v. */
  ghost predicate Gives(env: Env, d: seq<u8>, fo: nat, size: nat, x: nat, v: u8) {
    && fo <= x < size
    && (GivesInline(env, d, fo, size, x, v) || GivesPlain(env, d, fo, x, v) || GivesPacked(env, d, fo, size, x, v))
  }

  ghost predicate Touches(env: Env, d: seq<u8>, fo: nat, size: nat, x: nat) {
    exists v :: Gives(env, d, fo, size, x, v)
  }

  /** Bytes lo to top of the file cannot be read from payload d at fo: its inline data does not decompress; or
      the disk address of lo is not mapped or they reach past the device; or a compressed extent is larger
      than the device, not mapped, past its end, does not decompress, or expands to too little. */
  ghost predicate Broken(env: Env, d: seq<u8>, fo: nat, size: nat, lo: nat, top: nat)
    requires fo <= lo <= top && fo < size
  {
    || (IsInline(d) && d[0x10] != 0 && Expanded(env, d[0x15..], d[0x10], Word(d, 0x08), size - fo).None?)
    || (IsRegular(d) && d[0x10] == 0
        && var a := (Word(d, 0x15) + Word(d, 0x25) + (lo - fo)) % U64_LIMIT;
           !env.mapped(a) || (lo < top && a + (top - lo) > |env.image|))
    || (IsRegular(d) && d[0x10] != 0 && BrokenPacked(env, d, Below(Word(d, 0x2D), fo, size)))
  }

  ghost predicate BrokenPacked(env: Env, d: seq<u8>, n: nat)
    requires IsRegular(d)
  {
    var disk, diskNum, ext := Word(d, 0x15), Word(d, 0x1D), Word(d, 0x25);
    || diskNum > env.dev || !env.mapped(disk) || (diskNum > 0 && disk + diskNum > |env.image|)
    || var packed := if diskNum == 0 then [] else env.image[disk..disk + diskNum];
       var y := Expanded(env, packed, d[0x10], Word(d, 0x08), (ext + n) % U64_LIMIT);
       y.None? || ext + n > |y.value|
  }

  /** The fields of a regular extent. */
  lemma {:induction false} RegularFields(d: seq<u8>)
    requires IsRegular(d)
    ensures ParseExt(d) ==
            Regular(d[0x10], Word(d, 0x08), Word(d, 0x15), Word(d, 0x1D), Word(d, 0x25), Word(d, 0x2D))
  {
    hide UnLe;
  }

  lemma {:induction false} PackedFailsIff(env: Env, d: seq<u8>, n: nat)
    requires IsRegular(d) && d[0x10] != 0
    ensures ParseExt(d).Regular? && (Unpacked(env, ParseExt(d), n).None? <==> BrokenPacked(env, d, n))
  {
    hide ParseExt, Word;
    RegularFields(d);
  }

  /** Reading the whole file fails on an item exactly when its bytes of the file cannot be read. */
  lemma {:induction false} FailsIff(env: Env, it: Item, size: nat)
    ensures var d, fo := it.data, it.k.offset as nat;
            EffectOf(env, it, size).Fail? <==>
            fo < size && Broken(env, d, fo, size, fo, if IsRegular(d) then fo + Below(Word(d, 0x2D), fo, size) else fo)
  {
    hide UnLe, Unpacked, BrokenPacked;
    if IsRegular(it.data) && it.data[0x10] != 0 {
      PackedFailsIff(env, it.data, Below(Word(it.data, 0x2D), it.k.offset as nat, size));
    }
  }

  /** An effect puts v at x. */
  ghost predicate Puts(o: Effect, x: nat, v: u8) {
    o.Write? && o.p <= x < o.p + |o.data| && v == o.data[x - o.p]
  }

  lemma {:induction false} InlinePuts(env: Env, it: Item, size: nat, x: nat, v: u8)
    requires it.k.offset as nat <= x < size && IsInline(it.data)
    ensures Puts(EffectOf(env, it, size), x, v) <==> GivesInline(env, it.data, it.k.offset as nat, size, x, v)
  {
    hide UnLe;
  }

  lemma {:induction false} PlainPuts(env: Env, it: Item, size: nat, x: nat, v: u8)
    requires it.k.offset as nat <= x < size && IsRegular(it.data) && it.data[0x10] == 0
    requires Sane(env) && !EffectOf(env, it, size).Fail?
    ensures Puts(EffectOf(env, it, size), x, v) <==> GivesPlain(env, it.data, it.k.offset as nat, x, v)
  {
    hide ParseExt, Word;
    RegularFields(it.data);
    var e, d := ParseExt(it.data), x - it.k.offset as nat;
    if d < e.num {
      NoWrap(e.disk + e.ext, d);
    }
  }

  lemma {:induction false} NoWrap(x: nat, skip: nat)
    requires x % U64_LIMIT + skip < U64_LIMIT
    ensures (x + skip) % U64_LIMIT == x % U64_LIMIT + skip
  {
    var q := x / U64_LIMIT;
    assert x + skip == q * U64_LIMIT + (x % U64_LIMIT + skip);
  }

  lemma {:induction false} PackedPuts(env: Env, it: Item, size: nat, x: nat, v: u8)
    requires it.k.offset as nat <= x < size && IsRegular(it.data) && it.data[0x10] != 0
    requires !EffectOf(env, it, size).Fail?
    ensures Puts(EffectOf(env, it, size), x, v) <==> GivesPacked(env, it.data, it.k.offset as nat, size, x, v)
  {
    hide ParseExt, Word, Unpacked;
    RegularFields(it.data);
    UnpackedIs(env, it.data, Below(Word(it.data, 0x2D), it.k.offset as nat, size));
  }

  /** What a compressed extent that can be read unpacks to. */
  lemma {:induction false} UnpackedIs(env: Env, d: seq<u8>, n: nat)
    requires IsRegular(d) && d[0x10] != 0 && ParseExt(d).Regular? && Unpacked(env, ParseExt(d), n).Some?
    ensures var disk, diskNum, ext := Word(d, 0x15), Word(d, 0x1D), Word(d, 0x25);
            && (diskNum == 0 || disk + diskNum <= |env.image|)
            && var packed := if diskNum == 0 then [] else env.image[disk..disk + diskNum];
               var y := Expanded(env, packed, d[0x10], Word(d, 0x08), (ext + n) % U64_LIMIT);
               y.Some? && ext + n <= |y.value| && Unpacked(env, ParseExt(d), n).value == y.value[ext..ext + n]
  {
    hide ParseExt, Word;
    RegularFields(d);
  }

  /** A readable item writes at x exactly what its payload gives there. */
  lemma {:induction false} WriteGives(env: Env, it: Item, size: nat, x: nat, v: u8)
    requires Sane(env) && !EffectOf(env, it, size).Fail?
    ensures Puts(EffectOf(env, it, size), x, v) <==> Gives(env, it.data, it.k.offset as nat, size, x, v)
  {
    hide EffectOf, Expanded, UnLe;
    EffectFits(env, it, size);
    if it.k.offset as nat <= x < size {
      if IsInline(it.data) {
        InlinePuts(env, it, size, x, v);
      } else if IsRegular(it.data) {
        if it.data[0x10] == 0 {
          PlainPuts(env, it, size, x, v);
        } else {
          PackedPuts(env, it, size, x, v);
        }
      } else {
        OtherQuiet(env, it, size);
      }
    }
  }

  lemma {:induction false} OtherQuiet(env: Env, it: Item, size: nat)
    requires !IsInline(it.data) && !IsRegular(it.data)
    ensures EffectOf(env, it, size) == Quiet
  {
  }

  // ---- the whole file --------------------------------------------------------------------------------------

  /** Byte x of a file with these items is v: the last item that gives it one gives it v, and a byte that none
      gives, in a hole, a preallocated extent or an uncovered range, is zero. */
  ghost predicate ByteLaw(env: Env, items: seq<Item>, size: nat, x: nat, v: u8) {
    || (exists i :: 0 <= i < |items| && LastGiver(env, items, size, x, v, i))
    || (v == 0 && NoneFrom(env, items, size, x, 0))
  }

  /** Item i gives byte x the value v, and no later item gives it one. */
  ghost predicate LastGiver(env: Env, items: seq<Item>, size: nat, x: nat, v: u8, i: nat)
    requires i < |items|
  {
    Gives(env, items[i].data, items[i].k.offset as nat, size, x, v) && NoneFrom(env, items, size, x, i + 1)
  }

  /** No item from i on gives byte x. */
  ghost predicate NoneFrom(env: Env, items: seq<Item>, size: nat, x: nat, i: nat) {
    forall j :: i <= j < |items| ==> !Touches(env, items[j].data, items[j].k.offset as nat, size, x)
  }

  /** A payload turns the value old of byte x into now. */
  ghost predicate Given(env: Env, d: seq<u8>, fo: nat, size: nat, x: nat, old': u8, now: u8) {
    if Touches(env, d, fo, size, x) then Gives(env, d, fo, size, x, now) else now == old'
  }

  /** One more item keeps the law. */
  lemma {:induction false} LawStep(env: Env, items: seq<Item>, size: nat, x: nat, i: nat, old': u8, now: u8)
    requires i < |items| && ByteLaw(env, items[..i], size, x, old')
    requires Given(env, items[i].data, items[i].k.offset as nat, size, x, old', now)
    ensures ByteLaw(env, items[..i + 1], size, x, now)
  {
    hide Gives, Touches;
    var q, s := items[..i], items[..i + 1];
    assert s[..|s| - 1] == q && s[|s| - 1] == items[i];
    if Touches(env, items[i].data, items[i].k.offset as nat, size, x) {
      assert LastGiver(env, s, size, x, now, i);
    } else {
      if j :| 0 <= j < |q| && LastGiver(env, q, size, x, now, j) {
        NoneSnoc(env, s, size, x, j + 1);
        assert LastGiver(env, s, size, x, now, j);
      } else {
        NoneSnoc(env, s, size, x, 0);
      }
    }
  }

  /** Items past x do not matter. */
  lemma {:induction false} LawRest(env: Env, items: seq<Item>, size: nat, x: nat, i: nat, v: u8)
    requires i <= |items| && ByteLaw(env, items[..i], size, x, v)
    requires forall j :: i <= j < |items| ==> x < items[j].k.offset as nat
    ensures ByteLaw(env, items, size, x, v)
    decreases |items| - i
  {
    hide ByteLaw;
    if i == |items| {
      assert items[..i] == items;
    } else {
      LawStep(env, items, size, x, i, v, v);
      LawRest(env, items, size, x, i + 1, v);
    }
  }

  /** Items that start at or below x can be read. */
  ghost predicate LegibleAt(env: Env, items: seq<Item>, size: nat, x: nat) {
    forall i :: 0 <= i < |items| && items[i].k.offset as nat <= x ==> !EffectOf(env, items[i], size).Fail?
  }

  /** Every byte of the content of readable items obeys the law. */
  lemma {:induction false} ContentByte(env: Env, items: seq<Item>, size: nat, x: nat)
    requires Sane(env) && x < size && LegibleAt(env, items, size, x)
    ensures ByteLaw(env, items, size, x, Content(env, items, size)[x])
  {
    hide EffectOf, Gives, Touches, ByteLaw;
    if items == [] {
      NoItems(env, size, x);
    } else {
      var q, it := items[..|items| - 1], items[|items| - 1];
      ContentByte(env, q, size, x);
      LastItem(env, it, size, x, Content(env, q, size));
      LawStep(env, items, size, x, |items| - 1, Content(env, q, size)[x], Content(env, items, size)[x]);
      assert items[..|items|] == items;
    }
  }

  lemma {:induction false} NoItems(env: Env, size: nat, x: nat)
    ensures ByteLaw(env, [], size, x, 0)
  {
    assert NoneFrom(env, [], size, x, 0);
  }

  lemma {:induction false} NoneSnoc(env: Env, items: seq<Item>, size: nat, x: nat, i: nat)
    requires items != [] && NoneFrom(env, items[..|items| - 1], size, x, i)
    requires !Touches(env, items[|items| - 1].data, items[|items| - 1].k.offset as nat, size, x)
    ensures NoneFrom(env, items, size, x, i)
  {
    hide Touches;
    var q := items[..|items| - 1];
    forall j | i <= j < |items| ensures !Touches(env, items[j].data, items[j].k.offset as nat, size, x) {
      assert j < |q| ==> q[j] == items[j];
    }
  }

  /** What the last item does to byte x. */
  lemma {:induction false} LastItem(env: Env, it: Item, size: nat, x: nat, c: seq<u8>)
    requires Sane(env) && x < size == |c| && (it.k.offset as nat <= x ==> !EffectOf(env, it, size).Fail?)
    ensures var o := EffectOf(env, it, size);
            && (o.Write? ==> o.p + |o.data| <= size)
            && Given(env, it.data, it.k.offset as nat, size, x, c[x], if o.Write? then Put(c, o.p, o.data)[x] else c[x])
  {
    hide EffectOf, GivesInline, GivesPlain, GivesPacked;
    EffectFits(env, it, size);
    var o := EffectOf(env, it, size);
    if o.Write? {
      PutAt(c, o.p, o.data, x);
    }
    var v := if o.Write? then Put(c, o.p, o.data)[x] else c[x];
    if it.k.offset as nat <= x {
      WriteGives(env, it, size, x, v);
      if Touches(env, it.data, it.k.offset as nat, size, x) {
        var w :| Gives(env, it.data, it.k.offset as nat, size, x, w);
        WriteGives(env, it, size, x, w);
      }
    }
  }

  /** Regular extents in order and apart do not compete for a byte. */
  lemma {:induction false} OneGiver(env: Env, items: seq<Item>, size: nat, x: nat, i: nat, j: nat)
    requires InOrder(items) && Apart(items, size) && i < |items| && j < |items| && x < size
    requires IsRegular(items[i].data) && Touches(env, items[i].data, items[i].k.offset as nat, size, x)
    requires IsRegular(items[j].data) && Touches(env, items[j].data, items[j].k.offset as nat, size, x)
    ensures i == j
  {
    hide Apart, Expanded, UnLe;
    ApartPairwise(items, size);
    assert Counts(items[i], size) && Counts(items[j], size);
  }

  /** So in a file of regular extents each of its bytes has the value that its one extent gives it. */
  lemma {:induction false} RegularByte(env: Env, items: seq<Item>, size: nat, x: nat, i: nat, v: u8)
    requires Sane(env) && InOrder(items) && Apart(items, size) && Legible(env, items, size) && i < |items|
    requires forall j :: 0 <= j < |items| ==> !IsInline(items[j].data)
    requires Gives(env, items[i].data, items[i].k.offset as nat, size, x, v)
    ensures Content(env, items, size)[x] == v
  {
    hide EffectOf, Apart, InOrder, GivesInline, GivesPlain, GivesPacked;
    ContentByte(env, items, size, x);
    var w := Content(env, items, size)[x];
    assert Touches(env, items[i].data, items[i].k.offset as nat, size, x);
    var j :| 0 <= j < |items| && Gives(env, items[j].data, items[j].k.offset as nat, size, x, w);
    assert Touches(env, items[j].data, items[j].k.offset as nat, size, x);
    GivesOnce(env, items[i].data, items[i].k.offset as nat, size, x, v, v);
    GivesOnce(env, items[j].data, items[j].k.offset as nat, size, x, w, w);
    OneGiver(env, items, size, x, i, j);
    GivesOnce(env, items[i].data, items[i].k.offset as nat, size, x, v, w);
  }

  lemma {:induction false} GivesOnce(env: Env, d: seq<u8>, fo: nat, size: nat, x: nat, v: u8, w: u8)
    requires Gives(env, d, fo, size, x, v) && Gives(env, d, fo, size, x, w)
    ensures v == w && (IsInline(d) || IsRegular(d))
  {
    hide Expanded, UnLe;
  }
}
