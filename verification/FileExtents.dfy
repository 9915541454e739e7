/** File content as its extent items describe it (read.go): every item overlays some bytes of the file,
    and bytes no item covers are zero. */
module FileExtents {
  import opened Keys
  import opened Bytes
  import opened Trees

  const MAX_RAM: nat := 0x2_0000
  /** No device or file of more than 2^62 bytes is modelled. */
  const MAX_SIZE: nat := 0x4000_0000_0000_0000

  /** What reading depends on besides the items: the bytes at logical addresses, which addresses a chunk
      maps, the size that bounds allocations, and the decompressor. */
  datatype Env = Env(image: seq<u8>, mapped: nat -> bool, dev: nat, codec: (seq<u8>, u8, nat) -> Option<seq<u8>>)

  ghost predicate Sane(env: Env) {
    |env.image| <= MAX_SIZE && env.dev <= MAX_SIZE
  }

  datatype Ext =
    | Skip
    | Inline(comp: u8, ram: nat, raw: seq<u8>)
    | Regular(comp: u8, ram: nat, disk: nat, diskNum: nat, ext: nat, num: nat)

  /** An EXTENT_DATA payload. */
  function ParseExt(d: seq<u8>): Ext {
    if |d| <= 0x14 then Skip
    else if d[0x14] == 0 then Inline(d[0x10], UnLe(d[0x08..0x10]), d[0x15..])
    else if d[0x14] == 1 && |d| >= 0x35 then
      Regular(d[0x10], UnLe(d[0x08..0x10]), UnLe(d[0x15..0x1D]), UnLe(d[0x1D..0x25]), UnLe(d[0x25..0x2D]),
              UnLe(d[0x2D..0x35]))
    else Skip
  }

  function Min(a: nat, b: nat): nat {
    if a < b then a else b
  }

  function ClampRam(ram: nat, most: nat): nat {
    Min(Min(ram, MAX_RAM), most)
  }

  function Decompress(env: Env, raw: seq<u8>, comp: u8, ram: nat): Option<seq<u8>> {
    if comp == 0 then Some(raw) else env.codec(raw, comp, ram)
  }

  function ReadImage(env: Env, a: nat, n: nat): Option<seq<u8>> {
    if n == 0 then Some([]) else if a + n <= |env.image| then Some(env.image[a..a + n]) else None
  }

  /** What one item does to the content of a file. */
  datatype Effect = Quiet | Fail | Write(p: nat, data: seq<u8>)

  /** The decompressed bytes an extent contributes, n of them. */
  function Unpacked(env: Env, e: Ext, n: nat): Option<seq<u8>>
    requires e.Regular?
  {
    if e.diskNum > env.dev || !env.mapped(e.disk) then None
    else match ReadImage(env, e.disk, e.diskNum)
         case None => None
         case Some(packed) =>
           match Decompress(env, packed, e.comp, ClampRam(e.ram, (e.ext + n) % U64_LIMIT))
           case None => None
           case Some(x) => if e.ext + n <= |x| then Some(x[e.ext..e.ext + n]) else None
  }

  function PlainAddr(e: Ext, skip: nat): nat
    requires e.Regular?
  {
    (e.disk + e.ext + skip) % U64_LIMIT
  }

  function EffectOf(env: Env, it: Item, size: nat): Effect {
    var fo := it.k.offset as nat;
    if fo >= size then Quiet
    else match ParseExt(it.data)
         case Skip => Quiet
         case Inline(comp, ram, raw) =>
           (match Decompress(env, raw, comp, ClampRam(ram, size - fo))
            case None => Fail
            case Some(x) => Write(fo, x[..Min(|x|, size - fo)]))
         case Regular(comp, _, disk, _, _, num) =>
           var e := ParseExt(it.data);
           var n := Min(num, size - fo);
           if disk == 0 then Quiet
           else if comp == 0 then
             if !env.mapped(PlainAddr(e, 0)) then Fail
             else match ReadImage(env, PlainAddr(e, 0), n)
                  case None => Fail
                  case Some(x) => Write(fo, x)
           else match Unpacked(env, e, n)
                case None => Fail
                case Some(x) => Write(fo, x)
  }

  lemma {:induction false} EffectFits(env: Env, it: Item, size: nat)
    ensures var o := EffectOf(env, it, size);
            o.Write? ==> o.p == it.k.offset as nat && o.p + |o.data| <= size
  {
    hide ParseExt, Decompress, ClampRam;
  }

  /** The content after the first n items, on top of zeros. */
  ghost function Content(env: Env, items: seq<Item>, size: nat): (c: seq<u8>)
    ensures |c| == size
  {
    if items == [] then Zeros(size)
    else
      var c, o := Content(env, items[..|items| - 1], size), EffectOf(env, items[|items| - 1], size);
      EffectFits(env, items[|items| - 1], size);
      if o.Write? then Put(c, o.p, o.data) else c
  }

  /** No item fails to be read. */
  ghost predicate Legible(env: Env, items: seq<Item>, size: nat) {
    forall i :: 0 <= i < |items| ==> !EffectOf(env, items[i], size).Fail?
  }

  // ---- the overlap check ---------------------------------------------------------------------------

  predicate Counts(it: Item, limit: nat) {
    it.k.offset as nat < limit && ParseExt(it.data).Regular?
  }

  function EndOf(it: Item): nat
    requires ParseExt(it.data).Regular?
  {
    it.k.offset as nat + ParseExt(it.data).num
  }

  /** Where the last regular extent of the list ends. */
  function PrevEnd(items: seq<Item>, limit: nat): nat {
    if items == [] then 0
    else if Counts(items[|items| - 1], limit) then EndOf(items[|items| - 1])
    else PrevEnd(items[..|items| - 1], limit)
  }

  /** The regular extents that start below the limit do not overlap, and none wraps around. */
  ghost predicate Apart(items: seq<Item>, limit: nat) {
    forall i :: 0 <= i < |items| && Counts(items[i], limit) ==>
      EndOf(items[i]) < U64_LIMIT && PrevEnd(items[..i], limit) <= items[i].k.offset as nat
  }

  /** Items in file order, as the tree delivers them. */
  ghost predicate InOrder(items: seq<Item>) {
    forall i, j :: 0 <= i < j < |items| ==> items[i].k.offset < items[j].k.offset
  }

  /** In file order the check is what it should be: pairwise, regular extents do not overlap. */
  lemma {:induction false} ApartPairwise(items: seq<Item>, limit: nat)
    requires InOrder(items)
    ensures Apart(items, limit) <==>
            && (forall i :: 0 <= i < |items| && Counts(items[i], limit) ==> EndOf(items[i]) < U64_LIMIT)
            && (forall i, j :: 0 <= i < j < |items| && Counts(items[i], limit) && Counts(items[j], limit) ==>
                  EndOf(items[i]) <= items[j].k.offset as nat)
  {
    hide ParseExt;
    if Apart(items, limit) {
      forall i, j | 0 <= i < j < |items| && Counts(items[i], limit) && Counts(items[j], limit)
        ensures EndOf(items[i]) <= items[j].k.offset as nat
      {
        ApartReach(items, limit, i, j);
      }
    } else {
      var j :| 0 <= j < |items| && Counts(items[j], limit) &&
               !(EndOf(items[j]) < U64_LIMIT && PrevEnd(items[..j], limit) <= items[j].k.offset as nat);
      PrevEndWitness(items[..j], limit);
    }
  }

  lemma {:induction false} PrevEndWitness(items: seq<Item>, limit: nat)
    ensures PrevEnd(items, limit) == 0 ||
            exists i :: 0 <= i < |items| && Counts(items[i], limit) && EndOf(items[i]) == PrevEnd(items, limit)
  {
    hide ParseExt;
    if items != [] && !Counts(items[|items| - 1], limit) {
      PrevEndWitness(items[..|items| - 1], limit);
    }
  }

  /** The end of an earlier extent is no larger than the recorded previous end. */
  lemma {:induction false} ApartReach(items: seq<Item>, limit: nat, i: nat, j: nat)
    requires InOrder(items) && Apart(items, limit) && i < j <= |items| && Counts(items[i], limit)
    ensures EndOf(items[i]) <= PrevEnd(items[..j], limit)
    ensures j < |items| && Counts(items[j], limit) ==> EndOf(items[i]) <= items[j].k.offset as nat
    decreases j
  {
    hide ParseExt;
    assert items[..j][..j - 1] == items[..j - 1];
    if i < j - 1 {
      ApartReach(items, limit, i, j - 1);
    }
  }
}
