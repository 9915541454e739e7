/** The multi-device reader (multidev.go, superblock.go): every chunk profile, reads that span stripes
    and chunks, and the fall-back from one mirror to the next. */
module Raid {
  import opened Keys
  import opened Division
  import opened StripeMap

  /** A member device: its bytes, and whether reads from it fail. */
  datatype Device = Device(bytes: seq<u8>, failed: bool)
  datatype Stripe = Stripe(devID: nat, offset: nat)
  datatype Profile = Single | Dup | Raid1 | Raid0 | Raid5 | Raid6 | Raid10 | Other
  datatype Chunk = Chunk(logStart: nat, size: nat, profile: Profile, stripeLen: nat, subStripes: nat,
                         stripes: seq<Stripe>, localStripe: int)
  datatype Pool = Pool(chunks: seq<Chunk>, devices: map<nat, Device>, primary: Device, partOff: nat)

  /** lookupChunk: the first chunk that contains the address, or the number of chunks. */
  function LookupChunk(chunks: seq<Chunk>, l: nat): (i: nat)
    ensures i <= |chunks|
    ensures i < |chunks| ==> Covers(chunks[i], l)
    ensures forall j :: 0 <= j < i ==> !Covers(chunks[j], l)
  {
    if chunks == [] || Covers(chunks[0], l) then 0
    else
      var q := LookupChunk(chunks[1..], l);
      assert forall j :: 0 < j < q + 1 ==> chunks[j] == chunks[1..][j - 1];
      q + 1
  }

  predicate Covers(c: Chunk, l: nat) {
    c.logStart <= l < c.logStart + c.size
  }

  function SubStripes(c: Chunk): nat {
    if c.subStripes < 2 then 2 else c.subStripes
  }

  function Parity(p: Profile): nat {
    match p
    case Raid5 => 1
    case Raid6 => 2
    case _ => 0
  }

  predicate IsMirror(p: Profile) {
    p == Single || p == Dup || p == Raid1
  }

  predicate IsStriped(p: Profile) {
    p == Raid0 || p == Raid5 || p == Raid6
  }

  // ---- pieces of a read ---------------------------------------------------------------------------

  ghost predicate SameLookup(pool: Pool, l: nat, n: nat) {
    forall a :: l <= a < l + n ==> LookupChunk(pool.chunks, a) == LookupChunk(pool.chunks, l)
  }

  /** What is left of the stripe that holds l. */
  function Remain(c: Chunk, l: nat): (r: nat)
    requires c.logStart <= l
    ensures 0 < r <= STRIPE
  {
    STRIPE - Mod(l - c.logStart, STRIPE)
  }

  // ---- device reads -----------------------------------------------------------------------------

  predicate Readable(d: Device, a: nat, n: nat) {
    !d.failed && a + n <= |d.bytes|
  }

  /** ReadAt of one device into buf[p..p+n]. */
  method ReadDevice(d: Device, buf: array<u8>, p: nat, n: nat, a: nat) returns (ok: bool)
    requires p + n <= buf.Length
    modifies buf
    ensures ok == Readable(d, a, n)
    ensures ok ==> forall k :: p <= k < p + n ==> buf[k] == d.bytes[a + (k - p)]
    ensures forall k :: 0 <= k < buf.Length && !(p <= k < p + n) ==> buf[k] == old(buf[k])
  {
    if d.failed || a + n > |d.bytes| {
      return false;
    }
    var i := p;
    while i < p + n
      invariant p <= i <= p + n
      invariant forall k :: p <= k < i ==> buf[k] == d.bytes[a + (k - p)]
      invariant forall k :: 0 <= k < buf.Length && !(p <= k < i) ==> buf[k] == old(buf[k])
    {
      buf[i] := d.bytes[a + (i - p)];
      i := i + 1;
    }
    ok := true;
  }

  lemma {:induction false} LookupCovers(chunks: seq<Chunk>, l: nat)
    ensures LookupChunk(chunks, l) < |chunks| ==> Covers(chunks[LookupChunk(chunks, l)], l)
  {
  }

  // ---- how many device reads ---------------------------------------------------------------------

  /** How many devices one piece of a read may try. */
  function Tries(c: Chunk): nat {
    if IsMirror(c.profile) then |c.stripes| else if c.profile == Raid10 then SubStripes(c) else 1
  }

  /** The device reads a read of n bytes may take: the pieces it falls into, each with its tries. */
  function Cost(pool: Pool, l: nat, n: nat): nat
    decreases n
  {
    var i := LookupChunk(pool.chunks, l);
    if i == |pool.chunks| then 1
    else
      var c := pool.chunks[i];
      if !IsMirror(c.profile) && n > Remain(c, l) then Tries(c) + Cost(pool, l + Remain(c, l), n - Remain(c, l))
      else Tries(c)
  }

  /** Inside one striped chunk a read takes one try per stripe it touches. */
  lemma {:induction false} CostOfStriped(pool: Pool, l: nat, n: nat, k: nat)
    requires k < |pool.chunks| && LookupChunk(pool.chunks, l) == k && SameLookup(pool, l, n) && n > 0
    requires !IsMirror(pool.chunks[k].profile)
    ensures pool.chunks[k].logStart <= l
    ensures Cost(pool, l, n) ==
            Tries(pool.chunks[k]) * (Div(Mod(l - pool.chunks[k].logStart, STRIPE) + n - 1, STRIPE) + 1)
    decreases n
  {
    hide Div, Mod, LookupChunk, Tries;
    LookupCovers(pool.chunks, l);
    var c := pool.chunks[k];
    var x := l - c.logStart;
    var r := Remain(c, l);
    if n > r {
      assert LookupChunk(pool.chunks, l + r) == k;
      CostOfStriped(pool, l + r, n - r, k);
      NextStripe(x, r);
      MoreStripes(Mod(x, STRIPE), n, r);
      var m := Div(n - r - 1, STRIPE) + 1;
      assert Tries(c) + Tries(c) * m == Tries(c) * (m + 1);
    } else {
      DivUnique(Mod(x, STRIPE) + n - 1, 0, Mod(x, STRIPE) + n - 1, STRIPE);
    }
  }

  lemma {:induction false} NextStripe(x: nat, r: nat)
    requires r == STRIPE - Mod(x, STRIPE)
    ensures Mod(x + r, STRIPE) == 0
  {
    hide Div, Mod;
    DivMod(x, STRIPE);
    DivUnique(x + r, Div(x, STRIPE) + 1, 0, STRIPE);
  }

  lemma {:induction false} MoreStripes(o: nat, n: nat, r: nat)
    requires o < STRIPE && r == STRIPE - o && r < n
    ensures Div(o + n - 1, STRIPE) == Div(n - r - 1, STRIPE) + 1
  {
    hide Div, Mod;
    DivMod(n - r - 1, STRIPE);
    DivUnique(o + n - 1, Div(n - r - 1, STRIPE) + 1, Mod(n - r - 1, STRIPE), STRIPE);
  }

  // ---- when a read succeeds ------------------------------------------------------------------------

  predicate CanRead(pool: Pool, s: Stripe, pos: nat, n: nat) {
    s.devID in pool.devices && Readable(pool.devices[s.devID], pool.partOff + s.offset + pos, n)
  }

  /** Some stripe can deliver the m bytes at l, which lie in one stripe of a striped chunk. */
  ghost predicate PieceAvailable(pool: Pool, c: Chunk, l: nat, m: nat)
    requires c.logStart <= l
  {
    var x := l - c.logStart;
    if IsMirror(c.profile) then exists j :: 0 <= j < |c.stripes| && CanRead(pool, c.stripes[j], x, m)
    else if c.stripeLen != STRIPE then false
    else if IsStriped(c.profile) then
      Parity(c.profile) < |c.stripes| &&
      var q := Striped(|c.stripes|, Parity(c.profile), x); CanRead(pool, c.stripes[q.idx], q.pos, m)
    else
      c.profile == Raid10 && SubStripes(c) <= |c.stripes| &&
      var q := Mirrored(|c.stripes|, SubStripes(c), x);
      exists j :: q.idx <= j < q.idx + SubStripes(c) && CanRead(pool, c.stripes[j], q.pos, m)
  }

  /** Every piece of the read has a stripe that can deliver it. */
  ghost predicate Available(pool: Pool, l: nat, n: nat)
    decreases n
  {
    var i := LookupChunk(pool.chunks, l);
    if i == |pool.chunks| then Readable(pool.primary, pool.partOff + l, n)
    else
      var c := pool.chunks[i];
      if !IsMirror(c.profile) && n > Remain(c, l) then
        PieceAvailable(pool, c, l, Remain(c, l)) && Available(pool, l + Remain(c, l), n - Remain(c, l))
      else PieceAvailable(pool, c, l, n)
  }

  lemma {:induction false} StripedUnfolds(pool: Pool, k: nat, l: nat, n: nat)
    requires k < |pool.chunks| && k == LookupChunk(pool.chunks, l) && !IsMirror(pool.chunks[k].profile)
    ensures pool.chunks[k].logStart <= l
    ensures var c := pool.chunks[k];
            var r := Remain(c, l);
            if n > r then
              && (Available(pool, l, n) <==> PieceAvailable(pool, c, l, r) && Available(pool, l + r, n - r))
              && Cost(pool, l, n) == Tries(c) + Cost(pool, l + r, n - r)
            else (Available(pool, l, n) <==> PieceAvailable(pool, c, l, n)) && Cost(pool, l, n) == Tries(c)
  {
    hide PieceAvailable, LookupChunk, Tries, Remain;
    LookupCovers(pool.chunks, l);
  }

  // ---- what is read -----------------------------------------------------------------------------

  /** A byte of a member device or of the primary one. */
  datatype Spot = OnDevice(devID: nat, a: nat) | OnPrimary(a: nat)

  function ByteAt(pool: Pool, sp: Spot): u8 {
    match sp
    case OnDevice(d, a) => if d in pool.devices && a < |pool.devices[d].bytes| then pool.devices[d].bytes[a] else 0
    case OnPrimary(a) => if a < |pool.primary.bytes| then pool.primary.bytes[a] else 0
  }

  /** The first stripe from j to end that can deliver n bytes at pos, or end. */
  function FirstReadable(pool: Pool, c: Chunk, pos: nat, n: nat, j: nat, end: nat): (r: nat)
    requires j <= end <= |c.stripes|
    ensures j <= r <= end && (r < end ==> CanRead(pool, c.stripes[r], pos, n))
    ensures forall i :: j <= i < r ==> !CanRead(pool, c.stripes[i], pos, n)
    decreases end - j
  {
    if j == end || CanRead(pool, c.stripes[j], pos, n) then j else FirstReadable(pool, c, pos, n, j + 1, end)
  }

  /** The stripe that serves a piece of m bytes at l, and where: of the mirrors, the local one if it can be
      read, else the first that can; of the legs of a mirror group, the first that can. */
  function Choice(pool: Pool, c: Chunk, l: nat, m: nat): Place
    requires c.logStart <= l
  {
    var x := l - c.logStart;
    if IsMirror(c.profile) then
      if 0 <= c.localStripe < |c.stripes| && CanRead(pool, c.stripes[c.localStripe], x, m) then Place(c.localStripe, x)
      else Place(FirstReadable(pool, c, x, m, 0, |c.stripes|), x)
    else if IsStriped(c.profile) && Parity(c.profile) < |c.stripes| then Striped(|c.stripes|, Parity(c.profile), x)
    else if c.profile == Raid10 && SubStripes(c) <= |c.stripes| then
      var q := Mirrored(|c.stripes|, SubStripes(c), x);
      Place(FirstReadable(pool, c, q.pos, m, q.idx, q.idx + SubStripes(c)), q.pos)
    else Place(0, x)
  }

  lemma {:induction false} ChoiceReadable(pool: Pool, c: Chunk, l: nat, m: nat)
    requires c.logStart <= l && PieceAvailable(pool, c, l, m)
    ensures var q := Choice(pool, c, l, m); q.idx < |c.stripes| && CanRead(pool, c.stripes[q.idx], q.pos, m)
  {
    hide CanRead, Striped, Mirrored;
  }

  /** The place of position pos of stripe j of a chunk. */
  function StripeSpot(pool: Pool, c: Chunk, j: nat, pos: nat): Spot
    requires j < |c.stripes|
  {
    OnDevice(c.stripes[j].devID, pool.partOff + c.stripes[j].offset + pos)
  }

  /** How long the first piece of a read is: all of it in a mirrored chunk, else up to the end of the stripe. */
  function Piece(c: Chunk, l: nat, n: nat): (m: nat)
    requires c.logStart <= l
    ensures m <= n
  {
    if IsMirror(c.profile) || n <= Remain(c, l) then n else Remain(c, l)
  }

  /** The place from which a read of n bytes at l takes its byte i. */
  ghost function ReadSpot(pool: Pool, l: nat, n: nat, i: nat): Spot
    requires Available(pool, l, n) && i < n
    decreases n
  {
    var k := LookupChunk(pool.chunks, l);
    if k == |pool.chunks| then OnPrimary(pool.partOff + l + i)
    else
      var c := pool.chunks[k];
      var m := Piece(c, l, n);
      if i >= m then ReadSpot(pool, l + m, n - m, i - m)
      else
        ChoiceReadable(pool, c, l, m);
        var q := Choice(pool, c, l, m);
        StripeSpot(pool, c, q.idx, q.pos + i)
  }

  /** b from p on is what a read at l takes from the devices. */
  ghost predicate Fetched(pool: Pool, l: nat, b: seq<u8>, p: nat)
    requires p <= |b|
  {
    && Available(pool, l, |b| - p)
    && forall k :: p <= k < |b| ==> b[k] == ByteAt(pool, ReadSpot(pool, l, |b| - p, k - p))
  }

  /** b from p to q was read from one stripe. */
  ghost predicate FromStripe(pool: Pool, c: Chunk, j: nat, pos: nat, b: seq<u8>, p: nat, q: nat)
    requires j < |c.stripes| && p <= q <= |b|
  {
    forall k :: p <= k < q ==> b[k] == ByteAt(pool, StripeSpot(pool, c, j, pos + (k - p)))
  }

  /** One piece from the stripe of choice, and the rest fetched behind it. */
  lemma {:induction false} PieceFetched(pool: Pool, k: nat, l: nat, b: seq<u8>, p: nat, q: nat)
    requires k < |pool.chunks| && k == LookupChunk(pool.chunks, l) && pool.chunks[k].logStart <= l && p <= q <= |b|
    requires q == p + Piece(pool.chunks[k], l, |b| - p) && PieceAvailable(pool, pool.chunks[k], l, q - p)
    requires var h := Choice(pool, pool.chunks[k], l, q - p);
             h.idx < |pool.chunks[k].stripes| && FromStripe(pool, pool.chunks[k], h.idx, h.pos, b, p, q)
    requires q < |b| ==> Fetched(pool, l + (q - p), b, q)
    ensures Fetched(pool, l, b, p)
  {
    hide LookupChunk, PieceAvailable, Choice, ByteAt, Remain;
    var n, m := |b| - p, q - p;
    forall i | p <= i < |b|
      ensures b[i] == ByteAt(pool, ReadSpot(pool, l, n, i - p))
    {
      if i >= q {
        assert ReadSpot(pool, l, n, i - p) == ReadSpot(pool, l + m, n - m, i - q);
      }
    }
  }

  // ---- the reader -----------------------------------------------------------------------------------

  /** readSingleOrMirror: the local stripe first, then the others in order. */
  method ReadSingleOrMirror(pool: Pool, k: nat, buf: array<u8>, p: nat, l: nat) returns (ok: bool, tried: nat)
    requires k < |pool.chunks| && k == LookupChunk(pool.chunks, l) && p <= buf.Length
             && IsMirror(pool.chunks[k].profile)
    modifies buf
    ensures forall i :: 0 <= i < p ==> buf[i] == old(buf[i])
    ensures ok <==> Available(pool, l, buf.Length - p)
    ensures ok ==> Fetched(pool, l, buf[..], p)
    ensures tried <= Tries(pool.chunks[k])
  {
    hide LookupChunk, Fetched;
    LookupCovers(pool.chunks, l);
    var c := pool.chunks[k];
    var inChunk, n := l - c.logStart, buf.Length - p;
    ok, tried := false, 0;
    if 0 <= c.localStripe < |c.stripes| {
      var s := c.stripes[c.localStripe];
      if s.devID in pool.devices {
        ok := ReadDevice(pool.devices[s.devID], buf, p, n, pool.partOff + s.offset + inChunk);
        tried := 1;
        if ok {
          MirrorFetched(pool, k, l, c.localStripe, buf[..], p);
          return;
        }
      }
    }
    var i := 0;
    while i < |c.stripes|
      invariant 0 <= i <= |c.stripes|
      invariant forall k :: 0 <= k < p ==> buf[k] == old(buf[k])
      invariant forall j :: 0 <= j < |c.stripes| && (j < i || j == c.localStripe) ==>
                !CanRead(pool, c.stripes[j], inChunk, n)
      invariant tried <= if 0 <= c.localStripe < |c.stripes| && i <= c.localStripe then i + 1 else i
    {
      var s := c.stripes[i];
      if i != c.localStripe && s.devID in pool.devices {
        ok := ReadDevice(pool.devices[s.devID], buf, p, n, pool.partOff + s.offset + inChunk);
        tried := tried + 1;
        if ok {
          MirrorFetched(pool, k, l, i, buf[..], p);
          return;
        }
      }
      i := i + 1;
    }
    ok := false;
  }

  /** What a device delivered for a piece is the piece of its stripe. */
  lemma {:induction false} StripeRead(pool: Pool, c: Chunk, j: nat, pos: nat, b: seq<u8>, p: nat, q: nat)
    requires j < |c.stripes| && p <= q <= |b| && CanRead(pool, c.stripes[j], pos, q - p)
    requires var s := c.stripes[j];
             forall i :: p <= i < q ==> b[i] == pool.devices[s.devID].bytes[pool.partOff + s.offset + pos + (i - p)]
    ensures FromStripe(pool, c, j, pos, b, p, q)
  {
  }

  lemma {:induction false} MirrorFetched(pool: Pool, k: nat, l: nat, j: nat, b: seq<u8>, p: nat)
    requires k < |pool.chunks| && k == LookupChunk(pool.chunks, l) && p <= |b| && IsMirror(pool.chunks[k].profile)
    requires pool.chunks[k].logStart <= l && j < |pool.chunks[k].stripes|
    requires var c, x := pool.chunks[k], l - pool.chunks[k].logStart;
             && CanRead(pool, c.stripes[j], x, |b| - p)
             && (j == c.localStripe || forall i :: 0 <= i < |c.stripes| && (i < j || i == c.localStripe) ==>
                                         !CanRead(pool, c.stripes[i], x, |b| - p))
             && forall i :: p <= i < |b| ==>
                  b[i] == pool.devices[c.stripes[j].devID].bytes[pool.partOff + c.stripes[j].offset + x + (i - p)]
    ensures Fetched(pool, l, b, p)
  {
    hide LookupChunk, Fetched, CanRead, ByteAt;
    var c, x, n := pool.chunks[k], l - pool.chunks[k].logStart, |b| - p;
    StripeRead(pool, c, j, x, b, p, |b|);
    if j != c.localStripe {
      FirstIs(pool, c, x, n, 0, |c.stripes|, j);
    }
    PieceFetched(pool, k, l, b, p, |b|);
  }

  lemma {:induction false} FirstIs(pool: Pool, c: Chunk, pos: nat, n: nat, from: nat, end: nat, j: nat)
    requires from <= j < end <= |c.stripes| && CanRead(pool, c.stripes[j], pos, n)
    requires forall i :: from <= i < j ==> !CanRead(pool, c.stripes[i], pos, n)
    ensures FirstReadable(pool, c, pos, n, from, end) == j
  {
    hide FirstReadable, CanRead;
    var r := FirstReadable(pool, c, pos, n, from, end);
  }

  /** readStriped: RAID0, RAID5 and RAID6, one stripe at a time. */
  method ReadStriped(pool: Pool, k: nat, buf: array<u8>, p: nat, l: nat) returns (ok: bool, tried: nat)
    requires k < |pool.chunks| && k == LookupChunk(pool.chunks, l) && p <= buf.Length
             && IsStriped(pool.chunks[k].profile)
    modifies buf
    ensures forall i :: 0 <= i < p ==> buf[i] == old(buf[i])
    ensures ok <==> Available(pool, l, buf.Length - p)
    ensures ok ==> Fetched(pool, l, buf[..], p)
    ensures tried <= Cost(pool, l, buf.Length - p)
    decreases buf.Length - p, 0
  {
    hide LookupChunk, Striped, Div, Mod, Available, Cost, Remain, Fetched, FromStripe;
    StripedUnfolds(pool, k, l, buf.Length - p);
    var c := pool.chunks[k];
    ok, tried := false, 0;
    if c.stripeLen != STRIPE || |c.stripes| <= Parity(c.profile) {
      return;
    }
    var place := Striped(|c.stripes|, Parity(c.profile), l - c.logStart);
    var s := c.stripes[place.idx];
    if s.devID !in pool.devices {
      return;
    }
    var remain := Remain(c, l);
    var q := if buf.Length - p <= remain then buf.Length else p + remain;
    ok := ReadDevice(pool.devices[s.devID], buf, p, q - p, pool.partOff + s.offset + place.pos);
    tried := 1;
    if !ok {
      return;
    }
    ghost var b := buf[..];
    StripeRead(pool, c, place.idx, place.pos, b, p, q);
    if q < buf.Length {
      var more;
      ok, more := ReadAt(pool, buf, q, l + remain);
      tried := tried + more;
    }
    if ok {
      StripeKept(pool, c, place.idx, place.pos, b, buf[..], p, q);
      PieceFetched(pool, k, l, buf[..], p, q);
    }
  }

  lemma {:induction false} StripeKept(pool: Pool, c: Chunk, j: nat, pos: nat, b: seq<u8>, b': seq<u8>, p: nat, q: nat)
    requires j < |c.stripes| && p <= q <= |b| == |b'| && FromStripe(pool, c, j, pos, b, p, q)
    requires forall i :: 0 <= i < q ==> b'[i] == b[i]
    ensures FromStripe(pool, c, j, pos, b', p, q)
  {
    hide ByteAt;
  }

  /** readRAID10: the legs of the mirror group in turn, one stripe at a time. */
  method ReadRaid10(pool: Pool, k: nat, buf: array<u8>, p: nat, l: nat) returns (ok: bool, tried: nat)
    requires k < |pool.chunks| && k == LookupChunk(pool.chunks, l) && p <= buf.Length
             && pool.chunks[k].profile == Raid10
    modifies buf
    ensures forall i :: 0 <= i < p ==> buf[i] == old(buf[i])
    ensures ok <==> Available(pool, l, buf.Length - p)
    ensures ok ==> Fetched(pool, l, buf[..], p)
    ensures tried <= Cost(pool, l, buf.Length - p)
    decreases buf.Length - p, 0
  {
    hide LookupChunk, Mirrored, Div, Mod, Available, Cost, Remain, Fetched, FromStripe, FirstReadable, ByteAt;
    StripedUnfolds(pool, k, l, buf.Length - p);
    var c := pool.chunks[k];
    var sub := SubStripes(c);
    ok, tried := false, 0;
    if c.stripeLen != STRIPE || |c.stripes| < sub {
      return;
    }
    var place := Mirrored(|c.stripes|, sub, l - c.logStart);
    var remain := Remain(c, l);
    var q := if buf.Length - p <= remain then buf.Length else p + remain;
    var leg := 0;
    while leg < sub
      invariant 0 <= leg <= sub && tried <= leg
      invariant forall j :: place.idx <= j < place.idx + leg ==> !CanRead(pool, c.stripes[j], place.pos, q - p)
      invariant forall i :: 0 <= i < p ==> buf[i] == old(buf[i])
    {
      var j := place.idx + leg;
      var s := c.stripes[j];
      if s.devID in pool.devices {
        ok := ReadDevice(pool.devices[s.devID], buf, p, q - p, pool.partOff + s.offset + place.pos);
        tried := tried + 1;
        if ok {
          ghost var b := buf[..];
          StripeRead(pool, c, j, place.pos, b, p, q);
          FirstIs(pool, c, place.pos, q - p, place.idx, place.idx + sub, j);
          if q < buf.Length {
            var more;
            ok, more := ReadAt(pool, buf, q, l + remain);
            tried := tried + more;
          }
          if ok {
            StripeKept(pool, c, j, place.pos, b, buf[..], p, q);
            PieceFetched(pool, k, l, buf[..], p, q);
          }
          return;
        }
      }
      leg := leg + 1;
    }
    ok := false;
  }

  lemma {:induction false} PrimaryFetched(pool: Pool, l: nat, b: seq<u8>, p: nat)
    requires LookupChunk(pool.chunks, l) == |pool.chunks| && p <= |b|
             && Readable(pool.primary, pool.partOff + l, |b| - p)
    requires forall i :: p <= i < |b| ==> b[i] == pool.primary.bytes[pool.partOff + l + (i - p)]
    ensures Fetched(pool, l, b, p)
  {
    hide LookupChunk;
  }

  /** ReadAt: route by chunk and profile; unmapped addresses go to the primary device. Every byte delivered
      is the one at the place that ReadSpot names. */
  method ReadAt(pool: Pool, buf: array<u8>, p: nat, l: nat) returns (ok: bool, tried: nat)
    requires p <= buf.Length
    modifies buf
    ensures forall i :: 0 <= i < p ==> buf[i] == old(buf[i])
    ensures ok <==> Available(pool, l, buf.Length - p)
    ensures ok ==> Fetched(pool, l, buf[..], p)
    ensures tried <= Cost(pool, l, buf.Length - p)
    decreases buf.Length - p, 1
  {
    hide LookupChunk, Remain, Fetched, PieceAvailable;
    var k := LookupChunk(pool.chunks, l);
    if k == |pool.chunks| {
      ok := ReadDevice(pool.primary, buf, p, buf.Length - p, pool.partOff + l);
      if ok {
        PrimaryFetched(pool, l, buf[..], p);
      }
      return ok, 1;
    }
    var c := pool.chunks[k];
    if IsMirror(c.profile) {
      ok, tried := ReadSingleOrMirror(pool, k, buf, p, l);
    } else if IsStriped(c.profile) {
      ok, tried := ReadStriped(pool, k, buf, p, l);
    } else if c.profile == Raid10 {
      ok, tried := ReadRaid10(pool, k, buf, p, l);
    } else {
      OtherUnavailable(pool, k, l, buf.Length - p);
      ok, tried := false, 0;
    }
  }

  lemma {:induction false} OtherUnavailable(pool: Pool, k: nat, l: nat, n: nat)
    requires k < |pool.chunks| && k == LookupChunk(pool.chunks, l)
    requires var f := pool.chunks[k].profile; !IsMirror(f) && !IsStriped(f) && f != Raid10
    ensures !Available(pool, l, n)
  {
    hide LookupChunk;
    LookupCovers(pool.chunks, l);
  }
}
