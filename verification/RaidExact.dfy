/** When the multi-device reader (multidev.go) delivers the logical bytes: on every content of the devices
    exactly when each place it reads is one that records the address asked for. */
module RaidExact {
  import opened Keys
  import opened Division
  import opened StripeMap
  import opened Raid

  // ---- where a layout records its addresses ---------------------------------------------------------

  /** The stripes that may serve position x of a chunk, and where. */
  ghost predicate Serving(c: Chunk, x: nat, j: nat, pos: nat) {
    j < |c.stripes| && (
      || (IsMirror(c.profile) && pos == x)
      || (IsStriped(c.profile) && Parity(c.profile) < |c.stripes| &&
          Striped(|c.stripes|, Parity(c.profile), x) == Place(j, pos))
      || (c.profile == Raid10 && SubStripes(c) <= |c.stripes| &&
          var p := Mirrored(|c.stripes|, SubStripes(c), x); p.idx <= j < p.idx + SubStripes(c) && pos == p.pos))
  }

  /** The chunk records address l at position pos of stripe j. */
  ghost predicate Records(c: Chunk, l: nat, j: nat, pos: nat) {
    Covers(c, l) && Serving(c, l - c.logStart, j, pos)
  }

  /** The layout records address l at the place: as data of some chunk, or of the primary device when no chunk
      has the address. It depends on the chunk map only. */
  ghost predicate RecordsAt(pool: Pool, sp: Spot, l: nat) {
    match sp
    case OnPrimary(a) => LookupChunk(pool.chunks, l) == |pool.chunks| && a == pool.partOff + l
    case OnDevice(_, _) =>
      exists k: nat, j: nat, pos: nat ::
        k < |pool.chunks| && Records(pool.chunks[k], l, j, pos) && StripeSpot(pool, pool.chunks[k], j, pos) == sp
  }

  predicate Within(pool: Pool, sp: Spot) {
    match sp
    case OnDevice(d, a) => d in pool.devices && a < |pool.devices[d].bytes|
    case OnPrimary(a) => a < |pool.primary.bytes|
  }

  /** The pool holds the logical bytes img: every place that records an address has its byte. */
  ghost predicate Faithful(pool: Pool, img: nat -> u8) {
    forall sp: Spot, l: nat :: RecordsAt(pool, sp, l) && Within(pool, sp) ==> ByteAt(pool, sp) == img(l)
  }

  /** No place records two addresses. */
  ghost predicate OneEach(pool: Pool) {
    forall sp: Spot, l: nat, m: nat :: RecordsAt(pool, sp, l) && RecordsAt(pool, sp, m) ==> l == m
  }

  /** The same chunks on devices of the same sizes, of which the same fail; the bytes may differ. */
  ghost predicate SameLayout(pool: Pool, pool': Pool) {
    && pool'.chunks == pool.chunks && pool'.partOff == pool.partOff && pool'.devices.Keys == pool.devices.Keys
    && (forall d :: d in pool.devices ==> SameSize(pool.devices[d], pool'.devices[d]))
    && SameSize(pool.primary, pool'.primary)
  }

  predicate SameSize(d: Device, d': Device) {
    |d'.bytes| == |d.bytes| && d'.failed == d.failed
  }

  lemma {:induction false} RecordsSame(pool: Pool, pool': Pool, sp: Spot, l: nat)
    requires pool'.chunks == pool.chunks && pool'.partOff == pool.partOff
    ensures RecordsAt(pool', sp, l) <==> RecordsAt(pool, sp, l)
  {
    hide Striped, Mirrored, LookupChunk, Covers;
    if sp.OnDevice? {
      if RecordsAt(pool, sp, l) {
        var k: nat, j: nat, pos: nat :|
          k < |pool.chunks| && Records(pool.chunks[k], l, j, pos) && StripeSpot(pool, pool.chunks[k], j, pos) == sp;
        assert StripeSpot(pool', pool'.chunks[k], j, pos) == sp;
      }
      if RecordsAt(pool', sp, l) {
        var k: nat, j: nat, pos: nat :|
          k < |pool'.chunks| && Records(pool'.chunks[k], l, j, pos) && StripeSpot(pool', pool'.chunks[k], j, pos) == sp;
        assert StripeSpot(pool, pool.chunks[k], j, pos) == sp;
      }
    }
  }

  // ---- the places read depend on the layout only -------------------------------------------------------

  lemma {:induction false} CanReadSame(pool: Pool, pool': Pool, s: Stripe, pos: nat, n: nat)
    requires SameLayout(pool, pool')
    ensures CanRead(pool', s, pos, n) <==> CanRead(pool, s, pos, n)
  {
    if s.devID in pool.devices {
      assert SameSize(pool.devices[s.devID], pool'.devices[s.devID]);
    }
  }

  lemma {:induction false} FirstSame(pool: Pool, pool': Pool, c: Chunk, pos: nat, n: nat, j: nat, end: nat)
    requires SameLayout(pool, pool') && j <= end <= |c.stripes|
    ensures FirstReadable(pool', c, pos, n, j, end) == FirstReadable(pool, c, pos, n, j, end)
    decreases end - j
  {
    hide CanRead, SameLayout;
    if j < end {
      CanReadSame(pool, pool', c.stripes[j], pos, n);
      if !CanRead(pool, c.stripes[j], pos, n) {
        FirstSame(pool, pool', c, pos, n, j + 1, end);
      }
    }
  }

  lemma {:induction false} PieceSame(pool: Pool, pool': Pool, c: Chunk, l: nat, m: nat)
    requires SameLayout(pool, pool') && c.logStart <= l
    ensures PieceAvailable(pool', c, l, m) <==> PieceAvailable(pool, c, l, m)
    ensures Choice(pool', c, l, m) == Choice(pool, c, l, m)
  {
    hide CanRead, SameLayout, FirstReadable, Striped, Mirrored, Div, Mod;
    forall s: Stripe, pos: nat
      ensures CanRead(pool', s, pos, m) <==> CanRead(pool, s, pos, m)
    {
      CanReadSame(pool, pool', s, pos, m);
    }
    if IsMirror(c.profile) {
      FirstSame(pool, pool', c, l - c.logStart, m, 0, |c.stripes|);
    } else if c.profile == Raid10 && SubStripes(c) <= |c.stripes| {
      var q := Mirrored(|c.stripes|, SubStripes(c), l - c.logStart);
      FirstSame(pool, pool', c, q.pos, m, q.idx, q.idx + SubStripes(c));
    }
  }

  lemma {:induction false} AvailableSame(pool: Pool, pool': Pool, l: nat, n: nat)
    requires SameLayout(pool, pool')
    ensures Available(pool', l, n) <==> Available(pool, l, n)
    decreases n
  {
    hide LookupChunk, PieceAvailable, Remain, Choice;
    var k := LookupChunk(pool.chunks, l);
    LookupCovers(pool.chunks, l);
    if k < |pool.chunks| {
      var c := pool.chunks[k];
      var r := Remain(c, l);
      PieceSame(pool, pool', c, l, n);
      PieceSame(pool, pool', c, l, r);
      if !IsMirror(c.profile) && n > r {
        AvailableSame(pool, pool', l + r, n - r);
      }
    }
  }

  lemma {:induction false} ReadSpotSame(pool: Pool, pool': Pool, l: nat, n: nat, i: nat)
    requires SameLayout(pool, pool') && Available(pool, l, n) && Available(pool', l, n) && i < n
    ensures ReadSpot(pool', l, n, i) == ReadSpot(pool, l, n, i)
    decreases n
  {
    hide LookupChunk, PieceAvailable, Remain, Choice;
    var k := LookupChunk(pool.chunks, l);
    LookupCovers(pool.chunks, l);
    if k < |pool.chunks| {
      var c := pool.chunks[k];
      var m := Piece(c, l, n);
      PieceSame(pool, pool', c, l, m);
      if i >= m {
        ReadSpotSame(pool, pool', l + m, n - m, i - m);
      }
    }
  }

  lemma {:induction false} ReadSpotWithin(pool: Pool, l: nat, n: nat, i: nat)
    requires Available(pool, l, n) && i < n
    ensures Within(pool, ReadSpot(pool, l, n, i))
    decreases n
  {
    hide LookupChunk, PieceAvailable, Remain, Choice;
    var k := LookupChunk(pool.chunks, l);
    LookupCovers(pool.chunks, l);
    if k < |pool.chunks| {
      var c := pool.chunks[k];
      var m := Piece(c, l, n);
      if i >= m {
        ReadSpotWithin(pool, l + m, n - m, i - m);
      } else {
        ChoiceReadable(pool, c, l, m);
      }
    }
  }

  // ---- the exact condition ------------------------------------------------------------------------------

  /** Each place read records the address asked for. */
  ghost predicate AllOwn(pool: Pool, l: nat, n: nat)
    requires Available(pool, l, n)
  {
    forall i: nat :: i < n ==> RecordsAt(pool, ReadSpot(pool, l, n, i), l + i)
  }

  /** A read of n bytes at l takes the logical bytes. */
  ghost predicate Delivers(pool: Pool, img: nat -> u8, l: nat, n: nat)
    requires Available(pool, l, n)
  {
    forall i: nat :: i < n ==> ByteAt(pool, ReadSpot(pool, l, n, i)) == img(l + i)
  }

  /** Whatever the devices hold for whatever logical bytes, the read delivers these. */
  ghost predicate AlwaysRight(pool: Pool, l: nat, n: nat) {
    forall pool': Pool, img: nat -> u8 ::
      SameLayout(pool, pool') && Faithful(pool', img) ==> Available(pool', l, n) && Delivers(pool', img, l, n)
  }

  lemma {:induction false} OwnDelivers(pool: Pool, img: nat -> u8, l: nat, n: nat)
    requires Available(pool, l, n) && AllOwn(pool, l, n) && Faithful(pool, img)
    ensures Delivers(pool, img, l, n)
  {
    hide Available, ReadSpot, RecordsAt, ByteAt, Within;
    forall i: nat | i < n
      ensures ByteAt(pool, ReadSpot(pool, l, n, i)) == img(l + i)
    {
      ReadSpotWithin(pool, l, n, i);
      assert RecordsAt(pool, ReadSpot(pool, l, n, i), l + i);
    }
  }

  lemma {:induction false} OwnSame(pool: Pool, pool': Pool, l: nat, n: nat)
    requires SameLayout(pool, pool') && Available(pool, l, n) && Available(pool', l, n) && AllOwn(pool, l, n)
    ensures AllOwn(pool', l, n)
  {
    hide Available, ReadSpot, RecordsAt;
    forall i: nat | i < n
      ensures RecordsAt(pool', ReadSpot(pool', l, n, i), l + i)
    {
      ReadSpotSame(pool, pool', l, n, i);
      RecordsSame(pool, pool', ReadSpot(pool, l, n, i), l + i);
    }
  }

  /** One on every place that records address y, zero elsewhere. */
  ghost function Mark(pool: Pool, sp: Spot, y: nat): u8 {
    if RecordsAt(pool, sp, y) then 1 else 0
  }

  /** The layout with exactly the places of address y marked. */
  ghost function Marked(pool: Pool, y: nat): Pool {
    Pool(pool.chunks,
         map d | d in pool.devices ::
           Device(seq(|pool.devices[d].bytes|, a requires a >= 0 => Mark(pool, OnDevice(d, a), y)),
                  pool.devices[d].failed),
         Device(seq(|pool.primary.bytes|, a requires a >= 0 => Mark(pool, OnPrimary(a), y)), pool.primary.failed),
         pool.partOff)
  }

  lemma {:induction false} MarkedByte(pool: Pool, y: nat, sp: Spot)
    requires Within(pool, sp)
    ensures SameLayout(pool, Marked(pool, y)) && ByteAt(Marked(pool, y), sp) == Mark(pool, sp, y)
  {
    hide Mark;
  }

  /** When no place records two addresses, the marked pool holds the image that is one at y only. */
  lemma {:induction false} MarkedFaithful(pool: Pool, y: nat, img: nat -> u8)
    requires OneEach(pool) && forall l :: img(l) == if l == y then 1 else 0
    ensures Faithful(Marked(pool, y), img)
  {
    hide RecordsAt, ByteAt, Within;
    var m := Marked(pool, y);
    forall sp: Spot, l: nat | RecordsAt(m, sp, l) && Within(m, sp)
      ensures ByteAt(m, sp) == img(l)
    {
      RecordsSame(pool, m, sp, l);
      MarkedWithin(pool, y, sp);
      MarkedByte(pool, y, sp);
    }
  }

  lemma {:induction false} MarkedWithin(pool: Pool, y: nat, sp: Spot)
    ensures Within(Marked(pool, y), sp) <==> Within(pool, sp)
    ensures SameLayout(pool, Marked(pool, y))
  {
    hide Mark;
  }

  /** A read delivers the logical bytes on every content of a layout exactly when each place it reads records
      the address asked for. */
  lemma {:induction false} ReadRightIff(pool: Pool, l: nat, n: nat)
    requires Available(pool, l, n) && OneEach(pool)
    ensures AlwaysRight(pool, l, n) <==> AllOwn(pool, l, n)
  {
    hide Available, ReadSpot, RecordsAt, SameLayout, Faithful, OneEach, ByteAt, Within, Marked;
    if AllOwn(pool, l, n) {
      forall pool': Pool, img: nat -> u8 | SameLayout(pool, pool') && Faithful(pool', img)
        ensures Available(pool', l, n) && Delivers(pool', img, l, n)
      {
        AvailableSame(pool, pool', l, n);
        OwnSame(pool, pool', l, n);
        OwnDelivers(pool', img, l, n);
      }
    }
    if AlwaysRight(pool, l, n) {
      forall i: nat | i < n
        ensures RecordsAt(pool, ReadSpot(pool, l, n, i), l + i)
      {
        OwnIfRight(pool, l, n, i);
      }
    }
  }

  lemma {:induction false} OwnIfRight(pool: Pool, l: nat, n: nat, i: nat)
    requires Available(pool, l, n) && OneEach(pool) && AlwaysRight(pool, l, n) && i < n
    ensures RecordsAt(pool, ReadSpot(pool, l, n, i), l + i)
  {
    hide Available, ReadSpot, RecordsAt, SameLayout, Faithful, OneEach, ByteAt, Within, Marked;
    var y := l + i;
    var m, img := Marked(pool, y), (a: nat) => if a == y then 1 as u8 else 0;
    var sp := ReadSpot(pool, l, n, i);
    MarkedWithin(pool, y, sp);
    MarkedFaithful(pool, y, img);
    AvailableSame(pool, m, l, n);
    ReadSpotSame(pool, m, l, n, i);
    ReadSpotWithin(pool, l, n, i);
    MarkedByte(pool, y, sp);
    assert Delivers(m, img, l, n);
    assert ByteAt(m, ReadSpot(m, l, n, i)) == img(l + i);
  }

  // ---- buffers ----------------------------------------------------------------------------------------------

  /** The bytes of b from p on are the logical bytes at l. */
  ghost predicate Holds(b: seq<u8>, p: nat, img: nat -> u8, l: nat) {
    p <= |b| && forall k :: p <= k < |b| ==> b[k] == img(l + (k - p))
  }

  /** What a read of a faithful pool fetches from places that record the addresses is the logical bytes. */
  lemma {:induction false} FetchedHolds(pool: Pool, img: nat -> u8, l: nat, b: seq<u8>, p: nat)
    requires p <= |b| && Fetched(pool, l, b, p) && AllOwn(pool, l, |b| - p) && Faithful(pool, img)
    ensures Holds(b, p, img, l)
  {
    hide Available, ReadSpot, AllOwn, Faithful, ByteAt;
    OwnDelivers(pool, img, l, |b| - p);
  }

  // ---- reads that stay in their chunks ------------------------------------------------------------------------

  /** A read of n bytes at l leaves no chunk except at the end of a stripe of a striped chunk. */
  ghost predicate Smooth(pool: Pool, l: nat, n: nat)
    decreases n
  {
    var i := LookupChunk(pool.chunks, l);
    if i < |pool.chunks| && !IsMirror(pool.chunks[i].profile) && n > Remain(pool.chunks[i], l) then
      var r := Remain(pool.chunks[i], l);
      SameLookup(pool, l, r) && Smooth(pool, l + r, n - r)
    else SameLookup(pool, l, n)
  }

  /** Reads inside one chunk are smooth. */
  lemma {:induction false} OneChunkSmooth(pool: Pool, l: nat, n: nat)
    requires SameLookup(pool, l, n)
    ensures Smooth(pool, l, n)
    decreases n
  {
    var i := LookupChunk(pool.chunks, l);
    if i < |pool.chunks| && !IsMirror(pool.chunks[i].profile) && n > Remain(pool.chunks[i], l) {
      var r := Remain(pool.chunks[i], l);
      assert LookupChunk(pool.chunks, l + r) == i;
      OneChunkSmooth(pool, l + r, n - r);
    }
  }

  ghost predicate ServingAt(c: Chunk, x: nat, j: nat, pos: nat, i: nat) {
    Serving(c, x + i, j, pos + i)
  }

  /** The n bytes from position x of the chunk on are served by stripe j from position pos on. */
  ghost predicate RunServing(c: Chunk, x: nat, n: nat, j: nat, pos: nat) {
    j < |c.stripes| && forall i: nat :: i < n ==> ServingAt(c, x, j, pos, i)
  }

  /** Mirrors serve every run at its own offset. */
  lemma {:induction false} MirrorServes(c: Chunk, l: nat, n: nat, j: nat)
    requires IsMirror(c.profile) && c.logStart <= l && j < |c.stripes|
    ensures RunServing(c, l - c.logStart, n, j, l - c.logStart)
  {
  }

  lemma {:induction false} StripedServes(c: Chunk, l: nat, n: nat)
    requires IsStriped(c.profile) && c.logStart <= l && Parity(c.profile) < |c.stripes| && n <= Remain(c, l)
    ensures var q := Striped(|c.stripes|, Parity(c.profile), l - c.logStart); RunServing(c, l - c.logStart, n, q.idx,
          q.pos)
  {
    hide Div, Mod, Striped;
    var x, q := l - c.logStart, Striped(|c.stripes|, Parity(c.profile), l - c.logStart);
    forall i: nat | i < n
      ensures ServingAt(c, x, q.idx, q.pos, i)
    {
      StripedRun(|c.stripes|, Parity(c.profile), l - c.logStart, i);
    }
  }

  lemma {:induction false} LegServes(c: Chunk, l: nat, n: nat, leg: nat)
    requires c.profile == Raid10 && c.logStart <= l && SubStripes(c) <= |c.stripes| && n <= Remain(c, l)
             && leg < SubStripes(c)
    ensures var q := Mirrored(|c.stripes|, SubStripes(c), l - c.logStart); RunServing(c, l - c.logStart, n,
          q.idx + leg, q.pos)
  {
    hide Div, Mod, Mirrored;
    var x, j := l - c.logStart, Mirrored(|c.stripes|, SubStripes(c), l - c.logStart).idx + leg;
    var q := Mirrored(|c.stripes|, SubStripes(c), x);
    forall i: nat | i < n
      ensures ServingAt(c, x, j, q.pos, i)
    {
      MirroredRun(|c.stripes|, SubStripes(c), l - c.logStart, i);
    }
  }

  /** A piece that stays in its chunk is read from places that record it. */
  lemma {:induction false} PieceOwn(pool: Pool, k: nat, l: nat, m: nat, i: nat)
    requires k < |pool.chunks| && LookupChunk(pool.chunks, l) == k && pool.chunks[k].logStart <= l && i < m
    requires SameLookup(pool, l, m) && PieceAvailable(pool, pool.chunks[k], l, m)
    requires IsMirror(pool.chunks[k].profile) || m <= Remain(pool.chunks[k], l)
    ensures var c := pool.chunks[k];
            var q := Choice(pool, c, l, m);
            q.idx < |c.stripes| && RecordsAt(pool, StripeSpot(pool, c, q.idx, q.pos + i), l + i)
  {
    hide LookupChunk, CanRead, Striped, Mirrored, Div, Mod, Serving, RunServing, Remain, FirstReadable;
    var c := pool.chunks[k];
    var q := Choice(pool, c, l, m);
    ChoiceReadable(pool, c, l, m);
    LookupCovers(pool.chunks, l + i);
    if IsMirror(c.profile) {
      MirrorServes(c, l, m, q.idx);
    } else if IsStriped(c.profile) {
      StripedServes(c, l, m);
    } else {
      LegServes(c, l, m, q.idx - Mirrored(|c.stripes|, SubStripes(c), l - c.logStart).idx);
    }
    RunRecords(c, l, m, q.idx, q.pos, i);
    assert Records(c, l + i, q.idx, q.pos + i);
  }

  lemma {:induction false} RunRecords(c: Chunk, l: nat, m: nat, j: nat, pos: nat, i: nat)
    requires c.logStart <= l && i < m && Covers(c, l + i) && RunServing(c, l - c.logStart, m, j, pos)
    ensures Records(c, l + i, j, pos + i)
  {
    hide Serving;
    assert ServingAt(c, l - c.logStart, j, pos, i);
    assert l + i - c.logStart == l - c.logStart + i;
  }

  /** A smooth read is right on every content. */
  lemma {:induction false} SmoothOwn(pool: Pool, l: nat, n: nat)
    requires Available(pool, l, n) && Smooth(pool, l, n)
    ensures AllOwn(pool, l, n)
  {
    forall i: nat | i < n
      ensures RecordsAt(pool, ReadSpot(pool, l, n, i), l + i)
    {
      SmoothOwnAt(pool, l, n, i);
    }
  }

  lemma {:induction false} SmoothOwnAt(pool: Pool, l: nat, n: nat, i: nat)
    requires Available(pool, l, n) && Smooth(pool, l, n) && i < n
    ensures RecordsAt(pool, ReadSpot(pool, l, n, i), l + i)
    decreases n
  {
    hide LookupChunk, PieceAvailable, Remain, Choice;
    var k := LookupChunk(pool.chunks, l);
    LookupCovers(pool.chunks, l);
    if k < |pool.chunks| {
      var c := pool.chunks[k];
      var m := Piece(c, l, n);
      if i >= m {
        SmoothOwnAt(pool, l + m, n - m, i - m);
      } else {
        PieceOwn(pool, k, l, m, i);
      }
    } else {
      assert LookupChunk(pool.chunks, l + i) == LookupChunk(pool.chunks, l);
    }
  }

  // ---- a read across the end of a mirrored chunk -----------------------------------------------------------

  /** Two one-byte chunks on one device, not next to each other there. */
  function SplitPool(): Pool {
    Pool([Chunk(0, 1, Single, STRIPE, 1, [Stripe(1, 0)], 0), Chunk(1, 1, Single, STRIPE, 1, [Stripe(1, 3)], 0)],
         map[1 := Device([10, 20, 0, 30], false)], Device([], false), 0)
  }

  predicate SplitPlace(sp: Spot, l: nat) {
    if l < 2 then sp == OnDevice(1, 3 * l) else sp == OnPrimary(l)
  }

  lemma {:induction false} SplitRecords(sp: Spot, l: nat)
    ensures RecordsAt(SplitPool(), sp, l) <==> SplitPlace(sp, l)
  {
    hide Striped, Mirrored;
    var pool := SplitPool();
    assert LookupChunk(pool.chunks, l) == if l < 2 then l else 2;
    if l < 2 {
      assert Records(pool.chunks[l], l, 0, 0);
      assert StripeSpot(pool, pool.chunks[l], 0, 0) == OnDevice(1, 3 * l);
    }
  }

  /** A two-byte read at address 0 succeeds and takes the byte behind the first chunk on the device in place of
      the second chunk's. */
  lemma {:induction false} CrossingExample(img: nat -> u8)
    requires img(0) == 10 && img(1) == 30 && forall l :: l > 1 ==> img(l) == 0
    ensures Available(SplitPool(), 0, 2) && OneEach(SplitPool()) && Faithful(SplitPool(), img)
    ensures !AllOwn(SplitPool(), 0, 2) && ByteAt(SplitPool(), ReadSpot(SplitPool(), 0, 2, 1)) == 20 != img(1)
  {
    var pool := SplitPool();
    forall sp: Spot, l: nat
      ensures RecordsAt(pool, sp, l) <==> SplitPlace(sp, l)
    {
      SplitRecords(sp, l);
    }
    hide RecordsAt;
    assert LookupChunk(pool.chunks, 0) == 0;
    assert CanRead(pool, pool.chunks[0].stripes[0], 0, 2);
    assert ReadSpot(pool, 0, 2, 1) == OnDevice(1, 1);
  }
}
