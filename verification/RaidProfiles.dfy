/** Where each profile keeps a byte (multidev.go), in plain numbers: x is the offset into the chunk, in 64 KiB
    stripes. */
module RaidProfiles {
  import opened Division
  import opened StripeMap
  import opened Raid
  import opened RaidExact

  /** SINGLE, DUP and RAID1 keep every byte at its own offset of every stripe. */
  lemma {:induction false} MirrorPlaces(c: Chunk, l: nat, j: nat, pos: nat)
    requires Covers(c, l) && (c.profile == Single || c.profile == Dup || c.profile == Raid1)
    ensures Records(c, l, j, pos) <==> j < |c.stripes| && pos == l - c.logStart
  {
  }

  /** RAID0 deals the 64 KiB stripes out in turn. */
  lemma {:induction false} Raid0Places(c: Chunk, l: nat, j: nat, pos: nat)
    requires Covers(c, l) && c.profile == Raid0 && |c.stripes| > 0
    ensures var x, n := l - c.logStart, |c.stripes|;
            Records(c, l, j, pos) <==>
            j == Mod(Div(x, 0x1_0000), n) && pos == Div(Div(x, 0x1_0000), n) * 0x1_0000 + Mod(x, 0x1_0000)
  {
    hide Div, Mod;
  }

  /** RAID5 has one parity column; the data columns of row r are rotated by r. */
  lemma {:induction false} Raid5Places(c: Chunk, l: nat, j: nat, pos: nat)
    requires Covers(c, l) && c.profile == Raid5 && |c.stripes| > 1
    ensures var x, n := l - c.logStart, |c.stripes|;
            var row, col := Div(Div(x, 0x1_0000), n - 1), Mod(Div(x, 0x1_0000), n - 1);
            Records(c, l, j, pos) <==> j == Mod(row + col, n) && pos == row * 0x1_0000 + Mod(x, 0x1_0000)
  {
    hide Div, Mod, ParityStart;
    var x, n := l - c.logStart, |c.stripes|;
    RotatesByRow(n, 1, Div(Div(x, STRIPE), n - 1), Mod(Div(x, STRIPE), n - 1));
  }

  /** RAID6 has two. */
  lemma {:induction false} Raid6Places(c: Chunk, l: nat, j: nat, pos: nat)
    requires Covers(c, l) && c.profile == Raid6 && |c.stripes| > 2
    ensures var x, n := l - c.logStart, |c.stripes|;
            var row, col := Div(Div(x, 0x1_0000), n - 2), Mod(Div(x, 0x1_0000), n - 2);
            Records(c, l, j, pos) <==> j == Mod(row + col, n) && pos == row * 0x1_0000 + Mod(x, 0x1_0000)
  {
    hide Div, Mod, ParityStart;
    var x, n := l - c.logStart, |c.stripes|;
    RotatesByRow(n, 2, Div(Div(x, STRIPE), n - 2), Mod(Div(x, STRIPE), n - 2));
  }

  /** RAID10 deals the stripes out to groups of sub stripes, at least two, that mirror each other. */
  lemma {:induction false} Raid10Places(c: Chunk, l: nat, sub: nat, j: nat, pos: nat)
    requires Covers(c, l) && c.profile == Raid10 && sub == (if c.subStripes < 2 then 2 else c.subStripes) <= |c.stripes|
    ensures var x := l - c.logStart; var groups := Div(|c.stripes|, sub);
            && groups > 0
            && var row, group := Div(Div(x, 0x1_0000), groups), Mod(Div(x, 0x1_0000), groups);
               (Records(c, l, j, pos) <==>
                group * sub <= j < group * sub + sub && pos == row * 0x1_0000 + Mod(x, 0x1_0000))
  {
    hide Div, Mod;
    GroupsPositive(|c.stripes|, sub);
    assert Mirrored(|c.stripes|, sub, l - c.logStart).idx + sub <= |c.stripes|;
  }

  /** Other profiles, and striped ones with too few stripes, record nothing. */
  lemma {:induction false} NoPlaces(c: Chunk, l: nat, j: nat, pos: nat)
    requires match c.profile
             case Raid0 => |c.stripes| == 0
             case Raid5 => |c.stripes| <= 1
             case Raid6 => |c.stripes| <= 2
             case Raid10 => |c.stripes| < (if c.subStripes < 2 then 2 else c.subStripes)
             case Other => true
             case _ => false
    ensures !Records(c, l, j, pos)
  {
  }

  /** A piece of a read is available exactly when a place that records its first byte can deliver it all, and
      the chunk is mirrored or has 64 KiB stripes. */
  lemma {:induction false} PieceAvailableIff(pool: Pool, c: Chunk, l: nat, m: nat)
    requires Covers(c, l)
    ensures PieceAvailable(pool, c, l, m) <==>
            && (c.profile == Single || c.profile == Dup || c.profile == Raid1 || c.stripeLen == 0x1_0000)
            && exists j: nat, pos: nat :: Records(c, l, j, pos) && CanRead(pool, c.stripes[j], pos, m)
  {
  }

  /** The copy that serves a piece: in a mirrored chunk the local one if it can be read, else the first place
      that keeps the byte and can deliver the piece. */
  lemma {:induction false} ChosenCopy(pool: Pool, c: Chunk, l: nat, m: nat)
    requires Covers(c, l) && PieceAvailable(pool, c, l, m)
    ensures var q, x := Choice(pool, c, l, m), l - c.logStart;
            var mirrored := c.profile == Single || c.profile == Dup || c.profile == Raid1;
            var local := mirrored && 0 <= c.localStripe < |c.stripes| && CanRead(pool, c.stripes[c.localStripe], x, m);
            && Records(c, l, q.idx, q.pos) && CanRead(pool, c.stripes[q.idx], q.pos, m)
            && if local then q.idx == c.localStripe
               else forall j: nat :: j < q.idx && Records(c, l, j, q.pos) ==> !CanRead(pool, c.stripes[j], q.pos, m)
  {
    hide CanRead, Striped, Mirrored;
    ChoiceReadable(pool, c, l, m);
  }
}
