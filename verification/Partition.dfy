/** partitionLeaves (extent_multilevel.go): greedy packing of records into leaves. */
module Partitions {

  /** Half-open range of record indices. */
  datatype Span = Span(start: nat, end: nat)

  /** The sum of the sizes i..j. */
  function Total(n: seq<nat>, i: nat, j: nat): nat
    requires i <= j <= |n|
    decreases j - i
  {
    if i == j then 0 else Total(n, i, j - 1) + n[j-1]
  }

  /** The spans cut i..len into consecutive non-empty pieces. */
  ghost predicate Tiles(rs: seq<Span>, i: nat, len: nat) {
    if rs == [] then i == len
    else rs[0].start == i && i < rs[0].end <= len && Tiles(rs[1..], rs[0].end, len)
  }

  /** A piece fits; a single record is let through whatever its size. */
  predicate PieceFits(n: seq<nat>, s: Span, cap: int)
    requires s.start < s.end <= |n|
  {
    s.end == s.start + 1 || Total(n, s.start, s.end) <= cap
  }

  ghost predicate AllFit(n: seq<nat>, rs: seq<Span>, cap: int) {
    forall i :: 0 <= i < |rs| ==> rs[i].start < rs[i].end <= |n| && PieceFits(n, rs[i], cap)
  }

  /** Where the greedy piece that begins at start ends, having reached i. */
  function Fill(n: seq<nat>, start: nat, i: nat, cap: int): (e: nat)
    requires start <= i <= |n|
    ensures i <= e <= |n|
    decreases |n| - i
  {
    if i == |n| || (Total(n, start, i) + n[i] > cap && i > start) then i else Fill(n, start, i + 1, cap)
  }

  function Greedy(n: seq<nat>, i: nat, cap: int): seq<Span>
    requires i <= |n|
    decreases |n| - i
  {
    if i == |n| then [] else
      var e := Fill(n, i, i, cap);
      if e <= i then [] else [Span(i, e)] + Greedy(n, e, cap)
  }

  // ---- the greedy piece is the longest that fits ------------------------------------------------

  lemma {:induction false} FillFits(n: seq<nat>, start: nat, i: nat, cap: int)
    requires start <= i <= |n| && start < |n| && (i <= start + 1 || Total(n, start, i) <= cap)
    ensures var e := Fill(n, start, i, cap);
            start < e && PieceFits(n, Span(start, e), cap) && (e < |n| ==> Total(n, start, e + 1) > cap)
    decreases |n| - i
  {
    if i < |n| && !(Total(n, start, i) + n[i] > cap && i > start) {
      FillFits(n, start, i + 1, cap);
    }
  }

  lemma {:induction false} TotalMono(n: seq<nat>, i: nat, i': nat, j: nat, j': nat)
    requires i <= i' <= j' <= j <= |n|
    ensures Total(n, i', j') <= Total(n, i, j)
    decreases j - i
  {
    if j' < j {
      TotalMono(n, i, i', j - 1, j');
    } else if i' < j {
      TotalMono(n, i, i', j - 1, j - 1);
    }
  }

  /** Any fitting piece that begins at i ends no later than the greedy one. */
  lemma {:induction false} FillLongest(n: seq<nat>, i: nat, e: nat, cap: int)
    requires i < e <= |n| && PieceFits(n, Span(i, e), cap)
    ensures e <= Fill(n, i, i, cap)
  {
    FillFits(n, i, i, cap);
    var f := Fill(n, i, i, cap);
    if f < e {
      TotalMono(n, i, i, e, f + 1);
    }
  }

  lemma {:induction false} GreedyTiles(n: seq<nat>, i: nat, cap: int)
    requires i <= |n|
    ensures Tiles(Greedy(n, i, cap), i, |n|) && AllFit(n, Greedy(n, i, cap), cap)
    decreases |n| - i
  {
    if i < |n| {
      FillFits(n, i, i, cap);
      GreedyTiles(n, Fill(n, i, i, cap), cap);
    }
  }

  lemma {:induction false} GreedyStep(n: seq<nat>, i: nat, cap: int)
    requires i < |n|
    ensures var e := Fill(n, i, i, cap);
            i < e <= |n| && Greedy(n, i, cap) == [Span(i, e)] + Greedy(n, e, cap)
  {
    FillFits(n, i, i, cap);
  }

  /** Starting later never needs more pieces. */
  lemma {:induction false} LaterStart(n: seq<nat>, i: nat, j: nat, cap: int)
    requires i <= j <= |n|
    ensures |Greedy(n, j, cap)| <= |Greedy(n, i, cap)|
    decreases |n| - i
  {
    if i < j < |n| {
      GreedyStep(n, i, cap);
      GreedyStep(n, j, cap);
      var e, f := Fill(n, i, i, cap), Fill(n, j, j, cap);
      FillFits(n, i, i, cap);
      if j < e {
        TotalMono(n, i, j, e, e);
        FillLongest(n, j, e, cap);
      }
      LaterStart(n, e, f, cap);
    }
  }

  /** No tiling into fitting pieces uses fewer pieces than the greedy one. */
  lemma {:induction false} GreedyLeast(n: seq<nat>, i: nat, cap: int, rs: seq<Span>)
    requires i <= |n| && Tiles(rs, i, |n|) && AllFit(n, rs, cap)
    ensures |Greedy(n, i, cap)| <= |rs|
    decreases |rs|
  {
    if rs != [] {
      var e := rs[0].end;
      assert forall k :: 0 <= k < |rs[1..]| ==> rs[1..][k] == rs[k+1];
      GreedyLeast(n, e, cap, rs[1..]);
      GreedyStep(n, i, cap);
      FillLongest(n, i, e, cap);
      LaterStart(n, e, Fill(n, i, i, cap), cap);
    }
  }

  // ---- more records never need fewer leaves -------------------------------------------------------

  /** s is t at the strictly increasing positions f. */
  ghost predicate Embeds(s: seq<nat>, t: seq<nat>, f: seq<nat>) {
    && |f| == |s|
    && (forall k :: 0 <= k < |f| ==> f[k] < |t| && t[f[k]] == s[k])
    && (forall k, l :: 0 <= k < l < |f| ==> f[k] < f[l])
  }

  /** The first position at or after k that f sends to e or beyond. */
  ghost function Crossing(f: seq<nat>, k: nat, e: nat): (r: nat)
    requires k <= |f|
    ensures k <= r <= |f| && (r < |f| ==> f[r] >= e) && forall i :: k <= i < r ==> f[i] < e
    decreases |f| - k
  {
    if k == |f| || f[k] >= e then k else Crossing(f, k + 1, e)
  }

  lemma {:induction false} EmbedTotal(s: seq<nat>, t: seq<nat>, f: seq<nat>, k: nat, k': nat, j: nat, e: nat)
    requires Embeds(s, t, f) && k <= k' <= |s| && j <= e <= |t|
    requires forall i :: k <= i < k' ==> j <= f[i] < e
    ensures Total(s, k, k') <= Total(t, j, e)
    decreases k' - k
  {
    if k < k' {
      var m := f[k'-1];
      assert forall i :: k <= i < k' - 1 ==> f[i] < m;
      EmbedTotal(s, t, f, k, k' - 1, j, m);
      TotalMono(t, j, j, e, m + 1);
    }
  }

  lemma {:induction false} EmbedLeast(s: seq<nat>, t: seq<nat>, f: seq<nat>, k: nat, j: nat, cap: int)
    requires Embeds(s, t, f) && k <= |s| && j <= |t| && (k < |s| ==> j <= f[k])
    ensures |Greedy(s, k, cap)| <= |Greedy(t, j, cap)|
    decreases |t| - j
  {
    if k < |s| {
      GreedyStep(t, j, cap);
      FillFits(t, j, j, cap);
      var e := Fill(t, j, j, cap);
      var k' := Crossing(f, k, e);
      EmbedLeast(s, t, f, k', e, cap);
      if k < k' {
        InSpan(f, k, k', j, e);
        EmbedTotal(s, t, f, k, k', j, e);
        GreedyStep(s, k, cap);
        FillLongest(s, k, k', cap);
        LaterStart(s, k', Fill(s, k, k, cap), cap);
      }
    }
  }

  lemma {:induction false} InSpan(f: seq<nat>, k: nat, k': nat, j: nat, e: nat)
    requires k < k' <= |f| && j <= f[k] && (forall i :: k <= i < k' ==> f[i] < e)
    requires forall a, b :: 0 <= a < b < |f| ==> f[a] < f[b]
    ensures forall i :: k <= i < k' ==> j <= f[i] < e
    ensures e == j + 1 ==> k' == k + 1
  {
    forall i | k <= i < k' ensures j <= f[i] < e {
      assert i == k || f[k] < f[i];
    }
    if k + 1 < k' {
      assert f[k] < f[k+1];
    }
  }

  /** Adding sizes anywhere in the sequence never lowers the number of greedy pieces. */
  lemma {:induction false} MoreRecords(s: seq<nat>, t: seq<nat>, f: seq<nat>, cap: int)
    requires Embeds(s, t, f)
    ensures |Greedy(s, 0, cap)| <= |Greedy(t, 0, cap)|
  {
    EmbedLeast(s, t, f, 0, 0, cap);
  }

  /** partitionLeaves: the records are cut into consecutive leaves that fit, and no other such cut
      uses fewer leaves. */
  method PartitionLeaves(n: seq<nat>, cap: int) returns (ranges: seq<Span>)
    ensures ranges == Greedy(n, 0, cap)
    ensures Tiles(ranges, 0, |n|) && AllFit(n, ranges, cap)
    ensures forall rs: seq<Span> :: Tiles(rs, 0, |n|) && AllFit(n, rs, cap) ==> |ranges| <= |rs|
  {
    ranges := [];
    var i := 0;
    while i < |n|
      invariant i <= |n| && Greedy(n, 0, cap) == ranges + Greedy(n, i, cap)
    {
      var used, start := 0, i;
      FillFits(n, i, i, cap);
      while i < |n|
        invariant start <= i <= |n| && used == Total(n, start, i)
                  && Fill(n, start, start, cap) == Fill(n, start, i, cap)
      {
        if used + n[i] > cap && i > start {
          break;
        }
        used := used + n[i];
        i := i + 1;
      }
      GreedyStep(n, start, cap);
      ranges := ranges + [Span(start, i)];
    }
    GreedyTiles(n, 0, cap);
    forall rs: seq<Span> | Tiles(rs, 0, |n|) && AllFit(n, rs, cap) ensures |ranges| <= |rs| {
      GreedyLeast(n, 0, cap, rs);
    }
  }
}
