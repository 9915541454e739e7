/** The free-extent list (alloc.go, and rangeFree of resize.go). The abstract value of a
    list is, for every byte, how many extents cover it. */
module FreeSpace {

  datatype Extent = Extent(start: nat, size: nat) {
    function End(): nat { start + size }
  }

  function Hit(start: nat, size: nat, b: nat): nat {
    if start <= b < start + size then 1 else 0
  }

  /** How many extents of the list cover byte b. */
  function FreeCnt(s: seq<Extent>, b: nat): nat {
    if s == [] then 0 else Hit(s[0].start, s[0].size, b) + FreeCnt(s[1..], b)
  }

  /** The set of free bytes. */
  ghost predicate IsFree(s: seq<Extent>, b: nat) {
    exists i :: 0 <= i < |s| && s[i].start <= b < s[i].End()
  }

  ghost predicate Positive(s: seq<Extent>) {
    forall i :: 0 <= i < |s| ==> s[i].size > 0
  }

  /** No byte is free twice. */
  ghost predicate Disjoint(s: seq<Extent>) {
    forall b: nat :: FreeCnt(s, b) <= 1
  }

  /** Sorted and with a gap between neighbours: the normal form coalesce aims at. */
  ghost predicate Canonical(s: seq<Extent>) {
    && Positive(s)
    && forall i, j :: 0 <= i < j < |s| ==> s[i].End() < s[j].start
  }

  // ---- the counting function -------------------------------------------------

  lemma {:induction false} CntConcat(s: seq<Extent>, t: seq<Extent>, b: nat)
    ensures FreeCnt(s + t, b) == FreeCnt(s, b) + FreeCnt(t, b)
  {
    if s == [] {
      assert s + t == t;
    } else {
      CntConcat(s[1..], t, b);
      assert (s + t)[1..] == s[1..] + t;
    }
  }

  lemma {:induction false} CntOne(e: Extent, b: nat)
    ensures FreeCnt([e], b) == Hit(e.start, e.size, b)
  {
    assert [e][1..] == [];
  }

  lemma {:induction false} CntSplit(s: seq<Extent>, i: nat, b: nat)
    requires i < |s|
    ensures FreeCnt(s, b) == FreeCnt(s[..i], b) + Hit(s[i].start, s[i].size, b) + FreeCnt(s[i+1..], b)
  {
    assert s == s[..i] + ([s[i]] + s[i+1..]);
    CntConcat(s[..i], [s[i]] + s[i+1..], b);
    CntConcat([s[i]], s[i+1..], b);
    CntOne(s[i], b);
  }

  /** A byte is free exactly when its count is positive. */
  lemma {:induction false} CntIsFree(s: seq<Extent>, b: nat)
    ensures FreeCnt(s, b) > 0 <==> IsFree(s, b)
  {
    if s != [] {
      CntIsFree(s[1..], b);
      if IsFree(s, b) {
        var i :| 0 <= i < |s| && s[i].start <= b < s[i].End();
        if i > 0 {
          assert s[1..][i-1] == s[i];
        }
      }
      if IsFree(s[1..], b) {
        var i :| 0 <= i < |s[1..]| && s[1..][i].start <= b < s[1..][i].End();
        assert s[i+1] == s[1..][i];
      }
    }
  }

  lemma {:induction false} CanonicalDisjoint(s: seq<Extent>)
    requires Canonical(s)
    ensures Disjoint(s)
  {
    forall b: nat ensures FreeCnt(s, b) <= 1 {
      CanonicalCnt(s, b);
    }
  }

  lemma {:induction false} CanonicalCnt(s: seq<Extent>, b: nat)
    requires Canonical(s)
    ensures FreeCnt(s, b) <= 1
    ensures s != [] && b <= s[0].End() ==> FreeCnt(s[1..], b) == 0
  {
    if s != [] {
      CanonicalCnt(s[1..], b);
      if |s| > 1 {
        assert s[0].End() < s[1].start;
      }
    }
  }

  /** A canonical list is determined by the set of bytes it covers. */
  lemma {:induction false} CanonicalUnique(s: seq<Extent>, t: seq<Extent>)
    requires Canonical(s) && Canonical(t)
    requires forall b: nat :: FreeCnt(s, b) == FreeCnt(t, b)
    ensures s == t
  {
    FirstCovered(s);
    FirstCovered(t);
    if s != [] && t != [] {
      FirstExtent(s, t);
      FirstExtent(t, s);
      forall b: nat ensures FreeCnt(s[1..], b) == FreeCnt(t[1..], b) {
        assert FreeCnt(s, b) == FreeCnt(t, b);
      }
      CanonicalUnique(s[1..], t[1..]);
      assert s == [s[0]] + s[1..] && t == [t[0]] + t[1..];
    }
  }

  lemma {:induction false} FirstCovered(s: seq<Extent>)
    requires Canonical(s)
    ensures s != [] ==> FreeCnt(s, s[0].start) > 0
    ensures s == [] ==> forall b: nat :: FreeCnt(s, b) == 0
  {
  }

  lemma {:induction false} FirstCovers(s: seq<Extent>, b: nat)
    requires s != [] && s[0].start <= b < s[0].End()
    ensures FreeCnt(s, b) > 0
  {
  }

  lemma {:induction false} FirstExtent(s: seq<Extent>, t: seq<Extent>)
    requires Canonical(s) && Canonical(t) && s != [] && t != []
    requires forall b: nat :: FreeCnt(s, b) == FreeCnt(t, b)
    ensures s[0].start <= t[0].start
    ensures s[0].start == t[0].start ==> s[0].End() <= t[0].End()
  {
    BelowFirst(s, t[0].start);
    assert FreeCnt(t, t[0].start) > 0;
    CanonicalCnt(t, t[0].End());
    if s[0].start == t[0].start && s[0].End() > t[0].End() {
      FirstCovers(s, t[0].End());
      assert false;
    }
  }

  lemma {:induction false} BelowFirst(s: seq<Extent>, b: nat)
    requires Canonical(s)
    ensures FreeCnt(s, b) > 0 ==> s != [] && s[0].start <= b
  {
    if s != [] {
      BelowFirst(s[1..], b);
      if |s| > 1 {
        assert s[0].End() < s[1].start;
      }
    }
  }

  // ---- totals ------------------------------------------------------------------

  /** The sum of the sizes. */
  function TotalFree(fr: seq<Extent>): nat {
    if fr == [] then 0 else TotalFree(fr[..|fr| - 1]) + fr[|fr| - 1].size
  }

  lemma {:induction false} TotalConcat(a: seq<Extent>, b: seq<Extent>)
    ensures TotalFree(a + b) == TotalFree(a) + TotalFree(b)
  {
    if b == [] {
      assert a + b == a;
    } else {
      TotalConcat(a, b[..|b| - 1]);
      assert (a + b)[..|a + b| - 1] == a + b[..|b| - 1];
    }
  }

  /** The number of covered bytes below n, each as often as it is covered. */
  function CoverSum(s: seq<Extent>, n: nat): nat {
    if n == 0 then 0 else CoverSum(s, n - 1) + FreeCnt(s, n - 1)
  }

  lemma {:induction false} CoverSumOne(e: Extent, n: nat)
    ensures CoverSum([e], n) == if n <= e.start then 0 else if n <= e.End() then n - e.start else e.size
  {
    if n > 0 {
      CoverSumOne(e, n - 1);
      CntOne(e, n - 1);
    }
  }

  lemma {:induction false} CoverSumConcat(s: seq<Extent>, t: seq<Extent>, n: nat)
    ensures CoverSum(s + t, n) == CoverSum(s, n) + CoverSum(t, n)
  {
    if n > 0 {
      CoverSumConcat(s, t, n - 1);
      CntConcat(s, t, n - 1);
    }
  }

  lemma {:induction false} CoverSumNone(n: nat)
    ensures CoverSum([], n) == 0
  {
    if n > 0 {
      CoverSumNone(n - 1);
    }
  }

  /** Summing sizes is counting bytes. */
  lemma {:induction false} CoverSumIsTotal(s: seq<Extent>, n: nat)
    requires forall i :: 0 <= i < |s| ==> s[i].End() <= n
    ensures CoverSum(s, n) == TotalFree(s)
  {
    if s == [] {
      CoverSumNone(n);
    } else {
      var p, e := s[..|s| - 1], s[|s| - 1];
      CoverSumIsTotal(p, n);
      CoverSumConcat(p, [e], n);
      CoverSumOne(e, n);
      assert s == p + [e];
    }
  }

  lemma {:induction false} CoverSumOnce(s: seq<Extent>, n: nat)
    requires forall b: nat :: FreeCnt(s, b) <= 1
    ensures CoverSum(s, n) <= n
  {
    hide FreeCnt;
    if n > 0 {
      CoverSumOnce(s, n - 1);
    }
  }

  /** Extents from lo on that cover no byte twice cover at most the bytes from lo on. */
  lemma {:induction false} CoverSumFrom(s: seq<Extent>, lo: nat, n: nat)
    requires lo <= n && (forall b: nat :: FreeCnt(s, b) <= 1) && forall i :: 0 <= i < |s| ==> lo <= s[i].start
    ensures CoverSum(s, n) <= n - lo
    decreases n
  {
    if n == lo {
      CoverSumBelow(s, lo, n);
    } else {
      CoverSumFrom(s, lo, n - 1);
    }
  }

  lemma {:induction false} CoverSumBelow(s: seq<Extent>, lo: nat, n: nat)
    requires n <= lo && forall i :: 0 <= i < |s| ==> lo <= s[i].start
    ensures CoverSum(s, n) == 0
  {
    if n > 0 {
      CoverSumBelow(s, lo, n - 1);
      CntIsFree(s, n - 1);
    }
  }

  // ---- first fit ---------------------------------------------------------------

  datatype Grant = NoSpace | Granted(addr: nat, rest: seq<Extent>)

  /** Takes need bytes off the front of extent i. */
  function TakeFront(s: seq<Extent>, i: nat, need: nat): seq<Extent>
    requires i < |s| && s[i].size >= need
  {
    if s[i].size == need then s[..i] + s[i+1..]
    else s[i := Extent(s[i].start + need, s[i].size - need)]
  }

  /** First fit: the first extent of at least need bytes gives up its front. */
  function FirstFitFrom(s: seq<Extent>, need: nat, i: nat): Grant
    requires i <= |s|
    decreases |s| - i
  {
    if i == |s| then NoSpace
    else if s[i].size >= need then Granted(s[i].start, TakeFront(s, i, need))
    else FirstFitFrom(s, need, i + 1)
  }

  function FirstFit(s: seq<Extent>, need: nat): Grant {
    FirstFitFrom(s, need, 0)
  }

  /** The grant comes from one extent, and that extent is the first one large enough. */
  lemma {:induction false} FirstFitAt(s: seq<Extent>, need: nat, i: nat) returns (j: nat)
    requires i <= |s|
    ensures FirstFitFrom(s, need, i).NoSpace? <==> forall k :: i <= k < |s| ==> s[k].size < need
    ensures FirstFitFrom(s, need, i).Granted? ==>
      && i <= j < |s| && s[j].size >= need && (forall k :: i <= k < j ==> s[k].size < need)
      && FirstFitFrom(s, need, i) == Granted(s[j].start, TakeFront(s, j, need))
    decreases |s| - i
  {
    j := i;
    if i < |s| && s[i].size < need {
      j := FirstFitAt(s, need, i + 1);
    }
  }

  lemma {:induction false} TakeFrontCnt(s: seq<Extent>, i: nat, need: nat, b: nat)
    requires i < |s| && s[i].size >= need
    ensures FreeCnt(s, b) == FreeCnt(TakeFront(s, i, need), b) + Hit(s[i].start, need, b)
  {
    CntSplit(s, i, b);
    if s[i].size == need {
      CntConcat(s[..i], s[i+1..], b);
    } else {
      var r := TakeFront(s, i, need);
      CntSplit(r, i, b);
      assert r[..i] == s[..i] && r[i+1..] == s[i+1..];
    }
  }

  /** An allocation removes exactly the granted range, byte for byte. */
  lemma {:induction false} FirstFitCnt(s: seq<Extent>, need: nat, b: nat)
    requires FirstFit(s, need).Granted?
    ensures FreeCnt(s, b) == FreeCnt(FirstFit(s, need).rest, b) + Hit(FirstFit(s, need).addr, need, b)
  {
    var j := FirstFitAt(s, need, 0);
    TakeFrontCnt(s, j, need, b);
  }

  /** Allocation keeps the normal form. */
  lemma {:induction false} FirstFitCanonical(s: seq<Extent>, need: nat)
    requires Canonical(s) && FirstFit(s, need).Granted?
    ensures Canonical(FirstFit(s, need).rest)
  {
    var j := FirstFitAt(s, need, 0);
    var r := TakeFront(s, j, need);
    if s[j].size == need {
      forall i, k | 0 <= i < k < |r| ensures r[i].End() < r[k].start {
        assert r[i] == s[if i < j then i else i + 1] && r[k] == s[if k < j then k else k + 1];
      }
    }
  }

  // ---- coalesce ----------------------------------------------------------------

  /** One step of the insertion sort: x moves left past every strictly larger start. */
  function InsertExt(p: seq<Extent>, x: Extent): seq<Extent> {
    if p == [] || p[|p|-1].start <= x.start then p + [x]
    else InsertExt(p[..|p|-1], x) + [p[|p|-1]]
  }

  function SortExt(s: seq<Extent>): seq<Extent> {
    if s == [] then [] else InsertExt(SortExt(s[..|s|-1]), s[|s|-1])
  }

  /** One step of the merge: x extends the last extent when it touches it. */
  function MergeOne(acc: seq<Extent>, x: Extent): seq<Extent> {
    if acc != [] && acc[|acc|-1].End() == x.start
    then acc[..|acc|-1] + [Extent(acc[|acc|-1].start, acc[|acc|-1].size + x.size)]
    else acc + [x]
  }

  function MergeExt(s: seq<Extent>): seq<Extent> {
    if s == [] then [] else MergeOne(MergeExt(s[..|s|-1]), s[|s|-1])
  }

  function Coalesced(s: seq<Extent>): seq<Extent> {
    if |s| < 2 then s else MergeExt(SortExt(s))
  }

  /** The free list after freeRange. */
  function Freed(s: seq<Extent>, start: nat, size: nat): seq<Extent> {
    Coalesced(s + [Extent(start, size)])
  }

  lemma {:induction false} InsertExtCnt(p: seq<Extent>, x: Extent, b: nat)
    ensures FreeCnt(InsertExt(p, x), b) == FreeCnt(p, b) + Hit(x.start, x.size, b)
    ensures |InsertExt(p, x)| == |p| + 1
  {
    if p == [] || p[|p|-1].start <= x.start {
      CntConcat(p, [x], b);
      CntOne(x, b);
    } else {
      var q, y := p[..|p|-1], p[|p|-1];
      InsertExtCnt(q, x, b);
      CntConcat(InsertExt(q, x), [y], b);
      CntConcat(q, [y], b);
      assert p == q + [y];
    }
  }

  lemma {:induction false} SortExtCnt(s: seq<Extent>, b: nat)
    ensures FreeCnt(SortExt(s), b) == FreeCnt(s, b)
    ensures |SortExt(s)| == |s|
  {
    if s != [] {
      var q, y := s[..|s|-1], s[|s|-1];
      SortExtCnt(q, b);
      InsertExtCnt(SortExt(q), y, b);
      CntConcat(q, [y], b);
      CntOne(y, b);
      assert s == q + [y];
    }
  }

  lemma {:induction false} MergeOneCnt(acc: seq<Extent>, x: Extent, b: nat)
    ensures FreeCnt(MergeOne(acc, x), b) == FreeCnt(acc, b) + Hit(x.start, x.size, b)
  {
    CntConcat(acc, [x], b);
    CntOne(x, b);
    if acc != [] && acc[|acc|-1].End() == x.start {
      var q, y := acc[..|acc|-1], acc[|acc|-1];
      assert acc == q + [y];
      CntConcat(q, [y], b);
      CntOne(y, b);
      var z := Extent(y.start, y.size + x.size);
      CntConcat(q, [z], b);
      CntOne(z, b);
    }
  }

  lemma {:induction false} MergeExtCnt(s: seq<Extent>, b: nat)
    ensures FreeCnt(MergeExt(s), b) == FreeCnt(s, b)
  {
    if s != [] {
      var q, y := s[..|s|-1], s[|s|-1];
      MergeExtCnt(q, b);
      MergeOneCnt(MergeExt(q), y, b);
      CntConcat(q, [y], b);
      CntOne(y, b);
      assert s == q + [y];
    }
  }

  lemma {:induction false} CoalescedCnt(u: seq<Extent>, b: nat)
    ensures FreeCnt(Coalesced(u), b) == FreeCnt(u, b)
  {
    if |u| >= 2 {
      var v := SortExt(u);
      SortExtCnt(u, b);
      MergeExtCnt(v, b);
    }
  }

  /** Freeing a range adds exactly that range, byte for byte. */
  lemma {:induction false} FreedCnt(s: seq<Extent>, start: nat, size: nat, b: nat)
    ensures FreeCnt(Freed(s, start, size), b) == FreeCnt(s, b) + Hit(start, size, b)
  {
    var e := Extent(start, size);
    CntConcat(s, [e], b);
    CntOne(e, b);
    CoalescedCnt(s + [e], b);
  }

  ghost predicate SortedStarts(s: seq<Extent>) {
    forall i, j :: 0 <= i < j < |s| ==> s[i].start <= s[j].start
  }

  lemma {:induction false} InsertExtSorted(p: seq<Extent>, x: Extent)
    requires SortedStarts(p) && Positive(p) && x.size > 0
    ensures SortedStarts(InsertExt(p, x)) && Positive(InsertExt(p, x))
    ensures forall i :: 0 <= i < |InsertExt(p, x)| ==> InsertExt(p, x)[i] == x || InsertExt(p, x)[i] in p
  {
    if p == [] || p[|p|-1].start <= x.start {
    } else {
      var q, y := p[..|p|-1], p[|p|-1];
      InsertExtSorted(q, x);
      var r := InsertExt(q, x);
      forall i | 0 <= i < |r| ensures r[i].start <= y.start && (r[i] == x || r[i] in p) {
        if r[i] != x {
          var j :| 0 <= j < |q| && q[j] == r[i];
          assert p[j] == q[j];
        }
      }
    }
  }

  lemma {:induction false} SortExtSorted(s: seq<Extent>)
    requires Positive(s)
    ensures SortedStarts(SortExt(s)) && Positive(SortExt(s))
  {
    if s != [] {
      SortExtSorted(s[..|s|-1]);
      InsertExtSorted(SortExt(s[..|s|-1]), s[|s|-1]);
    }
  }

  /** On a sorted list in which no byte is free twice, neighbours do not overlap. */
  lemma {:induction false} SortedNoOverlap(s: seq<Extent>, i: nat, j: nat)
    requires SortedStarts(s) && Positive(s) && Disjoint(s) && i < j < |s|
    ensures s[i].End() <= s[j].start
  {
    var b := s[j].start;
    CntSplit(s, j, b);
    CntSplit(s[..j], i, b);
    assert FreeCnt(s, b) <= 1;
    assert s[i].start <= s[j].start;
  }

  lemma {:induction false} MergeOneCanonical(acc: seq<Extent>, x: Extent)
    requires Canonical(acc) && x.size > 0
    requires acc != [] ==> acc[|acc|-1].End() <= x.start
    ensures Canonical(MergeOne(acc, x))
    ensures MergeOne(acc, x) != [] && MergeOne(acc, x)[|MergeOne(acc, x)|-1].End() == x.End()
  {
    var r := MergeOne(acc, x);
    if acc != [] && acc[|acc|-1].End() != x.start {
      forall i | 0 <= i < |acc| ensures acc[i].End() < x.start {
        if i < |acc| - 1 {
          assert acc[i].End() < acc[|acc|-1].start;
        }
      }
    }
  }

  lemma {:induction false} MergeExtCanonical(s: seq<Extent>)
    requires Positive(s)
    requires forall i, j :: 0 <= i < j < |s| ==> s[i].End() <= s[j].start
    ensures Canonical(MergeExt(s))
    ensures s != [] ==> MergeExt(s) != [] && MergeExt(s)[|MergeExt(s)|-1].End() == s[|s|-1].End()
  {
    if s != [] {
      var q, y := s[..|s|-1], s[|s|-1];
      MergeExtCanonical(q);
      if q != [] {
        assert q[|q|-1] == s[|s|-2];
      }
      MergeOneCanonical(MergeExt(q), y);
    }
  }

  /** Freeing a range disjoint from the free bytes gives the unique normal form of the union. */
  lemma {:induction false} FreedCanonical(s: seq<Extent>, start: nat, size: nat)
    requires Positive(s) && size > 0 && Disjoint(s + [Extent(start, size)])
    ensures Canonical(Freed(s, start, size))
  {
    var u := s + [Extent(start, size)];
    if |u| >= 2 {
      SortExtSorted(u);
      var v := SortExt(u);
      forall b: nat ensures FreeCnt(v, b) <= 1 {
        SortExtCnt(u, b);
        assert FreeCnt(u, b) <= 1;
      }
      forall i, j | 0 <= i < j < |v| ensures v[i].End() <= v[j].start {
        SortedNoOverlap(v, i, j);
      }
      MergeExtCanonical(v);
    }
  }

  /** allocNodeBlock then freeRange of the same block gives back the identical list. */
  lemma {:induction false} AllocFreeIdentity(s: seq<Extent>, need: nat)
    requires Canonical(s) && need > 0 && FirstFit(s, need).Granted?
    ensures Freed(FirstFit(s, need).rest, FirstFit(s, need).addr, need) == s
  {
    var g := FirstFit(s, need);
    FirstFitCanonical(s, need);
    CanonicalDisjoint(s);
    forall b: nat ensures FreeCnt(g.rest + [Extent(g.addr, need)], b) <= 1
                  ensures FreeCnt(Freed(g.rest, g.addr, need), b) == FreeCnt(s, b)
    {
      FirstFitCnt(s, need, b);
      CntConcat(g.rest, [Extent(g.addr, need)], b);
      CntOne(Extent(g.addr, need), b);
      FreedCnt(g.rest, g.addr, need, b);
    }
    FreedCanonical(g.rest, g.addr, need);
    CanonicalUnique(Freed(g.rest, g.addr, need), s);
  }

  // ---- how many blocks a list offers --------------------------------------------------------------------

  /** How many blocks of ns bytes fit in size bytes. */
  function BlocksOf(size: nat, ns: nat): nat
    requires ns > 0
    decreases size
  {
    if size < ns then 0 else 1 + BlocksOf(size - ns, ns)
  }

  /** How many blocks of ns bytes first fit can grant from the list. */
  function Offers(s: seq<Extent>, ns: nat): nat
    requires ns > 0
  {
    if s == [] then 0 else BlocksOf(s[0].size, ns) + Offers(s[1..], ns)
  }

  lemma {:induction false} OffersConcat(a: seq<Extent>, b: seq<Extent>, ns: nat)
    requires ns > 0
    ensures Offers(a + b, ns) == Offers(a, ns) + Offers(b, ns)
  {
    if a == [] {
      assert a + b == b;
    } else {
      OffersConcat(a[1..], b, ns);
      assert (a + b)[1..] == a[1..] + b;
    }
  }

  lemma {:induction false} OffersAt(s: seq<Extent>, j: nat, ns: nat)
    requires ns > 0 && j < |s|
    ensures Offers(s, ns) == Offers(s[..j], ns) + BlocksOf(s[j].size, ns) + Offers(s[j + 1..], ns)
  {
    var l, m, r := s[..j], [s[j]], s[j + 1..];
    assert s == l + m + r;
    OffersConcat(l + m, r, ns);
    OffersConcat(l, m, ns);
    assert m[1..] == [];
  }

  lemma {:induction false} NoOffers(s: seq<Extent>, ns: nat)
    requires ns > 0 && forall i :: 0 <= i < |s| ==> s[i].size < ns
    ensures Offers(s, ns) == 0
  {
    if s != [] {
      NoOffers(s[1..], ns);
    }
  }

  /** First fit refuses exactly when no block is on offer, and a grant uses up one. */
  lemma {:induction false} FitTakes(s: seq<Extent>, ns: nat)
    requires ns > 0
    ensures FirstFit(s, ns).NoSpace? <==> Offers(s, ns) == 0
    ensures FirstFit(s, ns).Granted? ==> Offers(FirstFit(s, ns).rest, ns) == Offers(s, ns) - 1
  {
    var j := FirstFitAt(s, ns, 0);
    if FirstFit(s, ns).NoSpace? {
      NoOffers(s, ns);
    } else {
      var r := TakeFront(s, j, ns);
      OffersAt(s, j, ns);
      if s[j].size == ns {
        OffersConcat(s[..j], s[j + 1..], ns);
      } else {
        OffersAt(r, j, ns);
        assert r[..j] == s[..j] && r[j + 1..] == s[j + 1..];
      }
    }
  }
}
