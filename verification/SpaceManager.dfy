/** spaceManager (alloc.go, resize.go): the mutable free-space book-keeper. Every method is
    proved against the functions and the per-byte counts of FreeSpace. */
module SpaceManagement {
  import opened Keys
  import opened FreeSpace

  class SpaceManager {
    var freeExts: seq<Extent>
    const nodeSize: nat

    constructor (nodeSize: nat, freeExts: seq<Extent>)
      ensures this.nodeSize == nodeSize && this.freeExts == freeExts
    {
      this.nodeSize := nodeSize;
      this.freeExts := freeExts;
    }

    /** remove: set difference, byte for byte. */
    method Remove(start: nat, size: nat)
      modifies this
      ensures forall b: nat :: FreeCnt(freeExts, b) ==
                               if start <= b < start + size then 0 else old(FreeCnt(freeExts, b))
      ensures old(Positive(freeExts)) ==> Positive(freeExts)
      ensures old(Canonical(freeExts)) ==> Canonical(freeExts)
    {
      if size == 0 {
        return;
      }
      var end := start + size;
      var next: seq<Extent> := [];
      var i := 0;
      while i < |freeExts|
        invariant 0 <= i <= |freeExts|
        invariant next == RemovedFrom(freeExts[..i], start, end)
      {
        var fe := freeExts[i];
        assert freeExts[..i+1][..i] == freeExts[..i];
        if end <= fe.start || start >= fe.End() {
          next := next + [fe];
        } else {
          next := next + (if fe.start < start then [Extent(fe.start, start - fe.start)] else [])
                       + (if fe.End() > end then [Extent(end, fe.End() - end)] else []);
        }
        i := i + 1;
      }
      assert freeExts[..i] == freeExts;
      RemovedFromCnt(freeExts, start, end);
      freeExts := next;
    }

    /** allocNodeBlock: one node-sized block, first fit. */
    method AllocNodeBlock() returns (g: Option<nat>)
      modifies this`freeExts
      ensures g.None? ==> FirstFit(old(freeExts), nodeSize).NoSpace? && freeExts == old(freeExts)
      ensures g.Some? ==> FirstFit(old(freeExts), nodeSize) == Granted(g.value, freeExts)
    {
      g := AllocFirstFit(nodeSize);
    }

    /** allocDataBytes: one contiguous extent of size bytes rounded up to whole sectors. */
    method AllocDataBytes(size: nat, sectorSize: nat) returns (g: Option<(nat, nat)>)
      requires sectorSize > 0
      modifies this`freeExts
      ensures var need := (size + sectorSize - 1) / sectorSize * sectorSize;
              && size <= need < size + sectorSize
              && (g.None? ==> FirstFit(old(freeExts), need).NoSpace? && freeExts == old(freeExts))
              && (g.Some? ==> g.value.1 == need
                              && FirstFit(old(freeExts), need) == Granted(g.value.0, freeExts))
    {
      RoundUp(size, sectorSize);
      var need := (size + sectorSize - 1) / sectorSize * sectorSize;
      var a := AllocFirstFit(need);
      g := if a.Some? then Some((a.value, need)) else None;
    }

    /** The scan shared by allocNodeBlock and allocDataBytes. */
    method AllocFirstFit(need: nat) returns (g: Option<nat>)
      modifies this`freeExts
      ensures g.None? ==> FirstFit(old(freeExts), need).NoSpace? && freeExts == old(freeExts)
      ensures g.Some? ==> FirstFit(old(freeExts), need) == Granted(g.value, freeExts)
    {
      var i := 0;
      while i < |freeExts|
        invariant 0 <= i <= |freeExts| && freeExts == old(freeExts)
        invariant FirstFit(freeExts, need) == FirstFitFrom(freeExts, need, i)
      {
        var fe := freeExts[i];
        if fe.size >= need {
          if fe.size == need {
            freeExts := freeExts[..i] + freeExts[i+1..];
          } else {
            freeExts := freeExts[i := Extent(fe.start + need, fe.size - need)];
          }
          return Some(fe.start);
        }
        i := i + 1;
      }
      return None;
    }

    /** allocDataBytesUpTo: the front of a largest extent, at most maxSize rounded down to
        whole sectors (but at least one sector). */
    method AllocDataBytesUpTo(maxSize: nat, sectorSize: nat) returns (g: Option<(nat, nat)>)
      requires sectorSize > 0
      modifies this`freeExts
      ensures g.None? <==> forall i :: 0 <= i < |old(freeExts)| ==> old(freeExts)[i].size < sectorSize
      ensures g.None? ==> freeExts == old(freeExts)
      ensures g.Some? ==> UpToGrant(old(freeExts), maxSize, sectorSize, g.value.0, g.value.1, freeExts)
      ensures g.Some? ==> forall b: nat :: old(FreeCnt(freeExts, b)) ==
                                           FreeCnt(freeExts, b) + Hit(g.value.0, g.value.1, b)
      ensures g.Some? ==> sectorSize <= g.value.1
      ensures g.Some? && old(Positive(freeExts)) ==> Positive(freeExts)
    {
      var cap := if maxSize < sectorSize then sectorSize else maxSize;
      var bestIdx := -1;
      var bestSize := 0;
      var i := 0;
      while i < |freeExts|
        invariant 0 <= i <= |freeExts| && -1 <= bestIdx < i
        invariant bestIdx == -1 ==> bestSize == 0 && forall k :: 0 <= k < i ==> freeExts[k].size < sectorSize
        invariant bestIdx >= 0 ==> freeExts[bestIdx].size == bestSize >= sectorSize
        invariant bestIdx >= 0 ==> forall k :: 0 <= k < i ==> freeExts[k].size <= bestSize
      {
        if freeExts[i].size >= sectorSize && freeExts[i].size > bestSize {
          bestIdx := i;
          bestSize := freeExts[i].size;
        }
        i := i + 1;
      }
      if bestIdx < 0 {
        return None;
      }
      var take := bestSize;
      if take > cap {
        RoundDown(cap, sectorSize);
        take := cap / sectorSize * sectorSize;
      }
      var fe := freeExts[bestIdx];
      ghost var was := freeExts;
      if fe.size == take {
        freeExts := freeExts[..bestIdx] + freeExts[bestIdx+1..];
      } else {
        freeExts := freeExts[bestIdx := Extent(fe.start + take, fe.size - take)];
      }
      assert freeExts == TakeFront(was, bestIdx, take);
      forall b: nat ensures FreeCnt(was, b) == FreeCnt(freeExts, b) + Hit(fe.start, take, b) {
        TakeFrontCnt(was, bestIdx, take, b);
      }
      return Some((fe.start, take));
    }

    /** freeRange: append, then sort and merge. */
    method FreeRange(start: nat, size: nat)
      modifies this`freeExts
      ensures freeExts == Freed(old(freeExts), start, size)
      ensures forall b: nat :: FreeCnt(freeExts, b) == old(FreeCnt(freeExts, b)) + Hit(start, size, b)
      ensures (old(Positive(freeExts)) && size > 0 && Disjoint(old(freeExts) + [Extent(start, size)])) ==>
                Canonical(freeExts)
    {
      freeExts := freeExts + [Extent(start, size)];
      Coalesce();
      forall b: nat ensures FreeCnt(freeExts, b) == old(FreeCnt(freeExts, b)) + Hit(start, size, b) {
        FreedCnt(old(freeExts), start, size, b);
      }
      if old(Positive(freeExts)) && size > 0 && Disjoint(old(freeExts) + [Extent(start, size)]) {
        FreedCanonical(old(freeExts), start, size);
      }
    }

    /** coalesce: insertion sort in the slice's own array, then a merge whose write position
        trails the read position in that same array. */
    method Coalesce()
      modifies this`freeExts
      ensures freeExts == Coalesced(old(freeExts))
    {
      if |freeExts| < 2 {
        return;
      }
      var a := new Extent[|freeExts|](i requires 0 <= i < |freeExts| reads this => freeExts[i]);
      assert a[..] == freeExts;
      InsertionSort(a);
      var w := MergeInPlace(a);
      freeExts := a[..w];
    }

    /** rangeFree: a yes is always right; on a list sorted by start the answer is exact. */
    method RangeFree(start: nat, size: nat) returns (yes: bool)
      ensures yes ==> forall b: nat :: start <= b < start + size ==> IsFree(freeExts, b)
      ensures SortedStarts(freeExts) ==>
                (yes <==> forall b: nat :: start <= b < start + size ==> IsFree(freeExts, b))
    {
      if size == 0 {
        return true;
      }
      var end := start + size;
      var cursor := start;
      var i := 0;
      while i < |freeExts|
        invariant 0 <= i <= |freeExts| && start <= cursor < end
        invariant forall b: nat :: start <= b < cursor ==> IsFree(freeExts, b)
        invariant forall k :: 0 <= k < i ==> freeExts[k].End() <= cursor
      {
        var fe := freeExts[i];
        if fe.End() > cursor {
          if fe.start > cursor {
            assert SortedStarts(freeExts) ==> !IsFree(freeExts, cursor);
            return false;
          }
          if fe.End() >= end {
            return true;
          }
          cursor := fe.End();
        }
        i := i + 1;
      }
      assert !IsFree(freeExts, cursor);
      return false;
    }
  }

  /** The parts of fe below start and from end on. */
  function Outside(fe: Extent, start: nat, end: nat): seq<Extent>
    requires start < end
  {
    if end <= fe.start || start >= fe.End() then [fe]
    else
      (if fe.start < start then [Extent(fe.start, start - fe.start)] else []) +
      (if fe.End() > end then [Extent(end, fe.End() - end)] else [])
  }

  lemma {:induction false} OutsideCnt(fe: Extent, start: nat, end: nat, b: nat)
    requires start < end
    ensures FreeCnt(Outside(fe, start, end), b) == if start <= b < end then 0 else Hit(fe.start, fe.size, b)
  {
    if end <= fe.start || start >= fe.End() {
      CntOne(fe, b);
    } else {
      var l := if fe.start < start then [Extent(fe.start, start - fe.start)] else [];
      var r := if fe.End() > end then [Extent(end, fe.End() - end)] else [];
      CntConcat(l, r, b);
      CntOne(Extent(fe.start, if fe.start < start then start - fe.start else 0), b);
      CntOne(Extent(end, if fe.End() > end then fe.End() - end else 0), b);
    }
  }

  /** The free list after remove: every extent replaced by its parts outside [start, end). */
  function RemovedFrom(s: seq<Extent>, start: nat, end: nat): seq<Extent>
    requires start < end
  {
    if s == [] then []
    else RemovedFrom(s[..|s|-1], start, end) + Outside(s[|s|-1], start, end)
  }

  lemma {:induction false} RemovedFromCntAt(s: seq<Extent>, start: nat, end: nat, b: nat)
    requires start < end
    ensures FreeCnt(RemovedFrom(s, start, end), b) == if start <= b < end then 0 else FreeCnt(s, b)
  {
    if s != [] {
      var q, fe := s[..|s|-1], s[|s|-1];
      RemovedFromCntAt(q, start, end, b);
      CntConcat(RemovedFrom(q, start, end), Outside(fe, start, end), b);
      OutsideCnt(fe, start, end, b);
      CntSplit(s, |s| - 1, b);
      assert s[|s|..] == [];
    }
  }

  ghost predicate EndsBy(r: seq<Extent>, e: nat) {
    forall i :: 0 <= i < |r| ==> r[i].End() <= e
  }

  lemma {:induction false} RemovedFromPositive(s: seq<Extent>, start: nat, end: nat)
    requires start < end && Positive(s)
    ensures Positive(RemovedFrom(s, start, end))
  {
    if s != [] {
      RemovedFromPositive(s[..|s|-1], start, end);
    }
  }

  lemma {:induction false} RemovedFromCanonical(s: seq<Extent>, start: nat, end: nat)
    requires start < end && Canonical(s)
    ensures Canonical(RemovedFrom(s, start, end))
    ensures EndsBy(RemovedFrom(s, start, end), if s == [] then 0 else s[|s|-1].End())
  {
    if s != [] {
      var q, fe := s[..|s|-1], s[|s|-1];
      RemovedFromCanonical(q, start, end);
      assert fe.size > 0 && (q != [] ==> q[|q|-1].End() < fe.start);
      AppendCanonical(RemovedFrom(q, start, end), if q == [] then 0 else q[|q|-1].End(), fe, start, end);
    }
  }

  lemma {:induction false} AppendCanonical(r: seq<Extent>, e: nat, fe: Extent, start: nat, end: nat)
    requires start < end && Canonical(r) && fe.size > 0
    requires EndsBy(r, e) && (r != [] ==> e < fe.start)
    ensures Canonical(r + Outside(fe, start, end))
    ensures EndsBy(r + Outside(fe, start, end), fe.End())
  {
    assert forall i :: 0 <= i < |r| ==> r[i].End() < fe.start;
  }

  lemma {:induction false} RemovedFromCnt(s: seq<Extent>, start: nat, end: nat)
    requires start < end
    ensures forall b: nat :: FreeCnt(RemovedFrom(s, start, end), b) ==
                             if start <= b < end then 0 else FreeCnt(s, b)
    ensures Positive(s) ==> Positive(RemovedFrom(s, start, end))
    ensures Canonical(s) ==> Canonical(RemovedFrom(s, start, end))
  {
    forall b: nat
      ensures FreeCnt(RemovedFrom(s, start, end), b) == if start <= b < end then 0 else FreeCnt(s, b)
    {
      RemovedFromCntAt(s, start, end, b);
    }
    if Positive(s) {
      RemovedFromPositive(s, start, end);
    }
    if Canonical(s) {
      RemovedFromCanonical(s, start, end);
    }
  }

  ghost predicate UpToGrant(was: seq<Extent>, maxSize: nat, sectorSize: nat, phys: nat, take: nat, now: seq<Extent>)
    requires sectorSize > 0
  {
    var cap := if maxSize < sectorSize then sectorSize else maxSize;
    exists i ::
      && 0 <= i < |was| && phys == was[i].start && 0 <= take <= was[i].size
      && (forall k :: 0 <= k < |was| ==> was[k].size <= was[i].size)
      && take == (if was[i].size > cap then cap / sectorSize * sectorSize else was[i].size)
      && now == TakeFront(was, i, take)
  }

  lemma {:induction false} RoundUp(size: nat, sectorSize: nat)
    requires sectorSize > 0
    ensures var need := (size + sectorSize - 1) / sectorSize * sectorSize;
            size <= need < size + sectorSize
  {
    var q := (size + sectorSize - 1) / sectorSize;
  }

  lemma {:induction false} RoundDown(cap: nat, sectorSize: nat)
    requires 0 < sectorSize <= cap
    ensures var t := cap / sectorSize * sectorSize; sectorSize <= t <= cap
  {
    var q := cap / sectorSize;
    assert q >= 1;
    assert q * sectorSize >= sectorSize;
  }

  /** The merge loop of coalesce, on the array that also holds its input. */
  method MergeInPlace(a: array<Extent>) returns (w: nat)
    requires a.Length > 0
    modifies a
    ensures w <= a.Length && a[..w] == MergeExt(old(a[..]))
  {
    ghost var was := a[..];
    w := 1;
    var r := 1;
    MergeBase(was);
    while r < a.Length
      invariant 1 <= w <= r <= a.Length
      invariant a[..w] == MergeExt(was[..r])
      invariant forall k :: r <= k < a.Length ==> a[k] == was[k]
    {
      MergeStep(was, r);
      w := MergeAt(a, w, r);
      r := r + 1;
    }
    assert was[..r] == was;
  }

  /** One round of the merge loop: the extent at r joins the merged prefix of length w. */
  method MergeAt(a: array<Extent>, w: nat, r: nat) returns (w': nat)
    requires 1 <= w <= r < a.Length
    modifies a
    ensures 1 <= w' <= r + 1 && a[..w'] == MergeOne(old(a[..w]), old(a[r]))
    ensures forall k :: r < k < a.Length ==> a[k] == old(a[k])
  {
    var fe, last := a[r], a[w-1];
    if last.start + last.size == fe.start {
      a[w-1] := Extent(last.start, last.size + fe.size);
      w' := w;
    } else {
      a[w] := fe;
      w' := w + 1;
    }
  }

  lemma {:induction false} MergeBase(s: seq<Extent>)
    requires s != []
    ensures MergeExt(s[..1]) == [s[0]]
  {
    assert s[..1] == [s[0]] && s[..1][..0] == [];
  }

  lemma {:induction false} MergeStep(s: seq<Extent>, r: nat)
    requires r < |s|
    ensures MergeExt(s[..r+1]) == MergeOne(MergeExt(s[..r]), s[r])
  {
    assert s[..r+1][..r] == s[..r];
  }

  method InsertionSort(a: array<Extent>)
    modifies a
    ensures a[..] == SortExt(old(a[..]))
  {
    ghost var was := a[..];
    var i := 0;
    while i < a.Length
      invariant 0 <= i <= a.Length
      invariant a[..i] == SortExt(was[..i])
      invariant forall k :: i <= k < a.Length ==> a[k] == was[k]
    {
      assert was[..i+1][..i] == was[..i] && was[..i+1][i] == a[i];
      MoveLeft(a, i);
      i := i + 1;
    }
    assert was[..i] == was && a[..i] == a[..];
  }

  /** The inner loop of the insertion sort. */
  method MoveLeft(a: array<Extent>, i: nat)
    requires i < a.Length
    modifies a
    ensures a[..i+1] == InsertExt(old(a[..i]), old(a[i]))
    ensures forall k :: i < k < a.Length ==> a[k] == old(a[k])
  {
    hide InsertExt, Placed;
    ghost var p, x, rest := a[..i], a[i], a[i+1..];
    var j := i;
    NotMoved(a[..], i);
    while j > 0 && a[j].start < a[j-1].start
      invariant 0 <= j <= i && a[..] == Placed(p, j, x) + rest
      invariant InsertExt(p, x) == InsertExt(p[..j], x) + p[j..]
    {
      PlacedAt(p, j, x, rest);
      InsertStep(p, j, x);
      Swap(a, j);
      SwapPlaced(p, j, x, rest);
      j := j - 1;
    }
    PlacedAt(p, j, x, rest);
    InsertStop(p, j, x);
    PlacedFront(p, j, x, rest, a[..]);
  }

  method Swap(a: array<Extent>, j: nat)
    requires 0 < j < a.Length
    modifies a
    ensures a[..] == old(a[..])[j := old(a[j-1])][j-1 := old(a[j])]
  {
    a[j], a[j-1] := a[j-1], a[j];
  }

  /** p with x put at position j. */
  function Placed(p: seq<Extent>, j: nat, x: Extent): (s: seq<Extent>)
    requires j <= |p|
    ensures |s| == |p| + 1
  {
    p[..j] + [x] + p[j..]
  }

  lemma {:induction false} NotMoved(s: seq<Extent>, i: nat)
    requires i < |s|
    ensures s == Placed(s[..i], i, s[i]) + s[i+1..]
    ensures InsertExt(s[..i], s[i]) == InsertExt(s[..i][..i], s[i]) + s[..i][i..]
  {
    hide InsertExt;
    assert s[..i][..i] == s[..i] && s[..i][i..] == [];
  }

  lemma {:induction false} PlacedAt(p: seq<Extent>, j: nat, x: Extent, rest: seq<Extent>)
    requires j <= |p|
    ensures (Placed(p, j, x) + rest)[j] == x
    ensures j > 0 ==> (Placed(p, j, x) + rest)[j-1] == p[j-1]
  {
  }

  lemma {:induction false} SwapPlaced(p: seq<Extent>, j: nat, x: Extent, rest: seq<Extent>)
    requires 0 < j <= |p|
    ensures (Placed(p, j, x) + rest)[j := p[j-1]][j-1 := x] == Placed(p, j - 1, x) + rest
  {
    var s, t := (Placed(p, j, x) + rest)[j := p[j-1]][j-1 := x], Placed(p, j - 1, x) + rest;
    forall k | 0 <= k < |s|
      ensures s[k] == t[k]
    {
    }
  }

  lemma {:induction false} PlacedFront(p: seq<Extent>, j: nat, x: Extent, rest: seq<Extent>, s: seq<Extent>)
    requires j <= |p| && s == Placed(p, j, x) + rest
    ensures s[..|p|+1] == p[..j] + [x] + p[j..] && s[|p|+1..] == rest
  {
  }

  lemma {:induction false} InsertStep(p: seq<Extent>, j: nat, x: Extent)
    requires 0 < j <= |p| && x.start < p[j-1].start
    requires InsertExt(p, x) == InsertExt(p[..j], x) + p[j..]
    ensures InsertExt(p, x) == InsertExt(p[..j-1], x) + p[j-1..]
  {
    assert p[..j][..j-1] == p[..j-1];
    assert p[j-1..] == [p[j-1]] + p[j..];
  }

  lemma {:induction false} InsertStop(p: seq<Extent>, j: nat, x: Extent)
    requires j <= |p| && (j > 0 ==> p[j-1].start <= x.start)
    requires InsertExt(p, x) == InsertExt(p[..j], x) + p[j..]
    ensures InsertExt(p, x) == p[..j] + [x] + p[j..]
  {
  }
}
