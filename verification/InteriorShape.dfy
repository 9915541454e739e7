/** interiorShape and the apportioning of children to nodes (extent_multilevel.go). */
module InteriorShapes {
  import Division

  /** a / b rounded up. */
  function CeilDiv(a: nat, b: nat): nat
    requires b > 0
    decreases a
  {
    if a == 0 then 0 else if a <= b then 1 else 1 + CeilDiv(a - b, b)
  }

  lemma {:induction false} CeilDivBounds(a: nat, b: nat)
    requires b > 0
    ensures CeilDiv(a, b) * b >= a && (a > 0 ==> CeilDiv(a, b) > 0 && (CeilDiv(a, b) - 1) * b < a)
    decreases a
  {
    if a > b {
      CeilDivBounds(a - b, b);
      var n := CeilDiv(a - b, b);
      assert (1 + n) * b == b + n * b;
      assert n * b == b + (n - 1) * b;
    }
  }

  /** The rounded-up quotient as the code computes it. */
  method RoundedShare(a: nat, b: nat) returns (q: nat)
    requires b > 0
    ensures q == CeilDiv(a, b)
  {
    q := (a + b - 1) / b;
    CeilDivBounds(a, b);
    var n := CeilDiv(a, b);
    assert (n + 1) * b == n * b + b && (n - 1) * b == n * b - b;
    Division.DivUnique(a + b - 1, n, a + b - 1 - n * b, b);
  }

  lemma {:induction false} MulMono(a: nat, b: nat, n: nat)
    requires a <= b
    ensures a * n <= b * n
  {
  }

  lemma {:induction false} CeilDivMono(a: nat, a': nat, b: nat)
    requires b > 0 && a <= a'
    ensures CeilDiv(a, b) <= CeilDiv(a', b)
  {
    CeilDivBounds(a, b);
    CeilDivBounds(a', b);
    if CeilDiv(a, b) > CeilDiv(a', b) {
      MulMono(CeilDiv(a', b), CeilDiv(a, b) - 1, b);
    }
  }

  lemma {:induction false} CeilDivShrinks(a: nat, b: nat)
    requires a >= 2 && b >= 2
    ensures 1 <= CeilDiv(a, b) < a
  {
    CeilDivBounds(a, b);
    if CeilDiv(a, b) >= a {
      MulMono(a - 1, CeilDiv(a, b) - 1, b);
      MulMono(2, b, a - 1);
    }
  }

  /** The node counts of the interior levels over the given number of leaves, bottom up. */
  function Levels(children: nat, icap: nat): seq<nat>
    requires icap >= 2
    decreases children
  {
    if children <= 1 then []
    else CeilDivShrinks(children, icap); [CeilDiv(children, icap)] + Levels(CeilDiv(children, icap), icap)
  }

  function Doubled(n: nat): (r: nat)
    ensures r >= 1
  {
    if n == 0 then 1 else 2 * Doubled(n - 1)
  }

  /** With at least two children a node, 2 to the n leaves need at most n levels above them. */
  lemma {:induction false} LevelsShort(children: nat, icap: nat, n: nat)
    requires icap >= 2 && children <= Doubled(n)
    ensures |Levels(children, icap)| <= n
    decreases n
  {
    if children > 1 {
      var q := CeilDiv(children, icap);
      CeilDivBounds(children, icap);
      if q > Doubled(n - 1) {
        MulMono(2, icap, q - 1);
        assert 2 * (q - 1) >= 2 * Doubled(n - 1);
      }
      LevelsShort(q, icap, n - 1);
    }
  }

  function Sum(s: seq<nat>): nat {
    if s == [] then 0 else s[0] + Sum(s[1..])
  }

  lemma {:induction false} SumConcat(a: seq<nat>, b: seq<nat>)
    ensures Sum(a + b) == Sum(a) + Sum(b)
  {
    if a == [] {
      assert a + b == b;
    } else {
      SumConcat(a[1..], b);
      assert (a + b)[1..] == a[1..] + b;
    }
  }

  /** Each level has the fewest nodes that can hold the level below, and the top has one. */
  ghost predicate Pyramid(children: nat, levels: seq<nat>, icap: nat) {
    if levels == [] then children <= 1
    else
      && children > 1 && 1 <= levels[0] < children
      && Room(levels[0], icap) >= children && Room(levels[0] - 1, icap) < children
      && Pyramid(levels[0], levels[1..], icap)
  }

  lemma {:induction false} LevelsPyramid(children: nat, icap: nat)
    requires icap >= 2
    ensures Pyramid(children, Levels(children, icap), icap)
    decreases children
  {
    if children > 1 {
      CeilDivShrinks(children, icap);
      CeilDivBounds(children, icap);
      LevelsPyramid(CeilDiv(children, icap), icap);
      assert Levels(children, icap)[1..] == Levels(CeilDiv(children, icap), icap);
    }
  }

  lemma {:induction false} SumLevels(children: nat, icap: nat)
    requires icap >= 2 && children > 1
    ensures CeilDiv(children, icap) < children
    ensures Sum(Levels(children, icap)) == CeilDiv(children, icap) + Sum(Levels(CeilDiv(children, icap), icap))
  {
    CeilDivShrinks(children, icap);
    assert Levels(children, icap)[1..] == Levels(CeilDiv(children, icap), icap);
  }

  /** More leaves never need fewer interior nodes. */
  lemma {:induction false} InteriorMono(a: nat, b: nat, icap: nat)
    requires icap >= 2 && a <= b
    ensures Sum(Levels(a, icap)) <= Sum(Levels(b, icap))
    decreases b
  {
    if a > 1 {
      SumLevels(a, icap);
      SumLevels(b, icap);
      CeilDivMono(a, b, icap);
      InteriorMono(CeilDiv(a, icap), CeilDiv(b, icap), icap);
    }
  }

  /** The blocks of a tree with l leaves. */
  function BlockCount(l: nat, icap: nat): nat
    requires icap >= 2
  {
    l + Sum(Levels(l, icap))
  }

  /** A block count belongs to at most one leaf count. */
  lemma {:induction false} BlockCountInjective(a: nat, b: nat, icap: nat)
    requires icap >= 2
    ensures BlockCount(a, icap) == BlockCount(b, icap) <==> a == b
    ensures a <= b <==> BlockCount(a, icap) <= BlockCount(b, icap)
  {
    InteriorMono(if a <= b then a else b, if a <= b then b else a, icap);
  }

  method InteriorShape(nLeaves: nat, icap: nat) returns (levels: seq<nat>, total: nat, rootLevel: nat)
    requires icap >= 2
    ensures levels == Levels(nLeaves, icap) && total == Sum(levels) && rootLevel == |levels|
    ensures Pyramid(nLeaves, levels, icap)
  {
    var children := nLeaves;
    levels, total, rootLevel := [], 0, 0;
    while children > 1
      invariant Levels(nLeaves, icap) == levels + Levels(children, icap)
      invariant total == Sum(levels) && rootLevel == |levels|
      decreases children
    {
      CeilDivShrinks(children, icap);
      var nodes := RoundedShare(children, icap);
      SumConcat(levels, [nodes]);
      assert [nodes][1..] == [];
      levels := levels + [nodes];
      total := total + nodes;
      children := nodes;
      rootLevel := rootLevel + 1;
    }
    LevelsPyramid(nLeaves, icap);
  }

  /** The scan of tryExtentLayout for the leaf count that belongs to a block count. */
  method SolveLeaves(blockCount: nat, icap: nat) returns (nLeaves: nat, levels: seq<nat>, rootLevel: nat)
    requires icap >= 2 && blockCount >= 1
    ensures 1 <= nLeaves <= blockCount && levels == Levels(nLeaves, icap) && rootLevel == |levels|
    ensures forall l: nat :: BlockCount(l, icap) == blockCount ==> nLeaves == l
  {
    var l := blockCount;
    while true
      invariant 1 <= l <= blockCount
      invariant forall m: nat :: m > l ==> BlockCount(m, icap) != blockCount
      decreases l
    {
      var lv, itot, rl := InteriorShape(l, icap);
      if l + itot == blockCount || l == 1 {
        forall m: nat | BlockCount(m, icap) == blockCount ensures l == m {
          BlockCountInjective(m, l, icap);
          ZeroLeaves(m, icap, blockCount);
        }
        return l, lv, rl;
      }
      l := l - 1;
    }
  }

  lemma {:induction false} ZeroLeaves(m: nat, icap: nat, n: nat)
    requires icap >= 2 && BlockCount(m, icap) == n && n >= 1
    ensures m >= 1
  {
  }

  /** How many children n nodes can hold. */
  function Room(n: nat, icap: nat): nat {
    n * icap
  }

  /** Handing a node the rounded-up share of what remains keeps every later share between one and
      the capacity, and the last node takes all that is left. */
  lemma {:induction false} ShareBounds(r: nat, n: nat, icap: nat)
    requires 1 <= n <= r <= Room(n, icap)
    ensures var per := CeilDiv(r, n);
            1 <= per <= icap && per <= r && n - 1 <= r - per <= Room(n - 1, icap) && (n == 1 ==> per == r)
  {
    CeilDivBounds(r, n);
    ShareArithmetic(CeilDiv(r, n), r, n, icap);
  }

  lemma {:induction false} ShareArithmetic(per: nat, r: nat, n: nat, icap: nat)
    requires 1 <= n <= r <= n * icap && per > 0 && per * n >= r && (per - 1) * n < r
    ensures 1 <= per <= icap && per <= r && n - 1 <= r - per <= (n - 1) * icap && (n == 1 ==> per == r)
  {
    if per > icap {
      MulMono(icap, per - 1, n);
    }
    assert (per - 1) * n == (per - 1) + (per - 1) * (n - 1);
    if per >= 2 {
      MulMono(1, per - 1, n - 1);
    }
    assert per * n == per + per * (n - 1);
    MulMono(per, icap, n - 1);
  }
}
