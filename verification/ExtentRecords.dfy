/** The records of a rebuilt extent tree (extent_multilevel.go, format.go): sorting them, and what
    happens to their leaf count when there are more of them. */
module ExtentRecords {
  import opened Keys
  import opened Bytes
  import opened Trees
  import opened CowSpec
  import opened CowLeaf
  import opened Partitions
  import opened BulkTree

  const METADATA_ITEM: u8 := 0xA9
  const BLOCK_GROUP_ITEM: u8 := 0xC0
  const TREE_BLOCK_REF: u8 := 0xB0
  const EXTENT_TREE: nat := 2
  const FIRST_CHUNK_TREE: nat := 256
  const FLAG_TREE_BLOCK: nat := 2

  function MetadataItemBytes(owner: nat): (r: seq<u8>)
    ensures |r| == 33
  {
    Le(1, 8) + Le(1, 8) + Le(FLAG_TREE_BLOCK, 8) + [TREE_BLOCK_REF] + Le(owner, 8)
  }

  function BlockGroupItemBytes(used: nat, flags: u64): (r: seq<u8>)
    ensures |r| == 24
  {
    Le(used, 8) + Le(FIRST_CHUNK_TREE, 8) + Le(flags as nat, 8)
  }

  /** The record of one extent-tree block. */
  function BlockRec(a: nat, lvl: nat): Item {
    Item(Key(U64(a), METADATA_ITEM, U64(lvl % 0x100)), MetadataItemBytes(EXTENT_TREE))
  }

  /** A METADATA_ITEM whose back reference names the extent tree as owner of the block. */
  predicate TreeOwned(x: Item) {
    x.k.typ == METADATA_ITEM && |x.data| == 33 && UnLe(x.data[25..]) == EXTENT_TREE
  }

  // ---- the records as they read from their bytes ---------------------------------------------------------

  /** A METADATA_ITEM's bytes: one reference, generation 1, the tree-block flag, and an inline
      TREE_BLOCK_REF by the owner. */
  ghost predicate ReadsTreeBlock(d: seq<u8>, owner: nat) {
    && |d| == 33 && UnLe(d[..8]) == 1 && UnLe(d[8..16]) == 1 && UnLe(d[16..24]) == 2 && d[24] == 0xB0
    && UnLe(d[25..]) == owner
  }

  /** A BLOCK_GROUP_ITEM's bytes: the used count, chunk tree 256 and the profile flags. */
  ghost predicate ReadsGroup(d: seq<u8>, used: nat, flags: u64) {
    |d| == 24 && UnLe(d[..8]) == used % U64_LIMIT && UnLe(d[8..16]) == 256 && UnLe(d[16..]) == flags as nat
  }

  lemma {:induction false} MetadataRoundTrip(owner: nat)
    requires owner < U64_LIMIT
    ensures ReadsTreeBlock(MetadataItemBytes(owner), owner)
  {
    hide Le, UnLe, Power;
    var d := MetadataItemBytes(owner);
    var one, two, o := Le(1, 8), Le(2, 8), Le(owner, 8);
    assert d[..8] == one && d[8..16] == one && d[16..24] == two && d[25..] == o;
    Widths();
    LeRoundTrip(1, 8);
    LeRoundTrip(2, 8);
    LeRoundTrip(owner, 8);
  }

  lemma {:induction false} GroupRoundTrip(used: nat, flags: u64)
    ensures ReadsGroup(BlockGroupItemBytes(used, flags), used, flags)
  {
    hide Le, UnLe, Power;
    var d := BlockGroupItemBytes(used, flags);
    var u, c, f := Le(used, 8), Le(256, 8), Le(flags as nat, 8);
    assert d[..8] == u && d[8..16] == c && d[16..] == f;
    Widths();
    LeWraps(used, 8);
    LeRoundTrip(256, 8);
    LeRoundTrip(flags as nat, 8);
  }

  /** x records a tree block of the extent tree, at address a and level lvl. */
  ghost predicate RecordsBlock(x: Item, a: nat, lvl: nat) {
    x.k.objID as nat == a && x.k.typ == 0xA9 && x.k.offset as nat == lvl && ReadsTreeBlock(x.data, 2)
  }

  lemma {:induction false} BlockRecReads(a: nat, lvl: nat)
    requires a < U64_LIMIT && lvl < 0x100
    ensures RecordsBlock(BlockRec(a, lvl), a, lvl) && TreeOwned(BlockRec(a, lvl))
  {
    MetadataRoundTrip(EXTENT_TREE);
  }

  // ---- sorting ---------------------------------------------------------------------------------------

  function SortItems(s: seq<Item>): seq<Item> {
    if s == [] then [] else InsertSorted(SortItems(s[..|s|-1]), s[|s|-1])
  }

  /** (objectid, type) as one number. */
  function Pair(k: Key): nat {
    k.objID as nat * 0x100 + k.typ as nat
  }

  ghost predicate PairsDistinct(s: seq<Item>) {
    forall i, j :: 0 <= i < j < |s| ==> Pair(s[i].k) != Pair(s[j].k)
  }

  lemma {:induction false} PairRank(k: Key, l: Key)
    ensures Rank(k) < Rank(l) && Pair(k) != Pair(l) ==> Pair(k) < Pair(l)
    ensures Pair(k) < Pair(l) ==> Rank(k) < Rank(l)
    ensures Pair(k) == Pair(l) <==> k.objID == l.objID && k.typ == l.typ
  {
  }

  lemma {:induction false} InsertSortedMembers(s: seq<Item>, x: Item)
    ensures |InsertSorted(s, x)| == |s| + 1
    ensures forall y :: y in InsertSorted(s, x) <==> y in s || y == x
  {
    var p := InsertPos(s, x.k);
    CutAt(s, p);
    assert forall y :: y in s <==> y in s[..p] || y in s[p..];
  }

  /** Sorting records with distinct (objectid, type) gives the same records in strict key order. */
  lemma {:induction false} SortItemsSorted(s: seq<Item>)
    requires PairsDistinct(s)
    ensures var r := SortItems(s);
            |r| == |s| && (forall y :: y in r <==> y in s) && ItemsIn(r, 0, RANK_LIMIT)
  {
    if s != [] {
      var p, x := s[..|s|-1], s[|s|-1];
      SortItemsSorted(p);
      InsertSortedMembers(SortItems(p), x);
      assert forall y :: y in s <==> y in p || y == x;
      CompareIsRank(x.k, x.k);
      forall i | 0 <= i < |SortItems(p)| ensures SortItems(p)[i].k != x.k {
        assert SortItems(p)[i] in p;
      }
      InsertSortedIn(SortItems(p), x, 0, RANK_LIMIT);
    }
  }

  lemma {:induction false} SortedPairs(s: seq<Item>)
    requires PairsDistinct(s)
    ensures PairsDistinct(SortItems(s))
  {
    SortItemsSorted(s);
    var r := SortItems(s);
    forall i, j | 0 <= i < j < |r| ensures Pair(r[i].k) != Pair(r[j].k) {
      assert r[i] in s && r[j] in s;
      assert Rank(r[i].k) < Rank(r[j].k);
    }
  }

  // ---- embedding one record set in another ---------------------------------------------------------------

  /** y takes the place of x: same (objectid, type) and same size. */
  ghost predicate Stands(x: Item, y: Item) {
    Pair(x.k) == Pair(y.k) && |x.data| == |y.data|
  }

  ghost predicate Replaced(s: seq<Item>, t: seq<Item>) {
    forall i :: 0 <= i < |s| ==> HasStandIn(s[i], t)
  }

  ghost predicate HasStandIn(x: Item, t: seq<Item>) {
    exists j :: 0 <= j < |t| && Stands(x, t[j])
  }

  lemma {:induction false} Positions(s: seq<Item>, t: seq<Item>) returns (f: seq<nat>)
    requires Replaced(s, t)
    ensures |f| == |s| && forall i :: 0 <= i < |s| ==> f[i] < |t| && Stands(s[i], t[f[i]])
  {
    if s == [] {
      f := [];
    } else {
      var p := s[..|s|-1];
      assert forall i :: 0 <= i < |p| ==> p[i] == s[i];
      f := Positions(p, t);
      assert HasStandIn(s[|s|-1], t);
      var j :| 0 <= j < |t| && Stands(s[|s|-1], t[j]);
      f := f + [j];
    }
  }

  lemma {:induction false} SortedIndex(t: seq<Item>, i: nat, j: nat)
    requires ItemsIn(t, 0, RANK_LIMIT) && i < |t| && j < |t|
    ensures i <= j <==> Rank(t[i].k) <= Rank(t[j].k)
  {
  }

  /** Records that all have a stand-in in a larger sorted set need no more leaves than it. */
  lemma {:induction false} MoreLeaves(s: seq<Item>, t: seq<Item>, cap: int)
    requires ItemsIn(s, 0, RANK_LIMIT) && ItemsIn(t, 0, RANK_LIMIT) && PairsDistinct(s) && Replaced(s, t)
    ensures |Greedy(Needs(s), 0, cap)| <= |Greedy(Needs(t), 0, cap)|
  {
    var f := Positions(s, t);
    forall k, l | 0 <= k < l < |f| ensures f[k] < f[l] {
      PairRank(s[k].k, s[l].k);
      PairRank(t[f[k]].k, t[f[l]].k);
      SortedIndex(t, f[l], f[k]);
    }
    MoreRecords(Needs(s), Needs(t), f, cap);
  }
}
