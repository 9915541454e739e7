/** The finished extent tree describes itself: its block records and its nodes are in bijection. */
module ExtentSelf {
  import opened Keys
  import opened FreeSpace
  import opened Trees
  import opened Partitions
  import opened InteriorShapes
  import opened BulkTree
  import opened Bytes
  import opened ExtentRecords
  import opened ExtentPlan
  import opened ExtentFixpoint

  /** t has a node of level lvl at address a. */
  ghost predicate HasNode(t: Tree, a: nat, lvl: nat) {
    (t.addr == a && LevelOf(t) == lvl) || (t.Node? && exists i :: 0 <= i < |t.kids| && HasNode(t.kids[i].sub, a, lvl))
  }

  ghost predicate KidsHave(ks: seq<Kid>, a: nat, lvl: nat) {
    exists i :: 0 <= i < |ks| && HasNode(ks[i].sub, a, lvl)
  }

  /** The plan puts a node of level lvl at address a. */
  ghost predicate InPlan(leafLogs: seq<nat>, logss: seq<seq<nat>>, a: nat, lvl: nat) {
    (lvl == 0 && a in leafLogs) || (1 <= lvl <= |logss| && a in logss[lvl-1])
  }

  // ---- the nodes of the tree -----------------------------------------------------------------------------

  lemma {:induction false} KidsHaveConcat(p: seq<Kid>, q: seq<Kid>, a: nat, lvl: nat)
    ensures KidsHave(p + q, a, lvl) <==> KidsHave(p, a, lvl) || KidsHave(q, a, lvl)
  {
    var s := p + q;
    if i :| 0 <= i < |p| && HasNode(p[i].sub, a, lvl) {
      assert s[i] == p[i];
    }
    if i :| 0 <= i < |q| && HasNode(q[i].sub, a, lvl) {
      assert s[|p| + i] == q[i];
    }
    if i :| 0 <= i < |s| && HasNode(s[i].sub, a, lvl) {
      assert s[i] == if i < |p| then p[i] else q[i-|p|];
    }
  }

  lemma {:induction false} KidsHaveOne(x: Kid, a: nat, lvl: nat)
    ensures KidsHave([x], a, lvl) <==> HasNode(x.sub, a, lvl)
  {
    if HasNode(x.sub, a, lvl) {
      assert [x][0] == x;
    }
  }

  lemma {:induction false} FrontOrRest(s: seq<nat>, a: nat)
    requires s != []
    ensures a in s <==> a == s[0] || a in s[1..]
  {
    if a in s {
      var i :| 0 <= i < |s| && s[i] == a;
      if i > 0 {
        assert s[1..][i-1] == a;
      }
    }
  }

  lemma {:induction false} LeafKidsHave(recs: seq<Item>, rs: seq<Span>, logs: seq<nat>, g: nat, a: nat, lvl: nat)
    requires |rs| == |logs| && forall i :: 0 <= i < |rs| ==> rs[i].start < rs[i].end <= |recs|
    ensures KidsHave(LeafKids(recs, rs, logs, g), a, lvl) <==> lvl == 0 && a in logs
    decreases |rs|
  {
    if rs != [] {
      var x := LeafKid(recs, rs[0], logs[0], g);
      LeafKidsHave(recs, rs[1..], logs[1..], g, a, lvl);
      KidsHaveConcat([x], LeafKids(recs, rs[1..], logs[1..], g), a, lvl);
      KidsHaveOne(x, a, lvl);
      FrontOrRest(logs, a);
    }
  }

  lemma {:induction false} GroupHave(ks: seq<Kid>, logs: seq<nat>, lv: nat, g: nat, icap: nat, a: nat, lvl: nat)
    requires 1 <= |logs| <= |ks| <= Room(|logs|, icap)
    ensures KidsHave(GroupKids(ks, logs, lv, g), a, lvl) <==> KidsHave(ks, a, lvl) || (lvl == lv && a in logs)
    decreases |logs|
  {
    ShareBounds(|ks|, |logs|, icap);
    var per := CeilDiv(|ks|, |logs|);
    var x := Kid(ks[0].sep, g, Node(logs[0], g, lv, ks[..per]));
    KidsHaveConcat([x], GroupKids(ks[per..], logs[1..], lv, g), a, lvl);
    KidsHaveOne(x, a, lvl);
    KidsHaveConcat(ks[..per], ks[per..], a, lvl);
    CutAt(ks, per);
    FrontOrRest(logs, a);
    if |logs| > 1 {
      GroupHave(ks[per..], logs[1..], lv, g, icap, a, lvl);
    }
  }

  lemma {:induction false} StackHave(ks: seq<Kid>, logss: seq<seq<nat>>, lv: nat, g: nat, icap: nat, a: nat, lvl: nat)
    requires Planned(|ks|, logss, icap)
    ensures KidsHave(StackLevels(ks, logss, lv, g), a, lvl) <==>
            KidsHave(ks, a, lvl) || (lv <= lvl < lv + |logss| && a in logss[lvl-lv])
    decreases |logss|
  {
    if logss != [] {
      GroupHave(ks, logss[0], lv, g, icap, a, lvl);
      GroupContents(ks, logss[0], lv, g, icap);
      StackHave(GroupKids(ks, logss[0], lv, g), logss[1..], lv + 1, g, icap, a, lvl);
    }
  }

  lemma {:induction false} BulkHas(recs: seq<Item>, rs: seq<Span>, leafLogs: seq<nat>, logss: seq<seq<nat>>, g: nat,
                                   icap: nat, a: nat, lvl: nat)
    requires forall i :: 0 <= i < |rs| ==> rs[i].start < rs[i].end <= |recs|
    requires |rs| == |leafLogs| && Planned(|rs|, logss, icap)
    ensures KidsHave(Bulk(recs, rs, leafLogs, logss, g), a, lvl) <==> InPlan(leafLogs, logss, a, lvl)
  {
    LeafKidsLen(recs, rs, leafLogs, g);
    LeafKidsHave(recs, rs, leafLogs, g, a, lvl);
    StackHave(LeafKids(recs, rs, leafLogs, g), logss, 1, g, icap, a, lvl);
  }

  // ---- the block records ------------------------------------------------------------------------------------

  lemma {:induction false} InnerRecsIn(logss: seq<seq<nat>>, lv: nat, a: nat, i: nat)
    requires i < |logss| && a in logss[i]
    ensures BlockRec(a, lv + i) in InnerRecs(logss, lv)
    decreases |logss|
  {
    hide BlockRec;
    if i == 0 {
      var j :| 0 <= j < |logss[0]| && logss[0][j] == a;
      assert LevelRecs(logss[0], lv)[j] == BlockRec(a, lv);
    } else {
      InnerRecsIn(logss[1..], lv + 1, a, i - 1);
    }
  }

  lemma {:induction false} InnerRecsFrom(logss: seq<seq<nat>>, lv: nat, x: Item) returns (a: nat, i: nat)
    requires x in InnerRecs(logss, lv)
    ensures i < |logss| && a in logss[i] && x == BlockRec(a, lv + i)
    decreases |logss|
  {
    var r := LevelRecs(logss[0], lv);
    if x in r {
      var j :| 0 <= j < |r| && r[j] == x;
      a, i := logss[0][j], 0;
    } else {
      a, i := InnerRecsFrom(logss[1..], lv + 1, x);
      i := i + 1;
    }
  }

  /** Every planned block has its record. */
  lemma {:induction false} BlockRecsIn(p: Plan, a: nat, lvl: nat)
    requires p.Plan? && InPlan(p.leafLogs, p.logss, a, lvl)
    ensures BlockRec(a, lvl) in BlockRecs(p)
  {
    if lvl == 0 {
      var j :| 0 <= j < |p.leafLogs| && p.leafLogs[j] == a;
      assert LevelRecs(p.leafLogs, 0)[j] == BlockRec(a, 0);
    } else {
      InnerRecsIn(p.logss, 1, a, lvl - 1);
    }
  }

  /** Every block record belongs to a planned block. */
  lemma {:induction false} BlockRecsFrom(p: Plan, x: Item) returns (a: nat, lvl: nat)
    requires p.Plan? && x in BlockRecs(p)
    ensures InPlan(p.leafLogs, p.logss, a, lvl) && x == BlockRec(a, lvl)
  {
    var r := LevelRecs(p.leafLogs, 0);
    if x in r {
      var j :| 0 <= j < |r| && r[j] == x;
      a, lvl := p.leafLogs[j], 0;
    } else {
      var i: nat;
      a, i := InnerRecsFrom(p.logss, 1, x);
      lvl := 1 + i;
    }
  }

  // ---- the finished tree ---------------------------------------------------------------------------------------

  /** The records recs of the tree t over the blocks addrs: each node of t has one with its address and level,
      and no other is owned by the extent tree; the rest are the records of the input and one per block
      group, whose used count is the base plus the node size for each node of t in the chunk. */
  ghost predicate SelfDescribed(t: Tree, recs: seq<Item>, inp: Input, addrs: seq<nat>, ns: nat) {
    && NodesRecorded(t, recs) && OwnedAreNodes(t, recs) && NodesAt(t, addrs)
    && (forall x :: x in recs ==> x in inp.base || IsGroupRec(x, inp, addrs, ns) || IsNodeRec(x, t))
    && (forall x :: x in inp.base ==> x in recs)
    && (forall g :: g in inp.groups ==> exists x :: x in recs && RecordsGroup(x, g, UsedBy(inp, addrs, g.start, ns)))
  }

  /** Each node has a record with its address and level, and no two nodes share one. */
  ghost predicate NodesRecorded(t: Tree, recs: seq<Item>) {
    forall a: nat, l: nat :: HasNode(t, a, l) ==>
        && (exists x :: x in recs && RecordsBlock(x, a, l))
        && (forall m: nat :: HasNode(t, a, m) ==> m == l)
  }

  /** Each record with the extent tree as owner is that of a node. */
  ghost predicate OwnedAreNodes(t: Tree, recs: seq<Item>) {
    forall x :: x in recs && x.k.typ == 0xA9 && |x.data| == 33 && UnLe(x.data[25..]) == 2 ==>
        HasNode(t, x.k.objID as nat, x.k.offset as nat)
  }

  ghost predicate HasSome(t: Tree, a: nat) {
    exists l: nat :: HasNode(t, a, l)
  }

  /** The nodes stand at exactly the addresses addrs. */
  ghost predicate NodesAt(t: Tree, addrs: seq<nat>) {
    forall a: nat :: a in addrs <==> HasSome(t, a)
  }

  ghost predicate IsNodeRec(x: Item, t: Tree) {
    HasNode(t, x.k.objID as nat, x.k.offset as nat) && RecordsBlock(x, x.k.objID as nat, x.k.offset as nat)
  }

  /** The base count of a chunk and ns for each of the blocks in it. */
  ghost function UsedBy(inp: Input, addrs: seq<nat>, cs: u64, ns: nat): nat {
    BaseUsed(inp, cs) + |Placed(inp, addrs, cs)| * ns
  }

  /** The blocks of addrs in chunk cs. */
  ghost function Placed(inp: Input, addrs: seq<nat>, cs: u64): set<nat> {
    set a | a in addrs && inp.chunkOf(a) == Some(cs)
  }

  ghost predicate IsGroupRec(x: Item, inp: Input, addrs: seq<nat>, ns: nat) {
    exists g :: g in inp.groups && RecordsGroup(x, g, UsedBy(inp, addrs, g.start, ns))
  }

  lemma {:induction false} CountIsCard(inp: Input, addrs: seq<nat>, cs: u64)
    requires forall i, j :: 0 <= i < j < |addrs| ==> addrs[i] != addrs[j]
    ensures CountIn(inp, addrs, cs) == |Placed(inp, addrs, cs)|
  {
    hide Placed;
    if addrs == [] {
      PlacedNone(inp, cs);
    } else {
      var q, y := addrs[..|addrs|-1], addrs[|addrs|-1];
      CountIsCard(inp, q, cs);
      PlacedSnoc(inp, q, y, cs);
      assert addrs == q + [y];
    }
  }

  lemma {:induction false} PlacedNone(inp: Input, cs: u64)
    ensures Placed(inp, [], cs) == {}
  {
  }

  lemma {:induction false} PlacedSnoc(inp: Input, q: seq<nat>, y: nat, cs: u64)
    requires y !in q
    ensures Placed(inp, q + [y], cs) == Placed(inp, q, cs) + (if inp.chunkOf(y) == Some(cs) then {y} else {})
    ensures y !in Placed(inp, q, cs)
  {
  }

  lemma {:induction false} GroupReads(inp: Input, addrs: seq<nat>, ns: nat, g: Group)
    requires Separate(addrs)
    ensures RecordsGroup(GroupRec(g, GroupUsed(inp, addrs, g.start, ns)), g, UsedBy(inp, addrs, g.start, ns))
  {
    CountIsCard(inp, addrs, g.start);
    GroupRoundTrip(GroupUsed(inp, addrs, g.start, ns), g.flags);
  }

  lemma {:induction false} GroupRecsFrom(inp: Input, addrs: seq<nat>, ns: nat, x: Item)
    requires x in GroupRecs(inp, addrs, ns) && Separate(addrs)
    ensures IsGroupRec(x, inp, addrs, ns) && x.k.typ == 0xC0
  {
    var r := GroupRecs(inp, addrs, ns);
    var j :| 0 <= j < |r| && r[j] == x;
    assert inp.groups[j] in inp.groups;
    GroupReads(inp, addrs, ns, inp.groups[j]);
  }

  lemma {:induction false} GroupRecsIn(inp: Input, addrs: seq<nat>, ns: nat, g: Group)
    requires g in inp.groups
    ensures GroupRec(g, GroupUsed(inp, addrs, g.start, ns)) in GroupRecs(inp, addrs, ns)
  {
    var j :| 0 <= j < |inp.groups| && inp.groups[j] == g;
    assert GroupRecs(inp, addrs, ns)[j] == GroupRec(g, GroupUsed(inp, addrs, g.start, ns));
  }

  // ---- one record, one node ------------------------------------------------------------------------------------

  /** Pairwise different addresses within 64 bits. */
  ghost predicate Separate(s: seq<nat>) {
    (forall i, j :: 0 <= i < j < |s| ==> s[i] != s[j]) && forall i :: 0 <= i < |s| ==> s[i] < U64_LIMIT
  }

  lemma {:induction false} SeparateParts(s: seq<nat>, t: seq<nat>, a: nat)
    requires Separate(s + t)
    ensures Separate(t) && !(a in s && a in t) && (a in s || a in t ==> a < U64_LIMIT)
  {
    forall i | 0 <= i < |s| ensures s[i] == (s + t)[i] {
    }
    forall i | 0 <= i < |t| ensures t[i] == (s + t)[|s| + i] {
    }
  }

  lemma {:induction false} InFlat(logss: seq<seq<nat>>, i: nat, a: nat)
    requires i < |logss| && a in logss[i]
    ensures a in Flat(logss)
    decreases |logss|
  {
    if i > 0 {
      InFlat(logss[1..], i - 1, a);
    }
  }

  lemma {:induction false} OneLevelEach(logss: seq<seq<nat>>, i: nat, j: nat, a: nat)
    requires i <= j < |logss| && a in logss[i] && a in logss[j] && Separate(Flat(logss))
    ensures i == j
    decreases |logss|
  {
    SeparateParts(logss[0], Flat(logss[1..]), a);
    if i > 0 {
      OneLevelEach(logss[1..], i - 1, j - 1, a);
    } else if j > 0 {
      InFlat(logss[1..], j - 1, a);
    }
  }

  /** An address of a plan belongs to one level and fits 64 bits. */
  lemma {:induction false} OnePlace(p: Plan, a: nat, l: nat, m: nat)
    requires p.Plan? && Separate(Blocks(p)) && InPlan(p.leafLogs, p.logss, a, l) && InPlan(p.leafLogs, p.logss, a, m)
             && l <= m
    ensures l == m && a < U64_LIMIT
  {
    SeparateParts(p.leafLogs, Flat(p.logss), a);
    if m > 0 {
      InFlat(p.logss, m - 1, a);
      if l > 0 {
        OneLevelEach(p.logss, l - 1, m - 1, a);
      }
    }
  }

  /** Different planned blocks have different records. */
  lemma {:induction false} RecordsApart(p: Plan, a: nat, l: nat, b: nat, m: nat)
    requires p.Plan? && Separate(Blocks(p)) && InPlan(p.leafLogs, p.logss, a, l) && InPlan(p.leafLogs, p.logss, b, m)
    requires BlockRec(a, l) == BlockRec(b, m)
    ensures a == b && l == m
  {
    OnePlace(p, a, l, l);
    OnePlace(p, b, m, m);
    assert U64(a) as nat == a && U64(b) as nat == b;
    if l <= m {
      OnePlace(p, a, l, m);
    } else {
      OnePlace(p, a, m, l);
    }
  }

  lemma {:induction false} PlanSeparate(inp: Input, fr: seq<Extent>, ns: nat, l: nat, icap: nat)
    requires ns > 0 && icap >= 2 && l >= 1 && Canonical(fr) && ValidInput(inp, fr) && PlanFor(fr, ns, l, icap).Plan?
    ensures Separate(Blocks(PlanFor(fr, ns, l, icap)))
  {
    var s := Blocks(PlanFor(fr, ns, l, icap));
    PlanShape(fr, ns, l, icap);
    forall i, j | 0 <= i < j < |s| ensures s[i] != s[j] {
      TakenDistinct(fr, ns, BlockCount(l, icap), i, j);
    }
    forall i | 0 <= i < |s| ensures s[i] < U64_LIMIT {
      TakenFree(fr, ns, BlockCount(l, icap), i);
    }
  }

  /** Different numbers below n are at most n. */
  lemma {:induction false} Pigeons(s: seq<nat>, n: nat)
    requires (forall i, j :: 0 <= i < j < |s| ==> s[i] != s[j]) && forall i :: 0 <= i < |s| ==> s[i] < n
    ensures |s| <= n
    decreases n
  {
    if s != [] {
      assert s[0] < n;
      if i :| 0 <= i < |s| && s[i] == n - 1 {
        Pigeons(s[..i] + s[i + 1..], n - 1);
      } else {
        Pigeons(s, n - 1);
      }
    }
  }

  lemma {:induction false} Doubled64()
    ensures Doubled(64) == U64_LIMIT
  {
    hide Doubled;
    Doubled4();
    DoubledAdd(4, 4);
    DoubledAdd(8, 8);
    DoubledAdd(16, 16);
    DoubledAdd(32, 32);
  }

  lemma {:induction false} Doubled4()
    ensures Doubled(4) == 0x10
  {
  }

  lemma {:induction false} DoubledAdd(m: nat, n: nat)
    ensures Doubled(m + n) == Doubled(m) * Doubled(n)
  {
    if n > 0 {
      DoubledAdd(m, n - 1);
    }
  }

  /** With blocks at different 64-bit addresses there are at most 64 levels above the leaves. */
  lemma {:induction false} PlanLow(inp: Input, fr: seq<Extent>, ns: nat, l: nat, icap: nat)
    requires ns > 0 && icap >= 2 && l >= 1 && Canonical(fr) && ValidInput(inp, fr) && PlanFor(fr, ns, l, icap).Plan?
    ensures |PlanFor(fr, ns, l, icap).logss| <= 64
  {
    hide Levels, BlockCount, TakeBlocks, CutLevels, Flat, ValidInput, Canonical;
    var p := PlanFor(fr, ns, l, icap);
    PlanSeparate(inp, fr, ns, l, icap);
    PlanShape(fr, ns, l, icap);
    Pigeons(Blocks(p), U64_LIMIT);
    Doubled64();
    LevelsShort(l, icap, 64);
  }

  lemma {:induction false} PlanAddr(p: Plan, a: nat, t: Tree)
    requires p.Plan? && forall b: nat, lvl: nat :: HasNode(t, b, lvl) <==> InPlan(p.leafLogs, p.logss, b, lvl)
    ensures a in Blocks(p) <==> HasSome(t, a)
  {
    hide HasNode;
    if a in p.leafLogs {
      assert HasNode(t, a, 0);
    } else if a in Flat(p.logss) {
      var i := FlatFrom(p.logss, a);
      assert HasNode(t, a, i + 1);
    }
    if HasSome(t, a) {
      var l: nat :| HasNode(t, a, l);
      if l > 0 {
        InFlat(p.logss, l - 1, a);
      }
    }
  }

  lemma {:induction false} FlatFrom(logss: seq<seq<nat>>, a: nat) returns (i: nat)
    requires a in Flat(logss)
    ensures i < |logss| && a in logss[i]
    decreases |logss|
  {
    if a in logss[0] {
      i := 0;
    } else {
      i := FlatFrom(logss[1..], a);
      i := i + 1;
    }
  }

  /** A block of a plan has a record that reads as it should. */
  lemma {:induction false} BlockRecorded(inp: Input, fr: seq<Extent>, ns: nat, l: nat, icap: nat, a: nat, lvl: nat)
    requires ns > 0 && icap >= 2 && l >= 1 && Canonical(fr) && ValidInput(inp, fr) && PlanFor(fr, ns, l, icap).Plan?
    requires InPlan(PlanFor(fr, ns, l, icap).leafLogs, PlanFor(fr, ns, l, icap).logss, a, lvl)
    ensures RecordsBlock(BlockRec(a, lvl), a, lvl) && TreeOwned(BlockRec(a, lvl))
    ensures var p := PlanFor(fr, ns, l, icap); forall m: nat :: InPlan(p.leafLogs, p.logss, a, m) ==> m == lvl
  {
    hide PlanFor, Canonical, ValidInput, Separate, Blocks, BlockRec;
    var p := PlanFor(fr, ns, l, icap);
    PlanSeparate(inp, fr, ns, l, icap);
    PlanLow(inp, fr, ns, l, icap);
    OnePlace(p, a, lvl, lvl);
    BlockRecReads(a, lvl);
    forall m: nat | InPlan(p.leafLogs, p.logss, a, m) ensures m == lvl {
      if m <= lvl {
        OnePlace(p, a, m, lvl);
      } else {
        OnePlace(p, a, lvl, m);
      }
    }
  }

  /** Where a record of a layout comes from. */
  lemma {:induction false} RecordFrom(inp: Input, fr: seq<Extent>, ns: nat, l: nat, icap: nat, x: Item)
    requires ns > 0 && icap >= 2 && l >= 1 && Canonical(fr) && ValidInput(inp, fr) && PlanFor(fr, ns, l, icap).Plan?
    requires x in Unsorted(inp, PlanFor(fr, ns, l, icap), ns)
    ensures var p := PlanFor(fr, ns, l, icap);
            || (x in inp.base && !TreeOwned(x)) || (IsGroupRec(x, inp, Blocks(p), ns) && !TreeOwned(x))
            || (InPlan(p.leafLogs, p.logss, x.k.objID as nat, x.k.offset as nat)
                && RecordsBlock(x, x.k.objID as nat, x.k.offset as nat))
  {
    hide PlanFor, Canonical, Separate, Blocks, BlockRec, BlockRecs, GroupRecs, IsGroupRec, InPlan;
    var p := PlanFor(fr, ns, l, icap);
    PlanSeparate(inp, fr, ns, l, icap);
    if x in BlockRecs(p) {
      var a, lvl := BlockRecsFrom(p, x);
      BlockRecorded(inp, fr, ns, l, icap, a, lvl);
    } else if x in GroupRecs(inp, Blocks(p), ns) {
      GroupRecsFrom(inp, Blocks(p), ns, x);
    }
  }

  lemma {:induction false} SameMembers(t: Tree, s: seq<Item>, r: seq<Item>)
    requires forall x :: x in s <==> x in r
    ensures NodesRecorded(t, s) ==> NodesRecorded(t, r)
    ensures OwnedAreNodes(t, s) ==> OwnedAreNodes(t, r)
  {
    hide HasNode, RecordsBlock, UnLe;
    if NodesRecorded(t, s) {
      forall a: nat, l: nat | HasNode(t, a, l)
        ensures exists x :: x in r && RecordsBlock(x, a, l)
      {
        var x :| x in s && RecordsBlock(x, a, l);
        assert x in r;
      }
    }
  }

  lemma {:induction false} NodesAreRecorded(t: Tree, inp: Input, fr: seq<Extent>, ns: nat, l: nat, icap: nat)
    requires ns > 0 && icap >= 2 && l >= 1 && Canonical(fr) && ValidInput(inp, fr) && PlanFor(fr, ns, l, icap).Plan?
    requires var p := PlanFor(fr, ns, l, icap);
             forall a: nat, lvl: nat :: HasNode(t, a, lvl) <==> InPlan(p.leafLogs, p.logss, a, lvl)
    ensures NodesRecorded(t, Unsorted(inp, PlanFor(fr, ns, l, icap), ns))
  {
    hide HasNode, InPlan, BlockRec, BlockRecs, GroupRecs, PlanFor, Canonical, ValidInput, RecordsBlock, TreeOwned;
    var p := PlanFor(fr, ns, l, icap);
    var u := Unsorted(inp, p, ns);
    forall a: nat, lvl: nat | HasNode(t, a, lvl)
      ensures exists x :: x in u && RecordsBlock(x, a, lvl)
      ensures forall m: nat :: HasNode(t, a, m) ==> m == lvl
    {
      BlockRecsIn(p, a, lvl);
      BlockRecorded(inp, fr, ns, l, icap, a, lvl);
      assert BlockRec(a, lvl) in u;
    }
  }

  lemma {:induction false} RecordsFrom(t: Tree, inp: Input, fr: seq<Extent>, ns: nat, l: nat, icap: nat)
    requires ns > 0 && icap >= 2 && l >= 1 && Canonical(fr) && ValidInput(inp, fr) && PlanFor(fr, ns, l, icap).Plan?
    requires var p := PlanFor(fr, ns, l, icap);
             forall a: nat, lvl: nat :: HasNode(t, a, lvl) <==> InPlan(p.leafLogs, p.logss, a, lvl)
    ensures var p := PlanFor(fr, ns, l, icap); var u := Unsorted(inp, p, ns);
            && OwnedAreNodes(t, u)
            && forall x :: x in u ==> x in inp.base || IsGroupRec(x, inp, Blocks(p), ns) || IsNodeRec(x, t)
  {
    hide HasNode, InPlan, Unsorted, PlanFor, Canonical, ValidInput, RecordsBlock, IsGroupRec, UnLe, Blocks;
    var p := PlanFor(fr, ns, l, icap);
    var u := Unsorted(inp, p, ns);
    forall x | x in u
      ensures || (x in inp.base && !TreeOwned(x)) || (IsGroupRec(x, inp, Blocks(p), ns) && !TreeOwned(x))
              || IsNodeRec(x, t)
    {
      RecordFrom(inp, fr, ns, l, icap, x);
    }
  }

  lemma {:induction false} BlocksAreNodes(t: Tree, p: Plan)
    requires p.Plan? && forall a: nat, lvl: nat :: HasNode(t, a, lvl) <==> InPlan(p.leafLogs, p.logss, a, lvl)
    ensures NodesAt(t, Blocks(p))
  {
    hide HasNode, InPlan, Blocks, HasSome;
    forall a: nat ensures a in Blocks(p) <==> HasSome(t, a) {
      PlanAddr(p, a, t);
    }
  }

  lemma {:induction false} InputRecorded(inp: Input, fr: seq<Extent>, ns: nat, l: nat, icap: nat)
    requires ns > 0 && icap >= 2 && l >= 1 && Canonical(fr) && ValidInput(inp, fr) && PlanFor(fr, ns, l, icap).Plan?
    ensures var p := PlanFor(fr, ns, l, icap); var u := Unsorted(inp, p, ns);
            && (forall x :: x in inp.base ==> x in u)
            && (forall g :: g in inp.groups ==>
                    exists x :: x in u && RecordsGroup(x, g, UsedBy(inp, Blocks(p), g.start, ns)))
  {
    hide PlanFor, Canonical, ValidInput, Blocks, BlockRecs, GroupRec, GroupRecs, GroupUsed, UsedBy, RecordsGroup,
         Separate;
    var p := PlanFor(fr, ns, l, icap);
    var u := Unsorted(inp, p, ns);
    PlanSeparate(inp, fr, ns, l, icap);
    forall g | g in inp.groups
      ensures exists x :: x in u && RecordsGroup(x, g, UsedBy(inp, Blocks(p), g.start, ns))
    {
      GroupRecsIn(inp, Blocks(p), ns, g);
      GroupReads(inp, Blocks(p), ns, g);
      assert GroupRec(g, GroupUsed(inp, Blocks(p), g.start, ns)) in u;
    }
  }

  /** A layout whose tree has exactly the planned nodes describes itself. */
  lemma {:induction false} PlanDescribesItself(t: Tree, inp: Input, fr: seq<Extent>, ns: nat, l: nat, icap: nat)
    requires ns > 0 && icap >= 2 && l >= 1 && Canonical(fr) && ValidInput(inp, fr) && PlanFor(fr, ns, l, icap).Plan?
    requires var p := PlanFor(fr, ns, l, icap);
             forall a: nat, lvl: nat :: HasNode(t, a, lvl) <==> InPlan(p.leafLogs, p.logss, a, lvl)
    ensures var p := PlanFor(fr, ns, l, icap); SelfDescribed(t, Records(inp, p, ns), inp, Blocks(p), ns)
  {
    hide HasNode, InPlan, PairsDistinct, PlanFor, UsedBy, Canonical, ValidInput, Blocks, RecordsGroup, IsGroupRec,
         IsNodeRec, NodesRecorded, OwnedAreNodes, NodesAt, Unsorted;
    var p := PlanFor(fr, ns, l, icap);
    var u := Unsorted(inp, p, ns);
    UnsortedPairs(inp, fr, ns, l, icap);
    SortItemsSorted(u);
    NodesAreRecorded(t, inp, fr, ns, l, icap);
    RecordsFrom(t, inp, fr, ns, l, icap);
    BlocksAreNodes(t, p);
    InputRecorded(inp, fr, ns, l, icap);
    SameMembers(t, u, Records(inp, p, ns));
  }
}
