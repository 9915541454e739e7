/** The tree that writeMultiLevelTree (extent_multilevel.go) lays out over sorted records. */
module BulkTree {
  import opened Keys
  import opened FreeSpace
  import opened Trees
  import opened CowShape
  import opened CowConserve
  import opened Partitions
  import opened InteriorShapes

  /** The bytes each record takes in a leaf. */
  function Needs(recs: seq<Item>): (n: seq<nat>)
    ensures |n| == |recs| && forall i :: 0 <= i < |n| ==> n[i] == ITEM_SIZE + |recs[i].data|
  {
    seq(|recs|, i requires 0 <= i < |recs| => ITEM_SIZE + |recs[i].data|)
  }

  function LeafKid(recs: seq<Item>, s: Span, a: nat, g: nat): Kid
    requires s.start < s.end <= |recs|
  {
    Kid(recs[s.start].k, g, Leaf(a, g, recs[s.start..s.end]))
  }

  function LeafKids(recs: seq<Item>, rs: seq<Span>, logs: seq<nat>, g: nat): seq<Kid>
    requires |rs| == |logs| && forall i :: 0 <= i < |rs| ==> rs[i].start < rs[i].end <= |recs|
  {
    if rs == [] then [] else [LeafKid(recs, rs[0], logs[0], g)] + LeafKids(recs, rs[1..], logs[1..], g)
  }

  /** One interior level: each node takes the rounded-up share of the children that remain. */
  function GroupKids(ks: seq<Kid>, logs: seq<nat>, lvl: nat, g: nat): seq<Kid> {
    if logs == [] || ks == [] then []
    else
      var per := CeilDiv(|ks|, |logs|);
      if per > |ks| then []
      else [Kid(ks[0].sep, g, Node(logs[0], g, lvl, ks[..per]))] + GroupKids(ks[per..], logs[1..], lvl, g)
  }

  function StackLevels(ks: seq<Kid>, logss: seq<seq<nat>>, lvl: nat, g: nat): seq<Kid>
    decreases |logss|
  {
    if logss == [] then ks else StackLevels(GroupKids(ks, logss[0], lvl, g), logss[1..], lvl + 1, g)
  }

  /** Every pointer carries the generation g of its child, all the way down. */
  ghost predicate Fresh(ks: seq<Kid>, g: nat) {
    forall i :: 0 <= i < |ks| ==> ks[i].gen == g && ks[i].sub.gen == g && GenOK(ks[i].sub)
  }

  /** A child of level lvl for the key range [lo, hi). */
  ghost predicate Solid(x: Kid, lvl: nat, lo: int, hi: int, g: nat, ns: nat) {
    Rank(x.sep) == lo && lo < hi && Good(x.sub, lvl, lo, hi, ns) && x.gen == g && x.sub.gen == g && GenOK(x.sub)
  }

  /** Sibling subtrees of level lvl that together cover the key range [lo, hi). */
  ghost predicate Layer(ks: seq<Kid>, lvl: nat, lo: int, hi: int, g: nat, ns: nat) {
    if ks == [] then false
    else if |ks| == 1 then Solid(ks[0], lvl, lo, hi, g, ns)
    else
      var mid := Rank(ks[1].sep);
      Solid(ks[0], lvl, lo, mid, g, ns) && Layer(ks[1..], lvl, mid, hi, g, ns)
  }

  lemma {:induction false} LayerStart(ks: seq<Kid>, lvl: nat, lo: int, hi: int, g: nat, ns: nat)
    requires Layer(ks, lvl, lo, hi, g, ns)
    ensures Rank(ks[0].sep) == lo < hi
    decreases |ks|
  {
    if |ks| > 1 {
      LayerStart(ks[1..], lvl, Rank(ks[1].sep), hi, g, ns);
    }
  }

  lemma {:induction false} LayerCons(x: Kid, q: seq<Kid>, lvl: nat, lo: int, mid: int, hi: int, g: nat, ns: nat)
    requires Solid(x, lvl, lo, mid, g, ns) && Layer(q, lvl, mid, hi, g, ns)
    ensures Layer([x] + q, lvl, lo, hi, g, ns)
  {
    LayerStart(q, lvl, mid, hi, g, ns);
    assert ([x] + q)[1..] == q;
  }

  /** A layer cut in two is two layers. */
  lemma {:induction false} LayerCut(ks: seq<Kid>, per: nat, lvl: nat, lo: int, hi: int, g: nat, ns: nat)
    requires Layer(ks, lvl, lo, hi, g, ns) && 1 <= per < |ks|
    ensures Layer(ks[..per], lvl, lo, Rank(ks[per].sep), g, ns) && Layer(ks[per..], lvl, Rank(ks[per].sep), hi, g, ns)
    decreases |ks|
  {
    var mid := Rank(ks[1].sep);
    if per == 1 {
      assert ks[..1] == [ks[0]];
    } else {
      LayerCut(ks[1..], per - 1, lvl, mid, hi, g, ns);
      assert ks[1..][per-1] == ks[per] && ks[1..][per-1..] == ks[per..];
      LayerCons(ks[0], ks[1..][..per-1], lvl, lo, mid, Rank(ks[per].sep), g, ns);
      assert [ks[0]] + ks[1..][..per-1] == ks[..per];
    }
  }

  /** A layer makes the children of a node. */
  lemma {:induction false} LayerKids(ks: seq<Kid>, lvl: nat, lo: int, hi: int, g: nat, ns: nat)
    requires Layer(ks, lvl, lo, hi, g, ns)
    ensures KidsGood(ks, lvl, lo, hi, ns) && Fresh(ks, g)
    decreases |ks|
  {
    if |ks| == 1 {
      OneGood(ks[0], lvl, hi, ns);
      assert ks == [ks[0]];
    } else {
      var mid := Rank(ks[1].sep);
      LayerKids(ks[1..], lvl, mid, hi, g, ns);
      LayerStart(ks[1..], lvl, mid, hi, g, ns);
      OneGood(ks[0], lvl, mid, ns);
      JoinGood([ks[0]], ks[1..], lvl, lo, mid, hi, ns);
      FreshCons(ks[0], ks[1..], g);
      assert [ks[0]] + ks[1..] == ks;
    }
  }

  lemma {:induction false} FreshCons(x: Kid, q: seq<Kid>, g: nat)
    requires Fresh(q, g) && x.gen == g && x.sub.gen == g && GenOK(x.sub)
    ensures Fresh([x] + q, g)
  {
  }

  /** A node over a layer that fits its block. */
  lemma {:induction false} LayerNode(ks: seq<Kid>, a: nat, lvl: nat, lo: int, hi: int, g: nat, ns: nat)
    requires Layer(ks, lvl, lo, hi, g, ns) && NodeFits(|ks|, ns)
    ensures Solid(Kid(ks[0].sep, g, Node(a, g, lvl + 1, ks)), lvl + 1, lo, hi, g, ns)
  {
    LayerKids(ks, lvl, lo, hi, g, ns);
    LayerStart(ks, lvl, lo, hi, g, ns);
    NodeGood(Node(a, g, lvl + 1, ks), lvl + 1, lo, hi, ns);
  }

  // ---- leaves ------------------------------------------------------------------------------------

  lemma {:induction false} ItemsSlice(s: seq<Item>, lo: int, hi: int, i: nat, j: nat)
    requires ItemsIn(s, lo, hi) && i < j <= |s|
    ensures ItemsIn(s[i..j], Rank(s[i].k), if j < |s| then Rank(s[j].k) else hi)
  {
    forall m | 0 <= m < j - i
      ensures Rank(s[i].k) <= Rank(s[i..j][m].k) < (if j < |s| then Rank(s[j].k) else hi)
    {
      assert m == 0 || Rank(s[i].k) < Rank(s[i+m].k);
    }
  }

  lemma {:induction false} LeafKidGood(recs: seq<Item>, s: Span, a: nat, g: nat, ns: nat, hi: int)
    requires s.start < s.end <= |recs| && ItemsIn(recs, 0, hi) && LeafFits(recs[s.start..s.end], ns)
    ensures Good(LeafKid(recs, s, a, g).sub, 0, Rank(recs[s.start].k),
                 if s.end < |recs| then Rank(recs[s.end].k) else hi, ns)
  {
    ItemsSlice(recs, 0, hi, s.start, s.end);
  }

  ghost predicate LeavesFit(recs: seq<Item>, rs: seq<Span>, ns: nat) {
    forall i :: 0 <= i < |rs| ==> rs[i].start < rs[i].end <= |recs| && LeafFits(recs[rs[i].start..rs[i].end], ns)
  }

  /** The least key after the first leaf. */
  function After(recs: seq<Item>, e: nat, hi: int): int {
    if e < |recs| then Rank(recs[e].k) else hi
  }

  lemma {:induction false} LeafSolid(recs: seq<Item>, s: Span, a: nat, g: nat, ns: nat, hi: int)
    requires s.start < s.end <= |recs| && ItemsIn(recs, 0, hi) && LeafFits(recs[s.start..s.end], ns)
    ensures Solid(LeafKid(recs, s, a, g), 0, Rank(recs[s.start].k), After(recs, s.end, hi), g, ns)
  {
    LeafKidGood(recs, s, a, g, ns, hi);
    assert Rank(recs[s.start].k) < After(recs, s.end, hi);
  }

  lemma {:induction false} LeafKidsLayer(recs: seq<Item>, rs: seq<Span>, logs: seq<nat>, g: nat, i: nat, ns: nat,
                                         hi: int)
    requires |rs| == |logs| && Tiles(rs, i, |recs|) && LeavesFit(recs, rs, ns) && ItemsIn(recs, 0, hi)
    requires i < |recs|
    ensures Layer(LeafKids(recs, rs, logs, g), 0, Rank(recs[i].k), hi, g, ns)
    decreases |rs|
  {
    var x := LeafKid(recs, rs[0], logs[0], g);
    var e := rs[0].end;
    LeafSolid(recs, rs[0], logs[0], g, ns, hi);
    if e == |recs| {
      NoTiles(rs[1..], e);
      assert LeafKids(recs, rs, logs, g) == [x] + [];
      assert [x] + [] == [x];
    } else {
      TailFit(recs, rs, ns);
      LeafKidsLayer(recs, rs[1..], logs[1..], g, e, ns, hi);
      LayerCons(x, LeafKids(recs, rs[1..], logs[1..], g), 0, Rank(recs[i].k), Rank(recs[e].k), hi, g, ns);
    }
  }

  lemma {:induction false} TailFit(recs: seq<Item>, rs: seq<Span>, ns: nat)
    requires rs != [] && LeavesFit(recs, rs, ns)
    ensures LeavesFit(recs, rs[1..], ns)
  {
    assert forall k :: 0 <= k < |rs[1..]| ==> rs[1..][k] == rs[k+1];
  }

  lemma {:induction false} LeafKidsContents(recs: seq<Item>, rs: seq<Span>, logs: seq<nat>, g: nat, i: nat)
    requires |rs| == |logs| && Tiles(rs, i, |recs|) && i <= |recs|
    requires forall k :: 0 <= k < |rs| ==> rs[k].start < rs[k].end <= |recs|
    ensures KidsContents(LeafKids(recs, rs, logs, g)) == recs[i..]
    decreases |rs|
  {
    if rs != [] {
      var e := rs[0].end;
      assert forall k :: 0 <= k < |rs[1..]| ==> rs[1..][k] == rs[k+1];
      LeafKidsContents(recs, rs[1..], logs[1..], g, e);
      KidsContentsCons(LeafKid(recs, rs[0], logs[0], g), LeafKids(recs, rs[1..], logs[1..], g));
      assert recs[i..e] + recs[e..] == recs[i..];
    }
  }

  lemma {:induction false} KidsContentsCons(x: Kid, q: seq<Kid>)
    ensures KidsContents([x] + q) == Contents(x.sub) + KidsContents(q)
  {
    assert ([x] + q)[1..] == q;
  }

  lemma {:induction false} NoTiles(rs: seq<Span>, len: nat)
    requires Tiles(rs, len, len)
    ensures rs == []
  {
  }

  lemma {:induction false} LeafKidsCnt(recs: seq<Item>, rs: seq<Span>, logs: seq<nat>, g: nat, ns: nat, b: nat)
    requires |rs| == |logs| && forall i :: 0 <= i < |rs| ==> rs[i].start < rs[i].end <= |recs|
    ensures KidsCnt(LeafKids(recs, rs, logs, g), ns, b) == AddrsCnt(logs, ns, b)
  {
    if rs != [] {
      LeafKidsCnt(recs, rs[1..], logs[1..], g, ns, b);
      var x := LeafKid(recs, rs[0], logs[0], g);
      KidsCntConcat([x], LeafKids(recs, rs[1..], logs[1..], g), ns, b);
      KidsCntOne(x, ns, b);
      AddrsCntFront(logs, ns, b);
    }
  }

  lemma {:induction false} AddrsCntConcat(p: seq<nat>, q: seq<nat>, ns: nat, b: nat)
    ensures AddrsCnt(p + q, ns, b) == AddrsCnt(p, ns, b) + AddrsCnt(q, ns, b)
  {
    if q == [] {
      assert p + q == p;
    } else {
      AddrsCntConcat(p, q[..|q|-1], ns, b);
      assert (p + q)[..|p + q|-1] == p + q[..|q|-1];
    }
  }

  lemma {:induction false} AddrsCntFront(s: seq<nat>, ns: nat, b: nat)
    requires s != []
    ensures AddrsCnt(s, ns, b) == Hit(s[0], ns, b) + AddrsCnt(s[1..], ns, b)
  {
    AddrsCntConcat([s[0]], s[1..], ns, b);
    OneAddrCnt(s[0], ns, b);
    assert [s[0]] + s[1..] == s;
  }

  // ---- one interior level ----------------------------------------------------------------------------

  function NodeCap(ns: nat): nat {
    if ns < NODE_HDR then 0 else (ns - NODE_HDR) / PTR_SIZE
  }

  lemma {:induction false} CapFits(n: nat, ns: nat)
    requires 1 <= n <= NodeCap(ns)
    ensures NodeFits(n, ns)
  {
    MulMono(n, NodeCap(ns), PTR_SIZE);
  }

  /** Grouping makes a layer one level up and fills no node beyond its block. */
  lemma {:induction false} GroupLayer(ks: seq<Kid>, logs: seq<nat>, lvl: nat, lo: int, hi: int, g: nat, icap: nat,
                                      ns: nat)
    requires 1 <= |logs| <= |ks| <= Room(|logs|, icap) && icap <= NodeCap(ns) && Layer(ks, lvl, lo, hi, g, ns)
    ensures Layer(GroupKids(ks, logs, lvl + 1, g), lvl + 1, lo, hi, g, ns)
    decreases |logs|
  {
    ShareBounds(|ks|, |logs|, icap);
    var per := CeilDiv(|ks|, |logs|);
    if |logs| == 1 {
      CapFits(per, ns);
      var x := Kid(ks[0].sep, g, Node(logs[0], g, lvl + 1, ks));
      LayerNode(ks, logs[0], lvl, lo, hi, g, ns);
      GroupLast(ks, logs, lvl + 1, g, x);
    } else {
      var x := FirstNode(ks, per, logs[0], lvl, lo, hi, g, ns);
      GroupLayer(ks[per..], logs[1..], lvl, Rank(ks[per].sep), hi, g, icap, ns);
      LayerCons(x, GroupKids(ks[per..], logs[1..], lvl + 1, g), lvl + 1, lo, Rank(ks[per].sep), hi, g, ns);
    }
  }

  lemma {:induction false} FirstNode(ks: seq<Kid>, per: nat, a: nat, lvl: nat, lo: int, hi: int, g: nat, ns: nat)
    returns (x: Kid)
    requires Layer(ks, lvl, lo, hi, g, ns) && 1 <= per < |ks| && per <= NodeCap(ns)
    ensures x == Kid(ks[0].sep, g, Node(a, g, lvl + 1, ks[..per])) && Solid(x, lvl + 1, lo, Rank(ks[per].sep), g, ns)
    ensures Layer(ks[per..], lvl, Rank(ks[per].sep), hi, g, ns)
  {
    CapFits(per, ns);
    LayerCut(ks, per, lvl, lo, hi, g, ns);
    LayerNode(ks[..per], a, lvl, lo, Rank(ks[per].sep), g, ns);
    x := Kid(ks[0].sep, g, Node(a, g, lvl + 1, ks[..per]));
  }

  lemma {:induction false} GroupLast(ks: seq<Kid>, logs: seq<nat>, lvl: nat, g: nat, x: Kid)
    requires logs != [] && ks != [] && CeilDiv(|ks|, |logs|) == |ks|
             && x == Kid(ks[0].sep, g, Node(logs[0], g, lvl, ks))
    ensures GroupKids(ks, logs, lvl, g) == [x]
  {
    assert ks[..|ks|] == ks && ks[|ks|..] == [];
    assert [x] + [] == [x];
  }

  /** Grouping keeps the contents and makes one node per address. */
  lemma {:induction false} GroupContents(ks: seq<Kid>, logs: seq<nat>, lvl: nat, g: nat, icap: nat)
    requires 1 <= |logs| <= |ks| <= Room(|logs|, icap)
    ensures KidsContents(GroupKids(ks, logs, lvl, g)) == KidsContents(ks) && |GroupKids(ks, logs, lvl, g)| == |logs|
    decreases |logs|
  {
    ShareBounds(|ks|, |logs|, icap);
    var per := CeilDiv(|ks|, |logs|);
    var x := Kid(ks[0].sep, g, Node(logs[0], g, lvl, ks[..per]));
    KidsContentsCons(x, GroupKids(ks[per..], logs[1..], lvl, g));
    KidsContentsConcat(ks[..per], ks[per..]);
    assert ks[..per] + ks[per..] == ks;
    if |logs| > 1 {
      GroupContents(ks[per..], logs[1..], lvl, g, icap);
    }
  }

  /** The children are shared out evenly: every node gets their number divided by that of the nodes, rounded
      up or down. */
  lemma {:induction false} GroupBalanced(ks: seq<Kid>, logs: seq<nat>, lvl: nat, g: nat, icap: nat, i: nat)
    requires 1 <= |logs| <= |ks| <= Room(|logs|, icap) && i < |logs|
    ensures |GroupKids(ks, logs, lvl, g)| == |logs| && GroupKids(ks, logs, lvl, g)[i].sub.Node?
    ensures Even(|ks|, |logs|, |GroupKids(ks, logs, lvl, g)[i].sub.kids|)
    decreases |logs|
  {
    hide CeilDiv, Even, Room, KidsContents;
    GroupContents(ks, logs, lvl, g, icap);
    ShareBounds(|ks|, |logs|, icap);
    var per := CeilDiv(|ks|, |logs|);
    CeilDivBounds(|ks|, |logs|);
    if i == 0 {
      FirstShare(|ks|, |logs|, per);
    } else {
      var rest := GroupKids(ks[per..], logs[1..], lvl, g);
      GroupBalanced(ks[per..], logs[1..], lvl, g, icap, i - 1);
      EvenShares(|ks|, |logs|, per, |rest[i - 1].sub.kids|);
    }
  }

  /** n is k / m, rounded up or down. */
  ghost predicate Even(k: nat, m: nat, n: nat) {
    n * m < k + m && k < (n + 1) * m
  }

  lemma {:induction false} FirstShare(k: nat, m: nat, per: nat)
    requires m >= 1 && 1 <= per && per * m >= k && (per - 1) * m < k
    ensures Even(k, m, per)
  {
    assert per * m == (per - 1) * m + m && (per + 1) * m == per * m + m;
  }

  lemma {:induction false} EvenShares(k: nat, m: nat, per: nat, n: nat)
    requires m >= 2 && 1 <= per <= k && per * m >= k && (per - 1) * m < k
    requires Even(k - per, m - 1, n)
    ensures Even(k, m, n)
  {
    var d := m - 1;
    assert per * m == per * d + per && (per - 1) * m == (per - 1) * d + (per - 1);
    assert n * m == n * d + n && (n + 1) * m == (n + 1) * d + (n + 1);
    assert (per + 1) * d == per * d + d;
    if n > per {
      MulMono(per + 1, n, d);
    }
    if n + 1 < per {
      MulMono(n + 1, per - 1, d);
    }
  }

  lemma {:induction false} GroupCnt(ks: seq<Kid>, logs: seq<nat>, lvl: nat, g: nat, icap: nat, ns: nat, b: nat)
    requires 1 <= |logs| <= |ks| <= Room(|logs|, icap)
    ensures KidsCnt(GroupKids(ks, logs, lvl, g), ns, b) == KidsCnt(ks, ns, b) + AddrsCnt(logs, ns, b)
    decreases |logs|
  {
    ShareBounds(|ks|, |logs|, icap);
    var per := CeilDiv(|ks|, |logs|);
    var x := Kid(ks[0].sep, g, Node(logs[0], g, lvl, ks[..per]));
    var q := GroupKids(ks[per..], logs[1..], lvl, g);
    KidsCntConcat([x], q, ns, b);
    KidsCntOne(x, ns, b);
    KidsCntConcat(ks[..per], ks[per..], ns, b);
    assert ks[..per] + ks[per..] == ks;
    AddrsCntFront(logs, ns, b);
    if |logs| > 1 {
      GroupCnt(ks[per..], logs[1..], lvl, g, icap, ns, b);
    }
  }

  // ---- all levels --------------------------------------------------------------------------------------

  /** The address lists have the lengths of a pyramid over n children. */
  ghost predicate Planned(n: nat, logss: seq<seq<nat>>, icap: nat) {
    if logss == [] then n == 1
    else 1 <= |logss[0]| < n <= Room(|logss[0]|, icap) && Planned(|logss[0]|, logss[1..], icap)
  }

  /** All addresses of all levels. */
  function Flat(logss: seq<seq<nat>>): seq<nat> {
    if logss == [] then [] else logss[0] + Flat(logss[1..])
  }

  lemma {:induction false} StackLayer(ks: seq<Kid>, logss: seq<seq<nat>>, lvl: nat, lo: int, hi: int, g: nat,
                                      icap: nat, ns: nat)
    requires Planned(|ks|, logss, icap) && icap <= NodeCap(ns) && Layer(ks, lvl, lo, hi, g, ns)
    ensures var top := StackLevels(ks, logss, lvl + 1, g);
            |top| == 1 && Layer(top, lvl + |logss|, lo, hi, g, ns) && KidsContents(top) == KidsContents(ks)
    decreases |logss|
  {
    hide Layer, GroupKids, KidsContents, NodeCap, Room;
    if logss != [] {
      GroupLayer(ks, logss[0], lvl, lo, hi, g, icap, ns);
      GroupContents(ks, logss[0], lvl + 1, g, icap);
      StackLayer(GroupKids(ks, logss[0], lvl + 1, g), logss[1..], lvl + 1, lo, hi, g, icap, ns);
    }
  }

  lemma {:induction false} StackCnt(ks: seq<Kid>, logss: seq<seq<nat>>, lvl: nat, g: nat, icap: nat, ns: nat, b: nat)
    requires Planned(|ks|, logss, icap)
    ensures KidsCnt(StackLevels(ks, logss, lvl, g), ns, b) == KidsCnt(ks, ns, b) + AddrsCnt(Flat(logss), ns, b)
    decreases |logss|
  {
    if logss != [] {
      var qs := GroupKids(ks, logss[0], lvl, g);
      GroupCnt(ks, logss[0], lvl, g, icap, ns, b);
      GroupContents(ks, logss[0], lvl, g, icap);
      StackCnt(qs, logss[1..], lvl + 1, g, icap, ns, b);
      AddrsCntConcat(logss[0], Flat(logss[1..]), ns, b);
    }
  }

  /** The whole tree over the records. */
  function Bulk(recs: seq<Item>, rs: seq<Span>, leafLogs: seq<nat>, logss: seq<seq<nat>>, g: nat): seq<Kid>
    requires |rs| == |leafLogs| && forall i :: 0 <= i < |rs| ==> rs[i].start < rs[i].end <= |recs|
  {
    StackLevels(LeafKids(recs, rs, leafLogs, g), logss, 1, g)
  }

  /** Strictly sorted records, tiled into leaves that fit, give a search tree that holds exactly the
      records, with matching generations, whose root level is the number of interior levels. */
  lemma {:induction false} BulkWellFormed(recs: seq<Item>, rs: seq<Span>, leafLogs: seq<nat>, logss: seq<seq<nat>>,
                                          g: nat, ns: nat)
    requires recs != [] && ItemsIn(recs, 0, RANK_LIMIT) && Tiles(rs, 0, |recs|) && LeavesFit(recs, rs, ns)
    requires |rs| == |leafLogs| && Planned(|rs|, logss, NodeCap(ns))
    ensures var ks := Bulk(recs, rs, leafLogs, logss, g);
            && |ks| == 1 && WellFormed(ks[0].sub, ns) && Contents(ks[0].sub) == recs
            && GenOK(ks[0].sub) && ks[0].sub.gen == g && LevelOf(ks[0].sub) == |logss|
  {
    hide Layer, StackLevels, LeafKids, KidsContents, Contents, WellFormed, GenOK, Planned, NodeCap, Tiles;
    var lo := Rank(recs[0].k);
    var ks := LeafKids(recs, rs, leafLogs, g);
    assert recs[0..] == recs;
    LeafKidsLayer(recs, rs, leafLogs, g, 0, ns, RANK_LIMIT);
    LeafKidsContents(recs, rs, leafLogs, g, 0);
    LeafKidsLen(recs, rs, leafLogs, g);
    StackLayer(ks, logss, 0, lo, RANK_LIMIT, g, NodeCap(ns), ns);
    RootOfLayer(Bulk(recs, rs, leafLogs, logss, g), |logss|, lo, g, ns);
  }

  lemma {:induction false} RootOfLayer(ks: seq<Kid>, lvl: nat, lo: int, g: nat, ns: nat)
    requires |ks| == 1 && Layer(ks, lvl, lo, RANK_LIMIT, g, ns) && 0 <= lo
    ensures WellFormed(ks[0].sub, ns) && Contents(ks[0].sub) == KidsContents(ks)
    ensures GenOK(ks[0].sub) && ks[0].sub.gen == g && LevelOf(ks[0].sub) == lvl
  {
    OrderedWiden(ks[0].sub, lo, RANK_LIMIT, 0, RANK_LIMIT);
    KidsContentsOne(ks[0]);
    assert ks == [ks[0]];
  }

  /** Its blocks are the given addresses, each once. */
  lemma {:induction false} BulkCnt(recs: seq<Item>, rs: seq<Span>, leafLogs: seq<nat>, logss: seq<seq<nat>>, g: nat,
                                   icap: nat, ns: nat, b: nat)
    requires forall i :: 0 <= i < |rs| ==> rs[i].start < rs[i].end <= |recs|
    requires |rs| == |leafLogs| && Planned(|rs|, logss, icap)
    ensures KidsCnt(Bulk(recs, rs, leafLogs, logss, g), ns, b) == AddrsCnt(leafLogs + Flat(logss), ns, b)
  {
    var ks := LeafKids(recs, rs, leafLogs, g);
    LeafKidsLen(recs, rs, leafLogs, g);
    LeafKidsCnt(recs, rs, leafLogs, g, ns, b);
    StackCnt(ks, logss, 1, g, icap, ns, b);
    AddrsCntConcat(leafLogs, Flat(logss), ns, b);
  }

  lemma {:induction false} LeafKidsLen(recs: seq<Item>, rs: seq<Span>, logs: seq<nat>, g: nat)
    requires |rs| == |logs| && forall i :: 0 <= i < |rs| ==> rs[i].start < rs[i].end <= |recs|
    ensures |LeafKids(recs, rs, logs, g)| == |rs|
  {
    if rs != [] {
      LeafKidsLen(recs, rs[1..], logs[1..], g);
    }
  }
}
