/** writeMultiLevelTree (extent_multilevel.go) on the device. */
module ExtentWrite {
  import opened Keys
  import opened FreeSpace
  import opened Trees
  import opened CowConserve
  import opened Volumes
  import opened CowEngine
  import opened Relocation
  import opened Partitions
  import opened InteriorShapes
  import opened BulkTree

  /** The subtrees p and q and the blocks still to be written share no byte. */
  ghost predicate Apart(p: seq<Kid>, q: seq<Kid>, addrs: seq<nat>, ns: nat) {
    forall b: nat :: KidsCnt(p, ns, b) + KidsCnt(q, ns, b) + AddrsCnt(addrs, ns, b) <= 1
  }

  /** Every block to be written was free in fr. */
  ghost predicate Spare(addrs: seq<nat>, fr: seq<Extent>, ns: nat) {
    forall b: nat :: AddrsCnt(addrs, ns, b) <= FreeCnt(fr, b)
  }

  lemma {:induction false} SpareWrite(dev0: Device, dev: Device, fr: seq<Extent>, addrs: seq<nat>, ns: nat, blk: Block)
    requires ns > 0 && addrs != [] && Spare(addrs, fr, ns) && Untouched(dev0, dev, fr, ns)
    ensures Untouched(dev0, WriteBlock(dev, ns, addrs[0], blk), fr, ns) && Spare(addrs[1..], fr, ns)
  {
    var x := addrs[0];
    forall b: nat ensures AddrsCnt(addrs[1..], ns, b) + Hit(x, ns, b) <= FreeCnt(fr, b) {
      AddrsCntFront(addrs, ns, b);
    }
    forall a | a in dev0 && InUse(a, fr, ns) ensures a + ns <= x || x + ns <= a {
      var b := if a < x then x else a;
      assert AddrsCnt(addrs[1..], ns, b) + Hit(x, ns, b) <= FreeCnt(fr, b);
    }
  }

  lemma {:induction false} StaysStored(dev: Device, ks: seq<Kid>, a: nat, ns: nat, blk: Block)
    requires ns > 0 && AllStored(dev, ks) && forall b: nat :: KidsCnt(ks, ns, b) + Hit(a, ns, b) <= 1
    ensures AllStored(WriteBlock(dev, ns, a, blk), ks)
  {
    forall j | 0 <= j < |ks| ensures Stored(WriteBlock(dev, ns, a, blk), ks[j].sub) {
      forall b: nat | a <= b < a + ns ensures Cnt(ks[j].sub, ns, b) == 0 {
        assert KidsCnt(ks, ns, b) + Hit(a, ns, b) <= 1;
        KidCntLe(ks, j, ns, b);
      }
      WriteFrame(dev, ks[j].sub, ns, a, blk);
    }
  }

  /** What a node written next takes over: the first per subtrees of q. */
  lemma {:induction false} ApartStep(p: seq<Kid>, q: seq<Kid>, addrs: seq<nat>, per: nat, x: Kid, ns: nat)
    requires addrs != [] && per <= |q| && x.sub.addr == addrs[0] && Apart(p, q, addrs, ns)
    requires if x.sub.Leaf? then per == 0 else x.sub.kids == q[..per]
    ensures Apart(p + [x], q[per..], addrs[1..], ns)
    ensures forall b: nat :: KidsCnt(p, ns, b) + Hit(x.sub.addr, ns, b) <= 1
    ensures forall b: nat :: KidsCnt(q, ns, b) + Hit(x.sub.addr, ns, b) <= 1
  {
    CutAt(q, per);
    forall b: nat
      ensures KidsCnt(p + [x], ns, b) + KidsCnt(q[per..], ns, b) + AddrsCnt(addrs[1..], ns, b) <= 1
      ensures KidsCnt(p, ns, b) + Hit(x.sub.addr, ns, b) <= 1 && KidsCnt(q, ns, b) + Hit(x.sub.addr, ns, b) <= 1
    {
      assert KidsCnt(p, ns, b) + KidsCnt(q, ns, b) + AddrsCnt(addrs, ns, b) <= 1;
      AddrsCntFront(addrs, ns, b);
      KidsCntConcat(q[..per], q[per..], ns, b);
      KidsCntConcat(p, [x], ns, b);
      KidsCntOne(x, ns, b);
    }
  }

  /** Writing the node of x stores it; everything else stays stored. */
  lemma {:induction false} StoreKid(dev: Device, p: seq<Kid>, q: seq<Kid>, addrs: seq<nat>, per: nat, x: Kid, ns: nat)
    requires ns > 0 && addrs != [] && per <= |q| && x.sub.addr == addrs[0] && Apart(p, q, addrs, ns)
    requires if x.sub.Leaf? then per == 0 else x.sub.kids == q[..per]
    requires AllStored(dev, p) && AllStored(dev, q)
    ensures var d := WriteBlock(dev, ns, addrs[0], BlockOf(x.sub)); AllStored(d, p + [x]) && AllStored(d, q[per..])
    ensures Apart(p + [x], q[per..], addrs[1..], ns)
  {
    ApartStep(p, q, addrs, per, x, ns);
    var d := WriteBlock(dev, ns, addrs[0], BlockOf(x.sub));
    StaysStored(dev, p, addrs[0], ns, BlockOf(x.sub));
    StaysStored(dev, q, addrs[0], ns, BlockOf(x.sub));
    assert Stored(d, x.sub);
  }

  /** The device, free list and node size that a build starts from. */
  datatype Site = Site(dev: Device, fr: seq<Extent>, ns: nat)

  /** Part-way through a build: p and q are stored, addrs are still to be written, and nothing but
      free blocks was written so far. */
  ghost predicate Laid(site: Site, dev: Device, p: seq<Kid>, q: seq<Kid>, addrs: seq<nat>) {
    && site.ns > 0 && AllStored(dev, p) && AllStored(dev, q) && Apart(p, q, addrs, site.ns)
    && Spare(addrs, site.fr, site.ns) && Untouched(site.dev, dev, site.fr, site.ns)
  }

  lemma {:induction false} LaidStart(site: Site, addrs: seq<nat>)
    requires site.ns > 0 && Spare(addrs, site.fr, site.ns) && Disjoint(site.fr)
    ensures Laid(site, site.dev, [], [], addrs)
  {
    forall b: nat ensures KidsCnt([], site.ns, b) + KidsCnt([], site.ns, b) + AddrsCnt(addrs, site.ns, b) <= 1 {
      assert AddrsCnt(addrs, site.ns, b) <= FreeCnt(site.fr, b) <= 1;
    }
  }

  lemma {:induction false} LaidStep(site: Site, dev: Device, p: seq<Kid>, q: seq<Kid>, addrs: seq<nat>, per: nat,
                                    x: Kid)
    requires Laid(site, dev, p, q, addrs) && addrs != [] && per <= |q| && x.sub.addr == addrs[0]
    requires if x.sub.Leaf? then per == 0 else x.sub.kids == q[..per]
    ensures Laid(site, WriteBlock(dev, site.ns, addrs[0], BlockOf(x.sub)), p + [x], q[per..], addrs[1..])
  {
    StoreKid(dev, p, q, addrs, per, x, site.ns);
    SpareWrite(site.dev, dev, site.fr, addrs, site.ns, BlockOf(x.sub));
  }

  /** A finished level becomes the children of the next. */
  lemma {:induction false} LaidNext(site: Site, dev: Device, p: seq<Kid>, addrs: seq<nat>)
    requires Laid(site, dev, p, [], addrs)
    ensures Laid(site, dev, [], p, addrs)
  {
    var ns := site.ns;
    forall b: nat ensures KidsCnt([], ns, b) + KidsCnt(p, ns, b) + AddrsCnt(addrs, ns, b) <= 1 {
      assert KidsCnt(p, ns, b) + KidsCnt([], ns, b) + AddrsCnt(addrs, ns, b) <= 1;
    }
  }

  lemma {:induction false} PtrsAppend(ks: seq<Kid>, x: Kid)
    ensures Ptrs(ks + [x]) == Ptrs(ks) + [Ptr(x.sep, x.sub.addr, x.gen)]
  {
  }

  lemma {:induction false} LeafKidsStep(recs: seq<Item>, rs: seq<Span>, logs: seq<nat>, i: nat, g: nat)
    requires |rs| == |logs| && i < |rs| && forall j :: 0 <= j < |rs| ==> rs[j].start < rs[j].end <= |recs|
    ensures LeafKids(recs, rs[i..], logs[i..], g) ==
            [LeafKid(recs, rs[i], logs[i], g)] + LeafKids(recs, rs[i+1..], logs[i+1..], g)
  {
    assert rs[i..][1..] == rs[i+1..] && logs[i..][1..] == logs[i+1..];
  }

  lemma {:induction false} FrontGone(logs: seq<nat>, i: nat, later: seq<nat>)
    requires i < |logs|
    ensures (logs[i..] + later)[1..] == logs[i+1..] + later && (logs[i..] + later)[0] == logs[i]
  {
  }

  lemma {:induction false} Joined<T>(a: seq<T>, x: T, c: seq<T>)
    ensures a + ([x] + c) == a + [x] + c
  {
  }

  /** The leaf pass of writeMultiLevelTree. It fails exactly when some leaf's records do not fit;
      later are the interior blocks. */
  method WriteLeaves(v: Volume, recs: seq<Item>, rs: seq<Span>, logs: seq<nat>, ghost later: seq<nat>, ghost site: Site)
    returns (ptrs: Option<seq<Ptr>>, ghost ks: seq<Kid>)
    requires v.Valid() && |rs| == |logs| && forall i :: 0 <= i < |rs| ==> rs[i].start < rs[i].end <= |recs|
    requires Laid(site, v.dev, [], [], logs + later) && site.ns == v.ns
    modifies v`dev
    ensures ptrs.Some? <==> LeavesFit(recs, rs, v.ns)
    ensures Untouched(site.dev, v.dev, site.fr, v.ns)
    ensures ptrs.Some? ==> ks == LeafKids(recs, rs, logs, v.generation + 1) && ptrs.value == Ptrs(ks)
    ensures ptrs.Some? ==> Laid(site, v.dev, [], ks, later)
  {
    var ps: seq<Ptr>, i := [], 0;
    var g := v.generation + 1;
    ks := [];
    assert rs[0..] == rs && logs[0..] == logs;
    while i < |rs|
      invariant i <= |rs| && LeafKids(recs, rs, logs, g) == ks + LeafKids(recs, rs[i..], logs[i..], g)
      invariant ps == Ptrs(ks) && Laid(site, v.dev, ks, [], logs[i..] + later)
      invariant forall j :: 0 <= j < i ==> LeafFits(recs[rs[j].start..rs[j].end], v.ns)
    {
      var items := recs[rs[i].start..rs[i].end];
      if !LeafFits(items, v.ns) {
        return None, ks;
      }
      ghost var x := LeafKid(recs, rs[i], logs[i], g);
      FrontGone(logs, i, later);
      LaidStep(site, v.dev, ks, [], logs[i..] + later, 0, x);
      v.dev := WriteBlock(v.dev, v.ns, logs[i], LeafBlock(logs[i], g, items));
      LeafKidsStep(recs, rs, logs, i, g);
      Joined(ks, x, LeafKids(recs, rs[i+1..], logs[i+1..], g));
      PtrsAppend(ks, x);
      ps := ps + [Ptr(recs[rs[i].start].k, logs[i], g)];
      ks := ks + [x];
      i := i + 1;
    }
    assert logs[i..] + later == later;
    LaidNext(site, v.dev, ks, later);
    return Some(ps), ks;
  }

  // ---- interior levels -----------------------------------------------------------------------------------------

  /** The level half-way: qs are written, the children from ci on and the addresses from ni on
      remain. */
  ghost predicate Grouping(ks: seq<Kid>, logs: seq<nat>, ci: nat, ni: nat, lvl: nat, g: nat, icap: nat, qs: seq<Kid>) {
    && ni <= |logs| && ci <= |ks| && Enough(|ks| - ci, |logs| - ni, icap)
    && GroupKids(ks, logs, lvl, g) == qs + GroupKids(ks[ci..], logs[ni..], lvl, g)
  }

  /** n nodes can share r children with at least one each. */
  ghost predicate Enough(r: nat, n: nat, icap: nat) {
    if n == 0 then r == 0 else n <= r <= Room(n, icap)
  }

  lemma {:induction false} ShareStep(r: nat, n: nat, icap: nat) returns (per: nat)
    requires n > 0 && Enough(r, n, icap)
    ensures per == CeilDiv(r, n) && 1 <= per <= r && Enough(r - per, n - 1, icap)
  {
    ShareBounds(r, n, icap);
    per := CeilDiv(r, n);
  }

  lemma {:induction false} GroupUnfold(ks: seq<Kid>, logs: seq<nat>, lvl: nat, g: nat, per: nat)
    requires logs != [] && per == CeilDiv(|ks|, |logs|) && 1 <= per <= |ks|
    ensures GroupKids(ks, logs, lvl, g) ==
            [Kid(ks[0].sep, g, Node(logs[0], g, lvl, ks[..per]))] + GroupKids(ks[per..], logs[1..], lvl, g)
  {
  }

  lemma {:induction false} Drop<T>(s: seq<T>, i: nat, j: nat)
    requires i + j <= |s|
    ensures s[i..][j..] == s[i+j..] && s[i..][..j] == s[i..i+j] && |s[i..]| == |s| - i
  {
  }

  lemma {:induction false} GroupStep(ks: seq<Kid>, logs: seq<nat>, ci: nat, ni: nat, lvl: nat, g: nat, icap: nat,
                                     qs: seq<Kid>)
    returns (per: nat, x: Kid)
    requires Grouping(ks, logs, ci, ni, lvl, g, icap, qs) && ni < |logs|
    ensures per == CeilDiv(|ks| - ci, |logs| - ni) && 1 <= per <= |ks| - ci
    ensures x == Kid(ks[ci].sep, g, Node(logs[ni], g, lvl, ks[ci..ci+per]))
    ensures ks[ci..][..per] == ks[ci..ci+per] && ks[ci..][per..] == ks[ci+per..]
    ensures Grouping(ks, logs, ci + per, ni + 1, lvl, g, icap, qs + [x])
  {
    per := ShareStep(|ks| - ci, |logs| - ni, icap);
    x := Kid(ks[ci].sep, g, Node(logs[ni], g, lvl, ks[ci..ci+per]));
    Drop(logs, ni, 1);
    Drop(ks, ci, per);
    GroupUnfold(ks[ci..], logs[ni..], lvl, g, per);
    Joined(qs, x, GroupKids(ks[ci+per..], logs[ni+1..], lvl, g));
  }

  lemma {:induction false} PtrsSlice(ks: seq<Kid>, i: nat, j: nat)
    requires i <= j <= |ks|
    ensures Ptrs(ks)[i..j] == Ptrs(ks[i..j])
  {
  }

  /** The loop state of WriteLevel. */
  ghost predicate Level(site: Site, dev: Device, ps: seq<Ptr>, ks: seq<Kid>, logs: seq<nat>, later: seq<nat>, ci: nat,
                        ni: nat,
                        lvl: nat, g: nat, icap: nat, out: seq<Ptr>, qs: seq<Kid>)
  {
    && Grouping(ks, logs, ci, ni, lvl, g, icap, qs) && ps == Ptrs(ks) && out == Ptrs(qs)
    && Laid(site, dev, qs, ks[ci..], logs[ni..] + later)
  }

  lemma {:induction false} LevelStep(site: Site, dev: Device, ps: seq<Ptr>, ks: seq<Kid>, logs: seq<nat>,
                                     later: seq<nat>, ci: nat, ni: nat,
                  lvl: nat, g: nat, icap: nat, out: seq<Ptr>, qs: seq<Kid>, per: nat, dev': Device, out': seq<Ptr>)
    returns (qs': seq<Kid>)
    requires Level(site, dev, ps, ks, logs, later, ci, ni, lvl, g, icap, out, qs) && ni < |logs|
    requires ci < |ps| && per == CeilDiv(|ps| - ci, |logs| - ni) && ci + per <= |ps|
    requires dev' == WriteBlock(dev, site.ns, logs[ni], InnerBlock(logs[ni], g, lvl, ps[ci..ci+per]))
    requires out' == out + [Ptr(ps[ci].k, logs[ni], g)]
    ensures Level(site, dev', ps, ks, logs, later, ci + per, ni + 1, lvl, g, icap, out', qs')
  {
    hide Laid, GroupKids, WriteBlock, Rank;
    var p, x := GroupStep(ks, logs, ci, ni, lvl, g, icap, qs);
    qs' := qs + [x];
    FrontGone(logs, ni, later);
    PtrsSlice(ks, ci, ci + per);
    PtrsAppend(qs, x);
    LaidNode(site, dev, qs, ks[ci..], logs[ni..] + later, per, x, dev');
  }

  lemma {:induction false} LaidNode(site: Site, dev: Device, p: seq<Kid>, q: seq<Kid>, addrs: seq<nat>, per: nat,
                                    x: Kid, dev': Device)
    requires Laid(site, dev, p, q, addrs) && addrs != [] && per <= |q| && x.sub.addr == addrs[0]
    requires x.sub.Node? && x.sub.kids == q[..per]
    requires dev' == WriteBlock(dev, site.ns, addrs[0],
                                InnerBlock(x.sub.addr, x.sub.gen, x.sub.level, Ptrs(x.sub.kids)))
    ensures Laid(site, dev', p + [x], q[per..], addrs[1..])
  {
    LaidStep(site, dev, p, q, addrs, per, x);
  }

  lemma {:induction false} LevelShare(site: Site, dev: Device, ps: seq<Ptr>, ks: seq<Kid>, logs: seq<nat>,
                                      later: seq<nat>, ci: nat, ni: nat,
                   lvl: nat, g: nat, icap: nat, out: seq<Ptr>, qs: seq<Kid>)
    requires Level(site, dev, ps, ks, logs, later, ci, ni, lvl, g, icap, out, qs) && ni < |logs|
    ensures ci < |ps| && ci + CeilDiv(|ps| - ci, |logs| - ni) <= |ps|
  {
    var per := ShareStep(|ks| - ci, |logs| - ni, icap);
  }

  lemma {:induction false} LevelStart(site: Site, dev: Device, ks: seq<Kid>, logs: seq<nat>, later: seq<nat>, lvl: nat,
                                      g: nat, icap: nat)
    requires Laid(site, dev, [], ks, logs + later) && 1 <= |logs| <= |ks| <= Room(|logs|, icap)
    ensures Level(site, dev, Ptrs(ks), ks, logs, later, 0, 0, lvl, g, icap, [], [])
  {
    assert ks[0..] == ks && logs[0..] == logs && Ptrs([]) == [];
    assert [] + GroupKids(ks, logs, lvl, g) == GroupKids(ks, logs, lvl, g);
  }

  lemma {:induction false} LevelEnd(site: Site, dev: Device, ps: seq<Ptr>, ks: seq<Kid>, logs: seq<nat>,
                                    later: seq<nat>, ci: nat,
                 lvl: nat, g: nat, icap: nat, out: seq<Ptr>, qs: seq<Kid>)
    requires Level(site, dev, ps, ks, logs, later, ci, |logs|, lvl, g, icap, out, qs)
    ensures qs == GroupKids(ks, logs, lvl, g) && out == Ptrs(qs) && Laid(site, dev, [], qs, later)
  {
    assert logs[|logs|..] + later == later && ks[ci..] == [];
    LaidNext(site, dev, qs, later);
  }

  /** One interior level of writeMultiLevelTree over the children ps. */
  method WriteLevel(v: Volume, ps: seq<Ptr>, logs: seq<nat>, lvl: nat, ghost ks: seq<Kid>, ghost icap: nat,
                    ghost later: seq<nat>, ghost site: Site)
    returns (out: seq<Ptr>, ghost qs: seq<Kid>)
    requires v.Valid() && ps == Ptrs(ks) && 1 <= |logs| <= |ks| <= Room(|logs|, icap)
    requires Laid(site, v.dev, [], ks, logs + later) && site.ns == v.ns
    modifies v`dev
    ensures qs == GroupKids(ks, logs, lvl, v.generation + 1) && out == Ptrs(qs) && Laid(site, v.dev, [], qs, later)
  {
    hide Level, Laid, GroupKids, WriteBlock, Rank;
    var ci: nat, ni: nat, g := 0, 0, v.generation + 1;
    out, qs := [], [];
    LevelStart(site, v.dev, ks, logs, later, lvl, g, icap);
    while ni < |logs|
      invariant ni <= |logs| && Level(site, v.dev, ps, ks, logs, later, ci, ni, lvl, g, icap, out, qs)
    {
      ghost var dev0, out0 := v.dev, out;
      LevelShare(site, dev0, ps, ks, logs, later, ci, ni, lvl, g, icap, out0, qs);
      var perNode := RoundedShare(|ps| - ci, |logs| - ni);
      v.dev := WriteBlock(v.dev, v.ns, logs[ni], InnerBlock(logs[ni], g, lvl, ps[ci..ci+perNode]));
      out := out + [Ptr(ps[ci].k, logs[ni], g)];
      qs := LevelStep(site, dev0, ps, ks, logs, later, ci, ni, lvl, g, icap, out0, qs, perNode, v.dev, out);
      ci := ci + perNode;
      ni := ni + 1;
    }
    LevelEnd(site, v.dev, ps, ks, logs, later, ci, lvl, g, icap, out, qs);
  }

  // ---- the whole tree ---------------------------------------------------------------------------------------------

  /** interiorRootLog. */
  function InteriorRootLog(leafLogs: seq<nat>, logss: seq<seq<nat>>): nat
    requires leafLogs != [] && (logss != [] ==> logss[|logss|-1] != [])
  {
    if logss == [] then leafLogs[0] else logss[|logss|-1][0]
  }

  /** The loop state of WriteMultiLevelTree: ks is the level finished last. */
  ghost predicate Rising(site: Site, dev: Device, ps: seq<Ptr>, ks: seq<Kid>, logss: seq<seq<nat>>, lvl: nat,
                         icap: nat, g: nat,
                         top: seq<Kid>)
  {
    && lvl <= |logss| && ps == Ptrs(ks) && Planned(|ks|, logss[lvl..], icap)
       && top == StackLevels(ks, logss[lvl..], lvl + 1, g)
    && Laid(site, dev, [], ks, Flat(logss[lvl..]))
       && (lvl > 0 ==> logss[lvl-1] != [] && ks != [] && ks[0].sub.addr == logss[lvl-1][0])
  }

  lemma {:induction false} RisingAt(site: Site, dev: Device, ps: seq<Ptr>, ks: seq<Kid>, logss: seq<seq<nat>>,
                                    lvl: nat, icap: nat, g: nat, top: seq<Kid>)
    requires Rising(site, dev, ps, ks, logss, lvl, icap, g, top) && lvl < |logss|
    ensures ps == Ptrs(ks) && 1 <= |logss[lvl]| <= |ks| <= Room(|logss[lvl]|, icap)
    ensures Laid(site, dev, [], ks, logss[lvl] + Flat(logss[lvl+1..]))
  {
    assert logss[lvl..][1..] == logss[lvl+1..];
  }

  lemma {:induction false} RisingStep(site: Site, dev: Device, ps: seq<Ptr>, ks: seq<Kid>, logss: seq<seq<nat>>,
                                      lvl: nat, icap: nat, g: nat, top: seq<Kid>,
                   dev': Device, out: seq<Ptr>, qs: seq<Kid>)
    requires Rising(site, dev, ps, ks, logss, lvl, icap, g, top) && lvl < |logss|
    requires qs == GroupKids(ks, logss[lvl], lvl + 1, g) && out == Ptrs(qs)
             && Laid(site, dev', [], qs, Flat(logss[lvl+1..]))
    ensures Rising(site, dev', out, qs, logss, lvl + 1, icap, g, top)
  {
    assert logss[lvl..][1..] == logss[lvl+1..];
    GroupContents(ks, logss[lvl], lvl + 1, g, icap);
    GroupFirst(ks, logss[lvl], lvl + 1, g, icap);
  }

  lemma {:induction false} GroupFirst(ks: seq<Kid>, logs: seq<nat>, lvl: nat, g: nat, icap: nat)
    requires 1 <= |logs| <= |ks| <= Room(|logs|, icap)
    ensures GroupKids(ks, logs, lvl, g) != [] && GroupKids(ks, logs, lvl, g)[0].sub.addr == logs[0]
  {
    ShareBounds(|ks|, |logs|, icap);
  }

  lemma {:induction false} RisingEnd(site: Site, dev: Device, ps: seq<Ptr>, ks: seq<Kid>, logss: seq<seq<nat>>,
                                     icap: nat, g: nat, top: seq<Kid>)
    requires Rising(site, dev, ps, ks, logss, |logss|, icap, g, top)
    ensures top == ks && |ks| == 1 && Stored(dev, ks[0].sub) && Untouched(site.dev, dev, site.fr, site.ns)
    ensures logss != [] ==> logss[|logss|-1] != [] && ks[0].sub.addr == logss[|logss|-1][0]
  {
    assert logss[|logss|..] == [];
  }

  /** ks is the one-element list of the root of the tree over the records. */
  ghost predicate Raised(ks: seq<Kid>, recs: seq<Item>, rs: seq<Span>, leafLogs: seq<nat>, logss: seq<seq<nat>>, g: nat)
    requires |rs| == |leafLogs| && forall i :: 0 <= i < |rs| ==> rs[i].start < rs[i].end <= |recs|
  {
    |ks| == 1 && ks == Bulk(recs, rs, leafLogs, logss, g)
  }

  /** writeMultiLevelTree: it fails exactly when the leaf counts disagree or some leaf's records do
      not fit, and otherwise stores the tree that Bulk describes, writing only the given blocks. */
  method WriteMultiLevelTree(v: Volume, recs: seq<Item>, rs: seq<Span>, leafLogs: seq<nat>, logss: seq<seq<nat>>,
                             ghost icap: nat, ghost site: Site)
    returns (ok: bool, ghost ks: seq<Kid>)
    requires v.Valid() && site.ns == v.ns && forall i :: 0 <= i < |rs| ==> rs[i].start < rs[i].end <= |recs|
    requires Planned(|leafLogs|, logss, icap) && Laid(site, v.dev, [], [], leafLogs + Flat(logss))
    modifies v`dev
    ensures ok <==> |rs| == |leafLogs| && LeavesFit(recs, rs, v.ns)
    ensures ok ==> Raised(ks, recs, rs, leafLogs, logss, v.generation + 1) && |ks| == 1 && Stored(v.dev, ks[0].sub)
    ensures ok ==> (logss != [] ==> logss[|logss|-1] != []) && ks[0].sub.addr == InteriorRootLog(leafLogs, logss)
    ensures Untouched(site.dev, v.dev, site.fr, v.ns)
  {
    hide Stored, AllStored, Apart, Spare, Untouched, Rank, GroupKids;
    if |rs| != |leafLogs| {
      return false, [];
    }
    var r;
    r, ks := WriteLeaves(v, recs, rs, leafLogs, Flat(logss), site);
    if r.None? {
      return false, ks;
    }
    var ps, lvl := r.value, 0;
    var g := v.generation + 1;
    ghost var top := Bulk(recs, rs, leafLogs, logss, g);
    LeafKidsLen(recs, rs, leafLogs, g);
    assert logss[0..] == logss;
    assert logss == [] ==> ks[0].sub.addr == leafLogs[0];
    while lvl < |logss|
      invariant 0 <= lvl <= |logss| && Rising(site, v.dev, ps, ks, logss, lvl, icap, g, top)
      invariant logss == [] ==> ks != [] && ks[0].sub.addr == leafLogs[0]
    {
      ghost var dev0 := v.dev;
      RisingAt(site, dev0, ps, ks, logss, lvl, icap, g, top);
      ghost var ks0, ps0 := ks, ps;
      ps, ks := WriteLevel(v, ps, logss[lvl], lvl + 1, ks0, icap, Flat(logss[lvl+1..]), site);
      RisingStep(site, dev0, ps0, ks0, logss, lvl, icap, g, top, v.dev, ps, ks);
      lvl := lvl + 1;
    }
    RisingEnd(site, v.dev, ps, ks, logss, icap, g, top);
    return true, ks;
  }
}
