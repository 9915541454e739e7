/** Space accounting of the rebuilt extent tree: used bytes per block group and their total. */
module ExtentUsed {
  import opened Keys
  import opened ExtentFixpoint

  function At(m: map<u64, nat>, k: u64): nat {
    if k in m then m[k] else 0
  }

  /** The sum of the values at the given keys. */
  ghost function KeySum(m: map<u64, nat>, ks: set<u64>): nat {
    if ks == {} then 0 else
      var k :| k in ks;
      At(m, k) + KeySum(m, ks - {k})
  }

  ghost function MapSum(m: map<u64, nat>): nat {
    KeySum(m, m.Keys)
  }

  lemma {:induction false} KeySumPick(m: map<u64, nat>, ks: set<u64>) returns (k: u64)
    requires ks != {}
    ensures k in ks && KeySum(m, ks) == At(m, k) + KeySum(m, ks - {k})
  {
    k :| k in ks && KeySum(m, ks) == At(m, k) + KeySum(m, ks - {k});
  }

  /** The sum does not depend on the order in which the keys are visited. */
  lemma {:induction false} KeySumAt(m: map<u64, nat>, ks: set<u64>, k: u64)
    requires k in ks
    ensures KeySum(m, ks) == At(m, k) + KeySum(m, ks - {k})
    decreases ks
  {
    var l := KeySumPick(m, ks);
    if l != k {
      var a, c := ks - {l}, ks - {k};
      KeySumAt(m, a, k);
      KeySumAt(m, c, l);
      assert a - {k} == c - {l};
    }
  }

  lemma {:induction false} KeySumSame(m: map<u64, nat>, n: map<u64, nat>, ks: set<u64>)
    requires forall k :: k in ks ==> At(m, k) == At(n, k)
    ensures KeySum(m, ks) == KeySum(n, ks)
    decreases ks
  {
    if ks != {} {
      var k := KeySumPick(m, ks);
      KeySumAt(n, ks, k);
      KeySumSame(m, n, ks - {k});
    }
  }

  lemma {:induction false} MapSumUpdate(m: map<u64, nat>, k: u64, v: nat)
    ensures MapSum(m[k := v]) == MapSum(m) - At(m, k) + v
  {
    var n := m[k := v];
    var rest := m.Keys - {k};
    assert n.Keys - {k} == rest;
    KeySumAt(n, n.Keys, k);
    KeySumSame(m, n, rest);
    if k in m {
      KeySumAt(m, m.Keys, k);
    } else {
      assert rest == m.Keys;
    }
  }

  /** bgUsed after adding the blocks one by one. */
  function UsedMap(inp: Input, addrs: seq<nat>, ns: nat): map<u64, nat> {
    if addrs == [] then inp.baseUsed
    else AddBlock(UsedMap(inp, addrs[..|addrs|-1], ns), inp.chunkOf(addrs[|addrs|-1]), ns)
  }

  function AddBlock(m: map<u64, nat>, c: Option<u64>, ns: nat): map<u64, nat> {
    if c.None? then m else m[c.value := At(m, c.value) + ns]
  }

  /** How many of the blocks lie in some chunk. */
  function CountPlaced(inp: Input, addrs: seq<nat>): nat {
    if addrs == [] then 0
    else CountPlaced(inp, addrs[..|addrs|-1]) + if inp.chunkOf(addrs[|addrs|-1]).Some? then 1 else 0
  }

  /** The bytes in use: the base plus one node size per placed block. */
  ghost function TotalUsed(inp: Input, addrs: seq<nat>, ns: nat): nat {
    MapSum(inp.baseUsed) + CountPlaced(inp, addrs) * ns
  }

  /** Per block group the accounting is the base plus its extent-tree blocks. */
  lemma {:induction false} UsedMapAt(inp: Input, addrs: seq<nat>, ns: nat, cs: u64)
    ensures At(UsedMap(inp, addrs, ns), cs) == GroupUsed(inp, addrs, cs, ns)
  {
    if addrs != [] {
      UsedMapAt(inp, addrs[..|addrs|-1], ns, cs);
      OneMore(CountIn(inp, addrs[..|addrs|-1], cs), ns);
    }
  }

  lemma {:induction false} OneMore(n: nat, ns: nat)
    ensures (n + 1) * ns == n * ns + ns
  {
  }

  lemma {:induction false} AddBlockTotal(m: map<u64, nat>, c: Option<u64>, ns: nat)
    ensures MapSum(AddBlock(m, c, ns)) == MapSum(m) + if c.Some? then ns else 0
  {
    if c.Some? {
      MapSumUpdate(m, c.value, At(m, c.value) + ns);
    }
  }

  /** The total is the base total plus one node size per placed block. */
  lemma {:induction false} UsedMapTotal(inp: Input, addrs: seq<nat>, ns: nat)
    ensures MapSum(UsedMap(inp, addrs, ns)) == TotalUsed(inp, addrs, ns)
  {
    if addrs != [] {
      var p, c := addrs[..|addrs|-1], inp.chunkOf(addrs[|addrs|-1]);
      UsedMapTotal(inp, p, ns);
      AddBlockTotal(UsedMap(inp, p, ns), c, ns);
      OneMore(CountPlaced(inp, p), ns);
    }
  }

  /** The loop of tryExtentLayout that charges each block to its chunk. */
  method ChargeBlocks(inp: Input, addrs: seq<nat>, ns: nat) returns (used: map<u64, nat>)
    ensures forall cs: u64 :: At(used, cs) == GroupUsed(inp, addrs, cs, ns)
    ensures MapSum(used) == TotalUsed(inp, addrs, ns)
  {
    used := inp.baseUsed;
    var i := 0;
    while i < |addrs|
      invariant i <= |addrs| && used == UsedMap(inp, addrs[..i], ns)
    {
      assert addrs[..i+1][..i] == addrs[..i];
      var c := inp.chunkOf(addrs[i]);
      if c.Some? {
        used := used[c.value := (if c.value in used then used[c.value] else 0) + ns];
      }
      i := i + 1;
    }
    assert addrs[..i] == addrs;
    UsedMapTotal(inp, addrs, ns);
    forall cs: u64 ensures At(used, cs) == GroupUsed(inp, addrs, cs, ns) {
      UsedMapAt(inp, addrs, ns, cs);
    }
  }

  /** The total that goes into the superblock's bytes_used. */
  method SumUsed(used: map<u64, nat>) returns (total: nat)
    ensures total == MapSum(used)
  {
    total := 0;
    var rest := used.Keys;
    while rest != {}
      invariant rest <= used.Keys && total + KeySum(used, rest) == MapSum(used)
      decreases rest
    {
      var k :| k in rest;
      KeySumAt(used, rest, k);
      total := total + used[k];
      rest := rest - {k};
    }
  }
}
