/** What the copy-on-write operations keep of the shape of a search tree: order, levels,
    no empty nodes, block capacity. */
module CowShape {
  import opened Keys
  import opened Trees
  import opened CowSpec

  /** A non-root subtree of level lvl with keys in [lo, hi). */
  ghost predicate Good(t: Tree, lvl: nat, lo: int, hi: int, ns: nat) {
    Ordered(t, lo, hi) && Shape(t, lvl) && Full(t) && Fits(t, ns)
  }

  ghost predicate KidsGood(ks: seq<Kid>, lvl: nat, lo: int, hi: int, ns: nat) {
    && SepsIn(ks, lo, hi)
    && forall i :: 0 <= i < |ks| ==> Good(ks[i].sub, lvl, Rank(ks[i].sep), Upper(ks, i, hi), ns)
  }

  lemma {:induction false} NodeGood(t: Tree, lvl: nat, lo: int, hi: int, ns: nat)
    requires t.Node?
    ensures Good(t, lvl, lo, hi, ns) <==>
            lvl > 0 && t.level == lvl && t.kids != [] && NodeFits(|t.kids|, ns) && KidsGood(t.kids, lvl - 1, lo, hi, ns)
  {
    if Good(t, lvl, lo, hi, ns) {
      forall i | 0 <= i < |t.kids|
        ensures Good(t.kids[i].sub, lvl - 1, Rank(t.kids[i].sep), Upper(t.kids, i, hi), ns)
      {
      }
    }
    if lvl > 0 && t.level == lvl && t.kids != [] && NodeFits(|t.kids|, ns) && KidsGood(t.kids, lvl - 1, lo, hi, ns) {
      forall i | 0 <= i < |t.kids|
        ensures Ordered(t.kids[i].sub, Rank(t.kids[i].sep), Upper(t.kids, i, hi))
        ensures Shape(t.kids[i].sub, lvl - 1) && Full(t.kids[i].sub) && Fits(t.kids[i].sub, ns)
      {
        assert Good(t.kids[i].sub, lvl - 1, Rank(t.kids[i].sep), Upper(t.kids, i, hi), ns);
      }
    }
  }

  lemma {:induction false} KidsGoodAt(ks: seq<Kid>, lvl: nat, lo: int, hi: int, ns: nat, i: nat)
    requires KidsGood(ks, lvl, lo, hi, ns) && i < |ks|
    ensures Good(ks[i].sub, lvl, Rank(ks[i].sep), Upper(ks, i, hi), ns)
    ensures lo <= Rank(ks[i].sep) < Upper(ks, i, hi) <= hi
  {
    if i + 1 < |ks| {
      assert Rank(ks[i].sep) < Rank(ks[i+1].sep);
    }
  }

  // ---- children replaced, removed, widened -----------------------------------------

  lemma {:induction false} ReplaceKid(ks: seq<Kid>, c: nat, s: Tree, g: nat, lvl: nat, lo: int, hi: int, ns: nat)
    requires KidsGood(ks, lvl, lo, hi, ns) && c < |ks|
    requires Good(s, lvl, Rank(ks[c].sep), Upper(ks, c, hi), ns)
    ensures KidsGood(ks[c := Kid(ks[c].sep, g, s)], lvl, lo, hi, ns)
  {
    var r := ks[c := Kid(ks[c].sep, g, s)];
    ReplaceSeps(ks, c, Kid(ks[c].sep, g, s), lo, hi);
    forall i | 0 <= i < |r| ensures Good(r[i].sub, lvl, Rank(r[i].sep), Upper(r, i, hi), ns) {
      ReplaceUpper(ks, c, Kid(ks[c].sep, g, s), hi, i);
      if i != c {
        KidsGoodAt(ks, lvl, lo, hi, ns, i);
      }
    }
  }

  lemma {:induction false} ReplaceSeps(ks: seq<Kid>, c: nat, x: Kid, lo: int, hi: int)
    requires SepsIn(ks, lo, hi) && c < |ks| && x.sep == ks[c].sep
    ensures SepsIn(ks[c := x], lo, hi)
  {
  }

  lemma {:induction false} ReplaceUpper(ks: seq<Kid>, c: nat, x: Kid, hi: int, i: nat)
    requires c < |ks| && i < |ks| && x.sep == ks[c].sep
    ensures Upper(ks[c := x], i, hi) == Upper(ks, i, hi) && ks[c := x][i].sep == ks[i].sep
  {
  }

  lemma {:induction false} RemoveKid(ks: seq<Kid>, c: nat, lvl: nat, lo: int, hi: int, ns: nat)
    requires KidsGood(ks, lvl, lo, hi, ns) && c < |ks|
    ensures KidsGood(ks[..c] + ks[c+1..], lvl, lo, hi, ns)
  {
    var r := ks[..c] + ks[c+1..];
    forall i | 0 <= i < |r| ensures r[i] == ks[if i < c then i else i + 1] {
    }
    RemoveSeps(ks, c, lo, hi);
    forall i | 0 <= i < |r| ensures Good(r[i].sub, lvl, Rank(r[i].sep), Upper(r, i, hi), ns) {
      var j := if i < c then i else i + 1;
      KidsGoodAt(ks, lvl, lo, hi, ns, j);
      RemoveUpper(ks, c, lo, hi, i);
      OrderedWiden(r[i].sub, Rank(r[i].sep), Upper(ks, j, hi), Rank(r[i].sep), Upper(r, i, hi));
    }
  }

  lemma {:induction false} RemoveSeps(ks: seq<Kid>, c: nat, lo: int, hi: int)
    requires SepsIn(ks, lo, hi) && c < |ks|
    ensures SepsIn(ks[..c] + ks[c+1..], lo, hi)
  {
    var r := ks[..c] + ks[c+1..];
    forall i | 0 <= i < |r| ensures r[i] == ks[if i < c then i else i + 1] {
    }
  }

  lemma {:induction false} RemoveUpper(ks: seq<Kid>, c: nat, lo: int, hi: int, i: nat)
    requires SepsIn(ks, lo, hi) && c < |ks| && i < |ks| - 1
    ensures Upper(ks, if i < c then i else i + 1, hi) <= Upper(ks[..c] + ks[c+1..], i, hi)
  {
    var r := ks[..c] + ks[c+1..];
    if i + 1 < |r| {
      assert r[i+1] == ks[if i + 1 < c then i + 1 else i + 2];
      if i + 1 == c {
        assert Rank(ks[c].sep) < Rank(ks[c+1].sep);
      }
    }
  }

  lemma {:induction false} SliceGood(ks: seq<Kid>, lvl: nat, lo: int, hi: int, ns: nat, i: nat, j: nat)
    requires KidsGood(ks, lvl, lo, hi, ns) && i <= j <= |ks|
    ensures KidsGood(ks[i..j], lvl, if i < |ks| then Rank(ks[i].sep) else hi,
                     if j < |ks| then Rank(ks[j].sep) else hi, ns)
  {
    var h := if j < |ks| then Rank(ks[j].sep) else hi;
    SepsInSlice(ks, lo, hi, i, j);
    forall m | 0 <= m < j - i ensures Good(ks[i..j][m].sub, lvl, Rank(ks[i..j][m].sep), Upper(ks[i..j], m, h), ns) {
      UpperSlice(ks, hi, i, j, m);
      assert ks[i..j][m] == ks[i+m];
      KidsGoodAt(ks, lvl, lo, hi, ns, i + m);
    }
  }

  /** Two runs of children, the second starting at mid. */
  lemma {:induction false} JoinGood(p: seq<Kid>, q: seq<Kid>, lvl: nat, lo: int, mid: int, hi: int, ns: nat)
    requires KidsGood(p, lvl, lo, mid, ns) && KidsGood(q, lvl, mid, hi, ns) && lo <= mid <= hi
    requires q != [] ==> Rank(q[0].sep) == mid
    requires q == [] ==> mid == hi
    ensures KidsGood(p + q, lvl, lo, hi, ns)
  {
    var r := p + q;
    forall i | 0 <= i < |r| ensures Good(r[i].sub, lvl, Rank(r[i].sep), Upper(r, i, hi), ns) {
      JoinUpper(p, q, i, mid, hi);
      if i < |p| {
        KidsGoodAt(p, lvl, lo, mid, ns, i);
      } else {
        KidsGoodAt(q, lvl, mid, hi, ns, i - |p|);
      }
    }
  }

  lemma {:induction false} JoinUpper(p: seq<Kid>, q: seq<Kid>, i: nat, mid: int, hi: int)
    requires i < |p + q|
    requires q != [] ==> Rank(q[0].sep) == mid
    requires q == [] ==> mid == hi
    ensures Upper(p + q, i, hi) == if i < |p| then Upper(p, i, mid) else Upper(q, i - |p|, hi)
  {
    if i + 1 < |p + q| {
      assert (p + q)[i+1] == if i + 1 < |p| then p[i+1] else q[i+1-|p|];
    }
  }

  lemma {:induction false} OneGood(x: Kid, lvl: nat, hi: int, ns: nat)
    requires Good(x.sub, lvl, Rank(x.sep), hi, ns) && Rank(x.sep) < hi
    ensures KidsGood([x], lvl, Rank(x.sep), hi, ns)
  {
    var ks := [x];
    assert Upper(ks, 0, hi) == hi;
  }

  lemma {:induction false} WidenKid(ks: seq<Kid>, c: nat, l: Tree, sep: Key, r: Tree, g: nat, lvl: nat, lo: int,
                                    hi: int, ns: nat)
    requires KidsGood(ks, lvl, lo, hi, ns) && c < |ks|
    requires Rank(ks[c].sep) < Rank(sep) < Upper(ks, c, hi)
    requires Good(l, lvl, Rank(ks[c].sep), Rank(sep), ns)
    requires Good(r, lvl, Rank(sep), Upper(ks, c, hi), ns)
    ensures KidsGood(Widened(ks, c, l, sep, r, g), lvl, lo, hi, ns)
  {
    var lk, rk := Kid(ks[c].sep, g, l), Kid(sep, g, r);
    var s, u := Rank(ks[c].sep), Upper(ks, c, hi);
    KidsGoodAt(ks, lvl, lo, hi, ns, c);
    OneGood(lk, lvl, Rank(sep), ns);
    OneGood(rk, lvl, u, ns);
    JoinGood([lk], [rk], lvl, s, Rank(sep), u, ns);
    LeftPart(ks, c, lvl, lo, hi, ns);
    JoinGood(ks[..c], [lk] + [rk], lvl, lo, s, u, ns);
    SliceGood(ks, lvl, lo, hi, ns, c + 1, |ks|);
    assert ks[c+1..|ks|] == ks[c+1..];
    JoinGood(ks[..c] + ([lk] + [rk]), ks[c+1..], lvl, lo, u, hi, ns);
    PairUp(ks[..c], lk, rk, ks[c+1..]);
  }

  lemma {:induction false} LeftPart(ks: seq<Kid>, c: nat, lvl: nat, lo: int, hi: int, ns: nat)
    requires KidsGood(ks, lvl, lo, hi, ns) && c < |ks|
    ensures KidsGood(ks[..c], lvl, lo, Rank(ks[c].sep), ns)
  {
    SliceGood(ks, lvl, lo, hi, ns, 0, c);
    assert ks[0..c] == ks[..c];
    assert lo <= Rank(ks[0].sep);
  }
}
