/** Prefix enumeration: the items with a given (objectid, type), and the stack of subtrees a
    pruned depth-first walk still has to visit. */
module WalkSpec {
  import opened Keys
  import opened Trees
  import opened CowSpec
  import opened CowLeaf

  function WithPrefix(s: seq<Item>, objID: u64, typ: u8): seq<Item> {
    if s == [] then []
    else WithPrefix(s[..|s|-1], objID, typ) + (if HasPrefix(s[|s|-1].k, objID, typ) then [s[|s|-1]] else [])
  }

  lemma {:induction false} WithPrefixConcat(a: seq<Item>, b: seq<Item>, objID: u64, typ: u8)
    ensures WithPrefix(a + b, objID, typ) == WithPrefix(a, objID, typ) + WithPrefix(b, objID, typ)
  {
    if b == [] {
      assert a + b == a;
    } else {
      var b', x := b[..|b|-1], b[|b|-1];
      WithPrefixConcat(a, b', objID, typ);
      assert (a + b)[..|a + b|-1] == a + b';
    }
  }

  lemma {:induction false} WithoutPrefixTwice(s: seq<Item>, objID: u64, typ: u8)
    ensures WithoutPrefix(WithoutPrefix(s, objID, typ), objID, typ) == WithoutPrefix(s, objID, typ)
  {
    if s != [] {
      var q, x := s[..|s|-1], s[|s|-1];
      WithoutPrefixTwice(q, objID, typ);
      var e := if HasPrefix(x.k, objID, typ) then [] else [x];
      WithoutPrefixConcat(WithoutPrefix(q, objID, typ), e, objID, typ);
      WithoutPrefixOne(x, objID, typ);
    }
  }

  lemma {:induction false} WithoutPrefixOne(x: Item, objID: u64, typ: u8)
    ensures WithoutPrefix([x], objID, typ) == if HasPrefix(x.k, objID, typ) then [] else [x]
  {
    assert [x][..0] == [];
  }

  /** The two filters split the sequence. */
  lemma {:induction false} PrefixSplit(s: seq<Item>, objID: u64, typ: u8)
    ensures |WithPrefix(s, objID, typ)| + |WithoutPrefix(s, objID, typ)| == |s|
    ensures WithPrefix(s, objID, typ) == [] ==> WithoutPrefix(s, objID, typ) == s
  {
    if s != [] {
      hide HasPrefix;
      var q, x := s[..|s|-1], s[|s|-1];
      var a, b := WithPrefix(q, objID, typ), WithoutPrefix(q, objID, typ);
      PrefixSplit(q, objID, typ);
      if HasPrefix(x.k, objID, typ) {
        assert WithPrefix(s, objID, typ) == a + [x] && WithoutPrefix(s, objID, typ) == b + [];
      } else {
        assert WithPrefix(s, objID, typ) == a + [] && WithoutPrefix(s, objID, typ) == b + [x];
        assert s == q + [x];
      }
    }
  }

  /** What the two filters keep. */
  lemma {:induction false} FiltersAre(s: seq<Item>, objID: u64, typ: u8)
    ensures forall x :: x in WithPrefix(s, objID, typ) <==> x in s && x.k.objID == objID && x.k.typ == typ
    ensures forall x :: x in WithoutPrefix(s, objID, typ) <==> x in s && !(x.k.objID == objID && x.k.typ == typ)
  {
    forall x
      ensures x in WithPrefix(s, objID, typ) <==> x in s && x.k.objID == objID && x.k.typ == typ
      ensures x in WithoutPrefix(s, objID, typ) <==> x in s && !(x.k.objID == objID && x.k.typ == typ)
    {
      WithPrefixHas(s, objID, typ, x);
      WithoutPrefixHas(s, objID, typ, x);
    }
  }

  lemma {:induction false} WithPrefixHas(s: seq<Item>, objID: u64, typ: u8, x: Item)
    ensures x in WithPrefix(s, objID, typ) <==> x in s && x.k.objID == objID && x.k.typ == typ
  {
    if s != [] {
      var q, y := s[..|s|-1], s[|s|-1];
      WithPrefixHas(q, objID, typ, x);
      assert s == q + [y];
    }
  }

  /** The matches of an ordered sequence are in order. */
  lemma {:induction false} WithPrefixIn(s: seq<Item>, objID: u64, typ: u8, lo: int, hi: int)
    requires ItemsIn(s, lo, hi)
    ensures ItemsIn(WithPrefix(s, objID, typ), lo, hi)
    ensures forall r :: EndsBelow(s, r) ==> EndsBelow(WithPrefix(s, objID, typ), r)
  {
    if s != [] {
      var q, x := s[..|s|-1], s[|s|-1];
      WithPrefixIn(q, objID, typ, lo, hi);
      forall r | EndsBelow(s, r) ensures EndsBelow(q, r) {
      }
      assert EndsBelow(q, Rank(x.k));
      var w := WithPrefix(q, objID, typ);
      AppendIn(w, x, lo, hi);
      assert w + [] == w;
    }
  }

  /** Keys past the prefix contribute nothing. */
  lemma {:induction false} PastNone(s: seq<Item>, objID: u64, typ: u8)
    requires forall i :: 0 <= i < |s| ==> PastPrefix(s[i].k, objID, typ)
    ensures WithPrefix(s, objID, typ) == []
  {
    if s != [] {
      PastNone(s[..|s|-1], objID, typ);
    }
  }

  /** How many leading children a walk visits: up to the first separator past the prefix. */
  function Reaching(ps: seq<Ptr>, objID: u64, typ: u8): (n: nat)
    ensures n <= |ps|
    ensures forall i :: 0 <= i < n ==> !PastPrefix(ps[i].k, objID, typ)
    ensures n < |ps| ==> PastPrefix(ps[n].k, objID, typ)
  {
    if ps == [] || PastPrefix(ps[0].k, objID, typ) then 0
    else
      var m := Reaching(ps[1..], objID, typ);
      assert forall i :: 0 < i < m + 1 ==> ps[i] == ps[1..][i-1];
      m + 1
  }

  /** Pruning loses nothing: the skipped children hold no matching item. */
  lemma {:induction false} PruneNone(ks: seq<Kid>, n: nat, lo: int, hi: int, objID: u64, typ: u8)
    requires KidsOrdered(ks, lo, hi) && n <= |ks|
    requires n < |ks| ==> PastPrefix(ks[n].sep, objID, typ)
    ensures WithPrefix(KidsContents(ks[n..]), objID, typ) == []
    ensures WithPrefix(KidsContents(ks), objID, typ) == WithPrefix(KidsContents(ks[..n]), objID, typ)
  {
    KidsOrderedSlice(ks, lo, hi, n, |ks|);
    assert ks[n..|ks|] == ks[n..];
    var s := KidsContents(ks[n..]);
    KidsContentsIn(ks[n..], if n < |ks| then Rank(ks[n].sep) else hi, hi);
    forall i | 0 <= i < |s| ensures PastPrefix(s[i].k, objID, typ) {
      if n < |ks| {
        PrefixIsInterval(ks[n].sep, objID, typ);
        PrefixIsInterval(s[i].k, objID, typ);
      }
    }
    PastNone(s, objID, typ);
    CutAt(ks, n);
    KidsContentsConcat(ks[..n], ks[n..]);
    WithPrefixConcat(KidsContents(ks[..n]), s, objID, typ);
  }

  // ---- the stack of a depth-first walk ---------------------------------------------------------

  /** The contents of the stacked subtrees in the order they are popped, last first. */
  function StackContents(ts: seq<Tree>): seq<Item> {
    if ts == [] then [] else Contents(ts[|ts|-1]) + StackContents(ts[..|ts|-1])
  }

  function StackCnt(ts: seq<Tree>, ns: nat, b: nat): nat {
    if ts == [] then 0 else Cnt(ts[|ts|-1], ns, b) + StackCnt(ts[..|ts|-1], ns, b)
  }

  function NodeCount(t: Tree): nat
    decreases t
  {
    1 + if t.Leaf? then 0 else KidsCount(t.kids)
  }

  function KidsCount(ks: seq<Kid>): nat
    decreases ks
  {
    if ks == [] then 0
    else assert ks[0].sub < ks[0]; NodeCount(ks[0].sub) + KidsCount(ks[1..])
  }

  function StackNodes(ts: seq<Tree>): nat {
    if ts == [] then 0 else NodeCount(ts[|ts|-1]) + StackNodes(ts[..|ts|-1])
  }

  /** The first n children, pushed in reverse so that the leftmost is popped first. */
  function Pushed(ts: seq<Tree>, ks: seq<Kid>): seq<Tree> {
    if ks == [] then ts else Pushed(ts, ks[1..]) + [ks[0].sub]
  }

  lemma {:induction false} PushedFacts(ts: seq<Tree>, ks: seq<Kid>, ns: nat, b: nat)
    ensures StackContents(Pushed(ts, ks)) == KidsContents(ks) + StackContents(ts)
    ensures StackCnt(Pushed(ts, ks), ns, b) == KidsCnt(ks, ns, b) + StackCnt(ts, ns, b)
    ensures StackNodes(Pushed(ts, ks)) == KidsCount(ks) + StackNodes(ts)
    ensures |Pushed(ts, ks)| == |ts| + |ks|
  {
    if ks != [] {
      PushedFacts(ts, ks[1..], ns, b);
      var p := Pushed(ts, ks[1..]);
      assert (p + [ks[0].sub])[..|p|] == p;
    }
  }

  lemma {:induction false} KidsCountConcat(a: seq<Kid>, c: seq<Kid>)
    ensures KidsCount(a + c) == KidsCount(a) + KidsCount(c)
  {
    if a == [] {
      assert a + c == c;
    } else {
      KidsCountConcat(a[1..], c);
      assert (a + c)[1..] == a[1..] + c;
    }
  }
}
