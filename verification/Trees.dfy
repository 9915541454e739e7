/** B-tree nodes on the device (btree.go) and the finite trees they stand for. A tree value
    carries the address and the generation of every node, so that what is written where is
    part of its meaning. Logical and physical addresses coincide. */
module Trees {
  import opened Keys
  import opened FreeSpace

  const NODE_HDR: nat := 101
  const ITEM_SIZE: nat := 25
  const PTR_SIZE: nat := 33
  const MAX_DEPTH: nat := 64
  const MAX_NODES: nat := 0x10_0000

  datatype Item = Item(k: Key, data: seq<u8>)
  datatype Kid = Kid(sep: Key, gen: nat, sub: Tree)
  datatype Tree =
    | Leaf(addr: nat, gen: nat, items: seq<Item>)
    | Node(addr: nat, gen: nat, level: nat, kids: seq<Kid>)

  datatype Ptr = Ptr(k: Key, child: nat, gen: nat)
  datatype Block =
    | LeafBlock(bytenr: nat, gen: nat, items: seq<Item>)
    | InnerBlock(bytenr: nat, gen: nat, level: nat, ptrs: seq<Ptr>)

  /** The blocks that can be read back whole, by address. */
  type Device = map<nat, Block>

  /** Writing a block destroys every other block whose bytes it overlaps. */
  function WriteBlock(dev: Device, ns: nat, a: nat, blk: Block): Device {
    (map x | x in dev && (x + ns <= a || a + ns <= x) :: dev[x])[a := blk]
  }

  function Ptrs(ks: seq<Kid>): (ps: seq<Ptr>)
    ensures |ps| == |ks|
  {
    seq(|ks|, i requires 0 <= i < |ks| => Ptr(ks[i].sep, ks[i].sub.addr, ks[i].gen))
  }

  function BlockOf(t: Tree): Block {
    match t
    case Leaf(a, g, items) => LeafBlock(a, g, items)
    case Node(a, g, lvl, kids) => InnerBlock(a, g, lvl, Ptrs(kids))
  }

  function LevelOf(t: Tree): nat {
    if t.Leaf? then 0 else t.level
  }

  /** The device holds every node of t at its address. */
  ghost predicate Stored(dev: Device, t: Tree) {
    && t.addr in dev && dev[t.addr] == BlockOf(t)
    && (t.Node? ==> forall i :: 0 <= i < |t.kids| ==> Stored(dev, t.kids[i].sub))
  }

  // ---- in-order contents -------------------------------------------------------

  function Contents(t: Tree): seq<Item>
    decreases t
  {
    match t
    case Leaf(_, _, items) => items
    case Node(_, _, _, kids) => KidsContents(kids)
  }

  function KidsContents(ks: seq<Kid>): seq<Item>
    decreases ks
  {
    if ks == [] then []
    else assert ks[0].sub < ks[0]; Contents(ks[0].sub) + KidsContents(ks[1..])
  }

  lemma {:induction false} KidsContentsConcat(a: seq<Kid>, b: seq<Kid>)
    ensures KidsContents(a + b) == KidsContents(a) + KidsContents(b)
  {
    if a == [] {
      assert a + b == b;
    } else {
      KidsContentsConcat(a[1..], b);
      assert (a + b)[1..] == a[1..] + b;
    }
  }

  lemma {:induction false} KidsContentsOne(x: Kid)
    ensures KidsContents([x]) == Contents(x.sub)
  {
    assert [x][1..] == [];
  }

  /** The contents of a node around its child c. */
  lemma {:induction false} KidsContentsAt(ks: seq<Kid>, c: nat)
    requires c < |ks|
    ensures KidsContents(ks) ==
            KidsContents(ks[..c]) + Contents(ks[c].sub) + KidsContents(ks[c+1..])
  {
    var l, m, r := ks[..c], [ks[c]], ks[c+1..];
    SplitAt(ks, c);
    KidsContentsConcat(l + m, r);
    KidsContentsConcat(l, m);
    KidsContentsOne(ks[c]);
  }

  // ---- how often a tree covers a byte --------------------------------------------

  function Cnt(t: Tree, ns: nat, b: nat): nat
    decreases t
  {
    Hit(t.addr, ns, b) + if t.Leaf? then 0 else KidsCnt(t.kids, ns, b)
  }

  function KidsCnt(ks: seq<Kid>, ns: nat, b: nat): nat
    decreases ks
  {
    if ks == [] then 0
    else assert ks[0].sub < ks[0]; Cnt(ks[0].sub, ns, b) + KidsCnt(ks[1..], ns, b)
  }

  lemma {:induction false} KidsCntConcat(a: seq<Kid>, c: seq<Kid>, ns: nat, b: nat)
    ensures KidsCnt(a + c, ns, b) == KidsCnt(a, ns, b) + KidsCnt(c, ns, b)
  {
    if a == [] {
      assert a + c == c;
    } else {
      KidsCntConcat(a[1..], c, ns, b);
      assert (a + c)[1..] == a[1..] + c;
    }
  }

  lemma {:induction false} KidsCntOne(x: Kid, ns: nat, b: nat)
    ensures KidsCnt([x], ns, b) == Cnt(x.sub, ns, b)
  {
    assert [x][1..] == [];
  }

  lemma {:induction false} KidsCntAt(ks: seq<Kid>, c: nat, ns: nat, b: nat)
    requires c < |ks|
    ensures KidsCnt(ks, ns, b) ==
            KidsCnt(ks[..c], ns, b) + Cnt(ks[c].sub, ns, b) + KidsCnt(ks[c+1..], ns, b)
  {
    var l, m, r := ks[..c], [ks[c]], ks[c+1..];
    SplitAt(ks, c);
    KidsCntConcat(l + m, r, ns, b);
    KidsCntConcat(l, m, ns, b);
    KidsCntOne(ks[c], ns, b);
  }

  /** No node of t has a byte in [a, a + ns). */
  ghost predicate Avoids(t: Tree, ns: nat, a: nat) {
    forall b: nat :: a <= b < a + ns ==> Cnt(t, ns, b) == 0
  }

  lemma {:induction false} KidAvoids(t: Tree, i: nat, ns: nat, a: nat)
    requires t.Node? && i < |t.kids| && Avoids(t, ns, a)
    ensures Avoids(t.kids[i].sub, ns, a)
  {
    forall b: nat | a <= b < a + ns ensures Cnt(t.kids[i].sub, ns, b) == 0 {
      assert Cnt(t, ns, b) == 0;
      KidsCntAt(t.kids, i, ns, b);
    }
  }

  /** A write that avoids a stored tree leaves it stored. */
  lemma {:induction false} WriteFrame(dev: Device, t: Tree, ns: nat, a: nat, blk: Block)
    requires Stored(dev, t) && ns > 0 && Avoids(t, ns, a)
    ensures Stored(WriteBlock(dev, ns, a, blk), t)
    decreases t
  {
    var b := if a < t.addr then t.addr else a;
    if a <= b < a + ns {
      assert Cnt(t, ns, b) == 0;
      assert Hit(t.addr, ns, b) == 0;
    }
    if t.Node? {
      forall i | 0 <= i < |t.kids| ensures Stored(WriteBlock(dev, ns, a, blk), t.kids[i].sub) {
        assert Stored(dev, t.kids[i].sub);
        KidAvoids(t, i, ns, a);
        WriteFrame(dev, t.kids[i].sub, ns, a, blk);
      }
    }
  }

  // ---- the shape of a search tree ------------------------------------------------

  ghost predicate ItemsIn(s: seq<Item>, lo: int, hi: int) {
    && (forall i :: 0 <= i < |s| ==> lo <= Rank(s[i].k) < hi)
    && (forall i, j :: 0 <= i < j < |s| ==> Rank(s[i].k) < Rank(s[j].k))
  }

  ghost predicate SepsIn(ks: seq<Kid>, lo: int, hi: int) {
    && (forall i :: 0 <= i < |ks| ==> lo <= Rank(ks[i].sep) < hi)
    && (forall i, j :: 0 <= i < j < |ks| ==> Rank(ks[i].sep) < Rank(ks[j].sep))
  }

  /** The exclusive upper bound of child i. */
  function Upper(ks: seq<Kid>, i: nat, hi: int): int {
    if i + 1 < |ks| then Rank(ks[i+1].sep) else hi
  }

  /** Every key under child i lies in [separator i, separator i+1). */
  ghost predicate Ordered(t: Tree, lo: int, hi: int) {
    match t
    case Leaf(_, _, items) => ItemsIn(items, lo, hi)
    case Node(_, _, _, kids) =>
      && SepsIn(kids, lo, hi)
      && forall i :: 0 <= i < |kids| ==> Ordered(kids[i].sub, Rank(kids[i].sep), Upper(kids, i, hi))
  }

  ghost predicate KidsOrdered(ks: seq<Kid>, lo: int, hi: int) {
    && SepsIn(ks, lo, hi)
    && forall i :: 0 <= i < |ks| ==> Ordered(ks[i].sub, Rank(ks[i].sep), Upper(ks, i, hi))
  }

  /** Levels count down to 0 at the leaves and no inner node is without children. */
  ghost predicate Shape(t: Tree, lvl: nat) {
    match t
    case Leaf(_, _, _) => lvl == 0
    case Node(_, _, l, kids) =>
      lvl > 0 && l == lvl && kids != [] && forall i :: 0 <= i < |kids| ==> Shape(kids[i].sub, lvl - 1)
  }

  /** No leaf is empty. */
  ghost predicate Full(t: Tree) {
    match t
    case Leaf(_, _, items) => items != []
    case Node(_, _, _, kids) => forall i :: 0 <= i < |kids| ==> Full(kids[i].sub)
  }

  function DataSum(items: seq<Item>): nat {
    if items == [] then 0 else DataSum(items[..|items|-1]) + |items[|items|-1].data|
  }

  /** The bytes the items take in a leaf: one descriptor each, plus their data. */
  function LeafUse(items: seq<Item>): nat {
    |items| * ITEM_SIZE + DataSum(items)
  }

  predicate LeafFits(items: seq<Item>, ns: nat) {
    NODE_HDR + LeafUse(items) <= ns
  }

  predicate NodeFits(n: nat, ns: nat) {
    NODE_HDR + n * PTR_SIZE <= ns
  }

  /** Every node fits in its block. */
  ghost predicate Fits(t: Tree, ns: nat) {
    match t
    case Leaf(_, _, items) => LeafFits(items, ns)
    case Node(_, _, _, kids) => NodeFits(|kids|, ns) && forall i :: 0 <= i < |kids| ==> Fits(kids[i].sub, ns)
  }

  /** The parent-transid invariant: a pointer's generation is its child's. */
  ghost predicate GenOK(t: Tree) {
    t.Node? ==> forall i :: 0 <= i < |t.kids| ==> t.kids[i].gen == t.kids[i].sub.gen && GenOK(t.kids[i].sub)
  }

  /** A search tree: ordered, levelled, no empty node except an empty root leaf, every node
      within its block. */
  ghost predicate WellFormed(t: Tree, ns: nat) {
    && Ordered(t, 0, RANK_LIMIT)
    && Shape(t, LevelOf(t))
    && (t.Leaf? || Full(t))
    && Fits(t, ns)
  }

  lemma {:induction false} OrderedWiden(t: Tree, lo: int, hi: int, lo': int, hi': int)
    requires Ordered(t, lo, hi) && lo' <= lo && hi <= hi'
    ensures Ordered(t, lo', hi')
    decreases t
  {
    if t.Node? {
      forall i | 0 <= i < |t.kids|
        ensures Ordered(t.kids[i].sub, Rank(t.kids[i].sep), Upper(t.kids, i, hi'))
      {
        OrderedWiden(t.kids[i].sub, Rank(t.kids[i].sep), Upper(t.kids, i, hi),
                     Rank(t.kids[i].sep), Upper(t.kids, i, hi'));
      }
    }
  }

  lemma {:induction false} SepsInSlice(ks: seq<Kid>, lo: int, hi: int, i: nat, j: nat)
    requires SepsIn(ks, lo, hi) && i <= j <= |ks|
    ensures SepsIn(ks[i..j], if i < |ks| then Rank(ks[i].sep) else hi, if j < |ks| then Rank(ks[j].sep) else hi)
  {
    forall m | 0 <= m < j - i
      ensures Rank(ks[i].sep) <= Rank(ks[i..j][m].sep) < (if j < |ks| then Rank(ks[j].sep) else hi)
    {
      assert m == 0 || Rank(ks[i].sep) < Rank(ks[i+m].sep);
    }
  }

  lemma {:induction false} UpperSlice(ks: seq<Kid>, hi: int, i: nat, j: nat, m: nat)
    requires i + m < j <= |ks|
    ensures Upper(ks[i..j], m, if j < |ks| then Rank(ks[j].sep) else hi) == Upper(ks, i + m, hi)
  {
    if m + 1 < j - i {
      assert ks[i..j][m+1] == ks[i+m+1];
    }
  }

  /** A range of neighbouring children is ordered between its own bounds. */
  lemma {:induction false} KidsOrderedSlice(ks: seq<Kid>, lo: int, hi: int, i: nat, j: nat)
    requires KidsOrdered(ks, lo, hi) && i <= j <= |ks|
    ensures KidsOrdered(ks[i..j], if i < |ks| then Rank(ks[i].sep) else hi, if j < |ks| then Rank(ks[j].sep) else hi)
  {
    SepsInSlice(ks, lo, hi, i, j);
    forall m | 0 <= m < j - i
      ensures Ordered(ks[i..j][m].sub, Rank(ks[i..j][m].sep),
                      Upper(ks[i..j], m, if j < |ks| then Rank(ks[j].sep) else hi))
    {
      UpperSlice(ks, hi, i, j, m);
      assert ks[i..j][m] == ks[i+m];
    }
  }

  lemma {:induction false} ItemsInConcat(a: seq<Item>, b: seq<Item>, lo: int, mid: int, hi: int)
    requires ItemsIn(a, lo, mid) && ItemsIn(b, mid, hi) && lo <= mid <= hi
    ensures ItemsIn(a + b, lo, hi)
  {
  }

  /** The in-order contents of an ordered tree are strictly sorted and within its bounds. */
  lemma {:induction false} ContentsIn(t: Tree, lo: int, hi: int)
    requires Ordered(t, lo, hi)
    ensures ItemsIn(Contents(t), lo, hi)
    decreases t
  {
    if t.Node? {
      assert KidsOrdered(t.kids, lo, hi);
      KidsContentsIn(t.kids, lo, hi);
    }
  }

  lemma {:induction false} KidsContentsIn(ks: seq<Kid>, lo: int, hi: int)
    requires KidsOrdered(ks, lo, hi)
    ensures ItemsIn(KidsContents(ks), lo, hi)
    decreases ks
  {
    if ks != [] {
      var u := Upper(ks, 0, hi);
      assert ks[0].sub < ks[0];
      assert Ordered(ks[0].sub, Rank(ks[0].sep), u);
      OrderedWiden(ks[0].sub, Rank(ks[0].sep), u, lo, u);
      ContentsIn(ks[0].sub, lo, u);
      KidsOrderedSlice(ks, lo, hi, 1, |ks|);
      assert ks[1..|ks|] == ks[1..];
      KidsContentsIn(ks[1..], u, hi);
      ItemsInConcat(Contents(ks[0].sub), KidsContents(ks[1..]), lo, u, hi);
    }
  }

  /** Only the root of a well-formed tree can be without items. */
  lemma {:induction false} FullNonEmpty(t: Tree, lvl: nat)
    requires Shape(t, lvl) && Full(t)
    ensures Contents(t) != []
    decreases t
  {
    if t.Node? {
      FullNonEmpty(t.kids[0].sub, lvl - 1);
    }
  }

  // ---- routing ---------------------------------------------------------------------

  /** The number of leading separators that are at most k. */
  function Lead(ps: seq<Ptr>, k: Key): (n: nat)
    ensures n <= |ps|
    ensures forall i :: 0 <= i < n ==> Rank(ps[i].k) <= Rank(k)
    ensures n < |ps| ==> Rank(ps[n].k) > Rank(k)
  {
    if ps == [] || Rank(ps[0].k) > Rank(k) then 0
    else
      var m := Lead(ps[1..], k);
      assert forall i :: 0 < i < m + 1 ==> ps[i] == ps[1..][i-1];
      1 + m
  }

  /** tracePath's choice: the rightmost of the leading separators at most k, else child 0. */
  function Route(ps: seq<Ptr>, k: Key): nat {
    if Lead(ps, k) == 0 then 0 else Lead(ps, k) - 1
  }

  function RouteKid(ks: seq<Kid>, k: Key): (c: nat)
    requires ks != []
    ensures c < |ks|
    ensures c > 0 ==> Rank(ks[c].sep) <= Rank(k)
    ensures c + 1 < |ks| && c > 0 ==> Rank(k) < Rank(ks[c+1].sep)
    ensures c + 1 < |ks| && Rank(ks[0].sep) <= Rank(ks[1].sep) ==> Rank(k) < Rank(ks[c+1].sep)
  {
    var n := Lead(Ptrs(ks), k);
    assert n < |ks| ==> Ptrs(ks)[n].k == ks[n].sep;
    assert n > 0 ==> Ptrs(ks)[n-1].k == ks[n-1].sep;
    Route(Ptrs(ks), k)
  }
}
