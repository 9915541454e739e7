/** The copy-on-write operations of btree_write.go as functions on trees. Each function
    threads the free list, so the address of every new node is determined. */
module CowSpec {
  import opened Keys
  import opened FreeSpace
  import opened Trees

  datatype Error = LeafFull | NoRoom | Missing | NoBlock | TooDeep | TooLarge | Corrupt
  datatype Result<+T> = Ok(value: T) | Err(error: Error)

  datatype LeafOp =
    | Insert(k: Key, data: seq<u8>)
    | Update(k: Key, data: seq<u8>)
    | Delete(k: Key)
    | DeletePrefix(objID: u64, typ: u8)

  function RouteKey(op: LeafOp): Key {
    if op.DeletePrefix? then Key(op.objID, op.typ, 0) else op.k
  }

  // ---- leaves (cow.go) -----------------------------------------------------------

  /** The first index whose key is greater than k. */
  function InsertPos(s: seq<Item>, k: Key): (p: nat)
    ensures p <= |s|
    ensures forall i :: 0 <= i < p ==> Rank(s[i].k) <= Rank(k)
    ensures p < |s| ==> Rank(k) < Rank(s[p].k)
  {
    if s == [] || Rank(k) < Rank(s[0].k) then 0
    else
      var q := InsertPos(s[1..], k);
      assert forall i :: 0 < i < q + 1 ==> s[i] == s[1..][i-1];
      q + 1
  }

  function InsertSorted(s: seq<Item>, it: Item): seq<Item> {
    var p := InsertPos(s, it.k);
    s[..p] + [it] + s[p..]
  }

  /** findItemIdx: the first index with key k, or |s|. */
  function IndexOf(s: seq<Item>, k: Key): (i: nat)
    ensures i <= |s|
    ensures i < |s| ==> s[i].k == k
    ensures forall j :: 0 <= j < i ==> s[j].k != k
  {
    if s == [] || s[0].k == k then 0
    else
      var q := IndexOf(s[1..], k);
      assert forall j :: 0 < j < q + 1 ==> s[j] == s[1..][j-1];
      q + 1
  }

  function WithoutPrefix(s: seq<Item>, objID: u64, typ: u8): seq<Item> {
    if s == [] then []
    else WithoutPrefix(s[..|s|-1], objID, typ) +
         (if HasPrefix(s[|s|-1].k, objID, typ) then [] else [s[|s|-1]])
  }

  /** What a mutation does to the routed leaf. */
  function ApplyLeaf(op: LeafOp, items: seq<Item>, ns: nat): Result<seq<Item>> {
    match op
    case Insert(k, data) =>
      if ns - NODE_HDR - LeafUse(items) < ITEM_SIZE + |data| then Err(LeafFull)
      else Ok(InsertSorted(items, Item(k, data)))
    case Update(k, data) =>
      var i := IndexOf(items, k);
      if i == |items| then Err(Missing)
      else if |data| != |items[i].data| && |data| - |items[i].data| > ns - NODE_HDR - LeafUse(items) then Err(NoRoom)
      else Ok(items[i := Item(k, data)])
    case Delete(k) =>
      var i := IndexOf(items, k);
      if i == |items| then Err(Missing) else Ok(items[..i] + items[i+1..])
    case DeletePrefix(objID, typ) =>
      var r := WithoutPrefix(items, objID, typ);
      if |r| == |items| then Err(Missing) else Ok(r)
  }

  // ---- the path-copy engine --------------------------------------------------------

  datatype Mutated = MFail(error: Error) | MDrop | MKeep(t: Tree, fr: seq<Extent>, shrunk: bool)

  /** A new inner node at a fresh block. */
  function CowNode(lvl: nat, kids: seq<Kid>, fr: seq<Extent>, ns: nat, g: nat): Mutated {
    match FirstFit(fr, ns)
    case NoSpace => MFail(NoBlock)
    case Granted(a, fr') => MKeep(Node(a, g, lvl, kids), fr', false)
  }

  /** One step up the path: the child at index c of a node was mutated to m. */
  function MutateUp(lvl: nat, kids: seq<Kid>, c: nat, m: Mutated, top: bool, fr: seq<Extent>, ns: nat, g: nat): Mutated
    requires c < |kids|
  {
    match m
    case MFail(e) => m
    case MDrop =>
      var rest := kids[..c] + kids[c+1..];
      if rest == [] && !top then MDrop
      else if top && |rest| == 1 then MKeep(rest[0].sub, fr, true)
      else CowNode(lvl, rest, fr, ns, g)
    case MKeep(s, fr', _) => CowNode(lvl, kids[c := Kid(kids[c].sep, g, s)], fr', ns, g)
  }

  function MutateLeaf(op: LeafOp, items: seq<Item>, top: bool, fr: seq<Extent>, ns: nat, g: nat): Mutated {
    match ApplyLeaf(op, items, ns)
    case Err(e) => MFail(e)
    case Ok(items') =>
      if items' == [] && !top then MDrop
      else match FirstFit(fr, ns)
           case NoSpace => MFail(NoBlock)
           case Granted(a, fr') => MKeep(Leaf(a, g, items'), fr', false)
  }

  /** cowMutate's walk: mutate the routed leaf, then rewrite the path bottom-up. top says
      that t is the root. */
  ghost function MutateRec(t: Tree, op: LeafOp, top: bool, fr: seq<Extent>, ns: nat, g: nat): Mutated
    requires Shape(t, LevelOf(t))
    decreases t
  {
    match t
    case Leaf(_, _, items) => MutateLeaf(op, items, top, fr, ns, g)
    case Node(_, _, lvl, kids) =>
      var c := RouteKid(kids, RouteKey(op));
      assert Shape(kids[c].sub, lvl - 1);
      ShapeLevel(kids[c].sub, lvl - 1);
      MutateUp(lvl, kids, c, MutateRec(kids[c].sub, op, false, fr, ns, g), top, fr, ns, g)
  }

  lemma {:induction false} ShapeLevel(t: Tree, lvl: nat)
    requires Shape(t, lvl)
    ensures LevelOf(t) == lvl
  {
  }

  /** The addresses on the route of k, leaf first: what a successful mutation frees. */
  ghost function SpineAddrs(t: Tree, k: Key): seq<nat>
    requires Shape(t, LevelOf(t))
    decreases t
  {
    match t
    case Leaf(a, _, _) => [a]
    case Node(a, _, lvl, kids) =>
      var c := RouteKid(kids, k);
      assert Shape(kids[c].sub, lvl - 1);
      ShapeLevel(kids[c].sub, lvl - 1);
      SpineAddrs(kids[c].sub, k) + [a]
  }

  function FreeAll(fr: seq<Extent>, addrs: seq<nat>, ns: nat): seq<Extent> {
    if addrs == [] then fr else Freed(FreeAll(fr, addrs[..|addrs|-1], ns), addrs[|addrs|-1], ns)
  }

  predicate TwoLeafRoot(t: Tree) {
    t.Node? && t.level == 1 && |t.kids| == 2 && t.kids[0].sub.Leaf? && t.kids[1].sub.Leaf?
  }

  /** tryCollapseTwoLeafRoot. */
  function TryCollapse(t: Tree, fr: seq<Extent>, ns: nat, g: nat): (Tree, seq<Extent>) {
    if !TwoLeafRoot(t) then (t, fr)
    else
      var l, r := t.kids[0].sub, t.kids[1].sub;
      if !LeafFits(l.items + r.items, ns) then (t, fr)
      else match FirstFit(fr, ns)
           case NoSpace => (t, fr)
           case Granted(a, fr') => (Leaf(a, g, l.items + r.items), FreeAll(fr', [t.addr, l.addr, r.addr], ns))
  }

  /** The end of cowMutate: free the old path and try the merge. */
  function MutateDone(m: Mutated, path: seq<nat>, ns: nat, g: nat): Result<(Tree, seq<Extent>)> {
    match m
    case MFail(e) => Err(e)
    case MDrop => Err(Corrupt)
    case MKeep(t, fr, shrunk) =>
      var fr' := FreeAll(fr, path, ns);
      Ok(if shrunk then (t, fr') else TryCollapse(t, fr', ns, g))
  }

  /** cowMutate. */
  ghost function MutateTree(t: Tree, op: LeafOp, fr: seq<Extent>, ns: nat, g: nat): Result<(Tree, seq<Extent>)>
    requires Shape(t, LevelOf(t))
  {
    if LevelOf(t) > MAX_DEPTH then Err(TooDeep)
    else MutateDone(MutateRec(t, op, true, fr, ns, g), SpineAddrs(t, RouteKey(op)), ns, g)
  }

  // ---- splits ------------------------------------------------------------------------

  /** The scan for the split position: the first prefix holding half the data bytes. */
  function SplitScan(all: seq<Item>, i: nat, target: nat): nat
    requires i < |all|
    decreases |all| - i
  {
    if i == |all| - 1 then 1
    else if DataSum(all[..i+1]) >= target then i + 1
    else SplitScan(all, i + 1, target)
  }

  function SplitPos(all: seq<Item>): nat
    requires all != []
  {
    var s := SplitScan(all, 0, DataSum(all) / 2);
    if s > |all| - 1 then |all| - 1 else s
  }

  /** splitAndInsertLeaf. */
  function SplitLeaf(items: seq<Item>, it: Item, ns: nat): Result<(seq<Item>, seq<Item>)> {
    var all := InsertSorted(items, it);
    var s := SplitPos(all);
    if !LeafFits(all[..s], ns) || !LeafFits(all[s..], ns) then Err(TooLarge)
    else Ok((all[..s], all[s..]))
  }

  datatype Splitted =
    | SFail(error: Error)
    | One(t: Tree, fr: seq<Extent>)
    | Two(l: Tree, sep: Key, r: Tree, fr: seq<Extent>)

  /** Writes two new nodes, the left one first. */
  function TwoLeaves(li: seq<Item>, ri: seq<Item>, fr: seq<Extent>, ns: nat, g: nat): Splitted
    requires ri != []
  {
    match FirstFit(fr, ns)
    case NoSpace => SFail(NoBlock)
    case Granted(a, fr1) =>
      match FirstFit(fr1, ns)
      case NoSpace => SFail(NoBlock)
      case Granted(b, fr2) => Two(Leaf(a, g, li), ri[0].k, Leaf(b, g, ri), fr2)
  }

  function TwoNodes(lvl: nat, lk: seq<Kid>, rk: seq<Kid>, fr: seq<Extent>, ns: nat, g: nat): Splitted
    requires rk != []
  {
    match FirstFit(fr, ns)
    case NoSpace => SFail(NoBlock)
    case Granted(a, fr1) =>
      match FirstFit(fr1, ns)
      case NoSpace => SFail(NoBlock)
      case Granted(b, fr2) => Two(Node(a, g, lvl, lk), rk[0].sep, Node(b, g, lvl, rk), fr2)
  }

  function OneNode(lvl: nat, kids: seq<Kid>, fr: seq<Extent>, ns: nat, g: nat): Splitted {
    match FirstFit(fr, ns)
    case NoSpace => SFail(NoBlock)
    case Granted(a, fr') => One(Node(a, g, lvl, kids), fr')
  }

  /** The children after child c became l and r. */
  function Widened(kids: seq<Kid>, c: nat, l: Tree, sep: Key, r: Tree, g: nat): seq<Kid>
    requires c < |kids|
  {
    kids[..c] + [Kid(kids[c].sep, g, l), Kid(sep, g, r)] + kids[c+1..]
  }

  /** One step up the path of cowInsertSplit. */
  function SplitUp(lvl: nat, kids: seq<Kid>, c: nat, m: Splitted, ns: nat, g: nat): Splitted
    requires c < |kids|
  {
    match m
    case SFail(e) => m
    case One(s, fr) => OneNode(lvl, kids[c := Kid(kids[c].sep, g, s)], fr, ns, g)
    case Two(l, sep, r, fr) =>
      var all := Widened(kids, c, l, sep, r, g);
      if NodeFits(|kids| + 1, ns) then OneNode(lvl, all, fr, ns, g)
      else TwoNodes(lvl, all[..|all| / 2], all[|all| / 2..], fr, ns, g)
  }

  function SplitAtLeaf(items: seq<Item>, it: Item, fr: seq<Extent>, ns: nat, g: nat): Splitted {
    match SplitLeaf(items, it, ns)
    case Err(e) => SFail(e)
    case Ok((li, ri)) => if ri == [] then SFail(Corrupt) else TwoLeaves(li, ri, fr, ns, g)
  }

  ghost function SplitRec(t: Tree, it: Item, fr: seq<Extent>, ns: nat, g: nat): Splitted
    requires Shape(t, LevelOf(t))
    decreases t
  {
    match t
    case Leaf(_, _, items) => SplitAtLeaf(items, it, fr, ns, g)
    case Node(_, _, lvl, kids) =>
      var c := RouteKid(kids, it.k);
      assert Shape(kids[c].sub, lvl - 1);
      ShapeLevel(kids[c].sub, lvl - 1);
      SplitUp(lvl, kids, c, SplitRec(kids[c].sub, it, fr, ns, g), ns, g)
  }

  function FirstKeyOf(t: Tree): Option<Key> {
    match t
    case Leaf(_, _, items) => if items == [] then None else Some(items[0].k)
    case Node(_, _, _, kids) => if kids == [] then None else Some(kids[0].sep)
  }

  /** A new root over two halves. */
  function GrowRoot(lvl: nat, l: Tree, sep: Key, r: Tree, fr: seq<Extent>, ns: nat, g: nat)
    : Result<(Tree, seq<Extent>)>
  {
    match FirstKeyOf(l)
    case None => Err(Corrupt)
    case Some(first) =>
      match FirstFit(fr, ns)
      case NoSpace => Err(NoBlock)
      case Granted(a, fr') => Ok((Node(a, g, lvl, [Kid(first, g, l), Kid(sep, g, r)]), fr'))
  }

  /** The end of cowInsertSplit: grow the root if it split, then free the old path. */
  function SplitDone(m: Splitted, path: seq<nat>, lvl: nat, ns: nat, g: nat): Result<(Tree, seq<Extent>)> {
    match m
    case SFail(e) => Err(e)
    case One(t, fr) => Ok((t, FreeAll(fr, path, ns)))
    case Two(l, sep, r, fr) =>
      match GrowRoot(lvl, l, sep, r, fr, ns, g)
      case Err(e) => Err(e)
      case Ok((root, fr')) => Ok((root, FreeAll(fr', path, ns)))
  }

  /** cowInsertSplit. */
  ghost function SplitTree(t: Tree, it: Item, fr: seq<Extent>, ns: nat, g: nat): Result<(Tree, seq<Extent>)>
    requires Shape(t, LevelOf(t))
  {
    SplitDone(SplitRec(t, it, fr, ns, g), SpineAddrs(t, it.k), LevelOf(t) + 1, ns, g)
  }

  /** cowInsert. */
  ghost function InsertTree(t: Tree, k: Key, data: seq<u8>, fr: seq<Extent>, ns: nat, g: nat)
    : Result<(Tree, seq<Extent>)>
    requires Shape(t, LevelOf(t))
  {
    match MutateTree(t, Insert(k, data), fr, ns, g)
    case Ok(r) => Ok(r)
    case Err(e) => if e == LeafFull then SplitTree(t, Item(k, data), fr, ns, g) else Err(e)
  }
}
