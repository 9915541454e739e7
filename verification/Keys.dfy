/** Btrfs keys (btree.go): the triple (objectid, type, offset) and its order. */
module Keys {

  newtype u8 = x: int | 0 <= x < 0x100
  newtype u64 = x: int | 0 <= x < 0x1_0000_0000_0000_0000

  datatype Option<+T> = None | Some(value: T)

  lemma {:induction false} SplitAt<T>(s: seq<T>, c: nat)
    requires c < |s|
    ensures s == s[..c] + [s[c]] + s[c+1..]
  {
  }

  lemma {:induction false} PairUp<T>(a: seq<T>, x: T, y: T, b: seq<T>)
    ensures a + [x, y] + b == a + ([x] + [y]) + b
  {
    assert [x, y] == [x] + [y];
  }

  lemma {:induction false} TwoParts<T>(s: seq<T>)
    requires |s| == 2
    ensures s == [s[0]] + [s[1]]
  {
  }

  lemma {:induction false} CutAt<T>(s: seq<T>, p: nat)
    requires p <= |s|
    ensures s == s[..p] + s[p..]
  {
  }

  lemma {:induction false} ConsEnds<T>(x: T, q: seq<T>)
    requires q != []
    ensures ([x] + q)[0] == x && ([x] + q)[|[x] + q| - 1] == q[|q| - 1] && |[x] + q| == |q| + 1
  {
  }

  datatype Key = Key(objID: u64, typ: u8, offset: u64)

  const MAX_OFFSET: u64 := 0xFFFF_FFFF_FFFF_FFFF

  /** One more than the rank of the largest key. */
  const RANK_LIMIT: int := 0x1_0000_0000_0000_0000 * 0x100 * 0x1_0000_0000_0000_0000

  /** compareKeys: negative, zero or positive. */
  function CompareKeys(k: Key, objID: u64, typ: u8, offset: u64): int {
    if k.objID != objID then (if k.objID < objID then -1 else 1)
    else if k.typ != typ then (if k.typ < typ then -1 else 1)
    else if k.offset != offset then (if k.offset < offset then -1 else 1)
    else 0
  }

  /** The position of a key in the total order, as one number. */
  function Rank(k: Key): int {
    (k.objID as int * 0x100 + k.typ as int) * 0x1_0000_0000_0000_0000 + k.offset as int
  }

  /** compareKeys is the total order of the ranks: it is antisymmetric, transitive and
      returns zero on equal keys only. */
  lemma {:induction false} CompareIsRank(k: Key, l: Key)
    ensures CompareKeys(k, l.objID, l.typ, l.offset) < 0 <==> Rank(k) < Rank(l)
    ensures CompareKeys(k, l.objID, l.typ, l.offset) == 0 <==> k == l
    ensures Rank(k) == Rank(l) <==> k == l
    ensures 0 <= Rank(k) < RANK_LIMIT
  {
  }

  predicate HasPrefix(k: Key, objID: u64, typ: u8) {
    k.objID == objID && k.typ == typ
  }

  /** The pruning test of the prefix walks: k lies after every (objID, typ, *) key. */
  predicate PastPrefix(k: Key, objID: u64, typ: u8) {
    k.objID > objID || (k.objID == objID && k.typ > typ)
  }

  /** The keys of a prefix are an interval of the order, and the pruning test is exactly
      "above the interval". */
  lemma {:induction false} PrefixIsInterval(k: Key, objID: u64, typ: u8)
    ensures HasPrefix(k, objID, typ) <==>
            Rank(Key(objID, typ, 0)) <= Rank(k) <= Rank(Key(objID, typ, MAX_OFFSET))
    ensures PastPrefix(k, objID, typ) <==> Rank(Key(objID, typ, MAX_OFFSET)) < Rank(k)
  {
  }
}
