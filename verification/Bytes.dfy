/** Little-endian numbers and byte buffers: what one overwrite of a range does to the rest of a
    buffer, and the in-place copies the leaf editor is made of. */
module Bytes {
  import opened Keys
  import opened Division

  const U64_LIMIT: nat := 0x1_0000_0000_0000_0000

  function U64(n: nat): u64 {
    (n % U64_LIMIT) as u64
  }

  /** The n low-order bytes of x, least significant first. */
  function Le(x: nat, n: nat): (r: seq<u8>)
    ensures |r| == n
  {
    if n == 0 then [] else [(x % 0x100) as u8] + Le(x / 0x100, n - 1)
  }

  function UnLe(s: seq<u8>): nat {
    if s == [] then 0 else s[0] as nat + 0x100 * UnLe(s[1..])
  }

  function Power(n: nat): nat {
    if n == 0 then 1 else 0x100 * Power(n - 1)
  }

  /** Reading back n little-endian bytes gives a value that fits them. */
  lemma {:induction false} LeRoundTrip(x: nat, n: nat)
    requires x < Power(n)
    ensures UnLe(Le(x, n)) == x
  {
    if n > 0 {
      LeRoundTrip(x / 0x100, n - 1);
      assert Le(x, n)[1..] == Le(x / 0x100, n - 1);
    }
  }

  /** Byte i is the digit of weight 256 to the i. */
  lemma {:induction false} LeDigit(x: nat, n: nat, i: nat)
    requires i < n
    ensures Power(i) > 0 && Le(x, n)[i] as nat == Div(x, Power(i)) % 0x100
  {
    if i > 0 {
      LeDigit(x / 0x100, n - 1, i - 1);
      DivTwice(x, 0x100, Power(i - 1));
    }
  }

  /** Reading back n bytes of any number gives it modulo 256 to the n. */
  lemma {:induction false} LeWraps(x: nat, n: nat)
    ensures Power(n) > 0 && UnLe(Le(x, n)) == Mod(x, Power(n))
  {
    if n > 0 {
      var q, r, m := x / 0x100, x % 0x100, Power(n - 1);
      LeWraps(q, n - 1);
      assert Le(x, n)[1..] == Le(q, n - 1);
      DivMod(q, m);
      var y := Mod(q, m);
      assert Div(q, m) * (0x100 * m) == 0x100 * (Div(q, m) * m);
      DivUnique(x, Div(q, m), r + 0x100 * y, 0x100 * m);
    }
  }

  lemma {:induction false} Widths()
    ensures Power(2) == 0x1_0000
    ensures Power(4) == 0x1_0000_0000
    ensures Power(8) == U64_LIMIT
  {
    assert Power(2) == 0x100 * Power(1);
    assert Power(4) == 0x100 * (0x100 * Power(2));
    assert Power(6) == 0x100 * (0x100 * Power(4));
    assert Power(8) == 0x100 * (0x100 * Power(6));
  }

  // ---- overwriting a range ---------------------------------------------------------------------

  /** b with the bytes from position p on replaced by s. */
  function Put(b: seq<u8>, p: nat, s: seq<u8>): (r: seq<u8>)
    requires p + |s| <= |b|
    ensures |r| == |b|
  {
    b[..p] + s + b[p + |s|..]
  }

  function Zeros(n: nat): (r: seq<u8>)
    ensures |r| == n
  {
    seq(n, _ => 0 as u8)
  }

  lemma {:induction false} PutHere(b: seq<u8>, p: nat, s: seq<u8>)
    requires p + |s| <= |b|
    ensures Put(b, p, s)[p..p + |s|] == s
  {
  }

  lemma {:induction false} PutApart(b: seq<u8>, p: nat, s: seq<u8>, lo: nat, hi: nat)
    requires p + |s| <= |b| && lo <= hi <= |b|
    requires hi <= p || p + |s| <= lo
    ensures Put(b, p, s)[lo..hi] == b[lo..hi]
  {
  }

  /** Two adjacent overwrites are one. */
  lemma {:induction false} PutTwice(b: seq<u8>, p: nat, s: seq<u8>, t: seq<u8>)
    requires p + |s| + |t| <= |b|
    ensures Put(Put(b, p, s), p + |s|, t) == Put(b, p, s + t)
  {
  }

  lemma {:induction false} PutAt(b: seq<u8>, p: nat, s: seq<u8>, i: nat)
    requires p + |s| <= |b| && i < |b|
    ensures Put(b, p, s)[i] == if p <= i < p + |s| then s[i - p] else b[i]
  {
  }

  lemma {:induction false} PutSnoc(b: seq<u8>, p: nat, s: seq<u8>, x: u8)
    requires p + |s| < |b|
    ensures Put(b, p, s)[p + |s| := x] == Put(b, p, s + [x])
  {
  }

  lemma {:induction false} PutCons(b: seq<u8>, p: nat, s: seq<u8>, x: u8)
    requires 0 < p && p + |s| <= |b|
    ensures Put(b, p, s)[p - 1 := x] == Put(b, p - 1, [x] + s)
  {
  }

  lemma {:induction false} PutNothing(b: seq<u8>, p: nat)
    requires p <= |b|
    ensures Put(b, p, []) == b
  {
  }

  lemma {:induction false} SliceSlice(s: seq<u8>, lo: nat, hi: nat, p: nat, q: nat)
    requires lo <= hi <= |s| && p <= q <= hi - lo
    ensures s[lo..hi][p..q] == s[lo + p..lo + q]
  {
    forall i | 0 <= i < q - p
      ensures s[lo..hi][p..q][i] == s[lo + p..lo + q][i]
    {
      assert s[lo..hi][p + i] == s[lo + (p + i)];
    }
  }

  lemma {:induction false} SliceOfTake(s: seq<u8>, n: nat, lo: nat, hi: nat)
    requires lo <= hi <= n <= |s|
    ensures s[..n][lo..hi] == s[lo..hi]
  {
  }

  lemma {:induction false} TakeMore(s: seq<u8>, lo: nat, hi: nat)
    requires lo <= hi < |s|
    ensures s[lo..hi + 1] == s[lo..hi] + [s[hi]]
  {
  }

  lemma {:induction false} DropMore(s: seq<u8>, lo: nat, hi: nat)
    requires lo < hi <= |s|
    ensures s[lo..hi] == [s[lo]] + s[lo + 1..hi]
  {
  }

  lemma {:induction false} MoveDownStep(b: seq<u8>, c: seq<u8>, dst: nat, src: nat, i: nat)
    requires dst <= src && src + i < |b|
    requires c == Put(b, dst, b[src..src + i])
    ensures c[src + i] == b[src + i]
    ensures c[dst + i := c[src + i]] == Put(b, dst, b[src..src + (i + 1)])
  {
    PutAt(b, dst, b[src..src + i], src + i);
    PutSnoc(b, dst, b[src..src + i], b[src + i]);
    TakeMore(b, src, src + i);
  }

  lemma {:induction false} MoveUpStep(b: seq<u8>, c: seq<u8>, dst: nat, src: nat, n: nat, i: nat)
    requires src <= dst && dst + n <= |b| && i < n
    requires c == Put(b, dst + i + 1, b[src + i + 1..src + n])
    ensures c[src + i] == b[src + i]
    ensures c[dst + i := c[src + i]] == Put(b, dst + i, b[src + i..src + n])
  {
    PutAt(b, dst + i + 1, b[src + i + 1..src + n], src + i);
    PutCons(b, dst + i + 1, b[src + i + 1..src + n], b[src + i]);
    DropMore(b, src + i, src + n);
  }

  // ---- the same on an array --------------------------------------------------------------------

  method SetByte(a: array<u8>, p: nat, x: u8)
    requires p < a.Length
    modifies a
    ensures a[..] == old(a[..])[p := x]
  {
    a[p] := x;
  }

  /** copy(a[p:], s). */
  method CopyInto(a: array<u8>, p: nat, s: seq<u8>)
    requires p + |s| <= a.Length
    modifies a
    ensures a[..] == Put(old(a[..]), p, s)
  {
    hide Put;
    ghost var b := a[..];
    PutNothing(b, p);
    var i := 0;
    while i < |s|
      invariant 0 <= i <= |s|
      invariant a[..] == Put(b, p, s[0..i])
    {
      SetByte(a, p + i, s[i]);
      PutSnoc(b, p, s[0..i], s[i]);
      TakeMore(s, 0, i);
      i := i + 1;
    }
    assert s[0..i] == s;
  }

  /** copy(a[dst:dst+n], a[src:src+n]) on one buffer: the ranges may overlap. */
  method Move(a: array<u8>, dst: nat, src: nat, n: nat)
    requires dst + n <= a.Length && src + n <= a.Length
    modifies a
    ensures a[..] == Put(old(a[..]), dst, old(a[..])[src..src + n])
  {
    if dst <= src {
      MoveDown(a, dst, src, n);
    } else {
      MoveUp(a, dst, src, n);
    }
  }

  method MoveDown(a: array<u8>, dst: nat, src: nat, n: nat)
    requires dst <= src && src + n <= a.Length
    modifies a
    ensures a[..] == Put(old(a[..]), dst, old(a[..])[src..src + n])
  {
    hide Put;
    ghost var b := a[..];
    PutNothing(b, dst);
    assert b[src..src + 0] == [];
    var i := 0;
    while i < n
      invariant 0 <= i <= n
      invariant a[..] == Put(b, dst, b[src..src + i])
    {
      MoveDownStep(b, a[..], dst, src, i);
      SetByte(a, dst + i, a[src + i]);
      i := i + 1;
    }
  }

  method MoveUp(a: array<u8>, dst: nat, src: nat, n: nat)
    requires src <= dst && dst + n <= a.Length
    modifies a
    ensures a[..] == Put(old(a[..]), dst, old(a[..])[src..src + n])
  {
    hide Put;
    ghost var b := a[..];
    PutNothing(b, dst + n);
    assert b[src + n..src + n] == [];
    var i := n;
    while i > 0
      invariant 0 <= i <= n
      invariant a[..] == Put(b, dst + i, b[src + i..src + n])
    {
      i := i - 1;
      MoveUpStep(b, a[..], dst, src, n, i);
      SetByte(a, dst + i, a[src + i]);
    }
  }

  method Clear(a: array<u8>, p: nat, n: nat)
    requires p + n <= a.Length
    modifies a
    ensures a[..] == Put(old(a[..]), p, Zeros(n))
  {
    CopyInto(a, p, Zeros(n));
  }
}
