/** Where the bytes of a striped chunk live (multidev.go): RAID0, RAID5, RAID6 and RAID10. */
module StripeMap {
  import opened Division

  const STRIPE: nat := 0x1_0000

  /** A stripe of the chunk and a position in its share of the device. */
  datatype Place = Place(idx: nat, pos: nat)

  /** The parity columns of a row start here. */
  function ParityStart(n: nat, np: nat, row: nat): nat
    requires np <= n && n > 0
  {
    Mod(n - np + Mod(row, n), n)
  }

  /** readStriped: n stripes, np of them parity in each row. */
  function Striped(n: nat, np: nat, x: nat): (p: Place)
    requires np < n
    ensures p.idx < n
  {
    var numData := n - np;
    var nr := Div(x, STRIPE);
    var row, col := Div(nr, numData), Mod(nr, numData);
    var idx := if np == 0 then col else Mod(ParityStart(n, np, row) + np + col, n);
    Place(idx, row * STRIPE + Mod(x, STRIPE))
  }

  /** readRAID10: the first leg of the group that mirrors the byte. */
  function Mirrored(n: nat, sub: nat, x: nat): (p: Place)
    requires 0 < sub <= n
    ensures p.idx + sub <= n
  {
    GroupsPositive(n, sub);
    var groups := Div(n, sub);
    var nr := Div(x, STRIPE);
    var row, group := Div(nr, groups), Mod(nr, groups);
    GroupFits(n, sub, group);
    Place(group * sub, row * STRIPE + Mod(x, STRIPE))
  }

  lemma {:induction false} GroupsPositive(n: nat, sub: nat)
    requires 0 < sub <= n
    ensures Div(n, sub) > 0
  {
    hide Div, Mod;
    DivMod(n, sub);
  }

  lemma {:induction false} GroupFits(n: nat, sub: nat, group: nat)
    requires 0 < sub <= n && group < Div(n, sub)
    ensures group * sub + sub <= n
  {
    hide Div, Mod;
    DivMod(n, sub);
    MulLess(group, Div(n, sub), sub);
  }

  // ---- the rotation -----------------------------------------------------------------------------

  /** A data column of row r is rotated right by r places. */
  lemma {:induction false} RotatesByRow(n: nat, np: nat, row: nat, col: nat)
    requires 0 < np < n && col < n - np
    ensures Mod(ParityStart(n, np, row) + np + col, n) == Mod(row + col, n)
  {
    hide Div, Mod;
    var r := Mod(row, n);
    var t := n - np + r;
    ModShift(row, col, n);
    if t < n {
      ModSmall(t, n);
      ModPlus(r + col, n);
    } else {
      ModPlus(t - n, n);
      ModSmall(t - n, n);
    }
  }

  /** Parity column k of a row: the columns after the data columns, rotated the same way. */
  lemma {:induction false} ParityRotates(n: nat, np: nat, row: nat, k: nat)
    requires 0 < np < n && k < np
    ensures Mod(ParityStart(n, np, row) + k, n) == Mod(row + (n - np + k), n)
  {
    hide Div, Mod;
    ModShift(row, n - np + k, n);
    var t := n - np + Mod(row, n);
    ModShift(t, k, n);
  }

  /** The stripe that holds position j of a rotated row, j counting data columns first, then parity. */
  function Column(n: nat, row: nat, j: nat): nat
    requires n > 0
  {
    Mod(row + j, n)
  }

  /** Every row places its data and parity columns on all stripes, each exactly once. */
  lemma {:induction false} RowIsBijection(n: nat, row: nat, s: nat)
    requires s < n
    ensures exists j :: 0 <= j < n && Column(n, row, j) == s
    ensures forall i, j :: 0 <= i <= j < n && Column(n, row, i) == Column(n, row, j) ==> i == j
  {
    hide Div, Mod;
    var r := Mod(row, n);
    var j := if s >= r then s - r else s + n - r;
    ModShift(row, j, n);
    ModSmall(s, n);
    ModPlus(s, n);
    assert Column(n, row, j) == s;
    forall i, j | 0 <= i <= j < n && Column(n, row, i) == Column(n, row, j)
      ensures i == j
    {
      ModSame(row + i, row + j, n);
    }
  }

  function RowOf(x: nat, d: nat): nat
    requires d > 0
  {
    Div(Div(x, STRIPE), d)
  }

  function ColOf(x: nat, d: nat): (c: nat)
    requires d > 0
    ensures c < d
  {
    Mod(Div(x, STRIPE), d)
  }

  lemma {:induction false} StripedColumn(n: nat, np: nat, x: nat)
    requires np < n
    ensures Striped(n, np, x).idx == if np == 0 then ColOf(x, n) else Column(n, RowOf(x, n - np), ColOf(x, n - np))
    ensures Striped(n, np, x).pos == RowOf(x, n - np) * STRIPE + Mod(x, STRIPE)
  {
    hide Div, Mod, ParityStart;
    if np > 0 {
      RotatesByRow(n, np, RowOf(x, n - np), ColOf(x, n - np));
    }
  }

  /** Data never lands on a parity column of its row. */
  lemma {:induction false} AvoidsParity(n: nat, np: nat, x: nat, k: nat)
    requires 0 < np < n && k < np
    ensures Striped(n, np, x).idx != Mod(ParityStart(n, np, RowOf(x, n - np)) + k, n)
  {
    hide Div, Mod, ParityStart, RowOf, ColOf, Striped;
    var row, col := RowOf(x, n - np), ColOf(x, n - np);
    StripedColumn(n, np, x);
    ParityRotates(n, np, row, k);
    RowIsBijection(n, row, 0);
    assert Column(n, row, col) != Column(n, row, n - np + k);
  }

  // ---- injectivity --------------------------------------------------------------------------------

  /** Row, column and position in the stripe determine a chunk position. */
  lemma {:induction false} SamePos(x: nat, y: nat, d: nat)
    requires d > 0 && ColOf(x, d) == ColOf(y, d)
    requires RowOf(x, d) * STRIPE + Mod(x, STRIPE) == RowOf(y, d) * STRIPE + Mod(y, STRIPE)
    ensures x == y && RowOf(x, d) == RowOf(y, d)
  {
    hide Div, Mod;
    SameRow(x, y, d);
    DivMod(x, STRIPE);
    DivMod(y, STRIPE);
    DivMod(Div(x, STRIPE), d);
    DivMod(Div(y, STRIPE), d);
  }

  lemma {:induction false} SameRow(x: nat, y: nat, d: nat)
    requires d > 0 && RowOf(x, d) * STRIPE + Mod(x, STRIPE) == RowOf(y, d) * STRIPE + Mod(y, STRIPE)
    ensures RowOf(x, d) == RowOf(y, d) && Mod(x, STRIPE) == Mod(y, STRIPE)
  {
    hide Div, Mod, RowOf;
    var p := RowOf(x, d) * STRIPE + Mod(x, STRIPE);
    DivUnique(p, RowOf(x, d), Mod(x, STRIPE), STRIPE);
    DivUnique(p, RowOf(y, d), Mod(y, STRIPE), STRIPE);
  }

  /** Two different chunk positions never share a place: for RAID0, RAID5 and RAID6. */
  lemma {:induction false} StripedInjective(n: nat, np: nat, x: nat, y: nat)
    requires np < n && Striped(n, np, x) == Striped(n, np, y)
    ensures x == y
  {
    hide Div, Mod, RowOf, ColOf, Striped, Column;
    var d := n - np;
    StripedColumn(n, np, x);
    StripedColumn(n, np, y);
    SameRow(x, y, d);
    if np > 0 {
      RowIsBijection(n, RowOf(x, d), 0);
      assert Column(n, RowOf(x, d), ColOf(x, d)) == Column(n, RowOf(x, d), ColOf(y, d));
    }
    SamePos(x, y, d);
  }

  lemma {:induction false} MirroredPlace(n: nat, sub: nat, x: nat)
    requires 0 < sub <= n
    ensures Div(n, sub) > 0
    ensures Mirrored(n, sub, x) == Place(ColOf(x, Div(n, sub)) * sub, RowOf(x, Div(n, sub)) * STRIPE + Mod(x, STRIPE))
  {
    hide Div, Mod;
    GroupsPositive(n, sub);
  }

  /** Two legs of RAID10 mirrors share a place only when they mirror the same chunk position. */
  lemma {:induction false} MirroredInjective(n: nat, sub: nat, x: nat, y: nat, i: nat, j: nat)
    requires 0 < sub <= n && i < sub && j < sub
    requires Mirrored(n, sub, x).pos == Mirrored(n, sub, y).pos
    requires Mirrored(n, sub, x).idx + i == Mirrored(n, sub, y).idx + j
    ensures x == y && i == j
  {
    hide Div, Mod, RowOf, ColOf, Mirrored;
    MirroredPlace(n, sub, x);
    MirroredPlace(n, sub, y);
    var groups := Div(n, sub);
    var g, h := ColOf(x, groups), ColOf(y, groups);
    DivUnique(g * sub + i, g, i, sub);
    DivUnique(g * sub + i, h, j, sub);
    SamePos(x, y, groups);
  }

  /** The chunk position in a given row and column. */
  function At(row: nat, col: nat, o: nat, d: nat): nat {
    (row * d + col) * STRIPE + o
  }

  /** Every place of a data column is some chunk position's: whole rows waste nothing. */
  lemma {:induction false} StripedOnto(n: nat, np: nat, row: nat, col: nat, o: nat)
    requires np < n && col < n - np && o < STRIPE
    ensures Striped(n, np, At(row, col, o, n - np)) ==
            Place(if np == 0 then col else Column(n, row, col), row * STRIPE + o)
  {
    hide Div, Mod, Striped, Column;
    var d := n - np;
    var x := At(row, col, o, d);
    DivUnique(x, row * d + col, o, STRIPE);
    DivUnique(row * d + col, row, col, d);
    StripedColumn(n, np, x);
  }

  lemma {:induction false} SameStripe(x: nat, i: nat)
    requires Mod(x, STRIPE) + i < STRIPE
    ensures Div(x + i, STRIPE) == Div(x, STRIPE) && Mod(x + i, STRIPE) == Mod(x, STRIPE) + i
  {
    hide Div, Mod;
    DivMod(x, STRIPE);
    DivUnique(x + i, Div(x, STRIPE), Mod(x, STRIPE) + i, STRIPE);
  }

  /** Inside one stripe the place advances with the position. */
  lemma {:induction false} StripedRun(n: nat, np: nat, x: nat, i: nat)
    requires np < n && Mod(x, STRIPE) + i < STRIPE
    ensures Striped(n, np, x + i) == Place(Striped(n, np, x).idx, Striped(n, np, x).pos + i)
  {
    hide Div, Mod, ParityStart;
    SameStripe(x, i);
  }

  lemma {:induction false} MirroredRun(n: nat, sub: nat, x: nat, i: nat)
    requires 0 < sub <= n && Mod(x, STRIPE) + i < STRIPE
    ensures Mirrored(n, sub, x + i) == Place(Mirrored(n, sub, x).idx, Mirrored(n, sub, x).pos + i)
  {
    hide Div, Mod, Mirrored;
    SameStripe(x, i);
    MirroredPlace(n, sub, x);
    MirroredPlace(n, sub, x + i);
  }
}
