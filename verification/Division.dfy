/** Quotients and remainders, with the facts about them that the solver does not find by itself. */
module Division {

  function Div(x: nat, n: nat): nat
    requires n > 0
  {
    x / n
  }

  function Mod(x: nat, n: nat): (r: nat)
    requires n > 0
    ensures r < n
  {
    x % n
  }

  lemma {:induction false} DivMod(x: nat, n: nat)
    requires n > 0
    ensures x == Div(x, n) * n + Mod(x, n) && Mod(x, n) < n
  {
  }

  lemma {:induction false} MulLess(a: nat, b: nat, n: nat)
    requires a < b
    ensures a * n + n <= b * n
  {
    assert b * n == (a + 1) * n + (b - a - 1) * n;
  }

  /** Quotient and remainder are unique. */
  lemma {:induction false} DivUnique(x: nat, q: nat, r: nat, n: nat)
    requires n > 0 && x == q * n + r && r < n
    ensures Div(x, n) == q && Mod(x, n) == r
  {
    hide Div, Mod;
    DivMod(x, n);
    if Div(x, n) < q {
      MulLess(Div(x, n), q, n);
      assert false;
    } else if q < Div(x, n) {
      MulLess(q, Div(x, n), n);
      assert false;
    }
  }

  /** Dividing twice is dividing by the product. */
  lemma {:induction false} DivTwice(x: nat, m: nat, n: nat)
    requires m > 0 && n > 0
    ensures m * n > 0 && Div(Div(x, m), n) == Div(x, m * n)
  {
    hide Div, Mod;
    var q := Div(x, m);
    DivMod(x, m);
    DivMod(q, n);
    var p, r := Div(q, n), Mod(q, n);
    MulLess(r, n, m);
    assert x == (p * n + r) * m + Mod(x, m);
    assert (p * n + r) * m == p * (m * n) + r * m;
    assert n * m == m * n;
    DivUnique(x, p, r * m + Mod(x, m), m * n);
  }

  lemma {:induction false} ModSmall(x: nat, n: nat)
    requires x < n
    ensures Mod(x, n) == x
  {
    hide Div, Mod;
    DivUnique(x, 0, x, n);
  }

  /** Adding a multiple does not change a remainder. */
  lemma {:induction false} ModMultiple(a: nat, k: nat, n: nat)
    requires n > 0
    ensures Mod(a + k * n, n) == Mod(a, n)
  {
    hide Div, Mod;
    DivMod(a, n);
    assert a + k * n == (Div(a, n) + k) * n + Mod(a, n);
    DivUnique(a + k * n, Div(a, n) + k, Mod(a, n), n);
  }

  lemma {:induction false} ModPlus(a: nat, n: nat)
    requires n > 0
    ensures Mod(a + n, n) == Mod(a, n)
  {
    hide Div, Mod;
    ModMultiple(a, 1, n);
  }

  lemma {:induction false} ModShift(a: nat, c: nat, n: nat)
    requires n > 0
    ensures Mod(a + c, n) == Mod(Mod(a, n) + c, n)
  {
    hide Div, Mod;
    DivMod(a, n);
    ModMultiple(Mod(a, n) + c, Div(a, n), n);
  }

  lemma {:induction false} ModSame(a: nat, b: nat, n: nat)
    requires n > 0 && Mod(a, n) == Mod(b, n) && a <= b < a + n
    ensures a == b
  {
    hide Div, Mod;
    DivMod(a, n);
    DivMod(b, n);
    if Div(a, n) < Div(b, n) {
      MulLess(Div(a, n), Div(b, n), n);
      assert false;
    } else if Div(b, n) < Div(a, n) {
      MulLess(Div(b, n), Div(a, n), n);
      assert false;
    }
  }
}
