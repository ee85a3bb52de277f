/** Division facts and circular positions, used where an index is reduced modulo a variable. */
module Arith {

  lemma ModUnique(d: nat, q: nat, m: nat, q': nat, m': nat)
    requires m < d && m' < d && q * d + m == q' * d + m'
    ensures q == q' && m == m'
  {
    if q < q' { MulGap(q, q', d); }
    if q' < q { MulGap(q', q, d); }
  }

  lemma MulGap(a: nat, b: nat, d: nat)
    requires a < b
    ensures a * d + d <= b * d
  {
    assert b * d == a * d + d + (b - a - 1) * d;
  }

  /** Quotient and remainder are the only ones that fit. */
  lemma DivModIs(x: nat, n: nat, q: nat, m: nat)
    requires 0 < n && m < n && x == q * n + m
    ensures x / n == q && x % n == m
  {
    DivMod(x, n);
    ModUnique(n, x / n, x % n, q, m);
  }

  lemma DivMod(x: nat, n: nat)
    requires 0 < n
    ensures x == (x / n) * n + x % n
  {
  }

  /** x % n for an x less than two laps from zero. */
  lemma ModOneLap(x: nat, n: nat)
    requires 0 < n && x < 2 * n
    ensures x % n == if x < n then x else x - n
  {
    if x < n { DivModIs(x, n, 0, x); } else { DivModIs(x, n, 1, x - n); }
  }

  lemma Carry(q: nat, p: nat, m: nat, n: nat)
    ensures q * n + (p * n + m) == (q + p) * n + m
  {
  }

  /** Reducing first changes no remainder. */
  lemma ModAddReduced(x: nat, k: nat, n: nat)
    requires 0 < n
    ensures (x % n + k) % n == (x + k) % n
  {
    var q, a := x / n, x % n;
    var p, m := (a + k) / n, (a + k) % n;
    DivMod(x, n);
    DivMod(a + k, n);
    Carry(q, p, m, n);
    DivModIs(x + k, n, q + p, m);
  }

  // ----- circular positions -----

  /** x % ds, by repeated subtraction (OffIsMod); the proofs about circular positions follow this shape. */
  function Off(x: nat, ds: nat): (o: nat)
    requires ds > 0
    ensures o < ds
  {
    if x < ds then x else Off(x - ds, ds)
  }

  lemma {:induction false} OffIsMod(x: nat, ds: nat)
    requires ds > 0
    ensures Off(x, ds) == x % ds
  {
    if x >= ds {
      OffIsMod(x - ds, ds);
      DivMod(x - ds, ds);
      Carry(1, (x - ds) / ds, (x - ds) % ds, ds);
      DivModIs(x, ds, 1 + (x - ds) / ds, (x - ds) % ds);
    } else {
      DivModIs(x, ds, 0, x);
    }
  }

  lemma OffNext(x: nat, k: nat, ds: nat)
    requires ds > 0 && Off(x, ds) + k < ds
    ensures Off(x + k, ds) == Off(x, ds) + k
  {
    if x >= ds { OffNext(x - ds, k, ds); }
  }

  lemma OffWrap(x: nat, ds: nat)
    requires ds > 0
    ensures Off(x + (ds - Off(x, ds)), ds) == 0
  {
    if x >= ds { OffWrap(x - ds, ds); }
  }

  lemma OffDistinct(x: nat, y: nat, ds: nat)
    requires ds > 0 && x < y < x + ds
    ensures Off(x, ds) != Off(y, ds)
  {
    if x >= ds { OffDistinct(x - ds, y - ds, ds); }
  }
}
