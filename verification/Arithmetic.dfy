/**
 Products, quotients and remainders of numbers that are all unknown, with the
 few laws the other modules use. The operators are wrapped so that a proof can
 hide them and reason with these laws alone.
 */
module Arithmetic {

  const TWO_64: nat := 0x1_0000_0000_0000_0000

  function Times(x: int, y: int): (p: int)
    ensures x >= 0 && y >= 0 ==> p >= 0
  {
    x * y
  }

  function Quot(x: int, m: nat): (q: int)
    requires m > 0
    ensures x >= 0 ==> q >= 0
  {
    x / m
  }

  function Rem(x: int, m: nat): (r: nat)
    requires m > 0
    ensures r < m
  {
    x % m
  }

  // ------------------------------------------------------------------
  // Products
  // ------------------------------------------------------------------

  lemma TimesAdds(x: int, y: int, z: int)
    ensures Times(x + y, z) == Times(x, z) + Times(y, z)
  {
  }

  lemma TimesCommutes(x: int, y: int)
    ensures Times(x, y) == Times(y, x)
  {
  }

  lemma TimesAssociates(x: int, y: int, z: int)
    ensures Times(Times(x, y), z) == Times(x, Times(y, z))
  {
    assert x * y * z == x * (y * z);
  }

  lemma TimesOne(x: int)
    ensures Times(1, x) == x && Times(0, x) == 0
  {
  }

  lemma TimesScales(c: int, x: int, y: int)
    ensures Times(Times(c, x), y) == Times(c, Times(x, y)) == Times(x, Times(c, y))
  {
    hide Times;
    TimesAssociates(c, x, y);
    TimesCommutes(c, x);
    TimesAssociates(x, c, y);
  }

  lemma TimesMonotone(a: int, b: int, m: nat)
    requires a <= b
    ensures Times(a, m) <= Times(b, m)
  {
    hide Times;
    TimesAdds(a, b - a, m);
    assert Times(b - a, m) >= 0;
  }

  lemma TimesNext(a: int, m: int)
    ensures Times(a + 1, m) == Times(a, m) + m
  {
    hide Times;
    TimesAdds(a, 1, m);
    TimesOne(m);
  }

  // ------------------------------------------------------------------
  // Quotients and remainders
  // ------------------------------------------------------------------

  lemma Division(x: int, m: nat)
    requires m > 0
    ensures x == Times(Quot(x, m), m) + Rem(x, m)
  {
  }

  /** Division with remainder has one answer. */
  lemma DivisionIs(x: int, q: int, r: nat, m: nat)
    requires m > 0 && r < m && x == Times(q, m) + r
    ensures Quot(x, m) == q && Rem(x, m) == r
  {
    hide Times, Quot, Rem;
    var k := Quot(x, m);
    Division(x, m);
    if k < q {
      TimesMonotone(k + 1, q, m);
      TimesNext(k, m);
    } else if k > q {
      TimesMonotone(q + 1, k, m);
      TimesNext(q, m);
    }
  }

  lemma QuotBound(x: nat, m: nat, b: nat)
    requires m > 0 && x < Times(b, m)
    ensures Quot(x, m) < b
  {
    hide Times, Quot, Rem;
    Division(x, m);
    if Quot(x, m) >= b { TimesMonotone(b, Quot(x, m), m); }
  }

  /** Dividing by c and then by a is dividing by their product. */
  lemma QuotTwice(x: nat, c: nat, a: nat)
    requires c > 0 && a > 0
    ensures Times(c, a) > 0
    ensures var q, low := Quot(x, Times(c, a)), Rem(x, Times(c, a));
            && Quot(x, a) == Times(c, q) + Quot(low, a)
            && Rem(x, a) == Rem(low, a)
  {
    hide Times, Quot, Rem;
    TimesMonotone(1, c, a);
    TimesOne(a);
    var m := Times(c, a);
    var q, low := Quot(x, m), Rem(x, m);
    Division(x, m);
    Division(low, a);
    TimesScales(c, q, a);
    TimesAdds(Times(c, q), Quot(low, a), a);
    DivisionIs(x, Times(c, q) + Quot(low, a), Rem(low, a), a);
  }

  lemma QuotOfQuot(x: nat, a: nat, c: nat)
    requires a > 0 && c > 0
    ensures Times(a, c) > 0
    ensures Quot(Quot(x, c), a) == Quot(x, Times(a, c))
  {
    hide Times, Quot, Rem;
    QuotTwice(x, a, c);
    var q, low := Quot(x, Times(a, c)), Rem(x, Times(a, c));
    QuotBound(low, c, a);
    TimesCommutes(a, q);
    DivisionIs(Quot(x, c), q, Quot(low, c), a);
  }

  /** Division of x * b + y by a * b, for y below b. */
  lemma ScaledDivision(x: nat, a: nat, b: nat, y: nat)
    requires a > 0 && y < b
    ensures Times(a, b) > 0
    ensures var m := Times(a, b);
            && Quot(Times(x, b) + y, m) == Quot(x, a)
            && Rem(Times(x, b) + y, m) == Times(Rem(x, a), b) + y
  {
    hide Times, Quot, Rem;
    var q, r := Quot(x, a), Rem(x, a);
    TimesMonotone(1, a, b);
    TimesOne(b);
    Division(x, a);
    TimesAdds(Times(q, a), r, b);
    TimesAssociates(q, a, b);
    TimesMonotone(r + 1, a, b);
    TimesNext(r, b);
    DivisionIs(Times(x, b) + y, q, Times(r, b) + y, Times(a, b));
  }

  lemma ZeroDivided(m: nat)
    requires m > 0
    ensures Rem(0, m) == 0 && Quot(0, m) == 0
  {
    hide Times, Quot, Rem;
    TimesOne(m);
    DivisionIs(0, 0, 0, m);
  }

  /** Counting up by one modulo m. */
  lemma NextInCycle(k: nat, m: nat)
    requires m > 0
    ensures Rem(k + 1, m) == (if Rem(k, m) == m - 1 then 0 else Rem(k, m) + 1)
    ensures Quot(k + 1, m) == Quot(k, m) + (if Rem(k, m) == m - 1 then 1 else 0)
  {
    hide Times, Quot, Rem;
    var q, r := Quot(k, m), Rem(k, m);
    Division(k, m);
    TimesNext(q, m);
    if r == m - 1 {
      DivisionIs(k + 1, q + 1, 0, m);
    } else {
      DivisionIs(k + 1, q, r + 1, m);
    }
  }
}
