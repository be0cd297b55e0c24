/**
 Room for decimal digits in binary: powers of ten against powers of two, with a
 ratio close enough for any number of digits that an `int` can count.
 */
module DecimalRoom {
  import opened Arithmetic
  import opened Powers
  import opened DecimalDigits

  lemma {:induction false} PowerAdds(b: nat, m: nat, n: nat)
    ensures Power(b, m + n) == Times(Power(b, m), Power(b, n))
    decreases n
  {
    if n > 0 {
      PowerAdds(b, m, n - 1);
      Swap(b, Power(b, m), Power(b, n - 1));
    }
  }

  lemma {:induction false} Swap(a: nat, b: nat, c: nat)
    ensures Times(a, Times(b, c)) == Times(b, Times(a, c))
  {
  }

  lemma {:induction false} PowerPower(b: nat, m: nat, n: nat)
    ensures Power(Power(b, m), n) == Power(b, m * n)
    decreases n
  {
    if n == 0 {
      assert m * 0 == 0;
    } else {
      PowerPower(b, m, n - 1);
      assert m * n == m + m * (n - 1);
      PowerAdds(b, m, m * (n - 1));
    }
  }

  lemma {:induction false} PowerGrowsWithBase(a: nat, b: nat, n: nat)
    requires a <= b
    ensures Power(a, n) <= Power(b, n)
    ensures a < b && n > 0 ==> Power(a, n) < Power(b, n)
    decreases n
  {
    if n > 0 {
      PowerGrowsWithBase(a, b, n - 1);
      var x, y := Power(a, n - 1), Power(b, n - 1);
      TimesMonotone(a, b, x);
      if a < b { Positive(b, n - 1); }
      ProductGrows(a, b, x, y);
    }
  }

  lemma {:induction false} Positive(b: nat, n: nat)
    requires b > 0
    ensures Power(b, n) > 0
    decreases n
  {
    if n > 0 {
      Positive(b, n - 1);
      TimesMonotone(1, b, Power(b, n - 1));
    }
  }

  lemma {:induction false} ProductGrows(a: nat, b: nat, x: nat, y: nat)
    requires a <= b && x <= y
    ensures Times(a, x) <= Times(b, y)
    ensures a < b && y > 0 ==> Times(a, x) < Times(b, y)
  {
    TimesMonotone(x, y, a);
    TimesMonotone(a, b, y);
    if a < b { TimesMonotone(a + 1, b, y); }
  }

  lemma {:induction false} PowerGrowsWithExponent(b: nat, m: nat, n: nat)
    requires b > 0 && m <= n
    ensures Power(b, m) <= Power(b, n)
    decreases n
  {
    if m < n {
      PowerGrowsWithExponent(b, m, n - 1);
      TimesMonotone(1, b, Power(b, n - 1));
    }
  }

  lemma {:induction false} SamePowers(n: nat)
    ensures Power(10, n) == Pow10(n) && Power(2, n) == Pow2(n)
    decreases n
  {
    if n > 0 { SamePowers(n - 1); }
  }

  /** If a power of ten is at most a power of two, so are all that are at least in that ratio. */
  lemma {:induction false} SameRatio(n: nat, t: nat, q: nat, p: nat)
    requires q > 0 && Pow10(q) <= Pow2(p) && p * n <= t * q
    ensures Pow10(n) <= Pow2(t)
  {
    hide Power, Pow10, Pow2;
    SamePowers(q);
    SamePowers(p);
    SamePowers(n);
    SamePowers(t);
    PowerPower(10, n, q);
    PowerPower(10, q, n);
    PowerPower(2, p, n);
    PowerPower(2, t, q);
    PowerGrowsWithBase(Pow10(q), Pow2(p), n);
    PowerGrowsWithExponent(2, p * n, t * q);
    assert n * q == q * n;
    if Pow10(n) > Pow2(t) { PowerGrowsWithBase(Pow2(t), Pow10(n), q); }
  }

  // ----- a good ratio -----

  predicate Below(a: nat, m: nat, e: nat) { Pow10(a) <= Times(m, Pow2(e)) }

  /** Squaring a bound, with one more factor of ten if wanted, and rounding it up to fewer bits. */
  lemma {:induction false} Doubled(a: nat, m: nat, e: nat, more: bool, m': nat, d: nat, unit: nat)
    requires Below(a, m, e) && unit == Pow2(d) && (if more then 10 * (m * m) else m * m) <= m' * unit
    ensures Below(if more then 2 * a + 1 else 2 * a, m', 2 * e + d)
  {
    hide Pow10, Pow2;
    var x, y := Pow10(a), Pow2(e);
    Pow10Adds(a, a);
    Pow2Adds(e, e);
    Pow2Adds(2 * e, d);
    ProductGrows(x, Times(m, y), x, Times(m, y));
    Regroup(m, y);
    TimesMonotone(if more then 10 * (m * m) else m * m, m' * unit, y * y);
    Regroup2(m', unit, y * y);
    if more { TenTimes(2 * a); }
  }

  lemma {:induction false} TenTimes(a: nat)
    ensures Pow10(a + 1) == 10 * Pow10(a)
  {
  }

  lemma {:induction false} Regroup(m: nat, y: nat)
    ensures Times(Times(m, y), Times(m, y)) == m * m * (y * y)
    ensures 10 * (m * m) * (y * y) == 10 * (m * m * (y * y))
  {
  }

  lemma {:induction false} Regroup2(m: nat, u: nat, z: nat)
    ensures m * u * z == Times(m, z * u)
  {
  }

  lemma {:induction false} Units()
    ensures Pow2(0) == 1 && Pow2(14) == 16_384 && Pow2(39) == 549_755_813_888 && Pow2(40) == 1_099_511_627_776 && Pow2(42) == 4_398_046_511_104 && Pow2(43) == 8_796_093_022_208 && Pow2(44) == 17_592_186_044_416
  {
    hide Pow2;
    PowZero();
    Tens();
    Pow2Adds(10, 4);
    Pow2Adds(20, 20);
    Pow2Adds(10, 10);
    Pow2Adds(40, 2);
    Pow2Adds(40, 4);
    PowNext(42);
    PowNext(39);
  }

  lemma {:induction false} Tens()
    ensures Pow2(2) == 4 && Pow2(4) == 16 && Pow2(10) == 1024
  {
    Pow2Adds(4, 4);
    Pow2Adds(8, 2);
  }

  /** 28738 / 8651 is above the logarithm of ten to the base two by less than one part in 10^8. */
  lemma {:induction false} CloseRatio()
    ensures Pow10(8651) <= Pow2(28738)
  {
    hide Pow10, Pow2, Below;
    Units();
    Starts();
    Doubled(1, 10, 0, false, 100, 0, 1);
    Doubled(2, 100, 0, false, 10_000, 0, 1);
    Doubled(4, 10_000, 0, false, 100_000_000, 0, 1);
    Doubled(8, 100_000_000, 0, false, 610_351_562_500, 14, 16_384);
    Doubled(16, 610_351_562_500, 14, true, 847_032_947_255, 42, 4_398_046_511_104);
    Doubled(33, 847_032_947_255, 70, true, 815_663_058_502, 43, 8_796_093_022_208);
    Doubled(67, 815_663_058_502, 183, true, 756_365_608_374, 43, 8_796_093_022_208);
    Doubled(135, 756_365_608_374, 409, false, 1_040_623_707_979, 39, 549_755_813_888);
    Doubled(270, 1_040_623_707_979, 857, false, 984_889_722_175, 40, 1_099_511_627_776);
    Doubled(540, 984_889_722_175, 1754, true, 551_385_576_754, 44, 17_592_186_044_416);
    Doubled(1081, 551_385_576_754, 3552, false, 553_020_171_087, 39, 549_755_813_888);
    Doubled(2162, 553_020_171_087, 7143, true, 695_379_889_360, 42, 4_398_046_511_104);
    Doubled(4325, 695_379_889_360, 14328, true, 1_099_472_662_023, 42, 4_398_046_511_104);
    Ends(8651, 1_099_472_662_023, 28698);
  }

  lemma {:induction false} Starts()
    ensures Below(1, 10, 0)
  {
    assert Pow10(1) == 10;
    PowZero();
  }

  lemma {:induction false} Ends(a: nat, m: nat, e: nat)
    requires Below(a, m, e) && m <= 1_099_511_627_776
    ensures Pow10(a) <= Pow2(e + 40)
  {
    hide Pow10, Pow2;
    Units();
    Pow2Adds(40, e);
    TimesMonotone(m, 1_099_511_627_776, Pow2(e));
  }
}
