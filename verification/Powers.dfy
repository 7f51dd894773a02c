/** Powers of two, shared by the Merkle tree, the codecs and the limb arithmetic. */
module Powers {

  function Pow2(k: nat): (r: nat)
    ensures r > 0
  {
    if k == 0 then 1 else 2 * Pow2(k - 1)
  }

  lemma {:induction false} Pow2Monotone(a: nat, b: nat)
    requires a <= b
    ensures Pow2(a) <= Pow2(b)
    ensures a < b ==> 2 * Pow2(a) <= Pow2(b)
    decreases b
  {
    if a < b {
      Pow2Monotone(a, b - 1);
    }
  }

  lemma {:induction false} Pow2Add(a: nat, b: nat)
    ensures Pow2(a + b) == Pow2(a) * Pow2(b)
  {
    if a > 0 {
      Pow2Add(a - 1, b);
      assert a + b - 1 == (a - 1) + b;
    }
  }

  /** The least k with n <= 2^k. */
  function CeilLog(n: nat): (k: nat)
    requires n >= 1
  {
    if n == 1 then 0 else 1 + CeilLog((n + 1) / 2)
  }

  lemma {:induction false} CeilLogBounds(n: nat)
    requires n >= 1
    ensures n <= Pow2(CeilLog(n))
    ensures n > 1 ==> CeilLog(n) > 0 && Pow2(CeilLog(n) - 1) < n
    ensures n > 1 ==> Pow2(CeilLog(n)) == 2 * Pow2(CeilLog(n) - 1)
  {
    if n > 1 {
      CeilLogBounds((n + 1) / 2);
    }
  }

  lemma CeilLogUnique(n: nat, k: nat)
    requires n >= 1
    requires n <= Pow2(k) && (k == 0 || Pow2(k - 1) < n)
    ensures CeilLog(n) == k
  {
    CeilLogBounds(n);
    if CeilLog(n) < k {
      Pow2Monotone(CeilLog(n), k - 1);
    } else if k < CeilLog(n) {
      Pow2Monotone(k, CeilLog(n) - 1);
    }
  }

  predicate IsPow2(n: nat) {
    n >= 1 && n == Pow2(CeilLog(n))
  }

  lemma Pow2IsPow2(k: nat)
    ensures CeilLog(Pow2(k)) == k && IsPow2(Pow2(k))
  {
    CeilLogUnique(Pow2(k), k);
  }

  /** The largest power of two strictly below n. */
  function Split(n: nat): (m: nat)
    requires n >= 2
    ensures 1 <= m < n <= 2 * m
  {
    CeilLogBounds(n);
    Pow2(CeilLog(n) - 1)
  }

  lemma SplitIsPow2(n: nat)
    requires n >= 2
    ensures IsPow2(Split(n)) && CeilLog(n) == CeilLog(Split(n)) + 1
  {
    CeilLogBounds(n);
    Pow2IsPow2(CeilLog(n) - 1);
  }

  lemma SplitUnique(n: nat, m: nat)
    requires n >= 2 && IsPow2(m) && m < n <= 2 * m
    ensures Split(n) == m
  {
    CeilLogUnique(n, CeilLog(m) + 1);
  }

  lemma {:induction false} CeilLogMonotone(a: nat, b: nat)
    requires 1 <= a <= b
    ensures CeilLog(a) <= CeilLog(b)
  {
    if b > 1 {
      CeilLogMonotone((a + 1) / 2, (b + 1) / 2);
    }
  }

  /** No power of two lies strictly between consecutive powers of two. */
  lemma PowersApart(a: nat, b: nat)
    requires IsPow2(a) && IsPow2(b) && a < b
    ensures 2 * a <= b
  {
    if CeilLog(a) < CeilLog(b) {
      Pow2Monotone(CeilLog(a), CeilLog(b));
    } else {
      Pow2Monotone(CeilLog(b), CeilLog(a));
    }
  }

  lemma MulMonotone(p: nat, a: int, b: int)
    requires a <= b
    ensures p * a <= p * b
  {
  }

  /** Division with remainder is unique. */
  lemma DivModUnique(n: int, p: nat, d: int, r: nat)
    requires n == p * d + r && r < p
    ensures n / p == d && n % p == r
  {
    var d', r' := n / p, n % p;
    assert n == p * d' + r' && 0 <= r' < p;
    assert p * (d' + 1) == p * d' + p && p * (d + 1) == p * d + p;
    if d' < d {
      MulMonotone(p, d' + 1, d);
    } else if d < d' {
      MulMonotone(p, d + 1, d');
    }
  }

  lemma Pow2Eight()
    ensures Pow2(8) == 0x100
  {
  }

  /** The powers that bound the machine words. */
  lemma WordPowers()
    ensures Pow2(8) == 0x100 && Pow2(16) == 0x1_0000
    ensures Pow2(32) == 0x1_0000_0000 && Pow2(64) == 0x1_0000_0000_0000_0000
    ensures Pow2(63) == 0x8000_0000_0000_0000
  {
    hide Pow2;
    Pow2Eight();
    Pow2Add(8, 8);
    Pow2Add(16, 16);
    Pow2Add(32, 32);
    Pow2Double(63);
  }

  lemma Pow2Double(k: nat)
    ensures Pow2(k + 1) == 2 * Pow2(k)
  {
  }
}
