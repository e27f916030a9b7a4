/** Facts about bit masks and powers of two used by the hash table's indexing. */
module Masks {

  // Bitwise conjunction of two natural numbers.
  function And(x: nat, y: nat): (r: nat)
  {
    if x == 0 || y == 0 then 0
    else (if x % 2 == 1 && y % 2 == 1 then 1 else 0) + 2 * And(x / 2, y / 2)
  }

  ghost predicate IsPow2(n: nat)
  {
    n == 1 || (n > 1 && n % 2 == 0 && IsPow2(n / 2))
  }

  lemma {:induction false} HalfMod(x: nat, m: nat)
    requires m > 0
    ensures x % (2 * m) == 2 * ((x / 2) % m) + x % 2
  {
    var q, r := (x / 2) / m, (x / 2) % m;
    assert x / 2 == m * q + r;
    Twice(m, q);
    RemainderIs(x, 2 * m, q, 2 * r + x % 2);
  }

  lemma {:induction false} Twice(n: int, p: int)
    ensures n * (2 * p) == 2 * (n * p) && (2 * n) * p == 2 * (n * p)
  {
  }

  lemma {:induction false} Multiple(d: nat, e: int)
    ensures e >= 1 ==> d * e >= d
    ensures e <= -1 ==> d * e + d <= 0
  {
  }

  lemma {:induction false} Distribute(d: int, q: int, q': int)
    ensures d * (q - q') == d * q - d * q'
  {
  }

  lemma {:induction false} DivMod(x: nat, d: nat)
    requires d > 0
    ensures x == d * (x / d) + x % d && x % d < d
  {
  }

  lemma {:induction false} RemainderIs(x: nat, d: nat, q: nat, r: nat)
    requires d > 0 && r < d && x == d * q + r
    ensures x % d == r
  {
    DivMod(x, d);
    var q' := x / d;
    var r' := x % d;
    Distribute(d, q, q');
    Multiple(d, q - q');
  }

  // Remainder by repeated subtraction.
  function Mod(x: nat, n: nat): (r: nat)
    requires n > 0
    ensures r < n
  {
    if x < n then x else Mod(x - n, n)
  }

  lemma {:induction false} ModIsRemainder(x: nat, n: nat)
    requires n > 0
    ensures Mod(x, n) == x % n
  {
    if x < n {
      RemainderIs(x, n, 0, x);
    } else {
      ModIsRemainder(x - n, n);
      DivMod(x - n, n);
      Distribute(n, (x - n) / n, -1);
      RemainderIs(x, n, (x - n) / n + 1, (x - n) % n);
    }
  }

  // Masking with a power of two minus one is the remainder.
  lemma {:induction false} AndMask(x: nat, n: nat)
    requires IsPow2(n)
    ensures And(x, n - 1) == x % n
    decreases n
  {
    if n > 1 && x > 0 {
      var m := n / 2;
      assert n == 2 * m && (n - 1) / 2 == m - 1;
      HalfMod(x, m);
      AndMask(x / 2, m);
      if x == 1 { RemainderIs(1, n, 0, 1); }
    } else if n == 1 {
      RemainderIs(x, 1, x, 0);
    } else {
      RemainderIs(0, n, 0, 0);
    }
  }

  // hash & mask: the home position.
  method Masked(x: nat, mask: nat) returns (r: nat)
    requires IsPow2(mask + 1)
    ensures r == Mod(x, mask + 1)
  {
    AndMask(x, mask + 1);
    ModIsRemainder(x, mask + 1);
    r := And(x, mask);
  }

  lemma {:induction false} Pow2Halves(n: nat, c: nat)
    requires IsPow2(n) && IsPow2(c) && n > c
    ensures IsPow2(n / 2) && n / 2 >= c
    decreases n
  {
    if c > 1 {
      Pow2Halves(n / 2, c / 2);
    }
  }

  lemma {:induction false} Pow2Times(n: nat, k: nat)
    requires IsPow2(n)
    ensures IsPow2(n * Pow2(k)) && n * Pow2(k) >= n
    ensures k > 0 ==> n * Pow2(k) >= 2 * n
  {
    if k > 0 {
      Pow2Times(n, k - 1);
      Twice(n, Pow2(k - 1));
    }
  }

  // 1 << k
  function Pow2(k: nat): (r: nat)
    ensures r > 0
  {
    if k == 0 then 1 else 2 * Pow2(k - 1)
  }
}
