/** Powers of two and the remainders that `& hashmask(n)` computes. */
module Powers {

  function Pow2(n: nat): (p: nat)
    ensures p > 0
  {
    if n == 0 then 1 else 2 * Pow2(n - 1)
  }

  lemma ModUnique(x: nat, k: nat, q: int, r: nat)
    requires r < k && x == q * k + r
    ensures x % k == r
  {
    var q', r' := x / k, x % k;
    assert x == q' * k + r';
    assert (q - q') * k == r' - r;
    if q > q' { assert (q - q') * k >= k by { MulAtLeast(q - q', k); } }
    if q < q' { assert (q' - q) * k >= k by { MulAtLeast(q' - q, k); } }
  }

  lemma MulAtLeast(a: nat, k: nat)
    requires a >= 1
    ensures a * k >= k
  {
  }

  /** A table twice the size splits every bucket in two. */
  lemma ModDouble(x: nat, k: nat)
    requires k > 0
    ensures x % (2 * k) == x % k || x % (2 * k) == x % k + k
    ensures (x % (2 * k)) % k == x % k
  {
    var q, r := x / (2 * k), x % (2 * k);
    assert x == q * (2 * k) + r;
    ModSplit(x, k, q, r);
  }

  lemma ModSplit(x: nat, k: nat, q: int, r: nat)
    requires 0 <= r < 2 * k && x == q * (2 * k) + r
    ensures r % k == x % k && (r == x % k || r == x % k + k)
  {
    if r < k {
      ModUnique(x, k, 2 * q, r);
      ModUnique(r, k, 0, r);
    } else {
      ModUnique(x, k, 2 * q + 1, r - k);
      ModUnique(r, k, 1, r - k);
    }
  }

  /** The bucket in a larger table determines the bucket in a smaller one. */
  lemma {:induction false} ModMod(x: nat, m: nat, n: nat)
    requires m <= n
    ensures (x % Pow2(n)) % Pow2(m) == x % Pow2(m)
    decreases n
  {
    if m == n {
      ModUnique(x % Pow2(n), Pow2(n), 0, x % Pow2(n));
    } else {
      ModDouble(x, Pow2(n - 1));
      ModMod(x % Pow2(n), m, n - 1);
      ModMod(x, m, n - 1);
    }
  }

  lemma {:induction false} Pow2Grows(m: nat, n: nat)
    requires m <= n
    ensures Pow2(m) <= Pow2(n) && (m < n ==> Pow2(m) < Pow2(n))
    decreases n
  {
    if m < n { Pow2Grows(m, n - 1); }
  }

  /** The low n bits of an id: what `id & hashmask(n)` computes. */
  function Slot(id: nat, n: nat): (b: nat)
    ensures b < Pow2(n)
  {
    if n == 0 then 0 else 2 * Slot(id / 2, n - 1) + id % 2
  }

  lemma {:induction false} SlotIsMod(id: nat, n: nat)
    ensures Slot(id, n) == id % Pow2(n)
  {
    if n > 0 {
      SlotIsMod(id / 2, n - 1);
      HalfMod(id, Pow2(n - 1));
    }
  }

  lemma HalfMod(x: nat, k: nat)
    requires k > 0
    ensures x % (2 * k) == 2 * ((x / 2) % k) + x % 2
  {
    var q, r := (x / 2) / k, (x / 2) % k;
    assert x / 2 == q * k + r;
    assert q * (2 * k) == 2 * (q * k);
    ModUnique(x, 2 * k, q, 2 * r + x % 2);
  }

  /** One more bit keeps the slot or moves it up by half the table. */
  lemma SlotStep(id: nat, n: nat)
    requires n > 0
    ensures Slot(id, n) == Slot(id, n - 1) || Slot(id, n) == Slot(id, n - 1) + Pow2(n - 1)
  {
    SlotIsMod(id, n);
    SlotIsMod(id, n - 1);
    ModDouble(id, Pow2(n - 1));
  }

  /** Equal slots in a table are equal slots in every smaller one. */
  lemma SlotCoarser(x: nat, y: nat, m: nat, n: nat)
    requires m <= n && Slot(x, n) == Slot(y, n)
    ensures Slot(x, m) == Slot(y, m)
  {
    SlotIsMod(x, n); SlotIsMod(y, n); SlotIsMod(x, m); SlotIsMod(y, m);
    ModMod(x, m, n);
    ModMod(y, m, n);
  }

  lemma SlotSmall(x: nat, n: nat)
    requires x < Pow2(n)
    ensures Slot(x, n) == x
  {
    SlotIsMod(x, n);
    ModUnique(x, Pow2(n), 0, x);
  }

  /** A table of n empty buckets. */
  function Empty<T>(n: nat): (r: seq<seq<T>>)
    ensures |r| == n && forall b | 0 <= b < n :: r[b] == []
  {
    seq(n, _ => [])
  }
}
