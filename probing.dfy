/** The probe rule shared by the fixed inventory table (`probeIndex`) and
    `DynamicInventoryTable`: starting at the home slot, the i-th retry adds
    the step i to the index, so after k retries the index is
    home + 1 + 2 + ... + k, reduced modulo the table size. On a prime table
    of size p the first (p + 1) / 2 probes land on distinct slots, and no
    probe ever lands outside that set. */
module Probing {
  import opened Primes

  /** The triangular number 1 + 2 + ... + i. */
  function Tri(i: nat): nat
  {
    if i == 0 then 0 else Tri(i - 1) + i
  }

  lemma {:induction false} TriClosedForm(i: nat)
    ensures 2 * Tri(i) == i * (i + 1)
  {
    if i > 0 {
      TriClosedForm(i - 1);
    }
  }

  /** The slot examined after k retries from `home` in a table of m slots. */
  function ProbeSlot(home: int, m: int, k: nat): (r: int)
    requires m > 0
    ensures 0 <= r < m
  {
    (home + Tri(k)) % m
  }

  /** Euclidean quotient and remainder are unique. */
  lemma ModUnique(y: int, m: int, q: int, r: int)
    requires m > 0 && y == m * q + r && 0 <= r < m
    ensures y % m == r && y / m == q
  {
    var q0, r0 := y / m, y % m;
    assert m * (q - q0) == r0 - r;
    MulLe(m, 1, q - q0);
    MulLe(m, q - q0, -1);
  }

  /** Adding a multiple of m does not change a remainder modulo m. */
  lemma ModShift(x: int, m: int, c: int)
    requires m > 0
    ensures (x + m * c) % m == x % m
  {
    ModUnique(x + m * c, m, x / m + c, x % m);
  }

  /** Reducing a summand first does not change the remainder of a sum. */
  lemma ModAddLeft(a: int, b: int, m: int)
    requires m > 0
    ensures (a % m + b) % m == (a + b) % m
  {
    ModShift(a % m + b, m, a / m);
  }

  /** The first probe is the home slot itself. */
  lemma ProbeHome(home: int, m: int)
    requires 0 <= home < m
    ensures ProbeSlot(home, m, 0) == home
  {
    ModUnique(home, m, 0, home);
  }

  /** One iteration of `idx = (idx + step) % size; step++` moves from retry k
      to retry k + 1 when `step == k + 1`. */
  lemma ProbeAdvance(home: int, m: int, k: nat)
    requires m > 0
    ensures (ProbeSlot(home, m, k) + (k + 1)) % m == ProbeSlot(home, m, k + 1)
  {
    ModAddLeft(home + Tri(k), k + 1, m);
  }

  /** Slots that agree modulo m differ by a multiple of m. */
  lemma SameRemainder(a: int, b: int, m: int)
    requires m > 0 && a % m == b % m
    ensures Divides(m, b - a)
  {
    assert b - a == m * (b / m - a / m);
  }

  /** On a prime table the first (p + 1) / 2 probes are pairwise distinct:
      the difference of two triangular numbers is (j - i)(j + i + 1) / 2, and
      both factors lie strictly between 0 and p. */
  lemma ProbesDistinct(p: int, home: int, i: nat, j: nat)
    requires IsPrime(p) && i < j <= (p - 1) / 2
    ensures ProbeSlot(home, p, i) != ProbeSlot(home, p, j)
  {
    if ProbeSlot(home, p, i) == ProbeSlot(home, p, j) {
      SameRemainder(home + Tri(i), home + Tri(j), p);
      assert (home + Tri(j)) - (home + Tri(i)) == Tri(j) - Tri(i);
      DividesMul(p, Tri(j) - Tri(i), 2);
      TriClosedForm(i);
      TriClosedForm(j);
      assert (Tri(j) - Tri(i)) * 2 == (j - i) * (j + i + 1);
      PrimeProduct(p, j - i, j + i + 1);
    }
  }

  /** The slots examined by the first n probes. */
  function Reached(home: int, m: int, n: nat): (r: set<int>)
    requires m > 0
    ensures forall k :: 0 <= k < n ==> ProbeSlot(home, m, k) in r
  {
    if n == 0 then {} else Reached(home, m, n - 1) + {ProbeSlot(home, m, n - 1)}
  }

  lemma {:induction false} ReachedSize(p: int, home: int, n: nat)
    requires IsPrime(p) && n <= (p + 1) / 2
    ensures |Reached(home, p, n)| == n
  {
    if n > 0 {
      ReachedSize(p, home, n - 1);
      if ProbeSlot(home, p, n - 1) in Reached(home, p, n - 1) {
        var k := ReachedIndex(home, p, n - 1, ProbeSlot(home, p, n - 1));
        ProbesDistinct(p, home, k, n - 1);
      }
    }
  }

  /** Every reached slot is the slot of some probe. */
  lemma {:induction false} ReachedIndex(home: int, m: int, n: nat, x: int) returns (k: nat)
    requires m > 0 && x in Reached(home, m, n)
    ensures k < n && ProbeSlot(home, m, k) == x
  {
    if x == ProbeSlot(home, m, n - 1) {
      k := n - 1;
    } else {
      k := ReachedIndex(home, m, n - 1, x);
    }
  }

  lemma {:induction false} SubsetSize<T>(a: set<T>, b: set<T>)
    requires a <= b
    ensures |a| <= |b|
    decreases a
  {
    if a != {} {
      var x :| x in a;
      SubsetSize(a - {x}, b - {x});
    }
  }

  /** Pigeonhole: if fewer than (p + 1) / 2 slots of a prime table are taken,
      one of the first (p + 1) / 2 probes from any home finds a free slot. */
  lemma FreeSlotWithinReach(p: int, home: int, taken: set<int>) returns (k: nat)
    requires IsPrime(p) && |taken| < (p + 1) / 2
    ensures k <= (p - 1) / 2 && ProbeSlot(home, p, k) !in taken
  {
    var n := (p + 1) / 2;
    ReachedSize(p, home, n);
    if forall j :: 0 <= j < n ==> ProbeSlot(home, p, j) in taken {
      AllReachedTaken(home, p, n, taken);
      SubsetSize(Reached(home, p, n), taken);
    }
    k :| 0 <= k < n && ProbeSlot(home, p, k) !in taken;
  }

  lemma {:induction false} AllReachedTaken(home: int, m: int, n: nat, taken: set<int>)
    requires m > 0
    requires forall j :: 0 <= j < n ==> ProbeSlot(home, m, j) in taken
    ensures Reached(home, m, n) <= taken
  {
    if n > 0 {
      AllReachedTaken(home, m, n - 1, taken);
    }
  }

  /** One more row of k. */
  lemma MulPred(m: int, k: int)
    ensures m * k == (m - 1) * k + k
  {
  }

  lemma {:induction false} TriShift(k: nat, m: nat)
    ensures Tri(k + m) == Tri(k) + m * k + Tri(m)
  {
    if m > 0 {
      TriShift(k, m - 1);
      assert Tri(k + m) == Tri(k + (m - 1)) + k + m;
      MulPred(m, k);
    }
  }

  /** The arithmetic of the period: m * k plus the m-th triangular number
      is a multiple of m when m is odd. */
  lemma PeriodArith(m: int, k: int, h: int, tm: int)
    requires m + 1 == 2 * h && 2 * tm == m * (m + 1)
    ensures m * k + tm == m * (k + h)
  {
    assert m * (m + 1) == 2 * (m * h);
  }

  /** On an odd table the probe sequence repeats with period m. */
  lemma ProbePeriodic(home: int, m: int, k: nat)
    requires m > 0 && m % 2 == 1
    ensures ProbeSlot(home, m, k + m) == ProbeSlot(home, m, k)
  {
    var h := (m + 1) / 2;
    TriShift(k, m);
    TriClosedForm(m);
    PeriodArith(m, k, h, Tri(m));
    ModShift(home + Tri(k), m, k + h);
  }

  /** Probes k and m - 1 - k land on the same slot of an odd table. */
  lemma ProbeMirror(home: int, m: int, k: nat)
    requires m > 0 && m % 2 == 1 && k < m
    ensures ProbeSlot(home, m, m - 1 - k) == ProbeSlot(home, m, k)
  {
    var h := (m - 1) / 2;
    var c := h - k;
    var a := m - 1 - k;
    TriClosedForm(k);
    TriClosedForm(a);
    MirrorArith(a, k, m, c, Tri(a), Tri(k));
    ModShift(home + Tri(k), m, c);
  }

  lemma DifferenceOfProducts(a: int, k: int)
    ensures a * (a + 1) - k * (k + 1) == (a - k) * (a + k + 1)
  {
  }

  /** The arithmetic of the mirror: triangular numbers of a and k whose
      difference is even and whose sum plus one is m differ by a multiple
      of m. */
  lemma MirrorArith(a: int, k: int, m: int, c: int, ta: int, tk: int)
    requires 2 * ta == a * (a + 1) && 2 * tk == k * (k + 1)
    requires a - k == 2 * c && a + k + 1 == m
    ensures ta == tk + m * c
  {
    DifferenceOfProducts(a, k);
    assert (a - k) * (a + k + 1) == (2 * c) * m;
    assert (2 * c) * m == 2 * (m * c);
  }

  /** Hence on an odd table every probe lands on one of the slots of the
      first (m + 1) / 2 probes: the probe sequence never leaves that set. */
  lemma {:induction false} ProbeWithinHalf(home: int, m: int, k: nat)
    requires m > 0 && m % 2 == 1
    ensures ProbeSlot(home, m, k) in Reached(home, m, (m + 1) / 2)
    decreases k
  {
    if k >= m {
      ProbePeriodic(home, m, k - m);
      ProbeWithinHalf(home, m, k - m);
    } else if k > (m - 1) / 2 {
      ProbeMirror(home, m, k);
    }
  }
}
