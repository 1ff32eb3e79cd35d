/** `Algorithms::greedyChange`: for each denomination in the given order,
    take as many coins as C++ integer division allows and carry the
    remainder on. C++ `/` truncates toward zero and `%` takes the sign of
    the dividend; both are written out here. */
module Change {

  /** C++ `a / b` on `int`: the quotient truncated toward zero. */
  function CDiv(a: int, b: int): int
    requires b != 0
  {
    if a >= 0 && b > 0 then a / b
    else if a >= 0 then -(a / -b)
    else if b > 0 then -(-a / b)
    else -a / -b
  }

  /** C++ `a % b` on `int`. */
  function CMod(a: int, b: int): int
    requires b != 0
  {
    a - CDiv(a, b) * b
  }

  function Abs(x: int): int
  {
    if x < 0 then -x else x
  }

  /** Negating one factor negates the product. */
  lemma NegMul(x: int, y: int)
    ensures (-x) * y == -(x * y) && x * (-y) == -(x * y)
  {
  }

  /** The quotient and remainder of the sizes of a and b. */
  lemma SizeDivision(a: int, b: int)
    requires b != 0
    ensures Abs(a) == Abs(a) / Abs(b) * Abs(b) + Abs(a) % Abs(b)
    ensures 0 <= Abs(a) % Abs(b) < Abs(b) && Abs(a) / Abs(b) >= 0
  {
  }

  /** For a non-negative dividend C++ and Dafny agree up to the sign of the
      divisor. */
  lemma DivNonNeg(a: int, b: int)
    requires a >= 0 && b != 0
    ensures CDiv(a, b) * b == Abs(a) / Abs(b) * Abs(b)
  {
    var q, d := Abs(a) / Abs(b), Abs(b);
    if b < 0 {
      assert CDiv(a, b) == -q && b == -d;
      NegMul(q, d);
      NegMul(-q, d);
    }
  }

  /** For a negative dividend the product is the negated one of the
      sizes. */
  lemma DivNeg(a: int, b: int)
    requires a < 0 && b != 0
    ensures CDiv(a, b) * b == -(Abs(a) / Abs(b) * Abs(b))
  {
    var q, d := Abs(a) / Abs(b), Abs(b);
    if b > 0 {
      assert CDiv(a, b) == -q && b == d;
      NegMul(q, d);
    } else {
      assert CDiv(a, b) == q && b == -d;
      NegMul(q, d);
    }
  }

  /** The C++ guarantees for `/` and `%`: quotient times divisor plus
      remainder gives the dividend back, and the remainder is smaller than
      the divisor in size and never of the opposite sign to the dividend. */
  lemma TruncatedDivision(a: int, b: int)
    requires b != 0
    ensures CDiv(a, b) * b + CMod(a, b) == a
    ensures a >= 0 ==> 0 <= CMod(a, b) < Abs(b)
    ensures a < 0 ==> -Abs(b) < CMod(a, b) <= 0
    ensures a >= 0 && b > 0 ==> CDiv(a, b) >= 0
  {
    SizeDivision(a, b);
    if a >= 0 {
      DivNonNeg(a, b);
    } else {
      DivNeg(a, b);
    }
  }

  /** No denomination is zero (the source divides by each). */
  ghost predicate NonZero(denoms: seq<int>)
  {
    forall k :: 0 <= k < |denoms| ==> denoms[k] != 0
  }

  /** The amount still to pay before denomination i is used. */
  ghost function Remaining(amount: int, denoms: seq<int>, i: int): int
    requires NonZero(denoms) && 0 <= i <= |denoms|
  {
    if i == 0 then amount else CMod(Remaining(amount, denoms, i - 1), denoms[i - 1])
  }

  /** The value of the first i entries of `take`. */
  ghost function Paid(take: seq<int>, denoms: seq<int>, i: int): int
    requires 0 <= i <= |take| && i <= |denoms|
  {
    if i == 0 then 0 else Paid(take, denoms, i - 1) + take[i - 1] * denoms[i - 1]
  }

  /** The state of `greedyChange` before denomination i: the first i counts
      are set, `rest` remains, and the coins so far plus `rest` make the
      amount. */
  ghost predicate ChangeInv(amount: int, denoms: seq<int>, take: seq<int>, rest: int, i: int)
  {
    && NonZero(denoms) && 0 <= i <= |denoms| && |take| == |denoms|
    && rest == Remaining(amount, denoms, i)
    && (forall k :: 0 <= k < i ==> take[k] == CDiv(Remaining(amount, denoms, k), denoms[k]))
    && Paid(take, denoms, i) + rest == amount
  }

  /** `Paid` over the first i entries looks at nothing else. */
  lemma {:induction false} PaidPrefix(take: seq<int>, take': seq<int>, denoms: seq<int>, i: int)
    requires 0 <= i <= |take| == |take'| && i <= |denoms|
    requires forall k :: 0 <= k < i ==> take'[k] == take[k]
    ensures Paid(take', denoms, i) == Paid(take, denoms, i)
    decreases i
  {
    if i > 0 {
      PaidPrefix(take, take', denoms, i - 1);
    }
  }

  /** One round of the loop keeps `ChangeInv`. */
  lemma ChangeStep(amount: int, denoms: seq<int>, take: seq<int>, rest: int, i: int)
    requires ChangeInv(amount, denoms, take, rest, i) && i < |denoms|
    ensures ChangeInv(amount, denoms, take[i := CDiv(rest, denoms[i])], CMod(rest, denoms[i]), i + 1)
  {
    var take' := take[i := CDiv(rest, denoms[i])];
    TruncatedDivision(rest, denoms[i]);
    PaidPrefix(take, take', denoms, i);
    assert Paid(take', denoms, i + 1) == Paid(take, denoms, i) + CDiv(rest, denoms[i]) * denoms[i];
  }

  /** `greedyChange(amount, denoms)`: take[i] coins of denoms[i], each the
      C++ quotient of what remains; what the coins are worth plus what is
      left over is the amount. */
  method GreedyChange(amount: int, denoms: seq<int>) returns (take: seq<int>)
    requires NonZero(denoms)
    ensures |take| == |denoms|
    ensures forall i :: 0 <= i < |denoms| ==> take[i] == CDiv(Remaining(amount, denoms, i), denoms[i])
    ensures Paid(take, denoms, |denoms|) + Remaining(amount, denoms, |denoms|) == amount
  {
    take := seq(|denoms|, _ => 0);
    var rest := amount;
    for i := 0 to |denoms|
      invariant ChangeInv(amount, denoms, take, rest, i)
    {
      ChangeStep(amount, denoms, take, rest, i);
      take := take[i := CDiv(rest, denoms[i])];
      rest := CMod(rest, denoms[i]);
    }
  }

  /** With a non-negative amount and positive denominations, every count is
      non-negative and what is left after denomination i is below
      denoms[i]. */
  lemma {:induction false} GreedyBounds(amount: int, denoms: seq<int>, i: int)
    requires amount >= 0 && forall k :: 0 <= k < |denoms| ==> denoms[k] > 0
    requires 0 <= i < |denoms|
    ensures CDiv(Remaining(amount, denoms, i), denoms[i]) >= 0
    ensures 0 <= Remaining(amount, denoms, i + 1) < denoms[i]
    ensures Remaining(amount, denoms, i + 1) <= Remaining(amount, denoms, i)
    decreases i
  {
    if i > 0 {
      GreedyBounds(amount, denoms, i - 1);
    }
    TruncatedDivision(Remaining(amount, denoms, i), denoms[i]);
  }

  /** With a non-negative amount and a last denomination of 1, the change is
      exact: nothing is left over. */
  lemma ExactWithUnit(amount: int, denoms: seq<int>)
    requires amount >= 0 && |denoms| > 0 && denoms[|denoms| - 1] == 1
    requires forall k :: 0 <= k < |denoms| ==> denoms[k] > 0
    ensures Remaining(amount, denoms, |denoms|) == 0
  {
    GreedyBounds(amount, denoms, |denoms| - 1);
  }

  /** The number of coins in a hand of counts. */
  function CoinCount(take: seq<int>): int
  {
    if take == [] then 0 else CoinCount(take[..|take| - 1]) + take[|take| - 1]
  }

  /** The three C++ divisions greedy change of 6 with coins 4, 3, 1
      performs. */
  lemma SixDivisions()
    ensures CDiv(6, 4) == 1 && CMod(6, 4) == 2
    ensures CDiv(2, 3) == 0 && CMod(2, 3) == 2
    ensures CDiv(2, 1) == 2 && CMod(2, 1) == 0
  {
  }

  /** Greedy change of 6 with coins 4, 3, 1: one 4, no 3, two 1s. */
  lemma GreedySix()
    ensures var denoms := [4, 3, 1];
      && Remaining(6, denoms, 3) == 0
      && CDiv(Remaining(6, denoms, 0), 4) == 1
      && CDiv(Remaining(6, denoms, 1), 3) == 0
      && CDiv(Remaining(6, denoms, 2), 1) == 2
  {
    var denoms := [4, 3, 1];
    assert denoms[0] == 4 && denoms[1] == 3 && denoms[2] == 1;
    assert NonZero(denoms);
    var r0 := Remaining(6, denoms, 0);
    var r1 := Remaining(6, denoms, 1);
    var r2 := Remaining(6, denoms, 2);
    assert r0 == 6;
    assert r1 == 2 by {
      SixDivisions();
    }
    assert r2 == 2 by {
      SixDivisions();
    }
    assert Remaining(6, denoms, 3) == 0 && CDiv(r0, 4) == 1 && CDiv(r1, 3) == 0 && CDiv(r2, 1) == 2 by {
      SixDivisions();
    }
  }

  /** Two 3s pay 6, and greedy's hand of one 4 and two 1s has three
      coins. */
  lemma TwoThrees()
    ensures Paid([0, 2, 0], [4, 3, 1], 3) == 6 && CoinCount([0, 2, 0]) == 2
    ensures CoinCount([1, 0, 2]) == 3
  {
    assert [1, 0, 2][..2] == [1, 0] && [1, 0][..1] == [1];
    assert [0, 2, 0][..2] == [0, 2] && [0, 2][..1] == [0];
  }

  /** Greedy is not optimal on a non-canonical system: with coins 4, 3, 1
      and amount 6 it takes one 4 and two 1s, three coins, while two 3s pay
      the same amount with two. */
  lemma GreedyNotOptimal()
    ensures var denoms := [4, 3, 1];
      && Remaining(6, denoms, 3) == 0
      && (forall i :: 0 <= i < 3 ==> CDiv(Remaining(6, denoms, i), denoms[i]) == [1, 0, 2][i])
      && CoinCount([1, 0, 2]) == 3
      && Paid([0, 2, 0], denoms, 3) == 6 && CoinCount([0, 2, 0]) == 2
  {
    GreedySix();
    TwoThrees();
  }
}
