/** Sums and means of lib/stats.js over exact reals, and what holds of squared deviations.

    The deviation from a centre is determined by the total, the total of the squares and the count.
    Taken from the mean it is what Cauchy and Schwarz's inequality lacks to equality, which bounds
    the Jain index; and it does not depend on the order of the values.
 */
module Statistics {
  import opened Permutations

  function Total(values: seq<real>): real {
    if values == [] then 0.0 else Total(values[..|values| - 1]) + values[|values| - 1]
  }

  function Squares(values: seq<real>): real {
    if values == [] then 0.0 else Squares(values[..|values| - 1]) + values[|values| - 1] * values[|values| - 1]
  }

  /** The sum of the squared deviations from `c`. */
  function Deviation(values: seq<real>, c: real): real {
    if values == [] then 0.0
    else
      var d := values[|values| - 1] - c;
      Deviation(values[..|values| - 1], c) + d * d
  }

  function Mean(values: seq<real>): real
    requires values != []
  {
    Total(values) / |values| as real
  }

  method Sum(values: seq<real>) returns (total: real)
    ensures total == Total(values)
  {
    total := 0.0;
    for i := 0 to |values|
      invariant total == Total(values[..i])
    {
      assert values[..i + 1][..i] == values[..i];
      total := total + values[i];
    }
    assert values[..|values|] == values;
  }

  /** The deviation from `c` of `n` values, from their total `t` and the total `q` of their squares. */
  function Expansion(q: real, t: real, n: real, c: real): real { q - 2.0 * c * t + n * c * c }

  lemma {:induction false} DeviationExpands(values: seq<real>, c: real)
    ensures Deviation(values, c) == Expansion(Squares(values), Total(values), |values| as real, c)
  {
    hide *;
    if values == [] {
      NothingTotalled(c);
    } else {
      var front, x := values[..|values| - 1], values[|values| - 1];
      DeviationExpands(front, c);
      LastOf(values, c);
      ExpandOne(Squares(front), Total(front), |front| as real, x, c);
      assert |values| as real == |front| as real + 1.0;
    }
  }

  lemma NothingTotalled(c: real)
    ensures Total([]) == Squares([]) == Deviation([], c) == Expansion(0.0, 0.0, 0.0, c) == 0.0
  {
  }

  lemma LastOf(values: seq<real>, c: real)
    requires values != []
    ensures var front, x := values[..|values| - 1], values[|values| - 1];
            && Total(values) == Total(front) + x && Squares(values) == Squares(front) + x * x
            && Deviation(values, c) == Deviation(front, c) + (x - c) * (x - c)
  {
  }

  lemma ExpandOne(q: real, t: real, n: real, x: real, c: real)
    ensures Expansion(q, t, n, c) + (x - c) * (x - c) == Expansion(q + x * x, t + x, n + 1.0, c)
  {
  }

  lemma {:induction false} DeviationIsNonNegative(values: seq<real>, c: real)
    ensures Deviation(values, c) >= 0.0
  {
    if values != [] {
      DeviationIsNonNegative(values[..|values| - 1], c);
      SquareIsNonNegative(values[|values| - 1] - c);
    }
  }

  /** A product as a name, out of sight of the solver's own arithmetic. */
  ghost function Product(d: real, e: real): real { d * e }

  lemma SquareIsNonNegative(d: real)
    ensures d * d >= 0.0 && (d * d == 0.0 <==> d == 0.0)
  {
    ProductOfEquals(d, d);
    assert Product(d, d) == d * d;
  }

  lemma ProductOfEquals(d: real, e: real)
    requires d == e
    ensures Product(d, e) >= 0.0 && (Product(d, e) == 0.0 <==> d == 0.0)
  {
    hide *;
    if d != 0.0 {
      EqualSigns(d, e);
    } else {
      ZeroProduct(d, e);
    }
  }

  lemma ZeroProduct(a: real, b: real)
    requires a == 0.0
    ensures Product(a, b) == 0.0
  {
  }

  lemma EqualSigns(d: real, e: real)
    requires d == e && d != 0.0
    ensures Product(d, e) > 0.0
  {
    if d > 0.0 {
      PositiveProduct(d, e);
    } else {
      NegativeProduct(d, e);
    }
  }

  lemma PositiveProduct(a: real, b: real)
    requires a > 0.0 && b > 0.0
    ensures Product(a, b) > 0.0
  {
  }

  lemma NegativeProduct(a: real, b: real)
    requires a < 0.0 && b < 0.0
    ensures Product(a, b) > 0.0
  {
  }

  /** No deviation at all means that every value is `c`. */
  lemma {:induction false} NoDeviationExactly(values: seq<real>, c: real)
    ensures Deviation(values, c) == 0.0 <==> forall i :: 0 <= i < |values| ==> values[i] == c
  {
    if values != [] {
      var front, x := values[..|values| - 1], values[|values| - 1];
      NoDeviationExactly(front, c);
      DeviationIsNonNegative(front, c);
      SquareIsNonNegative(x - c);
    }
  }

  // Totals do not depend on the order.

  lemma {:induction false} TotalsSplit(a: seq<real>, b: seq<real>)
    ensures Total(a + b) == Total(a) + Total(b) && Squares(a + b) == Squares(a) + Squares(b)
  {
    if b == [] {
      assert a + b == a;
    } else {
      var front := b[..|b| - 1];
      TotalsSplit(a, front);
      assert (a + b)[..|a + b| - 1] == a + front;
    }
  }

  /** One value is its own total, and no values have none. */
  lemma TotalOfOne(x: real)
    ensures Total([]) == 0.0 && Total([x]) == x && Squares([]) == 0.0 && Squares([x]) == x * x
  {
    assert [x][..0] == [];
  }

  lemma {:induction false} TotalsPermute(one: seq<real>, two: seq<real>)
    requires multiset(one) == multiset(two)
    ensures Total(one) == Total(two) && Squares(one) == Squares(two) && |one| == |two|
  {
    if one == [] {
      NothingLeft(two);
    } else {
      var i := TakeOut(one, two);
      var before, after := two[..i], two[i + 1..];
      TotalsPermute(one[1..], before + after);
      TotalsSplit(before, after);
      TotalsSplit(before, [two[i]] + after);
      TotalsSplit([two[i]], after);
      TotalsSplit([one[0]], one[1..]);
      assert [one[0]] + one[1..] == one;
    }
  }

  lemma DeviationPermutes(one: seq<real>, two: seq<real>, c: real)
    requires multiset(one) == multiset(two)
    ensures Deviation(one, c) == Deviation(two, c)
  {
    hide *;
    TotalsPermute(one, two);
    DeviationExpands(one, c);
    DeviationExpands(two, c);
  }

  // Jain's fairness index.

  function Jain(values: seq<real>): real {
    var denominator := |values| as real * Squares(values);
    if values == [] || denominator == 0.0 then 0.0 else Total(values) * Total(values) / denominator
  }

  /** Cauchy and Schwarz, with what is missing to equality. */
  lemma SquareOfTotal(values: seq<real>)
    requires values != []
    ensures Mean(values) * |values| as real == Total(values)
    ensures |values| as real * Squares(values) - Total(values) * Total(values)
         == |values| as real * Deviation(values, Mean(values))
  {
    hide Squares, Total, Deviation, Expansion;
    MeanTimes(Total(values), |values| as real);
    DeviationExpands(values, Mean(values));
    hide Mean;
    Missing(|values| as real, Mean(values), Total(values), Squares(values), Deviation(values, Mean(values)));
  }

  lemma MeanTimes(t: real, n: real)
    requires n > 0.0
    ensures t / n * n == t
  {
  }

  lemma Missing(n: real, m: real, t: real, q: real, d: real)
    requires m * n == t && d == Expansion(q, t, n, m)
    ensures n * q - t * t == n * d
  {
    assert n * m * m == t * m;
    assert n * d == n * q - n * (m * t);
    assert n * (m * t) == t * t;
  }

  lemma {:induction false} SquaresAreNonNegative(values: seq<real>)
    ensures Squares(values) >= 0.0
    ensures Squares(values) == 0.0 <==> forall i :: 0 <= i < |values| ==> values[i] == 0.0
  {
    if values != [] {
      SquaresAreNonNegative(values[..|values| - 1]);
      SquareIsNonNegative(values[|values| - 1]);
    }
  }

  lemma ProductSign(n: real, q: real)
    requires n > 0.0 && q >= 0.0
    ensures n * q >= 0.0 && (n * q == 0.0 <==> q == 0.0)
  {
  }

  lemma Quotient(a: real, b: real)
    requires b > 0.0
    ensures a >= 0.0 ==> a / b >= 0.0
    ensures a <= b <==> a / b <= 1.0
    ensures a == b <==> a / b == 1.0
  {
    assert a / b * b == a;
  }

  /** For every list of real throughputs the index lies in [0, 1], and it is 1 exactly if they are all
      equal and not zero. */
  lemma JainIsFair(values: seq<real>)
    ensures 0.0 <= Jain(values) <= 1.0
    ensures Jain(values) == 1.0
       <==> values != [] && values[0] != 0.0 && forall i :: 0 <= i < |values| ==> values[i] == values[0]
  {
    hide Total, Deviation, Mean;
    SquaresAreNonNegative(values);
    hide Squares;
    if values != [] {
      ProductSign(|values| as real, Squares(values));
      if Squares(values) != 0.0 {
        JainOfNonZero(values);
      }
    }
  }

  lemma JainOfNonZero(values: seq<real>)
    requires values != [] && Squares(values) > 0.0 && |values| as real * Squares(values) > 0.0
    ensures 0.0 <= Jain(values) <= 1.0
    ensures Jain(values) == 1.0 <==> forall i :: 0 <= i < |values| ==> values[i] == values[0]
  {
    hide Squares, Total, Deviation, Mean;
    var m := Mean(values);
    SquareOfTotal(values);
    DeviationIsNonNegative(values, m);
    NoDeviationExactly(values, m);
    AllAreMean(values);
    ProductSign(|values| as real, Deviation(values, m));
    SquareIsNonNegative(Total(values));
    Quotient(Total(values) * Total(values), |values| as real * Squares(values));
  }

  lemma {:induction false} TotalOfEqual(values: seq<real>, c: real)
    requires forall i :: 0 <= i < |values| ==> values[i] == c
    ensures Total(values) == c * |values| as real
  {
    if values != [] {
      TotalOfEqual(values[..|values| - 1], c);
    }
  }

  lemma AllAreMean(values: seq<real>)
    requires values != []
    ensures (forall i :: 0 <= i < |values| ==> values[i] == Mean(values))
       <==> forall i :: 0 <= i < |values| ==> values[i] == values[0]
  {
    if forall i :: 0 <= i < |values| ==> values[i] == values[0] {
      TotalOfEqual(values, values[0]);
      var n := |values| as real;
      assert values[0] * n / n == values[0];
    }
  }

  lemma {:induction false} TotalDominates(values: seq<real>)
    requires forall i :: 0 <= i < |values| ==> values[i] >= 0.0
    ensures Total(values) >= 0.0 && Total(values) * Total(values) >= Squares(values)
  {
    if values != [] {
      var front, x := values[..|values| - 1], values[|values| - 1];
      TotalDominates(front);
      var t := Total(front);
      assert t * x >= 0.0;
      assert (t + x) * (t + x) == t * t + 2.0 * (t * x) + x * x;
    }
  }

  /** Among non-negative throughputs that are not all zero the index is never below 1/n. */
  lemma JainIsAtLeastOneNth(values: seq<real>)
    requires forall i :: 0 <= i < |values| ==> values[i] >= 0.0
    requires exists i :: 0 <= i < |values| && values[i] != 0.0
    ensures Jain(values) >= 1.0 / |values| as real
  {
    SquaresAreNonNegative(values);
    TotalDominates(values);
    var n, q, t := |values| as real, Squares(values), Total(values);
    ProductSign(n, q);
    OneNth(t * t, n, q);
  }

  lemma OneNth(a: real, n: real, q: real)
    requires n > 0.0 && q > 0.0 && a >= q && n * q > 0.0
    ensures a / (n * q) >= 1.0 / n
  {
    var r := a / (n * q);
    assert r * (n * q) == a && r * (n * q) == (r * n) * q;
    AtLeastOne(r * n, q);
    assert 1.0 / n * n == 1.0;
    Cancel(1.0 / n, r, n);
  }

  lemma AtLeastOne(x: real, q: real)
    requires q > 0.0 && x * q >= q
    ensures x >= 1.0
  {
    Cancel(1.0, x, q);
  }

  lemma Cancel(x: real, y: real, n: real)
    requires n > 0.0 && x * n <= y * n
    ensures x <= y
  {
    assert x == x * n / n && y == y * n / n;
  }
}
