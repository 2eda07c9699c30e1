/** The arithmetic behind `Aleatory.trials` (aleatory.js:392-441): powers
    built by repeated multiplication (the `ps` and `qs` loops), binomial
    coefficients built by the recurrence of the `coefs` loop, and the
    binomial theorem, which makes the resulting probabilities sum to 1. */
module Binomial {
  import opened Products

  /** `n` choose `k`, by Pascal's rule; 0 when `k` is outside `0..n`. */
  function Choose(n: nat, k: int): nat
  {
    if k < 0 then 0
    else if n == 0 then (if k == 0 then 1 else 0)
    else Choose(n - 1, k - 1) + Choose(n - 1, k)
  }

  /** `x` to the power `k`, one multiplication per step as in the `ps` loop
      (`current = current.mul(p)`, aleatory.js:415-418) and the `qs` loop
      (aleatory.js:423-426). */
  function Pow(x: real, k: nat): real
  {
    if k == 0 then 1.0 else Times(Pow(x, k - 1), x)
  }

  /** `coefs[i]` (aleatory.js:428-433): starting from 1, step `i` multiplies
      by `n - i + 1` and divides by `i`. */
  function Coefficient(n: nat, i: nat): real
  {
    if i == 0 then 1.0 else Ratio(Times(Coefficient(n, i - 1), (n - i + 1) as real), i as real)
  }

  /** The entry for `i` successes as `trials` computes it,
      `coefs[i].mul(ps[i]).mul(qs[i])` (aleatory.js:436-438), with
      `ps[i] == p^i` and `qs[i] == q^(n - i)`. */
  function Entry(n: nat, p: real, q: real, i: nat): real
    requires i <= n
  {
    Times(Times(Coefficient(n, i), Pow(p, i)), Pow(q, n - i))
  }

  /** The probability of exactly `k` successes in `n` independent trials of
      success probability `p` and failure probability `q`. */
  function Term(n: nat, p: real, q: real, k: nat): real
  {
    if k > n then 0.0 else Times(Times(Choose(n, k) as real, Pow(p, k)), Pow(q, n - k))
  }

  /** `Term(n, p, q, 0) + ... + Term(n, p, q, m - 1)`. */
  function TermSum(n: nat, p: real, q: real, m: nat): real
  {
    if m == 0 then 0.0 else TermSum(n, p, q, m - 1) + Term(n, p, q, m - 1)
  }

  //---- Binomial coefficients ----//

  /** Pascal's triangle is 0 past the diagonal and 1 on both edges. */
  lemma {:induction false} ChooseEdges(n: nat, k: int)
    ensures k > n ==> Choose(n, k) == 0
    ensures Choose(n, 0) == 1 && Choose(n, n) == 1
    ensures 0 <= k <= n ==> Choose(n, k) >= 1
  {
    if n > 0 {
      ChooseEdges(n - 1, k);
      ChooseEdges(n - 1, k - 1);
      ChooseEdges(n - 1, n);
      assert Choose(n - 1, -1) == 0;
    }
  }

  lemma StepLeft(i: int, m: int, a: int, b: int)
    requires (i + 1) * b == (m - i) * a
    ensures (i + 1) * (a + b) == (m + 1) * a
  {
  }

  lemma StepRight(i: int, m: int, a: int, c: int)
    requires i * a == (m - i + 1) * c
    ensures (m + 1 - i) * (c + a) == (m + 1) * a
  {
  }

  /** The identity behind the `coefs` recurrence:
      `(i + 1) * C(n, i + 1) == (n - i) * C(n, i)`. */
  lemma {:induction false} ChooseStep(n: nat, i: nat)
    ensures (i + 1) * Choose(n, i + 1) == (n - i) * Choose(n, i)
  {
    if n == 0 {
      ChooseEdges(0, i + 1);
      if i > 0 {
        ChooseEdges(0, i);
      }
    } else {
      var m := n - 1;
      var a, b := Choose(m, i), Choose(m, i + 1);
      ChooseStep(m, i);
      StepLeft(i, m, a, b);
      assert Choose(n, i + 1) == a + b;
      if i == 0 {
        assert Choose(n, 0) == Choose(m, -1) + Choose(m, 0);
      } else {
        var c := Choose(m, i - 1);
        ChooseStep(m, i - 1);
        StepRight(i, m, a, c);
        assert Choose(n, i) == c + a;
      }
    }
  }

  lemma CastStep(a: int, b: int, r: int, s: int)
    requires s != 0 && s * b == r * a
    ensures Ratio(Times(a as real, r as real), s as real) == b as real
  {
    assert (s * b) as real == s as real * b as real;
    assert (r * a) as real == r as real * a as real;
  }

  /** The `coefs` loop computes the binomial coefficients: `coefs[i]` is
      `n` choose `i` for every `i` (0 once `i` passes `n`). */
  lemma {:induction false} CoefficientIsChoose(n: nat, i: nat)
    ensures Coefficient(n, i) == Choose(n, i) as real
  {
    if i > 0 {
      CoefficientIsChoose(n, i - 1);
      ChooseStep(n, i - 1);
      assert i * Choose(n, i) == (n - i + 1) * Choose(n, i - 1);
      CastStep(Choose(n, i - 1), Choose(n, i), n - i + 1, i);
    } else {
      ChooseEdges(n, 0);
    }
  }

  //---- Powers ----//

  lemma {:induction false} PowFacts(x: real, k: nat)
    ensures Pow(1.0, k) == 1.0
    ensures k > 0 ==> Pow(0.0, k) == 0.0
    ensures x > 0.0 ==> Pow(x, k) > 0.0
  {
    if k > 0 {
      PowFacts(x, k - 1);
      TimesFacts(Pow(x, k - 1), x);
      TimesFacts(Pow(0.0, k - 1), 0.0);
      TimesFacts(Pow(1.0, k - 1), 1.0);
    }
  }

  //---- The binomial theorem ----//

  lemma Rearrange(c1: real, c2: real, a: real, b: real, p: real, q: real)
    ensures Times(Times(c1 + c2, Times(a, p)), Times(b, q)) ==
      Times(p, Times(Times(c1, a), Times(b, q))) + Times(q, Times(Times(c2, Times(a, p)), b))
  {
  }

  lemma LastTerm(c: real, a: real, p: real, q: real)
    ensures Times(Times(c + 0.0, Times(a, p)), 1.0) == Times(p, Times(Times(c, a), 1.0)) + Times(q, 0.0)
  {
  }

  /** Pascal's rule on the terms: one more trial either succeeds or fails. */
  lemma TermPascal(n: nat, p: real, q: real, m: nat)
    requires 1 <= m <= n + 1
    ensures Term(n + 1, p, q, m) == Times(p, Term(n, p, q, m - 1)) + Times(q, Term(n, p, q, m))
  {
    var c1, c2 := Choose(n, m - 1) as real, Choose(n, m) as real;
    var a := Pow(p, m - 1);
    assert Choose(n + 1, m) as real == c1 + c2;
    assert Pow(p, m) == Times(a, p);
    if m <= n {
      var b := Pow(q, n - m);
      assert Pow(q, n + 1 - m) == Times(b, q);
      assert Term(n + 1, p, q, m) == Times(Times(c1 + c2, Times(a, p)), Times(b, q));
      assert Term(n, p, q, m - 1) == Times(Times(c1, a), Times(b, q));
      assert Term(n, p, q, m) == Times(Times(c2, Times(a, p)), b);
      Rearrange(c1, c2, a, b, p, q);
    } else {
      ChooseEdges(n, m);
      ChooseEdges(n, n);
      assert c2 == 0.0;
      assert Term(n + 1, p, q, m) == Times(Times(c1 + c2, Times(a, p)), 1.0);
      assert Term(n, p, q, m - 1) == Times(Times(c1, a), 1.0);
      assert Term(n, p, q, m) == 0.0;
      LastTerm(c1, a, p, q);
    }
  }

  lemma FirstTerm(w: real, p: real, q: real)
    ensures Times(Times(1.0, 1.0), Times(w, q)) == Times(p, 0.0) + Times(q, Times(Times(1.0, 1.0), w))
  {
  }

  lemma Collect(p: real, q: real, a: real, b: real, c: real, e: real, x: real, y: real)
    requires x == Times(p, a) + Times(q, c) && y == Times(p, b) + Times(q, e)
    ensures x + y == Times(p, a + b) + Times(q, c + e)
  {
  }

  lemma {:induction false} SumPascal(n: nat, p: real, q: real, m: nat)
    requires 1 <= m <= n + 2
    ensures TermSum(n + 1, p, q, m) == Times(p, TermSum(n, p, q, m - 1)) + Times(q, TermSum(n, p, q, m))
  {
    if m == 1 {
      ChooseEdges(n + 1, 0);
      ChooseEdges(n, 0);
      var w := Pow(q, n);
      assert Pow(q, n + 1) == Times(w, q);
      assert TermSum(n + 1, p, q, 1) == Term(n + 1, p, q, 0) == Times(Times(1.0, 1.0), Times(w, q));
      assert TermSum(n, p, q, 1) == Term(n, p, q, 0) == Times(Times(1.0, 1.0), w);
      assert TermSum(n, p, q, 0) == 0.0;
      FirstTerm(w, p, q);
    } else {
      var a, b := TermSum(n, p, q, m - 2), Term(n, p, q, m - 2);
      var c, e := TermSum(n, p, q, m - 1), Term(n, p, q, m - 1);
      SumPascal(n, p, q, m - 1);
      TermPascal(n, p, q, m - 1);
      Collect(p, q, a, b, c, e, TermSum(n + 1, p, q, m - 1), Term(n + 1, p, q, m - 1));
    }
  }

  lemma Factor(p: real, q: real, s: real)
    ensures Times(p, s) + Times(q, s + 0.0) == Times(s, p + q)
  {
  }

  /** The binomial theorem: the terms for `0..n` successes add up to
      `(p + q)^n`. */
  lemma {:induction false} BinomialTheorem(n: nat, p: real, q: real)
    ensures TermSum(n, p, q, n + 1) == Pow(p + q, n)
  {
    if n == 0 {
      assert TermSum(0, p, q, 1) == Term(0, p, q, 0) == Times(Times(1.0, 1.0), 1.0);
    } else {
      var m := n - 1;
      BinomialTheorem(m, p, q);
      SumPascal(m, p, q, n + 1);
      ChooseEdges(m, n);
      var s := Pow(p + q, m);
      assert TermSum(m, p, q, n + 1) == s + Term(m, p, q, n);
      assert Term(m, p, q, n) == 0.0;
      Factor(p, q, s);
    }
  }

  /** With `p + q == 1`, the terms sum to 1. */
  lemma TermsSumToOne(n: nat, p: real, q: real)
    requires p + q == 1.0
    ensures TermSum(n, p, q, n + 1) == 1.0
  {
    BinomialTheorem(n, p, q);
    PowFacts(0.0, n);
  }

  /** Every term for `0..n` successes is positive when both outcomes are
      possible. */
  lemma TermPositive(n: nat, p: real, q: real, k: nat)
    requires p > 0.0 && q > 0.0 && k <= n
    ensures Term(n, p, q, k) > 0.0
  {
    ChooseEdges(n, k);
    PowFacts(p, k);
    PowFacts(q, n - k);
    var c, a, b := Choose(n, k) as real, Pow(p, k), Pow(q, n - k);
    TimesFacts(c, a);
    TimesFacts(Times(c, a), b);
  }

  /** With certain failure (`p == 0`) only 0 successes are possible; with
      certain success (`q == 0`) only `n`. */
  lemma TermDegenerate(n: nat, k: nat)
    ensures Term(n, 0.0, 1.0, k) == if k == 0 then 1.0 else 0.0
    ensures Term(n, 1.0, 0.0, k) == if k == n then 1.0 else 0.0
  {
    ChooseEdges(n, k);
    PowFacts(0.0, k);
    if k <= n {
      PowFacts(0.0, n - k);
      var c := Choose(n, k) as real;
      var z, o := Pow(0.0, n - k), Pow(0.0, k);
      assert Term(n, 1.0, 0.0, k) == Times(Times(c, 1.0), z);
      assert Term(n, 0.0, 1.0, k) == Times(Times(c, o), 1.0);
      if k == n {
        assert z == 1.0;
      }
      if k == 0 {
        assert o == 1.0;
      }
    }
  }

  /** The computed entries are the binomial probabilities. */
  lemma EntryIsTerm(n: nat, p: real, q: real, i: nat)
    requires i <= n
    ensures Entry(n, p, q, i) == Term(n, p, q, i)
  {
    CoefficientIsChoose(n, i);
  }
}
