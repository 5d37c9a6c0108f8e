/**
 * An independent description of the folded values. After k passes the value
 * at position i is, modulo 100, the binomially weighted sum
 *   Binom(k, 0) * s[i] + Binom(k, 1) * s[i + 1] + ... + Binom(k, k) * s[i + k]
 * of the original values, so the score of two names is given directly by
 * two such sums over the whole list of stroke values.
 */
module FoldClosedForm {
  import opened Reducer

  /** The binomial coefficient "n choose j", by Pascal's rule. */
  function Binom(n: nat, j: nat): nat
  {
    if j == 0 then 1
    else if n == 0 then 0
    else Binom(n - 1, j - 1) + Binom(n - 1, j)
  }

  /** There is no way to choose more than n of n. */
  lemma {:induction false} BinomAbove(n: nat, j: nat)
    requires n < j
    ensures Binom(n, j) == 0
  {
    if n > 0 {
      BinomAbove(n - 1, j - 1);
      BinomAbove(n - 1, j);
    }
  }

  /** The term Binom(k, j) * s[i + j] of the weighted sum. */
  function Term(s: seq<nat>, i: nat, k: nat, j: nat): nat
    requires i + j < |s|
  {
    Binom(k, j) * s[i + j]
  }

  /** The first m terms of the weighted sum, for j < m. */
  function Partial(s: seq<nat>, i: nat, k: nat, m: nat): nat
    requires i + m <= |s|
  {
    if m == 0 then 0 else Partial(s, i, k, m - 1) + Term(s, i, k, m - 1)
  }

  /** The whole weighted sum of the k + 1 values starting at position i. */
  function Weighted(s: seq<nat>, i: nat, k: nat): nat
    requires i + k < |s|
  {
    Partial(s, i, k, k + 1)
  }

  /** Pascal's rule for a single term. */
  lemma TermPascal(s: seq<nat>, i: nat, k: nat, m: nat)
    requires 0 < m && i + m < |s|
    ensures Term(s, i, k + 1, m) == Term(s, i, k, m) + Term(s, i + 1, k, m - 1)
  {
    assert Binom(k + 1, m) == Binom(k, m - 1) + Binom(k, m);
  }

  /** Pascal's rule carried over to the partial sums. */
  lemma {:induction false} PartialPascal(s: seq<nat>, i: nat, k: nat, m: nat)
    requires i + m + 1 <= |s|
    ensures Partial(s, i, k + 1, m + 1) == Partial(s, i, k, m + 1) + Partial(s, i + 1, k, m)
  {
    if m > 0 {
      PartialPascal(s, i, k, m - 1);
      TermPascal(s, i, k, m);
    }
  }

  /** One more pass adds the weighted sums of two neighbouring windows. */
  lemma WeightedStep(s: seq<nat>, i: nat, k: nat)
    requires i + k + 1 < |s|
    ensures Weighted(s, i, k + 1) == Weighted(s, i, k) + Weighted(s, i + 1, k)
  {
    PartialPascal(s, i, k, k + 1);
    BinomAbove(k, k + 1);
  }

  /** k folding passes, one after the other. */
  function Iterate(s: seq<nat>, k: nat): (r: seq<nat>)
    ensures k <= |s| ==> |r| == |s| - k
  {
    if k == 0 then s else FoldPass(Iterate(s, k - 1))
  }

  /** A first pass followed by k more is k + 1 passes. */
  lemma {:induction false} IterateShift(s: seq<nat>, k: nat)
    ensures Iterate(FoldPass(s), k) == Iterate(s, k + 1)
  {
    if k > 0 {
      IterateShift(s, k - 1);
    }
  }

  /** Fold performs exactly as many passes as leave two values. */
  lemma {:induction false} FoldIsIterate(s: seq<nat>)
    requires |s| >= 2
    ensures Fold(s) == Iterate(s, |s| - 2)
    decreases |s|
  {
    if |s| > 2 {
      FoldIsIterate(FoldPass(s));
      IterateShift(s, |s| - 3);
    }
  }

  /** Adding multiples of 100 leaves the residue modulo 100 unchanged. */
  lemma {:induction false} ShiftMod(q: nat, r: nat)
    ensures (100 * q + r) % 100 == r % 100
  {
    if q > 0 {
      ShiftMod(q - 1, r);
      assert 100 * q + r == 100 * (q - 1) + r + 100;
    }
  }

  /**
   * One pass modulo 100 on values that agree modulo 100 with a and b gives a
   * value that agrees modulo 100 with a + b.
   */
  lemma AddMod(x: nat, u0: nat, u1: nat, a: nat, b: nat)
    ensures x == (u0 + u1) % 100 && u0 % 100 == a % 100 && u1 % 100 == b % 100 ==> x % 100 == (a + b) % 100
  {
    if u0 % 100 == a % 100 && u1 % 100 == b % 100 {
      var r := a % 100 + b % 100;
      assert u0 + u1 == 100 * (u0 / 100 + u1 / 100) + r;
      assert a + b == 100 * (a / 100 + b / 100) + r;
      ShiftMod(u0 / 100 + u1 / 100, r);
      ShiftMod(a / 100 + b / 100, r);
    }
  }

  lemma LastDigit(x: nat)
    ensures (x % 100) % 10 == x % 10
  {
    assert x == 10 * (10 * (x / 100)) + x % 100;
  }

  /** Two pairs that agree modulo 100 give the same two-digit score. */
  lemma SameDigits(x0: nat, x1: nat, w0: nat, w1: nat)
    requires x0 % 100 == w0 % 100 && x1 % 100 == w1 % 100
    ensures (x0 % 10) * 10 + x1 % 10 == (w0 % 10) * 10 + w1 % 10
  {
    LastDigit(x0);
    LastDigit(x1);
    LastDigit(w0);
    LastDigit(w1);
  }

  /** Without a pass, the weighted sum is the value itself. */
  lemma WeightedZero(s: seq<nat>, i: nat)
    requires i < |s|
    ensures Weighted(s, i, 0) == s[i]
  {
    assert Partial(s, i, 0, 1) == Partial(s, i, 0, 0) + Term(s, i, 0, 0);
    assert Term(s, i, 0, 0) == s[i];
  }

  /** The value at i after k passes is the sum modulo 100 of two neighbours after k - 1. */
  lemma IterateStep(s: seq<nat>, k: nat, i: nat)
    requires 0 < k && i + k < |s|
    ensures Iterate(s, k)[i] == (Iterate(s, k - 1)[i] + Iterate(s, k - 1)[i + 1]) % 100
  {
  }

  /** After k passes, the value at i agrees modulo 100 with the weighted sum from i. */
  lemma {:induction false} IterateClosedForm(s: seq<nat>, k: nat, i: nat)
    requires i + k < |s|
    ensures Iterate(s, k)[i] % 100 == Weighted(s, i, k) % 100
  {
    if k > 0 {
      var u := Iterate(s, k - 1);
      IterateClosedForm(s, k - 1, i);
      IterateClosedForm(s, k - 1, i + 1);
      WeightedStep(s, i, k - 1);
      IterateStep(s, k, i);
      AddMod(Iterate(s, k)[i], u[i], u[i + 1], Weighted(s, i, k - 1), Weighted(s, i + 1, k - 1));
    } else {
      WeightedZero(s, i);
    }
  }

  /** The two digits taken from the folded values are those of the two weighted sums. */
  lemma FoldDigits(t: seq<nat>)
    requires |t| >= 2
    ensures var f := Fold(t);
      (f[0] % 10) * 10 + f[1] % 10 == (Weighted(t, 0, |t| - 2) % 10) * 10 + Weighted(t, 1, |t| - 2) % 10
  {
    var k := |t| - 2;
    FoldIsIterate(t);
    IterateClosedForm(t, k, 0);
    IterateClosedForm(t, k, 1);
    var f := Fold(t);
    SameDigits(f[0], f[1], Weighted(t, 0, k), Weighted(t, 1, k));
  }

  /**
   * With n >= 2 stroke values t, the score's tens digit is the last digit of
   * the weighted sum of t[0..n-2] and its ones digit that of t[1..n-1], both
   * weighted by row n - 2 of Pascal's triangle.
   */
  lemma ScoreClosedForm(t: seq<nat>)
    requires |t| >= 2
    ensures FoldScore(t) == (Weighted(t, 0, |t| - 2) % 10) * 10 + Weighted(t, 1, |t| - 2) % 10
  {
    FoldDigits(t);
  }
}
