/** Long division of magnitudes (`operator/`) and the operators built on it. */
module Division {
  import opened Words
  import opened Results
  import opened BigInts
  import opened Multiply
  import FastVectors

  // ---------------------------------------------------------------------------
  // Word-level helpers of the division loop

  /** `t / c` brackets `t` between two consecutive multiples of `c`. */
  lemma FloorDivBounds(t: int, c: int)
    requires c > 0
    ensures (t / c) * c <= t < (t / c + 1) * c
  {
    assert t == (t / c) * c + t % c;
    assert (t / c + 1) * c == (t / c) * c + c;
  }

  /** `get_trial`: the two top words of the running remainder divided by the
      top word of the divisor, capped at 0xffffffff. The result never
      overshoots that two-word quotient, and it is the two-word quotient
      unless the cap applies. */
  function GetTrial(a: Word, b: Word, c: Word): (r: Word)
    requires c > 0
    ensures r * c <= a * BASE + b
    ensures r == MAX_WORD || a * BASE + b < (r + 1) * c
  {
    var t := a * BASE + b;
    FloorDivBounds(t, c);
    if t / c > MAX_WORD then
      MulMonotone(MAX_WORD, t / c, c);
      MAX_WORD
    else
      t / c
  }

  /** `sub_equal_vectors`: a - b over |a| words, by adding the complement of
      b and one; the difference wraps modulo BASE^|a| when b is larger. */
  function SubEqual(a: seq<Word>, b: seq<Word>): (r: seq<Word>)
    requires |a| == |b|
    ensures |r| == |a|
    ensures Nat(b) <= Nat(a) ==> Nat(r) == Nat(a) - Nat(b)
    ensures Nat(a) < Nat(b) ==> Nat(r) == Nat(a) - Nat(b) + Pow(|a|)
  {
    var sum := AddWords(a, ComplementAll(b), 1);
    SubEqualValue(a, b, sum);
    sum.words
  }

  lemma {:induction false} SubEqualValue(a: seq<Word>, b: seq<Word>, sum: Carried)
    requires |a| == |b|
    requires sum == AddWords(a, ComplementAll(b), 1)
    ensures Nat(b) <= Nat(a) ==> Nat(sum.words) == Nat(a) - Nat(b)
    ensures Nat(a) < Nat(b) ==> Nat(sum.words) == Nat(a) - Nat(b) + Pow(|a|)
  {
    var p := Pow(|a|);
    assert |ComplementAll(b)| == |a|;
    NatComplement(b);
    assert |sum.words| == |a|;
    NatBound(sum.words);
    NatBound(a);
    NatBound(b);
    SubAlgebra(Nat(sum.words), sum.carry, p, Nat(a), Nat(b));
  }

  lemma SubAlgebra(ns: int, c: int, p: int, na: int, nb: int)
    requires 0 <= ns < p && 0 <= c <= 1 && 0 <= na < p && 0 <= nb < p
    requires ns + c * p == na + (p - 1 - nb) + 1
    ensures nb <= na ==> ns == na - nb
    ensures na < nb ==> ns == na - nb + p
  {
    MulFlag(c, p);
  }

  /** `compare_equal_vectors`: scans from the top word down and answers at the
      first difference; it says whether a is numerically below b. */
  function CompareEqual(a: seq<Word>, b: seq<Word>): (r: bool)
    requires |a| == |b|
    ensures r <==> Nat(a) < Nat(b)
  {
    assert a[..|a|] == a && b[..|b|] == b;
    TopDownLess(a, b, |a|)
  }

  /** The `while` loop that lowers the trial quotient: while the remainder is
      below divisor * tq, tq is decremented. It stops at the largest value not
      above tq whose multiple of the divisor fits in the remainder. */
  function Correction(dev: seq<Word>, d: seq<Word>, tq: Word): (r: Word)
    requires |dev| == |d| + 1
    ensures r <= tq && r * Nat(d) <= Nat(dev)
    ensures r == tq || Nat(dev) < (r + 1) * Nat(d)
    decreases tq
  {
    var prod := MulSmall(d, tq);
    var below := CompareEqual(dev, prod);
    CorrectionTest(Nat(dev), Nat(d), tq, Nat(prod), below);
    if below then
      var r := Correction(dev, d, tq - 1);
      CorrectionStep(Nat(dev), Nat(d), tq, r);
      r
    else
      tq
  }

  lemma CorrectionTest(y: int, nd: int, tq: int, np: int, below: bool)
    requires y >= 0 && nd >= 0 && tq >= 0
    requires np == nd * tq && (below <==> y < np)
    ensures below ==> tq > 0 && y < nd * tq
    ensures !below ==> tq * nd <= y
  {
    if tq == 0 {
      ZeroProduct(nd, tq);
    }
  }

  lemma CorrectionStep(y: int, nd: int, tq: int, r: int)
    requires tq > 0 && y < nd * tq
    requires r <= tq - 1 && r * nd <= y && (r == tq - 1 || y < (r + 1) * nd)
    ensures r <= tq && r * nd <= y && (r == tq || y < (r + 1) * nd)
  {
  }

  /** The digit the loop settles on: `get_trial` on the two top words of the
      remainder and the top word of the divisor, then lowered by the
      correction loop when the divisor has more than one word. While the
      remainder is below BASE times the divisor, it is the exact quotient
      digit. */
  function QuotientDigit(dev: seq<Word>, d: seq<Word>): (r: Word)
    requires |d| > 0 && |dev| == |d| + 1 && d[|d| - 1] > 0
    ensures Nat(dev) < BASE * Nat(d) ==> r == Nat(dev) / Nat(d)
  {
    var m := |d|;
    var tq := GetTrial(dev[m], dev[m - 1], d[m - 1]);
    TrialAbove(dev, d);
    if m != 1 then
      var r := Correction(dev, d, tq);
      assert Nat(dev) < BASE * Nat(d) ==> r == Nat(dev) / Nat(d) by {
        if Nat(dev) < BASE * Nat(d) {
          CorrectedDigit(Nat(dev), Nat(d), tq, r);
        }
      }
      r
    else
      TrialExact(dev, d);
      tq
  }

  /** The trial digit never undershoots the true quotient digit. */
  lemma {:induction false} TrialAbove(dev: seq<Word>, d: seq<Word>)
    requires |d| > 0 && |dev| == |d| + 1 && d[|d| - 1] > 0
    ensures Nat(dev) < BASE * Nat(d) ==> Nat(dev) / Nat(d) <= GetTrial(dev[|d|], dev[|d| - 1], d[|d| - 1])
  {
    var m := |d|;
    var tq := GetTrial(dev[m], dev[m - 1], d[m - 1]);
    var c := d[m - 1];
    var t := dev[m] * BASE + dev[m - 1];
    TopTwoWords(dev, m);
    assert Nat(d) >= c * Pow(m - 1) by {
      assert |d| - 1 == m - 1;
      NatTopLower(d, c);
    }
    if Nat(dev) < BASE * Nat(d) {
      if tq == MAX_WORD {
        CapAlgebra(Nat(dev), Nat(d));
      } else {
        TrialAlgebra(Nat(dev), Nat(dev[..m - 1]), t, Pow(m - 1), Nat(d), c, tq);
      }
    }
  }

  /** Once the divisor's top word is at least 2^31, as normalisation makes
      it, the trial digit overshoots the true digit by at most two, so the
      correction loop runs at most twice (Theorem B of section 4.3.1 of
      Knuth's The Art of Computer Programming, volume 2). */
  lemma {:induction false} TrialNear(dev: seq<Word>, d: seq<Word>)
    requires |d| > 0 && |dev| == |d| + 1 && 2 * d[|d| - 1] >= BASE
    ensures Nat(d) > 0 && GetTrial(dev[|d|], dev[|d| - 1], d[|d| - 1]) <= Nat(dev) / Nat(d) + 2
  {
    var m := |d|;
    var c: nat := d[m - 1];
    TopTwoWords(dev, m);
    assert |d| - 1 == m - 1;
    NatTopLower(d, c);
    NatTopBound(d, c + 1);
    var tq := GetTrial(dev[m], dev[m - 1], c);
    TrialTimesTop(Nat(dev), Nat(dev[..m - 1]), Pow(m - 1), c, dev[m] * BASE + dev[m - 1], tq);
    TrialWithinTwo(Nat(dev), Nat(d), Pow(m - 1), c, tq);
  }

  /** The arithmetic of TrialNear: if the divisor nd lies in
      [c * p, (c + 1) * p), tq * c * p is at most the remainder u, and
      2c >= BASE > tq, then tq <= u / nd + 2. Otherwise, with q = u / nd,
      tq * (nd - p) < u < (tq - 2) * nd would give 2 * nd < tq * p, and so
      2c < tq. */
  lemma TrialWithinTwo(u: int, nd: int, p: int, c: int, tq: int)
    requires p > 0 && c * p <= nd < (c + 1) * p && u >= 0
    requires tq * (c * p) <= u && 0 <= tq < BASE <= 2 * c
    ensures nd > 0 && tq <= u / nd + 2
  {
    MulMonotone(1, c, p);
    FloorDivBounds(u, nd);
    TrialBelow(u, nd, p, c, tq, u / nd);
  }

  lemma TrialBelow(u: int, nd: int, p: int, c: int, tq: int, q: int)
    requires p > 0 && nd > 0 && q >= 0 && nd < (c + 1) * p && c * p <= nd
    requires tq * (c * p) <= u < (q + 1) * nd && tq < BASE <= 2 * c
    ensures tq <= q + 2
  {
    Overshoot(u, nd, p, c, tq, q);
    AboveDouble(nd, p, c, tq);
  }

  /** The digit `operator/` settles on is at most two below the trial
      digit: with the divisor's top word at least 2^31, the correction loop
      decrements the trial digit at most twice. */
  lemma {:induction false} CorrectionSteps(dev: seq<Word>, d: seq<Word>)
    requires |d| > 0 && |dev| == |d| + 1 && 2 * d[|d| - 1] >= BASE && Nat(dev) < BASE * Nat(d)
    ensures 0 <= GetTrial(dev[|d|], dev[|d| - 1], d[|d| - 1]) - QuotientDigit(dev, d) <= 2
  {
    TrialAbove(dev, d);
    TrialNear(dev, d);
  }

  /** tq * c <= t and u == low + p * t give tq * (c * p) <= u. */
  lemma TrialTimesTop(u: int, low: int, p: int, c: int, t: int, tq: int)
    requires p > 0 && u == low + p * t && low >= 0 && tq * c <= t
    ensures tq * (c * p) <= u
  {
    assert tq * (c * p) == (tq * c) * p;
    MulMonotone(tq * c, t, p);
  }

  /** With tq * (c * p) <= u < (q + 1) * nd and nd < (c + 1) * p, a trial
      tq above q + 2 leaves 2 * nd < tq * p. */
  lemma Overshoot(u: int, nd: int, p: int, c: int, tq: int, q: int)
    requires tq * (c * p) <= u < (q + 1) * nd && nd < (c + 1) * p && nd > 0 && q >= 0
    ensures tq > q + 2 ==> 2 * nd < tq * p
  {
    if tq > q + 2 {
      assert (c + 1) * p == c * p + p;
      MulMonotone(nd - p, c * p - 1, tq);
      MulMonotone(q + 1, tq - 2, nd);
      assert (nd - p) * tq == tq * nd - tq * p;
      assert (c * p - 1) * tq == tq * (c * p) - tq;
      assert (tq - 2) * nd == tq * nd - 2 * nd;
    }
  }

  /** With c * p <= nd, 2 * nd < tq * p forces tq above 2c. */
  lemma AboveDouble(nd: int, p: int, c: int, tq: int)
    requires p > 0 && c * p <= nd
    ensures 2 * nd < tq * p ==> 2 * c < tq
  {
    if tq <= 2 * c {
      assert (2 * c) * p == 2 * (c * p);
      MulMonotone(tq, 2 * c, p);
    }
  }

  /** A number read as its two top words over the words below them. */
  lemma {:induction false} TopTwoWords(dev: seq<Word>, m: nat)
    requires m > 0 && |dev| == m + 1
    ensures Nat(dev) == Nat(dev[..m - 1]) + Pow(m - 1) * (dev[m] * BASE + dev[m - 1])
    ensures Nat(dev[..m - 1]) < Pow(m - 1)
  {
    NatSplit(dev, m - 1);
    assert dev[m - 1..] == [dev[m - 1], dev[m]];
    assert dev[m - 1..][1..] == [dev[m]];
    NatSingle(dev[m]);
    assert |dev[..m - 1]| == m - 1;
    NatBound(dev[..m - 1]);
  }

  lemma CapAlgebra(y: int, nd: int)
    requires 0 <= y < BASE * nd
    ensures y / nd <= MAX_WORD
  {
    QuotBelow(y, nd, BASE);
  }

  lemma TrialAlgebra(y: int, low: int, t: int, p: int, nd: int, c: int, q: int)
    requires 0 <= low < p && t >= 0 && c > 0 && q >= 0
    requires y == low + p * t && nd >= c * p && t < (q + 1) * c
    ensures y / nd <= q
  {
    assert y < (t + 1) * p;
    MulMonotone(t + 1, (q + 1) * c, p);
    assert (q + 1) * c * p == (q + 1) * (c * p);
    MulMonotone(c * p, nd, q + 1);
    assert y < nd * (q + 1);
    QuotBelow(y, nd, q + 1);
  }

  /** With a one-word divisor the trial digit is exact. */
  lemma {:induction false} TrialExact(dev: seq<Word>, d: seq<Word>)
    requires |d| == 1 && |dev| == 2 && d[0] > 0
    ensures GetTrial(dev[1], dev[0], d[0]) <= Nat(dev) / Nat(d)
  {
    var tq := GetTrial(dev[1], dev[0], d[0]);
    assert dev[1..] == [dev[1]];
    NatSingle(dev[1]);
    assert d == [d[0]];
    NatSingle(d[0]);
    BelowQuotient(Nat(dev), Nat(d), tq);
  }

  lemma BelowQuotient(y: int, c: int, q: int)
    requires c > 0 && q * c <= y
    ensures q <= y / c
  {
    FloorDivBounds(y, c);
    if q > y / c {
      MulMonotone(y / c + 1, q, c);
    }
  }

  lemma CorrectedDigit(y: int, nd: int, tq: int, r: int)
    requires nd > 0 && y >= 0 && y / nd <= tq
    requires r <= tq && r * nd <= y && (r == tq || y < (r + 1) * nd)
    ensures r == y / nd
  {
    BelowQuotient(y, nd, r);
    if r != tq {
      QuotBelow(y, nd, r + 1);
    }
  }

  /** One pass of the loop of `operator/`: the next dividend word w is
      shifted in below the running remainder, the quotient digit is found,
      its multiple of the divisor is subtracted with `sub_equal_vectors`, and
      the top word is dropped by the shift that makes room for the next
      dividend word. With the remainder below the divisor, this is one step
      of schoolbook division: the digit is the quotient and the new
      remainder the remainder of the shifted value by the divisor. */
  method DivPass(w: Word, rem: seq<Word>, d: seq<Word>) returns (digit: Word, next: seq<Word>)
    requires |d| > 0 && |rem| == |d| && d[|d| - 1] > 0 && Nat(rem) < Nat(d)
    ensures |next| == |d| && Nat(next) < Nat(d)
    ensures w + BASE * Nat(rem) == digit * Nat(d) + Nat(next)
  {
    var dev := [w] + rem;
    digit := QuotientDigit(dev, d);
    var prod := MulSmall(d, digit);
    var r := SubEqual(dev, prod);
    next := r[..|d|];
    DivStep(w, rem, d, dev, digit, prod, r, next);
  }

  lemma {:induction false} DivStep(w: Word, rem: seq<Word>, d: seq<Word>, dev: seq<Word>, tq: Word,
                                   prod: seq<Word>, r: seq<Word>, next: seq<Word>)
    requires |d| > 0 && |rem| == |d| && dev == [w] + rem && Nat(rem) < Nat(d)
    requires Nat(dev) < BASE * Nat(d) ==> tq == Nat(dev) / Nat(d)
    requires Nat(prod) == Nat(d) * tq
    requires |r| == |dev| && (Nat(prod) <= Nat(dev) ==> Nat(r) == Nat(dev) - Nat(prod))
    requires next == r[..|d|]
    ensures Nat(next) < Nat(d)
    ensures w + BASE * Nat(rem) == tq * Nat(d) + Nat(next)
  {
    assert Nat(dev) == w + BASE * Nat(rem) by {
      assert dev[1..] == rem;
    }
    var y := Nat(dev);
    var nd := Nat(d);
    ShiftedBelow(w, Nat(rem), nd, y);
    DigitRemainder(y, nd, tq);
    var m := |d|;
    assert Nat(next) == Nat(r) by {
      NatLast(r);
      assert r[..m] == next;
      NatBound(d);
      TopWordZero(Nat(next), r[m], Pow(m), Nat(r), nd);
    }
  }

  lemma DigitRemainder(y: int, nd: int, q: int)
    requires nd > 0 && q == y / nd
    ensures nd * q <= y && y - nd * q < nd && q * nd == nd * q && y - nd * q == y % nd
  {
    FloorDivBounds(y, nd);
  }

  lemma ShiftedBelow(w: Word, nrem: int, nd: int, y: int)
    requires 0 <= nrem < nd && y == w + BASE * nrem
    ensures y < BASE * nd
  {
  }

  lemma TopWordZero(nl: int, top: nat, p: int, nr: int, nd: int)
    requires nl >= 0 && p > 0 && nr == nl + top * p && nr < nd && nd < p
    ensures top == 0 && nr == nl
  {
    if top > 0 {
      MulMonotone(1, top, p);
    }
  }

  /** The main loop of `operator/`: passes over the k lowest words of the
      normalised dividend, top one first, each digit stored at its word's
      index of the quotient. Starting from a remainder below the divisor,
      the quotient is the floor of (that remainder, then those k dividend
      words) divided by the divisor. */
  method DivLoop(an: seq<Word>, d: seq<Word>, k: nat, rem0: seq<Word>) returns (q: seq<Word>)
    requires k <= |an| && |d| > 0 && |rem0| == |d| && d[|d| - 1] > 0 && Nat(rem0) < Nat(d)
    ensures |q| == k
    ensures Nat(q) == (Nat(rem0) * Pow(k) + Nat(an[..k])) / Nat(d)
  {
    var nd := Nat(d);
    var rem := rem0;
    q := [];
    var i := k;
    while i > 0
      invariant 0 <= i <= k && |q| == k - i && |rem| == |d|
      invariant Nat(q) * nd + Nat(rem) == Shifted(an, i, k, Nat(rem0)) && Nat(rem) < nd
    {
      var digit, next := DivPass(an[i - 1], rem, d);
      NatCons(digit, q);
      DivLoopStep(Shifted(an, i, k, Nat(rem0)), an[i - 1], nd, Nat(q), Nat(rem), digit, Nat(next), Nat([digit] + q));
      q := [digit] + q;
      rem := next;
      i := i - 1;
    }
    ShiftedValue(an, 0, k, Nat(rem0));
    assert an[0..k] == an[..k];
    DivModUnique(Nat(rem0) * Pow(k) + Nat(an[..k]), nd, Nat(q), Nat(rem));
  }

  /** The running value of the loop once the dividend words from index i
      up to k have been shifted in below r0, top one first. */
  function Shifted(an: seq<Word>, i: nat, k: nat, r0: int): int
    requires i <= k <= |an|
    decreases k - i
  {
    if i == k then r0 else an[i] + BASE * Shifted(an, i + 1, k, r0)
  }

  /** The running value is r0 followed by those k - i words. */
  lemma {:induction false} ShiftedValue(an: seq<Word>, i: nat, k: nat, r0: int)
    requires i <= k <= |an|
    ensures Shifted(an, i, k, r0) == r0 * Pow(k - i) + Nat(an[i..k])
    decreases k - i
  {
    if i < k {
      ShiftedValue(an, i + 1, k, r0);
      assert an[i..k][1..] == an[i + 1..k];
      assert Pow(k - i) == BASE * Pow(k - (i + 1));
      MulAssoc(r0, BASE, Pow(k - (i + 1)), Pow(k - i));
    }
  }

  /** A word placed below a sequence of words. */
  lemma NatCons(w: Word, s: seq<Word>)
    ensures Nat([w] + s) == w + BASE * Nat(s)
  {
    assert ([w] + s)[1..] == s;
  }

  /** One step of schoolbook division: with x = nq * nd + nr, shifting w
      in gives w + BASE * x = (digit + BASE * nq) * nd + nnext. */
  lemma DivLoopStep(x: int, w: int, nd: int, nq: int, nr: int, digit: int, nnext: int, nq2: int)
    requires x == nq * nd + nr && w + BASE * nr == digit * nd + nnext && nq2 == digit + BASE * nq
    ensures w + BASE * x == nq2 * nd + nnext
  {
    assert BASE * x == (BASE * nq) * nd + BASE * nr;
  }

  // ---------------------------------------------------------------------------
  // Normalisation and the quotient of two magnitudes

  /** The normalising factor f = 2^32 / (top + 1) of `operator/`: it fits a
      word, is at least 1, and f * (top + 1) does not exceed the base. */
  lemma ScaleFactor(t: Word)
    requires t > 0
    ensures 1 <= BASE / (t + 1) < BASE && Lo(BASE / (t + 1)) == BASE / (t + 1)
    ensures (t + 1) * (BASE / (t + 1)) <= BASE
  {
    FloorDivBounds(BASE, t + 1);
  }

  /** Scaling a divisor whose top word is t by f keeps it within the same
      number of words. */
  lemma ScaledBelow(nb: int, t1: int, p: int, f: int)
    requires 0 <= nb < t1 * p && p > 0 && f >= 1 && t1 * f <= BASE
    ensures nb * f < BASE * p
  {
    assert nb * f < (t1 * p) * f;
    assert (t1 * p) * f == (t1 * f) * p;
    MulMonotone(t1 * f, BASE, p);
  }

  /** f = 2^32 / (t + 1) lifts any top word t to at least half the base:
      2 * t * f >= 2^32. When t and f are both at least 2, t * f is at
      least t + f, and (t + 1) * (f + 1) > 2^32 does the rest. */
  lemma HalfBase(t: int, f: int)
    requires 1 <= t < BASE && f == BASE / (t + 1)
    ensures 2 * t * f >= BASE
  {
    FloorDivBounds(BASE, t + 1);
    ScaleFactor(t);
    HalfBaseCases(t, f, t * f);
  }

  lemma HalfBaseCases(t: int, f: int, tf: int)
    requires 1 <= t < BASE && f >= 1 && tf == t * f
    requires f * (t + 1) <= BASE < (f + 1) * (t + 1)
    ensures 2 * t * f >= BASE
  {
    assert f * (t + 1) == tf + f;
    assert (f + 1) * (t + 1) == tf + f + t + 1;
    assert 2 * t * f == 2 * tf;
    if t == 1 {
      assert tf == f;
    } else if f == 1 {
      assert tf == t;
    } else {
      MulMonotone(1, t - 1, f - 1);
      assert (t - 1) * (f - 1) == tf - t - f + 1;
    }
  }

  /** Scaling by f the divisor nb, whose top word t is at least 1 in p,
      makes it at least half of BASE * p. */
  lemma HalfScaled(nb: int, t: int, p: int, f: int)
    requires nb >= t * p && p > 0 && f >= 1 && 2 * t * f >= BASE
    ensures 2 * (nb * f) >= BASE * p
  {
    MulMonotone(t * p, nb, f);
    assert (t * p) * f == (t * f) * p;
    MulMonotone(BASE, 2 * t * f, p);
  }

  /** Scaling by f keeps a divisor of m words, top word t, within m words,
      and lifts it to at least half of BASE^m, so that its new top word is
      at least 2^31. */
  lemma {:induction false} ScaledRange(bp: seq<Word>, f: int)
    requires |bp| > 0 && bp[|bp| - 1] > 0 && f == BASE / ((bp[|bp| - 1] as int) + 1)
    ensures Pow(|bp| - 1) <= Nat(bp) * f < Pow(|bp|)
    ensures 2 * (Nat(bp) * f) >= Pow(|bp|)
  {
    var m := |bp|;
    var t := bp[m - 1];
    ScaleFactor(t);
    NatTopBound(bp, (t as int) + 1);
    ScaledBelow(Nat(bp), (t as int) + 1, Pow(m - 1), f);
    NatTopLower(bp, 1);
    MulMonotone(1, f, Nat(bp));
    NatTopLower(bp, t);
    HalfBase(t, f);
    HalfScaled(Nat(bp), t, Pow(m - 1), f);
  }

  /** A canonical non-negative number between BASE^(m-1) and BASE^m has
      exactly m words, the top one non-zero. */
  lemma {:induction false} WordCount(x: BigInt, m: nat)
    requires Canonical(x) && !x.sign && m > 0 && Pow(m - 1) <= Value(x) < Pow(m)
    ensures |x.words| == m && x.words[m - 1] > 0
  {
    ValueRange(x);
    if |x.words| < m {
      PowMonotone(|x.words|, m - 1);
    }
    CanonicalLength(x);
    if |x.words| > m {
      PowMonotone(m, |x.words| - 1);
    }
  }

  /** The divisor after normalisation: same length, value multiplied by f,
      top word at least half of BASE. */
  lemma {:induction false} NormalisedDivisor(bp: seq<Word>, f: Word, bn: BigInt)
    requires |bp| > 0 && bp[|bp| - 1] > 0 && f == BASE / ((bp[|bp| - 1] as int) + 1)
    requires bn == Make(false, MulSmall(bp, f))
    ensures |bn.words| == |bp| && bn.words[|bp| - 1] > 0
    ensures Nat(bn.words) == Nat(bp) * f
    ensures 2 * bn.words[|bp| - 1] >= BASE
  {
    ScaledRange(bp, f);
    WordCount(bn, |bp|);
    var top := bn.words[|bp| - 1];
    NatTopBound(bn.words, (top as int) + 1);
    HalfTop(Nat(bn.words), top, Pow(|bp| - 1));
  }

  /** A number below (top + 1) * p and at least half of BASE * p has a top
      word of at least 2^31. */
  lemma HalfTop(x: int, top: int, p: int)
    requires p > 0 && x < (top + 1) * p && 2 * x >= BASE * p
    ensures 2 * top >= BASE
  {
    assert BASE * p < (2 * (top + 1)) * p;
  }

  /** The remainder the loop starts from (the dividend's top words) is
      below the normalised divisor. */
  lemma StartBelow(a: int, f: int, pn: int, pk: int, pm: int, nb: int, nd: int, low: int, nrem: int)
    requires 0 <= a < pn && f >= 1 && pn == pk * pm && pm <= nb && nd == nb * f
    requires a * f == low + pk * nrem && low >= 0 && pk > 0 && nrem >= 0
    ensures nrem < nd
  {
    assert a * f < pn * f;
    assert pn * f == pk * (pm * f);
    MulMonotone(pm, nb, f);
    assert pk * nrem < pk * nd by {
      assert pk * (pm * f) <= pk * nd;
    }
  }

  /** Multiplying dividend and divisor by the same factor keeps the quotient. */
  lemma ScaledQuotient(a: int, b: int, f: int)
    requires a >= 0 && b > 0 && f > 0
    ensures (a * f) / (b * f) == a / b
  {
    DivDiv(a * f, f, b);
    MulDivCancel(a, f);
    assert f * b == b * f;
  }

  /** The quotient of two magnitudes as `operator/` computes it when the
      dividend has at least as many words as the divisor: both are
      multiplied by f = 2^32 / (top word of the divisor + 1), the top words
      of the dividend seed the running remainder, and the loop produces
      one digit for each of the n - m + 1 remaining positions. */
  method QuotientWords(ap: seq<Word>, bp: seq<Word>) returns (q: seq<Word>)
    requires |bp| > 0 && bp[|bp| - 1] > 0 && |ap| >= |bp|
    ensures |q| == |ap| - |bp| + 1
    ensures Nat(bp) > 0 && Nat(q) == Nat(ap) / Nat(bp)
  {
    var m := |bp|;
    ScaleFactor(bp[m - 1]);
    var f := Lo(BASE / ((bp[m - 1] as int) + 1));
    var an := Make(false, MulSmall(ap, f));
    var bn := Make(false, MulSmall(bp, f));
    var digits := Digits(an, |ap| + 1);
    var k := |ap| - m + 1;
    Normalised(ap, bp, f, an, bn, digits, k);
    q := DivLoop(digits, bn.words, k, digits[k..]);
  }

  /** What the normalisation sets up for the loop: a divisor of m words with
      a non-zero top word, a starting remainder below it, and a quotient of
      the scaled operands equal to that of the original ones. */
  lemma {:induction false} Normalised(ap: seq<Word>, bp: seq<Word>, f: Word, an: BigInt, bn: BigInt,
                                      digits: seq<Word>, k: nat)
    requires |bp| > 0 && bp[|bp| - 1] > 0 && |ap| >= |bp| && f == BASE / ((bp[|bp| - 1] as int) + 1)
    requires an == Make(false, MulSmall(ap, f)) && bn == Make(false, MulSmall(bp, f))
    requires digits == Digits(an, |ap| + 1) && k == |ap| - |bp| + 1
    ensures |bn.words| == |bp| && bn.words[|bp| - 1] > 0 && Nat(digits[k..]) < Nat(bn.words)
    ensures 2 * bn.words[|bp| - 1] >= BASE
    ensures Nat(bp) > 0
    ensures (Nat(digits[k..]) * Pow(k) + Nat(digits[..k])) / Nat(bn.words) == Nat(ap) / Nat(bp)
  {
    NormalisedDivisor(bp, f, bn);
    ScaleFactor(bp[|bp| - 1]);
    assert Nat(digits) == Nat(ap) * f by {
      ValueExtended(an, |ap| + 1);
    }
    StartRemainder(ap, bp, f, digits, k, Nat(bn.words));
    ScaledQuotient(Nat(ap), Nat(bp), f);
  }

  /** The top m words of the scaled dividend are below the scaled divisor,
      and together with the k words below them they make up the whole
      scaled dividend. */
  lemma {:induction false} StartRemainder(ap: seq<Word>, bp: seq<Word>, f: int, digits: seq<Word>, k: nat, nd: int)
    requires |bp| > 0 && bp[|bp| - 1] > 0 && |ap| >= |bp| && f >= 1
    requires |digits| == |ap| + 1 && k == |ap| - |bp| + 1
    requires Nat(digits) == Nat(ap) * f && nd == Nat(bp) * f
    ensures Nat(bp) > 0 && Nat(digits[k..]) < nd
    ensures Nat(digits[k..]) * Pow(k) + Nat(digits[..k]) == Nat(ap) * f
  {
    var m := |bp|;
    NatTopLower(bp, 1);
    NatSplit(digits, k);
    NatBound(ap);
    PowAdd(k, m - 1);
    StartBelow(Nat(ap), f, Pow(|ap|), Pow(k), Pow(m - 1), Nat(bp), nd, Nat(digits[..k]), Nat(digits[k..]));
  }

  // ---------------------------------------------------------------------------
  // The rounding `operator/` evidently intends

  /** |x|. */
  function Magnitude(x: int): nat
  {
    if x < 0 then -x else x
  }

  /** Division as C++ defines it for built-in integers: the quotient of the
      magnitudes, negated when exactly one operand is negative (rounding
      toward zero). */
  function TruncDiv(x: int, y: int): int
    requires y != 0
  {
    var q := Magnitude(x) / Magnitude(y);
    if (x < 0) != (y < 0) then -q else q
  }

  /** The remainder left by TruncDiv is the remainder of the magnitudes,
      carrying the sign of the dividend. */
  lemma TruncDivRemainder(x: int, y: int)
    requires y != 0
    ensures x - TruncDiv(x, y) * y == if x < 0 then -(Magnitude(x) % Magnitude(y)) else Magnitude(x) % Magnitude(y)
  {
    var a, b := Magnitude(x), Magnitude(y);
    var q0, r0 := a / b, a % b;
    assert a == q0 * b + r0;
    if (x < 0) != (y < 0) {
      assert TruncDiv(x, y) * y == -(q0 * y);
    }
  }

  /** TruncDiv leaves a remainder smaller than the divisor in magnitude and
      never of the opposite sign to the dividend. */
  lemma TruncDivSpec(x: int, y: int)
    requires y != 0
    ensures Magnitude(x - TruncDiv(x, y) * y) < Magnitude(y)
    ensures x - TruncDiv(x, y) * y == 0 || (x - TruncDiv(x, y) * y < 0 <==> x < 0)
  {
    TruncDivRemainder(x, y);
  }

  /** Conversely, those two properties single TruncDiv out. */
  lemma TruncDivUnique(x: int, y: int, q: int)
    requires y != 0
    requires Magnitude(x - q * y) < Magnitude(y)
    requires x - q * y == 0 || (x - q * y < 0 <==> x < 0)
    ensures q == TruncDiv(x, y)
  {
    var a, b := Magnitude(x), Magnitude(y);
    var r := x - q * y;
    if x >= 0 && y > 0 {
      DivModUnique(a, b, q, r);
    } else if x >= 0 {
      assert a == (-q) * b + r;
      DivModUnique(a, b, -q, r);
    } else if y > 0 {
      assert a == (-q) * b + (-r);
      DivModUnique(a, b, -q, -r);
    } else {
      assert a == q * b + (-r);
      DivModUnique(a, b, q, -r);
    }
  }

  // ---------------------------------------------------------------------------
  // operator/ and operator%

  /** Why a division has no quotient to give. */
  datatype DivError = DivisionByZero | OutOfBoundsRead | AllocationFailure | WritePastCapacity

  /** 2^64: `size_t` arithmetic is modulo this. */
  const SIZE_T: int := 0x1_0000_0000_0000_0000

  /** A bound on word counts: a vector of 2^61 words would fill half of a
      64-bit address space. */
  const MAX_WORDS: int := 0x2000_0000_0000_0000

  /** `n - m + 1` in `size_t`: the length `fast_vector temp` is built with. */
  function TempSize(n: nat, m: nat): (s: nat)
    requires 0 < m < SIZE_T && n < SIZE_T
    ensures s < SIZE_T
    ensures m <= n + 1 ==> s + m == n + 1
    ensures n + 1 < m ==> s + (m - n - 1) == SIZE_T
  {
    (n - m + 1) % SIZE_T
  }

  /** `cap * sizeof(uint32_t)` in `size_t`: the bytes `copy_data` asks
      `operator new` for when `temp` is made with cap words. */
  function TempBytes(cap: nat): (bytes: nat)
    requires cap < SIZE_T
    ensures bytes < SIZE_T
    ensures cap < MAX_WORDS ==> bytes == 4 * cap
    ensures SIZE_T - MAX_WORDS < cap ==> bytes == 4 * cap - 3 * SIZE_T
  {
    (4 * cap) % SIZE_T
  }

  /** The model of the allocator: `operator new` throws `bad_alloc` for a
      request of half the address space or more, and grants the rest. */
  predicate AllocationFails(bytes: nat)
  {
    bytes >= SIZE_T / 2
  }

  /** Why a dividend two or more words shorter than the divisor fails before
      the loop starts. `n - m + 1` wraps around `size_t`, so `fast_vector
      temp` asks `reserve` for nearly 2^64 words; that is above SMALL_SIZE,
      so `make_big` calls `copy_data`, and its `operator new` asks for at
      least half the address space. A dividend one word shorter gets an
      empty `temp` and fails in the loop instead; a longer one needs no
      more than a quarter of it. */
  lemma WrappedTemp(n: nat, m: nat)
    requires 0 < m <= MAX_WORDS && n < MAX_WORDS
    ensures n + 1 == m ==> TempSize(n, m) == 0
    ensures n + 2 <= m ==> TempSize(n, m) > FastVectors.SMALL_SIZE
    ensures AllocationFails(TempBytes(TempSize(n, m))) <==> n + 2 <= m
  {
  }

  /** The canonical magnitudes `operator/` starts from. */
  lemma {:induction false} Magnitudes(a: BigInt, b: BigInt, ap: seq<Word>, bp: seq<Word>)
    requires Canonical(a) && Canonical(b) && !IsZero(b)
    requires ap == Abs(a).words && bp == Abs(b).words
    ensures |bp| > 0 && bp[|bp| - 1] > 0
    ensures Value(b) != 0 && Nat(ap) == Magnitude(Value(a)) && Nat(bp) == Magnitude(Value(b))
    ensures a.sign <==> Value(a) < 0
    ensures b.sign <==> Value(b) < 0
    ensures |ap| < |bp| ==> Magnitude(Value(a)) < Magnitude(Value(b))
  {
    AbsWords(b, bp);
    ValueRange(a);
    assert Value(Abs(a)) == Nat(ap);
    if |ap| < |bp| {
      NatBound(ap);
      PowMonotone(|ap|, |bp| - 1);
      NatTopLower(bp, 1);
    }
  }

  /** For a canonical number, being zero and having value zero agree. */
  lemma ZeroValue(x: BigInt)
    requires Canonical(x)
    ensures IsZero(x) <==> Value(x) == 0
  {
    if !IsZero(x) {
      NonZeroValue(x);
    }
  }

  /** `operator/` as written. A zero divisor gives 0 (after a message on
      standard output); a dividend of one word fewer than the divisor makes
      the loop read it below index 0, and one of two or more words fewer
      makes the wrapped `fast_vector temp(n - m + 1)` fail to allocate
      (WrappedTemp). Otherwise the quotient of the
      magnitudes, q of n - m + 1 words, is turned into the result by
      `big_integer(sign, q)` and `correct()`. A negative q that the buffer
      cannot take (Overruns) makes `correct()` write past its buffer.
      The rest is exact when the signs agree; when they differ it is exact
      only while q is non-zero and its top word is not 0xffffffff: a zero q
      comes out as -BASE^(n-m+2), and a q of 0xffffffff words only comes out
      as 0. */
  method DivAsWritten(a: BigInt, b: BigInt) returns (r: Result<BigInt, DivError>)
    requires Canonical(a) && Canonical(b)
    ensures Value(b) == 0 ==> r.Success? && Value(r.value) == 0
    ensures Value(b) != 0 && |Abs(a).words| + 1 == |Abs(b).words| ==> r == Failure(OutOfBoundsRead)
    ensures Value(b) != 0 && |Abs(a).words| + 2 <= |Abs(b).words| ==> r == Failure(AllocationFailure)
    ensures Value(b) != 0 && |Abs(a).words| >= |Abs(b).words| ==>
      (r.Failure? <==> a.sign != b.sign && Overruns(Magnitude(Value(a)) / Magnitude(Value(b)),
                                                    |Abs(a).words| - |Abs(b).words| + 1))
    ensures r.Failure? && |Abs(a).words| >= |Abs(b).words| ==> r.error == WritePastCapacity
    ensures r.Success? ==> Canonical(r.value)
    ensures r.Success? && Value(b) != 0 && a.sign == b.sign ==> Value(r.value) == TruncDiv(Value(a), Value(b))
    ensures r.Success? && Value(b) != 0 && a.sign != b.sign ==>
      AsWrittenQuotient(Magnitude(Value(a)) / Magnitude(Value(b)), |Abs(a).words| - |Abs(b).words| + 1,
                        Value(r.value), TruncDiv(Value(a), Value(b)))
  {
    ZeroValue(b);
    if IsZero(b) {
      r := Success(FromInt(0));
    } else if |Abs(a).words| + 1 == |Abs(b).words| {
      r := Failure(OutOfBoundsRead);
    } else if |Abs(a).words| < |Abs(b).words| {
      r := Failure(AllocationFailure);
    } else {
      r := QuotientAsWritten(a, b);
    }
  }

  /** The negative quotients `operator/` as written cannot store, by their
      magnitude qm and their number of words len. `fast_vector
      temp(n - m + 1)` holds the quotient words on the heap once there are
      more than SMALL_SIZE of them, and `big_integer res(sign, temp)` shares
      that allocation. `delete_zero` pops the top 0xffffffff words of the
      negative res; if that leaves one word, `prepare_to_new` gives res a
      private allocation of capacity 1 and the `push_back` in `correct()`
      writes past it. In values: qm is 0xffffffff in every word but the
      lowest, which is not. */
  predicate Overruns(qm: int, len: int)
  {
    len > FastVectors.SMALL_SIZE && Pow(len) - BASE <= qm < Pow(len) - 1
  }

  /** The magnitudes `delete_zero` trims to one word under a set sign:
      those of len words between BASE^len - BASE and BASE^len - 2, the
      words above the lowest all 0xffffffff and the lowest not. */
  lemma {:induction false} TrimmedToOne(q: seq<Word>)
    requires |q| > 0
    ensures |Make(true, q).words| == 1 <==> Pow(|q|) - BASE <= Nat(q) < Pow(|q|) - 1
  {
    var x := Make(true, q);
    assert Value(x) == Nat(q) - Pow(|q|);
    if |x.words| == 1 {
      NatSingle(x.words[0]);
      assert x.words == [x.words[0]];
    } else if |x.words| > 1 {
      CanonicalLength(x);
      PowMonotone(1, |x.words| - 1);
    }
  }

  /** Overruns in terms of the quotient words. */
  lemma {:induction false} OverrunWords(q: seq<Word>, qm: int, len: int)
    requires |q| == len > 0 && Nat(q) == qm
    ensures Overruns(qm, len) <==> |q| > FastVectors.SMALL_SIZE && |Make(true, q).words| == 1
  {
    TrimmedToOne(q);
  }

  /** The quotient `operator/` produces once the divisor is non-zero and the
      dividend has at least as many words: an error exactly on the
      quotients the buffer cannot take. */
  method QuotientAsWritten(a: BigInt, b: BigInt) returns (r: Result<BigInt, DivError>)
    requires Canonical(a) && Canonical(b) && Value(b) != 0 && |Abs(a).words| >= |Abs(b).words|
    ensures r.Failure? <==> a.sign != b.sign && Overruns(Magnitude(Value(a)) / Magnitude(Value(b)),
                                                         |Abs(a).words| - |Abs(b).words| + 1)
    ensures r.Failure? ==> r.error == WritePastCapacity
    ensures r.Success? ==> Canonical(r.value)
    ensures r.Success? && a.sign == b.sign ==> Value(r.value) == TruncDiv(Value(a), Value(b))
    ensures r.Success? && a.sign != b.sign ==>
      AsWrittenQuotient(Magnitude(Value(a)) / Magnitude(Value(b)), |Abs(a).words| - |Abs(b).words| + 1,
                        Value(r.value), TruncDiv(Value(a), Value(b)))
  {
    ZeroValue(b);
    var ap := Abs(a).words;
    var bp := Abs(b).words;
    Magnitudes(a, b, ap, bp);
    var q := QuotientWords(ap, bp);
    OverrunWords(q, Magnitude(Value(a)) / Magnitude(Value(b)), |ap| - |bp| + 1);
    if a.sign != b.sign && |q| > FastVectors.SMALL_SIZE && |Make(true, q).words| == 1 {
      r := Failure(WritePastCapacity);
    } else {
      var res := FromMagnitudeAsWritten(a.sign != b.sign, q);
      AsWrittenResult(Value(a), Value(b), a.sign, b.sign, q, |ap| - |bp| + 1, res);
      r := Success(res);
    }
  }

  /** Overruns is what the buffer model says of `operator/`: take a vector t
      as `fast_vector temp(n - m + 1)` leaves it once the loop has stored
      the quotient words (on the heap exactly when longer than SMALL_SIZE),
      and let `big_integer res(true, temp)` and `correct()` copy it, pop it
      down to the words `delete_zero` keeps, and push the guard word. The
      push fails exactly on Overruns. */
  lemma {:induction false} QuotientBufferAsWritten(p: FastVectors.Pool, t: nat, w: Word, qm: int, len: int)
    requires FastVectors.Live(p, t) && FastVectors.Size(p, t) == len > 0
    requires FastVectors.IsBig(p, t) <==> len > FastVectors.SMALL_SIZE
    requires Nat(FastVectors.Contents(p, t)) == qm
    ensures var s := |Make(true, FastVectors.Contents(p, t)).words|;
      s > 0 && FastVectors.CopyTrimPush(p, t, s, w).Failure? <==> Overruns(qm, len)
  {
    var q := FastVectors.Contents(p, t);
    OverrunWords(q, qm, len);
  }

  /** What a negative quotient of len words with magnitude qm comes out as:
      -BASE^(len+1) when qm is zero, the exact quotient while the top word
      is below 0xffffffff, and 0 when every word is 0xffffffff. */
  predicate AsWrittenQuotient(qm: int, len: int, v: int, exact: int)
  {
    && (len > 0 && qm == 0 ==> v == -Pow(len + 1))
    && (len > 0 && 0 < qm < MAX_WORD * Pow(len - 1) ==> v == exact)
    && (len > 0 && qm == Pow(len) - 1 ==> v == 0)
  }

  lemma {:induction false} AsWrittenResult(va: int, vb: int, sa: bool, sb: bool, q: seq<Word>, len: int, res: BigInt)
    requires vb != 0 && (sa <==> va < 0) && (sb <==> vb < 0) && |q| > 0 && len == |q|
    requires Nat(q) == Magnitude(va) / Magnitude(vb) && res == FromMagnitudeAsWritten(sa != sb, q)
    ensures sa == sb ==> Value(res) == TruncDiv(va, vb)
    ensures sa != sb ==> AsWrittenQuotient(Magnitude(va) / Magnitude(vb), len, Value(res), TruncDiv(va, vb))
  {
    if sa != sb && q[|q| - 1] == MAX_WORD {
      NatTopLower(q, MAX_WORD);
    }
  }

  /** `operator/` as evidently intended: a zero divisor is an error, a
      dividend of fewer words than the divisor has quotient 0, and otherwise
      the signed magnitude is read directly. The quotient rounds toward
      zero, as C++ division does. */
  method Div(a: BigInt, b: BigInt) returns (r: Result<BigInt, DivError>)
    requires Canonical(a) && Canonical(b)
    ensures r.Failure? <==> Value(b) == 0
    ensures r.Failure? ==> r.error == DivisionByZero
    ensures r.Success? ==> Canonical(r.value) && Value(r.value) == TruncDiv(Value(a), Value(b))
  {
    ZeroValue(b);
    if IsZero(b) {
      r := Failure(DivisionByZero);
    } else {
      var ap := Abs(a).words;
      var bp := Abs(b).words;
      Magnitudes(a, b, ap, bp);
      if |ap| < |bp| {
        SmallQuotient(Value(a), Value(b));
        r := Success(Zero());
      } else {
        var q := QuotientWords(ap, bp);
        var res := FromMagnitude(a.sign != b.sign, q);
        IntendedResult(Value(a), Value(b), a.sign, b.sign, q, res);
        r := Success(res);
      }
    }
  }

  lemma SmallQuotient(va: int, vb: int)
    requires vb != 0 && Magnitude(va) < Magnitude(vb)
    ensures TruncDiv(va, vb) == 0
  {
  }

  lemma {:induction false} IntendedResult(va: int, vb: int, sa: bool, sb: bool, q: seq<Word>, res: BigInt)
    requires vb != 0 && (sa <==> va < 0) && (sb <==> vb < 0)
    requires Nat(q) == Magnitude(va) / Magnitude(vb) && res == FromMagnitude(sa != sb, q)
    ensures Value(res) == TruncDiv(va, vb)
  {
  }

  /** `operator%` as written: a - (a / b) * b on `operator/` as written. A
      zero divisor gives back a; the remainder is exact while the signs
      agree, and off by BASE^(n-m+2) times b when a negative quotient
      should have been zero. */
  method ModAsWritten(a: BigInt, b: BigInt) returns (r: Result<BigInt, DivError>)
    requires Canonical(a) && Canonical(b)
    ensures Value(b) == 0 ==> r.Success? && Value(r.value) == Value(a)
    ensures Value(b) != 0 && |Abs(a).words| + 1 == |Abs(b).words| ==> r == Failure(OutOfBoundsRead)
    ensures Value(b) != 0 && |Abs(a).words| + 2 <= |Abs(b).words| ==> r == Failure(AllocationFailure)
    ensures Value(b) != 0 && |Abs(a).words| >= |Abs(b).words| ==>
      (r.Failure? <==> a.sign != b.sign && Overruns(Magnitude(Value(a)) / Magnitude(Value(b)),
                                                    |Abs(a).words| - |Abs(b).words| + 1))
    ensures r.Failure? && |Abs(a).words| >= |Abs(b).words| ==> r.error == WritePastCapacity
    ensures r.Success? ==> Canonical(r.value)
    ensures r.Success? && Value(b) != 0 && a.sign == b.sign ==>
      Value(r.value) == Value(a) - TruncDiv(Value(a), Value(b)) * Value(b)
    ensures (&& r.Success? && Value(b) != 0 && a.sign != b.sign && |Abs(b).words| <= |Abs(a).words|
             && Magnitude(Value(a)) < Magnitude(Value(b))) ==>
      Value(r.value) == Value(a) + Pow(|Abs(a).words| - |Abs(b).words| + 2) * Value(b)
  {
    var q := DivAsWritten(a, b);
    if q.Failure? {
      r := q;
    } else {
      assert Value(b) == 0 || |Abs(b).words| <= |Abs(a).words|;
      var p := Mul(q.value, b);
      var res := Sub(a, p);
      RemainderAsWritten(Value(a), Value(b), a.sign, b.sign, |Abs(a).words| - |Abs(b).words| + 1,
                         Value(q.value), Value(p), Value(res));
      r := Success(res);
    }
  }

  lemma RemainderAsWritten(va: int, vb: int, sa: bool, sb: bool, len: int, vq: int, vp: int, vr: int)
    requires vp == vq * vb && vr == va - vp
    requires vb == 0 ==> vq == 0
    requires vb != 0 && sa == sb ==> vq == TruncDiv(va, vb)
    requires vb != 0 && sa != sb ==> AsWrittenQuotient(Magnitude(va) / Magnitude(vb), len, vq, TruncDiv(va, vb))
    ensures vb == 0 ==> vr == va
    ensures vb != 0 && sa == sb ==> vr == va - TruncDiv(va, vb) * vb
    ensures vb != 0 && sa != sb && len > 0 && Magnitude(va) < Magnitude(vb) ==> vr == va + Pow(len + 1) * vb
  {
    if vb == 0 {
      ZeroProduct(vq, vb);
    } else if sa != sb && len > 0 && Magnitude(va) < Magnitude(vb) {
      QuotBelow(Magnitude(va), Magnitude(vb), 1);
      NegatedProduct(vq, vb, Pow(len + 1), vp);
    }
  }

  /** (-c) * b == -(c * b), for the product the remainder subtracts. */
  lemma NegatedProduct(vq: int, vb: int, c: int, vp: int)
    requires vq == -c && vp == vq * vb
    ensures vp == -(c * vb)
  {
  }

  /** `operator%` on the intended division: the remainder of truncating
      division, smaller than the divisor and signed like the dividend. */
  method Mod(a: BigInt, b: BigInt) returns (r: Result<BigInt, DivError>)
    requires Canonical(a) && Canonical(b)
    ensures r.Failure? <==> Value(b) == 0
    ensures r.Failure? ==> r.error == DivisionByZero
    ensures r.Success? ==> Canonical(r.value) && Value(r.value) == Value(a) - TruncDiv(Value(a), Value(b)) * Value(b)
    ensures r.Success? ==> Magnitude(Value(r.value)) < Magnitude(Value(b))
    ensures r.Success? ==> Value(r.value) == 0 || (Value(r.value) < 0 <==> Value(a) < 0)
  {
    var q := Div(a, b);
    if q.Failure? {
      r := Failure(q.error);
    } else {
      var res := Sub(a, Mul(q.value, b));
      TruncDivSpec(Value(a), Value(b));
      r := Success(res);
    }
  }

  /** `/` and `%` together, on the intended division: the quotient times
      the divisor plus the remainder gives back the dividend. */
  method DivMod(a: BigInt, b: BigInt) returns (q: Result<BigInt, DivError>, m: Result<BigInt, DivError>)
    requires Canonical(a) && Canonical(b)
    ensures q.Success? <==> m.Success?
    ensures q.Success? <==> Value(b) != 0
    ensures q.Success? ==> Value(q.value) * Value(b) + Value(m.value) == Value(a)
  {
    q := Div(a, b);
    m := Mod(a, b);
  }

  // ---------------------------------------------------------------------------
  // Concrete inputs on which the written operators go wrong

  /** The number of words of |x| for small values. */
  lemma WordsOfMagnitude(x: BigInt)
    requires Canonical(x) && Magnitude(Value(x)) < BASE
    ensures |Abs(x).words| == if Value(x) == 0 then 0 else 1
  {
    var p := Abs(x);
    if Value(x) == 0 {
      if |p.words| > 0 {
        CanonicalLength(p);
      }
    } else {
      WordCount(p, 1);
    }
  }

  /** 7 / 0 as written is 0 rather than an error. */
  method DivByZeroAsWritten() returns (r: Result<BigInt, DivError>)
    ensures r.Success? && Value(r.value) == 0
  {
    r := DivAsWritten(FromInt(7), FromInt(0));
  }

  /** 0 / 5 as written reads the dividend out of bounds. */
  method ZeroByFiveAsWritten() returns (r: Result<BigInt, DivError>)
    ensures r == Failure(OutOfBoundsRead)
  {
    var a := FromInt(0);
    var b := FromInt(5);
    WordsOfMagnitude(a);
    WordsOfMagnitude(b);
    r := DivAsWritten(a, b);
  }

  /** 0 / 2^32 as written cannot allocate its quotient buffer. */
  method ZeroByWordAsWritten() returns (r: Result<BigInt, DivError>)
    ensures r == Failure(AllocationFailure)
  {
    var a := FromInt(0);
    var b := FromUint64(BASE);
    WordsOfMagnitude(a);
    assert |Abs(b).words| == 2 by { WordCount(Abs(b), 2); }
    r := DivAsWritten(a, b);
  }

  /** (-1) / 2 as written is -2^64 rather than 0. */
  method NegativeHalfAsWritten() returns (r: Result<BigInt, DivError>)
    ensures r.Success? && Value(r.value) == -Pow(2) && TruncDiv(-1, 2) == 0
  {
    var a := FromInt(-1);
    var b := FromInt(2);
    ValueRange(a);
    ValueRange(b);
    WordsOfMagnitude(a);
    WordsOfMagnitude(b);
    r := DivAsWritten(a, b);
  }

  /** (-4294967295) / 1 as written is 0 rather than -4294967295. */
  method MaxWordAsWritten() returns (r: Result<BigInt, DivError>)
    ensures r.Success? && Value(r.value) == 0 && TruncDiv(-(MAX_WORD as int), 1) == -(MAX_WORD as int)
  {
    var a := Negate(FromUint32(MAX_WORD));
    var b := FromInt(1);
    ValueRange(a);
    ValueRange(b);
    WordsOfMagnitude(a);
    WordsOfMagnitude(b);
    r := DivAsWritten(a, b);
  }

  /** -(2^160 - 2^32 + 5) / 1 as written writes past a buffer: the quotient
      magnitude is the five words 5, 0xffffffff, 0xffffffff, 0xffffffff,
      0xffffffff, so `fast_vector temp(5)` is on the heap, `delete_zero`
      trims the negative result to the one word 5, and `correct()` pushes
      its guard word into a private copy of capacity 1. The intended
      division gives the dividend back. */
  method OverrunAsWritten() returns (r: Result<BigInt, DivError>, fixed: Result<BigInt, DivError>)
    ensures r == Failure(WritePastCapacity)
    ensures fixed.Success? && Value(fixed.value) == -(Pow(5) - BASE + 5)
  {
    var a := BigInt(true, [0xFFFF_FFFB, 0, 0, 0, 0]);
    var b := FromInt(1);
    assert Value(a) == -(Pow(5) - BASE + 5) by {
      NatZeros(4);
      assert [0xFFFF_FFFB, 0, 0, 0, 0][1..] == Zeros(4);
    }
    assert |Abs(a).words| == 5 by {
      WordCount(Abs(a), 5);
    }
    ValueRange(b);
    WordsOfMagnitude(b);
    r := DivAsWritten(a, b);
    fixed := Div(a, b);
  }

  /** (-1) % 2 as written is 2^65 - 1 rather than -1. */
  method NegativeHalfModAsWritten() returns (r: Result<BigInt, DivError>)
    ensures r.Success? && Value(r.value) == 2 * Pow(2) - 1
  {
    var a := FromInt(-1);
    var b := FromInt(2);
    ValueRange(a);
    ValueRange(b);
    WordsOfMagnitude(a);
    WordsOfMagnitude(b);
    r := ModAsWritten(a, b);
  }
}
