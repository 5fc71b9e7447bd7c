/** Multiplication: the word-by-word multiply-add rows of `mul_vector` and
    `mul_big_small`, the `correct` step that turns a stored magnitude into
    two's complement, and `operator*`. */
module Multiply {
  import opened Words
  import opened BigInts

  // ---------------------------------------------------------------------------
  // One multiply-add step

  /** The carry of a multiply-add step: `mul = x * y`,
      `tmp = lo(mul) + w + c`, the word is `lo(tmp)` and the next carry is
      `hi(mul) + hi(tmp)`. With a word and a carry below BASE added in, the
      next carry again fits a word. */
  lemma MulWordStep(x: Word, y: Word, w: Word, c: nat)
    requires c < BASE
    ensures Lo(Lo(x * y) + w + c) + BASE * (Hi(x * y) + Hi(Lo(x * y) + w + c)) == x * y + w + c
    ensures Hi(x * y) + Hi(Lo(x * y) + w + c) < BASE
  {
    var mul := x * y;
    ProductBound(x, y, mul);
    StepAlgebra(mul, w, c);
  }

  /** A product of two words is at most (BASE-1)^2. */
  lemma ProductBound(x: Word, y: Word, mul: int)
    requires mul == x * y
    ensures mul <= MAX_WORD * MAX_WORD
  {
    MulMonotone(x, MAX_WORD, y);
    MulMonotone(y, MAX_WORD, MAX_WORD);
  }

  lemma StepAlgebra(mul: nat, w: Word, c: nat)
    requires mul <= MAX_WORD * MAX_WORD && c < BASE
    ensures Lo(Lo(mul) + w + c) + BASE * (Hi(mul) + Hi(Lo(mul) + w + c)) == mul + w + c
    ensures Hi(mul) + Hi(Lo(mul) + w + c) < BASE
  {
    var tmp := Lo(mul) + w + c;
    assert mul == Hi(mul) * BASE + Lo(mul);
    assert tmp == Hi(tmp) * BASE + Lo(tmp);
    assert (Hi(mul) + Hi(tmp)) * BASE <= mul + w + c < BASE * BASE;
  }

  /** A step of a row: the low word plus BASE times the rest. */
  lemma RowStep(lo: int, c: int, nr: int, rc: int, pm: int, pn: int, x: int, y0: int, ny: int, w0: int, nw: int, c0: int)
    requires lo + BASE * c == x * y0 + w0 + c0
    requires nr + rc * pm == nw + x * ny + c
    requires pn == BASE * pm
    ensures (lo + BASE * nr) + rc * pn == (w0 + BASE * nw) + x * (y0 + BASE * ny) + c0
  {
    assert rc * pn == BASE * (rc * pm);
    assert x * (y0 + BASE * ny) == x * y0 + BASE * (x * ny);
  }

  // ---------------------------------------------------------------------------
  // Multiply-add rows

  /** The inner loop of `mul_vector` over one row: word j of the window
      `w` becomes the low word of `lo(x * y[j]) + w[j] + carry`. The result
      holds the new window and the carry left over. */
  function MulRow(w: seq<Word>, x: Word, y: seq<Word>, carry: nat): (r: Carried)
    requires |w| == |y| && carry < BASE
    ensures |r.words| == |y| && r.carry < BASE
    ensures Nat(r.words) + r.carry * Pow(|y|) == Nat(w) + x * Nat(y) + carry
    decreases |y|
  {
    if |y| == 0 then
      Carried([], carry)
    else
      var mul := x * y[0];
      var tmp := Lo(mul) + w[0] + carry;
      MulWordStep(x, y[0], w[0], carry);
      var rest := MulRow(w[1..], x, y[1..], Hi(mul) + Hi(tmp));
      var r := Carried([Lo(tmp)] + rest.words, rest.carry);
      assert r.words[1..] == rest.words;
      RowStep(Lo(tmp), Hi(mul) + Hi(tmp), Nat(rest.words), rest.carry, Pow(|y| - 1), Pow(|y|),
              x, y[0], Nat(y[1..]), w[0], Nat(w[1..]), carry);
      r
  }

  /** The loop of `mul_big_small`: word i is the low word of
      `lo(a[i] * x) + carry`, and the last word is the final carry. */
  function MulSmallFrom(a: seq<Word>, x: Word, carry: nat): (r: seq<Word>)
    requires carry < BASE
    ensures |r| == |a| + 1
    ensures Nat(r) == Nat(a) * x + carry
    decreases |a|
  {
    if |a| == 0 then
      NatSingle(Lo(carry));
      [Lo(carry)]
    else
      var mul := a[0] * x;
      var tmp := Lo(mul) + carry;
      MulWordStep(a[0], x, 0, carry);
      var rest := MulSmallFrom(a[1..], x, Hi(mul) + Hi(tmp));
      var r := [Lo(tmp)] + rest;
      assert r[1..] == rest;
      SmallStep(Lo(tmp), Hi(mul) + Hi(tmp), Nat(rest), a[0], Nat(a[1..]), x, carry);
      r
  }

  lemma SmallStep(lo: int, c: int, nr: int, a0: int, na: int, x: int, c0: int)
    requires lo + BASE * c == a0 * x + c0
    requires nr == na * x + c
    ensures lo + BASE * nr == (a0 + BASE * na) * x + c0
  {
    assert (a0 + BASE * na) * x == a0 * x + BASE * (na * x);
  }

  /** `mul_big_small(a, x)`: the |a|+1 words of a * x. */
  function MulSmall(a: seq<Word>, x: Word): (r: seq<Word>)
    ensures |r| == |a| + 1
    ensures Nat(r) == Nat(a) * x
  {
    MulSmallFrom(a, x, 0)
  }

  /** The top word of `mul_big_small` is below the multiplier, so it is never 0xffffffff. */
  lemma MulSmallTop(a: seq<Word>, x: Word)
    ensures MulSmall(a, x)[|a|] < MAX_WORD
    ensures x > 0 ==> MulSmall(a, x)[|a|] < x
  {
    var r := MulSmall(a, x);
    var t: nat := r[|a|];
    assert |r| - 1 == |a|;
    NatTopLower(r, t);
    NatBound(a);
    TopOfProduct(Nat(a), x, Pow(|a|), t, Nat(r));
  }

  /** A product below x * p has a multiple of p below x * p. */
  lemma TopOfProduct(na: int, x: int, p: int, t: int, nr: int)
    requires 0 <= na < p && 0 <= x && 0 <= t && nr == na * x && nr >= t * p
    ensures t < x || (x == 0 && t == 0)
  {
    if x > 0 {
      MulMonotone(na + 1, p, x);
      if t >= x {
        MulMonotone(x, t, p);
        assert false;
      }
    } else if t > 0 {
      MulMonotone(1, t, p);
      assert false;
    }
  }

  // ---------------------------------------------------------------------------
  // mul_vector

  /** The rows of `mul_vector(a, b)` applied to the result words from word i
      on, where `res` holds those words and row i reads a[i] = a[0]: the
      window res[..|b|] takes the multiply-add of a[0] * b, then
      `res[|b|] += lo(carry)` with 32-bit wrap-around; word 0 is then final
      and the remaining rows work from the next word. The words at and above
      |b| are still zero when a row starts. */
  function MulRows(res: seq<Word>, a: seq<Word>, b: seq<Word>): (r: seq<Word>)
    requires |res| == |a| + |b| + 1
    requires forall k :: |b| <= k < |res| ==> res[k] == 0
    ensures |r| == |res|
    ensures Nat(r) == Nat(res) + Nat(a) * Nat(b)
    decreases |a|
  {
    if |a| == 0 then
      res
    else
      var n := |b|;
      var row := MulRow(res[..n], a[0], b, 0);
      var next := row.words + [Lo(res[n] + Lo(row.carry))] + res[n + 1..];
      RowWriteValue(res, row.words, row.carry, n, next);
      var rest := MulRows(next[1..], a[1..], b);
      var r := [next[0]] + rest;
      assert r[1..] == rest;
      RowsStep(next[0], Nat(next[1..]), Nat(rest), a[0], Nat(a[1..]), Nat(b), Nat(res[..n]), Nat(res), Nat(r), Nat(a));
      r
  }

  /** Writing a row back: the window's value is replaced by the row's, and
      the zero words above it contribute nothing. */
  lemma RowWriteValue(res: seq<Word>, words: seq<Word>, carry: Word, n: nat, next: seq<Word>)
    requires |words| == n && n < |res|
    requires forall k :: n <= k < |res| ==> res[k] == 0
    requires next == words + [Lo(res[n] + Lo(carry))] + res[n + 1..]
    ensures |next| == |res| && Nat(next) == Nat(words) + carry * Pow(n)
    ensures Nat(res) == Nat(res[..n])
    ensures forall k :: n < k < |next| ==> next[k] == 0
  {
    var tail := res[n + 1..];
    assert res[n] == 0;
    assert Lo(res[n] + Lo(carry)) == carry;
    assert next == (words + [carry]) + tail;
    NatZeroTail(words + [carry], tail);
    NatAppendN(words, carry, n);
    assert res == res[..n] + res[n..];
    NatZeroTail(res[..n], res[n..]);
  }

  /** Zero words on top add nothing. */
  lemma NatZeroTail(s: seq<Word>, t: seq<Word>)
    requires forall k :: 0 <= k < |t| ==> t[k] == 0
    ensures Nat(s + t) == Nat(s)
  {
    NatAllZero(t);
    NatConcat(s, t);
    ZeroProduct(Pow(|s|), Nat(t));
  }

  lemma ZeroProduct(p: int, z: int)
    requires z == 0
    ensures p * z == 0
  {
  }

  lemma NatAppendN(s: seq<Word>, w: Word, n: nat)
    requires |s| == n
    ensures Nat(s + [w]) == Nat(s) + w * Pow(n)
  {
    NatAppend(s, w);
  }

  /** Zero words have value zero. */
  lemma {:induction false} NatAllZero(s: seq<Word>)
    requires forall k :: 0 <= k < |s| ==> s[k] == 0
    ensures Nat(s) == 0
  {
    if |s| > 0 {
      NatAllZero(s[1..]);
    }
  }

  /** Peeling the final word of a row off the accumulated product. */
  lemma RowsStep(n0: int, nn: int, nrest: int, a0: int, na: int, nb: int, nlow: int, nres: int, nr: int, nas: int)
    requires nrest == nn + na * nb
    requires n0 + BASE * nn == nlow + a0 * nb
    requires nres == nlow && nr == n0 + BASE * nrest && nas == a0 + BASE * na
    ensures nr == nres + nas * nb
  {
    assert (a0 + BASE * na) * nb == a0 * nb + BASE * (na * nb);
  }

  /** `mul_vector(a, b)`: |a|+|b|+1 words holding a * b; the top word stays zero. */
  function MulVector(a: seq<Word>, b: seq<Word>): (r: seq<Word>)
    ensures |r| == |a| + |b| + 1
    ensures Nat(r) == Nat(a) * Nat(b)
  {
    NatZeros(|a| + |b| + 1);
    MulRows(Zeros(|a| + |b| + 1), a, b)
  }

  /** The top word of `mul_vector` is zero: the product of an |a|-word and a
      |b|-word number fits |a|+|b| words. */
  lemma MulVectorTop(a: seq<Word>, b: seq<Word>)
    ensures MulVector(a, b)[|a| + |b|] == 0
  {
    var r := MulVector(a, b);
    var t: nat := r[|a| + |b|];
    assert |r| - 1 == |a| + |b|;
    NatTopLower(r, t);
    NatBound(a);
    NatBound(b);
    PowAdd(|a|, |b|);
    ProductBelow(Nat(a), Nat(b), Pow(|a|), Pow(|b|), Pow(|a| + |b|), t, Nat(r));
  }

  lemma ProductBelow(x: nat, y: nat, p: int, q: int, pq: int, t: nat, nr: int)
    requires x < p && y < q && pq == p * q && nr == x * y && nr >= t * pq
    ensures t == 0
  {
    MulMonotone(x, p, y);
    MulMonotone(y, q, p);
    if t > 0 {
      MulMonotone(1, t, pq);
    }
  }

  // ---------------------------------------------------------------------------
  // correct() and operator*

  /** `correct`: a number whose words hold a magnitude is turned into two's
      complement. A non-negative number is left as it is and a negative one
      with no words becomes zero; otherwise the words are complemented and
      incremented, `lo(carry + 0xffffffff)` is pushed as the new top word,
      and `delete_zero` runs. An all-zero magnitude therefore comes out as
      -BASE^(len+1) rather than zero. */
  function Correct(x: BigInt): (r: BigInt)
    ensures !x.sign ==> r == x
    ensures x.sign && |x.words| == 0 ==> r == Zero()
    ensures x.sign && |x.words| > 0 ==> Canonical(r)
    ensures x.sign && |x.words| > 0 ==>
      Value(r) == if Nat(x.words) == 0 then -Pow(|x.words| + 1) else -(Nat(x.words) as int)
  {
    if !x.sign then
      x
    else if |x.words| == 0 then
      BigInt(false, [])
    else
      var sum := AddCarry(ComplementAll(x.words), 1);
      var ws := sum.words + [Lo(sum.carry + MAX_WORD)];
      CorrectValue(x.words, sum, |x.words|, ws);
      DeleteZero(BigInt(true, ws))
  }

  lemma CorrectValue(mag: seq<Word>, sum: Carried, n: nat, ws: seq<Word>)
    requires |mag| == n && n > 0
    requires sum == AddCarry(ComplementAll(mag), 1)
    requires ws == sum.words + [Lo(sum.carry + MAX_WORD)]
    ensures Value(BigInt(true, ws)) == if Nat(mag) == 0 then -Pow(n + 1) else -(Nat(mag) as int)
  {
    var p := Pow(n);
    var m := Nat(mag);
    var ns := Nat(sum.words);
    assert ns + sum.carry * p == p - m by {
      assert |ComplementAll(mag)| == n;
      NatComplement(mag);
    }
    assert 0 <= ns < p by {
      assert |sum.words| == n;
      NatBound(sum.words);
    }
    assert m < p by {
      NatBound(mag);
    }
    var top := Lo(sum.carry + MAX_WORD);
    assert Nat(ws) == ns + top * p by {
      assert |sum.words| == n;
      NatAppendN(sum.words, top, n);
    }
    assert |ws| == n + 1;
    CorrectAlgebra(ns, sum.carry, p, m, top, Nat(ws), Pow(n + 1));
  }

  lemma CorrectAlgebra(ns: int, c: int, p: int, m: int, top: int, nw: int, pn: int)
    requires 0 <= ns < p && 0 <= m < p && 0 <= c <= 1
    requires ns + c * p == p - m
    requires top == (if c == 0 then MAX_WORD else 0)
    requires nw == ns + top * p && pn == BASE * p
    ensures nw - pn == if m == 0 then -pn else -m
  {
    MulFlag(c, p);
  }

  /** `big_integer(sign, magnitude)` followed by `correct()`, the way
      `operator*` and `operator/` build their results: the constructor's
      `delete_zero` drops top words equal to the fill word of `sign` before
      `correct` reads the words as a magnitude. When the magnitude's top
      word is not 0xffffffff the result is the signed magnitude, except that
      a negative all-zero magnitude of len words comes out as -BASE^(len+1). */
  function FromMagnitudeAsWritten(sign: bool, mag: seq<Word>): (r: BigInt)
    ensures Canonical(r)
    ensures !sign ==> Value(r) == Nat(mag)
    ensures sign && (|mag| == 0 || mag[|mag| - 1] != MAX_WORD) ==>
      Value(r) == (if |mag| > 0 && Nat(mag) == 0 then -Pow(|mag| + 1) else -(Nat(mag) as int))
    ensures sign && Nat(mag) == Pow(|mag|) - 1 ==> r == Zero()
  {
    var x := Make(sign, mag);
    assert sign && (|mag| == 0 || mag[|mag| - 1] != MAX_WORD) ==> x == BigInt(sign, mag);
    AllOnesTrimmed(sign, mag, x);
    Correct(x)
  }

  /** A negative magnitude made of 0xffffffff words only is trimmed to
      nothing: it reads as -1. */
  lemma {:induction false} AllOnesTrimmed(sign: bool, mag: seq<Word>, x: BigInt)
    requires x == Make(sign, mag)
    ensures sign && Nat(mag) == Pow(|mag|) - 1 ==> x == BigInt(true, [])
  {
    if sign && Nat(mag) == Pow(|mag|) - 1 {
      assert Value(BigInt(true, [])) == -1;
      CanonicalUnique(x, BigInt(true, []));
    }
  }

  /** The reading of a sign and a magnitude that `operator/` evidently
      intends: the magnitude, negated when the sign is set. */
  function FromMagnitude(sign: bool, mag: seq<Word>): (r: BigInt)
    ensures Canonical(r) && Value(r) == if sign then -(Nat(mag) as int) else Nat(mag)
  {
    var m := Make(false, mag);
    if sign then Negate(m) else m
  }

  /** A canonical number other than zero has a non-zero value. */
  lemma NonZeroValue(x: BigInt)
    requires Canonical(x) && !IsZero(x)
    ensures Value(x) != 0
  {
    ValueRange(x);
    if !x.sign {
      CanonicalLength(x);
    }
  }

  /** `operator*`: zero when either operand is zero; otherwise the absolute
      values are multiplied, shorter first, with `mul_big_small` when the
      shorter one has a single word and `mul_vector` otherwise, and the sign
      `a.sign ^ b.sign` is applied through `big_integer(sign, magnitude)` and
      `correct()`. */
  function Mul(a: BigInt, b: BigInt): (r: BigInt)
    requires Canonical(a) && Canonical(b)
    ensures Canonical(r) && Value(r) == Value(a) * Value(b)
  {
    if IsZero(a) || IsZero(b) then
      MulZero(a, b);
      FromInt(0)
    else
      var ap := Abs(a);
      var bp := Abs(b);
      var swap := |ap.words| > |bp.words|;
      var s := if swap then bp.words else ap.words;
      var l := if swap then ap.words else bp.words;
      var temp := if |s| == 1 then MulSmall(l, s[0]) else MulVector(s, l);
      MulMagnitude(a, b, ap.words, bp.words, swap, s, l, temp);
      SignedMagnitude(a.sign != b.sign, temp, Value(a) * Value(b));
      FromMagnitudeAsWritten(a.sign != b.sign, temp)
  }

  lemma MulZero(a: BigInt, b: BigInt)
    requires IsZero(a) || IsZero(b)
    ensures Value(a) * Value(b) == 0
  {
  }

  /** The magnitude `operator*` computes is the product of the absolute
      values, is not zero, and its top word is not 0xffffffff, so `correct`
      turns it into the signed product. */
  lemma {:induction false} MulMagnitude(a: BigInt, b: BigInt, pa: seq<Word>, pb: seq<Word>, swap: bool,
                                        s: seq<Word>, l: seq<Word>, temp: seq<Word>)
    requires Canonical(a) && Canonical(b) && !IsZero(a) && !IsZero(b)
    requires pa == Abs(a).words && pb == Abs(b).words
    requires swap == (|pa| > |pb|)
    requires s == (if swap then pb else pa) && l == (if swap then pa else pb)
    requires temp == if |s| == 1 then MulSmall(l, s[0]) else MulVector(s, l)
    ensures |temp| > 0 && temp[|temp| - 1] != MAX_WORD && Nat(temp) > 0
    ensures (if a.sign != b.sign then -(Nat(temp) as int) else Nat(temp)) == Value(a) * Value(b)
  {
    AbsWords(a, pa);
    AbsWords(b, pb);
    ProductWords(s, l, temp);
    SwapProduct(Nat(s), Nat(l), Nat(pa), Nat(pb));
    SignedProduct(Value(a), Value(b), a.sign, b.sign, Nat(pa), Nat(pb), Nat(temp));
  }

  /** A non-zero magnitude whose top word is not 0xffffffff survives
      `big_integer(sign, magnitude)` and `correct()` intact. */
  lemma SignedMagnitude(sign: bool, mag: seq<Word>, v: int)
    requires |mag| > 0 && mag[|mag| - 1] != MAX_WORD && Nat(mag) > 0
    requires v == if sign then -(Nat(mag) as int) else Nat(mag)
    ensures Canonical(FromMagnitudeAsWritten(sign, mag))
    ensures Value(FromMagnitudeAsWritten(sign, mag)) == v
  {
  }

  /** What `operator*` needs of `abs()`. */
  lemma {:induction false} AbsWords(x: BigInt, p: seq<Word>)
    requires Canonical(x) && !IsZero(x) && p == Abs(x).words
    ensures |p| > 0 && Value(x) != 0
    ensures x.sign <==> Value(x) < 0
    ensures Nat(p) == if Value(x) < 0 then -Value(x) else Value(x)
  {
    NonZeroValue(x);
    ValueRange(x);
    assert Value(Abs(x)) == Nat(p);
  }

  lemma SwapProduct(m: int, n: int, x: int, y: int)
    requires (m == x && n == y) || (m == y && n == x)
    ensures m * n == x * y
  {
  }

  lemma ProductWords(s: seq<Word>, l: seq<Word>, temp: seq<Word>)
    requires 0 < |s| <= |l|
    requires temp == if |s| == 1 then MulSmall(l, s[0]) else MulVector(s, l)
    ensures |temp| > 0 && temp[|temp| - 1] != MAX_WORD
    ensures Nat(temp) == Nat(s) * Nat(l)
  {
    if |s| == 1 {
      ProductSmall(s, l, temp);
    } else {
      ProductVector(s, l, temp);
    }
  }

  lemma {:induction false} ProductSmall(s: seq<Word>, l: seq<Word>, temp: seq<Word>)
    requires |s| == 1 && temp == MulSmall(l, s[0])
    ensures |temp| > 0 && temp[|temp| - 1] != MAX_WORD
    ensures Nat(temp) == Nat(s) * Nat(l)
  {
    assert s == [s[0]];
    NatSingle(s[0]);
    assert |temp| - 1 == |l|;
    MulSmallTop(l, s[0]);
  }

  lemma {:induction false} ProductVector(s: seq<Word>, l: seq<Word>, temp: seq<Word>)
    requires temp == MulVector(s, l)
    ensures |temp| > 0 && temp[|temp| - 1] != MAX_WORD
    ensures Nat(temp) == Nat(s) * Nat(l)
  {
    assert |temp| - 1 == |s| + |l|;
    MulVectorTop(s, l);
  }

  lemma SignedProduct(va: int, vb: int, sa: bool, sb: bool, na: int, nb: int, m: int)
    requires sa <==> va < 0
    requires sb <==> vb < 0
    requires va != 0 && vb != 0
    requires na == (if va < 0 then -va else va) && nb == (if vb < 0 then -vb else vb)
    requires m == na * nb
    ensures m > 0
    ensures (if sa != sb then -m else m) == va * vb
  {
    if va < 0 && vb < 0 {
      assert m == va * vb;
    } else if va < 0 {
      assert m == -(va * vb);
    } else if vb < 0 {
      assert m == -(va * vb);
    }
    MulMonotone(1, na, nb);
  }
}
