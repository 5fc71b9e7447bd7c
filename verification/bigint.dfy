/** The signed integer core of `big_integer`: representation, canonical
    form, constructors, negation, addition, subtraction and the bitwise
    operators.

    A `big_integer` is a sign flag plus a buffer of words. Its value is the
    buffer read as a little-endian number, minus BASE^len when the sign is
    set: infinite sign-extended two's complement, where every word past the
    stored length reads as the fill word (0 or 0xffffffff).
 */
module BigInts {
  import opened Words

  datatype BigInt = BigInt(sign: bool, words: seq<Word>)

  /** The word every position past the stored length reads as. */
  function Fill(sign: bool): Word
  {
    if sign then MAX_WORD else 0
  }

  /** `get_digit`: the extended read of word i. */
  function Digit(x: BigInt, i: nat): Word
  {
    if i < |x.words| then x.words[i] else Fill(x.sign)
  }

  /** The first n extended words. */
  function Digits(x: BigInt, n: nat): seq<Word>
  {
    seq(n, i requires 0 <= i < n => Digit(x, i))
  }

  /** The integer a `big_integer` stands for. */
  function Value(x: BigInt): int
  {
    Nat(x.words) - (if x.sign then Pow(|x.words|) else 0)
  }

  /** No stored top word equals the fill word (what `delete_zero` establishes). */
  predicate Canonical(x: BigInt)
  {
    |x.words| == 0 || x.words[|x.words| - 1] != Fill(x.sign)
  }

  /** `is_zero`. */
  predicate IsZero(x: BigInt)
  {
    !x.sign && |x.words| == 0
  }

  // ---------------------------------------------------------------------------
  // Value facts

  /** A non-negative number lies in [0, BASE^len), a negative one in [-BASE^len, 0). */
  lemma ValueRange(x: BigInt)
    ensures !x.sign ==> 0 <= Value(x) < Pow(|x.words|)
    ensures x.sign ==> -Pow(|x.words|) <= Value(x) < 0
  {
    NatBound(x.words);
  }

  /** Dropping a top word that equals the fill word keeps the value. */
  lemma ValueDropFill(x: BigInt)
    requires |x.words| > 0 && x.words[|x.words| - 1] == Fill(x.sign)
    ensures Value(BigInt(x.sign, x.words[..|x.words| - 1])) == Value(x)
  {
    var n := |x.words|;
    NatLast(x.words);
    assert Pow(n) == BASE * Pow(n - 1);
  }

  /** Reading past the stored length adds only fill words, which the sign cancels. */
  lemma ValueExtended(x: BigInt, n: nat)
    requires n >= |x.words|
    ensures Nat(Digits(x, n)) == Value(x) + (if x.sign then Pow(n) else 0)
  {
    var len := |x.words|;
    var fill := Repeat(Fill(x.sign), n - len);
    DigitsConcat(x, n);
    NatConcat(x.words, fill);
    if x.sign {
      NatRepeatMax(n - len);
      PowAdd(len, n - len);
      ExtendAlgebra(Nat(x.words + fill), Nat(x.words), Pow(len), Nat(fill), Pow(n - len), Pow(len + (n - len)));
    } else {
      assert fill == Zeros(n - len);
      NatZeros(n - len);
    }
  }

  /** `get_digit(i)` is word i of the infinite two's-complement expansion
      of the value: ⌊value / BASE^i⌋ mod BASE, for every i, past the stored
      length included. */
  lemma {:induction false} DigitValue(x: BigInt, i: nat)
    ensures Digit(x, i) == (Value(x) / Pow(i)) % BASE
  {
    var n := |x.words| + i + 1;
    var ds := Digits(x, n);
    ValueExtended(x, n);
    NatSplit(ds, i);
    assert ds[i..][1..] == ds[i + 1..];
    NatBound(ds[..i]);
    PowAdd(i, n - i);
    DigitSplit(Value(x), Nat(ds[..i]), Pow(i), ds[i], Nat(ds[i + 1..]), Pow(n - i - 1), x.sign);
  }

  /** The arithmetic of DigitValue: v is a low part below p, then the digit
      d at weight p, then whole multiples of BASE * p. */
  lemma DigitSplit(v: int, low: int, p: int, d: int, rest: int, q: int, sign: bool)
    requires p > 0 && 0 <= low < p && 0 <= d < BASE
    requires v == low + p * (d + BASE * rest) - (if sign then p * (BASE * q) else 0)
    ensures (v / p) % BASE == d
  {
    var k := rest - (if sign then q else 0);
    assert v == low + p * (d + BASE * k);
    SplitDiv(v, p, low, d + BASE * k);
    DivModUnique(d + BASE * k, BASE, k, d);
  }

  /** The extended read is the stored words followed by fill words. */
  lemma DigitsConcat(x: BigInt, n: nat)
    requires n >= |x.words|
    ensures Digits(x, n) == x.words + Repeat(Fill(x.sign), n - |x.words|)
  {
    var fill := Repeat(Fill(x.sign), n - |x.words|);
    forall i | 0 <= i < n
      ensures Digits(x, n)[i] == (x.words + fill)[i]
    {
    }
  }

  lemma ExtendAlgebra(nd: int, nw: int, p: int, nf: int, pk: int, pn: int)
    requires nd == nw + p * nf && nf == pk - 1 && pn == p * pk
    ensures nd == (nw - p) + pn
  {
  }

  /** The value of a word sequence whose sign is its top bit: when the
      sequence agrees with v modulo BASE^len and v lies in the half range,
      the top bit decides the sign and the value is exactly v. */
  lemma TwosValue(ws: seq<Word>, v: int)
    requires |ws| > 0
    requires Nat(ws) == v - Pow(|ws|) || Nat(ws) == v || Nat(ws) == v + Pow(|ws|) || Nat(ws) == v + 2 * Pow(|ws|)
    requires -(TOP_BIT * Pow(|ws| - 1)) <= v < TOP_BIT * Pow(|ws| - 1)
    ensures Value(BigInt(ws[|ws| - 1] >= TOP_BIT, ws)) == v
  {
    var n := |ws|;
    assert Pow(n) == 2 * (TOP_BIT * Pow(n - 1));
    NatBound(ws);
    if ws[n - 1] >= TOP_BIT {
      NatTopLower(ws, TOP_BIT);
    } else {
      NatTopBound(ws, TOP_BIT);
    }
  }

  lemma FromTwosValue(ws: seq<Word>, v: int, n: nat)
    requires |ws| == n && n > 0
    requires Nat(ws) == v - Pow(n) || Nat(ws) == v || Nat(ws) == v + Pow(n) || Nat(ws) == v + 2 * Pow(n)
    requires -(TOP_BIT * Pow(n - 1)) <= v < TOP_BIT * Pow(n - 1)
    ensures Canonical(FromTwos(ws)) && Value(FromTwos(ws)) == v
  {
    TwosValue(ws, v);
  }

  /** Canonical representations of one value coincide. */
  lemma CanonicalUnique(x: BigInt, y: BigInt)
    requires Canonical(x) && Canonical(y)
    requires Value(x) == Value(y)
    ensures x == y
  {
    ValueRange(x);
    ValueRange(y);
    assert x.sign == y.sign;
    if |x.words| > 0 {
      CanonicalLength(x);
    }
    if |y.words| > 0 {
      CanonicalLength(y);
    }
    if |x.words| < |y.words| {
      PowMonotone(|x.words|, |y.words| - 1);
      assert false;
    } else if |y.words| < |x.words| {
      PowMonotone(|y.words|, |x.words| - 1);
      assert false;
    }
    NatInjective(x.words, y.words);
  }

  /** The stored length of a canonical number is fixed by its magnitude. */
  lemma CanonicalLength(x: BigInt)
    requires Canonical(x) && |x.words| > 0
    ensures !x.sign ==> Value(x) >= Pow(|x.words| - 1)
    ensures x.sign ==> Value(x) < -Pow(|x.words| - 1)
  {
    var n := |x.words|;
    if x.sign {
      NatTopBound(x.words, MAX_WORD);
      assert Pow(n) == BASE * Pow(n - 1);
    } else {
      NatTopLower(x.words, 1);
    }
  }

  lemma {:induction false} NatInjective(a: seq<Word>, b: seq<Word>)
    requires |a| == |b| && Nat(a) == Nat(b)
    ensures a == b
  {
    if |a| > 0 {
      WordSplitUnique(a[0], Nat(a[1..]), b[0], Nat(b[1..]));
      NatInjective(a[1..], b[1..]);
      assert a == [a[0]] + a[1..];
      assert b == [b[0]] + b[1..];
    }
  }

  // ---------------------------------------------------------------------------
  // Canonical form and construction

  /** `delete_zero`: pop top words equal to the fill word. */
  function DeleteZero(x: BigInt): (r: BigInt)
    ensures Canonical(r)
    ensures r.sign == x.sign && |r.words| <= |x.words| && r.words == x.words[..|r.words|]
    ensures Value(r) == Value(x)
    ensures forall i: nat :: Digit(r, i) == Digit(x, i)
    decreases |x.words|
  {
    if |x.words| > 0 && x.words[|x.words| - 1] == Fill(x.sign) then
      ValueDropFill(x);
      DeleteZero(BigInt(x.sign, x.words[..|x.words| - 1]))
    else
      x
  }

  /** `big_integer(bool, fast_vector const&)`, and the copy constructor: store, then `delete_zero`. */
  function Make(sign: bool, words: seq<Word>): (r: BigInt)
    ensures Canonical(r) && r.sign == sign && Value(r) == Value(BigInt(sign, words))
    ensures |r.words| <= |words| && r.words == words[..|r.words|]
  {
    DeleteZero(BigInt(sign, words))
  }

  /** `big_integer()`. */
  function Zero(): (r: BigInt)
    ensures IsZero(r) && Canonical(r) && Value(r) == 0
  {
    BigInt(false, [])
  }

  /** `big_integer(int)`: the low word of the two's-complement form, sign from the argument. */
  function FromInt(a: int): (r: BigInt)
    requires -0x8000_0000 <= a < 0x8000_0000
    ensures Canonical(r) && Value(r) == a
  {
    NatSingle(a % BASE);
    Make(a < 0, [a % BASE])
  }

  /** `big_integer(uint32_t)`. */
  function FromUint32(a: Word): (r: BigInt)
    ensures Canonical(r) && Value(r) == a
  {
    NatSingle(a);
    Make(false, [a])
  }

  /** `big_integer(uint64_t)`: two words, low first. */
  function FromUint64(a: nat): (r: BigInt)
    requires a < 0x1_0000_0000_0000_0000
    ensures Canonical(r) && Value(r) == a
  {
    assert Nat([Lo(a), Lo(Hi(a))]) == a by {
      assert [Lo(a), Lo(Hi(a))][1..] == [Lo(Hi(a))];
      NatSingle(Lo(Hi(a)));
      assert Lo(Hi(a)) == Hi(a);
    }
    Make(false, [Lo(a), Lo(Hi(a))])
  }

  /** The result of a guard-word loop: the words, sign taken from bit 31 of the top word. */
  function FromTwos(ws: seq<Word>): BigInt
    requires |ws| > 0
  {
    Make(ws[|ws| - 1] >= TOP_BIT, ws)
  }

  // ---------------------------------------------------------------------------
  // Carry chains

  datatype Carried = Carried(words: seq<Word>, carry: nat)

  /** The carry loop of `operator+` and `operator-`: word i is the low word of
      carry + x[i] + y[i], the carry is its high word. */
  function AddWords(x: seq<Word>, y: seq<Word>, carry: nat): (r: Carried)
    requires |x| == |y| && carry <= 1
    ensures |r.words| == |x| && r.carry <= 1
    ensures Nat(r.words) + r.carry * Pow(|x|) == Nat(x) + Nat(y) + carry
    decreases |x|
  {
    if |x| == 0 then
      Carried([], carry)
    else
      var sum := carry + x[0] + y[0];
      var rest := AddWords(x[1..], y[1..], Hi(sum));
      var r := Carried([Lo(sum)] + rest.words, rest.carry);
      assert r.words[1..] == rest.words;
      CarryStep(Lo(sum), Hi(sum), Nat(rest.words), rest.carry, Pow(|x| - 1), Pow(|x|),
                x[0] + y[0] + carry, Nat(x[1..]) + Nat(y[1..]));
      r
  }

  /** One step of a carry chain: the low word plus the rest shifted up by a word. */
  lemma CarryStep(lo: int, hi: int, nr: int, rc: int, pm: int, pn: int, low: int, high: int)
    requires lo + BASE * hi == low
    requires nr + rc * pm == high + hi
    requires pn == BASE * pm
    ensures (lo + BASE * nr) + rc * pn == low + BASE * high
  {
    assert rc * pn == BASE * (rc * pm);
  }

  /** The carry loop of `negate` and `correct`: word i is the low word of carry + x[i]. */
  function AddCarry(x: seq<Word>, carry: nat): (r: Carried)
    requires carry <= 1
    ensures |r.words| == |x| && r.carry <= 1
    ensures Nat(r.words) + r.carry * Pow(|x|) == Nat(x) + carry
    decreases |x|
  {
    if |x| == 0 then
      Carried([], carry)
    else
      var sum := carry + x[0];
      var rest := AddCarry(x[1..], Hi(sum));
      var r := Carried([Lo(sum)] + rest.words, rest.carry);
      assert r.words[1..] == rest.words;
      CarryStep(Lo(sum), Hi(sum), Nat(rest.words), rest.carry, Pow(|x| - 1), Pow(|x|),
                x[0] + carry, Nat(x[1..]));
      r
  }

  // ---------------------------------------------------------------------------
  // Negation, addition, subtraction

  /** `negate` / unary `-`: complement the words and add one over len+2 guard words. */
  function Negate(x: BigInt): (r: BigInt)
    ensures Canonical(r)
    ensures Value(r) == -Value(x)
  {
    if IsZero(x) then
      x
    else if |x.words| == 0 then
      FromUint32(1)
    else
      var n := |x.words| + 2;
      var d := Digits(x, n);
      var sum := AddCarry(ComplementAll(d), 1);
      NegateValue(x, n, sum);
      FromTwos(sum.words)
  }

  lemma NegateValue(x: BigInt, n: nat, sum: Carried)
    requires n == |x.words| + 2
    requires sum == AddCarry(ComplementAll(Digits(x, n)), 1)
    ensures Value(FromTwos(sum.words)) == -Value(x)
  {
    var p := Pow(n);
    var v := -Value(x);
    var t := Nat(sum.words);
    assert t == v - p || t == v || t == v + p || t == v + 2 * p by {
      var d := Digits(x, n);
      assert |d| == n && |ComplementAll(d)| == n;
      ValueExtended(x, n);
      NatComplement(d);
      TwosCases(t, sum.carry, p, v, p - (if x.sign then p else 0), 0);
    }
    assert -(TOP_BIT * Pow(n - 1)) <= -Value(x) < TOP_BIT * Pow(n - 1) by {
      ValueRange(x);
      HalfRange(|x.words|, n);
    }
    FromTwosValue(sum.words, -Value(x), n);
  }

  /** BASE^len is well inside the half range of len+2 words. */
  lemma HalfRange(len: nat, n: nat)
    requires n >= len + 2
    ensures 2 * Pow(len) <= TOP_BIT * Pow(n - 1)
  {
    PowMonotone(len + 1, n - 1);
    assert Pow(len + 1) == BASE * Pow(len);
  }

  /** `operator+`: word-wise extended-read addition over max+2 words. */
  function Add(a: BigInt, b: BigInt): (r: BigInt)
    ensures Canonical(r)
    ensures Value(r) == Value(a) + Value(b)
  {
    var n := Max(|a.words|, |b.words|) + 2;
    var sum := AddWords(Digits(a, n), Digits(b, n), 0);
    AddValue(a, b, n, sum);
    FromTwos(sum.words)
  }

  lemma AddValue(a: BigInt, b: BigInt, n: nat, sum: Carried)
    requires n == Max(|a.words|, |b.words|) + 2
    requires sum == AddWords(Digits(a, n), Digits(b, n), 0)
    ensures Value(FromTwos(sum.words)) == Value(a) + Value(b)
  {
    var p := Pow(n);
    var v := Value(a) + Value(b);
    var t := Nat(sum.words);
    assert t == v - p || t == v || t == v + p || t == v + 2 * p by {
      assert |Digits(a, n)| == n;
      ValueExtended(a, n);
      ValueExtended(b, n);
      TwosCases(t, sum.carry, p, v, if a.sign then p else 0, if b.sign then p else 0);
    }
    SumRange(a, b, n);
    FromTwosValue(sum.words, Value(a) + Value(b), n);
  }

  /** A carry-chain result that differs from v by at most two wraps. */
  lemma TwosCases(t: int, c: int, p: int, v: int, fa: int, fb: int)
    requires 0 <= c <= 1 && (fa == 0 || fa == p) && (fb == 0 || fb == p)
    requires t + c * p == v + fa + fb
    ensures t == v - p || t == v || t == v + p || t == v + 2 * p
  {
    MulFlag(c, p);
  }

  /** Sums and differences of two numbers lie in the half range of max+2 words. */
  lemma SumRange(a: BigInt, b: BigInt, n: nat)
    requires n >= Max(|a.words|, |b.words|) + 2
    ensures -(TOP_BIT * Pow(n - 1)) <= Value(a) + Value(b) < TOP_BIT * Pow(n - 1)
    ensures -(TOP_BIT * Pow(n - 1)) <= Value(a) - Value(b) < TOP_BIT * Pow(n - 1)
  {
    var m := Max(|a.words|, |b.words|);
    ValueRange(a);
    ValueRange(b);
    PowMonotone(|a.words|, m);
    PowMonotone(|b.words|, m);
    HalfRange(m, n);
  }

  /** `operator-`: a + ~b + 1 over max+3 words. */
  function Sub(a: BigInt, b: BigInt): (r: BigInt)
    ensures Canonical(r)
    ensures Value(r) == Value(a) - Value(b)
  {
    var n := Max(|a.words|, |b.words|) + 3;
    var sum := AddWords(Digits(a, n), ComplementAll(Digits(b, n)), 1);
    SubValue(a, b, n, sum);
    FromTwos(sum.words)
  }

  lemma SubValue(a: BigInt, b: BigInt, n: nat, sum: Carried)
    requires n == Max(|a.words|, |b.words|) + 3
    requires sum == AddWords(Digits(a, n), ComplementAll(Digits(b, n)), 1)
    ensures Value(FromTwos(sum.words)) == Value(a) - Value(b)
  {
    var p := Pow(n);
    var v := Value(a) - Value(b);
    var t := Nat(sum.words);
    assert t == v - p || t == v || t == v + p || t == v + 2 * p by {
      var db := Digits(b, n);
      assert |Digits(a, n)| == n && |db| == n;
      ValueExtended(a, n);
      ValueExtended(b, n);
      NatComplement(db);
      TwosCases(t, sum.carry, p, v, if a.sign then p else 0, p - (if b.sign then p else 0));
    }
    SumRange(a, b, n);
    FromTwosValue(sum.words, Value(a) - Value(b), n);
  }

  /** `operator~`: the negation minus one. */
  function Not(x: BigInt): (r: BigInt)
    ensures Canonical(r)
    ensures Value(r) == -Value(x) - 1
  {
    Sub(Negate(x), FromInt(1))
  }

  /** `abs`: the negation of a negative number, a copy of the others. */
  function Abs(x: BigInt): (r: BigInt)
    ensures Canonical(r) && !r.sign
    ensures Value(r) == if Value(x) < 0 then -Value(x) else Value(x)
  {
    ValueRange(x);
    var r := if x.sign then Negate(x) else Make(x.sign, x.words);
    ValueRange(r);
    r
  }

  // ---------------------------------------------------------------------------
  // Bitwise operators

  /** `operator&`, `operator|`, `operator^`: the operator on the extended
      reads of both operands out to the longer length; the sign is the
      operator on the two signs. */
  function Bitwise(op: BitOp, a: BigInt, b: BigInt): (r: BigInt)
    ensures Canonical(r)
    ensures r.sign == ApplyBool(op, a.sign, b.sign)
    ensures forall i: nat :: Digit(r, i) == ApplyWord(op, Digit(a, i), Digit(b, i))
  {
    var n := Max(|a.words|, |b.words|);
    var ws := seq(n, i requires 0 <= i < n => ApplyWord(op, Digit(a, i), Digit(b, i)));
    BitwiseDigits(op, a, b, ws);
    Make(ApplyBool(op, a.sign, b.sign), ws)
  }

  lemma BitwiseDigits(op: BitOp, a: BigInt, b: BigInt, ws: seq<Word>)
    requires |ws| == Max(|a.words|, |b.words|)
    requires forall i :: 0 <= i < |ws| ==> ws[i] == ApplyWord(op, Digit(a, i), Digit(b, i))
    ensures forall i: nat :: Digit(BigInt(ApplyBool(op, a.sign, b.sign), ws), i) == ApplyWord(op, Digit(a, i), Digit(b, i))
  {
    ApplyWordFill(op, a.sign, b.sign);
  }

  /** Two canonical numbers with the same sign and the same extended
      reads are the same number. */
  lemma DigitsDetermine(x: BigInt, y: BigInt)
    requires Canonical(x) && Canonical(y) && x.sign == y.sign
    requires forall i: nat :: Digit(x, i) == Digit(y, i)
    ensures x == y
  {
    var n := Max(|x.words|, |y.words|);
    if n > 0 {
      assert Digit(x, n - 1) == Digit(y, n - 1);
    }
    assert |x.words| == |y.words|;
    assert forall i | 0 <= i < |x.words| :: x.words[i] == Digit(x, i) == Digit(y, i) == y.words[i];
  }

  /** `operator~` complements every extended word and the sign. */
  lemma NotDigits(x: BigInt)
    ensures Not(x).sign == !x.sign
    ensures forall i: nat :: Digit(Not(x), i) == Complement(Digit(x, i))
  {
    NotAsComplement(x);
    ComplementDigits(x);
  }

  lemma NotAsComplement(x: BigInt)
    ensures Not(x) == DeleteZero(BigInt(!x.sign, ComplementAll(x.words)))
  {
    var c := BigInt(!x.sign, ComplementAll(x.words));
    assert Value(c) == -Value(x) - 1 by {
      NatComplement(x.words);
    }
    CanonicalUnique(Not(x), DeleteZero(c));
  }

  lemma ComplementDigits(x: BigInt)
    ensures forall i: nat :: Digit(BigInt(!x.sign, ComplementAll(x.words)), i) == Complement(Digit(x, i))
  {
  }

  /** De Morgan: ~(a | b) == ~a & ~b and ~(a & b) == ~a | ~b. */
  lemma DeMorgan(op: BitOp, a: BigInt, b: BigInt)
    requires op != XorOp
    ensures Not(Bitwise(if op == AndOp then OrOp else AndOp, a, b)) == Bitwise(op, Not(a), Not(b))
  {
    var dual := if op == AndOp then OrOp else AndOp;
    var l, r := Not(Bitwise(dual, a, b)), Bitwise(op, Not(a), Not(b));
    NotDigits(a);
    NotDigits(b);
    NotDigits(Bitwise(dual, a, b));
    forall i: nat
      ensures Digit(l, i) == Digit(r, i)
    {
      ApplyWordDeMorgan(op, Digit(a, i), Digit(b, i));
    }
    DigitsDetermine(l, r);
  }

  /** a & a == a, a | a == a, a ^ a == 0. */
  lemma BitwiseSelf(op: BitOp, a: BigInt)
    requires Canonical(a)
    ensures Bitwise(op, a, a) == if op == XorOp then Zero() else a
  {
    var r := Bitwise(op, a, a);
    var e := if op == XorOp then Zero() else a;
    forall i: nat
      ensures Digit(r, i) == Digit(e, i)
    {
      ApplyWordSelf(op, Digit(a, i));
    }
    DigitsDetermine(r, e);
  }

  /** The three operators are commutative. */
  lemma BitwiseCommutes(op: BitOp, a: BigInt, b: BigInt)
    ensures Bitwise(op, a, b) == Bitwise(op, b, a)
  {
    forall i: nat
      ensures Digit(Bitwise(op, a, b), i) == Digit(Bitwise(op, b, a), i)
    {
      ApplyWordCommutes(op, Digit(a, i), Digit(b, i));
    }
    DigitsDetermine(Bitwise(op, a, b), Bitwise(op, b, a));
  }

  // ---------------------------------------------------------------------------
  // Comparison

  /** The top-down scan of `operator>` and `compare_equal_vectors`: below
      index i, the first differing word from the top decides. */
  function TopDownLess(x: seq<Word>, y: seq<Word>, i: nat): (r: bool)
    requires i <= |x| && i <= |y|
    ensures r <==> Nat(x[..i]) < Nat(y[..i])
    decreases i
  {
    if i == 0 then
      false
    else if x[i - 1] != y[i - 1] then
      assert x[..i][i - 1] == x[i - 1] && y[..i][i - 1] == y[i - 1];
      if x[i - 1] < y[i - 1] then
        TopDownStep(x[..i], y[..i]);
        true
      else
        TopDownStep(y[..i], x[..i]);
        false
    else
      assert x[..i][..i - 1] == x[..i - 1] && y[..i][..i - 1] == y[..i - 1];
      TopDownSame(x[..i], y[..i]);
      TopDownLess(x, y, i - 1)
  }

  lemma TopDownStep(x: seq<Word>, y: seq<Word>)
    requires |x| == |y| > 0 && x[|x| - 1] < y[|y| - 1]
    ensures Nat(x) < Nat(y)
  {
    var n := |x|;
    var t: nat := x[n - 1];
    NatTopBound(x, t + 1);
    NatTopLower(y, t + 1);
  }

  lemma TopDownSame(x: seq<Word>, y: seq<Word>)
    requires |x| == |y| > 0 && x[|x| - 1] == y[|y| - 1]
    ensures Nat(x) < Nat(y) <==> Nat(x[..|x| - 1]) < Nat(y[..|y| - 1])
  {
    NatLast(x);
    NatLast(y);
  }

  /** `operator==` as written: any two numbers without stored words are
      equal, so 0 == -1. */
  function EqAsWritten(a: BigInt, b: BigInt): (r: bool)
    ensures Canonical(a) && Canonical(b) ==>
              (r <==> Value(a) == Value(b) || (Value(a) == 0 && Value(b) == -1) || (Value(a) == -1 && Value(b) == 0))
  {
    EqValue(a, b);
    (|a.words| == 0 && |b.words| == 0) || (a.sign == b.sign && a.words == b.words)
  }

  /** `operator==` as evidently intended: equal signs and equal words. */
  function Eq(a: BigInt, b: BigInt): (r: bool)
    ensures Canonical(a) && Canonical(b) ==> (r <==> Value(a) == Value(b))
  {
    EqValue(a, b);
    a.sign == b.sign && a.words == b.words
  }

  lemma EqValue(a: BigInt, b: BigInt)
    ensures Canonical(a) && Canonical(b) ==> (a == b <==> Value(a) == Value(b))
    ensures |a.words| == 0 && |b.words| == 0 ==> (Value(a) == 0 || Value(a) == -1) && (Value(b) == 0 || Value(b) == -1)
    ensures Canonical(a) && (Value(a) == 0 || Value(a) == -1) ==> |a.words| == 0
    ensures Canonical(b) && (Value(b) == 0 || Value(b) == -1) ==> |b.words| == 0
  {
    if Canonical(a) && Canonical(b) && Value(a) == Value(b) {
      CanonicalUnique(a, b);
    }
    SmallIsEmpty(a);
    SmallIsEmpty(b);
  }

  /** 0 and -1 are the two numbers with no stored words. */
  lemma SmallIsEmpty(a: BigInt)
    ensures Canonical(a) && (Value(a) == 0 || Value(a) == -1) ==> |a.words| == 0
  {
    if Canonical(a) && Value(a) == 0 {
      CanonicalUnique(a, BigInt(false, []));
    } else if Canonical(a) && Value(a) == -1 {
      CanonicalUnique(a, BigInt(true, []));
    }
  }

  /** `operator>` as written: when the signs agree and the lengths differ,
      the longer number is taken as the greater, which reverses the order of
      negative numbers; and 0 > -1 is false through `operator==`. */
  function GreaterAsWritten(a: BigInt, b: BigInt): (r: bool)
    ensures Canonical(a) && Canonical(b) ==>
              (r <==> if |a.words| == 0 && |b.words| == 0 then false
                      else if a.sign && b.sign && |a.words| != |b.words| then Value(a) < Value(b)
                      else Value(a) > Value(b))
  {
    OrderValue(a, b);
    OrderValue(b, a);
    if EqAsWritten(a, b) then false
    else if a.sign != b.sign then b.sign
    else if |a.words| != |b.words| then |b.words| < |a.words|
    else
      assert a.words[..|a.words|] == a.words && b.words[..|b.words|] == b.words;
      TopDownLess(b.words, a.words, |a.words|)
  }

  /** `operator>` as evidently intended: a longer negative number is the smaller one. */
  function Greater(a: BigInt, b: BigInt): (r: bool)
    ensures Canonical(a) && Canonical(b) ==> (r <==> Value(a) > Value(b))
  {
    OrderValue(a, b);
    OrderValue(b, a);
    if Eq(a, b) then false
    else if a.sign != b.sign then b.sign
    else if |a.words| != |b.words| then (if a.sign then |a.words| < |b.words| else |b.words| < |a.words|)
    else
      assert a.words[..|a.words|] == a.words && b.words[..|b.words|] == b.words;
      TopDownLess(b.words, a.words, |a.words|)
  }

  /** How sign, length and words order canonical values. */
  lemma OrderValue(a: BigInt, b: BigInt)
    ensures Canonical(a) && Canonical(b) && a.sign != b.sign ==> (Value(a) > Value(b) <==> b.sign)
    ensures Canonical(a) && Canonical(b) && a.sign == b.sign && |a.words| < |b.words| ==>
              (if a.sign then Value(a) > Value(b) else Value(a) < Value(b))
    ensures a.sign == b.sign && |a.words| == |b.words| ==> (Value(a) > Value(b) <==> Nat(a.words) > Nat(b.words))
  {
    ValueRange(a);
    ValueRange(b);
    if Canonical(a) && Canonical(b) && a.sign == b.sign && |a.words| < |b.words| {
      CanonicalLength(b);
      PowMonotone(|a.words|, |b.words| - 1);
    }
    assert a.words[..|a.words|] == a.words;
    assert b.words[..|b.words|] == b.words;
  }

  /** `operator<`: `b > a`, on the corrected `operator>`. */
  function Less(a: BigInt, b: BigInt): (r: bool)
    ensures Canonical(a) && Canonical(b) ==> (r <==> Value(a) < Value(b))
  {
    Greater(b, a)
  }

  /** `operator<=`: not `a > b`, on the corrected `operator>`. */
  function LessEq(a: BigInt, b: BigInt): (r: bool)
    ensures Canonical(a) && Canonical(b) ==> (r <==> Value(a) <= Value(b))
  {
    !Greater(a, b)
  }

  /** `operator>=`: not `a < b`, on the corrected `operator>`. */
  function GreaterEq(a: BigInt, b: BigInt): (r: bool)
    ensures Canonical(a) && Canonical(b) ==> (r <==> Value(a) >= Value(b))
  {
    !Less(a, b)
  }

  /** `operator!=`: not `a == b`, on the corrected `operator==`. */
  function NotEq(a: BigInt, b: BigInt): (r: bool)
    ensures Canonical(a) && Canonical(b) ==> (r <==> Value(a) != Value(b))
  {
    !Eq(a, b)
  }

  /** As written, `operator==` finds 0 equal to -1. */
  lemma EqAsWrittenZeroMinusOne()
    ensures EqAsWritten(Zero(), FromInt(-1))
    ensures !Eq(Zero(), FromInt(-1))
  {
  }

  /** As written, -1 > -2 is false: the longer negative number is taken as the greater. */
  lemma GreaterAsWrittenMinusOneMinusTwo()
    ensures !GreaterAsWritten(FromInt(-1), FromInt(-2))
    ensures Greater(FromInt(-1), FromInt(-2))
  {
    ValueRange(FromInt(-1));
    ValueRange(FromInt(-2));
  }

  /** As written, 0 > -1 is false, because the two compare equal. */
  lemma GreaterAsWrittenZeroMinusOne()
    ensures !GreaterAsWritten(Zero(), FromInt(-1))
    ensures Greater(Zero(), FromInt(-1))
  {
  }
}
