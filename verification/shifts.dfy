/** `operator<<` and `operator>>` by a `uint32_t` bit count.

    A shift by k bits moves whole words by k / 32 positions and the bits
    inside each word by k % 32. Within a word the two contributions occupy
    disjoint bit ranges, so the source's `x | y` is written `x + y` here.
 */
module Shifts {
  import opened Words
  import opened BigInts

  /** `uint64_t(w) << s` for s <= 32, one doubling per bit; no bit is lost in 64 bits. */
  function ShiftUp(w: nat, s: nat): nat
  {
    if s == 0 then w else 2 * ShiftUp(w, s - 1)
  }

  /** `uint64_t(w) >> s`, one halving per bit. */
  function ShiftDown(w: nat, s: nat): nat
  {
    if s == 0 then w else ShiftDown(w, s - 1) / 2
  }

  /** The word loop of `operator<<`: word j is the low bits of ws[j] moved up
      by s, with the top s bits of the word below (c for word 0) shifted in. */
  function ShlWords(ws: seq<Word>, s: nat, c: nat): seq<Word>
    requires s < 32
  {
    seq(|ws|, j requires 0 <= j < |ws| => ShlWordAt(ws, s, c, j))
  }

  function ShlWordAt(ws: seq<Word>, s: nat, c: nat, j: nat): Word
    requires s < 32 && j < |ws|
  {
    Lo(ShiftUp(ws[j], s) + (if j == 0 then c else ShiftDown(ws[j - 1], 32 - s)))
  }

  /** The word loop of `operator>>`: word i is ws[i] moved down by s, with the
      low s bits of ws[i + 1] shifted in at the top. */
  function ShrWords(ws: seq<Word>, s: nat): seq<Word>
    requires s < 32 && |ws| > 0
  {
    seq(|ws| - 1, i requires 0 <= i < |ws| - 1 => ShrWordAt(ws, s, i))
  }

  function ShrWordAt(ws: seq<Word>, s: nat, i: nat): Word
    requires s < 32 && i + 1 < |ws|
  {
    Lo(ShiftDown(ws[i], s) + ShiftUp(ws[i + 1], 32 - s))
  }

  /** `operator<<`: the number times 2^k. A zero count copies the operand. */
  function ShiftLeft(a: BigInt, k: Word): (r: BigInt)
    ensures Canonical(r)
    ensures Value(r) == Value(a) * Pow2(k)
  {
    if k == 0 then
      Make(a.sign, a.words)
    else
      ShiftLeftValue(a, k);
      Make(a.sign, Zeros(k / 32) + ShlWords(Digits(a, |a.words| + 1), k % 32, 0))
  }

  /** `operator>>`: the floor of the number over 2^k (an arithmetic shift).
      When every stored word is shifted out the result is 0 or -1 by sign. */
  function ShiftRight(a: BigInt, k: Word): (r: BigInt)
    ensures Canonical(r)
    ensures Value(r) == Value(a) / Pow2(k)
  {
    if k == 0 then
      Make(a.sign, a.words)
    else if k / 32 < |a.words| then
      ShiftRightValue(a, k);
      Make(a.sign, ShrWords(Digits(a, |a.words| + 1)[k / 32..], k % 32))
    else
      ShiftRightOut(a, k);
      Make(a.sign, [])
  }

  // ---------------------------------------------------------------------------
  // Properties

  /** Shifting left then right by the same count gives the number back. */
  lemma ShiftRoundTrip(a: BigInt, k: Word)
    requires Canonical(a)
    ensures ShiftRight(ShiftLeft(a, k), k) == a
  {
    var r := ShiftRight(ShiftLeft(a, k), k);
    MulDivCancel(Value(a), Pow2(k));
    assert Value(r) == Value(a);
    CanonicalUnique(r, a);
  }

  /** Two left shifts add their counts. */
  lemma ShiftLeftTwice(a: BigInt, j: Word, k: Word)
    requires j + k < BASE
    ensures ShiftLeft(ShiftLeft(a, j), k) == ShiftLeft(a, j + k)
  {
    Pow2Add(j, k);
    MulAssoc(Value(a), Pow2(j), Pow2(k), Pow2(j + k));
    CanonicalUnique(ShiftLeft(ShiftLeft(a, j), k), ShiftLeft(a, j + k));
  }

  /** Two right shifts add their counts. */
  lemma ShiftRightTwice(a: BigInt, j: Word, k: Word)
    requires j + k < BASE
    ensures ShiftRight(ShiftRight(a, j), k) == ShiftRight(a, j + k)
  {
    assert Value(a) / Pow2(j) / Pow2(k) == Value(a) / Pow2(j + k) by {
      DivDiv(Value(a), Pow2(j), Pow2(k));
      Pow2Add(j, k);
    }
    CanonicalUnique(ShiftRight(ShiftRight(a, j), k), ShiftRight(a, j + k));
  }

  // ---------------------------------------------------------------------------
  // Word-level facts

  lemma {:induction false} ShiftUpMul(w: nat, s: nat)
    ensures ShiftUp(w, s) == w * Pow2(s)
  {
    if s > 0 {
      ShiftUpMul(w, s - 1);
    }
  }

  lemma {:induction false} ShiftDownDiv(w: nat, s: nat)
    ensures ShiftDown(w, s) == w / Pow2(s)
  {
    if s > 0 {
      ShiftDownDiv(w, s - 1);
      DivDiv(w, Pow2(s - 1), 2);
    }
  }

  /** BASE splits as 2^s * 2^(32-s). */
  lemma BaseSplit(s: nat)
    requires s <= 32
    ensures Pow2(s) * Pow2(32 - s) == BASE
  {
    Pow2Add(s, 32 - s);
    Pow2Small();
  }

  lemma MaxSplit(p: int, q: int)
    requires p * q == BASE
    ensures MAX_WORD == (p - 1) * q + (q - 1)
  {
  }

  /** The top s bits of a fill word: all ones for a negative number, none otherwise. */
  lemma FillShift(sign: bool, s: nat)
    requires s <= 32
    ensures ShiftDown(Fill(sign), 32 - s) == if sign then Pow2(s) - 1 else 0
  {
    var p, q := Pow2(s), Pow2(32 - s);
    ShiftDownDiv(Fill(sign), 32 - s);
    if sign {
      BaseSplit(s);
      MaxSplit(p, q);
      DivModUnique(MAX_WORD, q, p - 1, q - 1);
    }
  }

  /** The fill word shifted down by `s` keeps its top `32 - s` bits. */
  lemma FillShiftDown(sign: bool, s: nat)
    requires s < 32
    ensures ShiftDown(Fill(sign), s) == if sign then Pow2(32 - s) - 1 else 0
  {
    FillShift(sign, 32 - s);
    assert 32 - (32 - s) == s;
  }

  /** w * p + c, for c < p and p * q == BASE, splits at BASE into a low word
      and the top bits of w. */
  lemma SplitUp(w: Word, p: nat, q: nat, c: nat)
    requires p > 0 && q > 0 && p * q == BASE && c < p
    ensures Lo(w * p + c) + BASE * (w / q) == w * p + c
    ensures w / q < p
  {
    var hi, lo := w / q, w % q;
    assert w * p + c == hi * BASE + (lo * p + c) by {
      assert w == hi * q + lo;
    }
    assert lo * p + c < BASE by {
      MulMonotone(lo + 1, q, p);
    }
    DivModUnique(w * p + c, BASE, hi, lo * p + c);
    assert hi * q <= w;
  }

  /** w / p + v * q, for p * q == BASE, keeps the low bits of v above the bits of w. */
  lemma SplitDown(w: Word, v: Word, p: nat, q: nat)
    requires p > 0 && q > 0 && p * q == BASE
    ensures Lo(w / p + v * q) == w / p + (v % p) * q
  {
    QuotBelow(w, p, q);
    MulSplit(v, p, q);
    PackBelow(w / p, v % p, p, q);
    DivModUnique(w / p + v * q, BASE, v / p, w / p + (v % p) * q);
  }

  /** The low word of the left-shift loop, stated with the shift helpers. */
  lemma ShlWord(w: Word, s: nat, c: nat)
    requires s < 32 && c < Pow2(s)
    ensures Lo(ShiftUp(w, s) + c) + BASE * ShiftDown(w, 32 - s) == ShiftUp(w, s) + c
    ensures ShiftDown(w, 32 - s) < Pow2(s)
  {
    BaseSplit(s);
    ShiftUpMul(w, s);
    ShiftDownDiv(w, 32 - s);
    SplitUp(w, Pow2(s), Pow2(32 - s), c);
  }

  /** The low word of the right-shift loop, stated with the shift helpers. */
  lemma ShrWord(w: Word, v: Word, s: nat)
    requires s < 32
    ensures Lo(ShiftDown(w, s) + ShiftUp(v, 32 - s)) == ShiftDown(w, s) + (v % Pow2(s)) * Pow2(32 - s)
  {
    BaseSplit(s);
    ShiftUpMul(v, 32 - s);
    ShiftDownDiv(w, s);
    SplitDown(w, v, Pow2(s), Pow2(32 - s));
  }

  lemma ShlStep(o0: int, rest: int, top: int, pw: int, nr: int, p: int, c: int, c2: int, w0: int, up: int)
    requires rest + top * pw == nr * p + c2
    requires o0 + BASE * c2 == up + c
    requires up == w0 * p
    ensures (o0 + BASE * rest) + top * (BASE * pw) == (w0 + BASE * nr) * p + c
  {
    calc {
      (o0 + BASE * rest) + top * (BASE * pw);
      o0 + BASE * (rest + top * pw);
      o0 + BASE * (nr * p + c2);
      (o0 + BASE * c2) + BASE * (nr * p);
      (w0 + BASE * nr) * p + c;
    }
  }

  lemma {:induction false} ShlWordsValue(ws: seq<Word>, s: nat, c: nat, n: nat)
    requires s < 32 && |ws| == n && n > 0 && c < Pow2(s)
    ensures Nat(ShlWords(ws, s, c)) + ShiftDown(ws[n - 1], 32 - s) * Pow(n) == Nat(ws) * Pow2(s) + c
  {
    var out := ShlWords(ws, s, c);
    var c' := ShiftDown(ws[0], 32 - s);
    assert out[0] == ShlWordAt(ws, s, c, 0);
    ShlWord(ws[0], s, c);
    ShiftUpMul(ws[0], s);
    if n == 1 {
      NatSingle(out[0]);
      NatSingle(ws[0]);
      assert out == [out[0]];
      assert ws == [ws[0]];
    } else {
      ShlWordsTail(ws, s, c);
      ShlWordsValue(ws[1..], s, c', n - 1);
      assert ws[1..][n - 2] == ws[n - 1];
      ShlStep(out[0], Nat(out[1..]), ShiftDown(ws[n - 1], 32 - s), Pow(n - 1), Nat(ws[1..]), Pow2(s), c, c', ws[0], ShiftUp(ws[0], s));
    }
  }

  lemma ShlWordsTail(ws: seq<Word>, s: nat, c: nat)
    requires s < 32 && |ws| > 1
    ensures ShlWords(ws, s, c)[1..] == ShlWords(ws[1..], s, ShiftDown(ws[0], 32 - s))
  {
    var out, tail := ShlWords(ws, s, c), ShlWords(ws[1..], s, ShiftDown(ws[0], 32 - s));
    forall j | 0 <= j < |ws| - 1
      ensures out[1..][j] == tail[j]
    {
      assert ws[1..][j] == ws[j + 1];
      if j > 0 {
        assert ws[1..][j - 1] == ws[j];
      }
    }
  }

  lemma ShrWordsTail(ws: seq<Word>, s: nat)
    requires s < 32 && |ws| > 1
    ensures ShrWords(ws, s)[1..] == ShrWords(ws[1..], s)
  {
    var out, tail := ShrWords(ws, s), ShrWords(ws[1..], s);
    forall i | 0 <= i < |ws| - 2
      ensures out[1..][i] == tail[i]
    {
      assert ws[1..][i] == ws[i + 1] && ws[1..][i + 1] == ws[i + 2];
    }
  }

  lemma ShrStep(w0: nat, w1: nat, n1: nat, n2: nat, p: nat, q: nat, rest: int, top: int, pw: int, o0: int, d0: int)
    requires p > 0 && q > 0 && p * q == BASE
    requires n1 == w1 + BASE * n2
    requires d0 == w0 / p
    requires o0 == d0 + (w1 % p) * q
    requires rest + top * pw == n1 / p
    ensures (o0 + BASE * rest) + top * (BASE * pw) == (w0 + BASE * n1) / p
  {
    ModShift(w1, n2, p, q);
    DivShift(w0, n1, p, q);
    ShrAlgebra(o0, rest, top, pw, d0, n1 / p, n1 % p, p, q, n1, (w0 + BASE * n1) / p);
  }

  /** The low word alone decides the remainder modulo a divisor of BASE. */
  lemma ModShift(w1: nat, n2: nat, p: nat, q: nat)
    requires p > 0 && q > 0 && p * q == BASE
    ensures (w1 + BASE * n2) % p == w1 % p
  {
    assert w1 + BASE * n2 == (w1 / p + q * n2) * p + w1 % p by {
      assert w1 == (w1 / p) * p + w1 % p;
    }
    DivModUnique(w1 + BASE * n2, p, w1 / p + q * n2, w1 % p);
  }

  /** Dividing by a divisor `p` of BASE passes through the multiple of BASE. */
  lemma DivShift(w0: nat, n1: nat, p: nat, q: nat)
    requires p > 0 && p * q == BASE
    ensures (w0 + BASE * n1) / p == w0 / p + q * n1
  {
    assert w0 + BASE * n1 == w0 + p * (q * n1);
    DivAddMultiple(w0, p, q * n1);
  }

  lemma ShrAlgebra(o0: int, rest: int, top: int, pw: int, d0: int, qn: int, rn: int, p: int, q: int, n1: int, x: int)
    requires n1 == p * qn + rn && p * q == BASE
    requires o0 == d0 + rn * q && rest + top * pw == qn && x == d0 + q * n1
    ensures (o0 + BASE * rest) + top * (BASE * pw) == x
  {
    calc {
      (o0 + BASE * rest) + top * (BASE * pw);
      o0 + BASE * (rest + top * pw);
      d0 + rn * q + (p * q) * qn;
      d0 + q * (p * qn + rn);
    }
  }

  lemma {:induction false} ShrWordsValue(ws: seq<Word>, s: nat, m: nat)
    requires s < 32 && |ws| == m + 1
    ensures Nat(ShrWords(ws, s)) + ShiftDown(ws[m], s) * Pow(m) == Nat(ws) / Pow2(s)
  {
    var out := ShrWords(ws, s);
    if m == 0 {
      NatSingle(ws[0]);
      assert ws == [ws[0]];
      ShiftDownDiv(ws[0], s);
    } else {
      assert out[0] == ShrWordAt(ws, s, 0);
      ShrWordsTail(ws, s);
      ShrWordsValue(ws[1..], s, m - 1);
      assert ws[1..][m - 1] == ws[m];
      ShrWord(ws[0], ws[1], s);
      ShiftDownDiv(ws[0], s);
      BaseSplit(s);
      assert ws[1..][1..] == ws[2..];
      ShrStep(ws[0], ws[1], Nat(ws[1..]), Nat(ws[2..]), Pow2(s), Pow2(32 - s), Nat(out[1..]),
              ShiftDown(ws[m], s), Pow(m - 1), out[0], ShiftDown(ws[0], s));
    }
  }

  // ---------------------------------------------------------------------------
  // Value proofs

  /** 2^k is BASE^(k / 32) * 2^(k % 32). */
  lemma ShiftSplit(k: nat)
    ensures Pow2(k) == Pow(k / 32) * Pow2(k % 32)
  {
    PowIsPow2(k / 32);
    Pow2Add(32 * (k / 32), k % 32);
  }

  /** Placing `div` zero words below a sequence. */
  lemma ZerosBelow(div: nat, ws: seq<Word>)
    ensures Nat(Zeros(div) + ws) == Pow(div) * Nat(ws)
    ensures Pow(|Zeros(div) + ws|) == Pow(div) * Pow(|ws|)
  {
    NatConcat(Zeros(div), ws);
    NatZeros(div);
    PowAdd(div, |ws|);
  }

  /** The shifted words of the extended number, before any whole-word move. */
  lemma ShlDigitsValue(a: BigInt, s: nat)
    requires s < 32
    ensures Nat(ShlWords(Digits(a, |a.words| + 1), s, 0))
            == Value(a) * Pow2(s) + (if a.sign then Pow(|ShlWords(Digits(a, |a.words| + 1), s, 0)|) else 0)
  {
    var n := |a.words| + 1;
    var e := Digits(a, n);
    ValueExtended(a, n);
    ShlWordsValue(e, s, 0, n);
    assert e[n - 1] == Fill(a.sign);
    FillShift(a.sign, s);
    ShlDigitsStep(a.sign, Value(a), Pow2(s), Pow(n), ShiftDown(e[n - 1], 32 - s), Nat(ShlWords(e, s, 0)), Nat(e));
  }

  lemma ShlDigitsStep(sign: bool, va: int, p: int, pn: int, cout: int, no: int, ne: int)
    requires ne == va + (if sign then pn else 0)
    requires cout == (if sign then p - 1 else 0)
    requires no + cout * pn == ne * p + 0
    ensures no == va * p + (if sign then pn else 0)
  {
    if sign {
      calc {
        no;
        (va + pn) * p - (p - 1) * pn;
        va * p + pn;
      }
    }
  }

  lemma ShlCombine(sign: bool, ws: seq<Word>, out: seq<Word>, va: int, p: int, pd: int, t: int)
    requires Nat(out) == va * p + (if sign then Pow(|out|) else 0)
    requires Nat(ws) == pd * Nat(out) && Pow(|ws|) == pd * Pow(|out|)
    requires t == pd * p
    ensures Value(BigInt(sign, ws)) == va * t
  {
    ShlAlgebra(sign, Nat(ws), Pow(|ws|), Nat(out), Pow(|out|), va, p, pd, t);
  }

  lemma ShlAlgebra(sign: bool, nws: int, pws: int, no: int, po: int, va: int, p: int, pd: int, t: int)
    requires no == va * p + (if sign then po else 0)
    requires nws == pd * no && pws == pd * po && t == pd * p
    ensures nws - (if sign then pws else 0) == va * t
  {
    if sign {
      calc {
        nws - pws;
        pd * (va * p + po) - pd * po;
        (pd * p) * va;
      }
    } else {
      calc {
        nws;
        pd * (va * p);
        (pd * p) * va;
      }
    }
  }

  lemma ShiftLeftValue(a: BigInt, k: Word)
    requires k > 0
    ensures Value(BigInt(a.sign, Zeros(k / 32) + ShlWords(Digits(a, |a.words| + 1), k % 32, 0)))
            == Value(a) * Pow2(k)
  {
    var out := ShlWords(Digits(a, |a.words| + 1), k % 32, 0);
    ShlDigitsValue(a, k % 32);
    ZerosBelow(k / 32, out);
    ShiftSplit(k);
    ShlCombine(a.sign, Zeros(k / 32) + out, out, Value(a), Pow2(k % 32), Pow(k / 32), Pow2(k));
  }

  /** The extended words from `div` up hold the number's value over BASE^div. */
  lemma {:induction false} DropWords(a: BigInt, div: nat)
    requires div < |a.words|
    ensures Nat(Digits(a, |a.words| + 1)[div..]) == (Value(a) + (if a.sign then Pow(|a.words| + 1) else 0)) / Pow(div)
  {
    var e := Digits(a, |a.words| + 1);
    ValueExtended(a, |a.words| + 1);
    NatSplit(e, div);
    NatBound(e[..div]);
    SplitDiv(Nat(e), Pow(div), Nat(e[..div]), Nat(e[div..]));
  }

  /** BASE^(len + 1) is 2^k times BASE^(len - k / 32) times 2^(32 - k % 32). */
  lemma ShrPowSplit(len: nat, k: nat)
    requires k / 32 < len
    ensures Pow(len + 1) == Pow2(k) * (Pow2(32 - k % 32) * Pow(len - k / 32))
  {
    var div, s := k / 32, k % 32;
    PowAdd(div, len - div + 1);
    BaseSplit(s);
    ShiftSplit(k);
    assert Pow(len - div + 1) == BASE * Pow(len - div);
    ShrPowStep(Pow(len + 1), Pow(div), Pow(len - div + 1), Pow(len - div), Pow2(s), Pow2(32 - s), Pow2(k));
  }

  lemma DivChain(nf: int, x: int, pd: int, p: int, t: int)
    requires pd > 0 && p > 0 && nf == x / pd && t == pd * p
    ensures nf / p == x / t
  {
    DivDiv(x, pd, p);
  }

  lemma ShrPowStep(pn: int, pd: int, pf: int, pm: int, p: int, q: int, t: int)
    requires pn == pd * pf && pf == BASE * pm && p * q == BASE && t == pd * p
    ensures pn == t * (q * pm)
  {
    calc {
      pn;
      pd * (BASE * pm);
      pd * ((p * q) * pm);
      (pd * p) * (q * pm);
    }
  }

  /** The top bits of the fill word cancel the fill's share of the quotient. */
  lemma ShrCombine(sign: bool, no: int, top: int, pm: int, q: int, x: int)
    requires top == (if sign then q - 1 else 0)
    requires no + top * pm == x + (if sign then q * pm else 0)
    ensures no - (if sign then pm else 0) == x
  {
    if sign {
      assert top * pm == q * pm - pm;
    }
  }

  /** Dropping the low `k / 32` words and then shifting by `k % 32` divides by 2^k. */
  lemma DropDiv(a: BigInt, k: Word)
    requires k / 32 < |a.words|
    ensures Nat(Digits(a, |a.words| + 1)[k / 32..]) / Pow2(k % 32)
            == (Value(a) + (if a.sign then Pow(|a.words| + 1) else 0)) / Pow2(k)
  {
    DropWords(a, k / 32);
    ShiftSplit(k);
    DivChain(Nat(Digits(a, |a.words| + 1)[k / 32..]), Value(a) + (if a.sign then Pow(|a.words| + 1) else 0),
             Pow(k / 32), Pow2(k % 32), Pow2(k));
  }

  /** The same quotient, with the fill's contribution separated out. */
  lemma DropShift(a: BigInt, k: Word)
    requires k / 32 < |a.words|
    ensures Nat(Digits(a, |a.words| + 1)[k / 32..]) / Pow2(k % 32)
            == Value(a) / Pow2(k) + (if a.sign then Pow2(32 - k % 32) * Pow(|a.words| - k / 32) else 0)
  {
    DropDiv(a, k);
    if a.sign {
      ShrPowSplit(|a.words|, k);
      DivAddMultiple(Value(a), Pow2(k), Pow2(32 - k % 32) * Pow(|a.words| - k / 32));
    }
  }

  /** The right-shift loop's words are the number over 2^k, read with the number's sign. */
  lemma ShrDigitsValue(a: BigInt, k: Word, fw: seq<Word>)
    requires k / 32 < |a.words|
    requires fw == Digits(a, |a.words| + 1)[k / 32..]
    ensures Nat(ShrWords(fw, k % 32)) - (if a.sign then Pow(|a.words| - k / 32) else 0) == Value(a) / Pow2(k)
  {
    var pm := Pow(|a.words| - k / 32);
    assert fw[|a.words| - k / 32] == Fill(a.sign);
    ShrWordsValue(fw, k % 32, |a.words| - k / 32);
    DropShift(a, k);
    FillShiftDown(a.sign, k % 32);
    ShrCombine(a.sign, Nat(ShrWords(fw, k % 32)), ShiftDown(Fill(a.sign), k % 32), pm,
               Pow2(32 - k % 32), Value(a) / Pow2(k));
  }

  lemma ShiftRightValue(a: BigInt, k: Word)
    requires k > 0 && k / 32 < |a.words|
    ensures Value(BigInt(a.sign, ShrWords(Digits(a, |a.words| + 1)[k / 32..], k % 32)))
            == Value(a) / Pow2(k)
  {
    ShrDigitsValue(a, k, Digits(a, |a.words| + 1)[k / 32..]);
  }

  lemma ShiftRightOut(a: BigInt, k: Word)
    requires k / 32 >= |a.words|
    ensures Value(a) / Pow2(k) == if a.sign then -1 else 0
  {
    ValueRange(a);
    PowBelowShift(|a.words|, k);
    DivSmall(Value(a), Pow2(k));
  }

  lemma PowBelowShift(n: nat, k: nat)
    requires k / 32 >= n
    ensures Pow(n) <= Pow2(k)
  {
    PowMonotone(n, k / 32);
    ShiftSplit(k);
    MulMonotone(1, Pow2(k % 32), Pow(k / 32));
  }
}
