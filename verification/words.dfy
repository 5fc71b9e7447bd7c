/** 32-bit words and the little-endian value of a word sequence.

    Every multi-word algorithm of the integer engine reads and writes
    `uint32_t` words and carries through `uint64_t` intermediates. Words are
    modelled as naturals below 2^32; a 64-bit intermediate is an unbounded
    natural whose low and high halves are taken with `Lo` and `Hi`.
 */
module Words {

  /** A `uint32_t`. */
  type Word = x: nat | x < 0x1_0000_0000

  /** The radix of a word sequence, 2^32. */
  const BASE: nat := 0x1_0000_0000

  /** `0xffffffff`: the fill word of a negative number. */
  const MAX_WORD: Word := 0xFFFF_FFFF

  /** `1 << 31`: bit 31 of a word, the sign bit of a two's-complement word sequence. */
  const TOP_BIT: Word := 0x8000_0000

  /** BASE^k. */
  function Pow(k: nat): (r: int)
    ensures r > 0
  {
    if k == 0 then 1 else BASE * Pow(k - 1)
  }

  /** 2^k. */
  function Pow2(k: nat): (r: nat)
    ensures r > 0
  {
    if k == 0 then 1 else 2 * Pow2(k - 1)
  }

  /** The value of a little-endian word sequence: the sum of ws[i] * BASE^i. */
  function Nat(ws: seq<Word>): nat
  {
    if |ws| == 0 then 0 else ws[0] + BASE * Nat(ws[1..])
  }

  /** `toUint32`: the low word of an intermediate. */
  function Lo(x: int): Word
  {
    x % BASE
  }

  /** `x >> 32` on a 64-bit intermediate. */
  function Hi(x: nat): nat
  {
    x / BASE
  }

  /** `~w` on a `uint32_t`. */
  function Complement(w: Word): Word
  {
    MAX_WORD - w
  }

  /** Word-wise `~`. */
  function ComplementAll(ws: seq<Word>): seq<Word>
  {
    seq(|ws|, i requires 0 <= i < |ws| => Complement(ws[i]))
  }

  /** `n` zero words, as a freshly constructed `fast_vector(n)` holds. */
  function Zeros(n: nat): seq<Word>
  {
    seq(n, _ => 0)
  }

  /** The larger of two naturals. */
  function Max(a: nat, b: nat): nat
  {
    if a < b then b else a
  }

  /** `n` copies of `w`. */
  function Repeat(w: Word, n: nat): seq<Word>
  {
    seq(n, _ => w)
  }

  lemma {:induction false} PowAdd(a: nat, b: nat)
    ensures Pow(a + b) == Pow(a) * Pow(b)
  {
    if a > 0 {
      PowAdd(a - 1, b);
      calc {
        Pow(a + b);
        BASE * Pow(a - 1 + b);
        BASE * (Pow(a - 1) * Pow(b));
        (BASE * Pow(a - 1)) * Pow(b);
      }
    }
  }

  lemma {:induction false} PowMonotone(a: nat, b: nat)
    requires a <= b
    ensures Pow(a) <= Pow(b)
  {
    if a < b {
      PowMonotone(a, b - 1);
    }
  }

  lemma {:induction false} Pow2Add(a: nat, b: nat)
    ensures Pow2(a + b) == Pow2(a) * Pow2(b)
  {
    if a > 0 {
      Pow2Add(a - 1, b);
      calc {
        Pow2(a + b);
        2 * Pow2(a - 1 + b);
        2 * (Pow2(a - 1) * Pow2(b));
        (2 * Pow2(a - 1)) * Pow2(b);
      }
    }
  }

  /** A word is BASE = 2^32 in bits. */
  lemma {:induction false} PowIsPow2(k: nat)
    ensures Pow(k) == Pow2(32 * k)
  {
    if k > 0 {
      PowIsPow2(k - 1);
      Pow2Add(32, 32 * (k - 1));
      assert Pow2(32) == BASE by {
        Pow2Small();
      }
    }
  }

  lemma Pow2Small()
    ensures Pow2(31) == TOP_BIT as nat
    ensures Pow2(32) == BASE
  {
    assert Pow2(8) == 256;
    assert Pow2(16) == 65536 by {
      Pow2Add(8, 8);
    }
    Pow2Add(16, 15);
    Pow2Add(16, 16);
    assert Pow2(15) == 32768;
  }

  lemma {:induction false} Pow2Monotone(a: nat, b: nat)
    requires a <= b
    ensures Pow2(a) <= Pow2(b)
  {
    if a < b {
      Pow2Monotone(a, b - 1);
    }
  }

  lemma {:induction false} NatBound(ws: seq<Word>)
    ensures Nat(ws) < Pow(|ws|)
  {
    if |ws| > 0 {
      NatBound(ws[1..]);
      assert Nat(ws[1..]) + 1 <= Pow(|ws| - 1);
    }
  }

  lemma {:induction false} NatConcat(s: seq<Word>, t: seq<Word>)
    ensures Nat(s + t) == Nat(s) + Pow(|s|) * Nat(t)
  {
    if |s| > 0 {
      assert (s + t)[1..] == s[1..] + t;
      assert (s + t)[0] == s[0];
      NatConcat(s[1..], t);
      ConcatStep(s[0], Nat(s[1..]), Nat(t), Pow(|s| - 1), Nat(s[1..] + t));
    } else {
      assert s + t == t;
    }
  }

  lemma ConcatStep(s0: int, ns: int, nt: int, p: int, nst: int)
    requires nst == ns + p * nt
    ensures s0 + BASE * nst == (s0 + BASE * ns) + (BASE * p) * nt
  {
  }

  lemma NatAppend(s: seq<Word>, w: Word)
    ensures Nat(s + [w]) == Nat(s) + w * Pow(|s|)
  {
    NatConcat(s, [w]);
    NatSingle(w);
  }

  /** The value splits at any word boundary. */
  lemma NatSplit(s: seq<Word>, k: nat)
    requires k <= |s|
    ensures Nat(s) == Nat(s[..k]) + Pow(k) * Nat(s[k..])
  {
    assert s == s[..k] + s[k..];
    NatConcat(s[..k], s[k..]);
  }

  /** The top word weighs BASE^(|s|-1). */
  lemma NatLast(s: seq<Word>)
    requires |s| > 0
    ensures Nat(s) == Nat(s[..|s| - 1]) + s[|s| - 1] * Pow(|s| - 1)
  {
    assert s == s[..|s| - 1] + [s[|s| - 1]];
    NatAppend(s[..|s| - 1], s[|s| - 1]);
  }

  lemma {:induction false} NatZeros(n: nat)
    ensures Nat(Zeros(n)) == 0
  {
    if n > 0 {
      assert Zeros(n)[1..] == Zeros(n - 1);
      NatZeros(n - 1);
    }
  }

  lemma {:induction false} NatRepeatMax(n: nat)
    ensures Nat(Repeat(MAX_WORD, n)) == Pow(n) - 1
  {
    if n > 0 {
      assert Repeat(MAX_WORD, n)[1..] == Repeat(MAX_WORD, n - 1);
      NatRepeatMax(n - 1);
    }
  }

  /** Word-wise complement is `BASE^n - 1 - x` on n words. */
  lemma {:induction false} NatComplement(ws: seq<Word>)
    ensures Nat(ComplementAll(ws)) == Pow(|ws|) - 1 - Nat(ws)
  {
    if |ws| > 0 {
      assert ComplementAll(ws)[1..] == ComplementAll(ws[1..]);
      NatComplement(ws[1..]);
    }
  }

  /** A number of n words with a top word below `t` is below t * BASE^(n-1). */
  lemma NatTopBound(s: seq<Word>, t: nat)
    requires |s| > 0 && s[|s| - 1] < t
    ensures Nat(s) < t * Pow(|s| - 1)
  {
    var n := |s| - 1;
    var low := s[..n];
    assert |low| == n;
    NatBound(low);
    NatLast(s);
    TopBelow(Nat(low), s[n], Pow(n), t, Nat(s));
  }

  lemma TopBelow(nl: int, top: int, p: int, t: int, ns: int)
    requires ns == nl + top * p && nl < p && top < t && p > 0
    ensures ns < t * p
  {
    MulMonotone(top + 1, t, p);
    assert (top + 1) * p == top * p + p;
  }

  /** A number of n words with a top word at least `t` is at least t * BASE^(n-1). */
  lemma NatTopLower(s: seq<Word>, t: nat)
    requires |s| > 0 && s[|s| - 1] >= t
    ensures Nat(s) >= t * Pow(|s| - 1)
  {
    NatLast(s);
    MulMonotone(t, s[|s| - 1], Pow(|s| - 1));
  }

  lemma MulMonotone(a: int, b: int, c: nat)
    requires a <= b
    ensures a * c <= b * c
  {
  }

  /** A 0/1 flag times p. */
  lemma MulFlag(f: int, p: int)
    requires 0 <= f <= 1
    ensures f * p == if f == 1 then p else 0
  {
  }

  lemma NatSingle(w: Word)
    ensures Nat([w]) == w
  {
    assert [w][1..] == [];
  }

  // ---------------------------------------------------------------------------
  // Bitwise operators on words, bit by bit

  /** The three bitwise operators `&`, `|` and `^`. */
  datatype BitOp = AndOp | OrOp | XorOp

  /** The operator on one bit (and on the two sign flags of an operand pair). */
  function ApplyBool(op: BitOp, s: bool, t: bool): bool
  {
    match op
    case AndOp => s && t
    case OrOp => s || t
    case XorOp => s != t
  }

  /** The operator on the low k bits of x and y, least significant bit first. */
  function ApplyBits(op: BitOp, x: nat, y: nat, k: nat): (r: nat)
    ensures r < Pow2(k)
  {
    if k == 0 then 0
    else (if ApplyBool(op, x % 2 == 1, y % 2 == 1) then 1 else 0) + 2 * ApplyBits(op, x / 2, y / 2, k - 1)
  }

  /** The operator on two `uint32_t` words. */
  function ApplyWord(op: BitOp, x: Word, y: Word): Word
  {
    Pow2Small();
    ApplyBits(op, x, y, 32)
  }

  /** k one-bits when s holds, k zero-bits otherwise. */
  function Ones(s: bool, k: nat): nat
  {
    if s then Pow2(k) - 1 else 0
  }

  lemma {:induction false} ApplyBitsOnes(op: BitOp, s: bool, t: bool, k: nat)
    ensures ApplyBits(op, Ones(s, k), Ones(t, k), k) == Ones(ApplyBool(op, s, t), k)
  {
    if k > 0 {
      OnesHalf(s, k);
      OnesHalf(t, k);
      OnesHalf(ApplyBool(op, s, t), k);
      ApplyBitsOnes(op, s, t, k - 1);
    }
  }

  lemma OnesHalf(s: bool, k: nat)
    requires k > 0
    ensures Ones(s, k) % 2 == (if s then 1 else 0)
    ensures Ones(s, k) / 2 == Ones(s, k - 1)
  {
  }

  /** The fill word of a sign combines like the signs. */
  lemma ApplyWordFill(op: BitOp, s: bool, t: bool)
    ensures ApplyWord(op, if s then MAX_WORD else 0, if t then MAX_WORD else 0)
            == if ApplyBool(op, s, t) then MAX_WORD else 0
  {
    Pow2Small();
    ApplyBitsOnes(op, s, t, 32);
  }

  lemma {:induction false} ApplyBitsCommutes(op: BitOp, x: nat, y: nat, k: nat)
    ensures ApplyBits(op, x, y, k) == ApplyBits(op, y, x, k)
  {
    if k > 0 {
      ApplyBitsCommutes(op, x / 2, y / 2, k - 1);
    }
  }

  /** x & x == x, x | x == x and x ^ x == 0 on k-bit numbers. */
  lemma {:induction false} ApplyBitsSelf(op: BitOp, x: nat, k: nat)
    requires x < Pow2(k)
    ensures ApplyBits(op, x, x, k) == if op == XorOp then 0 else x
  {
    if k > 0 {
      ApplyBitsSelf(op, x / 2, k - 1);
    }
  }

  /** De Morgan on k-bit numbers: ~x & ~y == ~(x | y) and ~x | ~y == ~(x & y). */
  lemma {:induction false} ApplyBitsDeMorgan(op: BitOp, x: nat, y: nat, k: nat)
    requires op != XorOp && x < Pow2(k) && y < Pow2(k)
    ensures ApplyBits(op, Pow2(k) - 1 - x, Pow2(k) - 1 - y, k)
            == Pow2(k) - 1 - ApplyBits(if op == AndOp then OrOp else AndOp, x, y, k)
  {
    if k > 0 {
      ComplementHalf(x, k);
      ComplementHalf(y, k);
      ApplyBitsDeMorgan(op, x / 2, y / 2, k - 1);
    }
  }

  lemma ComplementHalf(x: nat, k: nat)
    requires k > 0 && x < Pow2(k)
    ensures (Pow2(k) - 1 - x) % 2 == 1 - x % 2
    ensures (Pow2(k) - 1 - x) / 2 == Pow2(k - 1) - 1 - x / 2
    ensures x / 2 < Pow2(k - 1)
  {
  }

  lemma ApplyWordCommutes(op: BitOp, x: Word, y: Word)
    ensures ApplyWord(op, x, y) == ApplyWord(op, y, x)
  {
    ApplyBitsCommutes(op, x, y, 32);
  }

  lemma ApplyWordSelf(op: BitOp, x: Word)
    ensures ApplyWord(op, x, x) == if op == XorOp then 0 else x
  {
    Pow2Small();
    ApplyBitsSelf(op, x, 32);
  }

  lemma ApplyWordDeMorgan(op: BitOp, x: Word, y: Word)
    requires op != XorOp
    ensures ApplyWord(op, Complement(x), Complement(y))
            == Complement(ApplyWord(if op == AndOp then OrOp else AndOp, x, y))
  {
    Pow2Small();
    ApplyBitsDeMorgan(op, x, y, 32);
  }

  // ---------------------------------------------------------------------------
  // Euclidean division facts

  /** Quotient and remainder are determined by the division equation. */
  lemma DivModUnique(x: int, d: int, q: int, r: int)
    requires d > 0 && x == q * d + r && 0 <= r < d
    ensures x / d == q && x % d == r
  {
    var q', r' := x / d, x % d;
    assert (q - q') * d == r' - r;
    if q > q' {
      MulMonotone(1, q - q', d);
    } else if q < q' {
      MulMonotone(1, q' - q, d);
    }
  }

  /** Adding a multiple of the divisor adds to the quotient. */
  lemma DivAddMultiple(x: int, c: int, y: int)
    requires c > 0
    ensures (x + c * y) / c == x / c + y
  {
    DivModUnique(x + c * y, c, x / c + y, x % c);
  }

  /** Dividing twice is dividing by the product. */
  lemma DivDiv(x: int, a: int, b: int)
    requires a > 0 && b > 0
    ensures x / a / b == x / (a * b)
  {
    var q, r := x / a, x % a;
    var q2, r2 := q / b, q % b;
    assert x == q2 * (a * b) + (r2 * a + r) by {
      assert x == q * a + r;
      assert q == q2 * b + r2;
    }
    assert r2 * a + r < a * b by {
      MulMonotone(r2 + 1, b, a);
    }
    DivModUnique(x, a * b, q2, r2 * a + r);
  }

  /** Multiplying and then dividing by the same positive number is the identity. */
  lemma MulDivCancel(x: int, c: int)
    requires c > 0
    ensures (x * c) / c == x
  {
    DivModUnique(x * c, c, x, 0);
  }

  /** A number written as `lo + d * hi` with `lo` below `d` has quotient `hi`. */
  lemma SplitDiv(x: int, d: int, lo: int, hi: int)
    requires d > 0 && 0 <= lo < d && x == lo + d * hi
    ensures x / d == hi
  {
    DivModUnique(x, d, hi, lo);
  }

  /** A number no larger in magnitude than the divisor floors to 0 or -1. */
  lemma DivSmall(x: int, t: int)
    requires t > 0 && -t <= x < t
    ensures x / t == if x < 0 then -1 else 0
  {
    if x < 0 {
      DivModUnique(x, t, -1, x + t);
    } else {
      DivModUnique(x, t, 0, x);
    }
  }

  /** A low word and the multiple of BASE above it are determined by their sum. */
  lemma WordSplitUnique(x0: Word, r0: int, y0: Word, r1: int)
    requires x0 + BASE * r0 == y0 + BASE * r1
    ensures x0 == y0 && r0 == r1
  {
    DivModUnique(x0 + BASE * r0, BASE, r0, x0);
    DivModUnique(y0 + BASE * r1, BASE, r1, y0);
  }

  /** A quotient of a number below `p * q` by `p` is below `q`. */
  lemma QuotBelow(w: int, p: int, q: int)
    requires p > 0 && 0 <= w < p * q
    ensures 0 <= w / p < q
  {
    if w / p >= q {
      MulMonotone(q, w / p, p);
      assert false;
    }
  }

  /** Multiplying by `q` splits at `p * q` along the remainder modulo `p`. */
  lemma MulSplit(v: int, p: int, q: int)
    requires p > 0
    ensures v * q == (v / p) * (p * q) + (v % p) * q
  {
    calc {
      v * q;
      ((v / p) * p + v % p) * q;
      (v / p) * (p * q) + (v % p) * q;
    }
  }

  /** A low part below `q` plus a multiple of `q` by a factor below `p` stays below `p * q`. */
  lemma PackBelow(lo: int, hi: int, p: int, q: int)
    requires 0 <= lo < q && 0 <= hi < p
    ensures lo + hi * q < p * q
  {
    MulMonotone(hi + 1, p, q);
  }

  /** Multiplying by two factors in turn is multiplying by their product. */
  lemma MulAssoc(x: int, p: int, q: int, r: int)
    requires r == p * q
    ensures x * p * q == x * r
  {
  }
}
