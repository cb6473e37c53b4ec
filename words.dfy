/** The representation of a BigInteger: twelve 32-bit unsigned words, least
    significant first, and the number they spell. The C bit operators the
    source applies to a word are written out arithmetically here. */
module Words {

  /** One more than the largest 32-bit word. */
  const BASE: nat := 0x1_0000_0000

  /** BIG_INTEGER_MAX_WORDS */
  const WORD_COUNT: nat := 12

  /** A 32-bit unsigned word (the header's bigIntType, taken as 32 bits wide). */
  type Word = w: nat | w < BASE

  function Pow2(n: nat): (r: nat)
    ensures r >= 1
  {
    if n == 0 then 1 else 2 * Pow2(n - 1)
  }

  /** The weight BASE^k of word k. */
  function Weight(k: nat): (r: nat)
    ensures r >= 1
  {
    if k == 0 then 1 else BASE * Weight(k - 1)
  }

  /** 2^384, the modulus of the fixed-width arithmetic. */
  const MODULUS: nat := Weight(WORD_COUNT)

  // ---------------------------------------------------------------------------
  // Division and remainder

  lemma DivModUnique(x: int, d: int, q: int, r: int)
    requires d > 0 && 0 <= r < d && x == q * d + r
    ensures x / d == q && x % d == r
  {
    var q', r' := x / d, x % d;
    assert x == q' * d + r';
    var e := q - q';
    assert e * d == r' - r by {
      assert q * d - q' * d == e * d;
    }
    MulSign(e, d);
  }

  lemma MulSign(e: int, d: int)
    requires d >= 0
    ensures e >= 1 ==> e * d >= d
    ensures e <= -1 ==> e * d <= -d
  {
    if e >= 1 {
      MulLeMul(1, e, d);
    } else if e <= -1 {
      MulLeMul(1, -e, d);
    }
  }

  lemma MulLeMul(a: nat, b: nat, c: nat)
    requires a <= b
    ensures a * c <= b * c
  {
    assert b * c == a * c + (b - a) * c;
  }

  /** Splitting a remainder by a product: the low part, then the next digit. */
  lemma ModProduct(x: nat, a: nat, b: nat)
    requires a > 0 && b > 0
    ensures x % (a * b) == x % a + a * ((x / a) % b)
    ensures x / (a * b) == (x / a) / b
  {
    var q1, r1 := x / a, x % a;
    var q2, r2 := q1 / b, q1 % b;
    assert x == q1 * a + r1;
    assert q1 == q2 * b + r2;
    assert x == q2 * (a * b) + (r1 + a * r2) by {
      assert q1 * a == (q2 * b + r2) * a;
      assert (q2 * b + r2) * a == q2 * (a * b) + a * r2;
    }
    assert r1 + a * r2 < a * b by {
      MulLeMul(r2, b - 1, a);
      assert (b - 1) * a == a * b - a;
    }
    DivModUnique(x, a * b, q2, r1 + a * r2);
  }

  /** Multiplying by m scales the remainder modulo m * k by m. */
  lemma MulMod(x: nat, m: nat, k: nat)
    requires m > 0 && k > 0
    ensures (x * m) % (m * k) == (x % k) * m
    ensures (x * m) / (m * k) == x / k
  {
    var q, r := x / k, x % k;
    assert x * m == q * (m * k) + r * m by {
      assert x == q * k + r;
      assert x * m == (q * k + r) * m;
    }
    MulLeMul(r, k - 1, m);
    assert (k - 1) * m == m * k - m;
    DivModUnique(x * m, m * k, q, r * m);
  }

  /** Adding a multiple of m does not change the remainder modulo m. */
  lemma ModAddMultiple(x: int, k: int, m: int)
    requires m > 0
    ensures (x + k * m) % m == x % m
  {
    var q, r := x / m, x % m;
    assert x + k * m == (q + k) * m + r;
    DivModUnique(x + k * m, m, q + k, r);
  }

  /** Reducing one summand first does not change the remainder of a sum. */
  lemma ModAddLeft(x: nat, y: nat, m: nat)
    requires m > 0
    ensures (x % m + y) % m == (x + y) % m
  {
    ModAddMultiple(x % m + y, x / m, m);
    assert x % m + y + (x / m) * m == x + y;
  }

  /** v = lo + w * hi with lo < w: lo and hi are v's remainder and quotient by w. */
  lemma SplitDivMod(v: nat, lo: nat, hi: nat, w: nat)
    requires v == lo + w * hi && lo < w
    ensures lo == v % w && hi == v / w
  {
    DivModUnique(v, w, hi, lo);
  }

  lemma ModOfSmall(x: nat, m: nat)
    requires x < m
    ensures x % m == x && x / m == 0
  {
    DivModUnique(x, m, 0, x);
  }

  lemma DivLe(x: nat, d: nat)
    requires d > 0
    ensures x / d <= x
  {
    assert (x / d) * d <= x;
    MulLeMul(1, d, x / d);
  }

  // ---------------------------------------------------------------------------
  // Powers of two

  lemma {:induction false} Pow2Add(a: nat, b: nat)
    ensures Pow2(a + b) == Pow2(a) * Pow2(b)
  {
    if a > 0 {
      Pow2Add(a - 1, b);
      assert Pow2(a + b) == 2 * Pow2(a - 1 + b);
    }
  }

  lemma {:induction false} Pow2Monotone(a: nat, b: nat)
    requires a <= b
    ensures Pow2(a) <= Pow2(b)
  {
    if a < b {
      Pow2Monotone(a, b - 1);
    }
  }

  lemma Pow2Word()
    ensures Pow2(8) == 256 && Pow2(16) == 0x1_0000 && Pow2(32) == BASE
  {
    assert Pow2(4) == 16;
    Pow2Add(4, 4);
    Pow2Add(8, 8);
    Pow2Add(16, 16);
  }

  lemma {:induction false} WeightIsPow2(k: nat)
    ensures Weight(k) == Pow2(32 * k)
  {
    Pow2Word();
    if k > 0 {
      WeightIsPow2(k - 1);
      Pow2Add(32, 32 * (k - 1));
    }
  }

  lemma {:induction false} WeightAdd(a: nat, b: nat)
    ensures Weight(a + b) == Weight(a) * Weight(b)
  {
    WeightIsPow2(a);
    WeightIsPow2(b);
    WeightIsPow2(a + b);
    Pow2Add(32 * a, 32 * b);
  }

  lemma {:induction false} WeightMonotone(a: nat, b: nat)
    requires a <= b
    ensures Weight(a) <= Weight(b)
  {
    WeightIsPow2(a);
    WeightIsPow2(b);
    Pow2Monotone(32 * a, 32 * b);
  }

  // ---------------------------------------------------------------------------
  // The C operators on a 32-bit unsigned word

  /** `w << k` on a 32-bit unsigned word: the bits shifted past bit 31 are lost. */
  function Shl(w: Word, k: nat): Word
  {
    (w * Pow2(k)) % BASE
  }

  /** `w >> k` on a 32-bit unsigned word. */
  function Shr(w: Word, k: nat): Word
  {
    DivWord(w, Pow2(k))
  }

  function DivWord(w: Word, d: nat): Word
    requires d >= 1
  {
    DivLe(w, d);
    w / d
  }

  /** `a | b`: the bitwise or of two naturals, one bit at a time. */
  function Or(a: nat, b: nat): nat
    decreases a + b
  {
    if a == 0 then b
    else if b == 0 then a
    else 2 * Or(a / 2, b / 2) + (if a % 2 == 1 || b % 2 == 1 then 1 else 0)
  }

  /** When the bits of a and b do not overlap, or-ing them is adding them. */
  lemma {:induction false} OrDisjoint(a: nat, b: nat, k: nat)
    requires a % Pow2(k) == 0 && b < Pow2(k)
    ensures Or(a, b) == a + b
    decreases k
  {
    if a != 0 && b != 0 {
      assert k > 0;
      ModProduct(a, 2, Pow2(k - 1));
      OrDisjoint(a / 2, b / 2, k - 1);
    }
  }

  /** Or-ing two k-bit values gives a k-bit value. */
  lemma {:induction false} OrBound(a: nat, b: nat, k: nat)
    requires a < Pow2(k) && b < Pow2(k)
    ensures Or(a, b) < Pow2(k)
    decreases k
  {
    if a != 0 && b != 0 {
      assert k > 0;
      OrBound(a / 2, b / 2, k - 1);
    }
  }

  /** The word a bitwise or of two words gives. */
  function OrWord(a: Word, b: Word): Word
  {
    Pow2Word();
    OrBound(a, b, 32);
    Or(a, b)
  }

  // ---------------------------------------------------------------------------
  // The number a word sequence spells

  /** Val(s) = sum of s[i] * 2^(32 i): s[0] is the least-significant word. */
  function Val(s: seq<nat>): nat
  {
    if |s| == 0 then 0 else s[0] + BASE * Val(s[1..])
  }

  function Zeros(n: nat): (r: seq<Word>)
    ensures |r| == n && forall i | 0 <= i < n :: r[i] == 0
  {
    seq(n, _ => 0)
  }

  lemma {:induction false} ValZeros(n: nat)
    ensures Val(Zeros(n)) == 0
  {
    if n > 0 {
      assert Zeros(n)[1..] == Zeros(n - 1);
      ValZeros(n - 1);
    }
  }

  /** Every sequence of n words spells a number below 2^(32 n). */
  lemma {:induction false} ValBound(s: seq<Word>)
    ensures Val(s) < Weight(|s|)
  {
    if |s| > 0 {
      ValBound(s[1..]);
    }
  }

  /** Concatenation: the words of b sit |a| words above those of a. */
  lemma {:induction false} ValAppend(a: seq<nat>, b: seq<nat>)
    ensures Val(a + b) == Val(a) + Weight(|a|) * Val(b)
  {
    if |a| > 0 {
      assert (a + b)[1..] == a[1..] + b;
      ValAppend(a[1..], b);
      assert Weight(|a|) * Val(b) == BASE * (Weight(|a| - 1) * Val(b));
    } else {
      assert a + b == b;
    }
  }

  /** Adding word i on top of the first i words. */
  lemma ValSnoc(s: seq<nat>, i: nat)
    requires i < |s|
    ensures Val(s[..i + 1]) == Val(s[..i]) + s[i] * Weight(i)
  {
    assert s[..i + 1] == s[..i] + [s[i]];
    ValAppend(s[..i], [s[i]]);
    assert Val([s[i]]) == s[i] + BASE * Val([s[i]][1..]);
  }

  /** Words v with carry c into the word of weight w, plus a word s with carry c' out of it. */
  lemma CarryStep(v: nat, c: nat, w: nat, t: nat, s: nat, c': nat, d: nat)
    requires v + c * w == t && s + BASE * c' == d + c
    ensures v + w * s + c' * (BASE * w) == t + d * w
  {
    assert w * s + c' * (BASE * w) == w * (s + BASE * c');
    assert w * (d + c) == d * w + c * w;
  }

  /** The low k words spell the number modulo 2^(32 k); the rest spell the quotient. */
  lemma ValSplit(s: seq<Word>, k: nat)
    requires k <= |s|
    ensures Val(s[..k]) == Val(s) % Weight(k)
    ensures Val(s[k..]) == Val(s) / Weight(k)
  {
    var a, b := s[..k], s[k..];
    assert a + b == s;
    ValAppend(a, b);
    ValBound(a);
    assert Val(s) == Val(a) + Weight(k) * Val(b);
    SplitDivMod(Val(s), Val(a), Val(b), Weight(k));
  }

  /** Two equally long word sequences that spell the same number are equal. */
  lemma {:induction false} ValInjective(a: seq<Word>, b: seq<Word>)
    requires |a| == |b| && Val(a) == Val(b)
    ensures a == b
  {
    if |a| > 0 {
      ValBound(a[1..]);
      ValBound(b[1..]);
      DivModUnique(Val(a), BASE, Val(a[1..]), a[0]);
      DivModUnique(Val(b), BASE, Val(b[1..]), b[0]);
      ValInjective(a[1..], b[1..]);
      assert a == [a[0]] + a[1..];
      assert b == [b[0]] + b[1..];
    }
  }

  /** The n low words of x. */
  function FromNat(x: nat, n: nat): (r: seq<Word>)
    ensures |r| == n
  {
    if n == 0 then [] else [x % BASE] + FromNat(x / BASE, n - 1)
  }

  /** FromNat keeps x modulo 2^(32 n). */
  lemma {:induction false} ValFromNat(x: nat, n: nat)
    ensures Val(FromNat(x, n)) == x % Weight(n)
  {
    if n > 0 {
      var r := FromNat(x, n);
      assert r[1..] == FromNat(x / BASE, n - 1);
      ValFromNat(x / BASE, n - 1);
      ModProduct(x, BASE, Weight(n - 1));
    } else {
      ModOfSmall(0, 1);
      assert x % 1 == 0;
    }
  }

  /** FromNat is the inverse of Val on sequences of n words. */
  lemma FromNatVal(s: seq<Word>)
    ensures FromNat(Val(s), |s|) == s
  {
    ValFromNat(Val(s), |s|);
    ValBound(s);
    ModOfSmall(Val(s), Weight(|s|));
    ValInjective(FromNat(Val(s), |s|), s);
  }

  /** Word k of a sequence, read off the number it spells. */
  lemma WordOfVal(s: seq<Word>, k: nat)
    requires k < |s|
    ensures s[k] == (Val(s) / Weight(k)) % BASE
  {
    ValSplit(s, k);
    var t := s[k..];
    ValBound(t[1..]);
    DivModUnique(Val(t), BASE, Val(t[1..]), t[0]);
  }

  /** Words equal, numbers equal; numbers equal, words equal. */
  lemma ValEqualIff(a: seq<Word>, b: seq<Word>)
    requires |a| == |b|
    ensures a == b <==> Val(a) == Val(b)
  {
    if Val(a) == Val(b) {
      ValInjective(a, b);
    }
  }
}
