/** What addc and shiftLeft compute, stated on word sequences: the sum and the
    shifted value modulo 2^384, and the algebra the fixed width keeps. */
module Arithmetic {
  import opened Words

  predicate IsBig(w: seq<Word>)
  {
    |w| == WORD_COUNT
  }

  /** The twelve words of (Val(a) + Val(b)) mod 2^384. */
  function Sum(a: seq<Word>, b: seq<Word>): (r: seq<Word>)
    requires IsBig(a) && IsBig(b)
    ensures IsBig(r) && Val(r) == (Val(a) + Val(b)) % MODULUS
  {
    ValFromNat(Val(a) + Val(b), WORD_COUNT);
    FromNat(Val(a) + Val(b), WORD_COUNT)
  }

  /** The twelve words of Val(w) * 2^n mod 2^384. */
  function ShiftedLeft(w: seq<Word>, n: nat): (r: seq<Word>)
    requires IsBig(w)
    ensures IsBig(r) && Val(r) == (Val(w) * Pow2(n)) % MODULUS
  {
    ValFromNat(Val(w) * Pow2(n), WORD_COUNT);
    FromNat(Val(w) * Pow2(n), WORD_COUNT)
  }

  /** Twelve words are determined by the number they spell. */
  lemma BigEqual(a: seq<Word>, b: seq<Word>)
    requires IsBig(a) && IsBig(b) && Val(a) == Val(b)
    ensures a == b
  {
    ValInjective(a, b);
  }

  lemma ValBig(w: seq<Word>)
    requires IsBig(w)
    ensures Val(w) < MODULUS
  {
    ValBound(w);
  }

  // ---------------------------------------------------------------------------
  // Addition modulo 2^384

  lemma SumCommutes(a: seq<Word>, b: seq<Word>)
    requires IsBig(a) && IsBig(b)
    ensures Sum(a, b) == Sum(b, a)
  {
    BigEqual(Sum(a, b), Sum(b, a));
  }

  lemma SumAssociates(a: seq<Word>, b: seq<Word>, c: seq<Word>)
    requires IsBig(a) && IsBig(b) && IsBig(c)
    ensures Sum(Sum(a, b), c) == Sum(a, Sum(b, c))
  {
    var ab, bc := Sum(a, b), Sum(b, c);
    var l, r := Sum(ab, c), Sum(a, bc);
    AddModAssociates(Val(a), Val(b), Val(c), MODULUS);
    assert Val(l) == Val(r);
    BigEqual(l, r);
  }

  lemma AddModAssociates(x: nat, y: nat, z: nat, m: nat)
    requires m > 0
    ensures ((x + y) % m + z) % m == (x + (y + z) % m) % m
  {
    var b := (y + z) % m;
    ModAddLeft(x + y, z, m);
    ModAddLeft(y + z, x, m);
    assert x + b == b + x;
  }

  /** Adding BIG0 changes nothing. */
  lemma SumZero(a: seq<Word>)
    requires IsBig(a)
    ensures Sum(a, Zeros(WORD_COUNT)) == a
  {
    ValZeros(WORD_COUNT);
    ValBig(a);
    ModOfSmall(Val(a), MODULUS);
    BigEqual(Sum(a, Zeros(WORD_COUNT)), a);
  }

  /** The carry out of word 11 is dropped: the sum wraps past 2^384 - 1. */
  lemma SumWraps(a: seq<Word>, b: seq<Word>)
    requires IsBig(a) && IsBig(b) && Val(a) + Val(b) >= MODULUS
    ensures Val(Sum(a, b)) == Val(a) + Val(b) - MODULUS
  {
    ValBig(a);
    ValBig(b);
    WrapOnce(Val(Sum(a, b)), Val(a), Val(b), MODULUS);
  }

  lemma WrapOnce(v: nat, x: nat, y: nat, m: nat)
    requires x < m && y < m && x + y >= m && v == (x + y) % m
    ensures v == x + y - m
  {
    DivModUnique(x + y, m, 1, x + y - m);
  }

  // ---------------------------------------------------------------------------
  // Shifting left modulo 2^384

  lemma MulModLeft(x: nat, y: nat, m: nat)
    requires m > 0
    ensures ((x % m) * y) % m == (x * y) % m
  {
    var q := x / m;
    assert x * y == (x % m) * y + (q * y) * m by {
      assert x == (x % m) + q * m;
    }
    ModAddMultiple((x % m) * y, q * y, m);
  }

  lemma ShiftByZero(w: seq<Word>)
    requires IsBig(w)
    ensures ShiftedLeft(w, 0) == w
  {
    ValBig(w);
    ModOfSmall(Val(w), MODULUS);
    BigEqual(ShiftedLeft(w, 0), w);
  }

  /** Shifting by a and then by b is shifting by a + b. */
  lemma ShiftComposes(w: seq<Word>, a: nat, b: nat)
    requires IsBig(w)
    ensures ShiftedLeft(ShiftedLeft(w, a), b) == ShiftedLeft(w, a + b)
  {
    var v := Val(w);
    calc {
      Val(ShiftedLeft(ShiftedLeft(w, a), b));
      (((v * Pow2(a)) % MODULUS) * Pow2(b)) % MODULUS;
      { MulModLeft(v * Pow2(a), Pow2(b), MODULUS); }
      ((v * Pow2(a)) * Pow2(b)) % MODULUS;
      { Pow2Add(a, b); assert (v * Pow2(a)) * Pow2(b) == v * (Pow2(a) * Pow2(b)); }
      (v * Pow2(a + b)) % MODULUS;
    }
    BigEqual(ShiftedLeft(ShiftedLeft(w, a), b), ShiftedLeft(w, a + b));
  }

  /** 2^n is a multiple of 2^384 once n >= 384. */
  lemma Pow2PastWidth(n: nat)
    requires n >= 32 * WORD_COUNT
    ensures Pow2(n) == MODULUS * Pow2(n - 32 * WORD_COUNT)
  {
    WeightIsPow2(WORD_COUNT);
    Pow2Add(32 * WORD_COUNT, n - 32 * WORD_COUNT);
  }

  /** Shifting by 384 or more bits leaves nothing. */
  lemma ShiftPastWidth(w: seq<Word>, n: nat)
    requires IsBig(w) && n >= 32 * WORD_COUNT
    ensures ShiftedLeft(w, n) == Zeros(WORD_COUNT)
  {
    Pow2PastWidth(n);
    var k := Val(w) * Pow2(n - 32 * WORD_COUNT);
    assert Val(w) * Pow2(n) == k * MODULUS;
    ModAddMultiple(0, k, MODULUS);
    ValZeros(WORD_COUNT);
    BigEqual(ShiftedLeft(w, n), Zeros(WORD_COUNT));
  }

  /** Shifting by k whole words moves word i to word i + k and fills the low k words with zeros. */
  lemma ShiftByWords(w: seq<Word>, k: nat)
    requires IsBig(w) && k <= WORD_COUNT
    ensures ShiftedLeft(w, 32 * k) == Zeros(k) + w[..WORD_COUNT - k]
  {
    var low := w[..WORD_COUNT - k];
    var r := Zeros(k) + low;
    assert Val(r) == Weight(k) * Val(low) by {
      ValAppend(Zeros(k), low);
      ValZeros(k);
    }
    assert Val(low) == Val(w) % Weight(WORD_COUNT - k) by {
      ValSplit(w, WORD_COUNT - k);
    }
    ScaleMod(Val(w), k);
    BigEqual(ShiftedLeft(w, 32 * k), r);
  }

  /** BASE^k * (v mod BASE^(12-k)) is v * 2^(32k) mod 2^384. */
  lemma ScaleMod(v: nat, k: nat)
    requires k <= WORD_COUNT
    ensures Weight(k) * (v % Weight(WORD_COUNT - k)) == (v * Pow2(32 * k)) % MODULUS
  {
    var w, r := Weight(k), Weight(WORD_COUNT - k);
    assert MODULUS == w * r by { WeightAdd(k, WORD_COUNT - k); }
    assert Pow2(32 * k) == w by { WeightIsPow2(k); }
    var lhs := (v % r) * w;
    assert lhs == (v * w) % (w * r) by { MulMod(v, w, r); }
    assert w * (v % r) == lhs;
    assert (v * Pow2(32 * k)) % MODULUS == (v * w) % (w * r);
  }

  /** After a shift by n bits, the words below n / 32 are zero. */
  lemma ShiftClearsLowWords(w: seq<Word>, n: nat, i: nat)
    requires IsBig(w) && i < WORD_COUNT && i < n / 32
    ensures ShiftedLeft(w, n)[i] == 0
  {
    var k := n / 32;
    var b := n % 32;
    if k <= WORD_COUNT {
      Pow2Add(32 * k, b);
      ShiftComposes(w, 32 * k, b);
      ShiftByWords(w, k);
      var m := Zeros(k) + w[..WORD_COUNT - k];
      ShiftLowWordsStayZero(m, b, k, i);
    } else {
      ShiftPastWidth(w, n);
    }
  }

  /** Shifting by fewer than 32 bits keeps the zero words at the bottom zero. */
  lemma ShiftLowWordsStayZero(m: seq<Word>, b: nat, k: nat, i: nat)
    requires IsBig(m) && b < 32 && i < k <= WORD_COUNT
    requires forall j | 0 <= j < k :: m[j] == 0
    ensures ShiftedLeft(m, b)[i] == 0
  {
    var r := ShiftedLeft(m, b);
    var wi, wr := Weight(i), Weight(k - i);
    var hi := ShiftedMultiple(m, b, k, i);
    assert wr % BASE == 0 by {
      assert wr == 0 + Weight(k - i - 1) * BASE;
      ModAddMultiple(0, Weight(k - i - 1), BASE);
    }
    DivisionOfMultiple(hi, wr, wi);
    WordOfVal(r, i);
  }

  /** With k zero words at the bottom, the shifted value is still a multiple of BASE^k. */
  lemma ShiftedMultiple(m: seq<Word>, b: nat, k: nat, i: nat) returns (hi: nat)
    requires IsBig(m) && i < k <= WORD_COUNT
    requires forall j | 0 <= j < k :: m[j] == 0
    ensures Val(ShiftedLeft(m, b)) == hi * (Weight(i) * Weight(k - i))
  {
    var t := m[k..];
    hi := ScaledStaysMultiple(Val(t), Pow2(b), k);
    assert Val(m) == Weight(k) * Val(t) by {
      ZerosBelow(m, k);
      ValAppend(Zeros(k), t);
      ValZeros(k);
    }
    WeightAdd(i, k - i);
    Substitute(Val(ShiftedLeft(m, b)), Val(m), Weight(k), Val(t), Pow2(b), hi, Weight(i), Weight(k - i));
  }

  /** The substitutions ShiftedMultiple needs, on plain numbers. */
  lemma Substitute(r: nat, vm: nat, w: nat, v: nat, p: nat, hi: nat, wi: nat, wr: nat)
    requires r == (vm * p) % MODULUS && vm == w * v && (w * v * p) % MODULUS == hi * w
    requires w == wi * wr
    ensures r == hi * (wi * wr)
  {
  }

  lemma ZerosBelow(m: seq<Word>, k: nat)
    requires k <= |m| && forall j | 0 <= j < k :: m[j] == 0
    ensures m == Zeros(k) + m[k..]
  {
    assert forall j | 0 <= j < |m| :: m[j] == (Zeros(k) + m[k..])[j];
  }

  lemma MulRotate(a: nat, b: nat, c: nat)
    ensures a * b * c == (b * c) * a
  {
  }

  /** (BASE^k * t * p) mod 2^384 is again BASE^k times something. */
  lemma ScaledStaysMultiple(t: nat, p: nat, k: nat) returns (hi: nat)
    requires k <= WORD_COUNT
    ensures (Weight(k) * t * p) % MODULUS == hi * Weight(k)
  {
    var w, r := Weight(k), Weight(WORD_COUNT - k);
    assert MODULUS == w * r by { WeightAdd(k, WORD_COUNT - k); }
    MulMod(t * p, w, r);
    MulRotate(w, t, p);
    hi := (t * p) % r;
  }

  /** h * BASE^i * a divided by BASE^i, with a a multiple of BASE, is a multiple of BASE. */
  lemma DivisionOfMultiple(h: nat, a: nat, b: nat)
    requires a % BASE == 0 && b > 0
    ensures ((h * (b * a)) / b) % BASE == 0
  {
    assert h * (b * a) == (h * a) * b;
    MulMod(h * a, b, 1);
    DivModUnique((h * a) * b, b, h * a, 0);
    var q := a / BASE;
    assert h * a == (h * q) * BASE;
    ModAddMultiple(0, h * q, BASE);
  }
}
