/** Reduction modulo the NIST P-192 prime, p = 2^192 - 2^64 - 1: the fast reduction
    B = T + S1 + S2 + S3 of FIPS 186-4, Appendix D.2.1, that modp192c computes over
    32-bit words, both as the C code carries it out and with exact carries. */
module P192 {
  import opened Words
  import opened Arithmetic

  /** p = 2^192 - 2^64 - 1 */
  const P: nat := 0xFFFF_FFFF_FFFF_FFFF_FFFF_FFFF_FFFF_FFFE_FFFF_FFFF_FFFF_FFFF

  const TWO_64: nat := 0x1_0000_0000_0000_0000
  const TWO_128: nat := 0x1_0000_0000_0000_0000_0000_0000_0000_0000
  const TWO_192: nat := 0x1_0000_0000_0000_0000_0000_0000_0000_0000_0000_0000_0000_0000

  /** The words of a reduced value: words 6..11 are cleared at the end. */
  const HALF: nat := 6

  /** The fold schedule of the first pass, two or three source words per result word. */
  const FIELD: seq<nat> := [6, 10, 7, 11, 8, 6, 10, 9, 7, 11, 10, 8, 11, 9]

  lemma Weights()
    ensures Weight(2) == TWO_64 && Weight(4) == TWO_128 && Weight(HALF) == TWO_192
    ensures P + TWO_64 + 1 == TWO_192
  {
  }

  // ---------------------------------------------------------------------------
  // The schedule and the column totals

  /** Where column x's sources start in FIELD: y advances by 2, and by 3 for columns 2 and 3. */
  function ColumnStart(x: nat): nat
    requires x <= HALF
  {
    2 * x + (if x >= 4 then 2 else if x == 3 then 1 else 0)
  }

  function Width(x: nat): nat
  {
    if x == 2 || x == 3 then 3 else 2
  }

  /** The source words folded into word x. */
  function Sources(x: nat): (r: seq<nat>)
    requires x < HALF
    ensures |r| == Width(x) && forall i | 0 <= i < |r| :: HALF <= r[i] < WORD_COUNT
  {
    FIELD[ColumnStart(x)..ColumnStart(x) + Width(x)]
  }

  /** The schedule as sets: {6,10} into 0, {7,11} into 1, {8,6,10} into 2, {9,7,11} into 3,
      {10,8} into 4 and {11,9} into 5; the loop over y ends exactly at the end of FIELD. */
  lemma ScheduleColumns()
    ensures Sources(0) == [6, 10] && Sources(1) == [7, 11] && Sources(2) == [8, 6, 10]
    ensures Sources(3) == [9, 7, 11] && Sources(4) == [10, 8] && Sources(5) == [11, 9]
    ensures ColumnStart(HALF) == |FIELD|
  {
    assert Sources(0) == FIELD[0..2];
    assert Sources(1) == FIELD[2..4];
    assert Sources(2) == FIELD[4..7];
    assert Sources(3) == FIELD[7..10];
    assert Sources(4) == FIELD[10..12];
    assert Sources(5) == FIELD[12..14];
  }

  function SumOf(v: seq<Word>, srcs: seq<nat>): nat
    requires forall i | 0 <= i < |srcs| :: srcs[i] < |v|
  {
    if |srcs| == 0 then 0 else SumOf(v, srcs[..|srcs| - 1]) + v[srcs[|srcs| - 1]]
  }

  /** Word x plus the words folded into it: what the first pass adds up in column x. */
  function ColumnTotal(v: seq<Word>, x: nat): nat
    requires IsBig(v) && x < HALF
  {
    v[x] + SumOf(v, Sources(x))
  }

  function ColumnTotals(v: seq<Word>): (r: seq<nat>)
    requires IsBig(v)
    ensures |r| == HALF
  {
    seq(HALF, x requires 0 <= x < HALF => ColumnTotal(v, x))
  }

  lemma ColumnTotalsAre(v: seq<Word>)
    requires IsBig(v)
    ensures ColumnTotals(v) == [v[0] as nat + v[6] + v[10], v[1] as nat + v[7] + v[11], v[2] as nat + v[8] + v[6] + v[10],
                                v[3] as nat + v[9] + v[7] + v[11], v[4] as nat + v[10] + v[8], v[5] as nat + v[11] + v[9]]
  {
    ScheduleColumns();
    var s := [v[0] as nat + v[6] + v[10], v[1] as nat + v[7] + v[11], v[2] as nat + v[8] + v[6] + v[10],
              v[3] as nat + v[9] + v[7] + v[11], v[4] as nat + v[10] + v[8], v[5] as nat + v[11] + v[9]];
    forall x | 0 <= x < HALF ensures ColumnTotals(v)[x] == s[x] {
      SumOfSources(v, Sources(x));
    }
  }

  lemma SumOfSources(v: seq<Word>, srcs: seq<nat>)
    requires forall i | 0 <= i < |srcs| :: srcs[i] < |v|
    ensures |srcs| == 2 ==> SumOf(v, srcs) == v[srcs[0]] as nat + v[srcs[1]]
    ensures |srcs| == 3 ==> SumOf(v, srcs) == v[srcs[0]] as nat + v[srcs[1]] + v[srcs[2]]
  {
    if |srcs| == 2 || |srcs| == 3 {
      assert SumOf(v, srcs[..1]) == v[srcs[0]] by {
        assert srcs[..1][..0] == [];
      }
      assert SumOf(v, srcs[..2]) == v[srcs[0]] as nat + v[srcs[1]] by {
        assert srcs[..2][..1] == srcs[..1];
      }
      if |srcs| == 2 {
        assert srcs[..2] == srcs;
      }
    }
  }

  // ---------------------------------------------------------------------------
  // FIPS 186-4, D.2.1, over 64-bit limbs

  /** The 64-bit limb A_i = v[2i] + v[2i+1] 2^32 of the 384-bit input. */
  function Limb(v: seq<Word>, i: nat): nat
    requires IsBig(v) && i < HALF
  {
    v[2 * i] + v[2 * i + 1] * BASE
  }

  /** T + S1 + S2 + S3 with T = (A2, A1, A0), S1 = (0, A3, A3), S2 = (A4, A4, 0) and
      S3 = (A5, A5, A5), as the standard defines it. */
  function FipsSum(v: seq<Word>): nat
    requires IsBig(v)
  {
    var t := Limb(v, 0) + Limb(v, 1) * TWO_64 + Limb(v, 2) * TWO_128;
    var s1 := Limb(v, 3) + Limb(v, 3) * TWO_64;
    var s2 := Limb(v, 4) * TWO_64 + Limb(v, 4) * TWO_128;
    var s3 := Limb(v, 5) + Limb(v, 5) * TWO_64 + Limb(v, 5) * TWO_128;
    t + s1 + s2 + s3
  }

  lemma {:induction false} ValSix(s: seq<nat>)
    requires |s| == HALF
    ensures Val(s) == s[0] + s[1] * BASE + s[2] * TWO_64 + s[3] * (BASE * TWO_64)
                      + s[4] * TWO_128 + s[5] * (BASE * TWO_128)
  {
    assert Val(s[5..]) == s[5] by { assert s[5..][1..] == []; }
    assert Val(s[4..]) == s[4] + BASE * s[5] by { assert s[4..][1..] == s[5..]; }
    assert Val(s[3..]) == s[3] + BASE * Val(s[4..]) by { assert s[3..][1..] == s[4..]; }
    assert Val(s[2..]) == s[2] + BASE * Val(s[3..]) by { assert s[2..][1..] == s[3..]; }
    assert Val(s[1..]) == s[1] + BASE * Val(s[2..]) by { assert s[1..][1..] == s[2..]; }
  }

  /** The first pass's columns add up to the standard's T + S1 + S2 + S3. */
  lemma ColumnsAreFips(v: seq<Word>)
    requires IsBig(v)
    ensures Val(ColumnTotals(v)) == FipsSum(v)
  {
    ColumnTotalsAre(v);
    ValSix(ColumnTotals(v));
  }

  /** T + S1 + S2 + S3 is congruent to the input modulo p. */
  lemma FipsCongruent(v: seq<Word>)
    requires IsBig(v)
    ensures FipsSum(v) % P == Val(v) % P
  {
    var lo, hi := v[..HALF], v[HALF..];
    assert Val(v) == Val(lo) + TWO_192 * Val(hi) by {
      assert lo + hi == v;
      ValAppend(lo, hi);
      Weights();
    }
    var a0, a1, a2 := Limb(v, 0), Limb(v, 1), Limb(v, 2);
    var a3, a4, a5 := Limb(v, 3), Limb(v, 4), Limb(v, 5);
    assert Val(lo) == a0 + a1 * TWO_64 + a2 * TWO_128 by {
      ValSix(lo);
    }
    assert Val(hi) == a3 + a4 * TWO_64 + a5 * TWO_128 by {
      ValSix(hi);
    }
    assert FipsSum(v) == FipsOf(a0, a1, a2, a3, a4, a5);
    LimbsCongruent(Val(v), Val(lo), Val(hi), a0, a1, a2, a3, a4, a5);
  }

  lemma LimbsCongruent(n: nat, low: nat, high: nat, a0: nat, a1: nat, a2: nat, a3: nat, a4: nat, a5: nat)
    requires n == low + TWO_192 * high
    requires low == a0 + a1 * TWO_64 + a2 * TWO_128 && high == a3 + a4 * TWO_64 + a5 * TWO_128
    ensures FipsOf(a0, a1, a2, a3, a4, a5) % P == n % P
  {
    var k := a3 + a4 * TWO_64 + a5 * (TWO_128 + 1);
    FoldIdentity(a0, a1, a2, a3, a4, a5);
    ModAddMultiple(FipsOf(a0, a1, a2, a3, a4, a5), k, P);
  }

  /** T + S1 + S2 + S3 on the limbs A0..A5. */
  function FipsOf(a0: nat, a1: nat, a2: nat, a3: nat, a4: nat, a5: nat): nat
  {
    (a0 + a1 * TWO_64 + a2 * TWO_128) + (a3 + a3 * TWO_64) + (a4 * TWO_64 + a4 * TWO_128)
    + (a5 + a5 * TWO_64 + a5 * TWO_128)
  }

  /** The input, as limbs, is T + S1 + S2 + S3 plus a multiple of p, since 2^192 = p + 2^64 + 1. */
  lemma FoldIdentity(a0: nat, a1: nat, a2: nat, a3: nat, a4: nat, a5: nat)
    ensures a0 + a1 * TWO_64 + a2 * TWO_128 + TWO_192 * (a3 + a4 * TWO_64 + a5 * TWO_128)
         == FipsOf(a0, a1, a2, a3, a4, a5) + (a3 + a4 * TWO_64 + a5 * (TWO_128 + 1)) * P
  {
  }

  // ---------------------------------------------------------------------------
  // Reduction with exact carries

  /** The words and the final carry of a ripple-carry pass. */
  datatype Rippled = Rippled(words: seq<Word>, carry: nat)

  /** An exact ripple-carry pass over the first n column totals. */
  function Ripple(cols: seq<nat>, n: nat): (r: Rippled)
    requires n <= |cols|
    ensures |r.words| == n
    ensures Val(r.words) + r.carry * Weight(n) == Val(cols[..n])
  {
    if n == 0 then Rippled([], 0)
    else
      var prev := Ripple(cols, n - 1);
      var total := cols[n - 1] + prev.carry;
      var r := Rippled(prev.words + [total % BASE], total / BASE);
      RippleStep(cols, n, prev.words, prev.carry, total);
      r
  }

  lemma RippleStep(cols: seq<nat>, n: nat, words: seq<Word>, carry: nat, total: nat)
    requires 0 < n <= |cols| && |words| == n - 1 && total == cols[n - 1] + carry
    requires Val(words) + carry * Weight(n - 1) == Val(cols[..n - 1])
    ensures Val(words + [total % BASE]) + (total / BASE) * Weight(n) == Val(cols[..n])
  {
    var w := Weight(n - 1);
    ValAppend(words, [total % BASE]);
    assert Val([total % BASE]) == total % BASE;
    ValSnoc(cols, n - 1);
    assert Weight(n) == BASE * w;
    CarryStep(Val(words), carry, w, Val(cols[..n - 1]), total % BASE, total / BASE, cols[n - 1]);
  }

  /** Adding t at words 0 and 2 adds t (2^64 + 1), which is t 2^192 modulo p. */
  function AddFold(w: seq<Word>, t: nat): (r: seq<nat>)
    requires |w| == HALF
    ensures |r| == HALF
    ensures Val(r) == Val(w) + t * (TWO_64 + 1)
  {
    var n: seq<nat> := w;
    var r := n[0 := n[0] + t][2 := n[2] + t];
    ValSix(w);
    ValSix(r);
    r
  }

  /** modp192c with every carry counted exactly: fold the columns, then fold the carry out
      of word 5 back in at words 0 and 2, twice. */
  function Reduce(v: seq<Word>): (r: seq<Word>)
    requires IsBig(v)
    ensures IsBig(r)
  {
    var p1 := Ripple(ColumnTotals(v), HALF);
    var p2 := Ripple(AddFold(p1.words, p1.carry), HALF);
    var p3 := Ripple(AddFold(p2.words, p2.carry), HALF);
    p3.words + Zeros(HALF)
  }

  /** The value of n column totals of at most m words each. */
  lemma {:induction false} ValColumnsBound(s: seq<nat>, m: nat)
    requires forall i | 0 <= i < |s| :: s[i] <= m * (BASE - 1)
    ensures Val(s) <= m * (Weight(|s|) - 1)
  {
    if |s| > 0 {
      ValColumnsBound(s[1..], m);
      assert Weight(|s|) == BASE * Weight(|s| - 1);
      assert BASE * Val(s[1..]) <= BASE * (m * (Weight(|s| - 1) - 1)) by {
        MulLeMul(Val(s[1..]), m * (Weight(|s| - 1) - 1), BASE);
      }
    } else {
      assert Val(s) == 0;
    }
  }

  /** A ripple pass over six column totals: six words and the carry out of word 5. */
  lemma RippleSix(cols: seq<nat>)
    requires |cols| == HALF
    ensures var r := Ripple(cols, HALF);
      Val(r.words) < TWO_192 && Val(r.words) + r.carry * TWO_192 == Val(cols)
  {
    assert cols[..HALF] == cols;
    ValBound(Ripple(cols, HALF).words);
    Weights();
  }

  /** The three passes of Reduce, with the carries they produce. */
  lemma ReduceCarries(v: seq<Word>) returns (c1: nat, c2: nat)
    requires IsBig(v)
    ensures c1 <= 3 && c2 <= 1
    ensures var p1 := Ripple(ColumnTotals(v), HALF);
            var p2 := Ripple(AddFold(p1.words, p1.carry), HALF);
            var p3 := Ripple(AddFold(p2.words, p2.carry), HALF);
            && p1.carry == c1 && p2.carry == c2 && p3.carry == 0
            && Val(p3.words) + (c1 + c2) * P == Val(ColumnTotals(v))
  {
    var cols := ColumnTotals(v);
    assert Val(cols) <= 4 * (TWO_192 - 1) by {
      ColumnTotalsAre(v);
      ValColumnsBound(cols, 4);
      Weights();
    }
    var p1 := Ripple(cols, HALF);
    RippleSix(cols);
    c1 := p1.carry;
    var f1 := AddFold(p1.words, c1);
    var p2 := Ripple(f1, HALF);
    RippleSix(f1);
    c2 := p2.carry;
    var f2 := AddFold(p2.words, c2);
    var p3 := Ripple(f2, HALF);
    RippleSix(f2);
    CarryBounds(Val(cols), Val(p1.words), c1, Val(p2.words), c2, Val(p3.words), p3.carry);
  }

  /** The arithmetic of ReduceCarries: Val(cols) < 4 2^192 leaves at most 3, then 1, then 0. */
  lemma CarryBounds(cols: nat, w1: nat, c1: nat, w2: nat, c2: nat, w3: nat, c3: nat)
    requires cols <= 4 * (TWO_192 - 1)
    requires w1 < TWO_192 && w1 + c1 * TWO_192 == cols
    requires w2 < TWO_192 && w2 + c2 * TWO_192 == w1 + c1 * (TWO_64 + 1)
    requires w3 < TWO_192 && w3 + c3 * TWO_192 == w2 + c2 * (TWO_64 + 1)
    ensures c1 <= 3 && c2 <= 1 && c3 == 0
    ensures w3 + (c1 + c2) * P == cols
  {
    Weights();
  }

  /** Reduce keeps the input's residue modulo p and leaves a value below 2^192. */
  lemma ReduceCorrect(v: seq<Word>)
    requires IsBig(v)
    ensures Val(Reduce(v)) % P == Val(v) % P
    ensures Val(Reduce(v)) < TWO_192
    ensures forall i | HALF <= i < WORD_COUNT :: Reduce(v)[i] == 0
  {
    var c1, c2 := ReduceCarries(v);
    var p1 := Ripple(ColumnTotals(v), HALF);
    var p2 := Ripple(AddFold(p1.words, p1.carry), HALF);
    var p3 := Ripple(AddFold(p2.words, p2.carry), HALF);
    var w := p3.words;
    assert Reduce(v) == w + Zeros(HALF);
    assert Val(Reduce(v)) == Val(w) by {
      ValAppend(w, Zeros(HALF));
      ValZeros(HALF);
    }
    assert Val(w) < TWO_192 by {
      ValBound(w);
      Weights();
    }
    ColumnsAreFips(v);
    FipsCongruent(v);
    SameResidue(Val(w), c1 + c2, FipsSum(v), Val(v));
  }

  lemma SameResidue(a: nat, k: nat, f: nat, x: nat)
    requires a + k * P == f && f % P == x % P
    ensures a % P == x % P
  {
    ModAddMultiple(a, k, P);
  }

  // ---------------------------------------------------------------------------
  // modp192c as written

  /** The variables of modp192c: the array, the carry counters temp[] and temp2[], and carry. */
  datatype Reduction = Reduction(value: seq<Word>, temp: seq<nat>, temp2: seq<nat>, carry: Word)
  {
    predicate Valid()
    {
      IsBig(value) && |temp| == HALF && |temp2| == HALF
    }
  }

  function NoCarries(): (r: seq<nat>)
    ensures |r| == HALF && forall i | 0 <= i < HALF :: r[i] == 0
  {
    seq(HALF, _ => 0)
  }

  /** The state on entry; carry holds whatever the uninitialised variable holds. */
  function Start(v: seq<Word>, carry0: Word): (r: Reduction)
    requires IsBig(v)
    ensures r.Valid()
  {
    Reduction(v, NoCarries(), NoCarries(), carry0)
  }

  /** One fold of the first pass: add word src into word x, then set carry to
      `carry_next || value[x] < carry` and count it in temp[x]. */
  function FoldIn(r: Reduction, x: nat, src: nat): (r': Reduction)
    requires r.Valid() && x < HALF && src < WORD_COUNT
    ensures r'.Valid()
  {
    var addend := r.value[src];
    var sum := (r.value[x] + addend) % BASE;
    var carry: Word := if sum < addend || sum < r.carry then 1 else 0;
    Reduction(r.value[x := sum], r.temp[x := r.temp[x] + carry], r.temp2, carry)
  }

  /** One iteration of the first loop: the two or three folds of column x, then the carry
      count of column x - 1 added to word x without an overflow check. */
  function Column(r: Reduction, x: nat): (r': Reduction)
    requires r.Valid() && x < HALF
    ensures r'.Valid()
  {
    var y := ColumnStart(x);
    var r1 := FoldIn(FoldIn(r, x, FIELD[y]), x, FIELD[y + 1]);
    var r2 := if x == 2 || x == 3 then FoldIn(r1, x, FIELD[y + 2]) else r1;
    if x > 0 then r2.(value := r2.value[x := (r2.value[x] + r2.temp[x - 1]) % BASE]) else r2
  }

  /** The first loop, for columns 0 .. n-1. */
  function Pass1(r: Reduction, n: nat): (r': Reduction)
    requires r.Valid() && n <= HALF
    ensures r'.Valid()
  {
    if n == 0 then r else Column(Pass1(r, n - 1), n - 1)
  }

  /** What the second loop adds into word x: temp[5] at words 0 and 2, and the carry
      counted at word x - 1. */
  function Addend2(r: Reduction, x: nat): nat
    requires r.Valid() && x < HALF
  {
    if x == 0 then r.temp[5]
    else if x == 2 then r.temp[5] + r.temp2[1]
    else r.temp2[x - 1]
  }

  /** One iteration of the second loop. */
  function Step2(r: Reduction, x: nat): (r': Reduction)
    requires r.Valid() && x < HALF
    ensures r'.Valid()
  {
    var before := r.value[x];
    var sum := (before + Addend2(r, x)) % BASE;
    var carry: Word := if sum < before || sum < r.carry then 1 else 0;
    Reduction(r.value[x := sum], r.temp, r.temp2[x := r.temp2[x] + carry], carry)
  }

  /** The second loop, for words 0 .. n-1. */
  function Pass2(r: Reduction, n: nat): (r': Reduction)
    requires r.Valid() && n <= HALF
    ensures r'.Valid()
  {
    if n == 0 then r else Step2(Pass2(r, n - 1), n - 1)
  }

  /** The last correction: temp2[5] added to words 0 and 2 without an overflow check. */
  function Correct(r: Reduction): (r': Reduction)
    requires r.Valid()
    ensures r'.Valid()
  {
    if r.temp2[5] > 0 then
      var t := r.temp2[5];
      r.(value := r.value[0 := (r.value[0] + t) % BASE][2 := (r.value[2] + t) % BASE])
    else r
  }

  /** Both passes; the second (and the correction) only when temp[5] > 0. */
  function Passes(v: seq<Word>, carry0: Word): (r: Reduction)
    requires IsBig(v)
    ensures r.Valid()
  {
    var r1 := Pass1(Start(v, carry0), HALF);
    if r1.temp[5] > 0 then Correct(Pass2(r1, HALF)) else r1
  }

  /** The twelve words modp192c leaves, words 6..11 cleared by the last loop. */
  function ModP192AsWritten(v: seq<Word>, carry0: Word): (r: seq<Word>)
    requires IsBig(v)
    ensures IsBig(r)
  {
    Passes(v, carry0).value[..HALF] + Zeros(HALF)
  }

  /** The result of modp192c is the value of the six low words the passes leave, so it is
      below 2^192 (and so below 2p) whatever the carries did. */
  lemma AsWrittenValue(v: seq<Word>, carry0: Word)
    requires IsBig(v)
    ensures Val(ModP192AsWritten(v, carry0)) == Low(Passes(v, carry0)) < TWO_192
  {
    var r := Passes(v, carry0);
    ValAppend(r.value[..HALF], Zeros(HALF));
    ValZeros(HALF);
    ValBound(r.value[..HALF]);
    Weights();
  }

  // ---------------------------------------------------------------------------
  // What the counters of modp192c can hold

  /** One fold counts at most one carry, in temp[x], and touches no other counter. */
  lemma FoldInCounts(r: Reduction, x: nat, src: nat)
    requires r.Valid() && x < HALF && src < WORD_COUNT
    ensures var r' := FoldIn(r, x, src);
      && r'.temp[x] <= r.temp[x] + 1
      && (forall i | 0 <= i < HALF && i != x :: r'.temp[i] == r.temp[i])
  {
  }

  /** Column x counts at most Width(x) carries, all of them in temp[x]. */
  lemma ColumnCounts(r: Reduction, x: nat)
    requires r.Valid() && x < HALF
    ensures var r' := Column(r, x);
      && r'.temp[x] <= r.temp[x] + Width(x)
      && (forall i | 0 <= i < HALF && i != x :: r'.temp[i] == r.temp[i])
  {
    var y := ColumnStart(x);
    var r0 := FoldIn(r, x, FIELD[y]);
    FoldInCounts(r, x, FIELD[y]);
    var r1 := FoldIn(r0, x, FIELD[y + 1]);
    FoldInCounts(r0, x, FIELD[y + 1]);
    if x == 2 || x == 3 {
      FoldInCounts(r1, x, FIELD[y + 2]);
    }
  }

  /** After columns 0 .. n-1, counter x has grown by at most Width(x), and only for x < n. */
  lemma {:induction false} Pass1Counts(r: Reduction, n: nat)
    requires r.Valid() && n <= HALF
    ensures forall x | 0 <= x < HALF :: Pass1(r, n).temp[x] <= r.temp[x] + (if x < n then Width(x) else 0)
  {
    if n > 0 {
      Pass1Counts(r, n - 1);
      ColumnCounts(Pass1(r, n - 1), n - 1);
    }
  }

  /** The first pass leaves temp[x] <= 2, and <= 3 for the three-source columns 2 and 3. */
  lemma TempBounds(v: seq<Word>, carry0: Word)
    requires IsBig(v)
    ensures forall x | 0 <= x < HALF :: Pass1(Start(v, carry0), HALF).temp[x] <= Width(x) <= 3
  {
    Pass1Counts(Start(v, carry0), HALF);
  }

  /** The second loop leaves temp[] as the first pass left it. */
  lemma {:induction false} Pass2KeepsTemp(r: Reduction, n: nat)
    requires r.Valid() && n <= HALF
    ensures Pass2(r, n).temp == r.temp
  {
    if n > 0 {
      Pass2KeepsTemp(r, n - 1);
    }
  }

  // ---------------------------------------------------------------------------
  // modp192c is correct when no carry is lost or invented

  /** The first pass counts exactly the carries it makes: in every column the word r1 holds
      plus 2^32 times the carries counted in temp[x] is the column total of v plus the carries
      counted in the column before. */
  predicate Pass1Exact(v: seq<Word>, r1: Reduction)
    requires IsBig(v) && r1.Valid()
  {
    && r1.value[0] + BASE * r1.temp[0] == ColumnTotal(v, 0)
    && forall x | 0 < x < HALF :: r1.value[x] + BASE * r1.temp[x] == ColumnTotal(v, x) + r1.temp[x - 1]
  }

  /** The second loop counts exactly the carries it makes when it adds temp[5] at words 0
      and 2 and the counted carries temp2[x - 1] at word x. */
  predicate Pass2Exact(r1: Reduction)
    requires r1.Valid()
  {
    var r2 := Pass2(r1, HALF);
    var folded := AddFold(r1.value[..HALF], r1.temp[5]);
    && r2.value[0] + BASE * r2.temp2[0] == folded[0]
    && forall x | 0 < x < HALF :: r2.value[x] + BASE * r2.temp2[x] == folded[x] + r2.temp2[x - 1]
  }

  /** The last correction adds temp2[5] at words 0 and 2 without wrapping. */
  predicate CorrectionFits(r2: Reduction)
    requires r2.Valid()
  {
    r2.temp2[5] > 0 ==> r2.value[0] + r2.temp2[5] < BASE && r2.value[2] + r2.temp2[5] < BASE
  }

  /** No carry of modp192c is lost or invented on input v. */
  predicate CarriesExact(v: seq<Word>, carry0: Word)
    requires IsBig(v)
  {
    var r1 := Pass1(Start(v, carry0), HALF);
    Pass1Exact(v, r1) && (r1.temp[5] > 0 ==> Pass2Exact(r1) && CorrectionFits(Pass2(r1, HALF)))
  }

  /** Words a with carry counts t that make up the column totals c, column by column, have
      the value of the totals once the last count is weighed in. */
  lemma {:induction false} CountedCarries(a: seq<nat>, t: seq<nat>, c: seq<nat>, n: nat)
    requires |a| == |t| == |c| && 0 < n <= |a|
    requires a[0] + BASE * t[0] == c[0]
    requires forall x | 0 < x < n :: a[x] + BASE * t[x] == c[x] + t[x - 1]
    ensures Val(a[..n]) + t[n - 1] * Weight(n) == Val(c[..n])
  {
    if n == 1 {
      ValSnoc(a, 0);
      ValSnoc(c, 0);
      assert a[..0] == [] && c[..0] == [];
    } else {
      CountedCarries(a, t, c, n - 1);
      assert a[n - 1] + BASE * t[n - 1] == c[n - 1] + t[n - 2];
      CountedStep(a, t, c, n);
    }
  }

  /** Word n - 1 with its carry count extends the counted value of the words below it. */
  lemma CountedStep(a: seq<nat>, t: seq<nat>, c: seq<nat>, n: nat)
    requires |a| == |t| == |c| && 1 < n <= |a|
    requires Val(a[..n - 1]) + t[n - 2] * Weight(n - 1) == Val(c[..n - 1])
    requires a[n - 1] + BASE * t[n - 1] == c[n - 1] + t[n - 2]
    ensures Val(a[..n]) + t[n - 1] * Weight(n) == Val(c[..n])
  {
    ValSnoc(a, n - 1);
    ValSnoc(c, n - 1);
    var w := Weight(n - 1);
    assert Weight(n) == BASE * w;
    CarryStep(Val(a[..n - 1]), t[n - 2], w, Val(c[..n - 1]), a[n - 1], t[n - 1], c[n - 1]);
  }

  /** The value of the low six words of a state. */
  function Low(r: Reduction): nat
    requires r.Valid()
  {
    Val(r.value[..HALF])
  }

  lemma Pass1Value(v: seq<Word>, r1: Reduction)
    requires IsBig(v) && r1.Valid() && Pass1Exact(v, r1)
    ensures Low(r1) + r1.temp[5] * TWO_192 == FipsSum(v)
  {
    var a: seq<nat> := r1.value[..HALF];
    var cols := ColumnTotals(v);
    assert a[0] + BASE * r1.temp[0] == cols[0];
    forall x | 0 < x < HALF
      ensures a[x] + BASE * r1.temp[x] == cols[x] + r1.temp[x - 1]
    {
      assert a[x] == r1.value[x] && cols[x] == ColumnTotal(v, x);
    }
    CountedCarries(a, r1.temp, cols, HALF);
    assert a[..HALF] == a && cols[..HALF] == cols;
    ColumnsAreFips(v);
    Weights();
  }

  lemma Pass2Value(r1: Reduction)
    requires r1.Valid() && Pass2Exact(r1)
    ensures var r2 := Pass2(r1, HALF);
      Low(r2) + r2.temp2[5] * TWO_192 == Low(r1) + r1.temp[5] * (TWO_64 + 1)
  {
    var r2 := Pass2(r1, HALF);
    var a: seq<nat> := r2.value[..HALF];
    var folded := AddFold(r1.value[..HALF], r1.temp[5]);
    assert a[0] + BASE * r2.temp2[0] == folded[0];
    forall x | 0 < x < HALF
      ensures a[x] + BASE * r2.temp2[x] == folded[x] + r2.temp2[x - 1]
    {
      assert a[x] == r2.value[x];
    }
    CountedCarries(a, r2.temp2, folded, HALF);
    assert a[..HALF] == a && folded[..HALF] == folded;
    Weights();
  }

  lemma CorrectionValue(r2: Reduction)
    requires r2.Valid() && CorrectionFits(r2)
    ensures Low(Correct(r2)) == Low(r2) + r2.temp2[5] * (TWO_64 + 1)
  {
    var t := r2.temp2[5];
    var r3 := Correct(r2);
    var low: seq<nat> := r3.value[..HALF];
    assert low == AddFold(r2.value[..HALF], t);
  }

  /** The three value equations of the passes leave the column sum minus a multiple of p. */
  lemma PassesArithmetic(a1: nat, a2: nat, a3: nat, t5: nat, t2: nat, f: nat)
    requires a1 + t5 * TWO_192 == f
    requires a2 + t2 * TWO_192 == a1 + t5 * (TWO_64 + 1)
    requires a3 == a2 + t2 * (TWO_64 + 1)
    ensures a3 + (t5 + t2) * P == f
  {
    Weights();
  }

  /** When no carry is lost or invented, modp192c keeps the residue modulo p. */
  lemma AsWrittenCongruentWhenExact(v: seq<Word>, carry0: Word)
    requires IsBig(v) && CarriesExact(v, carry0)
    ensures Val(ModP192AsWritten(v, carry0)) % P == Val(v) % P
  {
    var r1 := Pass1(Start(v, carry0), HALF);
    var r := Passes(v, carry0);
    AsWrittenValue(v, carry0);
    Pass1Value(v, r1);
    FipsCongruent(v);
    if r1.temp[5] > 0 {
      var r2 := Pass2(r1, HALF);
      Pass2Value(r1);
      CorrectionValue(r2);
      PassesArithmetic(Low(r1), Low(r2), Low(r), r1.temp[5], r2.temp2[5], FipsSum(v));
      SameResidue(Low(r), r1.temp[5] + r2.temp2[5], FipsSum(v), Val(v));
    } else {
      SameResidue(Low(r), 0, FipsSum(v), Val(v));
    }
  }

  // ---------------------------------------------------------------------------
  // Inputs on which modp192c is exact

  /** Words below 2^30, so that a column of at most four of them stays below 2^32. */
  predicate SmallWords(v: seq<Word>)
  {
    IsBig(v) && forall i | 0 <= i < WORD_COUNT :: v[i] < 0x4000_0000
  }

  /** A fold that does not wrap, entered with no carry, adds its word and counts nothing. */
  lemma FoldInQuiet(r: Reduction, x: nat, src: nat)
    requires r.Valid() && x < HALF && src < WORD_COUNT
    requires r.carry == 0 && r.value[x] + r.value[src] < BASE
    ensures FoldIn(r, x, src) == r.(value := r.value[x := r.value[x] + r.value[src]])
  {
    assert r.temp[x := r.temp[x] + 0] == r.temp;
  }

  /** On small words, with no carries counted, column x leaves its column total in word x
      and nothing else changes. */
  lemma ColumnQuiet(v: seq<Word>, r: Reduction, x: nat)
    requires SmallWords(v) && r.Valid() && x < HALF
    requires r.carry == 0 && r.temp == NoCarries()
    requires r.value[x] == v[x] && forall i | HALF <= i < WORD_COUNT :: r.value[i] == v[i]
    ensures ColumnTotal(v, x) < BASE
    ensures Column(r, x) == r.(value := r.value[x := ColumnTotal(v, x)])
  {
    var y := ColumnStart(x);
    var srcs := Sources(x);
    assert srcs[0] == FIELD[y] && srcs[1] == FIELD[y + 1];
    SumOfSources(v, srcs);
    var r0 := FoldIn(r, x, FIELD[y]);
    FoldInQuiet(r, x, FIELD[y]);
    var r1 := FoldIn(r0, x, FIELD[y + 1]);
    FoldInQuiet(r0, x, FIELD[y + 1]);
    if x == 2 || x == 3 {
      assert srcs[2] == FIELD[y + 2];
      FoldInQuiet(r1, x, FIELD[y + 2]);
    }
    if x > 0 {
      assert r.temp[x - 1] == 0;
    }
  }

  /** On small words and no carry on entry, the first n columns of the first pass leave the
      column totals in words 0 .. n-1 and count no carry. */
  lemma {:induction false} Pass1Quiet(v: seq<Word>, n: nat)
    requires SmallWords(v) && n <= HALF
    ensures var r := Pass1(Start(v, 0), n);
      && r.carry == 0 && r.temp == NoCarries()
      && forall i | 0 <= i < WORD_COUNT :: r.value[i] == if i < n then ColumnTotal(v, i) else v[i]
  {
    if n > 0 {
      Pass1Quiet(v, n - 1);
      ColumnQuiet(v, Pass1(Start(v, 0), n - 1), n - 1);
    }
  }

  /** Words below 2^30 make no addition of modp192c wrap: no carry is lost or invented, the
      second loop is skipped, and the result keeps the residue modulo p. */
  lemma ExactForSmallWords(v: seq<Word>)
    requires SmallWords(v)
    ensures Pass1(Start(v, 0), HALF).temp[5] == 0
    ensures CarriesExact(v, 0)
    ensures Val(ModP192AsWritten(v, 0)) % P == Val(v) % P
  {
    Pass1Quiet(v, HALF);
    AsWrittenCongruentWhenExact(v, 0);
  }
}
