/** The BigInteger class: twelve 32-bit words in an array that every operation changes
    in place, value[0] the least significant. Each method is proved against the function
    on word sequences that says what it computes (Arithmetic, Hex, P192). */
module BigIntegers {
  import opened Words
  import opened Arithmetic
  import opened Hex
  import opened P192

  /** BIG0 of the header, the words of the default constructor. */
  const BIG0: seq<Word> := Zeros(WORD_COUNT)

  /** BIG1 of the header, the words of the word constructor given 1. */
  const BIG1: seq<Word> := [1] + Zeros(WORD_COUNT - 1)

  lemma Constants()
    ensures IsBig(BIG0) && Val(BIG0) == 0
    ensures IsBig(BIG1) && Val(BIG1) == 1
  {
    ValZeros(WORD_COUNT);
    ValZeros(WORD_COUNT - 1);
    ValAppend([1], Zeros(WORD_COUNT - 1));
    assert Val([1]) == 1;
  }

  class BigInteger {
    /** bigIntType value[BIG_INTEGER_MAX_WORDS] */
    var value: array<Word>

    predicate Valid()
      reads this
    {
      value.Length == WORD_COUNT
    }

    /** The number the twelve words spell. */
    function Value(): nat
      reads this, value
      requires Valid()
    {
      Val(value[..])
    }

    /** BigInteger(void): all twelve words zero. */
    constructor ()
      ensures Valid() && fresh(value)
      ensures value[..] == Zeros(WORD_COUNT) && Value() == 0
    {
      var words := new Word[WORD_COUNT];
      var i := 0;
      while i < WORD_COUNT
        invariant 0 <= i <= WORD_COUNT
        invariant forall k | 0 <= k < i :: words[k] == 0
      {
        words[i] := 0;
        i := i + 1;
      }
      value := words;
      ValZeros(WORD_COUNT);
    }

    /** BigInteger(bigIntType val): val in word 0, words 1..11 zero. */
    constructor FromWord(val: Word)
      ensures Valid() && fresh(value)
      ensures value[..] == [val] + Zeros(WORD_COUNT - 1) && Value() == val
    {
      var words := new Word[WORD_COUNT];
      var i := 1;
      while i < WORD_COUNT
        invariant 1 <= i <= WORD_COUNT
        invariant forall k | 1 <= k < i :: words[k] == 0
      {
        words[i] := 0;
        i := i + 1;
      }
      words[0] := val;
      assert words[..] == [val] + Zeros(WORD_COUNT - 1);
      value := words;
      ValAppend([val], Zeros(WORD_COUNT - 1));
      ValZeros(WORD_COUNT - 1);
    }

    /** BigInteger(const char str[]): reads hexadecimal text most significant nibble first,
        up to the first character that is not positive as a signed char. Every eighth nibble
        pushes the finished word in at word 0; at the end the array moves up by the nibbles
        of the unfinished word, which is or-ed into word 0. */
    constructor FromString(str: string)
      ensures Valid() && fresh(value)
      ensures value[..] == Parse(str)
      ensures IsHexString(str) ==> Value() == HexValue(str) % MODULUS
    {
      var words := new Word[WORD_COUNT];
      var z := 0;
      while z < WORD_COUNT
        invariant 0 <= z <= WORD_COUNT
        invariant forall m | 0 <= m < z :: words[m] == 0
      {
        words[z] := 0;
        z := z + 1;
      }
      assert words[..] == Zeros(WORD_COUNT);
      value := words;
      new;
      var i := 1;
      var word: Word := 0;
      var k := 0;
      while k < |str| && Continues(str[k])
        invariant k <= |str| && AllContinue(str[..k]) && Valid() && fresh(value)
        invariant Scan(str[..k]) == ParseState(value[..], word, i)
      {
        var c := (str[k] as int) % 16;
        if str[k] as int > 0x40 {
          c := c + 9;
        }
        assert str[..k + 1][..k] == str[..k] && str[..k + 1][k] == str[k];
        word := (Shl(word, 4) + c) % BASE;
        if i % 8 == 0 {
          InsertWord(word);
          i := 0;
          word := 0;
        }
        i := i + 1;
        k := k + 1;
      }
      TextIsPrefixUpToStop(str, k);
      ShiftLeft((i - 1) * 4);
      value[0] := OrWord(value[0], word);
      if IsHexString(str) {
        ParseHex(str);
      }
    }

    /** The word push of the string constructor: every word moves up one place, the top
        word is lost, and w becomes word 0. */
    method InsertWord(w: Word)
      requires Valid()
      modifies value
      ensures value[..] == [w] + old(value[..])[..WORD_COUNT - 1]
    {
      ghost var a := value[..];
      var j := WORD_COUNT - 1;
      while j > 0
        invariant 0 <= j <= WORD_COUNT - 1
        invariant forall m | j < m < WORD_COUNT :: value[m] == a[m - 1]
        invariant forall m | 0 <= m <= j :: value[m] == a[m]
      {
        value[j] := value[j - 1];
        j := j - 1;
      }
      value[0] := w;
      assert forall m | 0 <= m < WORD_COUNT :: value[m] == ([w] + a[..WORD_COUNT - 1])[m];
    }

    /** compare: true exactly when all twelve words agree; nothing changes. */
    method Compare(testme: BigInteger) returns (equal: bool)
      requires Valid() && testme.Valid()
      ensures equal <==> value[..] == testme.value[..]
      ensures equal <==> Value() == testme.Value()
    {
      ValEqualIff(value[..], testme.value[..]);
      var c := 0;
      while c < WORD_COUNT
        invariant 0 <= c <= WORD_COUNT
        invariant value[..c] == testme.value[..c]
      {
        if value[c] != testme.value[c] {
          return false;
        }
        c := c + 1;
      }
      assert value[..] == value[..WORD_COUNT];
      assert testme.value[..] == testme.value[..WORD_COUNT];
      return true;
    }

    /** addc: ripple-carry addition modulo 2^384. The addend's word is saved before the
        receiver's word is overwritten, so adding a BigInteger to itself doubles it. */
    method AddC(addend: BigInteger)
      requires Valid() && addend.Valid()
      modifies value
      ensures value[..] == Sum(old(value[..]), old(addend.value[..]))
      ensures addend.value != value ==> addend.value[..] == old(addend.value[..])
    {
      ghost var a := value[..];
      ghost var b := addend.value[..];
      var carry: Word := 0;
      var i := 0;
      while i < WORD_COUNT
        invariant 0 <= i <= WORD_COUNT && carry <= 1
        invariant value[i..] == a[i..] && addend.value[i..] == b[i..]
        invariant addend.value != value ==> addend.value[..] == b
        invariant Val(value[..i]) + carry * Weight(i) == Val(a[..i]) + Val(b[..i])
      {
        ghost var done := value[..i];
        var carryNext: Word := addend.value[i];
        assert carryNext == b[i] && value[i] == a[i] by {
          assert addend.value[i..][0] == b[i..][0] && value[i..][0] == a[i..][0];
        }
        value[i] := (value[i] + addend.value[i]) % BASE;
        carryNext := if value[i] < carryNext then 1 else 0;
        ghost var s1 := value[i];
        value[i] := (value[i] + carry) % BASE;
        var carryOut: Word := if carryNext == 1 || value[i] < carry then 1 else 0;
        AddWordCarries(a[i], b[i], carry, s1, value[i], carryNext, carryOut);
        assert value[..i] == done;
        AddWordStep(done, a, b, i, value[i], carry, carryOut);
        assert value[..i + 1] == done + [value[i]];
        carry := carryOut;
        i := i + 1;
        assert value[i..] == a[i..] by {
          assert forall k | i <= k < WORD_COUNT :: value[k] == a[k];
        }
      }
      assert value[..] == value[..WORD_COUNT] && a == a[..WORD_COUNT] && b == b[..WORD_COUNT];
      SumOfCarried(value[..], a, b, carry);
    }

    /** shiftLeft: a shift by val / 32 whole words (at most 12), then by val % 32 bits;
        the bits shifted out of word 11 are lost. */
    method ShiftLeft(val: nat)
      requires Valid()
      modifies value
      ensures value[..] == ShiftedLeft(old(value[..]), val)
    {
      ghost var a := value[..];
      var wordsToShift := val / 32;
      wordsToShift := if wordsToShift > WORD_COUNT then WORD_COUNT else wordsToShift;
      ShiftWords(wordsToShift);
      var bits := val % 32;
      ShiftBits(bits);
      ShiftTotal(a, val, wordsToShift, bits);
    }

    /** The word-level part of shiftLeft: word j takes word j - k, the low k words become zero. */
    method ShiftWords(k: nat)
      requires Valid() && k <= WORD_COUNT
      modifies value
      ensures value[..] == ShiftedLeft(old(value[..]), 32 * k)
    {
      ghost var a := value[..];
      var j := WORD_COUNT - 1;
      while j >= k
        invariant k - 1 <= j <= WORD_COUNT - 1
        invariant forall i | j < i < WORD_COUNT :: value[i] == a[i - k]
        invariant forall i | 0 <= i <= j :: value[i] == a[i]
      {
        value[j] := value[j - k];
        j := j - 1;
      }
      j := k - 1;
      while j >= 0
        invariant -1 <= j <= k - 1
        invariant forall i | k <= i < WORD_COUNT :: value[i] == a[i - k]
        invariant forall i | j < i < k :: value[i] == 0
      {
        value[j] := 0;
        j := j - 1;
      }
      WordsMoved(value[..], a, k);
      ShiftByWords(a, k);
    }

    /** The bit-level part of shiftLeft: each word moves up by bits, taking the top bits of
        the word below it; nothing happens when bits is zero. */
    method ShiftBits(bits: nat)
      requires Valid() && bits < 32
      modifies value
      ensures value[..] == ShiftedLeft(old(value[..]), bits)
    {
      ghost var mid := value[..];
      if bits == 0 {
        ShiftByZero(mid);
        return;
      }
      var carryBits := 32 - bits;
      var carry: Word := 0;
      var j := 0;
      while j < WORD_COUNT
        invariant 0 <= j <= WORD_COUNT
        invariant value[j..] == mid[j..]
        invariant carry < Pow2(bits)
        invariant Val(value[..j]) + carry * Weight(j) == Val(mid[..j]) * Pow2(bits)
      {
        ghost var done := value[..j];
        var carryNext := Shr(value[j], carryBits);
        assert value[j] == mid[j] by {
          assert value[j..][0] == mid[j..][0];
        }
        BitShiftStep(done, mid, j, bits, carry);
        value[j] := OrWord(Shl(value[j], bits), carry);
        assert value[..j + 1] == done + [value[j]];
        carry := carryNext;
        j := j + 1;
        assert value[j..] == mid[j..] by {
          assert forall i | j <= i < WORD_COUNT :: value[i] == mid[i];
        }
      }
      assert value[..] == value[..WORD_COUNT] && mid == mid[..WORD_COUNT];
      ShiftedOut(value[..], mid, bits, carry);
    }

    /** modp192c: reduction modulo p = 2^192 - 2^64 - 1 as the code carries it out. The first
        loop folds words 6..11 into words 0..5 column by column, counting carries in temp[];
        the second loop, run only when temp[5] > 0, folds temp[5] back in, counting in
        temp2[]; temp2[5] is then added to words 0 and 2, and words 6..11 are cleared.
        carry is read before it is first written; carry0 is the value it holds. */
    method ModP192C(carry0: Word)
      requires Valid()
      modifies value
      ensures value[..] == ModP192AsWritten(old(value[..]), carry0)
    {
      ghost var v := value[..];
      var carry := carry0;
      var temp := new nat[HALF](_ => 0);
      var temp2 := new nat[HALF](_ => 0);
      assert temp[..] == NoCarries() && temp2[..] == NoCarries();
      var x, y := 0, 0;
      while y < 14
        invariant x <= HALF && y == ColumnStart(x)
        invariant Pass1(Start(v, carry0), x) == Reduction(value[..], temp[..], temp2[..], carry)
      {
        carry := FoldColumn(x, y, temp, temp2, carry);
        y := y + (if x == 2 || x == 3 then 3 else 2);
        x := x + 1;
      }
      if temp[5] > 0 {
        SecondPass(temp, temp2, carry);
      }
      assert value[..] == Passes(v, carry0).value;
      ClearHighWords();
    }

    /** modp192c with every carry counted exactly: the column totals of the first loop are
        rippled through words 0..5 in full, and the carry out of word 5 is folded back in at
        words 0 and 2 twice, as the second loop and the correction intend. */
    method ModP192()
      requires Valid()
      modifies value
      ensures value[..] == Reduce(old(value[..]))
      ensures Value() % P == old(Value()) % P && Value() < TWO_192
    {
      ghost var v := value[..];
      var carry := RipplePass(ColumnTotals(value[..]));
      carry := RipplePass(AddFold(value[..HALF], carry));
      carry := RipplePass(AddFold(value[..HALF], carry));
      ClearHighWords();
      ReduceCorrect(v);
    }

    /** One exact ripple-carry pass: word x becomes column total x plus the carry in, modulo
        2^32, and the carry out is the rest; words 6..11 are not touched. */
    method RipplePass(cols: seq<nat>) returns (carry: nat)
      requires Valid() && |cols| == HALF
      modifies value
      ensures value[..HALF] == Ripple(cols, HALF).words && carry == Ripple(cols, HALF).carry
      ensures value[HALF..] == old(value[HALF..])
    {
      carry := 0;
      var x := 0;
      while x < HALF
        invariant x <= HALF
        invariant value[..x] == Ripple(cols, x).words && carry == Ripple(cols, x).carry
        invariant value[HALF..] == old(value[HALF..])
      {
        var total := cols[x] + carry;
        value[x] := total % BASE;
        carry := total / BASE;
        x := x + 1;
      }
    }

    /** The second loop of modp192c and the correction after it. */
    method SecondPass(temp: array<nat>, temp2: array<nat>, carry: Word)
      requires Valid() && temp.Length == HALF && temp2.Length == HALF && temp != temp2
      modifies value, temp2
      ensures value[..] == Correct(Pass2(Reduction(old(value[..]), temp[..], old(temp2[..]), carry), HALF)).value
    {
      ghost var r1 := Reduction(value[..], temp[..], temp2[..], carry);
      var c := carry;
      var x := 0;
      while x <= 5
        invariant x <= HALF
        invariant Pass2(r1, x) == Reduction(value[..], temp[..], temp2[..], c)
      {
        c := CarryIn(x, temp, temp2, c);
        x := x + 1;
      }
      if temp2[5] > 0 {
        value[0] := (value[0] + temp2[5]) % BASE;
        value[2] := (value[2] + temp2[5]) % BASE;
      }
    }

    /** The last loop of modp192c: words 6..11 become zero. */
    method ClearHighWords()
      requires Valid()
      modifies value
      ensures value[..] == old(value[..])[..HALF] + Zeros(HALF)
    {
      ghost var reduced := value[..];
      var i := 6;
      while i < 12
        invariant HALF <= i <= WORD_COUNT
        invariant value[..HALF] == reduced[..HALF]
        invariant forall k | HALF <= k < i :: value[k] == 0
      {
        value[i] := 0;
        i := i + 1;
      }
      assert value[..] == reduced[..HALF] + Zeros(HALF);
    }

    /** One iteration of modp192c's first loop: the two or three folds of column x, then
        the carries counted at column x - 1 added to word x, with no overflow check. */
    method FoldColumn(x: nat, y: nat, temp: array<nat>, temp2: array<nat>, carry: Word)
      returns (carryOut: Word)
      requires Valid() && temp.Length == HALF && temp2.Length == HALF && temp != temp2
      requires x < HALF && y == ColumnStart(x)
      modifies value, temp
      ensures Reduction(value[..], temp[..], temp2[..], carryOut)
           == Column(Reduction(old(value[..]), old(temp[..]), temp2[..], carry), x)
    {
      ghost var r := Reduction(value[..], temp[..], temp2[..], carry);
      carryOut := Fold(x, FIELD[y], temp, carry, temp2[..]);
      carryOut := Fold(x, FIELD[y + 1], temp, carryOut, temp2[..]);
      if x == 2 || x == 3 {
        carryOut := Fold(x, FIELD[y + 2], temp, carryOut, temp2[..]);
      }
      if x > 0 {
        value[x] := (value[x] + temp[x - 1]) % BASE;
      }
    }

    /** One iteration of modp192c's second loop: temp[5] goes into words 0 and 2, the carry
        counted at word x - 1 into word x, and the carry out of word x is counted in
        temp2[x]. */
    method CarryIn(x: nat, temp: array<nat>, temp2: array<nat>, carry: Word) returns (carryOut: Word)
      requires Valid() && temp.Length == HALF && temp2.Length == HALF && temp != temp2
      requires x < HALF
      modifies value, temp2
      ensures Reduction(value[..], temp[..], temp2[..], carryOut)
           == Step2(Reduction(old(value[..]), temp[..], old(temp2[..]), carry), x)
    {
      var carryNext := value[x];
      if x == 0 {
        value[0] := (value[0] + temp[5]) % BASE;
      } else if x == 2 {
        value[2] := (value[2] + temp[5] + temp2[1]) % BASE;
      } else {
        value[x] := (value[x] + temp2[x - 1]) % BASE;
      }
      carryNext := if value[x] < carryNext then 1 else 0;
      carryOut := if carryNext == 1 || value[x] < carry then 1 else 0;
      if carryOut == 1 {
        temp2[x] := temp2[x] + 1;
      }
    }

    /** One fold of modp192c's first loop: word src is added into word x; the carry is set
        when the sum wrapped below the addend or below the previous carry, and counted in
        temp[x]. */
    method Fold(x: nat, src: nat, temp: array<nat>, carry: Word, ghost counts2: seq<nat>)
      returns (carryOut: Word)
      requires Valid() && temp.Length == HALF && |counts2| == HALF && x < HALF && src < WORD_COUNT
      modifies value, temp
      ensures Reduction(value[..], temp[..], counts2, carryOut)
           == FoldIn(Reduction(old(value[..]), old(temp[..]), counts2, carry), x, src)
    {
      var carryNext := value[src];
      value[x] := (value[x] + value[src]) % BASE;
      carryNext := if value[x] < carryNext then 1 else 0;
      carryOut := if carryNext == 1 || value[x] < carry then 1 else 0;
      if carryOut == 1 {
        temp[x] := temp[x] + 1;
      }
    }
  }

  // ---------------------------------------------------------------------------
  // addc, one word at a time

  /** The two overflow tests of addc count the carry out of a + b + c exactly. */
  lemma AddWordCarries(a: Word, b: Word, c: Word, s1: Word, s2: Word, c1: Word, c2: Word)
    requires c <= 1
    requires s1 == (a + b) % BASE && c1 == (if s1 < b then 1 else 0)
    requires s2 == (s1 + c) % BASE && c2 == (if c1 == 1 || s2 < c then 1 else 0)
    ensures s2 + BASE * c2 == a + b + c
  {
    if a + b < BASE {
      ModOfSmall(a + b, BASE);
      if s1 + c < BASE {
        ModOfSmall(s1 + c, BASE);
      } else {
        DivModUnique(s1 + c, BASE, 1, 0);
      }
    } else {
      DivModUnique(a + b, BASE, 1, a + b - BASE);
      ModOfSmall(s1 + c, BASE);
    }
  }

  lemma AddWordStep(done: seq<Word>, a: seq<Word>, b: seq<Word>, i: nat, s: Word, c: nat, c': nat)
    requires i < |a| && i < |b| && |done| == i
    requires Val(done) + c * Weight(i) == Val(a[..i]) + Val(b[..i])
    requires s + BASE * c' == a[i] + b[i] + c
    ensures Val(done + [s]) + c' * Weight(i + 1) == Val(a[..i + 1]) + Val(b[..i + 1])
  {
    var w := Weight(i);
    ValAppend(done, [s]);
    assert Val([s]) == s;
    ValSnoc(a, i);
    ValSnoc(b, i);
    CarryStep(Val(done), c, w, Val(a[..i]) + Val(b[..i]), s, c', a[i] as nat + b[i]);
    Distributes(a[i], b[i], w);
  }

  lemma Distributes(x: nat, y: nat, w: nat)
    ensures x * w + y * w == (x + y) * w
  {
  }

  /** The carry out of word 11 is dropped: what is left is the sum modulo 2^384. */
  lemma SumOfCarried(r: seq<Word>, a: seq<Word>, b: seq<Word>, carry: nat)
    requires IsBig(r) && IsBig(a) && IsBig(b)
    requires Val(r) + carry * MODULUS == Val(a) + Val(b)
    ensures r == Sum(a, b)
  {
    ValBig(r);
    SplitDivMod(Val(a) + Val(b), Val(r), carry, MODULUS);
    BigEqual(r, Sum(a, b));

  }

  // ---------------------------------------------------------------------------
  // shiftLeft, one word at a time

  /** Words moved up by k places over k zero words spell the shift by k words. */
  lemma WordsMoved(v: seq<Word>, a: seq<Word>, k: nat)
    requires IsBig(v) && IsBig(a) && k <= WORD_COUNT
    requires forall i | k <= i < WORD_COUNT :: v[i] == a[i - k]
    requires forall i | 0 <= i < k :: v[i] == 0
    ensures v == Zeros(k) + a[..WORD_COUNT - k]
  {
    var r := Zeros(k) + a[..WORD_COUNT - k];
    assert forall i | 0 <= i < WORD_COUNT :: v[i] == r[i];
  }

  /** A word times 2^b, for 0 < b < 32, splits into the word shifted left by b and the
      b bits shifted out at the top. */
  lemma WordShiftSplit(m: Word, b: nat)
    requires 0 < b < 32
    ensures m * Pow2(b) == Shl(m, b) + BASE * Shr(m, 32 - b)
    ensures Shl(m, b) % Pow2(b) == 0 && Shr(m, 32 - b) < Pow2(b)
  {
    var p, q := Pow2(b), Pow2(32 - b);
    assert p * q == BASE by {
      Pow2Add(b, 32 - b);
      Pow2Word();
    }
    WordSplit(m, p, q);
  }

  /** A word m times p, where p * q is the word base, is the low word (m * p) mod BASE, a
      multiple of p, plus BASE times the quotient m / q, which is below p. */
  lemma WordSplit(m: Word, p: nat, q: nat)
    requires p > 0 && q > 0 && p * q == BASE
    ensures m * p == (m * p) % BASE + BASE * (m / q)
    ensures ((m * p) % BASE) % p == 0 && m / q < p
  {
    assert (m * p) % BASE == (m % q) * p by {
      MulMod(m, p, q);
    }
    assert m * p == (m % q) * p + BASE * (m / q) by {
      SplitProduct(m, p, q);
    }
    assert ((m % q) * p) % p == 0 by {
      ModAddMultiple(0, m % q, p);
    }
    assert m / q < p by {
      QuotientBound(m, p, q);
    }
  }

  /** m * p is (m mod q) * p plus (p * q) times m / q. */
  lemma SplitProduct(m: nat, p: nat, q: nat)
    requires p > 0 && q > 0
    ensures m * p == (m % q) * p + (p * q) * (m / q)
  {
    assert m == m % q + q * (m / q);
    assert m * p == (m % q) * p + (q * (m / q)) * p;
  }

  /** A word divided by q is less than p when p * q is the word base. */
  lemma QuotientBound(m: Word, p: nat, q: nat)
    requires p > 0 && q > 0 && p * q == BASE
    ensures m / q < p
  {
    assert (m / q) * q <= m;
    if m / q >= p {
      MulLeMul(p, m / q, q);
    }
  }

  lemma BitShiftStep(done: seq<Word>, mid: seq<Word>, j: nat, b: nat, carry: Word)
    requires j < |mid| && |done| == j && 0 < b < 32 && carry < Pow2(b)
    requires Val(done) + carry * Weight(j) == Val(mid[..j]) * Pow2(b)
    ensures OrWord(Shl(mid[j], b), carry) == Shl(mid[j], b) + carry
    ensures Shr(mid[j], 32 - b) < Pow2(b)
    ensures Val(done + [OrWord(Shl(mid[j], b), carry)]) + Shr(mid[j], 32 - b) * Weight(j + 1)
         == Val(mid[..j + 1]) * Pow2(b)
  {
    var m := mid[j];
    var w := Weight(j);
    var p := Pow2(b);
    WordShiftSplit(m, b);
    OrDisjoint(Shl(m, b), carry, b);
    var nw := Shl(m, b) + carry;
    ValAppend(done, [nw]);
    assert Val([nw]) == nw;
    ValSnoc(mid, j);
    CarryStep(Val(done), carry, w, Val(mid[..j]) * p, nw, Shr(m, 32 - b), m * p);
    ScaleStep(Val(mid[..j]), m, w, p);
  }

  lemma ScaleStep(v: nat, m: nat, w: nat, p: nat)
    ensures (v + m * w) * p == v * p + (m * p) * w
  {
    assert (v + m * w) * p == v * p + (m * w) * p;
  }

  /** The bits shifted out of word 11 are lost. */
  lemma ShiftedOut(r: seq<Word>, mid: seq<Word>, b: nat, carry: nat)
    requires IsBig(r) && IsBig(mid)
    requires Val(r) + carry * MODULUS == Val(mid) * Pow2(b)
    ensures r == ShiftedLeft(mid, b)
  {
    var n := Val(mid) * Pow2(b);
    assert Val(r) == n % MODULUS by {
      ValBig(r);
      LowPart(n, Val(r), carry, MODULUS);
    }
    BigEqual(r, ShiftedLeft(mid, b));
  }

  lemma LowPart(n: nat, low: nat, high: nat, m: nat)
    requires low < m && low + high * m == n
    ensures low == n % m
  {
    SplitDivMod(n, low, high, m);
  }

  /** The word shift clamped at 12 words, then the bit shift, is the shift by val. */
  lemma ShiftTotal(a: seq<Word>, val: nat, k: nat, bits: nat)
    requires IsBig(a) && bits == val % 32 && k == (if val / 32 > WORD_COUNT then WORD_COUNT else val / 32)
    ensures ShiftedLeft(ShiftedLeft(a, 32 * k), bits) == ShiftedLeft(a, val)
  {
    if val / 32 <= WORD_COUNT {
      ShiftComposes(a, 32 * k, bits);
    } else {
      ShiftPastWidth(a, 32 * k);
      ShiftPastWidth(a, val);
      ShiftPastWidth(Zeros(WORD_COUNT), 32 * WORD_COUNT);
      ShiftComposes(Zeros(WORD_COUNT), 32 * WORD_COUNT, bits);
      ShiftPastWidth(Zeros(WORD_COUNT), 32 * WORD_COUNT + bits);
    }
  }
}
