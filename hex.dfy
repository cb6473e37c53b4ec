/** The hexadecimal text form of a BigInteger: what the string constructor reads
    and what operator<< writes. */
module Hex {
  import opened Words
  import opened Arithmetic

  /** HexDigits, the digits operator<< writes. */
  const HEX_DIGITS: string := "0123456789ABCDEF"

  // ---------------------------------------------------------------------------
  // Characters

  /** The constructor keeps reading while the character, as a signed char, is positive. */
  predicate Continues(c: char)
  {
    0 < c as int < 128
  }

  /** The nibble the constructor takes from c: its low four bits, plus 9 above 0x40.
      Any character that continues the loop is accepted; there is no parse error. */
  function Nibble(c: char): nat
    requires Continues(c)
  {
    (c as int) % 16 + (if c as int > 0x40 then 9 else 0)
  }

  predicate IsHexDigit(c: char)
  {
    '0' <= c <= '9' || 'A' <= c <= 'F' || 'a' <= c <= 'f'
  }

  /** The value of a hexadecimal digit, as a reader of hexadecimal means it. */
  function DigitValue(c: char): (r: nat)
    requires IsHexDigit(c)
    ensures r < 16
  {
    if '0' <= c <= '9' then c as int - '0' as int
    else if 'A' <= c <= 'F' then c as int - 'A' as int + 10
    else c as int - 'a' as int + 10
  }

  /** On the hexadecimal digits, in either case, the nibble mapping is the digit's value. */
  lemma NibbleOfHexDigit(c: char)
    requires IsHexDigit(c)
    ensures Continues(c) && Nibble(c) == DigitValue(c)
  {
  }

  /** Every digit operator<< writes is read back as the nibble it came from. */
  lemma NibbleOfRendered(d: nat)
    requires d < 16
    ensures IsHexDigit(HEX_DIGITS[d]) && Nibble(HEX_DIGITS[d]) == d
  {
  }

  // ---------------------------------------------------------------------------
  // Strings and the numbers they spell

  predicate AllContinue(s: string)
  {
    forall i | 0 <= i < |s| :: Continues(s[i])
  }

  /** Every character maps to a single nibble: all hexadecimal digits, and more. */
  predicate IsNibbleString(s: string)
  {
    AllContinue(s) && forall i | 0 <= i < |s| :: Nibble(s[i]) < 16
  }

  predicate IsHexString(s: string)
  {
    forall i | 0 <= i < |s| :: IsHexDigit(s[i])
  }

  /** The characters the constructor reads: up to the first one that is not positive. */
  function Text(s: string): (r: string)
    ensures |r| <= |s| && r == s[..|r|] && AllContinue(r)
    ensures |r| < |s| ==> !Continues(s[|r|])
  {
    if |s| == 0 || !Continues(s[0]) then [] else [s[0]] + Text(s[1..])
  }

  /** Text(s) is the only prefix that continues throughout and stops where s stops. */
  lemma {:induction false} TextIsPrefixUpToStop(s: string, k: nat)
    requires k <= |s| && AllContinue(s[..k]) && (k < |s| ==> !Continues(s[k]))
    ensures Text(s) == s[..k]
  {
    if |s| > 0 && Continues(s[0]) {
      assert s[1..][..k - 1] == s[..k][1..];
      TextIsPrefixUpToStop(s[1..], k - 1);
      assert s[..k] == [s[0]] + s[1..][..k - 1];
    }
  }

  /** Value of a string read as base-16 nibbles (the constructor's own mapping). */
  function NibbleValue(s: string): nat
    requires AllContinue(s)
  {
    if |s| == 0 then 0 else NibbleValue(s[..|s| - 1]) * 16 + Nibble(s[|s| - 1])
  }

  /** Value of a string of hexadecimal digits. */
  function HexValue(s: string): nat
    requires IsHexString(s)
  {
    if |s| == 0 then 0 else HexValue(s[..|s| - 1]) * 16 + DigitValue(s[|s| - 1])
  }

  lemma {:induction false} NibbleValueOfHex(s: string)
    requires IsHexString(s)
    ensures AllContinue(s) && NibbleValue(s) == HexValue(s)
  {
    forall i | 0 <= i < |s| ensures Continues(s[i]) && Nibble(s[i]) == DigitValue(s[i]) {
      NibbleOfHexDigit(s[i]);
    }
    if |s| > 0 {
      NibbleValueOfHex(s[..|s| - 1]);
    }
  }

  /** A string of n nibbles is below 16^n. */
  lemma {:induction false} NibbleValueBound(s: string)
    requires IsNibbleString(s)
    ensures NibbleValue(s) < Pow2(4 * |s|)
  {
    if |s| > 0 {
      var h := s[..|s| - 1];
      assert IsNibbleString(h) by {
        forall i | 0 <= i < |h| ensures Continues(h[i]) && Nibble(h[i]) < 16 {
          assert h[i] == s[i];
        }
      }
      NibbleValueBound(h);
      Pow2Add(4 * |h|, 4);
      assert Pow2(4) == 16;
      MulLeMul(NibbleValue(h) + 1, Pow2(4 * |h|), 16);
    }
  }

  /** The nibbles of b sit 4 |b| bits below those of a. */
  lemma {:induction false} NibbleValueAppend(a: string, b: string)
    requires AllContinue(a) && AllContinue(b)
    ensures AllContinue(a + b)
    ensures NibbleValue(a + b) == NibbleValue(a) * Pow2(4 * |b|) + NibbleValue(b)
    decreases |b|
  {
    var s := a + b;
    assert AllContinue(s) by {
      forall i | 0 <= i < |s| ensures Continues(s[i]) {
        if i < |a| { assert s[i] == a[i]; } else { assert s[i] == b[i - |a|]; }
      }
    }
    if |b| == 0 {
      assert s == a;
    } else {
      var b' := b[..|b| - 1];
      assert s[..|s| - 1] == a + b';
      assert s[|s| - 1] == b[|b| - 1];
      NibbleValueAppend(a, b');
      Pow2Add(4 * |b'|, 4);
      assert Pow2(4) == 16;
      assert NibbleValue(a) * Pow2(4 * |b|) == NibbleValue(a) * Pow2(4 * |b'|) * 16;
    }
  }

  // ---------------------------------------------------------------------------
  // The constructor's scan, one character at a time

  /** The constructor's loop variables: the array, the word being read in, and i. */
  datatype ParseState = ParseState(words: seq<Word>, word: Word, count: nat)
  {
    predicate Valid()
    {
      IsBig(words) && 1 <= count <= 8
    }
  }

  const START: ParseState := ParseState(Zeros(WORD_COUNT), 0, 1)

  /** One pass of the loop body: append the nibble, and after eight nibbles push the
      word in at the bottom of the array. */
  function ScanStep(st: ParseState, c: char): (r: ParseState)
    requires st.Valid() && Continues(c)
    ensures r.Valid()
  {
    var word := (Shl(st.word, 4) + Nibble(c)) % BASE;
    if st.count % 8 == 0 then
      ParseState([word] + st.words[..WORD_COUNT - 1], 0, 1)
    else
      ParseState(st.words, word, st.count + 1)
  }

  /** The loop variables after reading all of s. */
  function Scan(s: string): (r: ParseState)
    requires AllContinue(s)
    ensures r.Valid()
  {
    if |s| == 0 then START else ScanStep(Scan(s[..|s| - 1]), s[|s| - 1])
  }

  /** The lines after the loop: shift the array by the nibbles of the last, partial
      word and or that word into word 0. */
  function Finish(st: ParseState): (r: seq<Word>)
    requires st.Valid()
    ensures IsBig(r)
  {
    var shifted := ShiftedLeft(st.words, (st.count - 1) * 4);
    shifted[0 := OrWord(shifted[0], st.word)]
  }

  /** The twelve words the string constructor builds from str. */
  function Parse(str: string): (r: seq<Word>)
    ensures IsBig(r)
  {
    Finish(Scan(Text(str)))
  }

  /** The loop invariant of the constructor on a nibble string s: i is one more than the
      nibbles of the unfinished word, word spells those nibbles, and the array spells the
      nibbles before them modulo 2^384. */
  predicate ScanHolds(s: string, st: ParseState)
    requires IsNibbleString(s)
  {
    var h := |s| - |s| % 8;
    && st.Valid()
    && st.count == |s| % 8 + 1
    && st.word == NibbleValue(s[h..])
    && Val(st.words) == NibbleValue(s[..h]) % MODULUS
  }

  lemma NibbleSlice(s: string, i: nat, j: nat)
    requires IsNibbleString(s) && i <= j <= |s|
    ensures IsNibbleString(s[i..j])
  {
    var t := s[i..j];
    forall k | 0 <= k < |t| ensures Continues(t[k]) && Nibble(t[k]) < 16 {
      assert t[k] == s[i + k];
    }
  }

  lemma {:induction false} ScanInvariant(s: string)
    requires IsNibbleString(s)
    ensures ScanHolds(s, Scan(s))
  {
    if |s| == 0 {
      ValZeros(WORD_COUNT);
      ModOfSmall(0, MODULUS);
    } else {
      var s', c := s[..|s| - 1], s[|s| - 1];
      NibbleSlice(s, 0, |s| - 1);
      assert s[0..|s| - 1] == s';
      ScanInvariant(s');
      ScanStepHolds(s', c, Scan(s'));
      assert s' + [c] == s;
    }
  }

  /** One pass of the loop body keeps the invariant. */
  lemma ScanStepHolds(s: string, c: char, st: ParseState)
    requires IsNibbleString(s) && Continues(c) && Nibble(c) < 16 && ScanHolds(s, st)
    ensures IsNibbleString(s + [c]) && ScanHolds(s + [c], ScanStep(st, c))
  {
    var t := s + [c];
    assert IsNibbleString(t) by {
      forall k | 0 <= k < |t| ensures Continues(t[k]) && Nibble(t[k]) < 16 {
        if k < |s| { assert t[k] == s[k]; }
      }
    }
    if |s| % 8 == 7 {
      StepPushes(s, c, st);
    } else {
      StepKeeps(s, c, st);
    }
  }

  /** The eighth nibble of a word: the word is pushed into the array. */
  lemma StepPushes(s: string, c: char, st: ParseState)
    requires IsNibbleString(s) && IsNibbleString(s + [c]) && Continues(c) && Nibble(c) < 16
    requires ScanHolds(s, st) && |s| % 8 == 7
    ensures ScanHolds(s + [c], ScanStep(st, c))
  {
    var t := s + [c];
    var h := |s| - |s| % 8;
    NextCount(|s|);
    var word := (Shl(st.word, 4) + Nibble(c)) % BASE;
    assert word == NibbleValue(t[h..]) by {
      NextWord(s, c, h, st.word);
    }
    assert t[..h] == s[..h];
    var pushed := [word] + st.words[..WORD_COUNT - 1];
    assert ScanStep(st, c) == ParseState(pushed, 0, 1);
    assert Val(pushed) == NibbleValue(t) % MODULUS by {
      ScanFlushHolds(t, h, st.words, word);
    }
    FlushHolds(t, pushed);
  }

  /** A nibble before the eighth: the word grows and the array stays. */
  lemma StepKeeps(s: string, c: char, st: ParseState)
    requires IsNibbleString(s) && IsNibbleString(s + [c]) && Continues(c) && Nibble(c) < 16
    requires ScanHolds(s, st) && |s| % 8 < 7
    ensures ScanHolds(s + [c], ScanStep(st, c))
  {
    var t := s + [c];
    var h := |s| - |s| % 8;
    NextCount(|s|);
    var word := (Shl(st.word, 4) + Nibble(c)) % BASE;
    assert word == NibbleValue(t[h..]) by {
      NextWord(s, c, h, st.word);
    }
    assert t[..h] == s[..h];
    assert ScanStep(st, c) == ParseState(st.words, word, st.count + 1);
    KeepHolds(s, t, h, st.words, word);
  }

  /** Between pushes the array is unchanged and the word grows by one nibble. */
  lemma KeepHolds(s: string, t: string, h: nat, words: seq<Word>, word: Word)
    requires IsNibbleString(s) && IsNibbleString(t) && |t| == |s| + 1 && |s| % 8 < 7
    requires h == |s| - |s| % 8 && t[..h] == s[..h] && word == NibbleValue(t[h..])
    requires IsBig(words) && Val(words) == NibbleValue(s[..h]) % MODULUS
    ensures ScanHolds(t, ParseState(words, word, |s| % 8 + 2))
  {
    NextCount(|s|);
  }

  /** Counting one more character inside an unfinished word. */
  lemma NextCount(n: nat)
    ensures n % 8 < 7 ==> (n + 1) % 8 == n % 8 + 1 && (n + 1) - (n + 1) % 8 == n - n % 8
    ensures n % 8 == 7 ==> (n + 1) % 8 == 0 && n - n % 8 + 8 == n + 1
  {
    if n % 8 < 7 {
      DivModUnique(n + 1, 8, n / 8, n % 8 + 1);
    } else {
      DivModUnique(n + 1, 8, n / 8 + 1, 0);
    }
  }

  /** The loop body's update of word appends the nibble of c to the unfinished word. */
  lemma NextWord(s: string, c: char, h: nat, w: Word)
    requires IsNibbleString(s) && Continues(c) && Nibble(c) < 16
    requires h == |s| - |s| % 8 && w == NibbleValue(s[h..])
    ensures AllContinue((s + [c])[h..])
    ensures (Shl(w, 4) + Nibble(c)) % BASE == NibbleValue((s + [c])[h..])
  {
    var tail := s[h..];
    NibbleSlice(s, h, |s|);
    NibbleValueBound(tail);
    assert (s + [c])[h..] == tail + [c];
    assert NibbleValue([c]) == Nibble(c) by {
      assert [c][..0] == [];
    }
    NibbleValueAppend(tail, [c]);
    assert Pow2(4) == 16;
    NibbleFits(w, |s| % 8, Nibble(c));
  }

  /** After eight nibbles the word is pushed in at the bottom of the array. */
  lemma ScanFlushHolds(t: string, h: nat, words: seq<Word>, word: Word)
    requires IsNibbleString(t) && h + 8 == |t| && IsBig(words)
    requires Val(words) == NibbleValue(t[..h]) % MODULUS && word == NibbleValue(t[h..])
    ensures Val([word] + words[..WORD_COUNT - 1]) == NibbleValue(t) % MODULUS
  {
    SplitLastWord(t, h);
    PushWord(words, NibbleValue(t[..h]), word);
  }

  /** A nibble string ending in eight nibbles is the word they spell below the rest. */
  lemma SplitLastWord(t: string, h: nat)
    requires IsNibbleString(t) && h + 8 == |t|
    ensures NibbleValue(t) == NibbleValue(t[..h]) * BASE + NibbleValue(t[h..])
  {
    var head, tail := t[..h], t[h..];
    NibbleSlice(t, 0, h);
    assert t[0..h] == head;
    NibbleSlice(t, h, |t|);
    assert head + tail == t;
    NibbleValueAppend(head, tail);
    Pow2Word();
  }

  /** With all of t pushed into the array, the invariant holds with an empty word. */
  lemma FlushHolds(t: string, words: seq<Word>)
    requires IsNibbleString(t) && |t| % 8 == 0 && IsBig(words)
    requires Val(words) == NibbleValue(t) % MODULUS
    ensures ScanHolds(t, ParseState(words, 0, 1))
  {
    assert t[|t|..] == [];
    assert t[..|t|] == t;
  }

  /** Pushing a word in at the bottom of the array appends it below the array's number. */
  lemma PushWord(words: seq<Word>, n: nat, word: Word)
    requires IsBig(words) && Val(words) == n % MODULUS
    ensures Val([word] + words[..WORD_COUNT - 1]) == (n * BASE + word) % MODULUS
  {
    var shifted := ShiftedLeft(words, 32);
    assert Val(shifted[0 := OrWord(shifted[0], word)]) == (n * BASE + word) % MODULUS by {
      Pow2Word();
      InsertLow(words, n, 32, word);
    }
    assert shifted[0 := OrWord(shifted[0], word)] == [word] + words[..WORD_COUNT - 1] by {
      ShiftByWords(words, 1);
      assert Zeros(1) == [0];
      assert shifted == [0] + words[..WORD_COUNT - 1];
      assert OrWord(shifted[0], word) == word;
    }
  }

  /** Appending a nibble to a word of m < 8 nibbles stays within 32 bits. */
  lemma NibbleFits(w: Word, m: nat, d: nat)
    requires m < 8 && w < Pow2(4 * m) && d < 16
    ensures (Shl(w, 4) + d) % BASE == w * 16 + d
    ensures w * 16 + d < Pow2(4 * (m + 1))
  {
    Pow2Add(4 * m, 4);
    assert Pow2(4) == 16;
    MulLeMul(w + 1, Pow2(4 * m), 16);
    Pow2Monotone(4 * (m + 1), 32);
    Pow2Word();
    ModOfSmall(w * 16, BASE);
    ModOfSmall(w * 16 + d, BASE);
  }

  /** Shifting the array up by b <= 32 bits and or-ing in a b-bit word w appends w
      below the number the array held. */
  lemma InsertLow(words: seq<Word>, n: nat, b: nat, w: Word)
    requires IsBig(words) && Val(words) == n % MODULUS && b <= 32 && w < Pow2(b)
    ensures var shifted := ShiftedLeft(words, b);
      Val(shifted[0 := OrWord(shifted[0], w)]) == (n * Pow2(b) + w) % MODULUS
  {
    var shifted := ShiftedLeft(words, b);
    var p := Pow2(b);
    var v := (n * p) % MODULUS;
    assert Val(shifted) == v by {
      MulModLeft(n, p, MODULUS);
    }
    ShiftedLowBits(n, b, w);
    assert shifted[0] == v % BASE by {
      WordOfVal(shifted, 0);
    }
    WordLowBits(v, b);
    OrDisjoint(shifted[0], w, b);
    var result := shifted[0 := OrWord(shifted[0], w)];
    assert result[1..] == shifted[1..];
    assert Val(result) == v + w;
    ModAddLeft(n * p, w, MODULUS);
    ModOfSmall(v + w, MODULUS);
  }

  /** n 2^b modulo 2^384 has its low b bits clear and room for b more below 2^384. */
  lemma ShiftedLowBits(n: nat, b: nat, w: nat)
    requires b <= 32 && w < Pow2(b)
    ensures (n * Pow2(b)) % MODULUS % Pow2(b) == 0
    ensures (n * Pow2(b)) % MODULUS + w < MODULUS
  {
    var p := Pow2(b);
    var q := Pow2(32 * WORD_COUNT - b);
    assert MODULUS == p * q by {
      WeightIsPow2(WORD_COUNT);
      Pow2Add(b, 32 * WORD_COUNT - b);
    }
    MultipleModProduct(n, p, q, w);
  }

  /** (n p) mod (p q) is p k for some k < q. */
  lemma MultipleModProduct(n: nat, p: nat, q: nat, w: nat)
    requires p > 0 && q > 0 && w < p
    ensures (n * p) % (p * q) % p == 0
    ensures (n * p) % (p * q) + w < p * q
  {
    var k := ((n * p) / p) % q;
    assert (n * p) % (p * q) == p * k by {
      ModProduct(n * p, p, q);
      ModAddMultiple(0, n, p);
    }
    ModAddMultiple(0, k, p);
    MulLeMul(k + 1, q, p);
  }

  /** A multiple of 2^b (b <= 32) keeps its low b bits clear modulo 2^32. */
  lemma WordLowBits(v: nat, b: nat)
    requires b <= 32 && v % Pow2(b) == 0
    ensures (v % BASE) % Pow2(b) == 0
  {
    var p := Pow2(b);
    var r := Pow2(32 - b);
    assert BASE == p * r by {
      Pow2Word();
      Pow2Add(b, 32 - b);
    }
    ModProduct(v, p, r);
    ModAddMultiple(0, (v / p) % r, p);
  }

  /** The lines after the loop append the unfinished word below the array's number. */
  lemma FinishValue(s: string, st: ParseState)
    requires IsNibbleString(s) && ScanHolds(s, st)
    ensures Val(Finish(st)) == NibbleValue(s) % MODULUS
  {
    var h := |s| - |s| % 8;
    var head, tail := s[..h], s[h..];
    NibbleSlice(s, 0, h);
    assert s[0..h] == head;
    NibbleSlice(s, h, |s|);
    NibbleValueBound(tail);
    assert head + tail == s;
    var b := (st.count - 1) * 4;
    assert b == 4 * |tail|;
    var n := NibbleValue(head);
    assert NibbleValue(s) == n * Pow2(b) + st.word by {
      NibbleValueAppend(head, tail);
    }
    InsertLow(st.words, n, b, st.word);
  }

  /** The string constructor reads a nibble string as its base-16 value modulo 2^384. */
  lemma ParseValue(str: string)
    requires IsNibbleString(Text(str))
    ensures Val(Parse(str)) == NibbleValue(Text(str)) % MODULUS
  {
    ScanInvariant(Text(str));
    FinishValue(Text(str), Scan(Text(str)));
  }

  /** A string of hexadecimal digits is read as its hexadecimal value modulo 2^384: leading
      zeros do not matter, and digits past the 96th lose the most significant excess. */
  lemma ParseHex(str: string)
    requires IsHexString(str)
    ensures Val(Parse(str)) == HexValue(str) % MODULUS
  {
    NibbleValueOfHex(str);
    TextIsPrefixUpToStop(str, |str|);
    assert str[..|str|] == str;
    forall i | 0 <= i < |str| ensures Nibble(str[i]) < 16 {
      NibbleOfHexDigit(str[i]);
    }
    ParseValue(str);
  }

  /** The empty string gives zero. */
  lemma ParseEmpty()
    ensures Parse("") == Zeros(WORD_COUNT)
  {
    assert Val(Parse("")) == 0 by {
      ParseHex("");
      assert HexValue("") == 0;
      ModOfSmall(0, MODULUS);
    }
    ValZeros(WORD_COUNT);
    BigEqual(Parse(""), Zeros(WORD_COUNT));
  }

  /** A leading zero does not change what a nibble string is read as. */
  lemma ParseLeadingZero(s: string)
    requires IsNibbleString(Text(s))
    ensures Parse("0" + s) == Parse(s)
  {
    var t := Text(s);
    assert Text("0" + s) == "0" + t by {
      assert ("0" + s)[1..] == s;
    }
    LeadingZeroNibble(t);
    assert Val(Parse("0" + s)) == NibbleValue(t) % MODULUS by {
      ParseValue("0" + s);
    }
    assert Val(Parse(s)) == NibbleValue(t) % MODULUS by {
      ParseValue(s);
    }
    BigEqual(Parse("0" + s), Parse(s));
  }

  /** A nibble string with a "0" in front has the same value. */
  lemma LeadingZeroNibble(t: string)
    requires IsNibbleString(t)
    ensures IsNibbleString("0" + t) && NibbleValue("0" + t) == NibbleValue(t)
  {
    assert IsNibbleString("0" + t) by {
      forall i | 0 <= i < |"0" + t| ensures Continues(("0" + t)[i]) && Nibble(("0" + t)[i]) < 16 {
        if i > 0 { assert ("0" + t)[i] == t[i - 1]; }
      }
    }
    NibbleValueAppend("0", t);
    assert NibbleValue("0") == 0 by {
      assert "0"[..0] == [];
    }
  }

  /** Of a string of hexadecimal digits, only the last 96 count: the digits before them
      are shifted out of the top of the array. */
  lemma ParseKeepsLast96(a: string, b: string)
    requires IsHexString(a) && IsHexString(b) && |b| == 8 * WORD_COUNT
    ensures Parse(a + b) == Parse(b)
  {
    assert IsHexString(a + b) by {
      forall i | 0 <= i < |a + b| ensures IsHexDigit((a + b)[i]) {
        if i < |a| { assert (a + b)[i] == a[i]; } else { assert (a + b)[i] == b[i - |a|]; }
      }
    }
    NibbleValueOfHex(a);
    NibbleValueOfHex(b);
    NibbleValueOfHex(a + b);
    NibbleValueAppend(a, b);
    WeightIsPow2(WORD_COUNT);
    ModAddMultiple(HexValue(b), HexValue(a), MODULUS);
    ParseHex(a + b);
    ParseHex(b);
    BigEqual(Parse(a + b), Parse(b));
  }

  /** The string the test driver reads: leading zeros and mixed case give 0x123456789ABCDEF. */
  lemma ParseTestString()
    ensures Val(Parse("000123456789abcDEF")) == 0x123456789ABCDEF
  {
    TestStringValue();
    ParseHex("000123456789abcDEF");
    ModOfSmall(0x123456789ABCDEF, MODULUS);
  }

  lemma TestStringPrefix6()
    ensures var s := "000123456789abcDEF";
      IsHexString(s[..6]) && HexValue(s[..6]) == 0x123
  {
    var s := "000123456789abcDEF";
    assert s[..0] == [];
    assert HexValue(s[..1]) == 0x0 by { assert s[..1][..0] == s[..0]; }
    assert HexValue(s[..2]) == 0x0 by { assert s[..2][..1] == s[..1]; }
    assert HexValue(s[..3]) == 0x0 by { assert s[..3][..2] == s[..2]; }
    assert HexValue(s[..4]) == 0x1 by { assert s[..4][..3] == s[..3]; }
    assert HexValue(s[..5]) == 0x12 by { assert s[..5][..4] == s[..4]; }
    assert HexValue(s[..6]) == 0x123 by { assert s[..6][..5] == s[..5]; }
  }
  lemma TestStringPrefix12()
    ensures var s := "000123456789abcDEF";
      IsHexString(s[..12]) && HexValue(s[..12]) == 0x123456789
  {
    var s := "000123456789abcDEF";
    TestStringPrefix6();
    assert HexValue(s[..7]) == 0x1234 by { assert s[..7][..6] == s[..6]; }
    assert HexValue(s[..8]) == 0x12345 by { assert s[..8][..7] == s[..7]; }
    assert HexValue(s[..9]) == 0x123456 by { assert s[..9][..8] == s[..8]; }
    assert HexValue(s[..10]) == 0x1234567 by { assert s[..10][..9] == s[..9]; }
    assert HexValue(s[..11]) == 0x12345678 by { assert s[..11][..10] == s[..10]; }
    assert HexValue(s[..12]) == 0x123456789 by { assert s[..12][..11] == s[..11]; }
  }
  lemma TestStringPrefix18()
    ensures var s := "000123456789abcDEF";
      IsHexString(s[..18]) && HexValue(s[..18]) == 0x123456789ABCDEF
  {
    var s := "000123456789abcDEF";
    TestStringPrefix12();
    assert HexValue(s[..13]) == 0x123456789A by { assert s[..13][..12] == s[..12]; }
    assert HexValue(s[..14]) == 0x123456789AB by { assert s[..14][..13] == s[..13]; }
    assert HexValue(s[..15]) == 0x123456789ABC by { assert s[..15][..14] == s[..14]; }
    assert HexValue(s[..16]) == 0x123456789ABCD by { assert s[..16][..15] == s[..15]; }
    assert HexValue(s[..17]) == 0x123456789ABCDE by { assert s[..17][..16] == s[..16]; }
    assert HexValue(s[..18]) == 0x123456789ABCDEF by { assert s[..18][..17] == s[..17]; }
  }
  lemma TestStringValue()
    ensures IsHexString("000123456789abcDEF")
    ensures HexValue("000123456789abcDEF") == 0x123456789ABCDEF
  {
    var s := "000123456789abcDEF";
    TestStringPrefix18();
    assert s[..18] == s;
  }

  /** A character that is not a hexadecimal digit is not rejected: 'G' becomes the nibble
      16 and is read as "10" is. */
  lemma ParseNonHexDigit()
    ensures Nibble('G') == 16
    ensures Parse("G") == Parse("10")
  {
    ParseG();
    ParseTen();
  }

  lemma ParseG()
    ensures Parse("G") == Zeros(WORD_COUNT)[0 := 16]
  {
    assert Shl(0, 4) == 0;
    assert Scan("G") == ParseState(Zeros(WORD_COUNT), 16, 2) by {
      assert "G"[..0] == [];
    }
    assert Text("G") == "G" by {
      TextIsPrefixUpToStop("G", 1);
    }
    FinishZeros(16, 2);
  }

  lemma ParseTen()
    ensures Parse("10") == Zeros(WORD_COUNT)[0 := 16]
  {
    assert Shl(0, 4) == 0 && Shl(1, 4) == 16 by {
      assert Pow2(4) == 16;
    }
    assert Scan("10") == ParseState(Zeros(WORD_COUNT), 16, 3) by {
      assert "10"[..1] == "1" && "1"[..0] == [];
    }
    assert Text("10") == "10" by {
      TextIsPrefixUpToStop("10", 2);
    }
    FinishZeros(16, 3);
  }

  /** With nothing pushed into the array, the constructor's result is the last word alone. */
  lemma FinishZeros(w: Word, count: nat)
    requires 1 <= count <= 8
    ensures Finish(ParseState(Zeros(WORD_COUNT), w, count)) == Zeros(WORD_COUNT)[0 := w]
  {
    var z := Zeros(WORD_COUNT);
    ValZeros(WORD_COUNT);
    ModOfSmall(0, MODULUS);
    BigEqual(ShiftedLeft(z, (count - 1) * 4), z);
  }

  /** Reading stops at the first character that is not positive as a signed char. */
  lemma {:induction false} ParseStops(s: string, c: char, t: string)
    requires !Continues(c)
    ensures Parse(s + [c] + t) == Parse(s)
  {
    TextStops(s, c, t);
  }

  lemma {:induction false} TextStops(s: string, c: char, t: string)
    requires !Continues(c)
    ensures Text(s + [c] + t) == Text(s)
  {
    var u := s + [c] + t;
    var k := |Text(s)|;
    assert u[..k] == Text(s);
    if k < |s| {
      assert u[k] == s[k];
    } else {
      assert u[k] == c;
    }
    TextIsPrefixUpToStop(u, k);
  }

  // ---------------------------------------------------------------------------
  // Rendering (operator<<)

  /** The digits for nibbles j-1 down to 0 of word x: `(x >> 4j) & 0x0f` in HexDigits. */
  function WordDigits(x: Word, j: nat): (r: string)
    ensures |r| == j
  {
    if j == 0 then [] else [HEX_DIGITS[Shr(x, 4 * (j - 1)) % 16]] + WordDigits(x, j - 1)
  }

  /** All the words, most significant first, eight digits each. */
  function Render(w: seq<Word>): (r: string)
    ensures |r| == 8 * |w|
  {
    if |w| == 0 then [] else Render(w[1..]) + WordDigits(w[0], 8)
  }

  lemma {:induction false} WordDigitsAt(x: Word, j: nat, k: nat)
    requires k < j
    ensures WordDigits(x, j)[k] == HEX_DIGITS[Shr(x, 4 * (j - 1 - k)) % 16]
  {
    if k > 0 {
      WordDigitsAt(x, j - 1, k - 1);
    }
  }

  /** Digit j of word i is printed at position 8 (11 - i) + 7 - j. */
  lemma {:induction false} RenderAt(w: seq<Word>, i: nat, j: nat)
    requires i < |w| && j < 8
    ensures Render(w)[8 * (|w| - 1 - i) + (7 - j)] == HEX_DIGITS[Shr(w[i], 4 * j) % 16]
  {
    var rest := Render(w[1..]);
    if i == 0 {
      WordDigitsAt(w[0], 8, 7 - j);
    } else {
      RenderAt(w[1..], i - 1, j);
    }
  }

  /** The rendering of a BigInteger is 96 upper-case hexadecimal digits. */
  lemma RenderIsHex(w: seq<Word>)
    requires IsBig(w)
    ensures |Render(w)| == 96
    ensures forall k | 0 <= k < |Render(w)| :: Render(w)[k] in HEX_DIGITS && IsHexDigit(Render(w)[k])
  {
    forall k | 0 <= k < |Render(w)|
      ensures Render(w)[k] in HEX_DIGITS && IsHexDigit(Render(w)[k])
    {
      var i := |w| - 1 - k / 8;
      var j := 7 - k % 8;
      assert k == 8 * (|w| - 1 - i) + (7 - j);
      RenderAt(w, i, j);
      NibbleOfRendered(Shr(w[i], 4 * j) % 16);
    }
  }

  lemma {:induction false} WordDigitsValue(x: Word, j: nat)
    ensures AllContinue(WordDigits(x, j))
    ensures NibbleValue(WordDigits(x, j)) == x % Pow2(4 * j)
  {
    var r := WordDigits(x, j);
    if j == 0 {
      ModOfSmall(0, 1);
      assert x % 1 == 0;
    } else {
      var p := Pow2(4 * (j - 1));
      var d := Shr(x, 4 * (j - 1)) % 16;
      var rest := WordDigits(x, j - 1);
      assert AllContinue(rest) && NibbleValue(rest) == x % p by {
        WordDigitsValue(x, j - 1);
      }
      assert r == [HEX_DIGITS[d]] + rest;
      assert AllContinue(r) && NibbleValue(r) == d * p + x % p by {
        NibbleOfRendered(d);
        assert NibbleValue([HEX_DIGITS[d]]) == d by {
          assert [HEX_DIGITS[d]][..0] == [];
        }
        NibbleValueAppend([HEX_DIGITS[d]], rest);
      }
      assert d * p + x % p == x % Pow2(4 * j) by {
        assert Shr(x, 4 * (j - 1)) == x / p;
        Pow2Add(4 * (j - 1), 4);
        assert Pow2(4) == 16;
        ModProduct(x, p, 16);
      }
    }
  }

  /** Read back as hexadecimal, the rendering spells the number the words spell. */
  lemma {:induction false} RenderValue(w: seq<Word>)
    ensures AllContinue(Render(w)) && NibbleValue(Render(w)) == Val(w)
  {
    if |w| > 0 {
      var high, low := Render(w[1..]), WordDigits(w[0], 8);
      assert AllContinue(high) && NibbleValue(high) == Val(w[1..]) by {
        RenderValue(w[1..]);
      }
      assert AllContinue(low) && NibbleValue(low) == w[0] by {
        WordDigitsValue(w[0], 8);
        Pow2Word();
        ModOfSmall(w[0], BASE);
      }
      assert NibbleValue(high + low) == NibbleValue(high) * BASE + NibbleValue(low) by {
        NibbleValueAppend(high, low);
        Pow2Word();
      }
    }
  }

  /** Parsing the rendering gives back the same twelve words. */
  lemma ParseRender(w: seq<Word>)
    requires IsBig(w)
    ensures Parse(Render(w)) == w
  {
    var r := Render(w);
    RenderIsHex(w);
    ParseHex(r);
    RenderValue(w);
    NibbleValueOfHex(r);
    ValBig(w);
    ModOfSmall(Val(w), MODULUS);
    BigEqual(Parse(r), w);
  }
}
