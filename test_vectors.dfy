/** The test driver's addition cases, each carried out on the BigInteger class with the
    result proved: the number built, the words after addc, and the 2^384 wrap-around that none of them reaches. */
module TestVectors {
  import opened Words
  import opened Arithmetic
  import opened Hex
  import opened BigIntegers

  /** 0x12345678 + BIG1 gives 0x12345679 in word 0. */
  method AddOne() returns (r: seq<Word>)
    ensures r == [0x12345679] + Zeros(WORD_COUNT - 1)
  {
    var big := new BigInteger.FromWord(0x12345678);
    var one := new BigInteger.FromWord(1);
    assert one.value[..] == BIG1;
    big.AddC(one);
    r := big.value[..];
    SmallResult(r, 0x12345679);
  }

  /** 0x80000000 added to itself: addc saves the addend's word before it writes the
      receiver's, so the sum is 2^32, a carry into word 1. */
  method AddSelf() returns (r: seq<Word>)
    ensures r == [0, 1] + Zeros(WORD_COUNT - 2)
  {
    var big := new BigInteger.FromWord(0x80000000);
    big.AddC(big);
    r := big.value[..];
    ModOfSmall(0x1_0000_0000, MODULUS);
    var expected := [0, 1] + Zeros(WORD_COUNT - 2);
    assert Val(expected) == 0x1_0000_0000 by {
      ValAppend([0, 1], Zeros(WORD_COUNT - 2));
      ValZeros(WORD_COUNT - 2);
      assert Val([0, 1]) == BASE;
    }
    BigEqual(r, expected);
  }

  /** A5F05A0FA5F05A0F + 5A0FA5F05A0FA5F1 read from strings is 2^64: the carry ripples
      through words 0 and 1 into word 2. */
  method AddStrings() returns (r: seq<Word>)
    ensures r == [0, 0, 1] + Zeros(WORD_COUNT - 3)
  {
    var a := new BigInteger.FromString("A5F05A0FA5F05A0F");
    var b := new BigInteger.FromString("5A0FA5F05A0FA5F1");
    ghost var x, y := a.value[..], b.value[..];
    ParseFirstString();
    ParseSecondString();
    a.AddC(b);
    r := a.value[..];
    CarriesToWord2(x, y);
  }

  /** Twelve words spelling 0xA5F05A0FA5F05A0F and twelve spelling 0x5A0FA5F05A0FA5F1 add
      up to 2^64: the carry ripples through words 0 and 1 into word 2. */
  lemma CarriesToWord2(x: seq<Word>, y: seq<Word>)
    requires IsBig(x) && Val(x) == 0xA5F05A0FA5F05A0F
    requires IsBig(y) && Val(y) == 0x5A0FA5F05A0FA5F1
    ensures Sum(x, y) == [0, 0, 1] + Zeros(WORD_COUNT - 3)
  {
    ModOfSmall(0x1_0000_0000_0000_0000, MODULUS);
    var expected := [0, 0, 1] + Zeros(WORD_COUNT - 3);
    assert Val(expected) == 0x1_0000_0000_0000_0000 by {
      ValAppend([0, 0, 1], Zeros(WORD_COUNT - 3));
      ValZeros(WORD_COUNT - 3);
      assert Val([0, 0, 1]) == BASE * BASE;
    }
    BigEqual(Sum(x, y), expected);
  }

  lemma ParseFirstString()
    ensures Val(Parse("A5F05A0FA5F05A0F")) == 0xA5F05A0FA5F05A0F
  {
    HighA5F0();
    HexOfTwoWords("A5F05A0F", "A5F05A0F");
    assert "A5F05A0F" + "A5F05A0F" == "A5F05A0FA5F05A0F";
    ParseHex("A5F05A0FA5F05A0F");
    ModOfSmall(0xA5F05A0FA5F05A0F, MODULUS);
  }

  lemma ParseSecondString()
    ensures Val(Parse("5A0FA5F05A0FA5F1")) == 0x5A0FA5F05A0FA5F1
  {
    High5A0F();
    Low5A0F();
    HexOfTwoWords("5A0FA5F0", "5A0FA5F1");
    assert "5A0FA5F0" + "5A0FA5F1" == "5A0FA5F05A0FA5F1";
    ParseHex("5A0FA5F05A0FA5F1");
    ModOfSmall(0x5A0FA5F05A0FA5F1, MODULUS);
  }

  /** Twelve words with value n < 2^32 are n in word 0 and zeros. */
  lemma SmallResult(r: seq<Word>, n: Word)
    requires IsBig(r) && Val(r) == n
    ensures r == [n] + Zeros(WORD_COUNT - 1)
  {
    ValAppend([n], Zeros(WORD_COUNT - 1));
    ValZeros(WORD_COUNT - 1);
    assert Val([n]) == n;
    BigEqual(r, [n] + Zeros(WORD_COUNT - 1));
  }

  /** Sixteen hexadecimal digits are the high word's eight and then the low word's eight. */
  lemma HexOfTwoWords(hi: string, lo: string)
    requires IsHexString(hi) && IsHexString(lo) && |lo| == 8
    ensures IsHexString(hi + lo) && HexValue(hi + lo) == HexValue(hi) * BASE + HexValue(lo)
  {
    assert IsHexString(hi + lo) by {
      forall i | 0 <= i < |hi + lo| ensures IsHexDigit((hi + lo)[i]) {
        if i < |hi| {
          assert (hi + lo)[i] == hi[i];
        } else {
          assert (hi + lo)[i] == lo[i - |hi|];
        }
      }
    }
    NibbleValueOfHex(hi);
    NibbleValueOfHex(lo);
    NibbleValueOfHex(hi + lo);
    NibbleValueAppend(hi, lo);
    Pow2Word();
  }

  lemma HighA5F0()
    ensures IsHexString("A5F05A0F") && HexValue("A5F05A0F") == 0xA5F05A0F
  {
    var s := "A5F05A0F";
    assert s[..0] == [];
    assert HexValue(s[..1]) == 0xA by { assert s[..1][..0] == s[..0]; }
    assert HexValue(s[..2]) == 0xA5 by { assert s[..2][..1] == s[..1]; }
    assert HexValue(s[..3]) == 0xA5F by { assert s[..3][..2] == s[..2]; }
    assert HexValue(s[..4]) == 0xA5F0 by { assert s[..4][..3] == s[..3]; }
    assert HexValue(s[..5]) == 0xA5F05 by { assert s[..5][..4] == s[..4]; }
    assert HexValue(s[..6]) == 0xA5F05A by { assert s[..6][..5] == s[..5]; }
    assert HexValue(s[..7]) == 0xA5F05A0 by { assert s[..7][..6] == s[..6]; }
    assert HexValue(s[..8]) == 0xA5F05A0F by { assert s[..8][..7] == s[..7]; }
    assert s[..8] == s;
  }

  lemma High5A0F()
    ensures IsHexString("5A0FA5F0") && HexValue("5A0FA5F0") == 0x5A0FA5F0
  {
    var s := "5A0FA5F0";
    assert s[..0] == [];
    assert HexValue(s[..1]) == 0x5 by { assert s[..1][..0] == s[..0]; }
    assert HexValue(s[..2]) == 0x5A by { assert s[..2][..1] == s[..1]; }
    assert HexValue(s[..3]) == 0x5A0 by { assert s[..3][..2] == s[..2]; }
    assert HexValue(s[..4]) == 0x5A0F by { assert s[..4][..3] == s[..3]; }
    assert HexValue(s[..5]) == 0x5A0FA by { assert s[..5][..4] == s[..4]; }
    assert HexValue(s[..6]) == 0x5A0FA5 by { assert s[..6][..5] == s[..5]; }
    assert HexValue(s[..7]) == 0x5A0FA5F by { assert s[..7][..6] == s[..6]; }
    assert HexValue(s[..8]) == 0x5A0FA5F0 by { assert s[..8][..7] == s[..7]; }
    assert s[..8] == s;
  }

  lemma Low5A0F()
    ensures IsHexString("5A0FA5F1") && HexValue("5A0FA5F1") == 0x5A0FA5F1
  {
    var s := "5A0FA5F1";
    assert s[..0] == [];
    assert HexValue(s[..1]) == 0x5 by { assert s[..1][..0] == s[..0]; }
    assert HexValue(s[..2]) == 0x5A by { assert s[..2][..1] == s[..1]; }
    assert HexValue(s[..3]) == 0x5A0 by { assert s[..3][..2] == s[..2]; }
    assert HexValue(s[..4]) == 0x5A0F by { assert s[..4][..3] == s[..3]; }
    assert HexValue(s[..5]) == 0x5A0FA by { assert s[..5][..4] == s[..4]; }
    assert HexValue(s[..6]) == 0x5A0FA5 by { assert s[..6][..5] == s[..5]; }
    assert HexValue(s[..7]) == 0x5A0FA5F by { assert s[..7][..6] == s[..6]; }
    assert HexValue(s[..8]) == 0x5A0FA5F1 by { assert s[..8][..7] == s[..7]; }
    assert s[..8] == s;
  }
}
