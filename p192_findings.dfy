/** Inputs on which modp192c, as written, does not keep the residue modulo p. Each lemma
    follows the code step by step on one twelve-word input (least significant word first)
    and shows that the result and the input differ modulo p; P192.ReduceCorrect proves the
    reduction with exact carries, and P192.AsWrittenCongruentWhenExact shows that only a carry
    lost or invented can make modp192c go wrong. */
module P192Findings {
  import opened Words
  import opened Arithmetic
  import opened P192

  /** A trace through both passes and the correction gives the twelve words modp192c leaves. */
  lemma TraceComposes(v: seq<Word>, c: Word, r1: Reduction, r2: Reduction, r3: Reduction,
                       result: seq<Word>)
    requires IsBig(v) && r1.Valid() && r2.Valid()
    requires Pass1(Start(v, c), HALF) == r1 && r1.temp[5] > 0
    requires Pass2(r1, HALF) == r2 && Correct(r2) == r3
    requires result == r3.value[..HALF] + [0, 0, 0, 0, 0, 0]
    ensures ModP192AsWritten(v, c) == result
  {
    assert Zeros(HALF) == [0, 0, 0, 0, 0, 0];
  }

  // ---------------------------------------------------------------------------
  // UninitialisedCarry

  /** Zero input with `carry` holding 5 on entry: every fold of the first pass counts a carry,
      because `value[x] < carry` holds for value[x] = 0, and the result is not zero. */
  lemma UninitialisedCarry()
    ensures ModP192AsWritten([0, 0, 0, 0, 0, 0, 0, 0, 0, 0, 0, 0], 5)
         == [2, 2, 4, 3, 3, 2, 0, 0, 0, 0, 0, 0]
  {
    UninitialisedCarryFirstPass();
    UninitialisedCarrySecondPass();
    UninitialisedCarryCorrection();
    TraceComposes([0, 0, 0, 0, 0, 0, 0, 0, 0, 0, 0, 0], 5,
      Reduction([0, 2, 2, 3, 3, 2, 0, 0, 0, 0, 0, 0], [2, 2, 3, 3, 2, 2], [0, 0, 0, 0, 0, 0], 1),
      Reduction([2, 2, 4, 3, 3, 2, 0, 0, 0, 0, 0, 0], [2, 2, 3, 3, 2, 2], [0, 0, 0, 0, 0, 0], 0),
      Reduction([2, 2, 4, 3, 3, 2, 0, 0, 0, 0, 0, 0], [2, 2, 3, 3, 2, 2], [0, 0, 0, 0, 0, 0], 0),
      [2, 2, 4, 3, 3, 2, 0, 0, 0, 0, 0, 0]);
  }

  /** The first pass of the trace: six columns folded in. */
  lemma UninitialisedCarryFirstPass()
    ensures Pass1(Start([0, 0, 0, 0, 0, 0, 0, 0, 0, 0, 0, 0], 5), HALF)
         == Reduction([0, 2, 2, 3, 3, 2, 0, 0, 0, 0, 0, 0], [2, 2, 3, 3, 2, 2], [0, 0, 0, 0, 0, 0], 1)
  {
    var s := Start([0, 0, 0, 0, 0, 0, 0, 0, 0, 0, 0, 0], 5);
    assert s == Reduction([0, 0, 0, 0, 0, 0, 0, 0, 0, 0, 0, 0], [0, 0, 0, 0, 0, 0], [0, 0, 0, 0, 0, 0], 5);
    UninitialisedCarryColumn0();
    assert Pass1(s, 1) == Reduction([0, 0, 0, 0, 0, 0, 0, 0, 0, 0, 0, 0], [2, 0, 0, 0, 0, 0], [0, 0, 0, 0, 0, 0], 1);
    UninitialisedCarryColumn1();
    assert Pass1(s, 2) == Reduction([0, 2, 0, 0, 0, 0, 0, 0, 0, 0, 0, 0], [2, 2, 0, 0, 0, 0], [0, 0, 0, 0, 0, 0], 1);
    UninitialisedCarryColumn2();
    assert Pass1(s, 3) == Reduction([0, 2, 2, 0, 0, 0, 0, 0, 0, 0, 0, 0], [2, 2, 3, 0, 0, 0], [0, 0, 0, 0, 0, 0], 1);
    UninitialisedCarryColumn3();
    assert Pass1(s, 4) == Reduction([0, 2, 2, 3, 0, 0, 0, 0, 0, 0, 0, 0], [2, 2, 3, 3, 0, 0], [0, 0, 0, 0, 0, 0], 1);
    UninitialisedCarryColumn4();
    assert Pass1(s, 5) == Reduction([0, 2, 2, 3, 3, 0, 0, 0, 0, 0, 0, 0], [2, 2, 3, 3, 2, 0], [0, 0, 0, 0, 0, 0], 1);
    UninitialisedCarryColumn5();
    assert Pass1(s, 6) == Reduction([0, 2, 2, 3, 3, 2, 0, 0, 0, 0, 0, 0], [2, 2, 3, 3, 2, 2], [0, 0, 0, 0, 0, 0], 1);
  }

  /** The second pass of the trace: the folded-in carries added back. */
  lemma UninitialisedCarrySecondPass()
    ensures Pass2(Reduction([0, 2, 2, 3, 3, 2, 0, 0, 0, 0, 0, 0], [2, 2, 3, 3, 2, 2], [0, 0, 0, 0, 0, 0], 1), HALF)
         == Reduction([2, 2, 4, 3, 3, 2, 0, 0, 0, 0, 0, 0], [2, 2, 3, 3, 2, 2], [0, 0, 0, 0, 0, 0], 0)
  {
    var R := Reduction([0, 2, 2, 3, 3, 2, 0, 0, 0, 0, 0, 0], [2, 2, 3, 3, 2, 2], [0, 0, 0, 0, 0, 0], 1);
    UninitialisedCarryStep0();
    assert Pass2(R, 1) == Reduction([2, 2, 2, 3, 3, 2, 0, 0, 0, 0, 0, 0], [2, 2, 3, 3, 2, 2], [0, 0, 0, 0, 0, 0], 0);
    UninitialisedCarryStep1();
    assert Pass2(R, 2) == Reduction([2, 2, 2, 3, 3, 2, 0, 0, 0, 0, 0, 0], [2, 2, 3, 3, 2, 2], [0, 0, 0, 0, 0, 0], 0);
    UninitialisedCarryStep2();
    assert Pass2(R, 3) == Reduction([2, 2, 4, 3, 3, 2, 0, 0, 0, 0, 0, 0], [2, 2, 3, 3, 2, 2], [0, 0, 0, 0, 0, 0], 0);
    UninitialisedCarryStep3();
    assert Pass2(R, 4) == Reduction([2, 2, 4, 3, 3, 2, 0, 0, 0, 0, 0, 0], [2, 2, 3, 3, 2, 2], [0, 0, 0, 0, 0, 0], 0);
    UninitialisedCarryStep4();
    assert Pass2(R, 5) == Reduction([2, 2, 4, 3, 3, 2, 0, 0, 0, 0, 0, 0], [2, 2, 3, 3, 2, 2], [0, 0, 0, 0, 0, 0], 0);
    UninitialisedCarryStep5();
  }

  // UninitialisedCarry: one lemma per step of the trace.

  lemma UninitialisedCarryColumn0()
    ensures Column(Reduction([0, 0, 0, 0, 0, 0, 0, 0, 0, 0, 0, 0], [0, 0, 0, 0, 0, 0], [0, 0, 0, 0, 0, 0], 5), 0)
         == Reduction([0, 0, 0, 0, 0, 0, 0, 0, 0, 0, 0, 0], [2, 0, 0, 0, 0, 0], [0, 0, 0, 0, 0, 0], 1)
  {
  }

  lemma UninitialisedCarryColumn1()
    ensures Column(Reduction([0, 0, 0, 0, 0, 0, 0, 0, 0, 0, 0, 0], [2, 0, 0, 0, 0, 0], [0, 0, 0, 0, 0, 0], 1), 1)
         == Reduction([0, 2, 0, 0, 0, 0, 0, 0, 0, 0, 0, 0], [2, 2, 0, 0, 0, 0], [0, 0, 0, 0, 0, 0], 1)
  {
  }

  lemma UninitialisedCarryColumn2()
    ensures Column(Reduction([0, 2, 0, 0, 0, 0, 0, 0, 0, 0, 0, 0], [2, 2, 0, 0, 0, 0], [0, 0, 0, 0, 0, 0], 1), 2)
         == Reduction([0, 2, 2, 0, 0, 0, 0, 0, 0, 0, 0, 0], [2, 2, 3, 0, 0, 0], [0, 0, 0, 0, 0, 0], 1)
  {
  }

  lemma UninitialisedCarryColumn3()
    ensures Column(Reduction([0, 2, 2, 0, 0, 0, 0, 0, 0, 0, 0, 0], [2, 2, 3, 0, 0, 0], [0, 0, 0, 0, 0, 0], 1), 3)
         == Reduction([0, 2, 2, 3, 0, 0, 0, 0, 0, 0, 0, 0], [2, 2, 3, 3, 0, 0], [0, 0, 0, 0, 0, 0], 1)
  {
  }

  lemma UninitialisedCarryColumn4()
    ensures Column(Reduction([0, 2, 2, 3, 0, 0, 0, 0, 0, 0, 0, 0], [2, 2, 3, 3, 0, 0], [0, 0, 0, 0, 0, 0], 1), 4)
         == Reduction([0, 2, 2, 3, 3, 0, 0, 0, 0, 0, 0, 0], [2, 2, 3, 3, 2, 0], [0, 0, 0, 0, 0, 0], 1)
  {
  }

  lemma UninitialisedCarryColumn5()
    ensures Column(Reduction([0, 2, 2, 3, 3, 0, 0, 0, 0, 0, 0, 0], [2, 2, 3, 3, 2, 0], [0, 0, 0, 0, 0, 0], 1), 5)
         == Reduction([0, 2, 2, 3, 3, 2, 0, 0, 0, 0, 0, 0], [2, 2, 3, 3, 2, 2], [0, 0, 0, 0, 0, 0], 1)
  {
  }

  lemma UninitialisedCarryStep0()
    ensures Step2(Reduction([0, 2, 2, 3, 3, 2, 0, 0, 0, 0, 0, 0], [2, 2, 3, 3, 2, 2], [0, 0, 0, 0, 0, 0], 1), 0)
         == Reduction([2, 2, 2, 3, 3, 2, 0, 0, 0, 0, 0, 0], [2, 2, 3, 3, 2, 2], [0, 0, 0, 0, 0, 0], 0)
  {
  }

  lemma UninitialisedCarryStep1()
    ensures Step2(Reduction([2, 2, 2, 3, 3, 2, 0, 0, 0, 0, 0, 0], [2, 2, 3, 3, 2, 2], [0, 0, 0, 0, 0, 0], 0), 1)
         == Reduction([2, 2, 2, 3, 3, 2, 0, 0, 0, 0, 0, 0], [2, 2, 3, 3, 2, 2], [0, 0, 0, 0, 0, 0], 0)
  {
  }

  lemma UninitialisedCarryStep2()
    ensures Step2(Reduction([2, 2, 2, 3, 3, 2, 0, 0, 0, 0, 0, 0], [2, 2, 3, 3, 2, 2], [0, 0, 0, 0, 0, 0], 0), 2)
         == Reduction([2, 2, 4, 3, 3, 2, 0, 0, 0, 0, 0, 0], [2, 2, 3, 3, 2, 2], [0, 0, 0, 0, 0, 0], 0)
  {
  }

  lemma UninitialisedCarryStep3()
    ensures Step2(Reduction([2, 2, 4, 3, 3, 2, 0, 0, 0, 0, 0, 0], [2, 2, 3, 3, 2, 2], [0, 0, 0, 0, 0, 0], 0), 3)
         == Reduction([2, 2, 4, 3, 3, 2, 0, 0, 0, 0, 0, 0], [2, 2, 3, 3, 2, 2], [0, 0, 0, 0, 0, 0], 0)
  {
  }

  lemma UninitialisedCarryStep4()
    ensures Step2(Reduction([2, 2, 4, 3, 3, 2, 0, 0, 0, 0, 0, 0], [2, 2, 3, 3, 2, 2], [0, 0, 0, 0, 0, 0], 0), 4)
         == Reduction([2, 2, 4, 3, 3, 2, 0, 0, 0, 0, 0, 0], [2, 2, 3, 3, 2, 2], [0, 0, 0, 0, 0, 0], 0)
  {
  }

  lemma UninitialisedCarryStep5()
    ensures Step2(Reduction([2, 2, 4, 3, 3, 2, 0, 0, 0, 0, 0, 0], [2, 2, 3, 3, 2, 2], [0, 0, 0, 0, 0, 0], 0), 5)
         == Reduction([2, 2, 4, 3, 3, 2, 0, 0, 0, 0, 0, 0], [2, 2, 3, 3, 2, 2], [0, 0, 0, 0, 0, 0], 0)
  {
  }

  lemma UninitialisedCarryCorrection()
    ensures Correct(Reduction([2, 2, 4, 3, 3, 2, 0, 0, 0, 0, 0, 0], [2, 2, 3, 3, 2, 2], [0, 0, 0, 0, 0, 0], 0))
         == Reduction([2, 2, 4, 3, 3, 2, 0, 0, 0, 0, 0, 0], [2, 2, 3, 3, 2, 2], [0, 0, 0, 0, 0, 0], 0)
  {
  }

  lemma UninitialisedCarryInputResidue()
    ensures Val([0, 0, 0, 0, 0, 0, 0, 0, 0, 0, 0, 0]) % P == 0
  {
    assert [0, 0, 0, 0, 0, 0, 0, 0, 0, 0, 0, 0] == Zeros(WORD_COUNT);
    ValZeros(WORD_COUNT);
  }

  lemma UninitialisedCarryResultResidue()
    ensures Val([2, 2, 4, 3, 3, 2, 0, 0, 0, 0, 0, 0]) % P == 0x20000000300000003000000040000000200000002
  {
    var n := 0x20000000300000003000000040000000200000002;
    assert Val([2, 2, 4, 3, 3, 2, 0, 0, 0, 0, 0, 0]) == n by { }
    assert n == 0 * P + 0x20000000300000003000000040000000200000002 by { }
    DivModUnique(n, P, 0, 0x20000000300000003000000040000000200000002);
  }

  /** The value modp192c leaves for zero input when `carry` happens to hold 5 is not 0 modulo p. */
  lemma UninitialisedCarryDiffers()
    ensures Val(ModP192AsWritten([0, 0, 0, 0, 0, 0, 0, 0, 0, 0, 0, 0], 5)) % P
         != Val([0, 0, 0, 0, 0, 0, 0, 0, 0, 0, 0, 0]) % P
  {
    UninitialisedCarry();
    UninitialisedCarryInputResidue();
    UninitialisedCarryResultResidue();
  }

  // ---------------------------------------------------------------------------
  // PhantomCarry

  /** Word 0 + word 6 = 2^32 wraps to 0 with a genuine carry; the next fold adds word 10 = 0 and,
      since 0 < carry = 1, counts a second carry that never happened. */
  lemma PhantomCarry()
    ensures ModP192AsWritten([0x80000000, 0, 0, 0, 0, 0, 0x80000000, 0, 0, 0, 0, 0], 0)
         == [0, 2, 0x80000002, 1, 0, 0, 0, 0, 0, 0, 0, 0]
  {
    var s := Start([0x80000000, 0, 0, 0, 0, 0, 0x80000000, 0, 0, 0, 0, 0], 0);
    assert s == Reduction([0x80000000, 0, 0, 0, 0, 0, 0x80000000, 0, 0, 0, 0, 0], [0, 0, 0, 0, 0, 0], [0, 0, 0, 0, 0, 0], 0);
    PhantomCarryColumn0();
    assert Pass1(s, 1) == Reduction([0, 0, 0, 0, 0, 0, 0x80000000, 0, 0, 0, 0, 0], [2, 0, 0, 0, 0, 0], [0, 0, 0, 0, 0, 0], 1);
    PhantomCarryColumn1();
    assert Pass1(s, 2) == Reduction([0, 2, 0, 0, 0, 0, 0x80000000, 0, 0, 0, 0, 0], [2, 2, 0, 0, 0, 0], [0, 0, 0, 0, 0, 0], 1);
    PhantomCarryColumn2();
    assert Pass1(s, 3) == Reduction([0, 2, 0x80000002, 0, 0, 0, 0x80000000, 0, 0, 0, 0, 0], [2, 2, 1, 0, 0, 0], [0, 0, 0, 0, 0, 0], 0);
    PhantomCarryColumn3();
    assert Pass1(s, 4) == Reduction([0, 2, 0x80000002, 1, 0, 0, 0x80000000, 0, 0, 0, 0, 0], [2, 2, 1, 0, 0, 0], [0, 0, 0, 0, 0, 0], 0);
    PhantomCarryColumn4();
    assert Pass1(s, 5) == Reduction([0, 2, 0x80000002, 1, 0, 0, 0x80000000, 0, 0, 0, 0, 0], [2, 2, 1, 0, 0, 0], [0, 0, 0, 0, 0, 0], 0);
    PhantomCarryColumn5();
    assert Pass1(s, 6) == Reduction([0, 2, 0x80000002, 1, 0, 0, 0x80000000, 0, 0, 0, 0, 0], [2, 2, 1, 0, 0, 0], [0, 0, 0, 0, 0, 0], 0);
  }

  // PhantomCarry: one lemma per step of the trace.

  lemma PhantomCarryColumn0()
    ensures Column(Reduction([0x80000000, 0, 0, 0, 0, 0, 0x80000000, 0, 0, 0, 0, 0], [0, 0, 0, 0, 0, 0], [0, 0, 0, 0, 0, 0], 0), 0)
         == Reduction([0, 0, 0, 0, 0, 0, 0x80000000, 0, 0, 0, 0, 0], [2, 0, 0, 0, 0, 0], [0, 0, 0, 0, 0, 0], 1)
  {
  }

  lemma PhantomCarryColumn1()
    ensures Column(Reduction([0, 0, 0, 0, 0, 0, 0x80000000, 0, 0, 0, 0, 0], [2, 0, 0, 0, 0, 0], [0, 0, 0, 0, 0, 0], 1), 1)
         == Reduction([0, 2, 0, 0, 0, 0, 0x80000000, 0, 0, 0, 0, 0], [2, 2, 0, 0, 0, 0], [0, 0, 0, 0, 0, 0], 1)
  {
  }

  lemma PhantomCarryColumn2()
    ensures Column(Reduction([0, 2, 0, 0, 0, 0, 0x80000000, 0, 0, 0, 0, 0], [2, 2, 0, 0, 0, 0], [0, 0, 0, 0, 0, 0], 1), 2)
         == Reduction([0, 2, 0x80000002, 0, 0, 0, 0x80000000, 0, 0, 0, 0, 0], [2, 2, 1, 0, 0, 0], [0, 0, 0, 0, 0, 0], 0)
  {
  }

  lemma PhantomCarryColumn3()
    ensures Column(Reduction([0, 2, 0x80000002, 0, 0, 0, 0x80000000, 0, 0, 0, 0, 0], [2, 2, 1, 0, 0, 0], [0, 0, 0, 0, 0, 0], 0), 3)
         == Reduction([0, 2, 0x80000002, 1, 0, 0, 0x80000000, 0, 0, 0, 0, 0], [2, 2, 1, 0, 0, 0], [0, 0, 0, 0, 0, 0], 0)
  {
  }

  lemma PhantomCarryColumn4()
    ensures Column(Reduction([0, 2, 0x80000002, 1, 0, 0, 0x80000000, 0, 0, 0, 0, 0], [2, 2, 1, 0, 0, 0], [0, 0, 0, 0, 0, 0], 0), 4)
         == Reduction([0, 2, 0x80000002, 1, 0, 0, 0x80000000, 0, 0, 0, 0, 0], [2, 2, 1, 0, 0, 0], [0, 0, 0, 0, 0, 0], 0)
  {
  }

  lemma PhantomCarryColumn5()
    ensures Column(Reduction([0, 2, 0x80000002, 1, 0, 0, 0x80000000, 0, 0, 0, 0, 0], [2, 2, 1, 0, 0, 0], [0, 0, 0, 0, 0, 0], 0), 5)
         == Reduction([0, 2, 0x80000002, 1, 0, 0, 0x80000000, 0, 0, 0, 0, 0], [2, 2, 1, 0, 0, 0], [0, 0, 0, 0, 0, 0], 0)
  {
  }

  lemma PhantomCarryInputResidue()
    ensures Val([0x80000000, 0, 0, 0, 0, 0, 0x80000000, 0, 0, 0, 0, 0]) % P == 0x800000000000000100000000
  {
    var n := 0x80000000000000000000000000000000000000000000000080000000;
    assert Val([0x80000000, 0, 0, 0, 0, 0, 0x80000000, 0, 0, 0, 0, 0]) == n by { }
    assert n == 0x80000000 * P + 0x800000000000000100000000 by { }
    DivModUnique(n, P, 0x80000000, 0x800000000000000100000000);
  }

  lemma PhantomCarryResultResidue()
    ensures Val([0, 2, 0x80000002, 1, 0, 0, 0, 0, 0, 0, 0, 0]) % P == 0x1800000020000000200000000
  {
    var n := 0x1800000020000000200000000;
    assert Val([0, 2, 0x80000002, 1, 0, 0, 0, 0, 0, 0, 0, 0]) == n by { }
    assert n == 0 * P + 0x1800000020000000200000000 by { }
    DivModUnique(n, P, 0, 0x1800000020000000200000000);
  }

  /** A carry counted twice in column 0 changes the residue. */
  lemma PhantomCarryDiffers()
    ensures Val(ModP192AsWritten([0x80000000, 0, 0, 0, 0, 0, 0x80000000, 0, 0, 0, 0, 0], 0)) % P
         != Val([0x80000000, 0, 0, 0, 0, 0, 0x80000000, 0, 0, 0, 0, 0]) % P
  {
    PhantomCarry();
    PhantomCarryInputResidue();
    PhantomCarryResultResidue();
  }

  // ---------------------------------------------------------------------------
  // UncheckedCarryAdd

  /** Column 0 counts one carry; adding it into word 1 = 0xFFFFFFFF wraps to 0 without being
      counted, and 2^64 is lost. */
  lemma UncheckedCarryAdd()
    ensures ModP192AsWritten([0xFFFFFFFF, 0xFFFFFFFF, 0, 0, 0, 0, 2, 0, 0, 0, 0, 0], 0)
         == [1, 0, 2, 0, 0, 0, 0, 0, 0, 0, 0, 0]
  {
    var s := Start([0xFFFFFFFF, 0xFFFFFFFF, 0, 0, 0, 0, 2, 0, 0, 0, 0, 0], 0);
    assert s == Reduction([0xFFFFFFFF, 0xFFFFFFFF, 0, 0, 0, 0, 2, 0, 0, 0, 0, 0], [0, 0, 0, 0, 0, 0], [0, 0, 0, 0, 0, 0], 0);
    UncheckedCarryAddColumn0();
    assert Pass1(s, 1) == Reduction([1, 0xFFFFFFFF, 0, 0, 0, 0, 2, 0, 0, 0, 0, 0], [1, 0, 0, 0, 0, 0], [0, 0, 0, 0, 0, 0], 0);
    UncheckedCarryAddColumn1();
    assert Pass1(s, 2) == Reduction([1, 0, 0, 0, 0, 0, 2, 0, 0, 0, 0, 0], [1, 0, 0, 0, 0, 0], [0, 0, 0, 0, 0, 0], 0);
    UncheckedCarryAddColumn2();
    assert Pass1(s, 3) == Reduction([1, 0, 2, 0, 0, 0, 2, 0, 0, 0, 0, 0], [1, 0, 0, 0, 0, 0], [0, 0, 0, 0, 0, 0], 0);
    UncheckedCarryAddColumn3();
    assert Pass1(s, 4) == Reduction([1, 0, 2, 0, 0, 0, 2, 0, 0, 0, 0, 0], [1, 0, 0, 0, 0, 0], [0, 0, 0, 0, 0, 0], 0);
    UncheckedCarryAddColumn4();
    assert Pass1(s, 5) == Reduction([1, 0, 2, 0, 0, 0, 2, 0, 0, 0, 0, 0], [1, 0, 0, 0, 0, 0], [0, 0, 0, 0, 0, 0], 0);
    UncheckedCarryAddColumn5();
    assert Pass1(s, 6) == Reduction([1, 0, 2, 0, 0, 0, 2, 0, 0, 0, 0, 0], [1, 0, 0, 0, 0, 0], [0, 0, 0, 0, 0, 0], 0);
  }

  // UncheckedCarryAdd: one lemma per step of the trace.

  lemma UncheckedCarryAddColumn0()
    ensures Column(Reduction([0xFFFFFFFF, 0xFFFFFFFF, 0, 0, 0, 0, 2, 0, 0, 0, 0, 0], [0, 0, 0, 0, 0, 0], [0, 0, 0, 0, 0, 0], 0), 0)
         == Reduction([1, 0xFFFFFFFF, 0, 0, 0, 0, 2, 0, 0, 0, 0, 0], [1, 0, 0, 0, 0, 0], [0, 0, 0, 0, 0, 0], 0)
  {
  }

  lemma UncheckedCarryAddColumn1()
    ensures Column(Reduction([1, 0xFFFFFFFF, 0, 0, 0, 0, 2, 0, 0, 0, 0, 0], [1, 0, 0, 0, 0, 0], [0, 0, 0, 0, 0, 0], 0), 1)
         == Reduction([1, 0, 0, 0, 0, 0, 2, 0, 0, 0, 0, 0], [1, 0, 0, 0, 0, 0], [0, 0, 0, 0, 0, 0], 0)
  {
  }

  lemma UncheckedCarryAddColumn2()
    ensures Column(Reduction([1, 0, 0, 0, 0, 0, 2, 0, 0, 0, 0, 0], [1, 0, 0, 0, 0, 0], [0, 0, 0, 0, 0, 0], 0), 2)
         == Reduction([1, 0, 2, 0, 0, 0, 2, 0, 0, 0, 0, 0], [1, 0, 0, 0, 0, 0], [0, 0, 0, 0, 0, 0], 0)
  {
  }

  lemma UncheckedCarryAddColumn3()
    ensures Column(Reduction([1, 0, 2, 0, 0, 0, 2, 0, 0, 0, 0, 0], [1, 0, 0, 0, 0, 0], [0, 0, 0, 0, 0, 0], 0), 3)
         == Reduction([1, 0, 2, 0, 0, 0, 2, 0, 0, 0, 0, 0], [1, 0, 0, 0, 0, 0], [0, 0, 0, 0, 0, 0], 0)
  {
  }

  lemma UncheckedCarryAddColumn4()
    ensures Column(Reduction([1, 0, 2, 0, 0, 0, 2, 0, 0, 0, 0, 0], [1, 0, 0, 0, 0, 0], [0, 0, 0, 0, 0, 0], 0), 4)
         == Reduction([1, 0, 2, 0, 0, 0, 2, 0, 0, 0, 0, 0], [1, 0, 0, 0, 0, 0], [0, 0, 0, 0, 0, 0], 0)
  {
  }

  lemma UncheckedCarryAddColumn5()
    ensures Column(Reduction([1, 0, 2, 0, 0, 0, 2, 0, 0, 0, 0, 0], [1, 0, 0, 0, 0, 0], [0, 0, 0, 0, 0, 0], 0), 5)
         == Reduction([1, 0, 2, 0, 0, 0, 2, 0, 0, 0, 0, 0], [1, 0, 0, 0, 0, 0], [0, 0, 0, 0, 0, 0], 0)
  {
  }

  lemma UncheckedCarryAddInputResidue()
    ensures Val([0xFFFFFFFF, 0xFFFFFFFF, 0, 0, 0, 0, 2, 0, 0, 0, 0, 0]) % P == 0x30000000000000001
  {
    var n := 0x200000000000000000000000000000000FFFFFFFFFFFFFFFF;
    assert Val([0xFFFFFFFF, 0xFFFFFFFF, 0, 0, 0, 0, 2, 0, 0, 0, 0, 0]) == n by { }
    assert n == 2 * P + 0x30000000000000001 by { }
    DivModUnique(n, P, 2, 0x30000000000000001);
  }

  lemma UncheckedCarryAddResultResidue()
    ensures Val([1, 0, 2, 0, 0, 0, 0, 0, 0, 0, 0, 0]) % P == 0x20000000000000001
  {
    var n := 0x20000000000000001;
    assert Val([1, 0, 2, 0, 0, 0, 0, 0, 0, 0, 0, 0]) == n by { }
    assert n == 0 * P + 0x20000000000000001 by { }
    DivModUnique(n, P, 0, 0x20000000000000001);
  }

  /** The carry lost at the unchecked addition of temp[x - 1] changes the residue. */
  lemma UncheckedCarryAddDiffers()
    ensures Val(ModP192AsWritten([0xFFFFFFFF, 0xFFFFFFFF, 0, 0, 0, 0, 2, 0, 0, 0, 0, 0], 0)) % P
         != Val([0xFFFFFFFF, 0xFFFFFFFF, 0, 0, 0, 0, 2, 0, 0, 0, 0, 0]) % P
  {
    UncheckedCarryAdd();
    UncheckedCarryAddInputResidue();
    UncheckedCarryAddResultResidue();
  }

  // ---------------------------------------------------------------------------
  // UncheckedCorrection

  /** The second loop ends with temp2[5] = 1; the last correction adds it into word 2 = 0, and
      word 0 = 0xFFFFFFFF wraps to 0 without the carry being kept. */
  lemma UncheckedCorrection()
    ensures ModP192AsWritten([0xFFFFFFFF, 0xFFFFFFFF, 0xFFFFFFFF, 0xFFFFFFFF, 0xFFFFFFFF, 0xFFFFFFFF, 0, 0, 0, 0, 0xFFFFFFFF, 0xFFFFFFFF], 0)
         == [0, 0xFFFFFFFF, 1, 0, 0, 0, 0, 0, 0, 0, 0, 0]
  {
    UncheckedCorrectionFirstPass();
    UncheckedCorrectionSecondPass();
    UncheckedCorrectionCorrection();
    TraceComposes([0xFFFFFFFF, 0xFFFFFFFF, 0xFFFFFFFF, 0xFFFFFFFF, 0xFFFFFFFF, 0xFFFFFFFF, 0, 0, 0, 0, 0xFFFFFFFF, 0xFFFFFFFF], 0,
      Reduction([0xFFFFFFFE, 0xFFFFFFFF, 0xFFFFFFFF, 0xFFFFFFFF, 0xFFFFFFFF, 0xFFFFFFFF, 0, 0, 0, 0, 0xFFFFFFFF, 0xFFFFFFFF], [1, 1, 1, 1, 1, 1], [0, 0, 0, 0, 0, 0], 0),
      Reduction([0xFFFFFFFF, 0xFFFFFFFF, 0, 0, 0, 0, 0, 0, 0, 0, 0xFFFFFFFF, 0xFFFFFFFF], [1, 1, 1, 1, 1, 1], [0, 0, 1, 1, 1, 1], 1),
      Reduction([0, 0xFFFFFFFF, 1, 0, 0, 0, 0, 0, 0, 0, 0xFFFFFFFF, 0xFFFFFFFF], [1, 1, 1, 1, 1, 1], [0, 0, 1, 1, 1, 1], 1),
      [0, 0xFFFFFFFF, 1, 0, 0, 0, 0, 0, 0, 0, 0, 0]);
  }

  /** The first pass of the trace: six columns folded in. */
  lemma UncheckedCorrectionFirstPass()
    ensures Pass1(Start([0xFFFFFFFF, 0xFFFFFFFF, 0xFFFFFFFF, 0xFFFFFFFF, 0xFFFFFFFF, 0xFFFFFFFF, 0, 0, 0, 0, 0xFFFFFFFF, 0xFFFFFFFF], 0), HALF)
         == Reduction([0xFFFFFFFE, 0xFFFFFFFF, 0xFFFFFFFF, 0xFFFFFFFF, 0xFFFFFFFF, 0xFFFFFFFF, 0, 0, 0, 0, 0xFFFFFFFF, 0xFFFFFFFF], [1, 1, 1, 1, 1, 1], [0, 0, 0, 0, 0, 0], 0)
  {
    var s := Start([0xFFFFFFFF, 0xFFFFFFFF, 0xFFFFFFFF, 0xFFFFFFFF, 0xFFFFFFFF, 0xFFFFFFFF, 0, 0, 0, 0, 0xFFFFFFFF, 0xFFFFFFFF], 0);
    assert s == Reduction([0xFFFFFFFF, 0xFFFFFFFF, 0xFFFFFFFF, 0xFFFFFFFF, 0xFFFFFFFF, 0xFFFFFFFF, 0, 0, 0, 0, 0xFFFFFFFF, 0xFFFFFFFF], [0, 0, 0, 0, 0, 0], [0, 0, 0, 0, 0, 0], 0);
    UncheckedCorrectionColumn0();
    assert Pass1(s, 1) == Reduction([0xFFFFFFFE, 0xFFFFFFFF, 0xFFFFFFFF, 0xFFFFFFFF, 0xFFFFFFFF, 0xFFFFFFFF, 0, 0, 0, 0, 0xFFFFFFFF, 0xFFFFFFFF], [1, 0, 0, 0, 0, 0], [0, 0, 0, 0, 0, 0], 1);
    UncheckedCorrectionColumn1();
    assert Pass1(s, 2) == Reduction([0xFFFFFFFE, 0xFFFFFFFF, 0xFFFFFFFF, 0xFFFFFFFF, 0xFFFFFFFF, 0xFFFFFFFF, 0, 0, 0, 0, 0xFFFFFFFF, 0xFFFFFFFF], [1, 1, 0, 0, 0, 0], [0, 0, 0, 0, 0, 0], 1);
    UncheckedCorrectionColumn2();
    assert Pass1(s, 3) == Reduction([0xFFFFFFFE, 0xFFFFFFFF, 0xFFFFFFFF, 0xFFFFFFFF, 0xFFFFFFFF, 0xFFFFFFFF, 0, 0, 0, 0, 0xFFFFFFFF, 0xFFFFFFFF], [1, 1, 1, 0, 0, 0], [0, 0, 0, 0, 0, 0], 1);
    UncheckedCorrectionColumn3();
    assert Pass1(s, 4) == Reduction([0xFFFFFFFE, 0xFFFFFFFF, 0xFFFFFFFF, 0xFFFFFFFF, 0xFFFFFFFF, 0xFFFFFFFF, 0, 0, 0, 0, 0xFFFFFFFF, 0xFFFFFFFF], [1, 1, 1, 1, 0, 0], [0, 0, 0, 0, 0, 0], 1);
    UncheckedCorrectionColumn4();
    assert Pass1(s, 5) == Reduction([0xFFFFFFFE, 0xFFFFFFFF, 0xFFFFFFFF, 0xFFFFFFFF, 0xFFFFFFFF, 0xFFFFFFFF, 0, 0, 0, 0, 0xFFFFFFFF, 0xFFFFFFFF], [1, 1, 1, 1, 1, 0], [0, 0, 0, 0, 0, 0], 0);
    UncheckedCorrectionColumn5();
    assert Pass1(s, 6) == Reduction([0xFFFFFFFE, 0xFFFFFFFF, 0xFFFFFFFF, 0xFFFFFFFF, 0xFFFFFFFF, 0xFFFFFFFF, 0, 0, 0, 0, 0xFFFFFFFF, 0xFFFFFFFF], [1, 1, 1, 1, 1, 1], [0, 0, 0, 0, 0, 0], 0);
  }

  /** The second pass of the trace: the folded-in carries added back. */
  lemma UncheckedCorrectionSecondPass()
    ensures Pass2(Reduction([0xFFFFFFFE, 0xFFFFFFFF, 0xFFFFFFFF, 0xFFFFFFFF, 0xFFFFFFFF, 0xFFFFFFFF, 0, 0, 0, 0, 0xFFFFFFFF, 0xFFFFFFFF], [1, 1, 1, 1, 1, 1], [0, 0, 0, 0, 0, 0], 0), HALF)
         == Reduction([0xFFFFFFFF, 0xFFFFFFFF, 0, 0, 0, 0, 0, 0, 0, 0, 0xFFFFFFFF, 0xFFFFFFFF], [1, 1, 1, 1, 1, 1], [0, 0, 1, 1, 1, 1], 1)
  {
    var R := Reduction([0xFFFFFFFE, 0xFFFFFFFF, 0xFFFFFFFF, 0xFFFFFFFF, 0xFFFFFFFF, 0xFFFFFFFF, 0, 0, 0, 0, 0xFFFFFFFF, 0xFFFFFFFF], [1, 1, 1, 1, 1, 1], [0, 0, 0, 0, 0, 0], 0);
    UncheckedCorrectionStep0();
    assert Pass2(R, 1) == Reduction([0xFFFFFFFF, 0xFFFFFFFF, 0xFFFFFFFF, 0xFFFFFFFF, 0xFFFFFFFF, 0xFFFFFFFF, 0, 0, 0, 0, 0xFFFFFFFF, 0xFFFFFFFF], [1, 1, 1, 1, 1, 1], [0, 0, 0, 0, 0, 0], 0);
    UncheckedCorrectionStep1();
    assert Pass2(R, 2) == Reduction([0xFFFFFFFF, 0xFFFFFFFF, 0xFFFFFFFF, 0xFFFFFFFF, 0xFFFFFFFF, 0xFFFFFFFF, 0, 0, 0, 0, 0xFFFFFFFF, 0xFFFFFFFF], [1, 1, 1, 1, 1, 1], [0, 0, 0, 0, 0, 0], 0);
    UncheckedCorrectionStep2();
    assert Pass2(R, 3) == Reduction([0xFFFFFFFF, 0xFFFFFFFF, 0, 0xFFFFFFFF, 0xFFFFFFFF, 0xFFFFFFFF, 0, 0, 0, 0, 0xFFFFFFFF, 0xFFFFFFFF], [1, 1, 1, 1, 1, 1], [0, 0, 1, 0, 0, 0], 1);
    UncheckedCorrectionStep3();
    assert Pass2(R, 4) == Reduction([0xFFFFFFFF, 0xFFFFFFFF, 0, 0, 0xFFFFFFFF, 0xFFFFFFFF, 0, 0, 0, 0, 0xFFFFFFFF, 0xFFFFFFFF], [1, 1, 1, 1, 1, 1], [0, 0, 1, 1, 0, 0], 1);
    UncheckedCorrectionStep4();
    assert Pass2(R, 5) == Reduction([0xFFFFFFFF, 0xFFFFFFFF, 0, 0, 0, 0xFFFFFFFF, 0, 0, 0, 0, 0xFFFFFFFF, 0xFFFFFFFF], [1, 1, 1, 1, 1, 1], [0, 0, 1, 1, 1, 0], 1);
    UncheckedCorrectionStep5();
  }

  // UncheckedCorrection: one lemma per step of the trace.

  lemma UncheckedCorrectionColumn0()
    ensures Column(Reduction([0xFFFFFFFF, 0xFFFFFFFF, 0xFFFFFFFF, 0xFFFFFFFF, 0xFFFFFFFF, 0xFFFFFFFF, 0, 0, 0, 0, 0xFFFFFFFF, 0xFFFFFFFF], [0, 0, 0, 0, 0, 0], [0, 0, 0, 0, 0, 0], 0), 0)
         == Reduction([0xFFFFFFFE, 0xFFFFFFFF, 0xFFFFFFFF, 0xFFFFFFFF, 0xFFFFFFFF, 0xFFFFFFFF, 0, 0, 0, 0, 0xFFFFFFFF, 0xFFFFFFFF], [1, 0, 0, 0, 0, 0], [0, 0, 0, 0, 0, 0], 1)
  {
  }

  lemma UncheckedCorrectionColumn1()
    ensures Column(Reduction([0xFFFFFFFE, 0xFFFFFFFF, 0xFFFFFFFF, 0xFFFFFFFF, 0xFFFFFFFF, 0xFFFFFFFF, 0, 0, 0, 0, 0xFFFFFFFF, 0xFFFFFFFF], [1, 0, 0, 0, 0, 0], [0, 0, 0, 0, 0, 0], 1), 1)
         == Reduction([0xFFFFFFFE, 0xFFFFFFFF, 0xFFFFFFFF, 0xFFFFFFFF, 0xFFFFFFFF, 0xFFFFFFFF, 0, 0, 0, 0, 0xFFFFFFFF, 0xFFFFFFFF], [1, 1, 0, 0, 0, 0], [0, 0, 0, 0, 0, 0], 1)
  {
  }

  lemma UncheckedCorrectionColumn2()
    ensures Column(Reduction([0xFFFFFFFE, 0xFFFFFFFF, 0xFFFFFFFF, 0xFFFFFFFF, 0xFFFFFFFF, 0xFFFFFFFF, 0, 0, 0, 0, 0xFFFFFFFF, 0xFFFFFFFF], [1, 1, 0, 0, 0, 0], [0, 0, 0, 0, 0, 0], 1), 2)
         == Reduction([0xFFFFFFFE, 0xFFFFFFFF, 0xFFFFFFFF, 0xFFFFFFFF, 0xFFFFFFFF, 0xFFFFFFFF, 0, 0, 0, 0, 0xFFFFFFFF, 0xFFFFFFFF], [1, 1, 1, 0, 0, 0], [0, 0, 0, 0, 0, 0], 1)
  {
  }

  lemma UncheckedCorrectionColumn3()
    ensures Column(Reduction([0xFFFFFFFE, 0xFFFFFFFF, 0xFFFFFFFF, 0xFFFFFFFF, 0xFFFFFFFF, 0xFFFFFFFF, 0, 0, 0, 0, 0xFFFFFFFF, 0xFFFFFFFF], [1, 1, 1, 0, 0, 0], [0, 0, 0, 0, 0, 0], 1), 3)
         == Reduction([0xFFFFFFFE, 0xFFFFFFFF, 0xFFFFFFFF, 0xFFFFFFFF, 0xFFFFFFFF, 0xFFFFFFFF, 0, 0, 0, 0, 0xFFFFFFFF, 0xFFFFFFFF], [1, 1, 1, 1, 0, 0], [0, 0, 0, 0, 0, 0], 1)
  {
  }

  lemma UncheckedCorrectionColumn4()
    ensures Column(Reduction([0xFFFFFFFE, 0xFFFFFFFF, 0xFFFFFFFF, 0xFFFFFFFF, 0xFFFFFFFF, 0xFFFFFFFF, 0, 0, 0, 0, 0xFFFFFFFF, 0xFFFFFFFF], [1, 1, 1, 1, 0, 0], [0, 0, 0, 0, 0, 0], 1), 4)
         == Reduction([0xFFFFFFFE, 0xFFFFFFFF, 0xFFFFFFFF, 0xFFFFFFFF, 0xFFFFFFFF, 0xFFFFFFFF, 0, 0, 0, 0, 0xFFFFFFFF, 0xFFFFFFFF], [1, 1, 1, 1, 1, 0], [0, 0, 0, 0, 0, 0], 0)
  {
  }

  lemma UncheckedCorrectionColumn5()
    ensures Column(Reduction([0xFFFFFFFE, 0xFFFFFFFF, 0xFFFFFFFF, 0xFFFFFFFF, 0xFFFFFFFF, 0xFFFFFFFF, 0, 0, 0, 0, 0xFFFFFFFF, 0xFFFFFFFF], [1, 1, 1, 1, 1, 0], [0, 0, 0, 0, 0, 0], 0), 5)
         == Reduction([0xFFFFFFFE, 0xFFFFFFFF, 0xFFFFFFFF, 0xFFFFFFFF, 0xFFFFFFFF, 0xFFFFFFFF, 0, 0, 0, 0, 0xFFFFFFFF, 0xFFFFFFFF], [1, 1, 1, 1, 1, 1], [0, 0, 0, 0, 0, 0], 0)
  {
  }

  lemma UncheckedCorrectionStep0()
    ensures Step2(Reduction([0xFFFFFFFE, 0xFFFFFFFF, 0xFFFFFFFF, 0xFFFFFFFF, 0xFFFFFFFF, 0xFFFFFFFF, 0, 0, 0, 0, 0xFFFFFFFF, 0xFFFFFFFF], [1, 1, 1, 1, 1, 1], [0, 0, 0, 0, 0, 0], 0), 0)
         == Reduction([0xFFFFFFFF, 0xFFFFFFFF, 0xFFFFFFFF, 0xFFFFFFFF, 0xFFFFFFFF, 0xFFFFFFFF, 0, 0, 0, 0, 0xFFFFFFFF, 0xFFFFFFFF], [1, 1, 1, 1, 1, 1], [0, 0, 0, 0, 0, 0], 0)
  {
  }

  lemma UncheckedCorrectionStep1()
    ensures Step2(Reduction([0xFFFFFFFF, 0xFFFFFFFF, 0xFFFFFFFF, 0xFFFFFFFF, 0xFFFFFFFF, 0xFFFFFFFF, 0, 0, 0, 0, 0xFFFFFFFF, 0xFFFFFFFF], [1, 1, 1, 1, 1, 1], [0, 0, 0, 0, 0, 0], 0), 1)
         == Reduction([0xFFFFFFFF, 0xFFFFFFFF, 0xFFFFFFFF, 0xFFFFFFFF, 0xFFFFFFFF, 0xFFFFFFFF, 0, 0, 0, 0, 0xFFFFFFFF, 0xFFFFFFFF], [1, 1, 1, 1, 1, 1], [0, 0, 0, 0, 0, 0], 0)
  {
  }

  lemma UncheckedCorrectionStep2()
    ensures Step2(Reduction([0xFFFFFFFF, 0xFFFFFFFF, 0xFFFFFFFF, 0xFFFFFFFF, 0xFFFFFFFF, 0xFFFFFFFF, 0, 0, 0, 0, 0xFFFFFFFF, 0xFFFFFFFF], [1, 1, 1, 1, 1, 1], [0, 0, 0, 0, 0, 0], 0), 2)
         == Reduction([0xFFFFFFFF, 0xFFFFFFFF, 0, 0xFFFFFFFF, 0xFFFFFFFF, 0xFFFFFFFF, 0, 0, 0, 0, 0xFFFFFFFF, 0xFFFFFFFF], [1, 1, 1, 1, 1, 1], [0, 0, 1, 0, 0, 0], 1)
  {
  }

  lemma UncheckedCorrectionStep3()
    ensures Step2(Reduction([0xFFFFFFFF, 0xFFFFFFFF, 0, 0xFFFFFFFF, 0xFFFFFFFF, 0xFFFFFFFF, 0, 0, 0, 0, 0xFFFFFFFF, 0xFFFFFFFF], [1, 1, 1, 1, 1, 1], [0, 0, 1, 0, 0, 0], 1), 3)
         == Reduction([0xFFFFFFFF, 0xFFFFFFFF, 0, 0, 0xFFFFFFFF, 0xFFFFFFFF, 0, 0, 0, 0, 0xFFFFFFFF, 0xFFFFFFFF], [1, 1, 1, 1, 1, 1], [0, 0, 1, 1, 0, 0], 1)
  {
  }

  lemma UncheckedCorrectionStep4()
    ensures Step2(Reduction([0xFFFFFFFF, 0xFFFFFFFF, 0, 0, 0xFFFFFFFF, 0xFFFFFFFF, 0, 0, 0, 0, 0xFFFFFFFF, 0xFFFFFFFF], [1, 1, 1, 1, 1, 1], [0, 0, 1, 1, 0, 0], 1), 4)
         == Reduction([0xFFFFFFFF, 0xFFFFFFFF, 0, 0, 0, 0xFFFFFFFF, 0, 0, 0, 0, 0xFFFFFFFF, 0xFFFFFFFF], [1, 1, 1, 1, 1, 1], [0, 0, 1, 1, 1, 0], 1)
  {
  }

  lemma UncheckedCorrectionStep5()
    ensures Step2(Reduction([0xFFFFFFFF, 0xFFFFFFFF, 0, 0, 0, 0xFFFFFFFF, 0, 0, 0, 0, 0xFFFFFFFF, 0xFFFFFFFF], [1, 1, 1, 1, 1, 1], [0, 0, 1, 1, 1, 0], 1), 5)
         == Reduction([0xFFFFFFFF, 0xFFFFFFFF, 0, 0, 0, 0, 0, 0, 0, 0, 0xFFFFFFFF, 0xFFFFFFFF], [1, 1, 1, 1, 1, 1], [0, 0, 1, 1, 1, 1], 1)
  {
  }

  lemma UncheckedCorrectionCorrection()
    ensures Correct(Reduction([0xFFFFFFFF, 0xFFFFFFFF, 0, 0, 0, 0, 0, 0, 0, 0, 0xFFFFFFFF, 0xFFFFFFFF], [1, 1, 1, 1, 1, 1], [0, 0, 1, 1, 1, 1], 1))
         == Reduction([0, 0xFFFFFFFF, 1, 0, 0, 0, 0, 0, 0, 0, 0xFFFFFFFF, 0xFFFFFFFF], [1, 1, 1, 1, 1, 1], [0, 0, 1, 1, 1, 1], 1)
  {
  }

  lemma UncheckedCorrectionInputResidue()
    ensures Val([0xFFFFFFFF, 0xFFFFFFFF, 0xFFFFFFFF, 0xFFFFFFFF, 0xFFFFFFFF, 0xFFFFFFFF, 0, 0, 0, 0, 0xFFFFFFFF, 0xFFFFFFFF]) % P == 0x20000000000000000
  {
    var n := 0xFFFFFFFFFFFFFFFF00000000000000000000000000000000FFFFFFFFFFFFFFFFFFFFFFFFFFFFFFFFFFFFFFFFFFFFFFFF;
    assert Val([0xFFFFFFFF, 0xFFFFFFFF, 0xFFFFFFFF, 0xFFFFFFFF, 0xFFFFFFFF, 0xFFFFFFFF, 0, 0, 0, 0, 0xFFFFFFFF, 0xFFFFFFFF]) == n by { }
    assert n == 0xFFFFFFFFFFFFFFFF00000000000000010000000000000001 * P + 0x20000000000000000 by { }
    DivModUnique(n, P, 0xFFFFFFFFFFFFFFFF00000000000000010000000000000001, 0x20000000000000000);
  }

  lemma UncheckedCorrectionResultResidue()
    ensures Val([0, 0xFFFFFFFF, 1, 0, 0, 0, 0, 0, 0, 0, 0, 0]) % P == 0x1FFFFFFFF00000000
  {
    var n := 0x1FFFFFFFF00000000;
    assert Val([0, 0xFFFFFFFF, 1, 0, 0, 0, 0, 0, 0, 0, 0, 0]) == n by { }
    assert n == 0 * P + 0x1FFFFFFFF00000000 by { }
    DivModUnique(n, P, 0, 0x1FFFFFFFF00000000);
  }

  /** The carry lost in the unchecked correction of words 0 and 2 changes the residue. */
  lemma UncheckedCorrectionDiffers()
    ensures Val(ModP192AsWritten([0xFFFFFFFF, 0xFFFFFFFF, 0xFFFFFFFF, 0xFFFFFFFF, 0xFFFFFFFF, 0xFFFFFFFF, 0, 0, 0, 0, 0xFFFFFFFF, 0xFFFFFFFF], 0)) % P
         != Val([0xFFFFFFFF, 0xFFFFFFFF, 0xFFFFFFFF, 0xFFFFFFFF, 0xFFFFFFFF, 0xFFFFFFFF, 0, 0, 0, 0, 0xFFFFFFFF, 0xFFFFFFFF]) % P
  {
    UncheckedCorrection();
    UncheckedCorrectionInputResidue();
    UncheckedCorrectionResultResidue();
  }
}
