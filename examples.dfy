/** Texts the note editor decorates, or leaves alone, worked out on the
    model. */
module Examples {
  import opened Types
  import opened MathRegex
  import opened Arith
  import opened Notepad

  lemma LiteralValue(w: string)
    requires |w| > 0 && AllDigits(w)
    ensures WellFormedOperand(Literal(w)) && OperandValue(Literal(w)) == DigitsValue(w) as real
  {
  }

  /** `20*10=` is decorated with 200. */
  lemma ExampleProduct()
    ensures Decorate(TextNode(Leaf("20*10=")), [])
         == [MathDecoration(DecorationPoint([], 5), DecorationPoint([], 6), "200")]
  {
    var e := Expr(Literal("20"), "", Mul, "", Literal("10"), "");
    DecorateWholeText("20*10=", e);
    ProductValue(e);
  }

  lemma ProductValue(e: Expr)
    requires e == Expr(Literal("20"), "", Mul, "", Literal("10"), "")
    ensures WellFormedExpr(e)
    ensures ReferenceMatch("20*10=", e, []) == [MathDecoration(DecorationPoint([], 5), DecorationPoint([], 6), "200")]
  {
    ProductEval(e);
    ShowWhole200();
  }

  lemma ProductEval(e: Expr)
    requires e == Expr(Literal("20"), "", Mul, "", Literal("10"), "")
    ensures WellFormedExpr(e) && Eval(e) == Finite(200.0)
  {
    assert DigitsValue("20") == 20 by { assert "20"[..1] == "2"; }
    assert DigitsValue("10") == 10 by { assert "10"[..1] == "1"; }
    LiteralValue("20");
    LiteralValue("10");
  }

  lemma ShowWhole200()
    ensures FormatResult(Finite(200.0)) == "200"
  {
    FormatWholeNumber(200);
    assert NatToString(200) == "200" by {
      assert NatToString(2) == "2";
      assert NatToString(20) == "20";
    }
  }

  /** `5/0=` is decorated with Infinity. */
  lemma ExampleDivisionByZero()
    ensures Decorate(TextNode(Leaf("5/0=")), [])
         == [MathDecoration(DecorationPoint([], 3), DecorationPoint([], 4), "Infinity")]
  {
    var e := Expr(Literal("5"), "", Div, "", Literal("0"), "");
    DecorateWholeText("5/0=", e);
    LiteralValue("5");
    LiteralValue("0");
  }

  /** `0/0=` is not decorated: its value is NaN. */
  lemma ExampleZeroByZero()
    ensures Decorate(TextNode(Leaf("0/0=")), []) == []
  {
    var e := Expr(Literal("0"), "", Div, "", Literal("0"), "");
    DecorateWholeText("0/0=", e);
    LiteralValue("0");
  }

  /** `20%-5%=` is decorated with 0.15: each percentage is divided by 100. */
  lemma ExamplePercentages()
    ensures Decorate(TextNode(Leaf("20%-5%=")), [])
         == [MathDecoration(DecorationPoint([], 6), DecorationPoint([], 7), "0.15")]
  {
    var e := Expr(Operand("20", [], true), "", Sub, "", Operand("5", [], true), "");
    DecorateWholeText("20%-5%=", e);
    PercentagesValue(e);
  }

  lemma PercentagesValue(e: Expr)
    requires e == Expr(Operand("20", [], true), "", Sub, "", Operand("5", [], true), "")
    ensures WellFormedExpr(e)
    ensures ReferenceMatch("20%-5%=", e, []) == [MathDecoration(DecorationPoint([], 6), DecorationPoint([], 7), "0.15")]
  {
    assert DigitsValue("20") == 20 by { assert "20"[..1] == "2"; }
    assert Eval(e) == Finite(0.15);
    Show015();
  }

  lemma Show015()
    ensures FormatResult(Finite(0.15)) == "0.15"
  {
    assert RoundHundredths(0.15) == 15;
    assert FractionDigits(15) == "15";
  }

  /** `20*10%=` is decorated with 2. */
  lemma ExamplePercentOperand()
    ensures Decorate(TextNode(Leaf("20*10%=")), [])
         == [MathDecoration(DecorationPoint([], 6), DecorationPoint([], 7), "2")]
  {
    var e := Expr(Literal("20"), "", Mul, "", Operand("10", [], true), "");
    DecorateWholeText("20*10%=", e);
    PercentOperandValue(e);
  }

  lemma PercentOperandValue(e: Expr)
    requires e == Expr(Literal("20"), "", Mul, "", Operand("10", [], true), "")
    ensures WellFormedExpr(e)
    ensures ReferenceMatch("20*10%=", e, []) == [MathDecoration(DecorationPoint([], 6), DecorationPoint([], 7), "2")]
  {
    PercentOperandEval(e);
    ShowWhole(2, "2");
    assert MathjsBlanks(e);
  }

  lemma PercentOperandEval(e: Expr)
    requires e == Expr(Literal("20"), "", Mul, "", Operand("10", [], true), "")
    ensures WellFormedExpr(e) && Eval(e) == Finite(2.0)
  {
    assert DigitsValue("20") == 20 by { assert "20"[..1] == "2"; }
    assert DigitsValue("10") == 10 by { assert "10"[..1] == "1"; }
    LiteralValue("20");
  }

  /** A one-digit whole number is shown as its digit. */
  lemma ShowWhole(n: nat, t: string)
    requires n < 10 && t == [Digit(n)]
    ensures FormatResult(Finite(n as real)) == t
  {
    FormatWholeNumber(n);
  }

  /** `2.5+2.5=` is decorated with 5. */
  lemma ExampleDecimals()
    ensures Decorate(TextNode(Leaf("2.5+2.5=")), [])
         == [MathDecoration(DecorationPoint([], 7), DecorationPoint([], 8), "5")]
  {
    var e := Expr(Operand("2", "5", false), "", Add, "", Operand("2", "5", false), "");
    DecorateWholeText("2.5+2.5=", e);
    DecimalsValue(e);
  }

  lemma DecimalsValue(e: Expr)
    requires e == Expr(Operand("2", "5", false), "", Add, "", Operand("2", "5", false), "")
    ensures WellFormedExpr(e)
    ensures ReferenceMatch("2.5+2.5=", e, []) == [MathDecoration(DecorationPoint([], 7), DecorationPoint([], 8), "5")]
  {
    DecimalsEval(e);
    ShowWhole(5, "5");
    assert MathjsBlanks(e);
  }

  lemma DecimalsEval(e: Expr)
    requires e == Expr(Operand("2", "5", false), "", Add, "", Operand("2", "5", false), "")
    ensures WellFormedExpr(e) && Eval(e) == Finite(5.0)
  {
    TwoAndAHalf(e.left);
  }

  lemma TwoAndAHalf(o: Operand)
    requires o == Operand("2", "5", false)
    ensures WellFormedOperand(o) && OperandValue(o) == 2.5
  {
    assert DigitsValue("2") == 2 && DigitsValue("5") == 5;
    assert Pow10(1) == 10;
  }

  /** In `-5+3=` the minus sign is no part of the match: 5+3 is
      evaluated. */
  lemma ExampleLeadingMinus()
    ensures Decorate(TextNode(Leaf("-5+3=")), [])
         == [MathDecoration(DecorationPoint([], 4), DecorationPoint([], 5), "8")]
  {
    var s := "-5+3=";
    var e := Expr(Literal("5"), "", Add, "", Literal("3"), "");
    SignIsNoOperand(s);
    DecorateSuffix(s, 1, e);
    SumValue(s, e);
  }

  lemma SignIsNoOperand(s: string)
    requires s == "-5+3="
    ensures !MatchesAt(s, 0)
    ensures s[1..] == Render(Expr(Literal("5"), "", Add, "", Literal("3"), ""))
  {
    assert !IsDigit(s[0..][0]);
  }

  lemma SumValue(s: string, e: Expr)
    requires s == "-5+3=" && e == Expr(Literal("5"), "", Add, "", Literal("3"), "")
    ensures WellFormedExpr(e)
    ensures ReferenceMatch(s, e, []) == [MathDecoration(DecorationPoint([], 4), DecorationPoint([], 5), "8")]
  {
    SumEval(e);
    ShowWhole(8, "8");
    assert MathjsBlanks(e);
  }

  lemma SumEval(e: Expr)
    requires e == Expr(Literal("5"), "", Add, "", Literal("3"), "")
    ensures WellFormedExpr(e) && Eval(e) == Finite(8.0)
  {
    LiteralValue("5");
    LiteralValue("3");
  }

  /** A line feed right after the operator is skipped: `2+`, a line feed
      and `3=` is decorated with 5. */
  lemma ExampleNewlineAfterOperator()
    ensures Decorate(TextNode(Leaf("2+\n3=")), [])
         == [MathDecoration(DecorationPoint([], 4), DecorationPoint([], 5), "5")]
  {
    var e := Expr(Literal("2"), "", Add, "\n", Literal("3"), "");
    DecorateWholeText("2+\n3=", e);
    NewlineSumValue(e);
  }

  lemma NewlineSumValue(e: Expr)
    requires e == Expr(Literal("2"), "", Add, "\n", Literal("3"), "")
    ensures WellFormedExpr(e)
    ensures ReferenceMatch("2+\n3=", e, []) == [MathDecoration(DecorationPoint([], 4), DecorationPoint([], 5), "5")]
  {
    LiteralValue("2");
    LiteralValue("3");
    assert Eval(e) == Finite(5.0);
    ShowWhole(5, "5");
    assert MathjsBlanks(e);
  }

  /** A line feed before the operator ends the statement, so the result is
      no single number: `2`, a line feed and `+3=` is not decorated. */
  lemma ExampleNewlineBeforeOperator()
    ensures Decorate(TextNode(Leaf("2\n+3=")), []) == []
  {
    var e := Expr(Literal("2"), "\n", Add, "", Literal("3"), "");
    DecorateWholeText("2\n+3=", e);
    assert !IsBlank(e.gap1[0], false);
  }

  /** `.5` is no operand: in `.5+1=` the match is `5+1=`, which gives 6. */
  lemma ExampleLeadingPoint()
    ensures Decorate(TextNode(Leaf(".5+1=")), [])
         == [MathDecoration(DecorationPoint([], 4), DecorationPoint([], 5), "6")]
  {
    var s := ".5+1=";
    var e := Expr(Literal("5"), "", Add, "", Literal("1"), "");
    PointIsNoOperand(s);
    DecorateSuffix(s, 1, e);
    PointSumValue(s, e);
  }

  lemma PointIsNoOperand(s: string)
    requires s == ".5+1="
    ensures !MatchesAt(s, 0)
    ensures s[1..] == Render(Expr(Literal("5"), "", Add, "", Literal("1"), ""))
  {
    assert !IsDigit(s[0..][0]);
  }

  lemma PointSumValue(s: string, e: Expr)
    requires s == ".5+1=" && e == Expr(Literal("5"), "", Add, "", Literal("1"), "")
    ensures WellFormedExpr(e)
    ensures ReferenceMatch(s, e, []) == [MathDecoration(DecorationPoint([], 4), DecorationPoint([], 5), "6")]
  {
    LiteralValue("5");
    LiteralValue("1");
    assert Eval(e) == Finite(6.0);
    ShowWhole(6, "6");
    assert MathjsBlanks(e);
  }

  /** In `1-2-3=` the leftmost match is `2-3=`, which gives -1. */
  lemma ExampleLeftmostMatch()
    ensures Decorate(TextNode(Leaf("1-2-3=")), [])
         == [MathDecoration(DecorationPoint([], 5), DecorationPoint([], 6), "-1")]
  {
    var s := "1-2-3=";
    var e := Expr(Literal("2"), "", Sub, "", Literal("3"), "");
    assert s[2..] == Render(e);
    NoMatchOfChain(s);
    assert !MatchesAt(s, 1) by { assert !IsDigit(s[1..][0]); }
    DecorateSuffix(s, 2, e);
    ChainValue(s, e);
  }

  lemma ChainValue(s: string, e: Expr)
    requires s == "1-2-3=" && e == Expr(Literal("2"), "", Sub, "", Literal("3"), "")
    ensures WellFormedExpr(e)
    ensures ReferenceMatch(s, e, []) == [MathDecoration(DecorationPoint([], 5), DecorationPoint([], 6), "-1")]
  {
    LiteralValue("2");
    LiteralValue("3");
    assert Eval(e) == Finite(-1.0);
    NegativeWholeHundredths(1);
    FormatNegativeWholeNumber(1);
    assert NatToString(1) == "1";
    assert FormatResult(Eval(e)) == "-1";
    assert MathjsBlanks(e);
  }

  /** `1-2-3=` as a whole is no match: only one operator is allowed. */
  lemma NoMatchOfChain(s: string)
    requires s == "1-2-3="
    ensures !MatchesAt(s, 0)
  {
    assert s[0..] == s;
    ParseOperandOf(Literal("1"), "-2-3=");
    assert "1" + "-2-3=" == s;
    NoTailInChain("-2-3=");
  }

  lemma NoTailInChain(t: string)
    requires t == "-2-3="
    ensures ParseTail(t) == None
  {
    assert SpaceRun(t) == 0;
    assert t[0..] == t && t[1..] == "2-3=";
    NoRightInChain("2-3=");
  }

  lemma NoRightInChain(t: string)
    requires t == "2-3="
    ensures ParseRight(t) == None
  {
    assert SpaceRun(t) == 0;
    assert t[0..] == t;
    ParseOperandOf(Literal("2"), "-3=");
    assert "2" + "-3=" == t;
    NoEndInChain("-3=");
  }

  lemma NoEndInChain(t: string)
    requires t == "-3="
    ensures ParseEnd(t) == None
  {
    assert SpaceRun(t) == 0;
    assert t[0..] == t;
  }
}
