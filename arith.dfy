/** The arithmetic behind a math decoration: the value of a matched
    expression, the textual percent rewrite applied to it before evaluation,
    the part of the expression evaluator that the rewritten text exercises,
    and the two-decimal formatting of the result. Numbers are exact reals. */
module Arith {
  import opened Types
  import opened MathRegex

  // ---------------------------------------------------------------------
  // Values

  /** What the evaluator can produce for one binary operation on finite
      operands. */
  datatype Number = Finite(value: real) | Infinity(negative: bool) | NaN

  function DigitValue(c: char): nat
    requires IsDigit(c)
  {
    (c as int - '0' as int) as nat
  }

  /** The value of a string of decimal digits; the empty string is 0. */
  function DigitsValue(s: string): nat
    requires AllDigits(s)
  {
    if s == [] then 0
    else 10 * DigitsValue(s[..|s| - 1]) + DigitValue(s[|s| - 1])
  }

  function Pow10(n: nat): (p: nat)
    ensures p >= 1
  {
    if n == 0 then 1 else 10 * Pow10(n - 1)
  }

  function NumeralValue(whole: string, fraction: string): real
    requires IsNumeral(whole, fraction)
  {
    DigitsValue(whole) as real + DigitsValue(fraction) as real / Pow10(|fraction|) as real
  }

  /** An operand's value; a trailing `%` divides it by 100. */
  function OperandValue(o: Operand): real
    requires WellFormedOperand(o)
  {
    var v := NumeralValue(o.whole, o.fraction);
    if o.percent then v / 100.0 else v
  }

  /** One binary operation. Division by zero gives a signed infinity, and
      0/0 gives NaN. */
  function Apply(op: Op, a: real, b: real): (n: Number)
    ensures n.NaN? <==> op == Div && a == 0.0 && b == 0.0
    ensures n.Infinity? <==> op == Div && a != 0.0 && b == 0.0
    ensures n.Infinity? ==> (n.negative <==> a < 0.0)
  {
    match op
    case Add => Finite(a + b)
    case Sub => Finite(a - b)
    case Mul => Finite(a * b)
    case Div =>
      if b != 0.0 then Finite(a / b)
      else if a > 0.0 then Infinity(false)
      else if a < 0.0 then Infinity(true)
      else NaN
  }

  /** The value a matched expression stands for. */
  function Eval(e: Expr): Number
    requires WellFormedExpr(e)
  {
    Apply(e.op, OperandValue(e.left), OperandValue(e.right))
  }

  // ---------------------------------------------------------------------
  // The percent rewrite: every `\d+(\.\d+)?%` becomes `(<numeral>/100)`

  /** `s` begins with a numeral followed by `%`, which is where the global
      replacement pattern matches. */
  predicate PercentAt(s: string)
  {
    var p := ParseNumeral(s);
    p.Some? && p.value.2 != [] && p.value.2[0] == '%'
  }

  /** The global replacement, scanning left to right: at a position where
      the pattern matches, the match is replaced and scanning resumes after
      it; elsewhere one character is kept. */
  function RewritePercent(s: string): string
    decreases |s|
  {
    if s == [] then []
    else if PercentAt(s) then
      var (w, f, rest) := ParseNumeral(s).value;
      "(" + NumeralText(w, f) + "/100)" + RewritePercent(rest[1..])
    else [s[0]] + RewritePercent(s[1..])
  }

  /** A backtracking match of `\d+(\.\d+)?%` at a position is the longest
      numeral there: whatever prefix of that form a text begins with, the
      rewrite sees exactly it. */
  lemma PercentPatternIsMaximal(w: string, f: string, rest: string)
    requires IsNumeral(w, f)
    ensures ParseNumeral(NumeralText(w, f) + ("%" + rest)) == Some((w, f, "%" + rest))
    ensures PercentAt(NumeralText(w, f) + ("%" + rest))
  {
    ParseNumeralOf(w, f, "%" + rest);
  }

  function RewrittenOperand(o: Operand): string
  {
    if o.percent then "(" + NumeralText(o.whole, o.fraction) + "/100)"
    else NumeralText(o.whole, o.fraction)
  }

  /** The text handed to the evaluator for a matched expression. */
  function RewrittenSource(e: Expr): string
  {
    RewrittenOperand(e.left) + (e.gap1 + ([OpChar(e.op)] + (e.gap2 + (RewrittenOperand(e.right) + e.gap3))))
  }

  /** A position that starts no replacement keeps its character. */
  lemma RewriteKeeps(s: string)
    requires s != [] && !PercentAt(s)
    ensures RewritePercent(s) == [s[0]] + RewritePercent(s[1..])
  {
  }

  /** A stretch `i..j` of `s` none of whose positions starts a
      replacement is copied. */
  lemma {:induction false} RewriteCopies(s: string, i: nat, j: nat)
    requires i <= j <= |s|
    requires forall k :: i <= k < j ==> !PercentAt(s[k..])
    ensures RewritePercent(s[i..]) == s[i..j] + RewritePercent(s[j..])
    decreases j - i
  {
    if i == j {
      assert s[i..j] == [];
    } else {
      RewriteKeeps(s[i..]);
      RewriteCopies(s, i + 1, j);
      SliceStep(s, i, j, RewritePercent(s[j..]));
    }
  }

  lemma SliceStep(s: string, i: nat, j: nat, tail: string)
    requires i < j <= |s|
    ensures s[i..][0] == s[i] && s[i..][1..] == s[i + 1..]
    ensures [s[i]] + (s[i + 1..j] + tail) == s[i..j] + tail
  {
    assert s[i..j] == [s[i]] + s[i + 1..j];
  }

  /** A stretch none of whose positions starts a replacement is copied. */
  lemma RewriteVerbatim(x: string, rest: string)
    requires forall i :: 0 <= i < |x| ==> !PercentAt(x[i..] + rest)
    ensures RewritePercent(x + rest) == x + RewritePercent(rest)
  {
    var s := x + rest;
    forall k | 0 <= k < |x| ensures !PercentAt(s[k..]) {
      assert s[k..] == x[k..] + rest;
    }
    RewriteCopies(s, 0, |x|);
    assert s[0..] == s && s[0..|x|] == x && s[|x|..] == rest;
  }

  lemma RewriteNonDigits(x: string, rest: string)
    requires forall i :: 0 <= i < |x| ==> !IsDigit(x[i])
    ensures RewritePercent(x + rest) == x + RewritePercent(rest)
  {
    forall i | 0 <= i < |x| ensures !PercentAt(x[i..] + rest) {
      assert (x[i..] + rest)[0] == x[i];
    }
    RewriteVerbatim(x, rest);
  }

  lemma SpacesAreNotDigits(g: string)
    requires AllSpaces(g)
    ensures forall i :: 0 <= i < |g| ==> !IsDigit(g[i])
  {
  }

  /** A numeral not followed by `%` is left alone, and so is every numeral
      that starts inside it. */
  lemma RewritePlainNumeral(w: string, f: string, rest: string)
    requires IsNumeral(w, f) && EndsOperand(rest)
    ensures RewritePercent(NumeralText(w, f) + rest) == NumeralText(w, f) + RewritePercent(rest)
  {
    PlainNumeralNoPercent(w, f, rest);
    RewriteVerbatim(NumeralText(w, f), rest);
  }

  lemma PlainNumeralNoPercent(w: string, f: string, rest: string)
    requires IsNumeral(w, f) && EndsOperand(rest)
    ensures forall i :: 0 <= i < |NumeralText(w, f)| ==> !PercentAt(NumeralText(w, f)[i..] + rest)
  {
    var n := NumeralText(w, f);
    forall i | 0 <= i < |n| ensures !PercentAt(n[i..] + rest) {
      NoPercentInsideNumeral(w, f, rest, i);
    }
  }

  lemma NoPercentInsideNumeral(w: string, f: string, rest: string, i: nat)
    requires IsNumeral(w, f) && EndsOperand(rest) && i < |NumeralText(w, f)|
    ensures !PercentAt(NumeralText(w, f)[i..] + rest)
  {
    var n := NumeralText(w, f);
    if i < |w| {
      assert n[i..] == NumeralText(w[i..], f);
      ParseNumeralOf(w[i..], f, rest);
    } else if i == |w| {
      assert (n[i..] + rest)[0] == '.';
    } else {
      var j := i - |w| - 1;
      assert n[i..] == NumeralText(f[j..], []);
      ParseNumeralOf(f[j..], [], rest);
    }
  }

  lemma RewriteOperand(o: Operand, rest: string)
    requires WellFormedOperand(o) && EndsOperand(rest)
    ensures RewritePercent(OperandText(o) + rest) == RewrittenOperand(o) + RewritePercent(rest)
  {
    if o.percent {
      assert OperandText(o) + rest == NumeralText(o.whole, o.fraction) + ("%" + rest);
      PercentPatternIsMaximal(o.whole, o.fraction, rest);
      assert ("%" + rest)[1..] == rest;
    } else {
      assert OperandText(o) + rest == NumeralText(o.whole, o.fraction) + rest;
      RewritePlainNumeral(o.whole, o.fraction, rest);
    }
  }

  lemma RewriteAfterOperator(op: Op, gap2: string, right: Operand, gap3: string)
    requires AllSpaces(gap2) && WellFormedOperand(right) && AllSpaces(gap3)
    ensures RewritePercent([OpChar(op)] + (gap2 + (OperandText(right) + gap3)))
         == [OpChar(op)] + (gap2 + (RewrittenOperand(right) + gap3))
  {
    var t4 := OperandText(right) + gap3;
    SpacesAreNotDigits(gap2);
    SpacesAreNotDigits(gap3);
    RewriteNonDigits(gap3, []);
    assert gap3 + [] == gap3;
    RewriteOperand(right, gap3);
    RewriteNonDigits(gap2, t4);
    RewriteNonDigits([OpChar(op)], gap2 + t4);
  }

  /** The rewrite of a matched expression's text replaces exactly its
      percent operands and keeps the white space and the operator. */
  lemma RewriteExpr(e: Expr)
    requires WellFormedExpr(e)
    ensures RewritePercent(ExprSource(e)) == RewrittenSource(e)
  {
    var t2 := [OpChar(e.op)] + (e.gap2 + (OperandText(e.right) + e.gap3));
    var t1 := e.gap1 + t2;
    assert EndsOperand(t1) by { if e.gap1 != [] { assert t1[0] == e.gap1[0]; } }
    RewriteAfterOperator(e.op, e.gap2, e.right, e.gap3);
    SpacesAreNotDigits(e.gap1);
    RewriteNonDigits(e.gap1, t2);
    RewriteOperand(e.left, t1);
  }

  // ---------------------------------------------------------------------
  // The evaluator, on the texts the rewrite produces

  /** The evaluator's white space: blank and tab, and a line feed too
      where `newlines` holds. mathjs skips line feeds when it reads the
      operand after a binary operator; elsewhere outside parentheses a line
      feed ends the statement, so the text is a block of statements and not
      one number. The other `\s` characters are not part of its syntax. */
  predicate IsBlank(c: char, newlines: bool)
  {
    c == ' ' || c == '\t' || (newlines && c == '\n')
  }

  predicate AllBlank(s: string, newlines: bool)
  {
    forall i :: 0 <= i < |s| ==> IsBlank(s[i], newlines)
  }

  function BlankRun(s: string, newlines: bool): (n: nat)
    ensures n <= |s| && AllBlank(s[..n], newlines)
    ensures n < |s| ==> !IsBlank(s[n], newlines)
  {
    if s != [] && IsBlank(s[0], newlines) then
      var m := BlankRun(s[1..], newlines);
      assert s[..1 + m] == [s[0]] + s[1..][..m];
      1 + m
    else 0
  }

  /** Reads a term, `N` or `(N/100)`, giving its value and the text after
      it. */
  function ParseTerm(s: string): Option<(real, string)>
  {
    if s != [] && s[0] == '(' then
      match ParseNumeral(s[1..])
      case None => None
      case Some((w, f, rest)) =>
        if |rest| >= 5 && rest[..5] == "/100)" then Some((NumeralValue(w, f) / 100.0, rest[5..]))
        else None
    else
      match ParseNumeral(s)
      case None => None
      case Some((w, f, rest)) => Some((NumeralValue(w, f), rest))
  }

  /** After the operator: blanks and line feeds, a term, then blanks up to
      the end. */
  function EvaluateRight(op: Op, a: real, s: string): Option<Number>
  {
    var g := BlankRun(s, true);
    match ParseTerm(s[g..])
    case None => None
    case Some((b, rest)) => if AllBlank(rest, false) then Some(Apply(op, a, b)) else None
  }

  /** After the first term: `blank* op` and the right-hand side. */
  function EvaluateTail(a: real, s: string): Option<Number>
  {
    var g := BlankRun(s, false);
    var rest := s[g..];
    if rest == [] || OpOf(rest[0]).None? then None
    else EvaluateRight(OpOf(rest[0]).value, a, rest[1..])
  }

  /** Evaluates `term blank* op (blank | line feed)* term blank*`; `None` is a syntax
      error or a result that is not a single number. */
  function MathEvaluate(src: string): Option<Number>
  {
    match ParseTerm(src)
    case None => None
    case Some((a, rest)) => EvaluateTail(a, rest)
  }

  /** The evaluator accepts the white space around the operator: blanks
      before it and at the end, blanks and line feeds after it. */
  predicate MathjsBlanks(e: Expr)
  {
    AllBlank(e.gap1, false) && AllBlank(e.gap2, true) && AllBlank(e.gap3, false)
  }

  lemma {:induction false} BlankRunConcat(g: string, rest: string, newlines: bool)
    ensures BlankRun(g + rest, newlines)
         == if AllBlank(g, newlines) then |g| + BlankRun(rest, newlines) else BlankRun(g, newlines)
  {
    if g == [] {
      assert g + rest == rest;
    } else {
      assert (g + rest)[0] == g[0];
      assert (g + rest)[1..] == g[1..] + rest;
      BlankRunConcat(g[1..], rest, newlines);
      assert AllBlank(g, newlines) <==> IsBlank(g[0], newlines) && AllBlank(g[1..], newlines) by {
        if IsBlank(g[0], newlines) && AllBlank(g[1..], newlines) {
          forall i | 0 <= i < |g| ensures IsBlank(g[i], newlines) {
            if i > 0 { assert g[i] == g[1..][i - 1]; }
          }
        }
      }
    }
  }

  /** A white-space gap the evaluator does not accept stops the scan at a
      `\s` character that is no blank. */
  lemma BlankRunStopsInGap(g: string, rest: string, newlines: bool)
    requires AllSpaces(g) && !AllBlank(g, newlines)
    ensures BlankRun(g + rest, newlines) < |g|
    ensures IsSpace((g + rest)[BlankRun(g + rest, newlines)])
         && !IsBlank((g + rest)[BlankRun(g + rest, newlines)], newlines)
  {
    BlankRunConcat(g, rest, newlines);
    var n := BlankRun(g, newlines);
    assert (g + rest)[n] == g[n];
  }

  lemma ParseTermOf(o: Operand, rest: string)
    requires WellFormedOperand(o)
    requires rest == [] || (!IsDigit(rest[0]) && rest[0] != '.')
    ensures ParseTerm(RewrittenOperand(o) + rest) == Some((OperandValue(o), rest))
  {
    if o.percent {
      ParsePercentTermOf(o, rest);
    } else {
      ParsePlainTermOf(o, rest);
    }
  }

  lemma ParsePercentTermOf(o: Operand, rest: string)
    requires WellFormedOperand(o) && o.percent
    requires rest == [] || (!IsDigit(rest[0]) && rest[0] != '.')
    ensures ParseTerm(RewrittenOperand(o) + rest) == Some((OperandValue(o), rest))
  {
    var after := "/100)" + rest;
    PercentTermShape(NumeralText(o.whole, o.fraction), rest);
    ParseNumeralOf(o.whole, o.fraction, after);
    ParseParenthesizedTerm(RewrittenOperand(o) + rest, o.whole, o.fraction, after);
  }

  lemma PercentTermShape(n: string, rest: string)
    ensures var s := "(" + n + "/100)" + rest;
      && s != [] && s[0] == '('
      && s[1..] == n + ("/100)" + rest)
      && ("/100)" + rest)[..5] == "/100)" && ("/100)" + rest)[5..] == rest
  {
    var s := "(" + n + "/100)" + rest;
    assert s == "(" + (n + ("/100)" + rest));
  }

  /** How the evaluator reads `(N/100)`. */
  lemma ParseParenthesizedTerm(s: string, w: string, f: string, after: string)
    requires s != [] && s[0] == '(' && ParseNumeral(s[1..]) == Some((w, f, after))
    requires |after| >= 5 && after[..5] == "/100)"
    ensures ParseTerm(s) == Some((NumeralValue(w, f) / 100.0, after[5..]))
  {
  }

  lemma ParsePlainTermOf(o: Operand, rest: string)
    requires WellFormedOperand(o) && !o.percent
    requires rest == [] || (!IsDigit(rest[0]) && rest[0] != '.')
    ensures ParseTerm(RewrittenOperand(o) + rest) == Some((OperandValue(o), rest))
  {
    var n := NumeralText(o.whole, o.fraction);
    assert RewrittenOperand(o) == n;
    assert (n + rest)[0] == o.whole[0];
    ParseNumeralOf(o.whole, o.fraction, rest);
  }

  lemma EvaluateRightOf(op: Op, a: real, gap2: string, right: Operand, gap3: string)
    requires AllSpaces(gap2) && WellFormedOperand(right) && AllSpaces(gap3)
    ensures EvaluateRight(op, a, gap2 + (RewrittenOperand(right) + gap3))
         == if AllBlank(gap2, true) && AllBlank(gap3, false) then Some(Apply(op, a, OperandValue(right))) else None
  {
    var t := RewrittenOperand(right) + gap3;
    var s := gap2 + t;
    if AllBlank(gap2, true) {
      BlankRunConcat(gap2, t, true);
      assert t[0] == RewrittenOperand(right)[0];
      assert BlankRun(t, true) == 0;
      assert s[|gap2|..] == t;
      assert gap3 == [] || (!IsDigit(gap3[0]) && gap3[0] != '.');
      ParseTermOf(right, gap3);
    } else {
      BlankRunStopsInGap(gap2, t, true);
    }
  }

  lemma EvaluateTailOf(a: real, gap1: string, op: Op, gap2: string, right: Operand, gap3: string)
    requires AllSpaces(gap1) && AllSpaces(gap2) && WellFormedOperand(right) && AllSpaces(gap3)
    ensures EvaluateTail(a, gap1 + ([OpChar(op)] + (gap2 + (RewrittenOperand(right) + gap3))))
         == if AllBlank(gap1, false) && AllBlank(gap2, true) && AllBlank(gap3, false)
            then Some(Apply(op, a, OperandValue(right))) else None
  {
    var t2 := [OpChar(op)] + (gap2 + (RewrittenOperand(right) + gap3));
    if AllBlank(gap1, false) {
      EvaluateTailAfterBlanks(a, gap1, op, gap2 + (RewrittenOperand(right) + gap3));
      EvaluateRightOf(op, a, gap2, right, gap3);
    } else {
      BlankRunStopsInGap(gap1, t2, false);
    }
  }

  lemma EvaluateTailAfterBlanks(a: real, gap1: string, op: Op, t3: string)
    requires AllBlank(gap1, false)
    ensures EvaluateTail(a, gap1 + ([OpChar(op)] + t3)) == EvaluateRight(op, a, t3)
  {
    var t2 := [OpChar(op)] + t3;
    var s := gap1 + t2;
    BlankRunConcat(gap1, t2, false);
    assert BlankRun(t2, false) == 0;
    assert s[|gap1|..] == t2 && t2[1..] == t3;
  }

  /** Evaluating the rewritten text of a match gives the expression's value
      when its white space is blanks and tabs, with line feeds also allowed
      right after the operator, and no number otherwise. */
  lemma EvaluateRewritten(e: Expr)
    requires WellFormedExpr(e)
    ensures MathEvaluate(RewrittenSource(e)) == if MathjsBlanks(e) then Some(Eval(e)) else None
  {
    var t1 := e.gap1 + ([OpChar(e.op)] + (e.gap2 + (RewrittenOperand(e.right) + e.gap3)));
    assert t1 == [] || (!IsDigit(t1[0]) && t1[0] != '.') by {
      if e.gap1 != [] { assert t1[0] == e.gap1[0]; }
    }
    ParseTermOf(e.left, t1);
    EvaluateTailOf(OperandValue(e.left), e.gap1, e.op, e.gap2, e.right, e.gap3);
  }

  // ---------------------------------------------------------------------
  // Formatting: two decimals at most, no trailing zeros

  /** The integer nearest to `100 * v`, ties away from zero. */
  function RoundHundredths(v: real): (h: int)
    ensures v >= 0.0 ==> 100.0 * v - 0.5 < h as real <= 100.0 * v + 0.5
    ensures v < 0.0 ==> 100.0 * v - 0.5 <= h as real < 100.0 * v + 0.5
  {
    if v >= 0.0 then (100.0 * v + 0.5).Floor else -((-100.0 * v + 0.5).Floor)
  }

  function Digit(d: nat): (c: char)
    requires d < 10
    ensures IsDigit(c) && DigitValue(c) == d
  {
    ('0' as int + d) as char
  }

  /** The decimal digits of `n`, without leading zeros. */
  function NatToString(n: nat): (s: string)
    ensures |s| > 0 && AllDigits(s) && DigitsValue(s) == n
    ensures s[0] == '0' ==> n == 0 && |s| == 1
    decreases n
  {
    if n < 10 then [Digit(n)]
    else
      var p := NatToString(n / 10);
      var s := p + [Digit(n % 10)];
      assert s[..|s| - 1] == p;
      s
  }

  /** The digits after the point for `r` hundredths: none, one or two, never
      ending in 0. */
  function FractionDigits(r: nat): (f: string)
    requires r < 100
    ensures AllDigits(f) && |f| <= 2
    ensures f == [] || f[|f| - 1] != '0'
    ensures DigitsValue(f) as real / Pow10(|f|) as real == r as real / 100.0
  {
    if r == 0 then []
    else if r % 10 == 0 then
      OneDecimal(r);
      [Digit(r / 10)]
    else
      TwoDecimals(r);
      [Digit(r / 10), Digit(r % 10)]
  }

  lemma OneDecimal(r: nat)
    requires 0 < r < 100 && r % 10 == 0
    ensures var f := [Digit(r / 10)];
      AllDigits(f) && f[0] != '0' && DigitsValue(f) as real / Pow10(|f|) as real == r as real / 100.0
  {
    var f := [Digit(r / 10)];
    assert f[..0] == [];
    assert DigitsValue(f) == r / 10;
    assert Pow10(1) == 10;
  }

  lemma TwoDecimals(r: nat)
    requires r < 100 && r % 10 != 0
    ensures var f := [Digit(r / 10), Digit(r % 10)];
      AllDigits(f) && f[1] != '0' && DigitsValue(f) as real / Pow10(|f|) as real == r as real / 100.0
  {
    var f := [Digit(r / 10), Digit(r % 10)];
    assert f[..1] == [Digit(r / 10)] && f[..1][..0] == [];
    assert DigitsValue(f[..1]) == r / 10;
    assert DigitsValue(f) == 10 * (r / 10) + r % 10 == r;
    assert Pow10(|f|) == 100;
  }

  function Abs(h: int): nat
  {
    if h < 0 then -h else h
  }

  /** The unsigned text of `h` hundredths. */
  function Magnitude(h: int): string
  {
    NumeralText(NatToString(Abs(h) / 100), FractionDigits(Abs(h) % 100))
  }

  /** The text of `h` hundredths; zero has no sign. */
  function FormatHundredths(h: int): (s: string)
    ensures |s| > 0 && (s[0] == '-' <==> h < 0)
  {
    assert NatToString(Abs(h) / 100)[0] != '-';
    (if h < 0 then "-" else "") + Magnitude(h)
  }

  /** `s` is the shortest decimal text of the non-negative `v`, which has
      at most two decimals. */
  predicate CanonicalDecimal(s: string, v: real)
  {
    var p := ParseNumeral(s);
    && p.Some? && p.value.2 == []
    && NumeralValue(p.value.0, p.value.1) == v
    && (p.value.0[0] == '0' ==> |p.value.0| == 1)
    && |p.value.1| <= 2
    && (p.value.1 == [] || p.value.1[|p.value.1| - 1] != '0')
  }

  /** The formatted text reads back as exactly `h / 100`, in its shortest
      form. */
  lemma FormatHundredthsReadsBack(h: int)
    ensures CanonicalDecimal(Magnitude(h), Abs(h) as real / 100.0)
  {
    var w := NatToString(Abs(h) / 100);
    var f := FractionDigits(Abs(h) % 100);
    ParseNumeralOf(w, f, []);
    assert NumeralText(w, f) + [] == NumeralText(w, f);
    assert (Abs(h) / 100) as real + (Abs(h) % 100) as real / 100.0 == Abs(h) as real / 100.0;
  }

  /** The text shown for an evaluation result: what converting the result
      to two decimals, reading that back as a number and printing it
      gives. */
  function FormatResult(n: Number): (s: string)
  {
    match n
    case Finite(v) => FormatHundredths(RoundHundredths(v))
    case Infinity(negative) => if negative then "-Infinity" else "Infinity"
    case NaN => "NaN"
  }

  /** A finite result is shown as a canonical decimal with at most two
      decimals, within half a hundredth of the result, with a minus sign
      exactly when it rounds to a negative number of hundredths. */
  lemma FormatFinite(v: real)
    ensures var h := RoundHundredths(v);
      && FormatResult(Finite(v)) == (if h < 0 then "-" else "") + Magnitude(h)
      && CanonicalDecimal(Magnitude(h), Abs(h) as real / 100.0)
      && (if h < 0 then -(Abs(h) as real) else Abs(h) as real) / 100.0 - v <= 0.005
      && v - (if h < 0 then -(Abs(h) as real) else Abs(h) as real) / 100.0 <= 0.005
  {
    FormatHundredthsReadsBack(RoundHundredths(v));
  }

  lemma MagnitudeOpensWithDigit(h: int)
    ensures |Magnitude(h)| > 0 && IsDigit(Magnitude(h)[0])
  {
    var w := NatToString(Abs(h) / 100);
    assert Magnitude(h)[0] == w[0];
  }

  /** No finite result is shown as `Infinity`, `-Infinity` or `NaN`: each
      of those texts names exactly one kind of result. */
  lemma ResultTextsAreDistinct(n: Number)
    ensures FormatResult(n) == "Infinity" <==> n == Infinity(false)
    ensures FormatResult(n) == "-Infinity" <==> n == Infinity(true)
    ensures FormatResult(n) == "NaN" <==> n.NaN?
  {
    if n.Finite? {
      var h := RoundHundredths(n.value);
      var m := Magnitude(h);
      MagnitudeOpensWithDigit(h);
      var t := FormatResult(n);
      if h < 0 {
        assert t == "-" + m && t[1] == m[0];
      } else {
        assert t == m;
      }
    }
  }

  /** A whole number is shown without a decimal point. */
  lemma FormatWholeNumber(n: nat)
    ensures FormatResult(Finite(n as real)) == NatToString(n)
  {
    assert RoundHundredths(n as real) == 100 * n;
    assert Abs(100 * n) / 100 == n && Abs(100 * n) % 100 == 0;
  }

  /** A negative whole number is shown as a minus sign and its digits. */
  lemma FormatNegativeWholeNumber(n: nat)
    requires n > 0
    ensures FormatHundredths(-100 * n) == "-" + NatToString(n)
  {
    NegativeHundredthsText(-100 * n);
    WholeMagnitude(n, -100 * n);
  }

  /** A negative whole number rounds to a whole number of hundredths. */
  lemma NegativeWholeHundredths(n: nat)
    requires n > 0
    ensures RoundHundredths(-(n as real)) == -100 * n
  {
    assert -100.0 * -(n as real) + 0.5 == (100 * n) as real + 0.5;
  }

  lemma NegativeHundredthsText(h: int)
    requires h < 0
    ensures FormatHundredths(h) == "-" + Magnitude(h)
  {
  }

  lemma WholeMagnitude(n: nat, h: int)
    requires h == -100 * n
    ensures Magnitude(h) == NatToString(n)
  {
    assert Abs(h) == 100 * n;
    assert Abs(h) / 100 == n && Abs(h) % 100 == 0;
  }
}
