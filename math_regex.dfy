/** The trailing-arithmetic pattern of the note editor,
      operand ws* op ws* operand ws* "=" <end of text>
    where an operand is `\d+(\.\d+)?%?` and op is one of `+ - * /`.
    The language is given declaratively (`Matches`), a deterministic
    parser (`ParseExpr`) is proved sound and complete for it, and
    `MatchStart` finds the least start index whose suffix matches, which is
    the index a non-global regular-expression match reports. */
module MathRegex {
  import opened Types

  /** `\d`: the ASCII digits. */
  predicate IsDigit(c: char)
  {
    '0' <= c <= '9'
  }

  /** `\s`: the white-space and line-terminator characters of ECMAScript. */
  predicate IsSpace(c: char)
  {
    c == '\t' || c == '\n' || c == '\U{000B}' || c == '\U{000C}' || c == '\r' || c == ' '
    || c == '\U{00A0}' || c == '\U{1680}' || ('\U{2000}' <= c <= '\U{200A}')
    || c == '\U{2028}' || c == '\U{2029}' || c == '\U{202F}' || c == '\U{205F}'
    || c == '\U{3000}' || c == '\U{FEFF}'
  }

  datatype Op = Add | Sub | Mul | Div

  function OpChar(op: Op): char
  {
    match op
    case Add => '+'
    case Sub => '-'
    case Mul => '*'
    case Div => '/'
  }

  /** The operator a character stands for, if any. */
  function OpOf(c: char): (r: Option<Op>)
    ensures r.Some? ==> OpChar(r.value) == c
    ensures forall op :: OpChar(op) == c ==> r == Some(op)
  {
    if c == '+' then Some(Add)
    else if c == '-' then Some(Sub)
    else if c == '*' then Some(Mul)
    else if c == '/' then Some(Div)
    else None
  }

  predicate AllDigits(s: string)
  {
    forall i :: 0 <= i < |s| ==> IsDigit(s[i])
  }

  predicate AllSpaces(s: string)
  {
    forall i :: 0 <= i < |s| ==> IsSpace(s[i])
  }

  /** The characters that can occur in a matched expression. */
  predicate InAlphabet(c: char)
  {
    IsDigit(c) || c == '.' || c == '%' || IsSpace(c) || OpOf(c).Some? || c == '='
  }

  predicate AllInAlphabet(s: string)
  {
    forall i :: 0 <= i < |s| ==> InAlphabet(s[i])
  }

  /** The text of the numeral `\d+(\.\d+)?` with these digits before and
      after the point; an empty fraction means there is no point. */
  function NumeralText(whole: string, fraction: string): string
  {
    whole + (if fraction == [] then [] else ['.'] + fraction)
  }

  predicate IsNumeral(whole: string, fraction: string)
  {
    |whole| > 0 && AllDigits(whole) && AllDigits(fraction)
  }

  /** An operand: a numeral, optionally followed by `%`. */
  datatype Operand = Operand(whole: string, fraction: string, percent: bool)

  predicate WellFormedOperand(o: Operand)
  {
    IsNumeral(o.whole, o.fraction)
  }

  function OperandText(o: Operand): string
  {
    NumeralText(o.whole, o.fraction) + (if o.percent then "%" else "")
  }

  /** A matched expression, with the white space around its operator and
      before its `=` kept as it was written. */
  datatype Expr = Expr(left: Operand, gap1: string, op: Op, gap2: string, right: Operand, gap3: string)

  predicate WellFormedExpr(e: Expr)
  {
    && WellFormedOperand(e.left) && WellFormedOperand(e.right)
    && AllSpaces(e.gap1) && AllSpaces(e.gap2) && AllSpaces(e.gap3)
  }

  /** The text of an expression before its `=`. */
  function ExprSource(e: Expr): string
  {
    OperandText(e.left) + (e.gap1 + ([OpChar(e.op)] + (e.gap2 + (OperandText(e.right) + e.gap3))))
  }

  /** The text after the operator: `ws* operand ws* =`. */
  function RightText(gap2: string, right: Operand, gap3: string): string
  {
    gap2 + (OperandText(right) + (gap3 + "="))
  }

  /** The whole text a match covers. */
  function Render(e: Expr): string
  {
    OperandText(e.left) + (e.gap1 + ([OpChar(e.op)] + RightText(e.gap2, e.right, e.gap3)))
  }

  lemma RenderIsSourceThenEquals(e: Expr)
    ensures Render(e) == ExprSource(e) + "="
  {
  }

  /** The language of the pattern, anchored at both ends. */
  ghost predicate Matches(t: string)
  {
    exists e :: WellFormedExpr(e) && Render(e) == t
  }

  // ---------------------------------------------------------------------
  // The parser

  /** The length of the longest prefix of digits. */
  function DigitRun(s: string): (n: nat)
    ensures n <= |s| && AllDigits(s[..n])
    ensures n < |s| ==> !IsDigit(s[n])
  {
    if s != [] && IsDigit(s[0]) then
      var m := DigitRun(s[1..]);
      assert s[..1 + m] == [s[0]] + s[1..][..m];
      1 + m
    else 0
  }

  /** The length of the longest prefix of `\s` characters. */
  function SpaceRun(s: string): (n: nat)
    ensures n <= |s| && AllSpaces(s[..n])
    ensures n < |s| ==> !IsSpace(s[n])
  {
    if s != [] && IsSpace(s[0]) then
      var m := SpaceRun(s[1..]);
      assert s[..1 + m] == [s[0]] + s[1..][..m];
      1 + m
    else 0
  }

  /** Reads the longest numeral `\d+(\.\d+)?` at the front of `s`, giving
      its digits and the text after it. */
  function ParseNumeral(s: string): (r: Option<(string, string, string)>)
    ensures r.Some? ==> IsNumeral(r.value.0, r.value.1)
    ensures r.Some? ==> s == NumeralText(r.value.0, r.value.1) + r.value.2
    ensures r.Some? ==> r.value.2 == [] || !IsDigit(r.value.2[0])
    ensures r.Some? && r.value.1 == [] ==> !(|r.value.2| >= 2 && r.value.2[0] == '.' && IsDigit(r.value.2[1]))
    ensures r.None? <==> s == [] || !IsDigit(s[0])
  {
    var d := DigitRun(s);
    if d == 0 then None
    else
      var after := s[d..];
      var f := if after != [] && after[0] == '.' then DigitRun(after[1..]) else 0;
      if f > 0 then
        assert s == s[..d] + (['.'] + after[1..][..f]) + after[1 + f..];
        Some((s[..d], after[1..][..f], after[1 + f..]))
      else
        assert s == s[..d] + after;
        Some((s[..d], [], after))
  }

  /** Reads an operand at the front of `s`, giving it and the text after it. */
  function ParseOperand(s: string): (r: Option<(Operand, string)>)
    ensures r.Some? ==> WellFormedOperand(r.value.0) && s == OperandText(r.value.0) + r.value.1
  {
    match ParseNumeral(s)
    case None => None
    case Some((whole, fraction, rest)) =>
      if rest != [] && rest[0] == '%' then
        assert s == NumeralText(whole, fraction) + "%" + rest[1..];
        Some((Operand(whole, fraction, true), rest[1..]))
      else
        Some((Operand(whole, fraction, false), rest))
  }

  /** Reads `ws* =` up to the end of `s`, giving the white space. */
  function ParseEnd(s: string): (r: Option<string>)
    ensures r.Some? ==> AllSpaces(r.value) && s == r.value + "="
  {
    var g := SpaceRun(s);
    if s[g..] == "=" then
      assert s == s[..g] + s[g..];
      Some(s[..g])
    else None
  }

  /** Reads `ws* operand ws* =` up to the end of `s`. */
  function ParseRight(s: string): (r: Option<(string, Operand, string)>)
    ensures r.Some? ==> AllSpaces(r.value.0) && WellFormedOperand(r.value.1) && AllSpaces(r.value.2)
    ensures r.Some? ==> s == RightText(r.value.0, r.value.1, r.value.2)
  {
    var g := SpaceRun(s);
    assert s == s[..g] + s[g..];
    match ParseOperand(s[g..])
    case None => None
    case Some((right, rest)) =>
      match ParseEnd(rest)
      case None => None
      case Some(gap3) => Some((s[..g], right, gap3))
  }

  /** Reads `ws* op ws* operand ws* =` up to the end of `s`. */
  function ParseTail(s: string): (r: Option<(string, Op, string, Operand, string)>)
    ensures r.Some? ==> AllSpaces(r.value.0) && AllSpaces(r.value.2)
    ensures r.Some? ==> WellFormedOperand(r.value.3) && AllSpaces(r.value.4)
    ensures r.Some? ==> s == r.value.0 + ([OpChar(r.value.1)] + RightText(r.value.2, r.value.3, r.value.4))
  {
    var g := SpaceRun(s);
    var rest := s[g..];
    assert s == s[..g] + rest;
    if rest == [] || OpOf(rest[0]).None? then None
    else
      assert rest == [rest[0]] + rest[1..];
      match ParseRight(rest[1..])
      case None => None
      case Some((gap2, right, gap3)) => Some((s[..g], OpOf(rest[0]).value, gap2, right, gap3))
  }

  /** Parses a whole text as `operand ws* op ws* operand ws* =`. */
  function ParseExpr(t: string): (r: Option<Expr>)
    ensures r.Some? ==> WellFormedExpr(r.value) && Render(r.value) == t
  {
    match ParseOperand(t)
    case None => None
    case Some((left, s1)) =>
      match ParseTail(s1)
      case None => None
      case Some((gap1, op, gap2, right, gap3)) => Some(Expr(left, gap1, op, gap2, right, gap3))
  }

  // ---------------------------------------------------------------------
  // Completeness of the parser

  lemma {:induction false} DigitRunOf(w: string, rest: string)
    requires AllDigits(w)
    requires rest == [] || !IsDigit(rest[0])
    ensures DigitRun(w + rest) == |w|
  {
    if w == [] {
      assert w + rest == rest;
    } else {
      assert (w + rest)[1..] == w[1..] + rest;
      DigitRunOf(w[1..], rest);
    }
  }

  lemma {:induction false} SpaceRunOf(w: string, rest: string)
    requires AllSpaces(w)
    requires rest == [] || !IsSpace(rest[0])
    ensures SpaceRun(w + rest) == |w|
  {
    if w == [] {
      assert w + rest == rest;
    } else {
      assert (w + rest)[1..] == w[1..] + rest;
      SpaceRunOf(w[1..], rest);
    }
  }

  /** A numeral followed by anything but a digit or a point is read back
      exactly. */
  lemma ParseNumeralOf(whole: string, fraction: string, rest: string)
    requires IsNumeral(whole, fraction)
    requires rest == [] || (!IsDigit(rest[0]) && rest[0] != '.')
    ensures ParseNumeral(NumeralText(whole, fraction) + rest) == Some((whole, fraction, rest))
  {
    if fraction == [] {
      ParseIntegerOf(whole, rest);
    } else {
      ParseDecimalOf(whole, fraction, rest);
    }
  }

  lemma ParseIntegerOf(whole: string, rest: string)
    requires IsNumeral(whole, [])
    requires rest == [] || (!IsDigit(rest[0]) && rest[0] != '.')
    ensures ParseNumeral(whole + rest) == Some((whole, [], rest))
  {
    var s := whole + rest;
    DigitRunOf(whole, rest);
    assert s[..|whole|] == whole && s[|whole|..] == rest;
  }

  lemma ParseDecimalOf(whole: string, fraction: string, rest: string)
    requires IsNumeral(whole, fraction) && fraction != []
    requires rest == [] || (!IsDigit(rest[0]) && rest[0] != '.')
    ensures ParseNumeral(NumeralText(whole, fraction) + rest) == Some((whole, fraction, rest))
  {
    var s := NumeralText(whole, fraction) + rest;
    var tail := ['.'] + (fraction + rest);
    assert s == whole + tail;
    var d := |whole|;
    assert DigitRun(s) == d by { DigitRunOf(whole, tail); }
    assert s[..d] == whole;
    assert s[d..] == tail;
    assert tail[1..] == fraction + rest;
    assert DigitRun(tail[1..]) == |fraction| by { DigitRunOf(fraction, rest); }
    ParseNumeralDecimal(s, d, |fraction|);
    assert tail[1..][..|fraction|] == fraction;
    assert tail[1..][|fraction|..] == rest;
  }

  /** How the reader splits a numeral with a decimal part. */
  lemma ParseNumeralDecimal(s: string, d: nat, f: nat)
    requires 0 < d < |s| && DigitRun(s) == d && s[d] == '.'
    requires DigitRun(s[d..][1..]) == f > 0
    ensures ParseNumeral(s) == Some((s[..d], s[d..][1..][..f], s[d..][1..][f..]))
  {
    assert s[d..][0] == '.';
    assert s[d..][1 + f..] == s[d..][1..][f..];
  }

  /** The characters that may follow an operand without joining it. */
  predicate EndsOperand(rest: string)
  {
    rest == [] || (!IsDigit(rest[0]) && rest[0] != '.' && rest[0] != '%')
  }

  lemma ParseOperandOf(o: Operand, rest: string)
    requires WellFormedOperand(o) && EndsOperand(rest)
    ensures ParseOperand(OperandText(o) + rest) == Some((o, rest))
  {
    if o.percent {
      assert OperandText(o) + rest == NumeralText(o.whole, o.fraction) + ("%" + rest);
      ParseNumeralOf(o.whole, o.fraction, "%" + rest);
      assert ("%" + rest)[1..] == rest;
    } else {
      assert OperandText(o) + rest == NumeralText(o.whole, o.fraction) + rest;
      ParseNumeralOf(o.whole, o.fraction, rest);
    }
  }

  lemma OperandTextStartsWithDigit(o: Operand)
    requires WellFormedOperand(o)
    ensures |OperandText(o)| > 0 && IsDigit(OperandText(o)[0])
  {
    assert OperandText(o)[0] == o.whole[0];
  }

  lemma ParseEndOf(gap: string)
    requires AllSpaces(gap)
    ensures ParseEnd(gap + "=") == Some(gap)
  {
    SpaceRunOf(gap, "=");
    assert (gap + "=")[|gap|..] == "=" && (gap + "=")[..|gap|] == gap;
  }

  lemma ParseRightOf(gap2: string, right: Operand, gap3: string)
    requires AllSpaces(gap2) && WellFormedOperand(right) && AllSpaces(gap3)
    ensures ParseRight(RightText(gap2, right, gap3)) == Some((gap2, right, gap3))
  {
    var s := RightText(gap2, right, gap3);
    var rest := OperandText(right) + (gap3 + "=");
    OperandTextStartsWithDigit(right);
    assert rest[0] == OperandText(right)[0];
    SpaceRunOf(gap2, rest);
    assert s[|gap2|..] == rest && s[..|gap2|] == gap2;
    assert EndsOperand(gap3 + "=") by { if gap3 != [] { assert (gap3 + "=")[0] == gap3[0]; } }
    ParseOperandOf(right, gap3 + "=");
    ParseEndOf(gap3);
  }

  lemma ParseTailOf(gap1: string, op: Op, gap2: string, right: Operand, gap3: string, s: string)
    requires AllSpaces(gap1) && AllSpaces(gap2) && WellFormedOperand(right) && AllSpaces(gap3)
    requires s == gap1 + ([OpChar(op)] + RightText(gap2, right, gap3))
    ensures ParseTail(s) == Some((gap1, op, gap2, right, gap3))
  {
    var t := RightText(gap2, right, gap3);
    ParseRightOf(gap2, right, gap3);
    TailShape(gap1, op, t, s);
    ParseTailAfterSpaces(s, |gap1|, t);
  }

  lemma TailShape(gap1: string, op: Op, t: string, s: string)
    requires AllSpaces(gap1) && s == gap1 + ([OpChar(op)] + t)
    ensures |gap1| < |s| && SpaceRun(s) == |gap1| && s[..|gap1|] == gap1
    ensures s[|gap1|] == OpChar(op) && OpOf(s[|gap1|]) == Some(op) && s[|gap1| + 1..] == t
  {
    SpaceRunOf(gap1, [OpChar(op)] + t);
    assert s[..|gap1|] == gap1;
    assert s[|gap1|] == OpChar(op);
    assert s[|gap1| + 1..] == t;
  }

  /** After the white space, an operator, then the right-hand side. */
  lemma ParseTailAfterSpaces(s: string, g: nat, t: string)
    requires g < |s| && SpaceRun(s) == g && OpOf(s[g]).Some? && s[g + 1..] == t
    ensures ParseTail(s) == match ParseRight(t)
      case None => None
      case Some((gap2, right, gap3)) => Some((s[..g], OpOf(s[g]).value, gap2, right, gap3))
  {
    assert s[g..][0] == s[g] && s[g..][1..] == t;
  }

  /** Every well-formed expression is parsed back from its text: the parse
      of a matching text is unique. */
  lemma ParseExprComplete(e: Expr)
    requires WellFormedExpr(e)
    ensures ParseExpr(Render(e)) == Some(e)
  {
    var s1 := e.gap1 + ([OpChar(e.op)] + RightText(e.gap2, e.right, e.gap3));
    assert EndsOperand(s1) by { if e.gap1 != [] { assert s1[0] == e.gap1[0]; } }
    ParseOperandOf(e.left, s1);
    ParseTailOf(e.gap1, e.op, e.gap2, e.right, e.gap3, s1);
  }

  /** The parser decides the language. */
  lemma MatchesIffParses(t: string)
    ensures Matches(t) <==> ParseExpr(t).Some?
  {
    if ParseExpr(t).Some? {
      var e := ParseExpr(t).value;
      assert WellFormedExpr(e) && Render(e) == t;
    }
    if Matches(t) {
      var e :| WellFormedExpr(e) && Render(e) == t;
      ParseExprComplete(e);
    }
  }

  /** For a fixed start the parse is unambiguous. */
  lemma RenderInjective(e1: Expr, e2: Expr)
    requires WellFormedExpr(e1) && WellFormedExpr(e2)
    requires Render(e1) == Render(e2)
    ensures e1 == e2
  {
    ParseExprComplete(e1);
    ParseExprComplete(e2);
  }

  // ---------------------------------------------------------------------
  // The least matching start

  predicate MatchesAt(s: string, i: nat)
  {
    i <= |s| && ParseExpr(s[i..]).Some?
  }

  /** The least index at or after `i` whose suffix matches. */
  function FirstMatchFrom(s: string, i: nat): (r: Option<nat>)
    requires i <= |s|
    decreases |s| - i
    ensures r.Some? ==> i <= r.value < |s| && MatchesAt(s, r.value)
    ensures forall j :: i <= j <= |s| && MatchesAt(s, j) ==> r.Some? && r.value <= j
  {
    if i == |s| then
      assert s[i..] == [];
      None
    else if MatchesAt(s, i) then Some(i)
    else FirstMatchFrom(s, i + 1)
  }

  /** Where a non-global match of the pattern starts, if it matches at all. */
  function MatchStart(s: string): (r: Option<nat>)
    ensures r.Some? ==> r.value < |s| && MatchesAt(s, r.value)
    ensures forall j :: 0 <= j <= |s| && MatchesAt(s, j) ==> r.Some? && r.value <= j
  {
    FirstMatchFrom(s, 0)
  }

  /** `k` is the least start whose suffix belongs to the language. */
  ghost predicate LeastMatchingStart(s: string, k: nat)
  {
    k <= |s| && Matches(s[k..]) && forall j :: 0 <= j < k ==> !Matches(s[j..])
  }

  lemma MatchStartIsLeastStart(s: string, k: nat)
    ensures MatchStart(s) == Some(k) ==> LeastMatchingStart(s, k)
  {
    if MatchStart(s) == Some(k) {
      MatchesIffParses(s[k..]);
      forall j | 0 <= j < k ensures !Matches(s[j..]) {
        MatchesIffParses(s[j..]);
        assert !MatchesAt(s, j);
      }
    }
  }

  lemma LeastStartIsMatchStart(s: string, k: nat)
    ensures LeastMatchingStart(s, k) ==> MatchStart(s) == Some(k)
  {
    if LeastMatchingStart(s, k) {
      assert MatchesAt(s, k) by { MatchesIffParses(s[k..]); }
      forall j | 0 <= j < k ensures !MatchesAt(s, j) {
        MatchesIffParses(s[j..]);
      }
      FirstMatchIsMatchStart(s, k);
    }
  }

  lemma FirstMatchIsMatchStart(s: string, k: nat)
    requires MatchesAt(s, k) && forall j :: 0 <= j < k ==> !MatchesAt(s, j)
    ensures MatchStart(s) == Some(k)
  {
  }

  /** The reported start is exactly the least start whose suffix belongs to
      the language. */
  lemma MatchStartIsLeast(s: string, k: nat)
    ensures MatchStart(s) == Some(k) <==> LeastMatchingStart(s, k)
  {
    MatchStartIsLeastStart(s, k);
    LeastStartIsMatchStart(s, k);
  }

  /** A text that matches as a whole matches from index 0. */
  lemma MatchStartOfMatch(t: string)
    requires ParseExpr(t).Some?
    ensures MatchStart(t) == Some(0)
  {
    assert t[0..] == t;
    assert MatchesAt(t, 0);
  }

  /** A match ends with its `=`. */
  lemma MatchEndsWithEquals(t: string)
    ensures ParseExpr(t).Some? ==> |t| >= 4 && t[|t| - 1] == '='
  {
    if ParseExpr(t).Some? {
      var e := ParseExpr(t).value;
      OperandTextStartsWithDigit(e.left);
      OperandTextStartsWithDigit(e.right);
    }
  }

  /** A text whose last character is not `=` (trailing white space, say)
      has no match. */
  lemma NoMatchWithoutFinalEquals(s: string)
    requires s == [] || s[|s| - 1] != '='
    ensures MatchStart(s) == None
  {
    forall k | 0 <= k <= |s| ensures !MatchesAt(s, k) {
      MatchEndsWithEquals(s[k..]);
      assert |s[k..]| > 0 ==> s[k..][|s[k..]| - 1] == s[|s| - 1];
    }
  }

  /** Every match contains its operator character. */
  lemma OperatorInMatch(t: string)
    ensures ParseExpr(t).Some? ==>
      var e := ParseExpr(t).value;
      var i := |OperandText(e.left)| + |e.gap1|;
      i < |t| && OpOf(t[i]) == Some(e.op)
  {
    if ParseExpr(t).Some? {
      var (left, s1) := ParseOperand(t).value;
      var (g1, op, g2, right, g3) := ParseTail(s1).value;
      var s2 := [OpChar(op)] + RightText(g2, right, g3);
      assert s1[|g1|] == s2[0];
      assert t[|OperandText(left)| + |g1|] == s1[|g1|];
    }
  }

  /** Without one of `+ - * /` there is no match. */
  lemma NoOperatorNoMatch(s: string)
    requires forall i :: 0 <= i < |s| ==> OpOf(s[i]).None?
    ensures MatchStart(s) == None
  {
    forall k | 0 <= k <= |s| ensures !MatchesAt(s, k) {
      OperatorInMatch(s[k..]);
    }
  }

  /** A decimal point must be followed by a digit: a text that opens with
      digits and a bare point is no match. */
  lemma PointNeedsFraction(w: string, rest: string, t: string)
    requires |w| > 0 && AllDigits(w) && (rest == [] || !IsDigit(rest[0]))
    requires t == w + ("." + rest)
    ensures ParseExpr(t) == None
  {
    BareNumeral(w, rest, t);
    assert ParseOperand(t) == Some((Operand(w, [], false), "." + rest));
    NoOperatorAt("." + rest, 0);
  }

  lemma BareNumeral(w: string, rest: string, t: string)
    requires |w| > 0 && AllDigits(w) && (rest == [] || !IsDigit(rest[0]))
    requires t == w + ("." + rest)
    ensures ParseNumeral(t) == Some((w, [], "." + rest))
  {
    DigitRunOf(w, "." + rest);
    assert t[|w|..] == "." + rest;
    assert t[..|w|] == w;
  }

  /** No white space may stand between a numeral and its `%`: a text that
      opens with a numeral, white space and `%` is no match. */
  lemma NoSpaceBeforePercent(w: string, f: string, g: string, rest: string, t: string)
    requires IsNumeral(w, f) && |g| > 0 && AllSpaces(g)
    requires t == NumeralText(w, f) + (g + ("%" + rest))
    ensures ParseExpr(t) == None
  {
    var o := Operand(w, f, false);
    var after := g + ("%" + rest);
    assert OperandText(o) + after == t;
    ParseOperandOf(o, after);
    SpacesThenPercent(g, rest, after);
  }

  lemma SpacesThenPercent(g: string, rest: string, s: string)
    requires |g| > 0 && AllSpaces(g) && s == g + ("%" + rest)
    ensures ParseTail(s) == None
  {
    SpaceRunOf(g, "%" + rest);
    assert s[|g|..] == "%" + rest;
    NoOperatorAt(s, |g|);
  }

  /** Where the white space after the left operand ends on something other
      than an operator, the rest of the text cannot be parsed. */
  lemma NoOperatorAt(s: string, g: nat)
    requires SpaceRun(s) == g && g < |s| && OpOf(s[g]).None?
    ensures ParseTail(s) == None
  {
  }

  lemma AllInAlphabetConcat(a: string, b: string)
    requires AllInAlphabet(a) && AllInAlphabet(b)
    ensures AllInAlphabet(a + b)
  {
    forall i | 0 <= i < |a + b| ensures InAlphabet((a + b)[i]) {
      if i >= |a| { assert (a + b)[i] == b[i - |a|]; }
    }
  }

  lemma OperandInAlphabet(o: Operand)
    requires WellFormedOperand(o)
    ensures AllInAlphabet(OperandText(o))
  {
    var n := NumeralText(o.whole, o.fraction);
    if o.fraction != [] {
      AllInAlphabetConcat(['.'], o.fraction);
    }
    AllInAlphabetConcat(o.whole, if o.fraction == [] then [] else ['.'] + o.fraction);
    AllInAlphabetConcat(n, if o.percent then "%" else "");
  }

  /** A match consists of digits, points, `%`, white space, operators and
      `=` only. */
  lemma MatchAlphabet(t: string)
    ensures ParseExpr(t).Some? ==> AllInAlphabet(t)
  {
    if ParseExpr(t).Some? {
      ExprAlphabet(ParseExpr(t).value);
    }
  }

  lemma ExprAlphabet(e: Expr)
    requires WellFormedExpr(e)
    ensures AllInAlphabet(Render(e))
  {
    var r := RightText(e.gap2, e.right, e.gap3);
    RightAlphabet(e.gap2, e.right, e.gap3);
    OperandInAlphabet(e.left);
    AllInAlphabetConcat([OpChar(e.op)], r);
    AllInAlphabetConcat(e.gap1, [OpChar(e.op)] + r);
    AllInAlphabetConcat(OperandText(e.left), e.gap1 + ([OpChar(e.op)] + r));
  }

  lemma RightAlphabet(gap2: string, right: Operand, gap3: string)
    requires AllSpaces(gap2) && WellFormedOperand(right) && AllSpaces(gap3)
    ensures AllInAlphabet(RightText(gap2, right, gap3))
  {
    OperandInAlphabet(right);
    AllInAlphabetConcat(gap3, "=");
    AllInAlphabetConcat(OperandText(right), gap3 + "=");
    AllInAlphabetConcat(gap2, OperandText(right) + (gap3 + "="));
  }

  /** After a character that cannot occur in a match, the leftmost match
      starts right where a matching suffix begins. */
  lemma LeastStartAfterForeignChar(prefix: string, t: string)
    requires prefix == [] || !InAlphabet(prefix[|prefix| - 1])
    requires ParseExpr(t).Some?
    ensures MatchStart(prefix + t) == Some(|prefix|)
  {
    var s := prefix + t;
    assert s[|prefix|..] == t;
    assert prefix != [] ==> s[|prefix| - 1] == prefix[|prefix| - 1];
    NoMatchBefore(s, |prefix|);
    FirstMatchIsMatchStart(s, |prefix|);
  }

  lemma NoMatchBefore(s: string, p: nat)
    requires p <= |s| && (p == 0 || !InAlphabet(s[p - 1]))
    ensures forall j :: 0 <= j < p ==> !MatchesAt(s, j)
  {
    forall j | 0 <= j < p ensures !MatchesAt(s, j) {
      NoMatchAcrossForeignChar(s, p, j);
    }
  }

  /** No match starting at `j` can reach past a foreign character at `p - 1`. */
  lemma NoMatchAcrossForeignChar(s: string, p: nat, j: nat)
    requires j < p <= |s| && !InAlphabet(s[p - 1])
    ensures !MatchesAt(s, j)
  {
    assert s[j..][p - 1 - j] == s[p - 1];
    MatchAlphabet(s[j..]);
  }
}
