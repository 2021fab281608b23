/** The note editor's editing surface: the math decorations computed for
    every text leaf, and the keyboard shortcuts for headings and bold. */
module Notepad {
  import opened Types
  import opened MathRegex
  import opened Arith
  import opened Slate
  import opened Toolbar

  // ---------------------------------------------------------------------
  // Math decorations

  /** The nodes the decorator is called on. */
  datatype Node = TextNode(leaf: CustomText) | ElementNode(element: CustomElement) | EditorNode(children: seq<CustomElement>)

  /** What evaluating a match gives: its text without the final `=`, with
      the percent rewrite applied, handed to the evaluator. */
  function EvaluateMatch(matched: string): Option<Number>
    requires |matched| > 0
  {
    var expression := matched[..|matched| - 1];
    MathEvaluate(RewritePercent(expression))
  }

  /** Evaluating a match gives the value of the expression it spells when
      its white space is blanks and tabs, with line feeds also allowed right
      after the operator, and no number otherwise. */
  lemma EvaluateMatchOf(e: Expr)
    requires WellFormedExpr(e)
    ensures |Render(e)| > 0
    ensures EvaluateMatch(Render(e)) == if MathjsBlanks(e) then Some(Eval(e)) else None
  {
    var matched := Render(e);
    RenderIsSourceThenEquals(e);
    assert matched[..|matched| - 1] == ExprSource(e);
    RewriteExpr(e);
    EvaluateRewritten(e);
  }

  /** The decoration for a text whose match starts at `index`. */
  function DecorateMatch(text: string, index: nat, path: seq<nat>): (ranges: seq<MathDecoration>)
    requires index < |text|
    ensures |ranges| <= 1
    ensures |ranges| == 1 ==> ranges[0].anchor == DecorationPoint(path, |text| - 1)
    ensures |ranges| == 1 ==> ranges[0].focus == DecorationPoint(path, |text|)
  {
    var matched := text[index..];
    var end := index + |matched|;
    var result := EvaluateMatch(matched);
    if result.None? || result.value.NaN? then []
    else [MathDecoration(DecorationPoint(path, end - 1), DecorationPoint(path, end), FormatResult(result.value))]
  }

  /** The decorations for one node: a text leaf ending in a matching
      expression whose value is a number other than NaN gets one decoration
      over its final `=`, carrying the formatted value. */
  function Decorate(node: Node, path: seq<nat>): (ranges: seq<MathDecoration>)
    ensures |ranges| <= 1
    ensures !node.TextNode? ==> ranges == []
    ensures |ranges| == 1 ==> |node.leaf.text| > 0 && node.leaf.text[|node.leaf.text| - 1] == '='
    ensures |ranges| == 1 ==> ranges[0].anchor == DecorationPoint(path, |node.leaf.text| - 1)
    ensures |ranges| == 1 ==> ranges[0].focus == DecorationPoint(path, |node.leaf.text|)
  {
    if !node.TextNode? then []
    else
      match MatchStart(node.leaf.text)
      case None => []
      case Some(index) =>
        MatchEndsWithEquals(node.leaf.text[index..]);
        assert node.leaf.text[index..][|node.leaf.text[index..]| - 1] == node.leaf.text[|node.leaf.text| - 1];
        DecorateMatch(node.leaf.text, index, path)
  }

  /** The decoration a text should get when the expression `e` ends it,
      stated on the expression rather than on the rewritten text. */
  function ReferenceMatch(text: string, e: Expr, path: seq<nat>): seq<MathDecoration>
    requires |text| > 0 && WellFormedExpr(e)
  {
    if !MathjsBlanks(e) || Eval(e).NaN? then []
    else [MathDecoration(DecorationPoint(path, |text| - 1), DecorationPoint(path, |text|), FormatResult(Eval(e)))]
  }

  function ReferenceDecorations(text: string, path: seq<nat>): seq<MathDecoration>
  {
    match MatchStart(text)
    case None => []
    case Some(index) => ReferenceMatch(text, ParseExpr(text[index..]).value, path)
  }

  lemma DecorateMatchAgrees(text: string, index: nat, path: seq<nat>)
    requires MatchesAt(text, index)
    ensures DecorateMatch(text, index, path) == ReferenceMatch(text, ParseExpr(text[index..]).value, path)
  {
    var matched := text[index..];
    var e := ParseExpr(matched).value;
    EvaluateMatchOf(e);
    assert index + |matched| == |text|;
  }

  /** The decorator computes the reference decorations: the percent rewrite
      and the evaluation of the rewritten text give the value of the
      matched expression. */
  lemma DecorateMatchesReference(leaf: CustomText, path: seq<nat>)
    ensures Decorate(TextNode(leaf), path) == ReferenceDecorations(leaf.text, path)
  {
    match MatchStart(leaf.text)
    case None =>
    case Some(index) => DecorateMatchAgrees(leaf.text, index, path);
  }

  /** A leaf is decorated exactly when its text ends with a matching
      expression written with blanks and tabs only and not of the form
      0/0; the result is then the formatted value of that expression. */
  lemma DecorationCondition(leaf: CustomText, path: seq<nat>)
    ensures var d := Decorate(TextNode(leaf), path);
      && (|d| == 1 <==>
            MatchStart(leaf.text).Some? &&
            var e := ParseExpr(leaf.text[MatchStart(leaf.text).value..]).value;
            MathjsBlanks(e) && !(e.op == Div && OperandValue(e.left) == 0.0 && OperandValue(e.right) == 0.0))
      && (|d| == 1 ==>
            d[0].mathResult == FormatResult(Eval(ParseExpr(leaf.text[MatchStart(leaf.text).value..]).value)))
  {
    DecorateMatchesReference(leaf, path);
  }

  function Leaf(text: string): CustomText
  {
    CustomText(text, None, None, None)
  }

  function Literal(whole: string): Operand
  {
    Operand(whole, [], false)
  }

  /** A text that is one whole match matches from index 0. */
  lemma WholeTextMatches(text: string, e: Expr)
    requires WellFormedExpr(e) && Render(e) == text
    ensures MatchStart(text) == Some(0) && ParseExpr(text[0..]) == Some(e)
  {
    ParseExprComplete(e);
    MatchStartOfMatch(text);
    assert text[0..] == text;
  }

  /** The decoration a text that is one whole match gets. */
  lemma DecorateWholeText(text: string, e: Expr)
    requires WellFormedExpr(e) && Render(e) == text
    ensures Decorate(TextNode(Leaf(text)), []) == ReferenceMatch(text, e, [])
  {
    WholeTextMatches(text, e);
    DecorateMatchesReference(Leaf(text), []);
  }

  /** The decoration a text gets when its leftmost match starts at `k` and
      spells the expression `e`. */
  lemma DecorateSuffix(text: string, k: nat, e: Expr)
    requires WellFormedExpr(e) && k < |text| && text[k..] == Render(e)
    requires forall j :: 0 <= j < k ==> !MatchesAt(text, j)
    ensures Decorate(TextNode(Leaf(text)), []) == ReferenceMatch(text, e, [])
  {
    ParseExprComplete(e);
    FirstMatchIsMatchStart(text, k);
    DecorateMatchesReference(Leaf(text), []);
  }

  /** A text none of whose suffixes matches gets no decoration. */
  lemma DecorateNoMatch(text: string)
    requires forall j :: 0 <= j <= |text| ==> !MatchesAt(text, j)
    ensures Decorate(TextNode(Leaf(text)), []) == []
  {
  }

  // ---------------------------------------------------------------------
  // Keyboard shortcuts

  /** The text of the caret's block from its start up to the point. */
  function BeforeText(blocks: seq<Block>, p: Position): (t: string)
    requires PositionIn(blocks, p)
    ensures |t| == p.offset
  {
    blocks[p.block].text[..p.offset]
  }

  /** The caret splits its block's text into the text before it and the
      rest. */
  lemma BeforeTextSplits(blocks: seq<Block>, p: Position)
    requires PositionIn(blocks, p)
    ensures BeforeText(blocks, p) + blocks[p.block].text[p.offset..] == blocks[p.block].text
  {
  }

  /** The caret of a collapsed selection. */
  predicate CaretAt(st: EditorState, p: Position)
  {
    st.selection == Some(Range(p, p))
  }

  /** Which shortcut a key press triggers, tried in the handler's order. */
  datatype Rule = HeadingOneShortcut | HeadingTwoShortcut | HeadingReset | BoldShortcut | NoRule

  function RuleFor(st: EditorState, key: string, ctrl: bool, meta: bool): Rule
    requires StateValid(st)
  {
    var caret := st.selection.Some? && Collapsed(st.selection.value);
    if key == " " && caret && BeforeText(st.blocks, st.selection.value.anchor) == "#" then HeadingOneShortcut
    else if key == " " && caret && BeforeText(st.blocks, st.selection.value.anchor) == "##" then HeadingTwoShortcut
    else if key == "Backspace" && caret
         && IsHeading(st.blocks[st.selection.value.anchor.block].kind)
         && st.selection.value.anchor == Position(st.selection.value.anchor.block, 0)
    then HeadingReset
    else if (ctrl || meta) && key == "b" then BoldShortcut
    else NoRule
  }

  /** The state after deleting the `n` characters before the caret and
      setting the kind of the caret's block. */
  function Promoted(st: EditorState, n: nat, kind: BlockKind): EditorState
    requires StateValid(st) && st.selection.Some? && Collapsed(st.selection.value)
    requires n <= st.selection.value.anchor.offset
  {
    var p := st.selection.value.anchor;
    var q := Position(p.block, p.offset - n);
    var b := st.blocks[p.block];
    var deleted := st.blocks[p.block := Block(b.kind, DeleteBefore(b.text, p.offset, n))];
    EditorState(SetKinds(deleted, q.block, q.block, kind), Some(Range(q, q)), st.marks)
  }

  /** The marks after the keyboard's bold toggle, which tests the reported
      value for truthiness. */
  function BoldKeyed(marks: Option<Marks>): Option<Marks>
  {
    if Truthy(marks, BoldKey) then MarkRemoved(marks, BoldKey)
    else MarkAdded(marks, BoldKey, Flag(true))
  }

  /** The new editor state and whether the browser's default action is
      suppressed. */
  function KeyDownResult(st: EditorState, key: string, ctrl: bool, meta: bool): (r: (EditorState, bool))
    requires StateValid(st)
    ensures StateValid(r.0)
  {
    match RuleFor(st, key, ctrl, meta)
    case HeadingOneShortcut => (Promoted(st, 1, HeadingOne), true)
    case HeadingTwoShortcut => (Promoted(st, 2, HeadingTwo), true)
    case HeadingReset =>
      var b := st.selection.value.anchor.block;
      (st.(blocks := st.blocks[b := Block(Paragraph, st.blocks[b].text)]), true)
    case BoldShortcut => (st.(marks := BoldKeyed(st.marks)), true)
    case NoRule => (st, false)
  }

  /** The key-down handler: `# ` and `## ` at the start of a block turn it
      into a heading, Backspace at the start of a heading turns it back into
      a paragraph, and Ctrl or Cmd with `b` toggles bold. */
  method KeyDown(e: Editor, key: string, ctrl: bool, meta: bool) returns (suppressed: bool)
    requires e.Valid()
    modifies e
    ensures e.Valid()
    ensures (e.State(), suppressed) == KeyDownResult(old(e.State()), key, ctrl, meta)
  {
    var selection := e.selection;
    if key == " " && selection.Some? && Collapsed(selection.value) {
      var anchor := selection.value.anchor;
      var beforeText := e.blocks[anchor.block].text[..anchor.offset];
      if beforeText == "#" {
        e.DeleteBackward(1);
        e.SetNodes(HeadingOne);
        return true;
      }
      if beforeText == "##" {
        e.DeleteBackward(2);
        e.SetNodes(HeadingTwo);
        return true;
      }
    }
    if key == "Backspace" && selection.Some? && Collapsed(selection.value) {
      var anchor := selection.value.anchor;
      var path := anchor.block;
      var isHeading := IsHeading(e.blocks[path].kind);
      if isHeading {
        var start := Position(path, 0);
        if anchor == start {
          e.SetNodesAt(path, Paragraph);
          return true;
        }
      }
    }
    if ctrl || meta {
      if key == "b" {
        var marks := e.marks;
        if Truthy(marks, BoldKey) {
          e.RemoveMark(BoldKey);
        } else {
          e.AddMark(BoldKey, Flag(true));
        }
        return true;
      }
    }
    return false;
  }

  // ---------------------------------------------------------------------
  // Properties of the shortcuts

  /** Space after exactly `#` or `##` at the start of a block removes the
      hashes and makes the block a heading of that level, leaving the caret
      at the block's start; nothing else changes. */
  lemma MarkdownShortcutPromotes(st: EditorState, p: Position, ctrl: bool, meta: bool)
    requires StateValid(st) && CaretAt(st, p)
    requires BeforeText(st.blocks, p) == "#" || BeforeText(st.blocks, p) == "##"
    ensures var n := p.offset;
      var kind := if n == 1 then HeadingOne else HeadingTwo;
      var (r, suppressed) := KeyDownResult(st, " ", ctrl, meta);
      && suppressed
      && |r.blocks| == |st.blocks|
      && r.blocks[p.block] == Block(kind, st.blocks[p.block].text[n..])
      && (forall i :: 0 <= i < |st.blocks| && i != p.block ==> r.blocks[i] == st.blocks[i])
      && CaretAt(r, Position(p.block, 0))
      && r.marks == st.marks
  {
    var n := p.offset;
    var text := st.blocks[p.block].text;
    assert DeleteBefore(text, n, n) == text[n..];
  }

  /** Space anywhere else types a space: the handler does nothing. */
  lemma SpaceElsewhereIsTyped(st: EditorState, ctrl: bool, meta: bool)
    requires StateValid(st)
    requires st.selection.Some? && Collapsed(st.selection.value) ==>
      BeforeText(st.blocks, st.selection.value.anchor) != "#" &&
      BeforeText(st.blocks, st.selection.value.anchor) != "##"
    ensures KeyDownResult(st, " ", ctrl, meta) == (st, false)
  {
  }

  /** Backspace with the caret at the start of a heading makes it a
      paragraph again and keeps its text. */
  lemma BackspaceResetsHeading(st: EditorState, b: nat, ctrl: bool, meta: bool)
    requires StateValid(st) && CaretAt(st, Position(b, 0))
    requires b < |st.blocks| && st.blocks[b].kind != Paragraph
    ensures var (r, suppressed) := KeyDownResult(st, "Backspace", ctrl, meta);
      && suppressed
      && r.blocks == st.blocks[b := Block(Paragraph, st.blocks[b].text)]
      && r.selection == st.selection && r.marks == st.marks
  {
    HeadingKinds(st.blocks[b].kind);
  }

  /** Backspace anywhere else, or in a paragraph, is left to the editor. */
  lemma BackspaceElsewhereIsDefault(st: EditorState, ctrl: bool, meta: bool)
    requires StateValid(st)
    requires st.selection.Some? && Collapsed(st.selection.value) ==>
      st.selection.value.anchor.offset != 0 || st.blocks[st.selection.value.anchor.block].kind == Paragraph
    ensures KeyDownResult(st, "Backspace", ctrl, meta) == (st, false)
  {
    if st.selection.Some? && Collapsed(st.selection.value) {
      HeadingKinds(st.blocks[st.selection.value.anchor.block].kind);
    }
  }

  /** The shortcut `#`, space, then Backspace leaves a paragraph whose text
      has lost its hash. */
  lemma PromoteThenReset(st: EditorState, p: Position)
    requires StateValid(st) && CaretAt(st, p) && BeforeText(st.blocks, p) == "#"
    ensures var once := KeyDownResult(st, " ", false, false).0;
      var twice := KeyDownResult(once, "Backspace", false, false).0;
      && |twice.blocks| == |st.blocks|
      && twice.blocks[p.block] == Block(Paragraph, st.blocks[p.block].text[1..])
      && (forall i :: 0 <= i < |st.blocks| && i != p.block ==> twice.blocks[i] == st.blocks[i])
      && CaretAt(twice, Position(p.block, 0))
  {
    MarkdownShortcutPromotes(st, p, false, false);
    var once := KeyDownResult(st, " ", false, false).0;
    BackspaceResetsHeading(once, p.block, false, false);
  }

  /** Ctrl or Cmd with `b` only touches the marks: bold is cleared when its
      reported value is set and not false, set to true otherwise. */
  lemma BoldShortcutToggles(st: EditorState, ctrl: bool, meta: bool)
    requires StateValid(st) && (ctrl || meta)
    ensures var (r, suppressed) := KeyDownResult(st, "b", ctrl, meta);
      && suppressed
      && r.blocks == st.blocks && r.selection == st.selection
      && (st.marks.None? ==> r.marks == None)
      && (st.marks.Some? ==> (BoldKey in r.marks.value <==> !Truthy(st.marks, BoldKey)))
      && (st.marks.Some? && BoldKey in r.marks.value ==> r.marks.value[BoldKey] == Flag(true))
      && (st.marks.Some? ==> (ColorKey in r.marks.value <==> ColorKey in st.marks.value))
      && (st.marks.Some? && ColorKey in st.marks.value ==> r.marks.value[ColorKey] == st.marks.value[ColorKey])
  {
  }

  /** Wherever bold holds a flag or nothing, the keyboard shortcut and the
      toolbar button have the same effect. */
  lemma KeyboardBoldAgreesWithToolbar(marks: Option<Marks>)
    requires marks.Some? && BoldKey in marks.value ==> marks.value[BoldKey].Flag?
    ensures BoldKeyed(marks) == BoldToggled(marks)
  {
  }

  /** The handler suppresses the default action exactly when a shortcut
      fires, and a key press that is no shortcut changes nothing. */
  lemma KeyDownSuppressesOnlyShortcuts(st: EditorState, key: string, ctrl: bool, meta: bool)
    requires StateValid(st)
    ensures KeyDownResult(st, key, ctrl, meta).1 <==> RuleFor(st, key, ctrl, meta) != NoRule
    ensures KeyDownResult(st, key, ctrl, meta).1 ==> key == " " || key == "Backspace" || key == "b"
    ensures !KeyDownResult(st, key, ctrl, meta).1 ==> KeyDownResult(st, key, ctrl, meta).0 == st
  {
  }
}
