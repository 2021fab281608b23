/** The floating toolbar: which buttons show as active, and the bold,
    heading and colour toggles. */
module Toolbar {
  import opened Types
  import opened Slate

  // ---------------------------------------------------------------------
  // Queries

  /** A mark shows as active only when the reported marks hold exactly
      `true` for it. */
  predicate IsMarkActive(marks: Option<Marks>, key: MarkKey)
  {
    marks.Some? && key in marks.value && marks.value[key] == Flag(true)
  }

  /** The toolbar's test is stricter than the keyboard shortcut's: an
      active mark is one a branch on `marks?.key` would take, but a mark
      holding anything other than `true` (a colour, say) is never shown
      as active, and nothing is active without a selection. */
  lemma ActiveMarkIsTruthy(marks: Option<Marks>, key: MarkKey)
    ensures marks.None? ==> !IsMarkActive(marks, key)
    ensures IsMarkActive(marks, key) ==> Truthy(marks, key)
    ensures marks.Some? && key in marks.value && marks.value[key] != Flag(true)
      ==> !IsMarkActive(marks, key)
    ensures marks.Some? && key in marks.value && marks.value[key].Hue?
      ==> Truthy(marks, key) && !IsMarkActive(marks, key)
  { }

  /** The first block of `lo..hi` that has `kind`. */
  function FirstOfKind(blocks: seq<Block>, lo: nat, hi: nat, kind: BlockKind): (r: Option<nat>)
    decreases |blocks| - lo
    ensures r.Some? ==> lo <= r.value <= hi && r.value < |blocks| && blocks[r.value].kind == kind
    ensures r.Some? ==> forall j :: lo <= j < r.value ==> blocks[j].kind != kind
    ensures r.None? ==> forall j :: lo <= j <= hi && j < |blocks| ==> blocks[j].kind != kind
  {
    if lo > hi || lo >= |blocks| then None
    else if blocks[lo].kind == kind then Some(lo)
    else FirstOfKind(blocks, lo + 1, hi, kind)
  }

  /** Some block covered by the selection, a hanging end excluded, has
      `kind`; without a selection no block is active. */
  function IsBlockActive(blocks: seq<Block>, selection: Option<Range>, kind: BlockKind): (b: bool)
    ensures b <==> (selection.Some? &&
      exists i :: FirstBlock(selection.value) <= i <= LastBlock(selection.value) && i < |blocks| && blocks[i].kind == kind)
  {
    selection.Some? && FirstOfKind(blocks, FirstBlock(selection.value), LastBlock(selection.value), kind).Some?
  }

  // ---------------------------------------------------------------------
  // What the toggles do

  function BoldToggled(marks: Option<Marks>): Option<Marks>
  {
    if IsMarkActive(marks, BoldKey) then MarkRemoved(marks, BoldKey)
    else MarkAdded(marks, BoldKey, Flag(true))
  }

  function BlocksToggled(blocks: seq<Block>, selection: Option<Range>, kind: BlockKind): seq<Block>
  {
    match selection
    case None => blocks
    case Some(r) =>
      SetKinds(blocks, FirstBlock(r), LastBlock(r),
               if IsBlockActive(blocks, selection, kind) then Paragraph else kind)
  }

  function ColorSet(marks: Option<Marks>, c: AllowedColor): Option<Marks>
  {
    MarkAdded(marks, ColorKey, Hue(c))
  }

  // ---------------------------------------------------------------------
  // The toggles

  method ToggleBold(e: Editor)
    requires e.Valid()
    modifies e
    ensures e.Valid()
    ensures e.marks == BoldToggled(old(e.marks))
    ensures e.blocks == old(e.blocks) && e.selection == old(e.selection)
  {
    var isActive := IsMarkActive(e.marks, BoldKey);
    if isActive {
      e.RemoveMark(BoldKey);
    } else {
      e.AddMark(BoldKey, Flag(true));
    }
  }

  method ToggleBlock(e: Editor, format: BlockKind)
    requires e.Valid()
    modifies e
    ensures e.Valid()
    ensures e.blocks == BlocksToggled(old(e.blocks), old(e.selection), format)
    ensures e.selection == old(e.selection) && e.marks == old(e.marks)
  {
    var isActive := IsBlockActive(e.blocks, e.selection, format);
    e.SetNodes(if isActive then Paragraph else format);
  }

  method ToggleColor(e: Editor, c: AllowedColor)
    requires e.Valid()
    modifies e
    ensures e.Valid()
    ensures e.marks == ColorSet(old(e.marks), c)
    ensures e.blocks == old(e.blocks) && e.selection == old(e.selection)
  {
    e.AddMark(ColorKey, Hue(c));
  }

  // ---------------------------------------------------------------------
  // Properties of the toggles

  /** With a selection the bold button flips its own active state and
      leaves the other marks alone; without one nothing happens. */
  lemma ToggleBoldFlips(marks: Option<Marks>)
    ensures marks.None? ==> BoldToggled(marks) == None
    ensures marks.Some? ==> (IsMarkActive(BoldToggled(marks), BoldKey) <==> !IsMarkActive(marks, BoldKey))
    ensures marks.Some? ==> (ColorKey in BoldToggled(marks).value <==> ColorKey in marks.value)
    ensures marks.Some? && ColorKey in marks.value ==> BoldToggled(marks).value[ColorKey] == marks.value[ColorKey]
  {
  }

  /** Pressing bold twice from "not bold", or from bold set by the toggles
      themselves, gives back the marks exactly. */
  lemma ToggleBoldTwice(marks: Option<Marks>)
    requires marks.Some? ==> BoldKey !in marks.value || marks.value[BoldKey] == Flag(true)
    ensures BoldToggled(BoldToggled(marks)) == marks
  {
    if marks.Some? {
      var m := marks.value;
      if BoldKey in m {
        assert (m - {BoldKey})[BoldKey := Flag(true)] == m;
      } else {
        assert m[BoldKey := Flag(true)] - {BoldKey} == m;
      }
    }
  }

  /** Choosing a colour sets it, whatever was there: doing it twice is
      doing it once, the last colour wins, and bold is untouched. */
  lemma ColorLastWins(marks: Option<Marks>, c1: AllowedColor, c2: AllowedColor)
    ensures ColorSet(ColorSet(marks, c1), c2) == ColorSet(marks, c2)
    ensures ColorSet(ColorSet(marks, c1), c1) == ColorSet(marks, c1)
    ensures marks.Some? ==> ColorSet(marks, c1).value[ColorKey] == Hue(c1)
    ensures IsMarkActive(ColorSet(marks, c1), BoldKey) <==> IsMarkActive(marks, BoldKey)
    ensures !IsMarkActive(ColorSet(marks, c1), ColorKey)
  {
    if marks.Some? {
      assert marks.value[ColorKey := Hue(c1)][ColorKey := Hue(c2)] == marks.value[ColorKey := Hue(c2)];
      assert marks.value[ColorKey := Hue(c1)][ColorKey := Hue(c1)] == marks.value[ColorKey := Hue(c1)];
    }
  }

  /** Toggling a heading kind changes only kinds, and only of the covered
      blocks; they all end up with one kind. */
  lemma ToggleBlockFrame(blocks: seq<Block>, selection: Option<Range>, kind: BlockKind)
    requires selection.Some?
    ensures var r := BlocksToggled(blocks, selection, kind);
      && |r| == |blocks|
      && (forall i :: 0 <= i < |r| ==> r[i].text == blocks[i].text)
      && (forall i :: 0 <= i < |r| && !(FirstBlock(selection.value) <= i <= LastBlock(selection.value)) ==> r[i] == blocks[i])
      && (forall i :: 0 <= i < |r| && FirstBlock(selection.value) <= i <= LastBlock(selection.value) ==>
            r[i].kind == if IsBlockActive(blocks, selection, kind) then Paragraph else kind)
  {
  }

  /** The first covered block is in the document. */
  lemma FirstBlockIn(blocks: seq<Block>, r: Range)
    requires SelectionIn(blocks, Some(r))
    ensures FirstBlock(r) <= LastBlock(r) < |blocks|
  {
  }

  /** A heading button changes its own active state. */
  lemma ToggleBlockFlipsActive(blocks: seq<Block>, selection: Option<Range>, kind: BlockKind)
    requires kind != Paragraph && selection.Some? && SelectionIn(blocks, selection)
    ensures IsBlockActive(BlocksToggled(blocks, selection, kind), selection, kind)
        <==> !IsBlockActive(blocks, selection, kind)
  {
    var r := selection.value;
    var t := BlocksToggled(blocks, selection, kind);
    ToggleBlockFrame(blocks, selection, kind);
    FirstBlockIn(blocks, r);
    if !IsBlockActive(blocks, selection, kind) {
      assert t[FirstBlock(r)].kind == kind;
    }
  }

  /** Toggling the same heading kind twice leaves every covered block a
      paragraph when none had that kind before, and a block of that kind
      otherwise; texts and uncovered blocks are untouched. */
  lemma ToggleBlockTwice(blocks: seq<Block>, selection: Option<Range>, kind: BlockKind)
    requires kind != Paragraph && selection.Some? && SelectionIn(blocks, selection)
    ensures var r := BlocksToggled(BlocksToggled(blocks, selection, kind), selection, kind);
      && |r| == |blocks|
      && (forall i :: 0 <= i < |r| ==> r[i].text == blocks[i].text)
      && (forall i :: 0 <= i < |r| && !(FirstBlock(selection.value) <= i <= LastBlock(selection.value)) ==> r[i] == blocks[i])
      && (forall i :: 0 <= i < |r| && FirstBlock(selection.value) <= i <= LastBlock(selection.value) ==>
            r[i].kind == if IsBlockActive(blocks, selection, kind) then kind else Paragraph)
  {
    var once := BlocksToggled(blocks, selection, kind);
    ToggleBlockFrame(blocks, selection, kind);
    ToggleBlockFrame(once, selection, kind);
    ToggleBlockFlipsActive(blocks, selection, kind);
  }
}
