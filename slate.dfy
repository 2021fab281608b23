/** The rich-text editor the note editor drives, reduced to what its
    handlers use: a list of blocks, each with a kind and its text flattened
    into one string, a selection of (block, offset) points, and the marks
    the editor reports for the selection. */
module Slate {
  import opened Types

  datatype Block = Block(kind: BlockKind, text: string)

  datatype Position = Position(block: nat, offset: nat)

  datatype Range = Range(anchor: Position, focus: Position)

  datatype MarkKey = BoldKey | ColorKey

  datatype MarkValue = Flag(on: bool) | Hue(color: AllowedColor)

  type Marks = map<MarkKey, MarkValue>

  // ---------------------------------------------------------------------
  // Selection geometry

  /** Document order of points. */
  predicate IsBefore(p: Position, q: Position)
  {
    p.block < q.block || (p.block == q.block && p.offset < q.offset)
  }

  predicate Collapsed(r: Range)
  {
    r.anchor == r.focus
  }

  /** The earlier edge of a range. */
  function Start(r: Range): (p: Position)
    ensures p == r.anchor || p == r.focus
    ensures !IsBefore(r.anchor, p) && !IsBefore(r.focus, p)
  {
    if IsBefore(r.focus, r.anchor) then r.focus else r.anchor
  }

  /** The later edge of a range. */
  function End(r: Range): (p: Position)
    ensures p == r.anchor || p == r.focus
    ensures !IsBefore(p, r.anchor) && !IsBefore(p, r.focus)
  {
    if IsBefore(r.focus, r.anchor) then r.anchor else r.focus
  }

  /** An expanded range whose end sits at the very start of a block: the
      block it ends in is not really selected. */
  predicate Hanging(r: Range)
  {
    !Collapsed(r) && Start(r).offset == 0 && End(r).offset == 0
  }

  function FirstBlock(r: Range): nat
  {
    Start(r).block
  }

  /** The last block the range covers once a hanging end is pulled back to
      the end of the block before it. */
  function LastBlock(r: Range): (b: nat)
    ensures FirstBlock(r) <= b <= End(r).block
    ensures b == End(r).block <==> !Hanging(r)
    ensures Hanging(r) ==> b + 1 == End(r).block
  {
    if Hanging(r) then End(r).block - 1 else End(r).block
  }

  // ---------------------------------------------------------------------
  // Editor states

  /** A point lies inside the document. */
  predicate PositionIn(blocks: seq<Block>, p: Position)
  {
    p.block < |blocks| && p.offset <= |blocks[p.block].text|
  }

  predicate SelectionIn(blocks: seq<Block>, selection: Option<Range>)
  {
    selection.Some? ==>
      PositionIn(blocks, selection.value.anchor) && PositionIn(blocks, selection.value.focus)
  }

  datatype EditorState = EditorState(blocks: seq<Block>, selection: Option<Range>, marks: Option<Marks>)

  /** The document is never empty, the selection lies inside it, and the
      editor reports marks exactly when there is a selection. */
  predicate StateValid(st: EditorState)
  {
    && |st.blocks| > 0
    && SelectionIn(st.blocks, st.selection)
    && (st.marks.Some? <==> st.selection.Some?)
  }

  /** The blocks with the kinds of blocks `lo..hi` replaced. */
  function SetKinds(blocks: seq<Block>, lo: nat, hi: nat, kind: BlockKind): (r: seq<Block>)
    ensures |r| == |blocks|
    ensures forall i :: 0 <= i < |r| ==> r[i].text == blocks[i].text
    ensures forall i :: 0 <= i < |r| ==> r[i].kind == if lo <= i <= hi then kind else blocks[i].kind
  {
    seq(|blocks|, i requires 0 <= i < |blocks| =>
      if lo <= i <= hi then Block(kind, blocks[i].text) else blocks[i])
  }

  /** The text with the `n` characters before `offset` removed. */
  function DeleteBefore(text: string, offset: nat, n: nat): (r: string)
    requires n <= offset <= |text|
    ensures |r| == |text| - n
    ensures r[..offset - n] == text[..offset - n] && r[offset - n..] == text[offset..]
  {
    text[..offset - n] + text[offset..]
  }

  /** The marks after setting `key`; without a selection nothing is set. */
  function MarkAdded(marks: Option<Marks>, key: MarkKey, value: MarkValue): (r: Option<Marks>)
    ensures r.Some? <==> marks.Some?
    ensures r.Some? ==> key in r.value && r.value[key] == value
    ensures r.Some? ==> forall k :: k != key ==> (k in r.value <==> k in marks.value)
    ensures r.Some? ==> forall k :: k != key && k in r.value ==> r.value[k] == marks.value[k]
  {
    match marks
    case None => None
    case Some(m) => Some(m[key := value])
  }

  /** The marks after clearing `key`; without a selection nothing is
      cleared. */
  function MarkRemoved(marks: Option<Marks>, key: MarkKey): (r: Option<Marks>)
    ensures r.Some? <==> marks.Some?
    ensures r.Some? ==> key !in r.value
    ensures r.Some? ==> forall k :: k != key ==> (k in r.value <==> k in marks.value)
    ensures r.Some? ==> forall k :: k != key && k in r.value ==> r.value[k] == marks.value[k]
  {
    match marks
    case None => None
    case Some(m) => Some(m - {key})
  }

  // ---------------------------------------------------------------------
  // The editor object

  class Editor {
    var blocks: seq<Block>
    var selection: Option<Range>
    var marks: Option<Marks>

    function State(): EditorState
      reads this
    {
      EditorState(blocks, selection, marks)
    }

    predicate Valid()
      reads this
    {
      StateValid(State())
    }

    /** An editor over the given blocks, with no marks set yet. */
    constructor (initial: seq<Block>, sel: Option<Range>)
      requires |initial| > 0 && SelectionIn(initial, sel)
      ensures Valid()
      ensures blocks == initial && selection == sel
      ensures marks == if sel.Some? then Some(map[]) else None
    {
      blocks := initial;
      selection := sel;
      marks := if sel.Some? then Some(map[]) else None;
    }

    /** Deletes the `n` characters before a collapsed caret and moves the
        caret back over them. */
    method DeleteBackward(n: nat)
      requires Valid()
      requires selection.Some? && Collapsed(selection.value)
      requires n <= selection.value.anchor.offset
      modifies this
      ensures Valid()
      ensures var p := old(selection.value.anchor);
        && blocks == old(blocks)[p.block := Block(old(blocks[p.block].kind),
                                                  DeleteBefore(old(blocks[p.block].text), p.offset, n))]
        && selection == Some(Range(Position(p.block, p.offset - n), Position(p.block, p.offset - n)))
      ensures marks == old(marks)
    {
      var p := selection.value.anchor;
      var b := blocks[p.block];
      blocks := blocks[p.block := Block(b.kind, DeleteBefore(b.text, p.offset, n))];
      var q := Position(p.block, p.offset - n);
      selection := Some(Range(q, q));
    }

    /** Sets the kind of every block the selection covers, a hanging end
        excluded; without a selection nothing changes. */
    method SetNodes(kind: BlockKind)
      requires Valid()
      modifies this
      ensures Valid()
      ensures blocks == if old(selection).None? then old(blocks)
        else SetKinds(old(blocks), FirstBlock(old(selection).value), LastBlock(old(selection).value), kind)
      ensures selection == old(selection) && marks == old(marks)
    {
      if selection.Some? {
        var r := selection.value;
        var newBlocks := SetKinds(blocks, FirstBlock(r), LastBlock(r), kind);
        assert forall i :: 0 <= i < |blocks| ==> |newBlocks[i].text| == |blocks[i].text|;
        blocks := newBlocks;
      }
    }

    /** Sets the kind of one given block. */
    method SetNodesAt(index: nat, kind: BlockKind)
      requires Valid() && index < |blocks|
      modifies this
      ensures Valid()
      ensures blocks == old(blocks)[index := Block(kind, old(blocks[index].text))]
      ensures selection == old(selection) && marks == old(marks)
    {
      blocks := blocks[index := Block(kind, blocks[index].text)];
    }

    method AddMark(key: MarkKey, value: MarkValue)
      requires Valid()
      modifies this
      ensures Valid()
      ensures marks == MarkAdded(old(marks), key, value)
      ensures blocks == old(blocks) && selection == old(selection)
    {
      marks := MarkAdded(marks, key, value);
    }

    method RemoveMark(key: MarkKey)
      requires Valid()
      modifies this
      ensures Valid()
      ensures marks == MarkRemoved(old(marks), key)
      ensures blocks == old(blocks) && selection == old(selection)
    {
      marks := MarkRemoved(marks, key);
    }
  }

  /** A branch is taken on `marks?.key`: the value is present and not
      `false`. */
  predicate Truthy(marks: Option<Marks>, key: MarkKey)
  {
    marks.Some? && key in marks.value && marks.value[key] != Flag(false)
  }
}
