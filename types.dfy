/** The note editor's value types: colours, sessions, the file layout, text
    leaves, block elements and math decorations. */
module Types {

  datatype Option<+T> = None | Some(value: T)

  /** The eight palette colours a text leaf may carry. */
  datatype AllowedColor = White | Rose | Amber | Lime | Green | Azure | Sky | Violet

  /** The hex string the editor stores for a colour. */
  function Hex(c: AllowedColor): (h: string)
    ensures |h| == 7 && h[0] == '#'
  {
    match c
    case White => "#ffffff"
    case Rose => "#E94079"
    case Amber => "#EBB369"
    case Lime => "#DEF169"
    case Green => "#73DF5C"
    case Azure => "#55A9D2"
    case Sky => "#64D1FB"
    case Violet => "#8E73EF"
  }

  /** Distinct colours are stored as distinct strings. */
  lemma HexInjective(a: AllowedColor, b: AllowedColor)
    ensures Hex(a) == Hex(b) ==> a == b
  {
  }

  /** One editing session; `closeTimestamp == None` means the session is
      still open. Timestamps are epoch milliseconds. */
  datatype SessionData = SessionData(
    openTimestamp: int,
    closeTimestamp: Option<int>,
    durationSeconds: real,
    modified: bool)

  /** The undo/redo state of the editing substrate. The core never looks
      inside it; `NullHistory` is the `null` the application starts with, and
      the batches are opaque tokens. */
  datatype History = NullHistory | UndoRedo(undos: seq<nat>, redos: seq<nat>)

  datatype Meta = Meta(version: int, created: int)

  /** What a saved note file holds. */
  datatype NoteFileStructure = NoteFileStructure(
    content: seq<CustomElement>,
    history: History,
    sessions: seq<SessionData>,
    meta: Meta)

  /** A text leaf: its text and its optional formatting. */
  datatype CustomText = CustomText(
    text: string,
    bold: Option<bool>,
    color: Option<AllowedColor>,
    mathResult: Option<string>)

  /** The three block types. */
  datatype BlockKind = Paragraph | HeadingOne | HeadingTwo

  /** The `type` string of a block element. */
  function KindName(k: BlockKind): string
  {
    match k
    case Paragraph => "paragraph"
    case HeadingOne => "heading-one"
    case HeadingTwo => "heading-two"
  }

  /** A block is a heading when its type name starts with "heading". */
  predicate IsHeading(k: BlockKind)
  {
    "heading" <= KindName(k)
  }

  lemma HeadingKinds(k: BlockKind)
    ensures IsHeading(k) <==> k != Paragraph
  {
    match k
    case Paragraph => assert KindName(k)[0] != "heading"[0];
    case HeadingOne => assert KindName(k)[..7] == "heading";
    case HeadingTwo => assert KindName(k)[..7] == "heading";
  }

  /** A block element: its type and its text leaves. */
  datatype CustomElement = CustomElement(kind: BlockKind, children: seq<CustomText>)

  /** A point of a decoration: the path of a text node and an offset in it. */
  datatype DecorationPoint = DecorationPoint(path: seq<nat>, offset: nat)

  /** A decoration range carrying the formatted result of an expression. */
  datatype MathDecoration = MathDecoration(
    anchor: DecorationPoint,
    focus: DecorationPoint,
    mathResult: string)
}
