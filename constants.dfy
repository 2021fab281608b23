/** The palette and the content of an empty note. */
module Constants {
  import opened Types

  /** The palette offered by the toolbar, in display order. */
  const COLORS: seq<AllowedColor> := [White, Rose, Amber, Lime, Green, Azure, Sky, Violet]

  /** The palette lists every colour exactly once, with the stored hex strings
      in the order the toolbar shows them. */
  lemma ColorsArePalette()
    ensures |COLORS| == 8
    ensures forall c: AllowedColor :: c in COLORS
    ensures forall i, j :: 0 <= i < j < |COLORS| ==> COLORS[i] != COLORS[j]
    ensures [Hex(COLORS[0]), Hex(COLORS[1]), Hex(COLORS[2]), Hex(COLORS[3]),
             Hex(COLORS[4]), Hex(COLORS[5]), Hex(COLORS[6]), Hex(COLORS[7])]
         == ["#ffffff", "#E94079", "#EBB369", "#DEF169",
             "#73DF5C", "#55A9D2", "#64D1FB", "#8E73EF"]
  {
    forall c: AllowedColor ensures c in COLORS {
      match c
      case White => assert COLORS[0] == c;
      case Rose => assert COLORS[1] == c;
      case Amber => assert COLORS[2] == c;
      case Lime => assert COLORS[3] == c;
      case Green => assert COLORS[4] == c;
      case Azure => assert COLORS[5] == c;
      case Sky => assert COLORS[6] == c;
      case Violet => assert COLORS[7] == c;
    }
  }

  /** A new note: one paragraph holding one empty, unformatted text leaf. */
  const INITIAL_CONTENT: seq<CustomElement> :=
    [CustomElement(Paragraph, [CustomText("", None, None, None)])]

  lemma InitialContentShape()
    ensures |INITIAL_CONTENT| == 1
    ensures INITIAL_CONTENT[0].kind == Paragraph
    ensures |INITIAL_CONTENT[0].children| == 1
    ensures INITIAL_CONTENT[0].children[0].text == ""
  {
  }
}
