# MonoNote core, modelled in Dafny

MonoNote is a minimal note editor built on the Slate rich-text editor. This
project models four parts of it and proves properties of each.

- **Inline arithmetic.** A text leaf that ends in `operand op operand =` has
  its final `=` decorated with the value of the sum. The operator is one of
  `+ - * /`, an operand is `\d+(\.\d+)?%?`, and white space is allowed around
  the operator and before the `=`. The value is rounded to two decimals and
  shown without trailing zeros. The model holds:
  - the pattern, as a parser and a search for the leftmost start (module
    `MathRegex`);
  - the rewrite of every `N%` to `(N/100)`, an evaluator for the subset of
    the expression language the rewrite produces, and the number formatter
    (module `Arith`);
  - the decorator (module `Notepad`).
- **Keyboard shortcuts.** `#` or `##` followed by a space promotes a block to
  a heading. Backspace at the start of a heading turns it back into a
  paragraph. Ctrl/Cmd+B toggles bold. These are `Notepad.KeyDown`, a
  module-level method that takes the editor object as a parameter.
- **Toolbar.** The bold, heading and colour toggles and the queries that
  light up their buttons (module `Toolbar`). They run on an editor object
  (`Slate.Editor`) that holds blocks of flattened text, a selection and the
  marks the editor reports for it.
- **The application shell.** The open note, its file handle, its sessions
  and the save, autosave, save-as, open and new actions, as a class
  `App.AppState`. Each method's new state is given by a function of the old
  state (`App.AfterSaveFinished`, `App.AfterOpen`, …). The lemmas about those
  functions state what the actions promise.

The datatypes of `types.ts` are in module `Types`, and the constants of
`constants.ts` in module `Constants`. Module `Examples` works out the
documented inputs and a few edge cases on the model.

Numbers are exact reals. Where the program relies on floating point, the
model uses the exact value, and rounding to two decimals rounds halves away
from zero.

Most of the proof effort lies in a few lemmas. `Arith.RewriteExpr` proves the
percent rewrite operand by operand. `MathRegex.MatchStartIsLeast` pins the
leftmost match. `Arith.FormatHundredthsReadsBack` reads the formatted text
back as a number. `Notepad.DecorateMatchesReference` ties the decorator to
its reference definition. `App.ReopenSavedFile`, which relates a save to a
later open, needs no such work: Dafny proves it from the definitions.
`Arith.Pow10` is only a helper whose contract is that a power of ten is
positive.

Four behaviours of the code are easy to misread:

- **Which match is used.** A non-global `String.match`
  (components/Notepad.tsx:100) returns the match with the leftmost start, so
  in `1-2-3=` the sum `2-3` is evaluated (`Examples.ExampleLeftmostMatch`).
  The usage comment at constants.ts:14 does not settle which match is meant.
- **Division by zero.** Only NaN results are dropped
  (components/Notepad.tsx:111). So `5/0=` is decorated with `Infinity`, and
  only `0/0=` is left alone (`Examples.ExampleDivisionByZero`,
  `Examples.ExampleZeroByZero`).
- **When bold is active.** There are two tests. The keyboard shortcut tests
  the mark for truthiness (components/Notepad.tsx:207). The toolbar button
  tests it for being exactly `true` (components/Toolbar.tsx:13).
  `Toolbar.ActiveMarkIsTruthy` relates the two tests, and
  `Notepad.KeyboardBoldAgreesWithToolbar` shows that they agree whenever the
  mark is absent or a flag.
- **Autosave after New.** A scheduled autosave is not cancelled when a new
  note is started (App.tsx:136-149, `App.NewKeepsScheduledAutosave`).

## Model

| member | source | states |
|---|---|---|
| `Types.Hex` | types.ts:5-13 | every allowed colour is a seven-character `#` hex string |
| `Types.HexInjective` | types.ts:5-13 | different colours have different hex strings |
| `Types.HeadingKinds` | types.ts:40-43 | a block type starts with `heading` exactly when it is not a paragraph |
| `Constants.ColorsArePalette` | constants.ts:3-12 | the palette lists each of the 8 allowed colours exactly once, in the order and with the hex strings of the source |
| `Constants.InitialContentShape` | constants.ts:18-23 | the initial document is one paragraph holding one empty text leaf |
| `MathRegex.OpOf` | constants.ts:16 | a character is read as an operator exactly when it is one of `+ - * /` |
| `MathRegex.ParseNumeral` | constants.ts:16 | reads the longest `\d+(\.\d+)?` at the front (no digit follows the whole part or the fraction, and a point followed by a digit after a fractionless read cannot occur); fails exactly when the text does not open with a digit |
| `MathRegex.ParseExpr` | constants.ts:16 | whatever it accepts is a well-formed expression whose text is exactly the input |
| `MathRegex.ParseExprComplete` | constants.ts:16 | every well-formed `operand ws* op ws* operand ws* =` text is accepted, with the same parts |
| `MathRegex.MatchesIffParses` | constants.ts:16 | the parser accepts a text exactly when it belongs to the pattern's language |
| `MathRegex.RenderInjective` | constants.ts:16 | a matched text has one parse only |
| `MathRegex.MatchEndsWithEquals` | constants.ts:16 | a match is at least four characters long and ends in `=` |
| `MathRegex.NoMatchWithoutFinalEquals` | constants.ts:16 | a text whose last character is not `=` (trailing white space included) has no match |
| `MathRegex.OperatorInMatch` | constants.ts:16 | in a match, the character after the left operand and its white space is the operator |
| `MathRegex.NoOperatorNoMatch` | constants.ts:16 | without any of `+ - * /` there is no match |
| `MathRegex.PointNeedsFraction` | constants.ts:16 | digits followed by a point and no digit (`5.`) do not form an operand |
| `MathRegex.NoSpaceBeforePercent` | constants.ts:16 | white space between a numeral and its `%` makes the text no match from there |
| `MathRegex.MatchAlphabet` | constants.ts:16 | a match uses only digits, `.`, `%`, operators, white space and `=` |
| `MathRegex.MatchStart` | components/Notepad.tsx:100 | the non-global match starts at a matching index and at or before every other |
| `MathRegex.MatchStartIsLeast` | components/Notepad.tsx:100 | the match starts at `k` exactly when `k` is the least start whose suffix is in the language |
| `MathRegex.LeastStartAfterForeignChar` | components/Notepad.tsx:100 | when a match is preceded by a character outside the pattern's alphabet, the match starts right after it |
| `Arith.PercentPatternIsMaximal` | components/Notepad.tsx:107 | the percent pattern takes the whole numeral before a `%` |
| `Arith.RewriteExpr` | components/Notepad.tsx:104-107 | rewriting a matched expression without its `=` replaces each `N%` operand by `(N/100)` and leaves every other character in place |
| `Arith.Apply` | components/Notepad.tsx:110-111 | the result is NaN exactly for `0/0`, and an infinity, signed as the dividend, for any other division by zero |
| `Arith.EvaluateRewritten` | components/Notepad.tsx:110 | the evaluator gives the exact value of the two operands and the operator when the white space is blanks and tabs, with line feeds also allowed right after the operator, and gives no number otherwise |
| `Arith.RoundHundredths` | components/Notepad.tsx:113 | rounds to the nearest hundredth, halves away from zero |
| `Arith.FractionDigits` | components/Notepad.tsx:113 | at most two decimals, no trailing zero, worth exactly the remainder in hundredths |
| `Arith.FormatHundredthsReadsBack` | components/Notepad.tsx:113 | the result text reads back as exactly the rounded value, in its shortest form |
| `Arith.FormatFinite` | components/Notepad.tsx:113 | the shown number is a canonical decimal within half a hundredth of the value, with a minus sign exactly when it rounds below zero |
| `Arith.ResultTextsAreDistinct` | components/Notepad.tsx:113 | `Infinity`, `-Infinity` and `NaN` are each shown for exactly one kind of result, and never for a finite one |
| `Arith.FormatWholeNumber` | components/Notepad.tsx:113 | a whole number is shown as its digits, with no point |
| `Arith.FormatNegativeWholeNumber` | components/Notepad.tsx:113 | a negative whole number of hundreds of hundredths is shown as `-` and its digits |
| `Notepad.EvaluateMatchOf` | components/Notepad.tsx:103-110 | evaluating a match drops the `=`, rewrites percentages and gives the exact value when the white space is blanks and tabs, with line feeds also allowed right after the operator |
| `Notepad.DecorateMatch` | components/Notepad.tsx:115-120 | a match yields at most one decoration, over the final character of the leaf |
| `Notepad.Decorate` | components/Notepad.tsx:95-129 | a non-text node gets no decoration; a text node gets at most one, only when its text ends in `=`, covering exactly that `=` |
| `Notepad.DecorateMatchesReference` | components/Notepad.tsx:95-129 | the decorator agrees with the reference definition from the leftmost match and the exact evaluator |
| `Notepad.DecorationCondition` | components/Notepad.tsx:100-120 | a decoration is emitted exactly when there is a match whose white space the evaluator accepts (blanks and tabs, and line feeds right after the operator) and whose sum is not `0/0`; it carries the formatted value |
| `Notepad.KeyDownResult` | components/Notepad.tsx:139-216 | every key leaves the editor state valid |
| `Notepad.KeyDown` | components/Notepad.tsx:139-216 | the editor's new state and the suppress flag are those of the shortcut rules, applied in source order |
| `Notepad.MarkdownShortcutPromotes` | components/Notepad.tsx:143-173 | space after `#` (`##`) at a caret drops the marker, makes the block a heading one (two), puts the caret at the block start, changes no other block and suppresses the space |
| `Notepad.SpaceElsewhereIsTyped` | components/Notepad.tsx:143-174 | with any other text before the caret, or no collapsed caret, space changes nothing and is not suppressed |
| `Notepad.BackspaceResetsHeading` | components/Notepad.tsx:176-200 | backspace at the start of a heading turns it into a paragraph with the same text and suppresses the key |
| `Notepad.BackspaceElsewhereIsDefault` | components/Notepad.tsx:176-200 | backspace anywhere other than the start of a heading is left to the editor |
| `Notepad.PromoteThenReset` | components/Notepad.tsx:143-200 | `#`, space and then backspace leave a paragraph without the `#`, the caret at its start and the other blocks untouched |
| `Notepad.BoldShortcutToggles` | components/Notepad.tsx:202-213 | Ctrl/Cmd+B is always suppressed and removes bold when it is set and truthy, and otherwise sets it to true; the colour mark, the blocks and the selection are unchanged, and without reported marks nothing changes |
| `Notepad.KeyboardBoldAgreesWithToolbar` | components/Notepad.tsx:202-213 | when bold is absent or a plain flag, the shortcut does what the toolbar's bold button does |
| `Notepad.KeyDownSuppressesOnlyShortcuts` | components/Notepad.tsx:139-216 | a key is suppressed exactly when a shortcut rule applies, only space, backspace and `b` can be, and an unsuppressed key leaves the editor unchanged |
| `Slate.LastBlock` | components/Toolbar.tsx:22 | the last block a selection covers is its end block, except that a hanging end excludes it and only it: the last block is then the one just before the end block |
| `Slate.MarkAdded` | components/Toolbar.tsx:36 | adding a mark sets the key to the value, keeps every other key and value, and does nothing without reported marks |
| `Slate.MarkRemoved` | components/Toolbar.tsx:34 | removing a mark deletes the key, keeps every other key and value, and does nothing without reported marks |
| `Slate.Editor.AddMark` | components/Notepad.tsx:210 | the marks become those with the key added; blocks and selection are untouched |
| `Slate.Editor.RemoveMark` | components/Notepad.tsx:208 | the marks become those with the key removed; blocks and selection are untouched |
| `Slate.Editor.DeleteBackward` | components/Notepad.tsx:155 | removes the characters before the caret and moves the caret back; nothing else changes |
| `Slate.Editor.SetNodes` | components/Toolbar.tsx:46 | sets the kind of exactly the covered blocks, leaving texts, selection and marks alone |
| `Slate.Editor.SetNodesAt` | components/Notepad.tsx:191-195 | sets the kind of the one given block |
| `Toolbar.ActiveMarkIsTruthy` | components/Toolbar.tsx:11-14 | a mark is active only when the marks are reported and hold exactly `true` for it: any other value, a colour included, is not active, and every active mark is truthy |
| `Toolbar.IsBlockActive` | components/Toolbar.tsx:16-29 | false without a selection; otherwise true exactly when a covered block, a hanging end excluded, has the kind |
| `Toolbar.ToggleBold` | components/Toolbar.tsx:31-38 | the marks become the bold toggle of the old marks; blocks and selection are untouched |
| `Toolbar.ToggleBlock` | components/Toolbar.tsx:40-47 | the covered blocks become paragraphs when the kind is active and take the kind otherwise |
| `Toolbar.ToggleColor` | components/Toolbar.tsx:49-51 | the colour mark is set to the colour; nothing else changes |
| `Toolbar.ToggleBoldFlips` | components/Toolbar.tsx:11-38 | with a selection, the bold button flips its own active state and keeps the colour; without one nothing happens |
| `Toolbar.ToggleBoldTwice` | components/Toolbar.tsx:31-38 | pressing bold twice from not bold (or from bold set to true) restores the marks exactly |
| `Toolbar.ColorLastWins` | components/Toolbar.tsx:49-51 | choosing a colour is idempotent, the last colour wins, bold is untouched and colour never shows as an active mark |
| `Toolbar.ToggleBlockFrame` | components/Toolbar.tsx:40-47 | a heading toggle changes only the kinds of the covered blocks, all to one kind, and never a text |
| `Toolbar.ToggleBlockFlipsActive` | components/Toolbar.tsx:16-47 | a heading button changes its own active state |
| `Toolbar.ToggleBlockTwice` | components/Toolbar.tsx:40-47 | toggling a heading twice leaves the covered blocks paragraphs when none had the kind, and of that kind otherwise; texts and uncovered blocks stay |
| `App.HistoryOr` | App.tsx:123 | a loaded history is kept when it is an undo/redo history; in every other case (missing, or null) it becomes the empty one |
| `App.AppState.constructor` | App.tsx:12-24 | the shell starts with the initial note, no file, no sessions and a fresh session |
| `App.AppState.Save` | App.tsx:60-78 | a save writes the snapshot to the current handle and marks the shell saving |
| `App.AppState.FinishSave` | App.tsx:80-89 | a finished save adopts the returned handle only when there was none, and clears the saving flag |
| `App.AppState.AutosaveFires` | App.tsx:101-107 | the scheduled autosave runs a save and is no longer pending |
| `App.AppState.SaveAs` | App.tsx:151-165 | a save-as writes the snapshot and changes nothing yet |
| `App.AppState.FinishSaveAs` | App.tsx:167-171 | a finished save-as adopts any returned handle |
| `App.AppState.EditorChange` | App.tsx:92-108 | an edit stores the content and history, marks the session modified and schedules an autosave when the note has a file |
| `App.AppState.Open` | App.tsx:110-134 | an open adopts the handle and its name; a file holding an object replaces the note, with fallbacks, and starts a new session; a file holding `null` changes nothing else |
| `App.AppState.New` | App.tsx:136-149 | a new note has no file and no sessions, and starts a fresh session |
| `App.SnapshotRecordsSessions` | App.tsx:63-78 | a snapshot holds the earlier sessions unchanged followed by the current one closed at the save time, the content and history as they are, and version 1 |
| `App.SavesDoNotAccumulate` | App.tsx:60-90 | a save does not add the closed session to the shell's list, so two saves write the same sessions |
| `App.SaveKeepsItsFile` | App.tsx:61-89 | saving is flagged while a save runs and cleared after; a handle is adopted only when there was none and one came back |
| `App.SaveAsAdoptsHandle` | App.tsx:167-171 | a save-as replaces the handle and name whenever one comes back and changes nothing otherwise |
| `App.EditorChangeRecords` | App.tsx:92-107 | an edit stores content and history, marks the session modified, leaves its timestamps, and schedules an autosave exactly when one was pending or there is a file |
| `App.OpenLoadsFile` | App.tsx:115-133 | a cancelled open changes nothing; otherwise the handle and name are adopted, and for a file holding an object missing content, history and sessions fall back to the defaults and a fresh unmodified session starts |
| `App.OpenOfNullFile` | App.tsx:115-124 | when the file holds `null`, the open adopts the handle and name and then stops, so the note, its sessions and what the next save writes are as before |
| `App.ReopenSavedFile` | App.tsx:63-133 | opening a saved snapshot gives back its content and history and the sessions with the saved one closed |
| `App.NewResets` | App.tsx:136-149 | New clears the file, names the note Untitled, empties sessions, resets history and content, and matches the initial state apart from the empty history and the save flags |
| `App.CurrentSessionStaysOpen` | App.tsx:17-149 | the session being edited never carries a close time |
| `App.AutosaveNeedsFile` | App.tsx:101-134 | a scheduled autosave always has a file, through every action but New |
| `App.NewKeepsScheduledAutosave` | App.tsx:101-149 | New does not cancel an autosave scheduled for the previous file, which then saves the empty untitled note |
| `Examples.ExampleProduct` | constants.ts:14 | `20*10=` is decorated with `200` |
| `Examples.ExamplePercentOperand` | constants.ts:14 | `20*10%=` is decorated with `2` |
| `Examples.ExamplePercentages` | constants.ts:14 | `20%-5%=` is decorated with `0.15` |
| `Examples.ExampleDecimals` | constants.ts:14 | `2.5+2.5=` is decorated with `5` |
| `Examples.ExampleDivisionByZero` | components/Notepad.tsx:110-111 | `5/0=` is decorated with `Infinity` |
| `Examples.ExampleZeroByZero` | components/Notepad.tsx:111 | `0/0=` is not decorated |
| `Examples.ExampleLeadingMinus` | components/Notepad.tsx:100 | in `-5+3=` the sum `5+3` is evaluated, giving `8` |
| `Examples.ExampleLeftmostMatch` | components/Notepad.tsx:100 | in `1-2-3=` the leftmost match is `2-3=`, giving `-1` |
| `Examples.ExampleNewlineAfterOperator` | components/Notepad.tsx:100-119 | `2+`, a line feed and `3=` is decorated with `5` |
| `Examples.ExampleNewlineBeforeOperator` | components/Notepad.tsx:100-119 | `2`, a line feed and `+3=` is not decorated: the line feed ends the statement |
| `Examples.ExampleLeadingPoint` | constants.ts:16 | `.5` is no operand: `.5+1=` is decorated with `6` |

## Left out

- Leaves and paths: each block's text is one flattened string, and a decoration's path is passed through as given. Slate's splitting and merging of leaves is not modelled.
- The marks are stored as the editor reports them. Slate derives them from the leaf at the selection and resets pending marks when the selection moves; neither is modelled.
- `deleteBackward` by word, used for the `##` shortcut, is taken to remove exactly the two `#` characters.
- Floating point: the arithmetic is exact. IEEE rounding of the operands and of `toFixed`, its tie-breaking, and exponent notation for very large or very small values are not modelled.
- mathjs is modelled only on the expressions the rewrite of a match can produce, as its parser reads them: blanks and tabs are white space, and so are line feeds where it reads the operand after a binary operator. A line feed before the operator or after the right operand ends the statement, so mathjs returns a set of results rather than a number, and no decoration is emitted. Any other white space the pattern allows, such as a carriage return or a no-break space, is a syntax error for mathjs and makes the model's evaluation fail. This follows the mathjs expression parser as published; the version the program is built against is not part of this model.
- The duration timer (App.tsx:44-56) is not modelled. Session durations change only when a file is opened or a new note starts.
- The autosave delay is not modelled. A scheduled autosave is a flag that `AutosaveFires` consumes.
- Races between an in-flight save and later actions are not modelled. `Save` and `FinishSave` are separate calls.
- The refs that mirror the state (App.tsx:26-40) are taken to be equal to the state they mirror.
- Each action reads the clock once: the close time and the `created` time of a snapshot are the same `now`.
- services/fileService.ts is not part of this model. Its results are `Option` inputs, and reading back a saved file is taken to give back the same values.
- The history-modal flag and the modal itself (components/HistoryModal.tsx) are user interface only.
- The loading of history into the editor (components/Notepad.tsx:22-26), `renderElement` and `renderLeaf` (components/Notepad.tsx:29-92) and `handlePaste` (components/Notepad.tsx:132-136) are rendering and thin calls into the editor library.
- Undo and redo stacks are opaque lists of numbers.
- Texts are sequences of Unicode code points. Offsets (the decoration's anchor and focus, a caret's offset, the text before the caret, `deleteBackward`) count code points, whereas JavaScript counts UTF-16 code units. The two differ on a text holding a character outside the Basic Multilingual Plane: for `😀1+1=` the model decorates offsets 4 to 5 and the program 5 to 6.
- `App.AppState.Open`: a file's fields are either absent (`undefined` or `null`) or of their declared types. A field of another type, or a falsy value such as `0` or `""` that the `||` fallbacks would also replace, is not modelled. The parsed file is either an object or `null`. Other JSON values, such as a number or a string, are read as an object with every field missing.
- `Slate.Editor.DeleteBackward` requires a collapsed caret with enough characters before it. This is all the shortcut uses it for.
