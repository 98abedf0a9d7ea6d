# ante — a verified model of the editor core

ante is a small terminal text editor. This project models its core in
Dafny and proves properties of that model:

- the row of chars with a cached length (`RowBuffer`);
- the text buffer: its rows, optional path and Saved/Unsaved status, the
  row-level edits, and the text that loading parses and saving writes;
- the cursor, the terminal size and the editor's two scroll offsets, and
  how the arrow keys, typing, Backspace and Enter move them;
- the Ctrl+C / Ctrl+S handling and the file-name prompt that Ctrl+S opens
  on a buffer with no path;
- the key-code → event translation, the editing `Mode` enum, and the check
  of the command-line path argument.

Files and modules follow the source:

- `row_buffer.dfy` (`RowBuffers`): class `RowBuffer`.
- `text_buffer.dfy` (`TextBuffers`): the line parser (`Lines`, `TrimEnd`,
  `ParseRows`), the serialiser (`Serialise`) and class `Buffer`. The
  buffer keeps its rows as distinct `RowBuffer` objects. A ghost `Rows`
  holds their text.
- `cursor.dfy` (`Cursors`) and `size.dfy` (`Sizes`): classes `Cursor` and
  `Size`.
- `editor_steps.dfy` (`EditorSteps`): a value `View` of everything the key
  handlers read and write (rows, cursor, offsets, terminal size). It gives
  one function per handler (`MoveUp`, `MoveDown`, `MoveLeft`, `MoveRight`,
  `TypeChar`, `BackspaceStep`, `EnterStep`, `KeyStep`). The properties of
  the handlers are proved about these functions.
- `editor.dfy` (`Editors`): class `Editor`. Each handler method is proved
  to move the editor from `old(State())` to the step function's result.
- `path_prompt.dfy` (`PathPrompt`): the prompt as a run over events.
- `event.dfy` (`Events`), `mode.dfy` (`Modes`), `launcher.dfy` (`Launcher`).

Every index past the end of a vector makes the Rust program panic, and so
does every unsigned subtraction that would underflow when overflow checks
are on (the debug profile). The model states each of them as a
precondition (the `...Defined` predicates of `EditorSteps`).

The viewport invariant is `Good`: the cursor is inside the text, the row
offset is at or above the cursor's row, the cursor's screen row is at most
`termRows - 2`, just above the status bar (or is the top visible row), and
the column offset is at or left of the
cursor, by at most one terminal width. It is proved for every key under
the condition `KeepsViewport`. Concrete states show where the code, as
written, breaks it:

- a vertical move onto a longer row can set the column offset past the
  cursor (`MoveDownCanPassCursor`, `MoveUpCanPassCursor`);
- a Backspace join on the top visible row leaves the cursor above the
  viewport (`JoinOnTopRowLeavesViewport`);
- Enter in the middle of a scrolled row puts the column at 0, left of the
  offset (`EnterMidLineCanPassCursor`).

Saving and reloading gives the rows back only when no row ends in
whitespace (`ParseSerialise`, `ReloadAfterSave`). Loading trims every
line, so trailing whitespace the user typed is lost by a save and a reload
(`TypedTrailingSpaceIsLostOnReload`).

## Model

| member | source | states |
|---|---|---|
| RowBuffers.InsertAt | src/text_buffer/row_buffer.rs:48-55 | the row grows by one; below the length `c` lands at `i` with the chars before and after kept in order, otherwise it is appended |
| RowBuffers.DeleteAt | src/text_buffer/row_buffer.rs:56-63 | removing index `i` shrinks the row by one and keeps the chars on both sides in order |
| RowBuffers.DeleteInsertedChar | src/text_buffer/row_buffer.rs:48-63 | inserting at `i <= length` and then deleting at `i` gives the original row back |
| RowBuffers.RowBuffer.NewFromStr | src/text_buffer/row_buffer.rs:8-13 | the row holds the string's chars and the cached length equals their count |
| RowBuffers.RowBuffer.NewFromSliceChar | src/text_buffer/row_buffer.rs:14-25 | the copying loop yields exactly the slice, with the cached length equal to its length |
| RowBuffers.RowBuffer.NewFromVec | src/text_buffer/row_buffer.rs:26-28 | the row takes the vector, with matching cached length |
| RowBuffers.RowBuffer.NewEmpty | src/text_buffer/row_buffer.rs:29-31 | an empty row of length 0 |
| RowBuffers.RowBuffer.GetData | src/text_buffer/row_buffer.rs:34-36 | the stored chars, whose count is the cached length |
| RowBuffers.RowBuffer.GetLenght | src/text_buffer/row_buffer.rs:37-39 | the cached length is the true number of chars |
| RowBuffers.RowBuffer.IsEmpty | src/text_buffer/row_buffer.rs:40-42 | the vector is empty exactly when the cached length is 0 |
| RowBuffers.RowBuffer.BorrowCharAt | src/text_buffer/row_buffer.rs:43-45 | the char at the index; an index past the end is excluded (it panics) |
| RowBuffers.RowBuffer.Insert | src/text_buffer/row_buffer.rs:48-55 | the row becomes `InsertAt` of the old row and the cached length stays equal to the row's length |
| RowBuffers.RowBuffer.Delete | src/text_buffer/row_buffer.rs:56-63 | for `index < length` (else panic) the row becomes `DeleteAt` of the old row, length one less |
| RowBuffers.RowBuffer.RemoveFrom | src/text_buffer/row_buffer.rs:64-71 | the loop returns the old chars from `index` on, in order, and leaves the head; head ++ returned == old row; the length becomes `index` |
| RowBuffers.RowBuffer.AppendMbVecAtEnd | src/text_buffer/row_buffer.rs:72-75 | the row becomes old row ++ vec and the length grows by the vec's length |
| RowBuffers.RowBuffer.UnwrapToGetData | src/text_buffer/row_buffer.rs:76-78 | hands back the row's chars, as many as the cached length |
| RowBuffers.RowBuffer.Fmt | src/text_buffer/row_buffer.rs:81-89 | the loop renders exactly the row's chars in order, nothing added |
| TextBuffers.TrimEnd | src/text_buffer/mod.rs:27 | the result is a prefix of the line that does not end in whitespace, and everything cut off is whitespace |
| TextBuffers.FirstNewline | src/text_buffer/mod.rs:26 | the index of the first newline, or the length when there is none |
| TextBuffers.Lines | src/text_buffer/mod.rs:26 | no line holds a newline; the text is empty exactly when there are no lines; the lines are the text cut at each newline (`SerialiseLines`); a '\r' before a newline stays in the line and is removed by `TrimEnd` |
| TextBuffers.Serialise | src/text_buffer/mod.rs:95-97 | the written text is empty exactly when there are no rows, and otherwise ends in a newline |
| TextBuffers.SerialiseLines | src/text_buffer/mod.rs:26 | writing the lines of a text back out gives the text, with a final newline added when it had none |
| TextBuffers.ParseRows | src/text_buffer/mod.rs:23-29 | one row per line, each the line with trailing whitespace cut |
| TextBuffers.SerialiseAppend | src/text_buffer/mod.rs:95-97 | writing one more row appends its text and a newline to what is written |
| TextBuffers.SerialiseNewlines | src/text_buffer/mod.rs:95-97 | the written text holds exactly one newline per row |
| TextBuffers.LinesSerialise | src/text_buffer/mod.rs:26 | cutting the written text into lines gives the rows back when no row holds a newline |
| TextBuffers.FirstNewlineAfter | src/text_buffer/mod.rs:26 | the first newline of a written row followed by the rest is right after that row |
| TextBuffers.ParseSerialise | src/text_buffer/mod.rs:23-29 | parsing what `save` writes gives the same rows, for rows without newlines or trailing whitespace |
| TextBuffers.Buffer.NewFromFile | src/text_buffer/mod.rs:22-38 | a readable file gives one row per parsed line (none for empty content); an unreadable one gives one empty row; the path is kept, status Saved, the row count cached |
| TextBuffers.Buffer.NewEmpty | src/text_buffer/mod.rs:39-46 | exactly one empty row, no path, Unsaved |
| TextBuffers.Buffer.BorrowRowAt | src/text_buffer/mod.rs:49-51 | the row object at the index holds that row's text |
| TextBuffers.Buffer.BorrowCharAt | src/text_buffer/mod.rs:52-54 | the char at (col, row) of the text |
| TextBuffers.Buffer.GetLenght | src/text_buffer/mod.rs:57-59 | the cached count is the number of rows |
| TextBuffers.Buffer.GetLenghtOfRow | src/text_buffer/mod.rs:60-62 | the length of that row's text |
| TextBuffers.Buffer.GetPath | src/text_buffer/mod.rs:63-65 | the stored path |
| TextBuffers.Buffer.IsEmpty | src/text_buffer/mod.rs:75-77 | true exactly when there are no rows |
| TextBuffers.Buffer.RowIsEmpty | src/text_buffer/mod.rs:78-80 | true exactly when that row has no chars |
| TextBuffers.Buffer.GetStatus | src/text_buffer/mod.rs:82-84 | the stored status |
| TextBuffers.Buffer.Save | src/text_buffer/mod.rs:90-108 | with a path and a creatable file, the loop writes every row followed by a newline, in order, and the status is Saved; otherwise nothing is written and it is Unsaved; the rows and path are untouched |
| TextBuffers.Buffer.SaveAs | src/text_buffer/mod.rs:109-118 | on success the new path is kept and the status is Saved; on failure the path is None again and the status Unsaved |
| TextBuffers.Buffer.ClearPath | src/text_buffer/mod.rs:119-121 | only the path changes, to None |
| TextBuffers.Buffer.InsertChar | src/text_buffer/mod.rs:124-127 | only the addressed row changes, by `InsertAt`; Unsaved |
| TextBuffers.Buffer.InsertRowAt | src/text_buffer/mod.rs:128-132 | an empty row at the index, later rows shifted down by one, count one more; Unsaved |
| TextBuffers.Buffer.InsertRowAtWithVec | src/text_buffer/mod.rs:133-137 | a row holding the vec at the index, later rows shifted down by one, count one more; Unsaved |
| TextBuffers.Buffer.InsertRowObject | src/text_buffer/mod.rs:129-131 | the new row object goes in at the index and the cached count follows |
| TextBuffers.Buffer.DeleteChar | src/text_buffer/mod.rs:138-141 | only the addressed row changes, by `DeleteAt`; Unsaved |
| TextBuffers.Buffer.RemoveRowFrom | src/text_buffer/mod.rs:142-145 | returns the row's tail from `col`, leaves its head, keeps the row count; Unsaved |
| TextBuffers.Buffer.RemoveRowToGetData | src/text_buffer/mod.rs:146-150 | returns the row's chars, removes it, later rows shift up by one, count one less; Unsaved |
| TextBuffers.Buffer.PushVecToRow | src/text_buffer/mod.rs:151-154 | only the addressed row changes, to old row ++ vec; Unsaved |
| TextBuffers.ReloadAfterSave | src/text_buffer/mod.rs:90-108 | building a buffer from what `save` wrote gives the same rows and path, Saved, for rows without newlines or trailing whitespace |
| TextBuffers.SaveTwice | src/text_buffer/mod.rs:90-108 | two saves with nothing in between, the file system answering alike, write the same text; two successful saves both write the rows and end Saved; with a path and both saves failing, or with no path, neither writes and the status is Unsaved |
| Cursors.Cursor.New | src/editor/cursor.rs:8-10 | the cursor starts at (0, 0) |
| Cursors.Cursor.GetCol | src/editor/cursor.rs:13-15 | the stored column |
| Cursors.Cursor.GetRow | src/editor/cursor.rs:16-18 | the stored row |
| Cursors.Cursor.SetCol | src/editor/cursor.rs:19-21 | the column becomes the value; the row is unchanged |
| Cursors.Cursor.SetColRow | src/editor/cursor.rs:22-25 | both fields are set exactly |
| Sizes.Size.New | src/terminal/size.rs:9-14 | the library's `(u16, u16)` pair widened without loss into cols and rows |
| Sizes.Size.GetCols | src/terminal/size.rs:17-19 | the stored width |
| Sizes.Size.GetRows | src/terminal/size.rs:20-22 | the stored height |
| Sizes.Size.Set | src/terminal/size.rs:23-26 | both fields are overwritten and the getters return them; setting the current values leaves the size as it was |
| Modes.NewMode | src/editor/mode/mod.rs:14-16 | a new mode is Navigation and no other |
| Modes.Mode.SwitchToNavigation | src/editor/mode/mod.rs:17-19 | whatever the mode before, it is Navigation after |
| Modes.Mode.SwitchToEdition | src/editor/mode/mod.rs:20-22 | whatever the mode before, it is Edition after |
| Modes.Mode.SwitchToSelection | src/editor/mode/mod.rs:23-25 | whatever the mode before, it is Selection after |
| Modes.Mode.IsNavigationMode | src/editor/mode/mod.rs:26-32 | true exactly in Navigation |
| Modes.Mode.IsEditionMode | src/editor/mode/mod.rs:33-39 | true exactly in Edition |
| Modes.Mode.IsSelectionMode | src/editor/mode/mod.rs:40-46 | true exactly in Selection |
| Modes.ExactlyOneMode | src/editor/mode/mod.rs:26-46 | in every mode exactly one of the three queries holds |
| Modes.SwitchToCurrentIsIdentity | src/editor/mode/mod.rs:17-25 | switching to the current mode changes nothing, and switching twice is switching once |
| Events.SingleKeyPressed | src/terminal/event.rs:22-35 | each of the nine handled codes becomes `KeyPressed` of the key of the same name, a char kept; every other code is Unknown; never a resize |
| Events.KeyPressedWithControl | src/terminal/event.rs:36-49 | the same keys wrapped in `CtrlKeyPressed`, Unknown for every other code; never a resize |
| Events.CodeOf | src/terminal/event.rs:22-35 | the code each key is read from; never one of the unhandled codes |
| Events.EveryKeyIsReachable | src/terminal/event.rs:22-49 | every key comes out of both translations, from its own code |
| Events.ControlMirrorsSingle | src/terminal/event.rs:36-48 | the Ctrl translation is Unknown exactly when the plain one is, and otherwise wraps the same key |
| Launcher.CheckPathArg | src/main.rs:6-18 | an argument with any of `< > : " / \ \| ? *` is refused and the char reported is the first offender in scan order; no argument starts the editor with None; a clean argument is passed on unchanged |
| Launcher.PromptIsLaxerThanArgument | src/main.rs:10 | every char the save prompt ignores is refused as an argument; only '/' and '\\' are refused as an argument yet accepted by the prompt |
| EditorSteps.Min | src/editor/mod.rs:61-64 | the smaller of the two |
| EditorSteps.Caret | src/editor/mod.rs:138-141 | the caret is the cursor minus the offsets; under the viewport invariant its screen row is at most termRows − 2 (or 0) and its column at most termCols, one past the last visible column |
| EditorSteps.VerticalColOffset | src/editor/mod.rs:67-72 | no offset while the new column fits; the offset stays at or left of the column exactly when the column fits or the entered row is at most one width longer than it |
| EditorSteps.MoveUp | src/editor/mod.rs:55-74 | no-op on row 0; otherwise row − 1, column clamped to the row above; the row offset drops only from the top visible row, so the row invariant is kept; the column offset is left of the cursor exactly under `VerticalColOffset`'s condition |
| EditorSteps.MoveDown | src/editor/mod.rs:75-94 | no-op on the last row; otherwise row + 1 with the same clamp; the row offset grows exactly when the screen row had reached rows − 2, so it never passes it; the same column-offset condition |
| EditorSteps.MoveLeft | src/editor/mod.rs:95-104 | no-op at column 0; otherwise column − 1, the column offset dropping with it exactly at the left screen edge; the offset stays at or left of the cursor |
| EditorSteps.MoveRight | src/editor/mod.rs:105-112 | no-op at the row's end; otherwise column + 1, at most the row length, the column offset growing by one exactly when the screen column reached the last one |
| EditorSteps.TypeChar | src/editor/mod.rs:169-173 | the char goes into the cursor's row at the cursor (other rows unchanged) and the cursor lands right after it; the column offset grows by one exactly when the old screen column was the last or past it, as the move right does; row offset and terminal size unchanged; the invariant is kept |
| EditorSteps.JoinWithAbove | src/editor/mod.rs:189-194 | the row is appended onto the row above and removed; earlier and later rows keep their text, count one less |
| EditorSteps.BackspaceStep | src/editor/mod.rs:184-195 | inside a row, deletes the char left of the cursor and moves left, the column offset dropping by one when the cursor was at the left edge; at column 0 of a lower row, joins onto the row above with the cursor at the old length of that row and both offsets unchanged, keeping the viewport exactly when the row was not the top visible one and the row above fits the width; at (0, 0) nothing |
| EditorSteps.EnterStep | src/editor/mod.rs:196-208 | the row is split at the cursor into head and a new row below holding the tail (at the end, an empty row), head ++ tail == old row, other rows shifted; cursor at (0, row + 1); the row offset grows by one exactly when the old screen row had reached `termRows - 2`, as the move down does; the column offset is the vertical-move offset computed from the tail's length; the column invariant holds exactly when the move down set no offset |
| EditorSteps.GoodStateIsSafe | src/editor/mod.rs:166-183 | from a state satisfying the invariant, no key handler panics |
| EditorSteps.KeyStep | src/editor/mod.rs:166-183 | the dispatch keeps the cursor in the text and the terminal size; Tab and Esc change nothing |
| EditorSteps.KeyStepKeepsGood | src/editor/mod.rs:166-208 | every key under `KeepsViewport` takes a state with the invariant to one with it |
| EditorSteps.RunKeys | src/editor/mod.rs:293-307 | the key handlers applied in turn, None as soon as one would panic; a run never changes the terminal size |
| EditorSteps.RunKeysStaysGood | src/editor/mod.rs:298-301 | from a state with the invariant, a run of keys each of which is defined and keeps the viewport in the state it meets never panics, and the invariant holds after every key, derived step by step |
| EditorSteps.RunKeysKeepsCursor | src/editor/mod.rs:298-301 | any run of keys that does not panic keeps the cursor inside the text |
| EditorSteps.ScrollOffset | src/editor/mod.rs:77-79 | the offset that scrolling down settles on: none while the cursor's row is above line termRows − 2, then the one that keeps it on that line, just above the status bar |
| EditorSteps.DownsScroll | src/editor/mod.rs:75-79 | n presses of Down reach n rows further, with the row offset 0 until the cursor reaches line termRows − 2, just above the status bar, and one more per row after that |
| EditorSteps.TypeTwoLines | src/editor/mod.rs:166-208 | typing "hi", Enter, "x" into an empty buffer gives rows "hi" and "x" and the cursor at (1, 1) |
| EditorSteps.BackspaceJoinsRows | src/editor/mod.rs:184-195 | Backspace at the start of "def" below "abc" gives "abcdef" with the cursor at (3, 0) |
| EditorSteps.EnterSplitsRow | src/editor/mod.rs:196-208 | Enter at column 3 of "abcdef" gives "abc" and "def" with the cursor at (0, 1) |
| EditorSteps.MoveDownCanPassCursor | src/editor/mod.rs:87-92 | a move down onto a longer row can set the column offset past the cursor (10 columns, column 10, row of 100 gives 90) |
| EditorSteps.MoveUpCanPassCursor | src/editor/mod.rs:67-72 | the same for a move up |
| EditorSteps.JoinOnTopRowLeavesViewport | src/editor/mod.rs:189-194 | a Backspace join on the top visible row leaves the cursor's row above the row offset |
| EditorSteps.EnterMidLineCanPassCursor | src/editor/mod.rs:200-207 | Enter in a scrolled row resets the column to 0 while the move down left a positive column offset |
| PathPrompt.CharUtf8Len | src/editor/mod.rs:252 | a char takes 1 to 4 bytes in UTF-8 |
| PathPrompt.Utf8Len | src/editor/mod.rs:252 | the string's byte length lies between its char count and four times it |
| PathPrompt.FirstEnd | src/editor/mod.rs:266-270 | the index of the first Enter or Esc, none before it |
| PathPrompt.Step | src/editor/mod.rs:249-274 | a char is kept only if it is not one of `< > : " \| ? *` and the byte length + 7 is below the width; Backspace drops the last char only of a non-empty text; a resize changes only the size; anything else changes nothing |
| PathPrompt.Run | src/editor/mod.rs:248-280 | the prompt's state when the first Enter or Esc arrives; the text is cleared when that is Esc |
| PathPrompt.Outcome | src/editor/mod.rs:282-286 | no path exactly for an empty text, else the text |
| PathPrompt.RunRejectsChars | src/editor/mod.rs:251-262 | the text chosen never holds a rejected char |
| PathPrompt.EscChoosesNothing | src/editor/mod.rs:267-270 | ending with Esc chooses no path, whatever was typed |
| PathPrompt.RunKeepsSizeWithoutResize | src/editor/mod.rs:248-280 | without a resize the prompt ends with the size it started with |
| PathPrompt.RunFitsWidth | src/editor/mod.rs:251-262 | without a resize the chosen text stays at least 3 bytes short of the width |
| PathPrompt.Utf8LenPrefix | src/editor/mod.rs:264 | dropping the last char shortens the byte length |
| Editors.InitialRows | src/editor/mod.rs:36-39 | no argument or an unreadable file gives one empty row, a readable file its parsed rows |
| Editors.EmptyFileHasNoRows | src/text_buffer/mod.rs:26-31 | a readable empty file gives no row, on which typing, Enter and the right arrow would index past the end |
| Editors.TypedTrailingSpaceIsLostOnReload | src/text_buffer/mod.rs:27 | typing "a " into an empty buffer gives the row "a ", and parsing what saving it writes gives "a": a save and reload drops trailing whitespace the user typed |
| Editors.InitialGood | src/editor/mod.rs:32-44 | whenever there is a row, the start state (cursor and offsets at 0) satisfies the viewport invariant |
| Editors.Editor.New | src/editor/mod.rs:32-44 | not quitting, cursor and offsets at 0, the terminal's size, the initial rows; path and status as the buffer constructor gives them |
| Editors.Editor.WindowResized | src/terminal/mod.rs:120-130 | a resize changes only the terminal size |
| Editors.Editor.MoveCursorUp | src/editor/mod.rs:55-74 | the new state is `MoveUp` of the old one |
| Editors.Editor.MoveCursorDown | src/editor/mod.rs:75-94 | the new state is `MoveDown` of the old one |
| Editors.Editor.MoveCursorLeft | src/editor/mod.rs:95-104 | the new state is `MoveLeft` of the old one |
| Editors.Editor.MoveCursorRight | src/editor/mod.rs:105-112 | the new state is `MoveRight` of the old one |
| Editors.Editor.KeyPressed | src/editor/mod.rs:166-183 | the new state is `KeyStep` of the old one; the buffer is Unsaved exactly after an edit, the path unchanged |
| Editors.Editor.BackspaceKeyPressed | src/editor/mod.rs:184-195 | the new state is `BackspaceStep` of the old one; Unsaved unless at (0, 0) |
| Editors.Editor.EnterKeyPressed | src/editor/mod.rs:196-208 | the new state is `EnterStep` of the old one; Unsaved |
| Editors.Editor.KeyPressedWithCtrl | src/editor/mod.rs:209-240 | Ctrl+C sets the quit flag and nothing else; Ctrl+S with a path saves and drops the path on failure; without one it saves under the prompt's answer, or does nothing when there is none; rows and offsets never change |
| Editors.Editor.AskUserForPath | src/editor/mod.rs:242-287 | the loop ends with the path and size that `PathPrompt.Run` gives for the same events |

## Left out

- Drawing, the status bar, the alternate screen, raw mode, `flush` and the terminal library are not modelled. This covers `Editor::draw`, `draw_status_bar`, `Buffer::get_path_as_str`, `Terminal` and `style.rs`. Only the caret formula of `draw` is kept (`Caret`).
- The painting of the prompt and of the "An error occurred" notice is not modelled. The notice is drawn on line `rows - 2`, which underflows below 2 rows. That appears only as a precondition of `Editors.Editor.KeyPressedWithCtrl` and in `CanPrompt`.
- File reads and writes are parameters: `content` is what `read_to_string` returned, `createOk` whether `File::create` succeeded, and `written` the text written. The panic of `write!(...).unwrap()` on a write error is not modelled.
- Paths are strings. `PathBuf` and its UTF-8 conversion are not modelled.
- `Editor::run` is modelled only through `EditorSteps.RunKeys`, which applies the key handlers to a sequence of keys. The loop itself, its redraws and its reads are not modelled. A resize it reads is `Editors.Editor.WindowResized`.
- `Terminal::read_event` chooses which translation to use from the modifiers. That choice is not modelled; only the two translations of `event.rs` are. Every key code the editor does not handle is gathered into `Other`.
- `Editors.Editor.AskUserForPath` takes the events it reads as a sequence that contains an Enter or Esc. On a stream that never ends the prompt, the source blocks forever.
- `Modes.Mode.SwitchToNavigation`, `SwitchToEdition` and `SwitchToSelection` return the new mode instead of assigning `*self`. A datatype value has no place to update, and nothing in the editor holds a mode.
- `RowBuffers.RowBuffer.AppendMbVecAtEnd` does not model the caller's `&mut Vec` being drained empty, because Dafny sequences are values. The same goes for `TextBuffers.Buffer.PushVecToRow`.
- `RowBuffers.RowBuffer.UnwrapToGetData` reads the row instead of consuming it. The buffer drops the row object from its list itself.
- `usize` is modelled as unbounded `nat`, so overflow of the `+= 1` counters is not modelled. Underflow is modelled, as preconditions.
- The editor imports `BufferResult` while the buffer declares `BufferStatus`. Both are the one datatype `BufferStatus`.
- The column offset after a vertical move is computed from the row being entered, not the row being left, as the code does it.
- A buffer is not guaranteed to have a row: the code gives a readable empty file no row at all (`Editors.EmptyFileHasNoRows`), and the model follows the code.
- A release build (overflow checks off) wraps an underflowing `usize` subtraction around instead of panicking. The model does not capture that behaviour; each such subtraction is a precondition.
- `TextBuffers.Lines` keeps a '\r' before a newline, which `str::lines` strips. `TextBuffers.TrimEnd` removes it from every row afterwards, so `TextBuffers.ParseRows` gives the rows the source gives.
