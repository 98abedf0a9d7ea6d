/**
 * The editor (src/editor/mod.rs): one buffer, the cursor into it, the two
 * scroll offsets and the terminal size, updated in place by the key
 * handlers. Every handler is specified by the function of EditorSteps that
 * gives its new state; the properties are proved there.
 */
module Editors {
  import opened Wrappers
  import opened TextBuffers
  import opened Cursors
  import opened Sizes
  import opened Events
  import opened EditorSteps
  import opened PathPrompt
  import RowBuffers

  /** The rows the editor starts with, for a path argument and what reading it gave. */
  function InitialRows(args: Option<string>, content: Option<string>): (rows: seq<seq<char>>)
    ensures args.None? || content.None? ==> rows == [[]]
    ensures args.Some? && content.Some? ==> rows == ParseRows(content.value)
  {
    if args.Some? && content.Some? then ParseRows(content.value) else [[]]
  }

  /**
   * A readable but empty file gives a buffer with no row at all, on which
   * typing a char, Enter or the right arrow indexes past the end.
   */
  lemma EmptyFileHasNoRows(path: string, cols: nat, rows: nat, c: char)
    ensures InitialRows(Some(path), Some("")) == []
    ensures var v := View([], 0, 0, 0, 0, cols, rows);
            && !KeyPressedDefined(v, Key.Char(c))
            && !KeyPressedDefined(v, Key.Enter)
            && !KeyPressedDefined(v, Key.RightArrow)
  {
    assert Lines("") == [];
  }

  /**
   * The editor starts in a state with the viewport invariant whenever it
   * has a row, so `RunKeysStaysGood` applies from start-up.
   */
  lemma InitialGood(args: Option<string>, content: Option<string>, cols: nat, rows: nat)
    requires InitialRows(args, content) != []
    ensures Good(View(InitialRows(args, content), 0, 0, 0, 0, cols, rows))
  {
  }

  /**
   * Trailing whitespace the user types does not survive a save and a
   * reload: typing "a " gives the row "a ", and parsing what saving it
   * writes gives the row "a".
   */
  lemma TypedTrailingSpaceIsLostOnReload()
    ensures RunKeys(View([[]], 0, 0, 0, 0, 80, 24), [Key.Char('a'), Key.Char(' ')])
            == Some(View([['a', ' ']], 2, 0, 0, 0, 80, 24))
    ensures ParseRows(Serialise([['a', ' ']])) == [['a']]
  {
    var v1 := TypeChar(View([[]], 0, 0, 0, 0, 80, 24), 'a');
    assert v1 == View([['a']], 1, 0, 0, 0, 80, 24);
    assert RowBuffers.InsertAt(['a'], 1, ' ') == ['a', ' '];
    var v2 := TypeChar(v1, ' ');
    assert v2 == View([['a', ' ']], 2, 0, 0, 0, 80, 24);
    var keys := [Key.Char('a'), Key.Char(' ')];
    assert keys[1..] == [Key.Char(' ')] && keys[1..][1..] == [];
    assert RunKeys(v2, []) == Some(v2);
    assert RunKeys(v1, keys[1..]) == RunKeys(v2, []);
    LinesSerialise([['a', ' ']]);
    assert TrimEnd(['a', ' ']) == ['a'] by {
      assert ['a', ' '][..1] == ['a'];
    }
  }

  class Editor {
    /** Set when the user asks to quit (Ctrl+C). */
    var willQuit: bool
    /** The terminal's size; the rest of the terminal is input and output, not modelled. */
    const size: Size
    const textBuffer: Buffer
    const cursor: Cursor
    /** `text_buffer_row_offset`: the buffer row shown on the top terminal line. */
    var rowOffset: nat
    /** `text_buffer_col_offset`: the buffer column shown in the leftmost terminal column. */
    var colOffset: nat

    ghost predicate Valid()
      reads textBuffer, textBuffer.data
    {
      textBuffer.Valid()
    }

    ghost function State(): View
      reads this, cursor, textBuffer, size
    {
      View(textBuffer.Rows, cursor.col, cursor.row, rowOffset, colOffset, size.cols, size.rows)
    }

    /**
     * `args` is the path argument and `content` what reading that file gave
     * (`None` when it could not be read); `size` is what the terminal reports.
     */
    constructor New(args: Option<string>, content: Option<string>, termSize: (u16, u16))
      ensures Valid() && !willQuit
      ensures State() == View(InitialRows(args, content), 0, 0, 0, 0, termSize.0 as nat, termSize.1 as nat)
      ensures textBuffer.path == args
      ensures textBuffer.status == (if args.Some? then Saved else Unsaved)
    {
      willQuit := false;
      size := new Size.New(termSize);
      if args.Some? {
        textBuffer := new Buffer.NewFromFile(args.value, content);
      } else {
        textBuffer := new Buffer.NewEmpty();
      }
      cursor := new Cursor.New();
      rowOffset := 0;
      colOffset := 0;
    }

    /** A resize read by the main loop: only the terminal's size changes. */
    method WindowResized(cols: nat, rows: nat)
      modifies size
      ensures State() == old(State()).(termCols := cols, termRows := rows)
    {
      size.Set(cols, rows);
    }

    method MoveCursorUp()
      requires Valid() && MoveUpDefined(State())
      modifies this, cursor
      ensures Valid() && State() == MoveUp(old(State()))
      ensures willQuit == old(willQuit)
    {
      if cursor.GetRow() > 0 {
        if cursor.GetRow() - rowOffset == 0 {
          rowOffset := rowOffset - 1;
        }
        cursor.SetColRow(
          Min(cursor.GetCol(), textBuffer.GetLenghtOfRow(cursor.GetRow() - 1)),
          cursor.GetRow() - 1);
        if cursor.GetCol() < size.GetCols() {
          colOffset := 0;
        } else {
          colOffset := textBuffer.GetLenghtOfRow(cursor.GetRow()) - size.GetCols();
        }
      }
    }

    method MoveCursorDown()
      requires Valid() && MoveDownDefined(State())
      modifies this, cursor
      ensures Valid() && State() == MoveDown(old(State()))
      ensures willQuit == old(willQuit)
    {
      if cursor.GetRow() + 1 < textBuffer.GetLenght() {
        if cursor.GetRow() - rowOffset + 3 > size.GetRows() {
          rowOffset := rowOffset + 1;
        }
        cursor.SetColRow(
          Min(cursor.GetCol(), textBuffer.GetLenghtOfRow(cursor.GetRow() + 1)),
          cursor.GetRow() + 1);
        if cursor.GetCol() < size.GetCols() {
          colOffset := 0;
        } else {
          colOffset := textBuffer.GetLenghtOfRow(cursor.GetRow()) - size.GetCols();
        }
      }
    }

    method MoveCursorLeft()
      requires Valid() && MoveLeftDefined(State())
      modifies this, cursor
      ensures Valid() && State() == MoveLeft(old(State()))
      ensures willQuit == old(willQuit)
    {
      if cursor.GetCol() - colOffset > 0 {
        cursor.SetCol(cursor.GetCol() - 1);
      } else {
        if colOffset > 0 {
          colOffset := colOffset - 1;
          cursor.SetCol(cursor.GetCol() - 1);
        }
      }
    }

    method MoveCursorRight()
      requires Valid() && MoveRightDefined(State())
      modifies this, cursor
      ensures Valid() && State() == MoveRight(old(State()))
      ensures willQuit == old(willQuit)
    {
      if cursor.GetCol() < textBuffer.GetLenghtOfRow(cursor.GetRow()) {
        if cursor.GetCol() - colOffset + 2 > size.GetCols() {
          colOffset := colOffset + 1;
        }
        cursor.SetCol(cursor.GetCol() + 1);
      }
    }

    /** `key_pressed`: edits the buffer or moves the cursor. */
    method KeyPressed(key: Key)
      requires Valid() && KeyPressedDefined(State(), key)
      modifies this, cursor, textBuffer, textBuffer.data
      ensures Valid() && State() == KeyStep(old(State()), key)
      ensures willQuit == old(willQuit) && textBuffer.path == old(textBuffer.path)
      ensures textBuffer.status == if Edits(old(State()), key) then Unsaved else old(textBuffer.status)
    {
      match key
      case Char(c) =>
        textBuffer.InsertChar(cursor.GetCol(), cursor.GetRow(), c);
        MoveCursorRight();
      case Backspace => BackspaceKeyPressed();
      case Enter => EnterKeyPressed();
      case DownArrow => MoveCursorDown();
      case UpArrow => MoveCursorUp();
      case LeftArrow => MoveCursorLeft();
      case RightArrow => MoveCursorRight();
      case Tab =>
      case Esc =>
    }

    method BackspaceKeyPressed()
      requires Valid() && BackspaceDefined(State())
      modifies this, cursor, textBuffer, textBuffer.data
      ensures Valid() && State() == BackspaceStep(old(State()))
      ensures willQuit == old(willQuit) && textBuffer.path == old(textBuffer.path)
      ensures textBuffer.status == if Edits(old(State()), Key.Backspace) then Unsaved else old(textBuffer.status)
    {
      if cursor.GetCol() > 0 {
        textBuffer.DeleteChar(cursor.GetCol() - 1, cursor.GetRow());
        MoveCursorLeft();
      } else if cursor.GetRow() != 0 {
        var previousLenRowAbove := textBuffer.GetLenghtOfRow(cursor.GetRow() - 1);
        var data := textBuffer.RemoveRowToGetData(cursor.GetRow());
        textBuffer.PushVecToRow(cursor.GetRow() - 1, data);
        cursor.SetColRow(previousLenRowAbove, cursor.GetRow() - 1);
      }
    }

    method EnterKeyPressed()
      requires Valid() && EnterDefined(State())
      modifies this, cursor, textBuffer, textBuffer.data
      ensures Valid() && State() == EnterStep(old(State()))
      ensures willQuit == old(willQuit) && textBuffer.path == old(textBuffer.path)
      ensures textBuffer.status == Unsaved
    {
      if cursor.GetCol() == textBuffer.GetLenghtOfRow(cursor.GetRow()) {
        textBuffer.InsertRowAt(cursor.GetRow() + 1);
        MoveCursorDown();
      } else {
        var vec := textBuffer.RemoveRowFrom(cursor.GetCol(), cursor.GetRow());
        textBuffer.InsertRowAtWithVec(cursor.GetRow() + 1, vec);
        MoveCursorDown();
        cursor.SetCol(0);
      }
    }

    /**
     * Ctrl+C asks to quit. Ctrl+S saves to the buffer's path, dropping the
     * path if that fails; with no path it first asks for one (`events` are
     * the events the prompt reads) and saves under it. `createOk` is whether
     * the file can be created; `written` is the text written to it. The
     * error notice after a failed save is drawn on line `rows - 2`, just
     * above the status bar.
     */
    method KeyPressedWithCtrl(key: Key, createOk: bool, events: seq<Event>) returns (written: Option<string>)
      requires Valid()
      requires key == Key.Char('s') && textBuffer.path.Some? && !createOk ==> size.rows >= 2
      requires key == Key.Char('s') && textBuffer.path.None? ==> CanPrompt(size.rows, events)
      modifies this, textBuffer, size
      ensures Valid() && textBuffer.Rows == old(textBuffer.Rows)
      ensures rowOffset == old(rowOffset) && colOffset == old(colOffset)
      ensures willQuit == (old(willQuit) || key == Key.Char('c'))
      ensures key != Key.Char('s') ==> written == None && unchanged(textBuffer) && unchanged(size)
      ensures key == Key.Char('s') && old(textBuffer.path).Some? ==>
                && unchanged(size)
                && (createOk ==>
                      textBuffer.path == old(textBuffer.path) && textBuffer.status == Saved &&
                      written == Some(Serialise(textBuffer.Rows)))
                && (!createOk ==>
                      textBuffer.path == None && textBuffer.status == Unsaved && written == None)
      ensures key == Key.Char('s') && old(textBuffer.path).None? ==>
                var q := PathPrompt.Run(Prompt([], old(size.cols), old(size.rows)), events);
                && size.cols == q.cols && size.rows == q.rows
                && (Outcome(q).None? ==>
                      written == None && textBuffer.status == old(textBuffer.status) && textBuffer.path == None)
                && (Outcome(q).Some? && createOk ==>
                      textBuffer.path == Outcome(q) && textBuffer.status == Saved &&
                      written == Some(Serialise(textBuffer.Rows)))
                && (Outcome(q).Some? && !createOk ==>
                      textBuffer.path == None && textBuffer.status == Unsaved && written == None)
    {
      written := None;
      if key == Key.Char('c') {
        willQuit := true;
      } else if key == Key.Char('s') {
        if textBuffer.GetPath().Some? {
          var st;
          st, written := textBuffer.Save(createOk);
          if st == Unsaved {
            textBuffer.ClearPath();
          }
        } else {
          var path := AskUserForPath(events);
          if path.Some? {
            var st;
            st, written := textBuffer.SaveAs(path.value, createOk);
          }
        }
      }
    }

    /**
     * `ask_user_for_path`: reads events until Enter or Esc, filtering what is
     * typed; an empty text (or Esc) means no path. A resize that arrives
     * meanwhile is recorded in the terminal's size as it is read.
     */
    method AskUserForPath(events: seq<Event>) returns (path: Option<string>)
      requires CanPrompt(size.rows, events)
      modifies size
      ensures var q := PathPrompt.Run(Prompt([], old(size.cols), old(size.rows)), events);
              path == Outcome(q) && size.cols == q.cols && size.rows == q.rows
    {
      var pathBuffer: string := [];
      var i := 0;
      while !Ends(events[i])
        invariant i <= FirstEnd(events)
        invariant FirstEnd(events[i..]) == FirstEnd(events) - i
        invariant size.rows >= 2
        invariant PathPrompt.Run(Prompt(pathBuffer, size.cols, size.rows), events[i..]) ==
                  PathPrompt.Run(Prompt([], old(size.cols), old(size.rows)), events)
        decreases FirstEnd(events) - i
      {
        var e := events[i];
        assert events[i..][1..] == events[i + 1..];
        match e {
          case KeyPressed(k) =>
            match k {
              case Char(c) =>
                if Utf8Len(pathBuffer) + 7 < size.GetCols() && !IsRejectedPathChar(c) {
                  pathBuffer := pathBuffer + [c];
                }
              case Backspace =>
                if Utf8Len(pathBuffer) > 0 {
                  pathBuffer := pathBuffer[..|pathBuffer| - 1];
                }
              case _ =>
            }
          case WindowResized(c, r) =>
            size.Set(c, r);
          case _ =>
        }
        i := i + 1;
      }
      if events[i] == Event.KeyPressed(Key.Esc) {
        pathBuffer := [];
      }
      if pathBuffer == [] {
        path := None;
      } else {
        path := Some(pathBuffer);
      }
    }
  }
}
