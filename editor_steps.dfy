/**
 * The cursor and viewport arithmetic of src/editor/mod.rs, as functions on
 * a value that gathers what the editor's key handlers read and write: the
 * buffer's rows, the cursor, the two scroll offsets and the terminal size.
 * Each precondition `...Defined` is exactly what keeps the source from
 * panicking (an unsigned subtraction that would go below zero, or an index
 * past the end of a vector).
 */
module EditorSteps {
  import opened Wrappers
  import opened RowBuffers
  import opened Events

  /** `std::cmp::min`. */
  function Min(a: nat, b: nat): (m: nat)
    ensures m <= a && m <= b && (m == a || m == b)
  {
    if a <= b then a else b
  }

  /**
   * The editor's state as the handlers see it: `text` is the buffer's rows,
   * (`col`, `row`) the cursor, `rowOffset`/`colOffset` the buffer coordinates
   * of the top-left visible cell, `termCols`/`termRows` the terminal size.
   */
  datatype View = View(
    text: seq<seq<char>>,
    col: nat,
    row: nat,
    rowOffset: nat,
    colOffset: nat,
    termCols: nat,
    termRows: nat)

  /** The cursor is on an existing row, at most just past its last char. */
  predicate CursorInText(v: View)
  {
    v.row < |v.text| && v.col <= |v.text[v.row]|
  }

  /**
   * The cursor's row is visible and its screen row is at most
   * `termRows - 2`, just above the status bar on the last line, unless it is
   * the top visible row.
   */
  predicate RowOffsetOk(v: View)
  {
    v.rowOffset <= v.row && (v.row - v.rowOffset + 2 <= v.termRows || v.row == v.rowOffset)
  }

  /** The cursor's column is visible: at most one terminal width right of the offset. */
  predicate ColOffsetOk(v: View)
  {
    v.colOffset <= v.col && v.col - v.colOffset <= v.termCols
  }

  predicate ViewportOk(v: View)
  {
    RowOffsetOk(v) && ColOffsetOk(v)
  }

  /** The state every handler is meant to keep. */
  predicate Good(v: View)
  {
    CursorInText(v) && ViewportOk(v)
  }

  /**
   * Where `draw` puts the caret: the cursor relative to the offsets. Both
   * subtractions panic when an offset is past the cursor.
   */
  function Caret(v: View): (p: (nat, nat))
    requires v.colOffset <= v.col && v.rowOffset <= v.row
    ensures p.0 + v.colOffset == v.col && p.1 + v.rowOffset == v.row
    ensures ViewportOk(v) ==> p.0 <= v.termCols && (p.1 + 2 <= v.termRows || p.1 == 0)
  {
    (v.col - v.colOffset, v.row - v.rowOffset)
  }

  /**
   * The column offset chosen after a vertical move: none while the new
   * column fits in one terminal width, otherwise the length of the row just
   * entered minus the width. It stays at or before the cursor exactly when
   * the new column fits or the row is at most one width longer than it.
   */
  function VerticalColOffset(newCol: nat, newLen: nat, cols: nat): (off: nat)
    requires newCol <= newLen
    ensures newCol < cols ==> off == 0
    ensures off <= newCol <==> newCol < cols || newLen <= newCol + cols
    ensures off <= newCol ==> newCol - off <= cols
  {
    if newCol < cols then 0 else newLen - cols
  }

  // ---------------------------------------------------------------------
  // Cursor moves
  // ---------------------------------------------------------------------

  predicate MoveUpDefined(v: View)
  {
    v.row > 0 ==> v.rowOffset <= v.row && v.row - 1 < |v.text|
  }

  /**
   * `move_cursor_up`: one row up, column clamped to the row above; scrolls up
   * only from the top visible row.
   */
  function MoveUp(v: View): (w: View)
    requires MoveUpDefined(v)
    ensures w.text == v.text && w.termCols == v.termCols && w.termRows == v.termRows
    ensures v.row == 0 ==> w == v
    ensures v.row > 0 ==> w.row == v.row - 1 && w.col == Min(v.col, |v.text[v.row - 1]|)
    ensures v.row > 0 ==> w.rowOffset <= w.row &&
                          w.row - w.rowOffset == (if v.row == v.rowOffset then 0 else v.row - v.rowOffset - 1)
    ensures RowOffsetOk(v) ==> RowOffsetOk(w)
    ensures v.row > 0 ==> w.colOffset == if w.col < v.termCols then 0 else |v.text[w.row]| - v.termCols
    ensures v.row > 0 ==> (ColOffsetOk(w) <==> w.col < v.termCols || |v.text[w.row]| <= w.col + v.termCols)
    ensures CursorInText(v) ==> CursorInText(w)
  {
    if v.row > 0 then
      var rowOffset := if v.row - v.rowOffset == 0 then v.rowOffset - 1 else v.rowOffset;
      var newRow := v.row - 1;
      var newCol := Min(v.col, |v.text[newRow]|);
      v.(rowOffset := rowOffset, col := newCol, row := newRow,
         colOffset := VerticalColOffset(newCol, |v.text[newRow]|, v.termCols))
    else
      v
  }

  predicate MoveDownDefined(v: View)
  {
    v.row + 1 < |v.text| ==> v.rowOffset <= v.row
  }

  /**
   * `move_cursor_down`: one row down unless on the last row, column clamped
   * to the row below; scrolls down once the screen row has reached
   * `termRows - 2`, just above the status bar, so it never grows past it.
   */
  function MoveDown(v: View): (w: View)
    requires MoveDownDefined(v)
    ensures w.text == v.text && w.termCols == v.termCols && w.termRows == v.termRows
    ensures v.row + 1 >= |v.text| ==> w == v
    ensures v.row + 1 < |v.text| ==> w.row == v.row + 1 && w.col == Min(v.col, |v.text[v.row + 1]|)
    ensures v.row + 1 < |v.text| ==> w.rowOffset <= w.row &&
                                     (w.rowOffset == v.rowOffset + 1 <==> v.row - v.rowOffset + 3 > v.termRows) &&
                                     (w.rowOffset == v.rowOffset <==> v.row - v.rowOffset + 3 <= v.termRows)
    ensures RowOffsetOk(v) ==> RowOffsetOk(w)
    ensures v.row + 1 < |v.text| ==>
              w.colOffset == if w.col < v.termCols then 0 else |v.text[w.row]| - v.termCols
    ensures v.row + 1 < |v.text| ==> (ColOffsetOk(w) <==> w.col < v.termCols || |v.text[w.row]| <= w.col + v.termCols)
    ensures CursorInText(v) ==> CursorInText(w)
  {
    if v.row + 1 < |v.text| then
      var rowOffset := if v.row - v.rowOffset + 3 > v.termRows then v.rowOffset + 1 else v.rowOffset;
      var newRow := v.row + 1;
      var newCol := Min(v.col, |v.text[newRow]|);
      v.(rowOffset := rowOffset, col := newCol, row := newRow,
         colOffset := VerticalColOffset(newCol, |v.text[newRow]|, v.termCols))
    else
      v
  }

  predicate MoveLeftDefined(v: View)
  {
    v.colOffset <= v.col
  }

  /**
   * `move_cursor_left`: one column left; scrolls left with it when the cursor
   * is at the left edge of the screen; nothing at column 0.
   */
  function MoveLeft(v: View): (w: View)
    requires MoveLeftDefined(v)
    ensures w.text == v.text && w.row == v.row && w.rowOffset == v.rowOffset
    ensures w.termCols == v.termCols && w.termRows == v.termRows
    ensures v.col == 0 ==> w == v
    ensures v.col > 0 ==> w.col == v.col - 1
    ensures v.col > 0 ==> (w.colOffset < v.colOffset <==> v.col == v.colOffset) && w.colOffset + 1 >= v.colOffset
    ensures v.col > v.colOffset ==> w.colOffset == v.colOffset
    ensures w.colOffset <= w.col
    ensures ColOffsetOk(v) ==> ColOffsetOk(w)
    ensures CursorInText(v) ==> CursorInText(w)
  {
    if v.col - v.colOffset > 0 then
      v.(col := v.col - 1)
    else if v.colOffset > 0 then
      v.(colOffset := v.colOffset - 1, col := v.col - 1)
    else
      v
  }

  predicate MoveRightDefined(v: View)
  {
    v.row < |v.text| && (v.col < |v.text[v.row]| ==> v.colOffset <= v.col)
  }

  /**
   * `move_cursor_right`: one column right unless at the end of the row;
   * scrolls right with it once the screen column reaches the last one.
   */
  function MoveRight(v: View): (w: View)
    requires MoveRightDefined(v)
    ensures w.text == v.text && w.row == v.row && w.rowOffset == v.rowOffset
    ensures w.termCols == v.termCols && w.termRows == v.termRows
    ensures v.col >= |v.text[v.row]| ==> w == v
    ensures v.col < |v.text[v.row]| ==> w.col == v.col + 1 && w.col <= |v.text[v.row]|
    ensures v.col < |v.text[v.row]| ==> (w.colOffset > v.colOffset <==> v.col - v.colOffset + 1 >= v.termCols) &&
                                        v.colOffset <= w.colOffset <= v.colOffset + 1
    ensures ColOffsetOk(v) ==> ColOffsetOk(w)
    ensures CursorInText(v) ==> CursorInText(w)
  {
    if v.col < |v.text[v.row]| then
      var colOffset := if v.col - v.colOffset + 2 > v.termCols then v.colOffset + 1 else v.colOffset;
      v.(colOffset := colOffset, col := v.col + 1)
    else
      v
  }

  // ---------------------------------------------------------------------
  // Edits
  // ---------------------------------------------------------------------

  predicate TypeCharDefined(v: View)
  {
    v.row < |v.text| && (v.col <= |v.text[v.row]| ==> v.colOffset <= v.col)
  }

  /**
   * A printable key: the char goes in at the cursor (or at the end of the
   * row when the cursor is past it) and the cursor moves right past it.
   */
  function TypeChar(v: View, c: char): (w: View)
    requires TypeCharDefined(v)
    ensures w.text == v.text[v.row := InsertAt(v.text[v.row], v.col, c)]
    ensures w.row == v.row && w.rowOffset == v.rowOffset
    ensures w.termCols == v.termCols && w.termRows == v.termRows
    ensures CursorInText(v) ==> w.col == v.col + 1 && CursorInText(w) && w.text[w.row][w.col - 1] == c
    ensures CursorInText(v) ==>
              w.colOffset == if v.col - v.colOffset + 2 > v.termCols then v.colOffset + 1 else v.colOffset
    ensures Good(v) ==> Good(w)
  {
    MoveRight(v.(text := v.text[v.row := InsertAt(v.text[v.row], v.col, c)]))
  }

  predicate BackspaceDefined(v: View)
  {
    && (v.col > 0 ==> v.row < |v.text| && v.col - 1 < |v.text[v.row]| && v.colOffset <= v.col)
    && (v.col == 0 && v.row != 0 ==> v.row < |v.text|)
  }

  /** Row `row` removed and its chars appended to the row above. */
  function JoinWithAbove(text: seq<seq<char>>, row: nat): (t: seq<seq<char>>)
    requires 0 < row < |text|
    ensures |t| == |text| - 1
    ensures t[..row - 1] == text[..row - 1]
    ensures t[row - 1] == text[row - 1] + text[row]
    ensures t[row..] == text[row + 1..]
  {
    var removed := text[..row] + text[row + 1..];
    removed[row - 1 := removed[row - 1] + text[row]]
  }

  /**
   * Backspace: inside a row, deletes the char left of the cursor and moves
   * left; at the start of a row, joins it onto the row above and puts the
   * cursor at the join point, leaving both offsets alone; at (0, 0), nothing.
   */
  function BackspaceStep(v: View): (w: View)
    requires BackspaceDefined(v)
    ensures w.termCols == v.termCols && w.termRows == v.termRows
    ensures v.col > 0 ==> w.text == v.text[v.row := DeleteAt(v.text[v.row], v.col - 1)] &&
                          w.row == v.row && w.col == v.col - 1 && w.rowOffset == v.rowOffset
    ensures v.col > 0 ==> w.colOffset == if v.col == v.colOffset then v.colOffset - 1 else v.colOffset
    ensures v.col == 0 && v.row > 0 ==> w.text == JoinWithAbove(v.text, v.row) &&
                                        w.row == v.row - 1 && w.col == |v.text[v.row - 1]| &&
                                        w.rowOffset == v.rowOffset && w.colOffset == v.colOffset
    ensures v.col == 0 && v.row == 0 ==> w == v
    ensures CursorInText(v) ==> CursorInText(w)
    ensures Good(v) && v.col > 0 ==> Good(w)
    ensures Good(v) && v.col == 0 && v.row > 0 ==>
              (ViewportOk(w) <==> v.rowOffset < v.row && |v.text[v.row - 1]| <= v.termCols)
  {
    if v.col > 0 then
      MoveLeft(v.(text := v.text[v.row := DeleteAt(v.text[v.row], v.col - 1)]))
    else if v.row != 0 then
      v.(text := JoinWithAbove(v.text, v.row), col := |v.text[v.row - 1]|, row := v.row - 1)
    else
      v
  }

  predicate EnterDefined(v: View)
  {
    v.row < |v.text| && v.col <= |v.text[v.row]| && v.rowOffset <= v.row
  }

  /**
   * Enter: at the end of a row, opens an empty row below; elsewhere moves the
   * tail from the cursor into a new row below. Either way the cursor goes to
   * column 0 of the new row, but the column offset is the one the move down
   * computed from the new row's length.
   */
  function EnterStep(v: View): (w: View)
    requires EnterDefined(v)
    ensures w.termCols == v.termCols && w.termRows == v.termRows
    ensures |w.text| == |v.text| + 1
    ensures w.text[..v.row] == v.text[..v.row] && w.text[v.row + 2..] == v.text[v.row + 1..]
    ensures w.text[v.row] == v.text[v.row][..v.col] && w.text[v.row + 1] == v.text[v.row][v.col..]
    ensures w.text[v.row] + w.text[v.row + 1] == v.text[v.row]
    ensures w.row == v.row + 1 && w.col == 0 && CursorInText(w)
    ensures w.rowOffset == if v.row - v.rowOffset + 3 > v.termRows then v.rowOffset + 1 else v.rowOffset
    ensures var tail := |v.text[v.row]| - v.col;
            w.colOffset == VerticalColOffset(Min(v.col, tail), tail, v.termCols)
    ensures RowOffsetOk(v) ==> RowOffsetOk(w)
    ensures ColOffsetOk(w) <==> w.colOffset == 0
    ensures w.colOffset == 0 <==>
              Min(v.col, |v.text[v.row]| - v.col) < v.termCols || |v.text[v.row]| - v.col == v.termCols
  {
    var line := v.text[v.row];
    if v.col == |line| then
      var grown := v.text[..v.row + 1] + [[]] + v.text[v.row + 1..];
      assert grown[v.row + 1] == [];
      MoveDown(v.(text := grown))
    else
      var cut := v.text[v.row := line[..v.col]];
      var split := cut[..v.row + 1] + [line[v.col..]] + cut[v.row + 1..];
      assert split[v.row + 1] == line[v.col..];
      assert split[v.row] + split[v.row + 1] == line;
      MoveDown(v.(text := split)).(col := 0)
  }

  // ---------------------------------------------------------------------
  // Key dispatch
  // ---------------------------------------------------------------------

  predicate KeyPressedDefined(v: View, key: Key)
  {
    match key
    case Char(_) => TypeCharDefined(v)
    case Backspace => BackspaceDefined(v)
    case Enter => EnterDefined(v)
    case DownArrow => MoveDownDefined(v)
    case UpArrow => MoveUpDefined(v)
    case LeftArrow => MoveLeftDefined(v)
    case RightArrow => MoveRightDefined(v)
    case Tab => true
    case Esc => true
  }

  /** From a good state no handled key panics. */
  lemma GoodStateIsSafe(v: View, key: Key)
    requires Good(v)
    ensures KeyPressedDefined(v, key)
  {
  }

  /** `key_pressed`: the handler for each key; Tab and Esc do nothing. */
  function KeyStep(v: View, key: Key): (w: View)
    requires KeyPressedDefined(v, key)
    ensures key.Tab? || key.Esc? ==> w == v
    ensures w.termCols == v.termCols && w.termRows == v.termRows
    ensures CursorInText(v) ==> CursorInText(w)
  {
    match key
    case Char(c) => TypeChar(v, c)
    case Backspace => BackspaceStep(v)
    case Enter => EnterStep(v)
    case DownArrow => MoveDown(v)
    case UpArrow => MoveUp(v)
    case LeftArrow => MoveLeft(v)
    case RightArrow => MoveRight(v)
    case Tab => v
    case Esc => v
  }

  /** The keys that change the buffer, and so mark it Unsaved. */
  predicate Edits(v: View, key: Key)
  {
    key.Char? || key.Enter? || (key.Backspace? && (v.col > 0 || v.row != 0))
  }

  /**
   * When a key keeps the viewport invariant: the vertical moves only when
   * the column offset they compute stays at or before the new column, a join
   * by Backspace only below the top visible row and onto a row that fits the
   * width, Enter only when the move down leaves no column offset.
   */
  predicate KeepsViewport(v: View, key: Key)
    requires CursorInText(v)
  {
    match key
    case UpArrow =>
      v.row == 0 ||
      var newCol := Min(v.col, |v.text[v.row - 1]|);
      newCol < v.termCols || |v.text[v.row - 1]| <= newCol + v.termCols
    case DownArrow =>
      v.row + 1 >= |v.text| ||
      var newCol := Min(v.col, |v.text[v.row + 1]|);
      newCol < v.termCols || |v.text[v.row + 1]| <= newCol + v.termCols
    case Backspace =>
      v.col > 0 || v.row == 0 || (v.rowOffset < v.row && |v.text[v.row - 1]| <= v.termCols)
    case Enter =>
      var tail := |v.text[v.row]| - v.col;
      Min(v.col, tail) < v.termCols || tail == v.termCols
    case _ => true
  }

  /** Every key under its condition takes a good state to a good state. */
  lemma KeyStepKeepsGood(v: View, key: Key)
    requires Good(v) && KeepsViewport(v, key)
    ensures KeyPressedDefined(v, key) && Good(KeyStep(v, key))
  {
    match key
    case UpArrow =>
      var w := MoveUp(v);
      if v.row > 0 {
        assert ColOffsetOk(w);
      }
    case DownArrow =>
      var w := MoveDown(v);
      if v.row + 1 < |v.text| {
        assert ColOffsetOk(w);
      }
    case Enter =>
      var w := EnterStep(v);
      assert w.colOffset == 0;
    case _ =>
  }

  /** The handlers applied to a sequence of keys; `None` when one of them would panic. */
  function RunKeys(v: View, keys: seq<Key>): (r: Option<View>)
    ensures r.Some? ==> r.value.termCols == v.termCols && r.value.termRows == v.termRows
    decreases |keys|
  {
    if keys == [] then Some(v)
    else if !KeyPressedDefined(v, keys[0]) then None
    else RunKeys(KeyStep(v, keys[0]), keys[1..])
  }

  /**
   * Every key of the sequence, in the state it meets, is defined and keeps
   * the viewport; the invariant itself is only assumed of the first state.
   */
  predicate AllKeep(v: View, keys: seq<Key>)
    decreases |keys|
  {
    keys == [] ||
    (&& CursorInText(v) && KeyPressedDefined(v, keys[0]) && KeepsViewport(v, keys[0])
     && AllKeep(KeyStep(v, keys[0]), keys[1..]))
  }

  /**
   * From a good state, a run of keys each of which keeps the viewport never
   * panics and ends in a good state: `Good` is carried from key to key.
   */
  lemma {:induction false} RunKeysStaysGood(v: View, keys: seq<Key>)
    requires Good(v) && AllKeep(v, keys)
    ensures RunKeys(v, keys).Some? && Good(RunKeys(v, keys).value)
    decreases |keys|
  {
    if keys != [] {
      KeyStepKeepsGood(v, keys[0]);
      RunKeysStaysGood(KeyStep(v, keys[0]), keys[1..]);
    }
  }

  /** Any run that does not panic keeps the cursor inside the text. */
  lemma {:induction false} RunKeysKeepsCursor(v: View, keys: seq<Key>)
    requires CursorInText(v) && RunKeys(v, keys).Some?
    ensures CursorInText(RunKeys(v, keys).value)
    decreases |keys|
  {
    if keys != [] {
      RunKeysKeepsCursor(KeyStep(v, keys[0]), keys[1..]);
    }
  }

  // ---------------------------------------------------------------------
  // Scrolling down and worked examples
  // ---------------------------------------------------------------------

  /**
   * The row offset that moving down from the top settles on: none while the
   * cursor's row is above line `termRows - 2`, then the one that keeps it
   * on that line, just above the status bar.
   */
  function ScrollOffset(row: nat, termRows: nat): (off: nat)
    requires termRows >= 2
    ensures off <= row
    ensures row + 2 <= termRows ==> off == 0
    ensures row + 2 > termRows ==> row - off + 2 == termRows
  {
    if row + 2 <= termRows then 0 else row + 2 - termRows
  }

  /** `n` presses of the down arrow. */
  function Downs(n: nat): (keys: seq<Key>)
    ensures |keys| == n && forall i :: 0 <= i < n ==> keys[i] == Key.DownArrow
  {
    seq(n, _ => Key.DownArrow)
  }

  /**
   * Pressing Down `n` times from a row whose offset is its scroll offset
   * reaches the row `n` further down, with the scroll offset of that row:
   * the offset stays 0 until the cursor reaches line `termRows - 2`, just
   * above the status bar, and then grows by one per move.
   */
  lemma {:induction false} DownsScroll(v: View, n: nat)
    requires v.row + n < |v.text| && v.termRows >= 2
    requires v.rowOffset == ScrollOffset(v.row, v.termRows)
    ensures RunKeys(v, Downs(n)).Some?
    ensures RunKeys(v, Downs(n)).value.row == v.row + n
    ensures RunKeys(v, Downs(n)).value.rowOffset == ScrollOffset(v.row + n, v.termRows)
    decreases n
  {
    if n > 0 {
      var w := MoveDown(v);
      assert w.row == v.row + 1;
      assert w.rowOffset == ScrollOffset(w.row, v.termRows);
      assert Downs(n)[1..] == Downs(n - 1);
      DownsScroll(w, n - 1);
    }
  }

  /** Typing "hi", Enter, "x" into an empty buffer gives rows "hi" and "x", cursor at column 1 of row 1. */
  lemma TypeTwoLines()
    ensures RunKeys(View([[]], 0, 0, 0, 0, 80, 24), [Key.Char('h'), Key.Char('i'), Key.Enter, Key.Char('x')])
            == Some(View([['h', 'i'], ['x']], 1, 1, 0, 0, 80, 24))
  {
    var v0 := View([[]], 0, 0, 0, 0, 80, 24);
    var v1 := TypeChar(v0, 'h');
    assert v1 == View([['h']], 1, 0, 0, 0, 80, 24);
    assert InsertAt(['h'], 1, 'i') == ['h', 'i'];
    var v2 := TypeChar(v1, 'i');
    assert v2 == View([['h', 'i']], 2, 0, 0, 0, 80, 24);
    var v3 := EnterStep(v2);
    assert v3.text == [['h', 'i'], []];
    assert v3 == View([['h', 'i'], []], 0, 1, 0, 0, 80, 24);
    var v4 := TypeChar(v3, 'x');
    assert v4 == View([['h', 'i'], ['x']], 1, 1, 0, 0, 80, 24);
    var keys := [Key.Char('h'), Key.Char('i'), Key.Enter, Key.Char('x')];
    assert keys[1..][1..][1..][1..] == [];
  }

  /** Backspace at the start of "def" below "abc" joins them into "abcdef", cursor at column 3 of row 0. */
  lemma BackspaceJoinsRows()
    ensures BackspaceStep(View([['a', 'b', 'c'], ['d', 'e', 'f']], 0, 1, 0, 0, 80, 24))
            == View([['a', 'b', 'c', 'd', 'e', 'f']], 3, 0, 0, 0, 80, 24)
  {
    var t := JoinWithAbove([['a', 'b', 'c'], ['d', 'e', 'f']], 1);
    assert t[0] == ['a', 'b', 'c', 'd', 'e', 'f'];
  }

  /** Enter at column 3 of "abcdef" splits it into "abc" and "def", cursor at column 0 of row 1. */
  lemma EnterSplitsRow()
    ensures EnterStep(View([['a', 'b', 'c', 'd', 'e', 'f']], 3, 0, 0, 0, 80, 24))
            == View([['a', 'b', 'c'], ['d', 'e', 'f']], 0, 1, 0, 0, 80, 24)
  {
    var w := EnterStep(View([['a', 'b', 'c', 'd', 'e', 'f']], 3, 0, 0, 0, 80, 24));
    assert w.text[0] == ['a', 'b', 'c'] && w.text[1] == ['d', 'e', 'f'];
  }

  // ---------------------------------------------------------------------
  // Where the viewport invariant breaks
  // ---------------------------------------------------------------------

  /** A row of `n` copies of 'a'. */
  function Filler(n: nat): (s: seq<char>)
    ensures |s| == n
  {
    seq(n, _ => 'a')
  }

  /**
   * Moving down from column 10 of a 10-char row onto a 100-char row, in a
   * 10-column terminal, sets the column offset to 90: past the cursor, so
   * `draw` would underflow computing the caret.
   */
  lemma MoveDownCanPassCursor()
    ensures exists v :: Good(v) && MoveDownDefined(v) &&
                        var w := MoveDown(v); w.colOffset > w.col && !ColOffsetOk(w)
  {
    var v := View([Filler(10), Filler(100)], 10, 0, 0, 0, 10, 24);
    var w := MoveDown(v);
    assert w.col == 10 && w.colOffset == 90;
    assert Good(v) && MoveDownDefined(v);
  }

  /** The same with Move Up, from a short row onto a long one above it. */
  lemma MoveUpCanPassCursor()
    ensures exists v :: Good(v) && MoveUpDefined(v) &&
                        var w := MoveUp(v); w.colOffset > w.col && !ColOffsetOk(w)
  {
    var v := View([Filler(100), Filler(10)], 10, 1, 0, 0, 10, 24);
    var w := MoveUp(v);
    assert w.col == 10 && w.colOffset == 90;
    assert Good(v) && MoveUpDefined(v);
  }

  /** Backspace at the start of the top visible row leaves that row above the viewport. */
  lemma JoinOnTopRowLeavesViewport()
    ensures exists v :: Good(v) && BackspaceDefined(v) &&
                        var w := BackspaceStep(v); w.row < w.rowOffset && CursorInText(w)
  {
    var v := View([['a', 'b'], ['c']], 0, 1, 1, 0, 10, 24);
    var w := BackspaceStep(v);
    assert w.row == 0 && w.rowOffset == 1;
    assert Good(v) && BackspaceDefined(v);
  }

  /**
   * Enter at column 15 of a 30-char row, scrolled by 5 in a 10-column
   * terminal: the move down sets the offset to 5, then the column is reset
   * to 0, before the offset.
   */
  lemma EnterMidLineCanPassCursor()
    ensures exists v :: Good(v) && EnterDefined(v) &&
                        var w := EnterStep(v); w.colOffset > w.col
  {
    var v := View([Filler(30)], 15, 0, 0, 5, 10, 24);
    var w := EnterStep(v);
    assert w.col == 0 && w.colOffset == 5;
    assert Good(v) && EnterDefined(v);
  }
}
