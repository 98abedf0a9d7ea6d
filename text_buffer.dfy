/**
 * The text buffer (src/text_buffer/mod.rs): the rows of the open file, the
 * file's path and whether the rows have been written since the last edit.
 * Reading and writing the file are modelled by their text: a parser from the
 * file's contents to rows, and a serialiser from rows to what `save` writes.
 */
module TextBuffers {
  import opened Wrappers
  import opened RowBuffers

  /** `BufferStatus`; the editor imports it under the name `BufferResult`. */
  datatype BufferStatus = Saved | Unsaved

  // ---------------------------------------------------------------------
  // Loading: `read_to_string`, then `lines()` and `trim_end()` per line
  // ---------------------------------------------------------------------

  /** Rust's `char::is_whitespace`: the Unicode White_Space property. */
  predicate IsWhitespace(c: char)
  {
    || ('\U{0009}' <= c <= '\U{000D}') || c == '\U{0020}' || c == '\U{0085}'
    || c == '\U{00A0}' || c == '\U{1680}' || ('\U{2000}' <= c <= '\U{200A}')
    || c == '\U{2028}' || c == '\U{2029}' || c == '\U{202F}' || c == '\U{205F}'
    || c == '\U{3000}'
  }

  /** `str::trim_end`: the longest prefix that does not end in whitespace. */
  function TrimEnd(s: string): (r: string)
    ensures r <= s
    ensures r == [] || !IsWhitespace(r[|r| - 1])
    ensures forall k :: |r| <= k < |s| ==> IsWhitespace(s[k])
  {
    if s == [] then []
    else if IsWhitespace(s[|s| - 1]) then TrimEnd(s[..|s| - 1])
    else s
  }

  /** Index of the first '\n' in `s`, or `|s|` when there is none. */
  function FirstNewline(s: string): (k: nat)
    ensures k <= |s|
    ensures k < |s| ==> s[k] == '\n'
    ensures forall j :: 0 <= j < k ==> s[j] != '\n'
  {
    if s == [] then 0
    else if s[0] == '\n' then 0
    else 1 + FirstNewline(s[1..])
  }

  /**
   * `str::lines`: the text cut at each '\n', with no line after a final
   * '\n'. The '\r' that `lines` also drops before a '\n' is whitespace, so
   * the `trim_end` applied to every line removes it in any case.
   */
  function Lines(s: string): (ls: seq<string>)
    ensures forall i :: 0 <= i < |ls| ==> '\n' !in ls[i]
    ensures s == [] <==> ls == []
    decreases |s|
  {
    if s == [] then []
    else
      var k := FirstNewline(s);
      if k == |s| then [s] else [s[..k]] + Lines(s[k + 1..])
  }

  /** The rows a readable file yields: one per line, trailing whitespace cut. */
  function ParseRows(s: string): (rows: seq<string>)
    ensures |rows| == |Lines(s)|
    ensures forall i :: 0 <= i < |rows| ==> rows[i] == TrimEnd(Lines(s)[i])
  {
    seq(|Lines(s)|, i requires 0 <= i < |Lines(s)| => TrimEnd(Lines(s)[i]))
  }

  // ---------------------------------------------------------------------
  // Saving: every row followed by "\n"
  // ---------------------------------------------------------------------

  /** What `save` writes: each row's text followed by a newline, in order. */
  function Serialise(rows: seq<string>): (s: string)
    ensures s == [] <==> rows == []
    ensures rows != [] ==> s[|s| - 1] == '\n'
  {
    if rows == [] then [] else rows[0] + "\n" + Serialise(rows[1..])
  }

  lemma {:induction false} SerialiseAppend(rows: seq<string>, r: string)
    ensures Serialise(rows + [r]) == Serialise(rows) + r + "\n"
  {
    if rows == [] {
      assert rows + [r] == [r];
    } else {
      assert (rows + [r])[1..] == rows[1..] + [r];
      SerialiseAppend(rows[1..], r);
    }
  }

  /** The written text has exactly one '\n' per row, none elsewhere. */
  lemma {:induction false} SerialiseNewlines(rows: seq<string>)
    requires forall i :: 0 <= i < |rows| ==> '\n' !in rows[i]
    ensures multiset(Serialise(rows))['\n'] == |rows|
  {
    if rows != [] {
      SerialiseNewlines(rows[1..]);
      assert Serialise(rows) == rows[0] + ("\n" + Serialise(rows[1..]));
      assert multiset(rows[0])['\n'] == 0;
    }
  }

  /**
   * The other round trip: writing the lines of a text back out gives the
   * text, with a final newline added when it had none.
   */
  lemma {:induction false} SerialiseLines(s: string)
    ensures Serialise(Lines(s)) == if s == [] || s[|s| - 1] == '\n' then s else s + "\n"
    decreases |s|
  {
    if s != [] {
      var k := FirstNewline(s);
      if k == |s| {
        assert Lines(s) == [s];
        SerialiseCons(s, []);
      } else {
        var rest := s[k + 1..];
        SerialiseLines(rest);
        SerialiseLinesStep(s, k);
      }
    }
  }

  /** The inductive step of `SerialiseLines`, for a text whose first newline is at `k`. */
  lemma SerialiseLinesStep(s: string, k: nat)
    requires k == FirstNewline(s) < |s|
    requires var rest := s[k + 1..];
             Serialise(Lines(rest)) == if rest == [] || rest[|rest| - 1] == '\n' then rest else rest + "\n"
    ensures Serialise(Lines(s)) == if s[|s| - 1] == '\n' then s else s + "\n"
  {
    var head, rest := s[..k], s[k + 1..];
    var t := Serialise(Lines(rest));
    LinesUnfold(s, k);
    SerialiseCons(head, Lines(rest));
    SplitAtNewline(s, k);
    if rest == [] {
      assert s == head + "\n" + t;
    } else if rest[|rest| - 1] == '\n' {
      assert s[|s| - 1] == rest[|rest| - 1];
    } else {
      assert s[|s| - 1] == rest[|rest| - 1];
      assert head + "\n" + (rest + "\n") == (head + "\n" + rest) + "\n";
    }
  }

  lemma LinesUnfold(s: string, k: nat)
    requires k == FirstNewline(s) < |s|
    ensures Lines(s) == [s[..k]] + Lines(s[k + 1..])
  {
  }

  lemma SplitAtNewline(s: string, k: nat)
    requires k < |s| && s[k] == '\n'
    ensures s == s[..k] + "\n" + s[k + 1..]
  {
    assert s == s[..k] + s[k..];
    assert s[k..] == [s[k]] + s[k + 1..];
  }

  lemma SerialiseCons(r: string, rows: seq<string>)
    ensures Serialise([r] + rows) == r + "\n" + Serialise(rows)
  {
    assert ([r] + rows)[0] == r && ([r] + rows)[1..] == rows;
  }

  /** A row that a reload gives back unchanged. */
  predicate Reloadable(r: string)
  {
    '\n' !in r && (r == [] || !IsWhitespace(r[|r| - 1]))
  }

  /**
   * Round trip: parsing what `save` writes gives the rows back, for rows
   * without a newline and without trailing whitespace.
   */
  lemma {:induction false} ParseSerialise(rows: seq<string>)
    requires forall i :: 0 <= i < |rows| ==> Reloadable(rows[i])
    ensures ParseRows(Serialise(rows)) == rows
  {
    LinesSerialise(rows);
    forall i | 0 <= i < |rows|
      ensures TrimEnd(rows[i]) == rows[i]
    {
      assert Reloadable(rows[i]);
    }
  }

  lemma {:induction false} LinesSerialise(rows: seq<string>)
    requires forall i :: 0 <= i < |rows| ==> '\n' !in rows[i]
    ensures Lines(Serialise(rows)) == rows
  {
    if rows != [] {
      var s := Serialise(rows);
      var r := rows[0];
      assert s == r + ("\n" + Serialise(rows[1..]));
      FirstNewlineAfter(r, Serialise(rows[1..]));
      assert s[..|r|] == r;
      assert s[|r| + 1..] == Serialise(rows[1..]);
      LinesSerialise(rows[1..]);
    }
  }

  lemma {:induction false} FirstNewlineAfter(r: string, t: string)
    requires '\n' !in r
    ensures FirstNewline(r + "\n" + t) == |r|
  {
    var s := r + "\n" + t;
    assert forall j :: 0 <= j < |r| ==> s[j] == r[j];
    assert s[|r|] == '\n';
  }

  // ---------------------------------------------------------------------
  // The buffer
  // ---------------------------------------------------------------------

  class Buffer {
    var data: seq<RowBuffer>
    /** Cached number of rows. */
    var lenght: nat
    var path: Option<string>
    var status: BufferStatus
    /** The text of every row, in order. */
    ghost var Rows: seq<seq<char>>

    /**
     * The cached count is the number of rows, each row is valid and holds
     * `Rows[i]`, and no row object appears twice.
     */
    ghost predicate Valid()
      reads this, data
    {
      && lenght == |data| == |Rows|
      && (forall i :: 0 <= i < |data| ==> data[i].Valid() && data[i].data == Rows[i])
      && (forall i, j :: 0 <= i < |data| && 0 <= j < |data| && i != j ==> data[i] != data[j])
    }

    /**
     * `content` is what `read_to_string` returned: `None` when the file
     * could not be read (missing, no permission, not UTF-8).
     */
    constructor NewFromFile(filePath: string, content: Option<string>)
      ensures Valid()
      ensures content.Some? ==> Rows == ParseRows(content.value)
      ensures content.None? ==> Rows == [[]]
      ensures path == Some(filePath) && status == Saved
    {
      var rows: seq<RowBuffer> := [];
      ghost var text: seq<seq<char>> := [];
      if content.Some? {
        var lines := Lines(content.value);
        for i := 0 to |lines|
          invariant |rows| == i && text == ParseRows(content.value)[..i]
          invariant forall k :: 0 <= k < i ==> rows[k].Valid() && rows[k].data == text[k]
          invariant forall k, l :: 0 <= k < i && 0 <= l < i && k != l ==> rows[k] != rows[l]
        {
          var r := new RowBuffer.NewFromStr(TrimEnd(lines[i]));
          rows := rows + [r];
          text := text + [TrimEnd(lines[i])];
        }
      } else {
        var r := new RowBuffer.NewEmpty();
        rows := [r];
        text := [[]];
      }
      lenght := |rows|;
      data := rows;
      Rows := text;
      path := Some(filePath);
      status := Saved;
    }

    constructor NewEmpty()
      ensures Valid()
      ensures Rows == [[]] && path == None && status == Unsaved
    {
      var r := new RowBuffer.NewEmpty();
      data := [r];
      lenght := 1;
      path := None;
      status := Unsaved;
      Rows := [[]];
    }

    function BorrowRowAt(index: nat): (r: RowBuffer)
      reads this, data
      requires Valid() && index < |data|
      ensures r.data == Rows[index]
    {
      data[index]
    }

    function BorrowCharAt(col: nat, row: nat): (c: char)
      reads this, data
      requires Valid() && row < |data| && col < |Rows[row]|
      ensures c == Rows[row][col]
    {
      data[row].BorrowCharAt(col)
    }

    function GetLenght(): (n: nat)
      reads this, data
      requires Valid()
      ensures n == |Rows|
    {
      lenght
    }

    function GetLenghtOfRow(index: nat): (n: nat)
      reads this, data
      requires Valid() && index < |data|
      ensures n == |Rows[index]|
    {
      data[index].GetLenght()
    }

    function GetPath(): (p: Option<string>)
      reads this
      ensures p == path
    {
      path
    }

    function IsEmpty(): (b: bool)
      reads this, data
      requires Valid()
      ensures b <==> Rows == []
    {
      |data| == 0
    }

    function RowIsEmpty(index: nat): (b: bool)
      reads this, data
      requires Valid() && index < |data|
      ensures b <==> Rows[index] == []
    {
      data[index].IsEmpty()
    }

    function GetStatus(): (s: BufferStatus)
      reads this
      ensures s == status
    {
      status
    }

    /**
     * Writes every row followed by "\n" when there is a path and the file
     * could be created (`createOk`); `written` is the text written to it.
     * Saved exactly in that case, Unsaved otherwise.
     */
    method Save(createOk: bool) returns (st: BufferStatus, written: Option<string>)
      requires Valid()
      modifies this`status
      ensures Valid() && st == status
      ensures path.Some? && createOk ==> status == Saved && written == Some(Serialise(Rows))
      ensures !(path.Some? && createOk) ==> status == Unsaved && written == None
    {
      if path.Some? {
        if createOk {
          var out: string := [];
          for i := 0 to lenght
            invariant out == Serialise(Rows[..i])
          {
            var line := data[i].Fmt();
            SerialiseAppend(Rows[..i], line);
            assert Rows[..i + 1] == Rows[..i] + [line];
            out := out + line + "\n";
          }
          assert Rows[..lenght] == Rows;
          written := Some(out);
          status := Saved;
        } else {
          written := None;
          status := Unsaved;
        }
      } else {
        written := None;
        status := Unsaved;
      }
      st := status;
    }

    /**
     * Saves under `newPath`; on failure the path is dropped again so the
     * buffer does not point at a file it cannot write.
     */
    method SaveAs(newPath: string, createOk: bool) returns (st: BufferStatus, written: Option<string>)
      requires Valid()
      modifies this`status, this`path
      ensures Valid() && st == status
      ensures createOk ==> path == Some(newPath) && status == Saved && written == Some(Serialise(Rows))
      ensures !createOk ==> path == None && status == Unsaved && written == None
    {
      path := Some(newPath);
      var s;
      s, written := Save(createOk);
      if s == Unsaved {
        path := None;
        status := Unsaved;
      } else {
        status := Saved;
      }
      st := status;
    }

    method ClearPath()
      modifies this`path
      ensures path == None
    {
      path := None;
    }

    /** Inserts `c` into row `row` at `col`, or at its end when `col` is past it. */
    method InsertChar(col: nat, row: nat, c: char)
      requires Valid() && row < |Rows|
      modifies this, data[row]
      ensures Valid() && data == old(data) && path == old(path) && status == Unsaved
      ensures Rows == old(Rows)[row := InsertAt(old(Rows)[row], col, c)]
    {
      data[row].Insert(col, c);
      Rows := Rows[row := data[row].data];
      status := Unsaved;
    }

    /** A new empty row at `index`; later rows move down by one. */
    method InsertRowAt(index: nat)
      requires Valid() && index <= |Rows|
      modifies this
      ensures Valid() && path == old(path) && status == Unsaved
      ensures Rows == old(Rows)[..index] + [[]] + old(Rows)[index..]
      ensures |Rows| == |old(Rows)| + 1
      ensures forall r :: r in data && r !in old(data) ==> fresh(r)
    {
      var r := new RowBuffer.NewEmpty();
      InsertRowObject(index, r);
    }

    /** A new row holding `vec` at `index`; later rows move down by one. */
    method InsertRowAtWithVec(index: nat, vec: seq<char>)
      requires Valid() && index <= |Rows|
      modifies this
      ensures Valid() && path == old(path) && status == Unsaved
      ensures Rows == old(Rows)[..index] + [vec] + old(Rows)[index..]
      ensures |Rows| == |old(Rows)| + 1
      ensures forall r :: r in data && r !in old(data) ==> fresh(r)
    {
      var r := new RowBuffer.NewFromVec(vec);
      InsertRowObject(index, r);
    }

    /** Puts a freshly made row at `index` (the shared half of the two inserts). */
    method InsertRowObject(index: nat, r: RowBuffer)
      requires Valid() && index <= |Rows| && r.Valid() && r !in data
      modifies this
      ensures Valid() && path == old(path) && status == Unsaved
      ensures data == old(data)[..index] + [r] + old(data)[index..]
      ensures Rows == old(Rows)[..index] + [r.data] + old(Rows)[index..]
    {
      data := data[..index] + [r] + data[index..];
      Rows := Rows[..index] + [r.data] + Rows[index..];
      lenght := lenght + 1;
      status := Unsaved;
    }

    /** Deletes the char at `col` of row `row`; the source panics past the end. */
    method DeleteChar(col: nat, row: nat)
      requires Valid() && row < |Rows| && col < |Rows[row]|
      modifies this, data[row]
      ensures Valid() && data == old(data) && path == old(path) && status == Unsaved
      ensures Rows == old(Rows)[row := DeleteAt(old(Rows)[row], col)]
    {
      data[row].Delete(col);
      Rows := Rows[row := data[row].data];
      status := Unsaved;
    }

    /** Cuts row `row` at `col` and returns the tail; the row count stays. */
    method RemoveRowFrom(col: nat, row: nat) returns (tail: seq<char>)
      requires Valid() && row < |Rows| && col <= |Rows[row]|
      modifies this, data[row]
      ensures Valid() && data == old(data) && path == old(path) && status == Unsaved
      ensures Rows == old(Rows)[row := old(Rows)[row][..col]]
      ensures tail == old(Rows)[row][col..]
      ensures Rows[row] + tail == old(Rows)[row]
    {
      status := Unsaved;
      tail := data[row].RemoveFrom(col);
      Rows := Rows[row := data[row].data];
    }

    /**
     * Removes row `index` and returns its chars; later rows move up by one.
     * The source decrements the count first, so an empty buffer underflows.
     */
    method RemoveRowToGetData(index: nat) returns (vec: seq<char>)
      requires Valid() && index < |Rows|
      modifies this
      ensures Valid() && path == old(path) && status == Unsaved
      ensures vec == old(Rows)[index]
      ensures Rows == old(Rows)[..index] + old(Rows)[index + 1..]
      ensures |Rows| == |old(Rows)| - 1
      ensures data == old(data)[..index] + old(data)[index + 1..]
    {
      status := Unsaved;
      lenght := lenght - 1;
      vec := data[index].UnwrapToGetData();
      data := data[..index] + data[index + 1..];
      Rows := Rows[..index] + Rows[index + 1..];
    }

    /** Appends `vec` to row `index`. */
    method PushVecToRow(index: nat, vec: seq<char>)
      requires Valid() && index < |Rows|
      modifies this, data[index]
      ensures Valid() && data == old(data) && path == old(path) && status == Unsaved
      ensures Rows == old(Rows)[index := old(Rows)[index] + vec]
    {
      data[index].AppendMbVecAtEnd(vec);
      Rows := Rows[index := data[index].data];
      status := Unsaved;
    }
  }

  /** Reloading what `save` wrote gives the same rows (through the constructor). */
  method ReloadAfterSave(b: Buffer, createOk: bool) returns (reloaded: Buffer)
    requires b.Valid() && b.path.Some? && createOk
    requires forall i :: 0 <= i < |b.Rows| ==> Reloadable(b.Rows[i])
    modifies b`status
    ensures reloaded.Valid() && reloaded.Rows == b.Rows && reloaded.status == Saved
    ensures reloaded.path == b.path
  {
    var st, written := b.Save(createOk);
    ParseSerialise(b.Rows);
    reloaded := new Buffer.NewFromFile(b.path.value, written);
  }

  /**
   * Saving twice with nothing in between: when the file system answers the
   * same both times, the same text is written and the status is the same;
   * two successful saves write the rows both times and end Saved.
   */
  method SaveTwice(b: Buffer, firstOk: bool, secondOk: bool) returns (first: Option<string>, second: Option<string>)
    requires b.Valid()
    modifies b`status
    ensures b.Valid()
    ensures firstOk == secondOk ==> first == second
    ensures b.path.Some? && firstOk && secondOk ==>
              first == second == Some(Serialise(b.Rows)) && b.status == Saved
    ensures b.path.Some? && !firstOk && !secondOk ==> first == second == None && b.status == Unsaved
    ensures b.path.None? ==> first == second == None && b.status == Unsaved
  {
    var st1, st2;
    st1, first := b.Save(firstOk);
    st2, second := b.Save(secondOk);
  }
}
