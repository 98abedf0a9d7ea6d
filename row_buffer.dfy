/**
 * One line of text (src/text_buffer/row_buffer.rs): a growable vector of
 * chars with a cached length, `lenght` (the source's own spelling).
 */
module RowBuffers {

  /** The row after `Vec::insert(i, c)` when `i < |s|`, `Vec::push(c)` otherwise. */
  function InsertAt(s: seq<char>, i: nat, c: char): (r: seq<char>)
    ensures |r| == |s| + 1
    ensures i < |s| ==> r[..i] == s[..i] && r[i] == c && r[i + 1..] == s[i..]
    ensures i >= |s| ==> r[..|s|] == s && r[|s|] == c
  {
    if i < |s| then s[..i] + [c] + s[i..] else s + [c]
  }

  /** The row after `Vec::remove(i)`. */
  function DeleteAt(s: seq<char>, i: nat): (r: seq<char>)
    requires i < |s|
    ensures |r| == |s| - 1
    ensures r[..i] == s[..i] && r[i..] == s[i + 1..]
  {
    s[..i] + s[i + 1..]
  }

  /** Inserting a char and then deleting at the same index gives the row back. */
  lemma DeleteInsertedChar(s: seq<char>, i: nat, c: char)
    requires i <= |s|
    ensures DeleteAt(InsertAt(s, i, c), i) == s
  {
    var r := InsertAt(s, i, c);
    assert DeleteAt(r, i) == r[..i] + r[i + 1..];
    if i < |s| {
      assert r[..i] + r[i + 1..] == s[..i] + s[i..];
    } else {
      assert r[..i] == s;
    }
    assert s[..i] + s[i..] == s;
  }

  class RowBuffer {
    var data: seq<char>
    /** Cached number of chars in `data`. */
    var lenght: nat

    /** The cached length is the true length. */
    ghost predicate Valid()
      reads this
    {
      lenght == |data|
    }

    constructor NewFromStr(s: string)
      ensures Valid() && data == s
    {
      data := s;
      lenght := |s|;
    }

    /** Copies the slice char by char, as the source's loop does. */
    constructor NewFromSliceChar(slice: seq<char>)
      ensures Valid() && data == slice
    {
      lenght := |slice|;
      var temp: seq<char> := [];
      for i := 0 to |slice|
        invariant temp == slice[..i]
      {
        temp := temp + [slice[i]];
      }
      data := temp;
    }

    constructor NewFromVec(vec: seq<char>)
      ensures Valid() && data == vec
    {
      lenght := |vec|;
      data := vec;
    }

    constructor NewEmpty()
      ensures Valid() && data == []
    {
      data := [];
      lenght := 0;
    }

    /** The stored chars; the slice has the cached length. */
    function GetData(): (d: seq<char>)
      reads this
      requires Valid()
      ensures |d| == lenght && d == data
    {
      data
    }

    /** The cached length, which is the number of stored chars. */
    function GetLenght(): (n: nat)
      reads this
      requires Valid()
      ensures n == |data|
    {
      lenght
    }

    /** Asks the vector itself; agrees with the cached length being zero. */
    function IsEmpty(): (b: bool)
      reads this
      requires Valid()
      ensures b <==> lenght == 0
    {
      |data| == 0
    }

    /** Indexing panics past the end, hence the precondition. */
    function BorrowCharAt(index: nat): (c: char)
      reads this
      requires index < |data|
      ensures c in data && c == data[index]
    {
      data[index]
    }

    method Insert(index: nat, c: char)
      requires Valid()
      modifies this
      ensures Valid()
      ensures data == InsertAt(old(data), index, c)
      ensures lenght == old(lenght) + 1
    {
      if index < lenght {
        data := data[..index] + [c] + data[index..];
      } else {
        data := data + [c];
      }
      lenght := lenght + 1;
    }

    /** `index >= lenght` panics in the source. */
    method Delete(index: nat)
      requires Valid() && index < lenght
      modifies this
      ensures Valid()
      ensures data == DeleteAt(old(data), index)
      ensures lenght == old(lenght) - 1
    {
      data := data[..index] + data[index + 1..];
      lenght := lenght - 1;
    }

    /**
     * Removes the chars from `index` on, one per iteration, and returns them
     * in order. `index > lenght` underflows `lenght - index` in the source.
     */
    method RemoveFrom(index: nat) returns (temp: seq<char>)
      requires Valid() && index <= lenght
      modifies this
      ensures Valid()
      ensures data == old(data)[..index] && temp == old(data)[index..]
      ensures data + temp == old(data)
      ensures lenght == index
    {
      temp := [];
      var n := lenght;
      for i := index to n
        invariant |data| == n - (i - index)
        invariant temp == old(data)[index..i]
        invariant data == old(data)[..index] + old(data)[i..]
      {
        temp := temp + [data[index]];
        data := data[..index] + data[index + 1..];
      }
      lenght := lenght - (lenght - index);
    }

    /** Moves all of `vec` to the end of the row. */
    method AppendMbVecAtEnd(vec: seq<char>)
      requires Valid()
      modifies this
      ensures Valid()
      ensures data == old(data) + vec
      ensures lenght == old(lenght) + |vec|
    {
      lenght := lenght + |vec|;
      data := data + vec;
    }

    /** Consumes the row and hands back its chars. */
    function UnwrapToGetData(): (d: seq<char>)
      reads this
      requires Valid()
      ensures |d| == lenght && d == data
    {
      data
    }

    /** `Display`: the row's chars pushed one by one into a string. */
    method Fmt() returns (toPrint: string)
      requires Valid()
      ensures toPrint == data
      ensures |toPrint| == lenght
    {
      toPrint := [];
      for i := 0 to |data|
        invariant toPrint == data[..i]
      {
        toPrint := toPrint + [data[i]];
      }
    }
  }
}
