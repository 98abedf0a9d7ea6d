/** The logical edit position (src/editor/cursor.rs), not the caret drawn on screen. */
module Cursors {

  class Cursor {
    var col: nat
    var row: nat

    constructor New()
      ensures col == 0 && row == 0
    {
      col, row := 0, 0;
    }

    function GetCol(): (c: nat)
      reads this
      ensures c == col
    {
      col
    }

    function GetRow(): (r: nat)
      reads this
      ensures r == row
    {
      row
    }

    method SetCol(value: nat)
      modifies this
      ensures col == value && row == old(row)
    {
      col := value;
    }

    method SetColRow(c: nat, r: nat)
      modifies this
      ensures col == c && row == r
    {
      col := c;
      row := r;
    }
  }
}
