/** The terminal's size in character cells (src/terminal/size.rs). */
module Sizes {

  /** Rust's `u16`, the width of the sizes the terminal library reports. */
  newtype u16 = x: int | 0 <= x < 0x1_0000

  class Size {
    var cols: nat
    var rows: nat

    /** Widens the library's `(u16, u16)` pair; nothing is lost. */
    constructor New(size: (u16, u16))
      ensures cols == size.0 as nat && rows == size.1 as nat
      ensures cols < 0x1_0000 && rows < 0x1_0000
    {
      cols := size.0 as nat;
      rows := size.1 as nat;
    }

    function GetCols(): (c: nat)
      reads this
      ensures c == cols
    {
      cols
    }

    function GetRows(): (r: nat)
      reads this
      ensures r == rows
    {
      rows
    }

    /**
     * Overwrites both fields; setting the current values leaves the size
     * equal to what it was (the derived `PartialEq` compares both fields).
     */
    method Set(c: nat, r: nat)
      modifies this
      ensures cols == c && rows == r
      ensures GetCols() == c && GetRows() == r
      ensures c == old(cols) && r == old(rows) ==> unchanged(this)
    {
      cols := c;
      rows := r;
    }
  }
}
