/**
 * What happens when a line is full. `write_byte` checks `col_position >=
 * BUFFER_WIDTH` and scrolls, evidently so that the overflowing character
 * starts the new bottom line; but the column it writes to was read before
 * that check, so it still indexes column 80 and panics.
 */
module Overflow {
  import opened Colors
  import opened Screen

  /**
   * As written: 80 printable bytes from column 0 fill the bottom line; one
   * more printable byte scrolls the full line up and then panics, and that
   * byte is stored nowhere (the new bottom line is blank).
   */
  lemma OverflowPanics(st: State, s: seq<Byte>, b: Byte)
    requires Valid(st) && st.col == 0 && |s| == WIDTH
    requires forall i :: 0 <= i < |s| ==> IsPrintable(s[i])
    requires IsPrintable(b)
    ensures
      var r := WriteString(st, s + [b]);
      && r.outcome == Panicked
      && r.state.col == 0
      && r.state.grid[HEIGHT - 2] == Cells(s, st.mode)
      && r.state.grid[HEIGHT - 1] == BlankRow(st.mode)
  {
    assert Normalized(s) == s;
    assert Normalized([b]) == [b];
    WriteStringConcat(st, s, [b]);
    WriteBytesOnLine(st, s);
    var full := WriteBytes(st, s).state;
    var line := st.grid[HEIGHT - 1];
    assert line[..0] + Cells(s, st.mode) + line[WIDTH..] == Cells(s, st.mode);
    assert full.grid[HEIGHT - 1] == Cells(s, st.mode) && full.col == WIDTH;
    assert WriteString(full, [b]) == WriteByte(full, b);
  }

  /** The evidently intended `write_byte`: the column is read after the wrap. */
  function WriteByteWrapped(st: State, byte: Byte): (r: Step)
    requires IsGrid(st.grid)
    ensures r.outcome == Completed && Valid(r.state) && r.state.mode == st.mode
  {
    if byte == NEWLINE then
      Step(Completed, NewLine(st))
    else
      var row := HEIGHT - 1;
      var wrapped := if st.col >= WIDTH then NewLine(st) else st;
      var col := wrapped.col;
      var line := wrapped.grid[row][col := ScreenChar(byte, st.mode)];
      Step(Completed, State(wrapped.grid[row := line], col + 1, wrapped.mode))
  }

  /**
   * Corrected, a full line wraps before the write: the full line moves up
   * one row, and the overflowing byte is the first cell of a fresh bottom
   * line, with the cursor just after it.
   */
  lemma WrapBeforeWrite(st: State, b: Byte)
    requires IsGrid(st.grid) && st.col == WIDTH && b != NEWLINE
    ensures
      var r := WriteByteWrapped(st, b).state;
      && r.col == 1
      && r.grid[HEIGHT - 2] == st.grid[HEIGHT - 1]
      && r.grid[HEIGHT - 1] == [ScreenChar(b, st.mode)] + BlankRow(st.mode)[1..]
      && forall row :: 0 <= row < HEIGHT - 2 ==> r.grid[row] == st.grid[row + 1]
  {
    var scrolled := Scroll(st.grid, st.mode);
    assert scrolled[HEIGHT - 2] == st.grid[HEIGHT - 1];
    forall row | 0 <= row < HEIGHT - 2
      ensures scrolled[row] == st.grid[row + 1]
    {
      assert forall c :: 0 <= c < WIDTH ==> scrolled[row][c] == st.grid[row + 1][c];
    }
  }

  /** Where the line is not full, the corrected `write_byte` is the one as written. */
  lemma WrappedAgreesBeforeFullLine(st: State, b: Byte)
    requires IsGrid(st.grid) && (st.col < WIDTH || b == NEWLINE)
    ensures WriteByteWrapped(st, b) == WriteByte(st, b)
  {
  }
}
