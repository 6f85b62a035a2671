/**
 * The `Writer` of src/vga_buffer.rs: a column cursor and an attribute byte
 * over the 25 x 80 text buffer, which it updates in place. Each method is
 * proved against the value-level semantics in module Screen.
 */
module Vga {
  import opened Colors
  import opened Screen

  /** The value `fmt::Write::write_str` returns. */
  datatype FmtResult = FmtOk | FmtError

  class Writer {
    var col: nat              // col_position
    const colorMode: ColorMode
    const buffer: array2<ScreenChar>

    ghost predicate Valid()
      reads this
    {
      buffer.Length0 == HEIGHT && buffer.Length1 == WIDTH && col <= WIDTH
    }

    /** The buffer's contents as a grid. */
    ghost function Grid(): (g: Screen.Grid)
      reads this, buffer
      requires buffer.Length0 == HEIGHT && buffer.Length1 == WIDTH
      ensures IsGrid(g)
      ensures forall r, c :: 0 <= r < HEIGHT && 0 <= c < WIDTH ==> g[r][c] == buffer[r, c]
    {
      seq(HEIGHT, r requires 0 <= r < HEIGHT reads buffer =>
        seq(WIDTH, c requires 0 <= c < WIDTH reads buffer => buffer[r, c]))
    }

    /** The writer's whole state as a value. */
    ghost function Model(): (st: State)
      reads this, buffer
      requires Valid()
      ensures Screen.Valid(st)
    {
      State(Grid(), col, colorMode)
    }

    /**
     * The initial `WRITER`: column 0, yellow on black, over the text buffer
     * `screen` (the memory at 0xb8000), whose contents are left as they are.
     */
    constructor (screen: array2<ScreenChar>)
      requires screen.Length0 == HEIGHT && screen.Length1 == WIDTH
      ensures Valid() && buffer == screen
      ensures Model() == Initial(Grid())
      ensures col == 0 && colorMode == ColorModeNew(Yellow, Black)
    {
      col := 0;
      colorMode := ColorModeNew(Yellow, Black);
      buffer := screen;
    }

    /** `clear_row`: every cell of row `row` becomes a blank in the writer's colours. */
    method ClearRow(row: nat)
      requires Valid() && row < HEIGHT
      modifies buffer
      ensures Valid()
      ensures forall c :: 0 <= c < WIDTH ==> buffer[row, c] == Blank(colorMode)
      ensures forall r, c :: 0 <= r < HEIGHT && r != row && 0 <= c < WIDTH ==> buffer[r, c] == old(buffer[r, c])
      ensures Grid() == Screen.ClearRow(old(Grid()), row, colorMode)
    {
      ghost var before := Grid();
      var blank := ScreenChar(SPACE, colorMode);
      for c := 0 to WIDTH
        invariant forall c' :: 0 <= c' < c ==> buffer[row, c'] == blank
        invariant forall r, c' :: 0 <= r < HEIGHT && 0 <= c' < WIDTH && (r != row || c' >= c) ==>
          buffer[r, c'] == old(buffer[r, c'])
      {
        buffer[row, c] := blank;
      }
      GridExtensionality(Grid(), Screen.ClearRow(before, row, colorMode));
    }

    /**
     * `new_line`: rows are copied up in increasing order, so each row is read
     * before it is overwritten; then the bottom row is cleared and the cursor
     * returns to column 0.
     */
    method NewLine()
      requires Valid()
      modifies this`col, buffer
      ensures Valid() && col == 0
      ensures forall r, c :: 1 <= r < HEIGHT && 0 <= c < WIDTH ==> buffer[r - 1, c] == old(buffer[r, c])
      ensures Grid()[HEIGHT - 1] == BlankRow(colorMode)
      ensures Model() == Screen.NewLine(old(Model()))
    {
      ghost var before := Grid();
      for row := 1 to HEIGHT
        invariant Valid()
        invariant forall r, c :: 0 <= r < row - 1 && 0 <= c < WIDTH ==> buffer[r, c] == old(buffer[r + 1, c])
        invariant forall r, c :: row - 1 <= r < HEIGHT && 0 <= c < WIDTH ==> buffer[r, c] == old(buffer[r, c])
      {
        for c := 0 to WIDTH
          invariant Valid()
          invariant forall r, c' :: 0 <= r < row - 1 && 0 <= c' < WIDTH ==> buffer[r, c'] == old(buffer[r + 1, c'])
          invariant forall c' :: 0 <= c' < c ==> buffer[row - 1, c'] == old(buffer[row, c'])
          invariant forall r, c' :: row - 1 <= r < HEIGHT && 0 <= c' < WIDTH && (r != row - 1 || c <= c') ==>
            buffer[r, c'] == old(buffer[r, c'])
        {
          var character := buffer[row, c];
          buffer[row - 1, c] := character;
        }
      }
      ClearRow(HEIGHT - 1);
      col := 0;
      GridExtensionality(Grid(), Scroll(before, colorMode));
    }

    /**
     * `write_byte`. A newline is exactly `new_line`. Any other byte is
     * written at row 24, column `col_position`, and the cursor advances.
     * The column is read before the wrap check, so at column 80 the code
     * runs `new_line` and then indexes column 80: the outcome is then
     * `Panicked`, in the state `new_line` left.
     */
    method WriteByte(byte: Byte) returns (outcome: Outcome)
      requires Valid()
      modifies this`col, buffer
      ensures Valid()
      ensures Step(outcome, Model()) == Screen.WriteByte(old(Model()), byte)
      ensures byte == NEWLINE ==> outcome == Completed && Model() == Screen.NewLine(old(Model()))
      ensures byte != NEWLINE && old(col) < WIDTH ==>
        && outcome == Completed
        && col == old(col) + 1
        && buffer[HEIGHT - 1, old(col)] == ScreenChar(byte, colorMode)
        && forall r, c :: 0 <= r < HEIGHT && 0 <= c < WIDTH && (r, c) != (HEIGHT - 1, old(col)) ==>
             buffer[r, c] == old(buffer[r, c])
      ensures byte != NEWLINE && old(col) >= WIDTH ==>
        outcome == Panicked && Model() == Screen.NewLine(old(Model()))
    {
      ghost var before := Model();
      if byte == NEWLINE {
        NewLine();
        outcome := Completed;
      } else {
        var row := HEIGHT - 1;
        var c := col;
        var mode := colorMode;
        if col >= WIDTH {
          NewLine();
        }
        if c < WIDTH {
          buffer[row, c] := ScreenChar(byte, mode);
          col := col + 1;
          outcome := Completed;
          GridExtensionality(Grid(), Screen.WriteByte(before, byte).state.grid);
        } else {
          // the index `chars[row][col]` is out of bounds
          outcome := Panicked;
        }
      }
    }

    /**
     * `write_string`: each byte, normalized, goes to `write_byte` in order;
     * a panic in `write_byte` ends the call.
     */
    method WriteString(s: seq<Byte>) returns (outcome: Outcome)
      requires Valid()
      modifies this`col, buffer
      ensures Valid()
      ensures Step(outcome, Model()) == Screen.WriteString(old(Model()), s)
    {
      ghost var todo := Normalized(s);
      ghost var whole := Screen.WriteString(Model(), s);
      var i := 0;
      while i < |s|
        invariant i <= |s| && Valid()
        invariant whole == WriteBytes(Model(), todo[i..])
      {
        assert todo[i..][0] == Normalize(s[i]) && todo[i..][1..] == todo[i + 1..];
        outcome := WriteByte(Normalize(s[i]));
        if outcome == Panicked {
          return;
        }
        i := i + 1;
      }
      outcome := Completed;
    }

    /**
     * `fmt::Write::write_str`: writes `s` and returns `Ok`; the text can
     * only fail by panicking inside `write_string`. On a `Panicked` outcome
     * the Rust call never returns, so `result` then stands for nothing; it
     * is `FmtOk` whenever the call does return.
     */
    method WriteStr(s: seq<Byte>) returns (outcome: Outcome, result: FmtResult)
      requires Valid()
      modifies this`col, buffer
      ensures Valid()
      ensures result == FmtOk
      ensures Step(outcome, Model()) == Screen.WriteString(old(Model()), s)
    {
      outcome := WriteString(s);
      result := FmtOk;
    }

    /**
     * `println!` on text already rendered to `s`: `write_str(s)` and then
     * `write_str("\n")`; `unwrap` cannot fail because `write_str` returns `Ok`.
     */
    method Println(s: seq<Byte>) returns (outcome: Outcome)
      requires Valid()
      modifies this`col, buffer
      ensures Valid()
      ensures Step(outcome, Model()) == Screen.WriteString(old(Model()), s + [NEWLINE])
    {
      WriteStringConcat(Model(), s, [NEWLINE]);
      var result;
      outcome, result := WriteStr(s);
      if outcome == Completed {
        outcome, result := WriteStr([NEWLINE]);
      }
    }
  }

  /**
   * `test_println_output`: after `println!` of a printable line that fits,
   * row `BUFFER_HEIGHT - 2` shows it from column 0.
   */
  method PrintlnOutputTest(w: Writer, s: seq<Byte>)
    requires w.Valid() && w.col == 0 && |s| <= WIDTH
    requires forall i :: 0 <= i < |s| ==> IsPrintable(s[i])
    modifies w`col, w.buffer
    ensures w.Valid() && w.col == 0
    ensures forall i :: 0 <= i < |s| ==> w.buffer[HEIGHT - 2, i] == ScreenChar(s[i], w.colorMode)
  {
    ghost var before := w.Model();
    var outcome := w.Println(s);
    PrintlnScenario(before, s);
    assert outcome == Completed;
    // the test's `for (i, c) in s.chars().enumerate()` check of each cell
    for i := 0 to |s|
      invariant w.Valid()
    {
      assert w.buffer[HEIGHT - 2, i].ascii == s[i];
    }
  }
}
