/**
 * Value-level semantics of the VGA text writer in src/vga_buffer.rs: the
 * 25 x 80 grid of two-byte cells, the writer state (grid, column cursor,
 * attribute byte), and what `clear_row`, `new_line`, `write_byte` and
 * `write_string` do to that state. The `Writer` class in module Vga
 * performs these updates in place and is proved against the functions here.
 *
 * A Rust bounds-check panic is an explicit `Panicked` outcome: the state is
 * what the code had done when the failing index was evaluated.
 */
module Screen {
  import opened Colors

  type Byte = bv8

  const HEIGHT: nat := 25
  const WIDTH: nat := 80

  const NEWLINE: Byte := 0x0A
  const SPACE: Byte := 0x20
  const FALLBACK: Byte := 0x3F  // '?'

  /** `ScreenChar`: one cell, an ASCII byte and its attribute byte. */
  datatype ScreenChar = ScreenChar(ascii: Byte, colorMode: ColorMode)

  /** The contents of `Buffer::chars`, row by row. */
  type Grid = seq<seq<ScreenChar>>

  predicate IsGrid(g: Grid)
  {
    |g| == HEIGHT && forall r :: 0 <= r < HEIGHT ==> |g[r]| == WIDTH
  }

  function Blank(m: ColorMode): ScreenChar
  {
    ScreenChar(SPACE, m)
  }

  function BlankRow(m: ColorMode): seq<ScreenChar>
  {
    seq(WIDTH, _ => Blank(m))
  }

  /** Two grids are equal when they agree cell by cell. */
  lemma GridExtensionality(g: Grid, h: Grid)
    requires IsGrid(g) && IsGrid(h)
    requires forall r, c :: 0 <= r < HEIGHT && 0 <= c < WIDTH ==> g[r][c] == h[r][c]
    ensures g == h
  {
    forall r | 0 <= r < HEIGHT
      ensures g[r] == h[r]
    {
      assert forall c :: 0 <= c < WIDTH ==> g[r][c] == h[r][c];
    }
  }

  /** `clear_row(row)` on the grid: row `row` becomes blanks, nothing else changes. */
  function ClearRow(g: Grid, row: nat, m: ColorMode): (h: Grid)
    requires IsGrid(g) && row < HEIGHT
    ensures IsGrid(h)
    ensures forall c :: 0 <= c < WIDTH ==> h[row][c] == Blank(m)
    ensures forall r, c :: 0 <= r < HEIGHT && r != row && 0 <= c < WIDTH ==> h[r][c] == g[r][c]
  {
    g[row := BlankRow(m)]
  }

  /**
   * The grid after `new_line`: rows 1 .. 24 are copied one row up (the top
   * row is lost) and the bottom row is cleared.
   */
  function Scroll(g: Grid, m: ColorMode): (h: Grid)
    requires IsGrid(g)
    ensures IsGrid(h)
    ensures forall r, c :: 1 <= r < HEIGHT && 0 <= c < WIDTH ==> h[r - 1][c] == g[r][c]
    ensures h[HEIGHT - 1] == BlankRow(m)
  {
    ClearRow(g[1..] + [g[HEIGHT - 1]], HEIGHT - 1, m)
  }

  /** The fields of `Writer` other than the buffer reference, with the buffer's contents. */
  datatype State = State(grid: Grid, col: nat, mode: ColorMode)

  /** The writer invariant: a full grid and `0 <= col_position <= BUFFER_WIDTH`. */
  predicate Valid(st: State)
  {
    IsGrid(st.grid) && st.col <= WIDTH
  }

  /** The state of the `WRITER` singleton when it is first built over `screen`. */
  function Initial(screen: Grid): (st: State)
    requires IsGrid(screen)
    ensures Valid(st) && st.grid == screen && st.col == 0
    ensures Foreground(st.mode) == Yellow && Background(st.mode) == Black
  {
    ColorModeRoundTrip(Yellow, Black);
    State(screen, 0, ColorModeNew(Yellow, Black))
  }

  datatype Outcome = Completed | Panicked

  /** An operation's outcome and the state it leaves (on a panic, the state at the panic). */
  datatype Step = Step(outcome: Outcome, state: State)

  /** `new_line`. */
  function NewLine(st: State): (r: State)
    requires IsGrid(st.grid)
    ensures Valid(r) && r.col == 0 && r.mode == st.mode
  {
    State(Scroll(st.grid, st.mode), 0, st.mode)
  }

  /**
   * `write_byte` as written: the target column is read from the cursor
   * BEFORE the wrap check, so after a wrap the write still indexes column
   * `col_position`, which for `col_position >= BUFFER_WIDTH` fails the
   * bounds check.
   */
  function WriteByte(st: State, byte: Byte): (r: Step)
    requires IsGrid(st.grid)
    ensures Valid(r.state) && r.state.mode == st.mode
    ensures r.outcome == Panicked <==> byte != NEWLINE && st.col >= WIDTH
    ensures byte == NEWLINE ==> r.state == NewLine(st)
    ensures byte != NEWLINE && st.col >= WIDTH ==> r.state == NewLine(st)
    ensures byte != NEWLINE && st.col < WIDTH ==>
      && r.state.col == st.col + 1
      && r.state.grid[HEIGHT - 1][st.col] == ScreenChar(byte, st.mode)
      && forall row, c :: 0 <= row < HEIGHT && 0 <= c < WIDTH && (row, c) != (HEIGHT - 1, st.col) ==>
           r.state.grid[row][c] == st.grid[row][c]
  {
    if byte == NEWLINE then
      Step(Completed, NewLine(st))
    else
      var row, col := HEIGHT - 1, st.col;
      var wrapped := if st.col >= WIDTH then NewLine(st) else st;
      if col < WIDTH then
        var line := wrapped.grid[row][col := ScreenChar(byte, st.mode)];
        Step(Completed, State(wrapped.grid[row := line], wrapped.col + 1, wrapped.mode))
      else
        Step(Panicked, wrapped)
  }

  /** `write_byte` applied to each byte in order, stopping at the first panic. */
  function WriteBytes(st: State, bytes: seq<Byte>): (r: Step)
    requires Valid(st)
    ensures Valid(r.state) && r.state.mode == st.mode
    ensures r.outcome == Panicked ==> r.state.col == 0
    decreases |bytes|
  {
    if bytes == [] then
      Step(Completed, st)
    else
      var first := WriteByte(st, bytes[0]);
      if first.outcome == Panicked then first else WriteBytes(first.state, bytes[1..])
  }

  predicate IsPrintable(b: Byte)
  {
    0x20 <= b <= 0x7E
  }

  /** The byte `write_string` forwards for `b`: printable ASCII and newline pass, the rest become '?'. */
  function Normalize(b: Byte): (r: Byte)
    ensures IsPrintable(r) || r == NEWLINE
    ensures IsPrintable(b) || b == NEWLINE ==> r == b
    ensures r != b ==> r == FALLBACK
  {
    if IsPrintable(b) || b == NEWLINE then b else FALLBACK
  }

  function Normalized(s: seq<Byte>): (t: seq<Byte>)
  {
    seq(|s|, i requires 0 <= i < |s| => Normalize(s[i]))
  }

  /** `write_string`: `write_byte` on each normalized byte, in order, stopping at the first panic. */
  function WriteString(st: State, s: seq<Byte>): (r: Step)
    requires Valid(st)
    ensures Valid(r.state) && r.state.mode == st.mode
    ensures r.outcome == Panicked ==> r.state.col == 0
  {
    WriteBytes(st, Normalized(s))
  }

  /** Running two byte sequences one after the other is running their concatenation. */
  lemma {:induction false} WriteBytesConcat(st: State, a: seq<Byte>, b: seq<Byte>)
    requires Valid(st)
    ensures WriteBytes(st, a + b) ==
      var first := WriteBytes(st, a);
      if first.outcome == Panicked then first else WriteBytes(first.state, b)
    decreases |a|
  {
    if a != [] {
      assert (a + b)[0] == a[0];
      assert (a + b)[1..] == a[1..] + b;
      var next := WriteByte(st, a[0]);
      if next.outcome == Completed {
        WriteBytesConcat(next.state, a[1..], b);
      }
    } else {
      assert a + b == b;
    }
  }

  /**
   * `write_str` calls may split a text anywhere: writing `s` and then `t`
   * leaves the same state as writing `s + t` (this is how `println!` reaches
   * the writer, through several `write_str` calls).
   */
  lemma WriteStringConcat(st: State, s: seq<Byte>, t: seq<Byte>)
    requires Valid(st)
    ensures WriteString(st, s + t) ==
      var first := WriteString(st, s);
      if first.outcome == Panicked then first else WriteString(first.state, t)
  {
    assert Normalized(s + t) == Normalized(s) + Normalized(t);
    WriteBytesConcat(st, Normalized(s), Normalized(t));
  }

  predicate AllPrintable(g: Grid)
    requires IsGrid(g)
  {
    forall r, c :: 0 <= r < HEIGHT && 0 <= c < WIDTH ==> IsPrintable(g[r][c].ascii)
  }

  lemma {:induction false} WriteBytesKeepsPrintable(st: State, bytes: seq<Byte>)
    requires Valid(st) && AllPrintable(st.grid)
    requires forall i :: 0 <= i < |bytes| ==> IsPrintable(bytes[i]) || bytes[i] == NEWLINE
    ensures AllPrintable(WriteBytes(st, bytes).state.grid)
    decreases |bytes|
  {
    if bytes != [] {
      var first := WriteByte(st, bytes[0]);
      assert AllPrintable(first.state.grid);
      if first.outcome == Completed {
        WriteBytesKeepsPrintable(first.state, bytes[1..]);
      }
    }
  }

  /**
   * `write_string` never stores a byte outside 0x20 ..= 0x7E: starting from
   * a screen of printable cells, every cell stays printable, whatever bytes
   * are written (newlines scroll and are never stored).
   */
  lemma WriteStringStoresPrintable(st: State, s: seq<Byte>)
    requires Valid(st) && AllPrintable(st.grid)
    ensures AllPrintable(WriteString(st, s).state.grid)
  {
    WriteBytesKeepsPrintable(st, Normalized(s));
  }

  /** A single non-printable byte is stored as '?'. */
  lemma ControlByteShownAsFallback(st: State, b: Byte)
    requires Valid(st) && st.col < WIDTH
    requires !IsPrintable(b) && b != NEWLINE
    ensures WriteString(st, [b]).outcome == Completed
    ensures WriteString(st, [b]).state.grid[HEIGHT - 1][st.col].ascii == FALLBACK
  {
    assert Normalized([b]) == [FALLBACK];
    var first := WriteByte(st, FALLBACK);
    assert [FALLBACK][1..] == [];
    assert WriteBytes(first.state, []) == Step(Completed, first.state);
    assert WriteString(st, [b]) == first;
  }

  /** The cells that show `s` in attribute `m`. */
  function Cells(s: seq<Byte>, m: ColorMode): (cells: seq<ScreenChar>)
  {
    seq(|s|, i requires 0 <= i < |s| => ScreenChar(s[i], m))
  }

  /**
   * Bytes other than newline that fit on the rest of the bottom line are
   * placed left to right from the cursor, which moves past them; nothing else
   * changes.
   */
  lemma {:induction false} WriteBytesOnLine(st: State, s: seq<Byte>)
    requires Valid(st) && st.col + |s| <= WIDTH
    requires forall i :: 0 <= i < |s| ==> s[i] != NEWLINE
    ensures WriteBytes(st, s) ==
      var line := st.grid[HEIGHT - 1];
      Step(Completed, State(st.grid[HEIGHT - 1 := line[..st.col] + Cells(s, st.mode) + line[st.col + |s|..]],
                            st.col + |s|, st.mode))
    decreases |s|
  {
    var line := st.grid[HEIGHT - 1];
    if s == [] {
      assert line[..st.col] + Cells(s, st.mode) + line[st.col..] == line;
      assert st.grid[HEIGHT - 1 := line] == st.grid;
    } else {
      var first := WriteByte(st, s[0]);
      var line1 := first.state.grid[HEIGHT - 1];
      assert line1 == line[st.col := ScreenChar(s[0], st.mode)];
      WriteBytesOnLine(first.state, s[1..]);
      var expected := line[..st.col] + Cells(s, st.mode) + line[st.col + |s|..];
      var reached := line1[..st.col + 1] + Cells(s[1..], st.mode) + line1[st.col + 1 + |s[1..]|..];
      assert |expected| == |reached| == WIDTH;
      forall c | 0 <= c < WIDTH
        ensures expected[c] == reached[c]
      {
        if c < st.col {
        } else if c < st.col + |s| {
        } else {
        }
      }
      assert expected == reached;
      assert first.state.grid[HEIGHT - 1 := reached] == st.grid[HEIGHT - 1 := expected];
    }
  }

  /**
   * The `test_println_output` scenario: from column 0, writing a printable
   * line `s` of at most 80 bytes and then a newline completes, leaves the
   * cursor at column 0, and shows `s` from column 0 of the second-to-last
   * row; rows 0 .. 22 hold the old rows 1 .. 23, the rest of row 23 holds
   * what the old bottom row held there, and the bottom row is blank.
   */
  lemma PrintlnScenario(st: State, s: seq<Byte>)
    requires Valid(st) && st.col == 0 && |s| <= WIDTH
    requires forall i :: 0 <= i < |s| ==> IsPrintable(s[i])
    ensures
      var r := WriteString(st, s + [NEWLINE]);
      && r.outcome == Completed
      && r.state.col == 0
      && (forall i :: 0 <= i < |s| ==> r.state.grid[HEIGHT - 2][i] == ScreenChar(s[i], st.mode))
      && r.state.grid ==
           st.grid[1..HEIGHT - 1] + [Cells(s, st.mode) + st.grid[HEIGHT - 1][|s|..]] + [BlankRow(st.mode)]
  {
    assert Normalized(s) == s;
    assert Normalized([NEWLINE]) == [NEWLINE];
    WriteStringConcat(st, s, [NEWLINE]);
    WriteBytesOnLine(st, s);
    var line := st.grid[HEIGHT - 1];
    var mid := WriteBytes(st, s).state;
    assert line[..0] + Cells(s, st.mode) + line[|s|..] == Cells(s, st.mode) + line[|s|..];
    assert mid.grid == st.grid[HEIGHT - 1 := Cells(s, st.mode) + line[|s|..]];
    assert [NEWLINE][1..] == [];
    assert WriteBytes(NewLine(mid), []) == Step(Completed, NewLine(mid));
    assert WriteString(mid, [NEWLINE]) == Step(Completed, NewLine(mid));
    var r := WriteString(st, s + [NEWLINE]);
    assert r == Step(Completed, NewLine(mid));
    var expected := st.grid[1..HEIGHT - 1] + [Cells(s, st.mode) + line[|s|..]] + [BlankRow(st.mode)];
    assert IsGrid(expected);
    GridExtensionality(r.state.grid, expected);
  }

  /** `n` newline bytes. */
  function Newlines(n: nat): (s: seq<Byte>)
  {
    seq(n, _ => NEWLINE)
  }

  /**
   * After `k` newlines the grid holds the old rows `k ..` on top and `k`
   * blank rows below, and a newline leaves the cursor at column 0.
   */
  lemma {:induction false} NewlinesShift(st: State, k: nat)
    requires Valid(st) && k <= HEIGHT
    ensures
      var r := WriteBytes(st, Newlines(k));
      && r.outcome == Completed
      && r.state.grid == st.grid[k..] + seq(k, _ => BlankRow(st.mode))
      && r.state.mode == st.mode
      && (k > 0 ==> r.state.col == 0)
    decreases k
  {
    if k == 0 {
      assert st.grid[0..] + seq(0, _ => BlankRow(st.mode)) == st.grid;
    } else {
      var next := NewLine(st);
      assert Newlines(k)[0] == NEWLINE && Newlines(k)[1..] == Newlines(k - 1);
      var shifted := st.grid[1..] + [BlankRow(st.mode)];
      GridExtensionality(next.grid, shifted);
      NewlinesShift(next, k - 1);
      assert shifted[k - 1..] + seq(k - 1, _ => BlankRow(st.mode)) == st.grid[k..] + seq(k, _ => BlankRow(st.mode));
    }
  }

  /**
   * Scrolling discards the oldest row for good: after 25 newlines the screen
   * is blank, so two screens that differ anywhere end up identical.
   */
  lemma ScreenForgottenAfterHeightNewlines(st1: State, st2: State)
    requires Valid(st1) && Valid(st2) && st1.mode == st2.mode
    ensures WriteBytes(st1, Newlines(HEIGHT)) == WriteBytes(st2, Newlines(HEIGHT))
    ensures forall r :: 0 <= r < HEIGHT ==> WriteBytes(st1, Newlines(HEIGHT)).state.grid[r] == BlankRow(st1.mode)
  {
    NewlinesShift(st1, HEIGHT);
    NewlinesShift(st2, HEIGHT);
    assert st1.grid[HEIGHT..] == st2.grid[HEIGHT..] == [];
  }
}
