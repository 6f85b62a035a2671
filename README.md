# VGA text-mode writer

A Dafny model of the text-output driver of a small bare-metal kernel
(`src/vga_buffer.rs`). The display is a 25 × 80 grid of two-byte cells. Each
cell holds an ASCII byte and an attribute byte: the background colour is in
the high nibble and the foreground in the low nibble. A `Writer` owns the grid,
a column cursor and an attribute byte. It writes bytes on the bottom row,
scrolls the grid up on a newline or a full line, and replaces bytes it cannot
show with `?`.

Layout:

- `colors.dfy`, module `Colors`: the sixteen colours, `ColorMode::new` and the
  decoding of an attribute byte back into its two colours.
- `screen.dfy`, module `Screen`: the state of the writer as a value (grid,
  cursor, attribute). It defines `clear_row`, `new_line`, `write_byte` and
  `write_string` as functions on that state. It also holds the lemmas about
  runs of bytes: concatenation, stored bytes stay printable, the single-line
  scenario, and repeated scrolling.
- `vga.dfy`, module `Vga`: the `Writer` class. It updates an `array2` in place
  with the loops of the source. Every method is proved against the functions
  of `Screen`, and states cell by cell what changes and what does not.
- `overflow.dfy`, module `Overflow`: what a byte written onto a full line
  does, both as written and as evidently intended.

A Rust bounds-check panic is modelled as an explicit `Panicked` outcome. That
outcome carries the state at the moment the failing index is evaluated.

The check at src/vga_buffer.rs:110-112 evidently means a full line to scroll
first, so that the overflowing byte starts the new bottom row. The code does
not do that. `write_byte` reads the target column (:107) before that check,
so at column 80 it scrolls and then writes to column 80, which is out of
bounds (:114). This model follows the code and gives `Panicked` in that case
(see "## Findings").

## Model

| member | source | states |
|---|---|---|
| `Colors.Discriminant` | src/vga_buffer.rs:9-26 | every colour's `as u8` value is below 16 |
| `Colors.FromDiscriminant` | src/vga_buffer.rs:9-26 | every value below 16 is the discriminant of the colour returned |
| `Colors.ColorModeNew` | src/vga_buffer.rs:33-42 | the attribute byte `bg << 4 \| fg` equals `bg * 16 + fg` as an integer |
| `Colors.NibblesDisjoint` | src/vga_buffer.rs:41 | the shifted background and the foreground share no bit |
| `Colors.ColorModeRoundTrip` | src/vga_buffer.rs:33-42 | the low nibble decodes to the foreground, the high nibble to the background |
| `Colors.ColorModeInjective` | src/vga_buffer.rs:33-42 | two colour pairs pack to the same byte if and only if they are equal |
| `Colors.ColorModeSurjective` | src/vga_buffer.rs:30-42 | every attribute byte is the packing of the colours its two nibbles name |
| `Screen.ClearRow` | src/vga_buffer.rs:78-87 | row `row` becomes all blanks in the given colours; every other cell is unchanged |
| `Screen.Scroll` | src/vga_buffer.rs:89-98 | row `r - 1` holds the old row `r` for `r` in 1..25, and row 24 is blank |
| `Screen.NewLine` | src/vga_buffer.rs:89-100 | after `new_line` the cursor is 0, the writer invariant holds and the colours are kept |
| `Screen.Initial` | src/vga_buffer.rs:135-141 | the singleton starts at column 0, yellow on black, over the existing screen contents |
| `Screen.WriteByte` | src/vga_buffer.rs:102-122 | it panics exactly for a non-newline byte at column 80 or more, and then the state is `new_line`'s; a newline is `new_line`; any other byte below column 80 is stored at row 24, column `col`, and the cursor advances by one; nothing else changes; the cursor stays in 0..80 |
| `Screen.WriteBytes` | src/vga_buffer.rs:124-131 | a run of `write_byte` calls keeps the cursor in 0..80 and the colours unchanged; if it panics, the cursor is 0, as `new_line` left it |
| `Screen.WriteString` | src/vga_buffer.rs:124-131 | `write_byte` over the normalized bytes in order, stopping at the first panic; the cursor stays in 0..80, the colours are kept, and a panic leaves `new_line`'s state with the cursor at 0 |
| `Screen.Normalize` | src/vga_buffer.rs:126-129 | the forwarded byte is printable or a newline; printable bytes and newline pass unchanged; any other byte becomes `?` |
| `Screen.WriteBytesConcat` | src/vga_buffer.rs:124-131 | writing `a + b` equals writing `a` and then, if that did not panic, `b` |
| `Screen.WriteStringConcat` | src/vga_buffer.rs:69-75 | splitting a text over several `write_str` calls does not change the result |
| `Screen.WriteBytesKeepsPrintable` | src/vga_buffer.rs:102-122 | writing printable bytes and newlines keeps every cell printable |
| `Screen.WriteStringStoresPrintable` | src/vga_buffer.rs:124-131 | `write_string` stores no byte outside 0x20..=0x7E, whatever its input |
| `Screen.ControlByteShownAsFallback` | src/vga_buffer.rs:126-128 | a control byte below column 80 is shown as `?` at the cursor |
| `Screen.WriteBytesOnLine` | src/vga_buffer.rs:105-119 | non-newline bytes that fit are placed left to right from the cursor; the cursor moves past them; nothing else changes |
| `Screen.PrintlnScenario` | src/vga_buffer.rs:173-184 | from column 0, a printable line of at most 80 bytes and a newline complete and leave the line on row 23 from column 0; the whole resulting grid is given |
| `Screen.NewlinesShift` | src/vga_buffer.rs:89-100 | after `k` newlines the old rows `k..` are on top and `k` blank rows are below |
| `Screen.ScreenForgottenAfterHeightNewlines` | src/vga_buffer.rs:89-100 | after 25 newlines the screen is blank, so any two starting screens become identical |
| `Vga.Writer.constructor` | src/vga_buffer.rs:135-141 | the `WRITER` starts at column 0, yellow on black, over the given buffer |
| `Vga.Writer.ClearRow` | src/vga_buffer.rs:78-87 | in place: every cell of the row is blank and every other cell is unchanged |
| `Vga.Writer.NewLine` | src/vga_buffer.rs:89-100 | in place: each row moves up one; row 24 is blank; the cursor is 0; the state is `Screen.NewLine` of the old state |
| `Vga.Writer.WriteByte` | src/vga_buffer.rs:102-122 | in place: the outcome and new state are `Screen.WriteByte` of the old state, spelled out cell by cell for each branch |
| `Vga.Writer.WriteString` | src/vga_buffer.rs:124-131 | in place: the outcome and new state are those of `write_byte` over the normalized bytes in order, stopping at a panic |
| `Vga.Writer.WriteStr` | src/vga_buffer.rs:69-75 | it always returns `Ok` and has the effect of `write_string` |
| `Vga.Writer.Println` | src/vga_buffer.rs:148-159 | `println!` on a rendered text has the effect of `write_string(s + "\n")` |
| `Vga.PrintlnOutputTest` | src/vga_buffer.rs:173-184 | after `println!` of a printable line of at most 80 bytes from column 0, row 23 holds byte `s[i]` at column `i` in the writer's colours, and the cursor is 0; the test's per-character checks on that row are proved from the writer's contracts |
| `Overflow.OverflowPanics` | src/vga_buffer.rs:105-114 | as written: 80 printable bytes and one more panic; the full line moves to row 23; the extra byte is stored nowhere |
| `Overflow.WriteByteWrapped` | src/vga_buffer.rs:102-122 | corrected `write_byte`: it never panics and keeps the cursor in 0..80 |
| `Overflow.WrapBeforeWrite` | src/vga_buffer.rs:105-119 | corrected: on a full line the line moves up and the byte lands at column 0 of a fresh bottom line; the cursor is then 1 |
| `Overflow.WrappedAgreesBeforeFullLine` | src/vga_buffer.rs:102-122 | below column 80, and for newlines, the corrected and the as-written `write_byte` agree |

## Left out

- Volatile reads and writes (`Volatile<ScreenChar>`): cells are ordinary array elements. Ordering towards the display hardware is not expressible here.
- The cast of address `0xb8000` to `&mut Buffer`: the constructor takes the buffer array as a parameter and keeps its contents.
- `lazy_static!` and `spin::Mutex`: lazy initialisation and locking are concurrency concerns. Only the initial field values are modelled.
- `format_args!` and formatting in `print!`, `println!` and `_print`: `Println` takes text that is already rendered to bytes.
- UTF-8 in `&str`: every input is the byte sequence that `s.bytes()` yields.
- src/main.rs and tests/should_panic.rs: the boot entry, the panic handlers and the QEMU exit side channel are not part of this model. What the panic handler prints after a `Panicked` outcome is not modelled.
- `Vga.Writer.ClearRow`: requires `row < 25` and does not model the panic an out-of-range row would raise. Its only caller passes `BUFFER_HEIGHT - 1`.
- `Screen.WriteStringStoresPrintable`: requires a screen of printable cells to start with. The memory at `0xb8000` holds whatever was there before the writer ran, and the writer does not clear it.
- `usize` width of `col_position`: never reached, because the cursor stays in 0..80.

## Findings

| source | as written | input that shows it | evidently intended | confidence | as-written member | corrected member |
|---|---|---|---|---|---|---|
| src/vga_buffer.rs:107-114 | the target column is read at :107, before the wrap check at :110-112, and the write at :114 uses that old column | from column 0, write 80 printable bytes, then one more printable byte (`col_position == 80`, byte `b'a'`) | after the wrap, write at column 0 of the new bottom row and move the cursor to 1 | high, not executed | `Overflow.OverflowPanics` | `Overflow.WrapBeforeWrite` |

The `Vga.Writer` class and the lemmas in `Screen` keep the as-written `write_byte`, because they model the kernel as the code has it. The corrected step `Overflow.WriteByteWrapped` agrees with it everywhere except on a full line (`Overflow.WrappedAgreesBeforeFullLine`).
