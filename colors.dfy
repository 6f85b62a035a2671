/**
 * The VGA text-mode colour table and the attribute byte that packs a
 * foreground and a background colour (`Color` and `ColorMode` in
 * src/vga_buffer.rs).
 */
module Colors {

  /** The sixteen colours, in discriminant order 0 .. 15. */
  datatype Color =
    | Black | Blue | Green | Cyan | Red | Magenta | Brown | LightGray
    | DarkGray | LightBlue | LightGreen | LightCyan | LightRed | Pink | Yellow | White

  /** `c as u8`: the enum discriminant of a colour. */
  function Discriminant(c: Color): (n: bv8)
    ensures n < 16
  {
    match c
    case Black => 0
    case Blue => 1
    case Green => 2
    case Cyan => 3
    case Red => 4
    case Magenta => 5
    case Brown => 6
    case LightGray => 7
    case DarkGray => 8
    case LightBlue => 9
    case LightGreen => 10
    case LightCyan => 11
    case LightRed => 12
    case Pink => 13
    case Yellow => 14
    case White => 15
  }

  /** The colour whose discriminant is `n`; the inverse of Discriminant. */
  function FromDiscriminant(n: bv8): (c: Color)
    requires n < 16
    ensures Discriminant(c) == n
  {
    if n == 0 then Black
    else if n == 1 then Blue
    else if n == 2 then Green
    else if n == 3 then Cyan
    else if n == 4 then Red
    else if n == 5 then Magenta
    else if n == 6 then Brown
    else if n == 7 then LightGray
    else if n == 8 then DarkGray
    else if n == 9 then LightBlue
    else if n == 10 then LightGreen
    else if n == 11 then LightCyan
    else if n == 12 then LightRed
    else if n == 13 then Pink
    else if n == 14 then Yellow
    else White
  }

  /** Distinct colours have distinct discriminants. */
  lemma DiscriminantInjective(c: Color)
    ensures FromDiscriminant(Discriminant(c)) == c
  {
  }

  /** The attribute byte of a screen cell. */
  datatype ColorMode = ColorMode(bits: bv8)

  /**
   * `ColorMode::new`: the background in the high nibble, the foreground in
   * the low nibble, combined with a shift and a bitwise or.
   */
  function ColorModeNew(foreground: Color, background: Color): (m: ColorMode)
    ensures m.bits as int == Discriminant(background) as int * 16 + Discriminant(foreground) as int
  {
    ColorMode((Discriminant(background) << 4) | Discriminant(foreground))
  }

  /** The foreground colour an attribute byte selects: its low nibble. */
  function Foreground(m: ColorMode): Color
  {
    FromDiscriminant(m.bits & 0x0F)
  }

  /** The background colour an attribute byte selects: its high nibble. */
  function Background(m: ColorMode): Color
  {
    FromDiscriminant(m.bits >> 4)
  }

  /** The two nibbles never overlap, because both discriminants are below 16. */
  lemma NibblesDisjoint(foreground: Color, background: Color)
    ensures (Discriminant(background) << 4) & Discriminant(foreground) == 0
  {
  }

  /** Decoding an attribute byte gives back the colours it was built from. */
  lemma ColorModeRoundTrip(foreground: Color, background: Color)
    ensures Foreground(ColorModeNew(foreground, background)) == foreground
    ensures Background(ColorModeNew(foreground, background)) == background
  {
    var f, b := Discriminant(foreground), Discriminant(background);
    assert ((b << 4) | f) & 0x0F == f;
    assert ((b << 4) | f) >> 4 == b;
    DiscriminantInjective(foreground);
    DiscriminantInjective(background);
  }

  /** Every attribute byte is the packing of some colour pair: its own two nibbles. */
  lemma ColorModeSurjective(m: ColorMode)
    ensures ColorModeNew(Foreground(m), Background(m)) == m
  {
    var lo, hi := m.bits & 0x0F, m.bits >> 4;
    assert Discriminant(Foreground(m)) == lo;
    assert Discriminant(Background(m)) == hi;
    assert (hi << 4) | lo == m.bits;
  }

  /** ... and of exactly one: equal attribute bytes come from equal colour pairs. */
  lemma ColorModeInjective(f1: Color, b1: Color, f2: Color, b2: Color)
    ensures ColorModeNew(f1, b1) == ColorModeNew(f2, b2) <==> f1 == f2 && b1 == b2
  {
    ColorModeRoundTrip(f1, b1);
    ColorModeRoundTrip(f2, b2);
  }
}
