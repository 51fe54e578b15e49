/** The 5x7 bitmap font text is drawn with (src/natives/ui.rs,
    `get_glyph`). */
module Font {
  /** A row of a glyph, a `u8`. */
  type Row = x: int | 0 <= x < 0x100

  /** Seven rows, top first; bit `4 - col` of a row is column `col`,
      counted from the left. */
  type Glyph = seq<Row>

  /** The characters the font has a glyph for. */
  const FontChars: set<char> := {'0', '1', '2', '3', '4', '5', '6', '7', '8', '9', '+', '-', '*', '/', '=', '.', ' ', 'C', 'E', 'R', 'K', 'n', 'o', 't', 'e', 'a', 'l', 'c', 'u', 'r'}

  /** The glyph of any character the font lacks: a hollow box. */
  const HollowBox: Glyph := [0x1F, 0x11, 0x11, 0x11, 0x11, 0x11, 0x1F]

  /** Every glyph is seven rows of five bits; the hollow box stands for
      exactly the characters the font lacks. */
  function GetGlyph(ch: char): (g: Glyph)
    ensures |g| == 7
    ensures forall row :: 0 <= row < 7 ==> g[row] < 0x20
    ensures g == HollowBox <==> ch !in FontChars
  {
    match ch
    case '0' => [0x0E, 0x11, 0x13, 0x15, 0x19, 0x11, 0x0E]
    case '1' => [0x04, 0x0C, 0x04, 0x04, 0x04, 0x04, 0x0E]
    case '2' => [0x0E, 0x11, 0x01, 0x06, 0x08, 0x10, 0x1F]
    case '3' => [0x0E, 0x11, 0x01, 0x06, 0x01, 0x11, 0x0E]
    case '4' => [0x02, 0x06, 0x0A, 0x12, 0x1F, 0x02, 0x02]
    case '5' => [0x1F, 0x10, 0x1E, 0x01, 0x01, 0x11, 0x0E]
    case '6' => [0x0E, 0x10, 0x1E, 0x11, 0x11, 0x11, 0x0E]
    case '7' => [0x1F, 0x01, 0x02, 0x04, 0x08, 0x08, 0x08]
    case '8' => [0x0E, 0x11, 0x11, 0x0E, 0x11, 0x11, 0x0E]
    case '9' => [0x0E, 0x11, 0x11, 0x0F, 0x01, 0x01, 0x0E]
    case '+' => [0x00, 0x04, 0x04, 0x1F, 0x04, 0x04, 0x00]
    case '-' => [0x00, 0x00, 0x00, 0x1F, 0x00, 0x00, 0x00]
    case '*' => [0x00, 0x15, 0x0E, 0x1F, 0x0E, 0x15, 0x00]
    case '/' => [0x01, 0x02, 0x04, 0x08, 0x10, 0x00, 0x00]
    case '=' => [0x00, 0x00, 0x1F, 0x00, 0x1F, 0x00, 0x00]
    case '.' => [0x00, 0x00, 0x00, 0x00, 0x00, 0x0C, 0x0C]
    case ' ' => [0x00, 0x00, 0x00, 0x00, 0x00, 0x00, 0x00]
    case 'C' => [0x0E, 0x11, 0x10, 0x10, 0x10, 0x11, 0x0E]
    case 'E' => [0x1F, 0x10, 0x10, 0x1E, 0x10, 0x10, 0x1F]
    case 'R' => [0x1E, 0x11, 0x11, 0x1E, 0x14, 0x12, 0x11]
    case 'K' => [0x11, 0x12, 0x14, 0x18, 0x14, 0x12, 0x11]
    case 'n' => [0x00, 0x00, 0x16, 0x19, 0x11, 0x11, 0x11]
    case 'o' => [0x00, 0x00, 0x0E, 0x11, 0x11, 0x11, 0x0E]
    case 't' => [0x08, 0x08, 0x1C, 0x08, 0x08, 0x09, 0x06]
    case 'e' => [0x00, 0x00, 0x0E, 0x11, 0x1F, 0x10, 0x0E]
    case 'a' => [0x00, 0x00, 0x0E, 0x01, 0x0F, 0x11, 0x0F]
    case 'l' => [0x0C, 0x04, 0x04, 0x04, 0x04, 0x04, 0x0E]
    case 'c' => [0x00, 0x00, 0x0E, 0x10, 0x10, 0x11, 0x0E]
    case 'u' => [0x00, 0x00, 0x11, 0x11, 0x11, 0x13, 0x0D]
    case 'r' => [0x00, 0x00, 0x16, 0x19, 0x10, 0x10, 0x10]
    case _ => HollowBox
  }

  /** Whether column `col` of a glyph row is lit: the row's bit
      `4 - col`. */
  predicate Lit(row: Row, col: nat): (lit: bool)
    requires col < 5
    ensures row == 0 ==> !lit
    ensures row == 0x1F ==> lit
    ensures col == 0 && row < 0x10 ==> !lit
    ensures lit <==> (row / [16, 8, 4, 2, 1][col]) % 2 == 1
  {
    LitBit(row, col);
    (row as bv8) & (1 << (4 - col)) != 0
  }

  /** The bit test on `bv8` agrees with the arithmetic one, column by
      column. */
  lemma LitBit(row: Row, col: nat)
    requires col < 5
    ensures (row as bv8) & (1 << (4 - col)) != 0 <==> (row / [16, 8, 4, 2, 1][col]) % 2 == 1
  {
    var b := row as bv8;
    if col == 0 {
      assert b & (1 << 4) == b & 16;
      assert b & 16 != 0 <==> (row / 16) % 2 == 1;
    } else if col == 1 {
      assert b & (1 << 3) == b & 8;
      assert b & 8 != 0 <==> (row / 8) % 2 == 1;
    } else if col == 2 {
      assert b & (1 << 2) == b & 4;
      assert b & 4 != 0 <==> (row / 4) % 2 == 1;
    } else if col == 3 {
      assert b & (1 << 1) == b & 2;
      assert b & 2 != 0 <==> (row / 2) % 2 == 1;
    } else {
      assert b & (1 << 0) == b & 1;
      assert b & 1 != 0 <==> row % 2 == 1;
    }
  }
}
