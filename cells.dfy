/**
 * The value types shared by the renderer, the palette and the effects:
 * 24-bit colours, screen cells, and the abstract tokens that a flush
 * writes to the terminal.
 */
module Cells {

  /** A value that may be missing. */
  datatype Option<T> = None | Some(value: T)

  /** One unsigned 8-bit colour channel (`unsigned char` in the source). */
  type Channel = x: int | 0 <= x < 256

  /** One byte read from the terminal. */
  type Byte = b: int | 0 <= b < 256

  /** An RGB colour; equality is channel-wise, as `memcmp` compares it. */
  datatype Color = Color(r: Channel, g: Channel, b: Channel)

  const White := Color(255, 255, 255)
  const Black := Color(0, 0, 0)

  /**
   * One screen cell. `dirty` is carried along (`init_buffer` sets it and
   * `memcpy` copies it) but the source never reads it; only the corrected
   * flush of `Diff` does.
   */
  datatype Cell = Cell(ch: char, fg: Color, bg: Color, dirty: int)

  /** The cell `buffer_clear` writes: a space, white on black, `dirty` kept. */
  function Blank(c: Cell): Cell {
    c.(ch := ' ', fg := White, bg := Black)
  }

  /**
   * What a flush writes, one token per escape sequence or character:
   * `MoveTo` is the ECMA-48 CUP control (section 8.3.21), `SetFg`/`SetBg`
   * are the SGR controls 38;2 and 48;2 with a 24-bit colour (section 8.3.117),
   * `HideCursor` is the private mode reset `?25l` and `ResetAttrs` is SGR 0.
   */
  datatype Token =
    | HideCursor
    | MoveTo(row: int, col: int)
    | SetFg(fg: Color)
    | SetBg(bg: Color)
    | Put(ch: char)
    | ResetAttrs

  /** Concatenation is associative; stated once so that long proofs can cite it. */
  lemma Assoc<T>(a: seq<T>, b: seq<T>, c: seq<T>)
    ensures (a + b) + c == a + (b + c)
  {
  }
}
