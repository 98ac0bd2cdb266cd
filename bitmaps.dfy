/** Bitmaps as the animation test handles them: a width and an array of rows
    of 32-bit ARGB pixels that the test writes in place. Pixel formats,
    strides and the library's own buffers are not modelled; a row is the
    unit that the wipe animation copies. */
module Bitmaps {
  import opened IntExtensions

  /** A 32-bit colour: alpha, red, green and blue channels. */
  datatype Color32 = Color32(a: byte, r: byte, g: byte, b: byte)

  type Row = seq<Color32>

  /** What every pixel of a newly created bitmap holds. */
  const Transparent := Color32(0, 0, 0, 0)

  function BlankRow(width: nat): Row {
    seq(width, _ => Transparent)
  }

  /** A bitmap whose rows are written in place and that can be disposed. */
  class BitmapData {
    const width: nat
    const rows: array<Row>
    var disposed: bool

    /** BitmapDataFactory.CreateBitmapData(size): every row blank. */
    constructor (width: nat, height: nat)
      ensures this.width == width && rows.Length == height && !disposed
      ensures fresh(rows)
      ensures forall y :: 0 <= y < height ==> rows[y] == BlankRow(width)
    {
      this.width := width;
      rows := new Row[height](_ => BlankRow(width));
      disposed := false;
    }

    /** Releases the bitmap; its rows stay as they were. */
    method Dispose()
      modifies this
      ensures disposed
    {
      disposed := true;
    }
  }

  // ----- the alpha gradient -----

  /** The colour c with full alpha (C#'s three-argument Color32 constructor). */
  function Opaque(c: Color32): Color32 {
    c.(a := 255)
  }

  /** Row 0 of the gradient: the hue of each column, opaque. */
  function HueRow(width: nat, hue: nat -> Color32): Row {
    seq(width, (x: nat) => Opaque(hue(x)))
  }

  /** The pixels of row with their alpha replaced by a (Color32.FromArgb). */
  function WithAlpha(row: Row, a: byte): Row {
    seq(|row|, x requires 0 <= x < |row| => row[x].(a := a))
  }

  /** GenerateAlphaGradient: writes the hue of each column into row 0, then
      copies row 0 into every further row with that row's alpha. hue(x)
      stands for the six-segment colour of column x and rowAlpha(y) for the
      alpha of row y; both come from float arithmetic and are parameters
      here. A bitmap of fewer than two rows gets row 0 only. */
  method GenerateAlphaGradient(bitmap: BitmapData, hue: nat -> Color32, rowAlpha: nat -> byte)
    requires bitmap.rows.Length >= 1
    requires forall y :: 0 <= y < bitmap.rows.Length ==> |bitmap.rows[y]| == bitmap.width
    modifies bitmap.rows
    ensures bitmap.rows[0] == HueRow(bitmap.width, hue)
    ensures forall y :: 1 <= y < bitmap.rows.Length ==>
      bitmap.rows[y] == WithAlpha(HueRow(bitmap.width, hue), rowAlpha(y))
  {
    var rows := bitmap.rows;
    var width := bitmap.width;
    var x := 0;
    while x < width
      invariant 0 <= x <= width
      invariant |rows[0]| == width
      invariant forall i :: 0 <= i < x ==> rows[0][i] == Opaque(hue(i))
      invariant forall y :: 1 <= y < rows.Length ==> rows[y] == old(rows[y])
    {
      rows[0] := rows[0][x := Opaque(hue(x))];
      x := x + 1;
    }
    assert rows[0] == HueRow(width, hue);
    if rows.Length < 2 {
      return;
    }
    var y := 1;
    while y < rows.Length
      invariant 1 <= y <= rows.Length
      invariant rows[0] == HueRow(width, hue)
      invariant forall j :: 1 <= j < y ==> rows[j] == WithAlpha(HueRow(width, hue), rowAlpha(j))
      invariant forall j :: y <= j < rows.Length ==> |rows[j]| == width
    {
      var a := rowAlpha(y);
      x := 0;
      while x < width
        invariant 0 <= x <= width
        invariant rows[0] == HueRow(width, hue)
        invariant |rows[y]| == width
        invariant forall i :: 0 <= i < x ==> rows[y][i] == rows[0][i].(a := a)
        invariant forall j :: 1 <= j < y ==> rows[j] == WithAlpha(HueRow(width, hue), rowAlpha(j))
        invariant forall j :: y < j < rows.Length ==> |rows[j]| == width
      {
        rows[y] := rows[y][x := rows[0][x].(a := a)];
        x := x + 1;
      }
      assert rows[y] == WithAlpha(HueRow(width, hue), a);
      y := y + 1;
    }
  }
}
