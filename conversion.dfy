/** The heart of the converter: the size check and the alpha threshold that turns
    each pixel row of a 16x16 image into a binary literal `0b` followed by sixteen
    digits, the leftmost pixel first. */
module SpriteConversion {
  import opened SpriteImage

  /** Why a run produced no array. */
  datatype Error =
    | NotFound(path: string)
    | DecodeError(message: string)
    | SizeMismatch(width: nat, height: nat)

  datatype Result<T> = Ok(value: T) | Err(error: Error)

  /** The literal prefix every row string starts with. */
  const ROW_PREFIX: string := "0b"

  /** The digit one pixel contributes to its row. */
  function Digit(p: Rgba32): (c: char)
    ensures c == '1' <==> IsOn(p)
    ensures c == '0' <==> !IsOn(p)
  {
    if p.a >= ALPHA_THRESHOLD then '1' else '0'
  }

  /** The digits of a pixel row, in column order. */
  function Digits(row: seq<Rgba32>): (r: string)
    ensures |r| == |row|
  {
    if row == [] then [] else Digits(row[..|row| - 1]) + [Digit(row[|row| - 1])]
  }

  /** The text the converter builds for one pixel row. */
  function RowString(row: seq<Rgba32>): (r: string) {
    ROW_PREFIX + Digits(row)
  }

  /** The row strings of a grid of pixel rows, in row order. */
  function Rows(grid: seq<seq<Rgba32>>): (r: seq<string>)
    ensures |r| == |grid|
  {
    if grid == [] then [] else Rows(grid[..|grid| - 1]) + [RowString(grid[|grid| - 1])]
  }

  /** What converting a decoded image yields: the row strings of a 16x16 image,
      a size mismatch carrying the actual dimensions otherwise. */
  function Convert(img: Image): (r: Result<seq<string>>)
    requires img.Valid()
    ensures r.Err? <==> img.width != SPRITE_SIZE || img.height != SPRITE_SIZE
    ensures r.Err? ==> r.error == SizeMismatch(img.width, img.height)
    ensures r.Ok? ==> |r.value| == SPRITE_SIZE
  {
    if img.width != SPRITE_SIZE || img.height != SPRITE_SIZE then
      Err(SizeMismatch(img.width, img.height))
    else
      Ok(Rows(img.rows))
  }

  /** The size check and the nested threshold loop: a `0b` row builder per image row,
      one digit appended per column, each finished row added to the list. */
  method ConvertImage(img: Image) returns (res: Result<seq<string>>)
    requires img.Valid()
    ensures res == Convert(img)
  {
    if img.width != SPRITE_SIZE || img.height != SPRITE_SIZE {
      return Err(SizeMismatch(img.width, img.height));
    }
    var binaryLines: seq<string> := [];
    var y := 0;
    while y < SPRITE_SIZE
      invariant 0 <= y <= SPRITE_SIZE
      invariant binaryLines == Rows(img.rows[..y])
    {
      var rowSpan := img.rows[y];
      var rowBinary := ROW_PREFIX;
      var x := 0;
      while x < SPRITE_SIZE
        invariant 0 <= x <= SPRITE_SIZE
        invariant rowBinary == ROW_PREFIX + Digits(rowSpan[..x])
      {
        var pixel := rowSpan[x];
        if pixel.a >= ALPHA_THRESHOLD {
          rowBinary := rowBinary + ['1'];
        } else {
          rowBinary := rowBinary + ['0'];
        }
        assert rowSpan[..x + 1][..x] == rowSpan[..x];
        x := x + 1;
      }
      assert rowSpan[..x] == rowSpan;
      assert img.rows[..y + 1][..y] == img.rows[..y];
      binaryLines := binaryLines + [rowBinary];
      y := y + 1;
    }
    assert img.rows[..y] == img.rows;
    return Ok(binaryLines);
  }

  // ---------------------------------------------------------------------------
  // Properties of the row strings
  // ---------------------------------------------------------------------------

  /** Digit `x` of a row's digits is the digit of pixel `x`. */
  lemma {:induction false} DigitsAt(row: seq<Rgba32>, x: nat)
    requires x < |row|
    ensures Digits(row)[x] == Digit(row[x])
  {
    if x < |row| - 1 {
      DigitsAt(row[..|row| - 1], x);
    }
  }

  /** Row `y` of a grid's row strings is the row string of pixel row `y`. */
  lemma {:induction false} RowsAt(grid: seq<seq<Rgba32>>, y: nat)
    requires y < |grid|
    ensures Rows(grid)[y] == RowString(grid[y])
  {
    if y < |grid| - 1 {
      RowsAt(grid[..|grid| - 1], y);
    }
  }

  /** A row string is `0b` followed by one `0`/`1` digit per pixel, and the character
      at index `i` (from 2 on) is `1` exactly when pixel `i - 2` is on. */
  lemma RowStringShape(row: seq<Rgba32>)
    ensures |RowString(row)| == |ROW_PREFIX| + |row|
    ensures RowString(row)[..2] == "0b"
    ensures forall i :: 2 <= i < |RowString(row)| ==> RowString(row)[i] in {'0', '1'}
    ensures forall i :: 2 <= i < |RowString(row)| ==> (RowString(row)[i] == '1' <==> IsOn(row[i - 2]))
  {
    forall i | 2 <= i < |RowString(row)|
      ensures RowString(row)[i] == Digit(row[i - 2])
    {
      DigitsAt(row, i - 2);
    }
  }

  /** On success there are exactly sixteen rows, row `y` coming from pixel row `y`;
      each is eighteen characters, `0b` and then only `0`/`1`, and the character at
      index `i` (from 2 on) of row `y` is `1` exactly when pixel `(i - 2, y)` has alpha
      at least 128, `0` exactly when it has less. */
  lemma ConvertRows(img: Image)
    requires img.Valid() && Convert(img).Ok?
    ensures |Convert(img).value| == SPRITE_SIZE
    ensures forall y :: 0 <= y < SPRITE_SIZE ==> Convert(img).value[y] == RowString(img.rows[y])
    ensures forall y :: 0 <= y < SPRITE_SIZE ==> |Convert(img).value[y]| == 18
    ensures forall y :: 0 <= y < SPRITE_SIZE ==> Convert(img).value[y][..2] == "0b"
    ensures forall y, i :: 0 <= y < SPRITE_SIZE && 2 <= i < 18 ==> Convert(img).value[y][i] in {'0', '1'}
    ensures forall y, i :: 0 <= y < SPRITE_SIZE && 2 <= i < 18 ==>
              (Convert(img).value[y][i] == '1' <==> img.Alpha(i - 2, y) >= 128)
    ensures forall y, i :: 0 <= y < SPRITE_SIZE && 2 <= i < 18 ==>
              (Convert(img).value[y][i] == '0' <==> img.Alpha(i - 2, y) < 128)
  {
    var rows := Convert(img).value;
    forall y | 0 <= y < SPRITE_SIZE
      ensures rows[y] == RowString(img.rows[y])
      ensures |rows[y]| == 18 && rows[y][..2] == "0b"
      ensures forall i :: 2 <= i < 18 ==> rows[y][i] in {'0', '1'}
      ensures forall i :: 2 <= i < 18 ==> (rows[y][i] == '1' <==> img.Alpha(i - 2, y) >= 128)
    {
      RowsAt(img.rows, y);
      RowStringShape(img.rows[y]);
    }
  }

  /** The threshold is inclusive: alpha 128 is on, alpha 127 is off, whatever the colour. */
  lemma ThresholdBoundary(r: Byte, g: Byte, b: Byte)
    ensures Digit(Rgba32(r, g, b, 128)) == '1'
    ensures Digit(Rgba32(r, g, b, 127)) == '0'
  {
  }

  /** Pixel rows with equal alpha values have equal digits. */
  lemma {:induction false} SameAlphaSameDigits(row1: seq<Rgba32>, row2: seq<Rgba32>)
    requires |row1| == |row2|
    requires forall x :: 0 <= x < |row1| ==> row1[x].a == row2[x].a
    ensures Digits(row1) == Digits(row2)
  {
    if row1 != [] {
      SameAlphaSameDigits(row1[..|row1| - 1], row2[..|row2| - 1]);
    }
  }

  /** Only the alpha channel matters: two images of the same size whose pixels have
      equal alpha values convert to the same result, whatever their colour channels. */
  lemma OnlyAlphaMatters(img1: Image, img2: Image)
    requires img1.Valid() && img2.Valid()
    requires img1.width == img2.width && img1.height == img2.height
    requires forall y, x :: 0 <= y < img1.height && 0 <= x < img1.width ==>
               img1.rows[y][x].a == img2.rows[y][x].a
    ensures Convert(img1) == Convert(img2)
  {
    if Convert(img1).Ok? {
      ConvertRows(img1);
      ConvertRows(img2);
      forall y | 0 <= y < SPRITE_SIZE
        ensures Convert(img1).value[y] == Convert(img2).value[y]
      {
        SameAlphaSameDigits(img1.rows[y], img2.rows[y]);
      }
      assert Convert(img1).value == Convert(img2).value;
    }
  }

  /** An eighteen-character row `0b` whose sixteen digits all equal `d`. */
  lemma UniformRow(s: string, d: char)
    requires |s| == 18 && s[..2] == "0b"
    requires forall i :: 2 <= i < 18 ==> s[i] == d
    ensures d == '1' ==> s == "0b1111111111111111"
    ensures d == '0' ==> s == "0b0000000000000000"
  {
  }

  /** A 16x16 image whose pixels all have alpha at least 128 gives sixteen rows of ones. */
  lemma AllOpaque(img: Image)
    requires img.Valid() && img.width == SPRITE_SIZE && img.height == SPRITE_SIZE
    requires forall y, x :: 0 <= y < SPRITE_SIZE && 0 <= x < SPRITE_SIZE ==> img.Alpha(x, y) >= 128
    ensures Convert(img) == Ok(seq(SPRITE_SIZE, _ => "0b1111111111111111"))
  {
    ConvertRows(img);
    var rows := Convert(img).value;
    forall y | 0 <= y < SPRITE_SIZE
      ensures rows[y] == "0b1111111111111111"
    {
      forall i | 2 <= i < 18
        ensures rows[y][i] == '1'
      {
        assert img.Alpha(i - 2, y) >= 128;
      }
      UniformRow(rows[y], '1');
    }
    assert rows == seq(SPRITE_SIZE, _ => "0b1111111111111111");
  }

  /** A 16x16 image whose pixels all have alpha below 128 gives sixteen rows of zeros. */
  lemma AllTransparent(img: Image)
    requires img.Valid() && img.width == SPRITE_SIZE && img.height == SPRITE_SIZE
    requires forall y, x :: 0 <= y < SPRITE_SIZE && 0 <= x < SPRITE_SIZE ==> img.Alpha(x, y) < 128
    ensures Convert(img) == Ok(seq(SPRITE_SIZE, _ => "0b0000000000000000"))
  {
    ConvertRows(img);
    var rows := Convert(img).value;
    forall y | 0 <= y < SPRITE_SIZE
      ensures rows[y] == "0b0000000000000000"
    {
      forall i | 2 <= i < 18
        ensures rows[y][i] == '0'
      {
        assert img.Alpha(i - 2, y) < 128;
      }
      UniformRow(rows[y], '0');
    }
    assert rows == seq(SPRITE_SIZE, _ => "0b0000000000000000");
  }

  /** Digit order: a top row whose only opaque pixel is the leftmost one is printed
      with its single `1` directly after the `0b` prefix. */
  lemma LeftmostPixelFirst(img: Image)
    requires img.Valid() && img.width == SPRITE_SIZE && img.height == SPRITE_SIZE
    requires img.Alpha(0, 0) == 255
    requires forall x :: 1 <= x < SPRITE_SIZE ==> img.Alpha(x, 0) == 0
    ensures Convert(img).Ok? && Convert(img).value[0] == "0b1000000000000000"
  {
    ConvertRows(img);
    var s := Convert(img).value[0];
    var expected := "0b1000000000000000";
    forall i | 0 <= i < 18
      ensures s[i] == expected[i]
    {
      if i < 2 {
        assert s[i] == s[..2][i];
      } else {
        assert img.Alpha(i - 2, 0) == if i == 2 then 255 else 0;
      }
    }
  }
}
