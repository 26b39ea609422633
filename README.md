# SpriteConverter in Dafny

A model of the SpriteToBinaryConverter command-line tool. The tool takes a 16x16 image
and prints a C# `ushort[]` declaration, one element per pixel row. Each element is a
binary literal: `0b` and then sixteen digits, one per pixel, the leftmost pixel first.
A digit is `1` when the pixel's alpha is at least 128 and `0` otherwise.

The project has five modules, one per part of the program:

- `SpriteImage` (`sprite_image.dfy`): the decoded image, as a width, a height and a grid
  of RGBA pixels with 8-bit channels, plus the constants `SPRITE_SIZE` (16) and
  `ALPHA_THRESHOLD` (128).
- `SpriteConversion` (`conversion.dfy`): the size check and the nested threshold loop.
  `ConvertImage` is the loop as written, with its `StringBuilder` row and its
  `List<string>` of rows. It is proved equal to the specification function `Convert`,
  and the lemmas give the properties of `Convert`.
- `SpriteRowMask` (`row_mask.dfy`): the number each generated literal stands for once
  the array is compiled. Every row fits in a `ushort`, and pixel `x` sets bit `15 - x`.
- `SpriteRendering` (`rendering.dfy`): `OutputResult`, the loop that writes the header,
  one indented element per row with a comma after all but the last, and the footer. It
  is proved equal to `Render`, and the lemmas give the shape of `Render`.
- `SpriteProgram` (`program.dfy`): `Main`'s control flow as the method `Run`, proved
  equal to the function `Program`. The branches are: no arguments, missing file, decoder
  failure, size mismatch, success.

Output is a sequence of strings, one for each `Console.WriteLine` call. A leading `"\n"`
inside a literal stays part of that element.

Three library answers become parameters of `Program` and `Run`:

- `fileExists` is what `File.Exists` says for the path.
- `decoded` is what `Image.Load<Rgba32>` returns. It is either an image or a failure
  message.
- `fileName` is what `Path.GetFileName` returns.

A decoded image always has the shape it reports (`Image.Valid`), so that is a
precondition.

The program prints the leftmost pixel as the first digit after `0b`. A C# binary literal
reads that digit as bit 15. So the digits keep column order (`ConvertRows`), and
`RowMaskBits` proves that pixel `x` is bit `15 - x`.

## Model

| member | source | states |
|---|---|---|
| SpriteConversion.Digit | SpriteConverter/Program.cs:72-79 | a pixel's digit is `1` exactly when its alpha is at or above the threshold, `0` exactly when it is below |
| SpriteConversion.Convert | SpriteConverter/Program.cs:48-58 | conversion fails exactly when width or height is not 16, and the error carries the actual width and height; success yields exactly 16 rows |
| SpriteConversion.ConvertImage | SpriteConverter/Program.cs:48-82 | the size check and nested loop (a `0b` builder per row, one digit appended per column, each row added to the list) compute exactly `Convert` of the image |
| SpriteConversion.DigitsAt | SpriteConverter/Program.cs:66-80 | digit `x` of a row's digits comes from pixel `x` of that row, so columns stay in order |
| SpriteConversion.RowsAt | SpriteConverter/Program.cs:61-82 | row string `y` is built from pixel row `y`, so rows stay in order with `y = 0` first |
| SpriteConversion.RowStringShape | SpriteConverter/Program.cs:63-80 | a row string is `0b` plus one `0`/`1` digit per pixel, and the character at index `i` is `1` exactly when pixel `i - 2` is on |
| SpriteConversion.ConvertRows | SpriteConverter/Program.cs:58-82 | on success: 16 rows in row order, each 18 characters long, starting `0b` with only `0`/`1` after; the character at index `i` of row `y` is `1` exactly when pixel `(i - 2, y)` has alpha at least 128, and `0` exactly when less |
| SpriteConversion.ThresholdBoundary | SpriteConverter/Program.cs:72-79 | the threshold is inclusive: alpha 128 gives `1` and alpha 127 gives `0`, whatever the colour channels |
| SpriteConversion.SameAlphaSameDigits | SpriteConverter/Program.cs:66-80 | pixel rows with equal alpha values give equal digits |
| SpriteConversion.OnlyAlphaMatters | SpriteConverter/Program.cs:68-72 | two same-sized images whose pixels have equal alpha convert to the same result (error or rows), whatever their RGB channels |
| SpriteConversion.AllOpaque | SpriteConverter/Program.cs:72-79 | a 16x16 image with every alpha at least 128 gives exactly 16 rows `0b1111111111111111` |
| SpriteConversion.AllTransparent | SpriteConverter/Program.cs:72-79 | a 16x16 image with every alpha below 128 gives exactly 16 rows `0b0000000000000000` |
| SpriteConversion.LeftmostPixelFirst | SpriteConverter/Program.cs:63-74 | a top row that is opaque only at `x = 0` gives first row `0b1000000000000000` |
| SpriteRowMask.BinaryValueBound | SpriteConverter/Program.cs:103-110 | a literal of `n` binary digits denotes a value below `2^n` |
| SpriteRowMask.BinaryValueBit | SpriteConverter/Program.cs:103-110 | digit `x` of an `n`-digit literal is bit `n - 1 - x` of its value |
| SpriteRowMask.RowMaskBits | SpriteConverter/Program.cs:63-80 | every generated row literal fits in a `ushort`, and bit `15 - x` of row `y` is set exactly when pixel `(x, y)` has alpha at least 128 |
| SpriteRendering.BodyAt | SpriteConverter/Program.cs:106-116 | element line `i` is four spaces, then row `i`, then a comma exactly when `i` is not the last index |
| SpriteRendering.RenderShape | SpriteConverter/Program.cs:100-119 | the output is `Count + 7` lines: the header (banner, `// Sprite generated from: <fileName>`, usage comment, the `ushort[]` declaration, `{`), then exactly `Count` element lines with the comma rule, then `};` and the completion banner |
| SpriteRendering.OutputResult | SpriteConverter/Program.cs:98-121 | the output loop (indent each row, append a comma when `i < Count - 1`) writes exactly `Render` of the file name and rows |
| SpriteProgram.Program | SpriteConverter/Program.cs:18-93 | the usage outcome happens exactly when there are no arguments; a missing file gives `NotFound` with the path; a decoder failure gives `DecodeError` with the decoder's message; a decoded image that is not 16x16 gives `SizeMismatch` with its actual size; an array is generated only when the file exists and decoded |
| SpriteProgram.Run | SpriteConverter/Program.cs:18-93 | the entry point (argument check, file check, decode, convert, render) computes exactly `Program` |
| SpriteProgram.NotFoundSkipsDecode | SpriteConverter/Program.cs:32-39 | with a missing file the outcome is `NotFound(path)` and does not depend on the decoder's answer or the file name |
| SpriteProgram.DecodeFailureReported | SpriteConverter/Program.cs:87-92 | a decoder failure is reported with the decoder's message and no array is produced |
| SpriteProgram.SizeMismatchReported | SpriteConverter/Program.cs:48-56 | an existing, decodable image that is not 16x16 gives `SizeMismatch` with its actual size, and no array |
| SpriteProgram.GeneratedOutput | SpriteConverter/Program.cs:45-84 | an array is generated exactly when there is an argument, the file exists, it decodes and it is 16x16. The output is then 23 lines: the header naming the file, rows 0 to 14 each indented with a comma, row 15 indented without one, then the footer |

## Left out

- Console I/O. This covers the opening banner, the usage text, the wording and colour of
  the error messages, and the `Console.ReadLine` pauses. An error is returned as data
  (`NotFound(path)`, `DecodeError(message)`, `SizeMismatch(width, height)`), not as text.
- Image decoding (`Image.Load<Rgba32>`, `DangerousGetPixelRowMemory`) is a foreign
  library. It is replaced by the `DecodeOutcome` input: a width, a height and a pixel
  grid, or a failure message.
- `File.Exists` and `Path.GetFileName` are file-system and path-library calls. Their
  answers are the `fileExists` and `fileName` inputs.
- The `catch` block is modelled only for decoder failures. Exceptions raised while
  writing to the console are not modelled.
- Disposing the image handle (`using`) is resource management. It has no effect on the
  output.
- Running the converter twice on the same input gives the same output. This holds because
  `Program` is a function and `Run` is proved equal to it, so it has no lemma of its own.
