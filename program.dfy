/** The converter's entry point: argument check, file check, decoding, size check,
    conversion and rendering, in that order. What the file system, the image decoder
    and the path library answer for the given path are parameters. */
module SpriteProgram {
  import opened SpriteImage
  import opened SpriteConversion
  import opened SpriteRendering

  /** What the image decoder returned for the given path. */
  datatype DecodeOutcome = Decoded(image: Image) | Undecodable(message: string)

  /** How a run ends: the usage text, an error and no array, or the generated array. */
  datatype Outcome = Usage | Failed(error: Error) | Generated(lines: seq<string>)

  /** A decoded image always has the shape it reports. */
  predicate WellDecoded(decoded: DecodeOutcome) {
    decoded.Decoded? ==> decoded.image.Valid()
  }

  /** The outcome of a run on the command-line arguments `args`, where `fileExists`,
      `decoded` and `fileName` are what the file check, the decoder and the base-name
      lookup give for `args[0]`. */
  function Program(args: seq<string>, fileExists: bool, decoded: DecodeOutcome, fileName: string): (r: Outcome)
    requires WellDecoded(decoded)
    ensures r == Usage <==> |args| == 0
    ensures |args| > 0 && !fileExists ==> r == Failed(NotFound(args[0]))
    ensures |args| > 0 && fileExists && decoded.Undecodable? ==> r == Failed(DecodeError(decoded.message))
    ensures |args| > 0 && fileExists && decoded.Decoded? &&
            (decoded.image.width != SPRITE_SIZE || decoded.image.height != SPRITE_SIZE) ==>
              r == Failed(SizeMismatch(decoded.image.width, decoded.image.height))
    ensures r.Generated? ==> fileExists && decoded.Decoded?
  {
    if |args| == 0 then Usage
    else if !fileExists then Failed(NotFound(args[0]))
    else match decoded
      case Undecodable(message) => Failed(DecodeError(message))
      case Decoded(img) =>
        match Convert(img)
        case Err(e) => Failed(e)
        case Ok(binaryLines) => Generated(Render(fileName, binaryLines))
  }

  /** One run of the converter. */
  method Run(args: seq<string>, fileExists: bool, decoded: DecodeOutcome, fileName: string)
    returns (outcome: Outcome)
    requires WellDecoded(decoded)
    ensures outcome == Program(args, fileExists, decoded, fileName)
  {
    if |args| == 0 {
      return Usage;
    }
    var imagePath := args[0];
    if !fileExists {
      return Failed(NotFound(imagePath));
    }
    match decoded {
      case Undecodable(message) =>
        return Failed(DecodeError(message));
      case Decoded(image) =>
        var converted := ConvertImage(image);
        match converted {
          case Err(e) =>
            return Failed(e);
          case Ok(binaryLines) =>
            var lines := OutputResult(fileName, binaryLines);
            return Generated(lines);
        }
    }
  }

  /** A missing file is reported before any decoding: the decoder's answer and the file
      name play no part in the outcome. */
  lemma NotFoundSkipsDecode(args: seq<string>, decoded1: DecodeOutcome, decoded2: DecodeOutcome,
                            fileName1: string, fileName2: string)
    requires |args| > 0 && WellDecoded(decoded1) && WellDecoded(decoded2)
    ensures Program(args, false, decoded1, fileName1) == Program(args, false, decoded2, fileName2)
    ensures Program(args, false, decoded1, fileName1) == Failed(NotFound(args[0]))
  {
  }

  /** A decoder failure is reported with the decoder's message, and no array follows. */
  lemma DecodeFailureReported(args: seq<string>, message: string, fileName: string)
    requires |args| > 0
    ensures Program(args, true, Undecodable(message), fileName) == Failed(DecodeError(message))
  {
  }

  /** An image that is not 16x16 is reported with its actual size, and no array follows. */
  lemma SizeMismatchReported(args: seq<string>, img: Image, fileName: string)
    requires |args| > 0 && img.Valid()
    requires img.width != SPRITE_SIZE || img.height != SPRITE_SIZE
    ensures Program(args, true, Decoded(img), fileName) == Failed(SizeMismatch(img.width, img.height))
  {
  }

  /** The array is generated exactly when there is an argument, the file exists, it
      decodes, and the image is 16x16. The output then has twenty-three lines: the
      header naming the file, sixteen element lines, line `5 + y` being the string of
      pixel row `y` indented, with a comma after every row but the last, and the footer. */
  lemma GeneratedOutput(args: seq<string>, fileExists: bool, decoded: DecodeOutcome, fileName: string)
    requires WellDecoded(decoded)
    ensures Program(args, fileExists, decoded, fileName).Generated? <==>
              |args| > 0 && fileExists && decoded.Decoded? &&
              decoded.image.width == SPRITE_SIZE && decoded.image.height == SPRITE_SIZE
    ensures Program(args, fileExists, decoded, fileName).Generated? ==>
              var lines := Program(args, fileExists, decoded, fileName).lines;
              |lines| == 23 &&
              lines[..5] == HeaderLines(fileName) &&
              lines[21..] == FOOTER_LINES &&
              (forall y :: 0 <= y < 15 ==> lines[5 + y] == INDENT + RowString(decoded.image.rows[y]) + ",") &&
              lines[20] == INDENT + RowString(decoded.image.rows[15])
  {
    if Program(args, fileExists, decoded, fileName).Generated? {
      var img := decoded.image;
      var rows := Convert(img).value;
      ConvertRows(img);
      RenderShape(fileName, rows);
    }
  }
}
