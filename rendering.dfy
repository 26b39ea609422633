/** Rendering of the row strings as a C# array declaration. Each element of an
    output sequence is the text of one console line as the converter writes it
    (a leading "\n" inside an element is the blank line the converter prints before it). */
module SpriteRendering {

  /** Indentation of every array element. */
  const INDENT: string := "    "

  /** The lines before the array elements: a banner, a comment naming the source
      file, a usage comment, the declaration and the opening brace. */
  function HeaderLines(fileName: string): (r: seq<string>) {
    [ "\n--- Generated C# Binary Array ---",
      "// Sprite generated from: " + fileName,
      "// Use this in your C# code as a 16x16 sprite definition (ushort array).",
      "private readonly ushort[] SpriteData = new ushort[]",
      "{" ]
  }

  /** The lines after the array elements: the closing brace and a banner. */
  const FOOTER_LINES: seq<string> := ["};", "\n--- Conversion Complete ---"]

  /** The array elements as a comma-separated list: every element is indented and
      all but the last carry a trailing comma. */
  function Body(rows: seq<string>): (r: seq<string>)
    ensures |r| == |rows|
  {
    if |rows| == 0 then []
    else if |rows| == 1 then [INDENT + rows[0]]
    else [INDENT + rows[0] + ","] + Body(rows[1..])
  }

  /** The whole generated declaration. */
  function Render(fileName: string, rows: seq<string>): (r: seq<string>) {
    HeaderLines(fileName) + Body(rows) + FOOTER_LINES
  }

  /** Element `i` of the body is row `i`, indented, with a comma exactly when it is
      not the last row. */
  lemma {:induction false} BodyAt(rows: seq<string>, i: nat)
    requires i < |rows|
    ensures Body(rows)[i] == INDENT + rows[i] + (if i < |rows| - 1 then "," else "")
  {
    if i > 0 {
      BodyAt(rows[1..], i - 1);
    }
  }

  /** The output is framed by the header, with the file name in its comment line, and
      the footer; between the opening `{` and the closing `};` sit exactly one line per
      row, line `i` being row `i` indented and followed by a comma unless it is last. */
  lemma RenderShape(fileName: string, rows: seq<string>)
    ensures |Render(fileName, rows)| == |rows| + 7
    ensures Render(fileName, rows)[..5] == HeaderLines(fileName)
    ensures Render(fileName, rows)[1] == "// Sprite generated from: " + fileName
    ensures Render(fileName, rows)[3] == "private readonly ushort[] SpriteData = new ushort[]"
    ensures Render(fileName, rows)[4] == "{"
    ensures Render(fileName, rows)[5 + |rows|] == "};"
    ensures Render(fileName, rows)[|rows| + 5..] == FOOTER_LINES
    ensures forall i :: 0 <= i < |rows| ==>
              Render(fileName, rows)[5 + i] == INDENT + rows[i] + (if i < |rows| - 1 then "," else "")
  {
    var out := Render(fileName, rows);
    forall i | 0 <= i < |rows|
      ensures out[5 + i] == INDENT + rows[i] + (if i < |rows| - 1 then "," else "")
    {
      BodyAt(rows, i);
    }
  }

  /** The output loop: the header, then each row indented with a comma after every
      row but the last, then the footer. */
  method OutputResult(fileName: string, binaryLines: seq<string>) returns (lines: seq<string>)
    ensures lines == Render(fileName, binaryLines)
  {
    lines := HeaderLines(fileName);
    var i := 0;
    while i < |binaryLines|
      invariant 0 <= i <= |binaryLines|
      invariant lines == HeaderLines(fileName) + Body(binaryLines)[..i]
    {
      var line := binaryLines[i];
      var formattedLine := INDENT + line;
      if i < |binaryLines| - 1 {
        formattedLine := formattedLine + ",";
      }
      BodyAt(binaryLines, i);
      assert INDENT + line + "" == INDENT + line;
      assert formattedLine == Body(binaryLines)[i];
      assert Body(binaryLines)[..i + 1] == Body(binaryLines)[..i] + [formattedLine];
      lines := lines + [formattedLine];
      i := i + 1;
    }
    assert Body(binaryLines)[..i] == Body(binaryLines);
    lines := lines + FOOTER_LINES;
  }
}
