/**
 * The text form of a sampled matrix, as the activity shows it: one line per
 * row, lines joined by a newline, and within a line one `(r,g,b)` token per
 * pixel, tokens joined by a single space; each channel is written in decimal.
 *
 * Beside the formatter stands its inverse, a parser, and the lemma that
 * parsing the text of a matrix with at least one row gives back the channels
 * of every pixel.
 */
module MatrixText {
  import opened Pixels

  datatype Option<T> = None | Some(value: T)

  /** The three channels the text shows for one pixel. */
  datatype Rgb = Rgb(red: Channel, green: Channel, blue: Channel)

  function RgbOf(p: Int32): Rgb { Rgb(Red(p), Green(p), Blue(p)) }

  function RgbRow(row: seq<Int32>): seq<Rgb>
  {
    seq(|row|, j requires 0 <= j < |row| => RgbOf(row[j]))
  }

  /** The channel values of every pixel of a matrix, row by row. */
  function RgbMatrix(m: seq<seq<Int32>>): (r: seq<seq<Rgb>>)
    ensures |r| == |m|
    ensures forall i :: 0 <= i < |m| ==> |r[i]| == |m[i]|
    ensures forall i, j :: 0 <= i < |m| && 0 <= j < |m[i]| ==> r[i][j] == RgbOf(m[i][j])
  {
    seq(|m|, i requires 0 <= i < |m| => RgbRow(m[i]))
  }

  // ---------------------------------------------------------------------
  // Decimal numerals

  predicate IsDigit(c: char) { '0' <= c <= '9' }

  predicate IsDigits(s: string) { forall i :: 0 <= i < |s| ==> IsDigit(s[i]) }

  function DigitChar(d: nat): (c: char)
    requires d < 10
    ensures IsDigit(c)
  {
    ('0' as int + d) as char
  }

  function DigitValue(c: char): nat
    requires IsDigit(c)
  {
    c as int - '0' as int
  }

  /**
   * The decimal numeral of `n`, as string templates render an `Int`: at
   * least one digit, and a leading zero only in the numeral of zero itself.
   */
  function Decimal(n: nat): (s: string)
    ensures |s| >= 1 && IsDigits(s)
    ensures s[0] == '0' <==> n == 0
    decreases n
  {
    if n < 10 then [DigitChar(n)] else Decimal(n / 10) + [DigitChar(n % 10)]
  }

  /** The number a string of digits denotes, most significant digit first. */
  function DigitsValue(s: string): nat
    requires IsDigits(s)
  {
    if s == [] then 0 else DigitsValue(s[..|s| - 1]) * 10 + DigitValue(s[|s| - 1])
  }

  /** A channel written in decimal, or `None` if the text is not one. */
  function ParseChannel(s: string): Option<Channel>
  {
    if s != [] && IsDigits(s) && DigitsValue(s) < 0x100 then Some(DigitsValue(s)) else None
  }

  /** The numeral of `n` denotes `n`. */
  lemma {:induction false} DecimalValue(n: nat)
    ensures DigitsValue(Decimal(n)) == n
    decreases n
  {
    var s := Decimal(n);
    if n < 10 {
      assert s[..0] == [];
    } else {
      DecimalValue(n / 10);
      assert s[..|s| - 1] == Decimal(n / 10);
    }
  }

  /** Every channel survives being written out and read back. */
  lemma ParseChannelOfDecimal(c: Channel)
    ensures ParseChannel(Decimal(c)) == Some(c)
  {
    DecimalValue(c);
  }

  // ---------------------------------------------------------------------
  // Joining and splitting

  /**
   * `joinToString(sep)` over strings: the parts in order, with one `sep`
   * between each two neighbours and none at either end: when no part holds
   * `sep`, the joined text holds exactly one fewer `sep` than there are parts.
   */
  function Join(parts: seq<string>, sep: char): (s: string)
    ensures |parts| >= 1 && (forall i :: 0 <= i < |parts| ==> sep !in parts[i]) ==>
              multiset(s)[sep] == |parts| - 1
  {
    if |parts| == 0 then ""
    else if |parts| == 1 then parts[0]
    else parts[0] + [sep] + Join(parts[1..], sep)
  }

  /**
   * The pieces of `s` between occurrences of `sep`: always at least one,
   * none containing `sep`.
   */
  function Split(s: string, sep: char): (parts: seq<string>)
    ensures |parts| >= 1
    ensures forall i :: 0 <= i < |parts| ==> sep !in parts[i]
  {
    if s == [] then [""]
    else
      var rest := Split(s[1..], sep);
      if s[0] == sep then [""] + rest else [[s[0]] + rest[0]] + rest[1..]
  }

  lemma {:induction false} SplitWithoutSeparator(s: string, sep: char)
    requires sep !in s
    ensures Split(s, sep) == [s]
    decreases |s|
  {
    if s != [] {
      SplitWithoutSeparator(s[1..], sep);
      assert [s[0]] + s[1..] == s;
    }
  }

  lemma {:induction false} SplitAtFirstSeparator(a: string, b: string, sep: char)
    requires sep !in a
    ensures Split(a + [sep] + b, sep) == [a] + Split(b, sep)
    decreases |a|
  {
    var s := a + [sep] + b;
    if a == [] {
      assert s[1..] == b;
    } else {
      assert s[1..] == a[1..] + [sep] + b;
      SplitAtFirstSeparator(a[1..], b, sep);
      assert [a[0]] + a[1..] == a;
    }
  }

  /** Splitting undoes joining when no part contains the separator. */
  lemma {:induction false} SplitJoin(parts: seq<string>, sep: char)
    requires |parts| >= 1
    requires forall i :: 0 <= i < |parts| ==> sep !in parts[i]
    ensures Split(Join(parts, sep), sep) == parts
    decreases |parts|
  {
    if |parts| == 1 {
      SplitWithoutSeparator(parts[0], sep);
    } else {
      SplitJoin(parts[1..], sep);
      SplitAtFirstSeparator(parts[0], Join(parts[1..], sep), sep);
      assert [parts[0]] + parts[1..] == parts;
    }
  }

  /** A character that is neither the separator nor in any part is not in the joined text. */
  lemma {:induction false} JoinAvoids(parts: seq<string>, sep: char, c: char)
    requires c != sep
    requires forall i :: 0 <= i < |parts| ==> c !in parts[i]
    ensures c !in Join(parts, sep)
    decreases |parts|
  {
    if |parts| > 1 {
      JoinAvoids(parts[1..], sep, c);
    }
  }

  /** Joining gives the empty text only for no parts or for a single empty part. */
  lemma {:induction false} JoinEmpty(parts: seq<string>, sep: char)
    ensures Join(parts, sep) == "" <==> |parts| == 0 || (|parts| == 1 && parts[0] == "")
  {
  }

  // ---------------------------------------------------------------------
  // The formatter

  /** One pixel as `(r,g,b)`. */
  function PixelToken(p: Int32): (t: string)
    ensures |t| >= 7 && t[0] == '(' && t[|t| - 1] == ')'
    ensures ' ' !in t && '\n' !in t
  {
    "(" + Decimal(Red(p)) + "," + Decimal(Green(p)) + "," + Decimal(Blue(p)) + ")"
  }

  function RowTokens(row: seq<Int32>): seq<string>
  {
    seq(|row|, j requires 0 <= j < |row| => PixelToken(row[j]))
  }

  /** One row: its pixels' tokens joined by single spaces. */
  function FormatRow(row: seq<Int32>): (line: string)
    ensures '\n' !in line
    ensures line == "" <==> row == []
  {
    var tokens := RowTokens(row);
    JoinAvoids(tokens, ' ', '\n');
    JoinEmpty(tokens, ' ');
    Join(tokens, ' ')
  }

  function RowLines(m: seq<seq<Int32>>): seq<string>
  {
    seq(|m|, i requires 0 <= i < |m| => FormatRow(m[i]))
  }

  /**
   * The whole matrix: its rows' lines joined by newlines. A matrix with rows
   * has one line break fewer than rows, and its text is empty only when it
   * has no pixels in at most one row.
   */
  function FormatMatrix(m: seq<seq<Int32>>): (text: string)
    ensures |m| >= 1 ==> multiset(text)['\n'] == |m| - 1
    ensures text == "" <==> |m| == 0 || (|m| == 1 && m[0] == [])
  {
    var lines := RowLines(m);
    JoinEmpty(lines, '\n');
    Join(lines, '\n')
  }

  /** The text of a matrix with at least one row splits at newlines into exactly its rows' lines. */
  lemma LinesOfFormatMatrix(m: seq<seq<Int32>>)
    requires |m| >= 1
    ensures |Split(FormatMatrix(m), '\n')| == |m|
    ensures forall i :: 0 <= i < |m| ==> Split(FormatMatrix(m), '\n')[i] == FormatRow(m[i])
  {
    SplitJoin(RowLines(m), '\n');
  }

  /** The line of a non-empty row splits at spaces into exactly one token per pixel. */
  lemma TokensOfFormatRow(row: seq<Int32>)
    requires |row| >= 1
    ensures |Split(FormatRow(row), ' ')| == |row|
    ensures forall j :: 0 <= j < |row| ==> Split(FormatRow(row), ' ')[j] == PixelToken(row[j])
  {
    SplitJoin(RowTokens(row), ' ');
  }

  /**
   * No rows and a single empty row print the same (empty) text, so the text
   * alone cannot tell them apart.
   */
  lemma EmptyMatrixTexts()
    ensures FormatMatrix([]) == FormatMatrix([[]]) == ""
  {
  }

  // ---------------------------------------------------------------------
  // The parser

  /** `(r,g,b)` back to its channels. */
  function ParseToken(t: string): Option<Rgb>
  {
    if |t| < 2 || t[0] != '(' || t[|t| - 1] != ')' then None
    else
      var fields := Split(t[1..|t| - 1], ',');
      if |fields| != 3 then None
      else
        var r, g, b := ParseChannel(fields[0]), ParseChannel(fields[1]), ParseChannel(fields[2]);
        if r.Some? && g.Some? && b.Some? then Some(Rgb(r.value, g.value, b.value)) else None
  }

  function ParseTokens(tokens: seq<string>): (r: Option<seq<Rgb>>)
    ensures r.Some? ==> |r.value| == |tokens|
  {
    if tokens == [] then Some([])
    else
      var head, tail := ParseToken(tokens[0]), ParseTokens(tokens[1..]);
      if head.Some? && tail.Some? then Some([head.value] + tail.value) else None
  }

  /** A line back to its pixels: the empty line is an empty row. */
  function ParseRow(line: string): Option<seq<Rgb>>
  {
    if line == "" then Some([]) else ParseTokens(Split(line, ' '))
  }

  function ParseRows(lines: seq<string>): (r: Option<seq<seq<Rgb>>>)
    ensures r.Some? ==> |r.value| == |lines|
  {
    if lines == [] then Some([])
    else
      var head, tail := ParseRow(lines[0]), ParseRows(lines[1..]);
      if head.Some? && tail.Some? then Some([head.value] + tail.value) else None
  }

  /** The text back to the channels of the matrix. */
  function ParseMatrix(text: string): Option<seq<seq<Rgb>>>
  {
    ParseRows(Split(text, '\n'))
  }

  lemma SplitThree(a: string, b: string, c: string, sep: char)
    requires sep !in a && sep !in b && sep !in c
    ensures Split(a + [sep] + b + [sep] + c, sep) == [a, b, c]
  {
    var bc := b + [sep] + c;
    assert a + [sep] + b + [sep] + c == a + [sep] + bc;
    SplitWithoutSeparator(c, sep);
    SplitAtFirstSeparator(b, c, sep);
    assert Split(bc, sep) == [b, c];
    SplitAtFirstSeparator(a, bc, sep);
    assert Split(a + [sep] + bc, sep) == [a] + [b, c];
  }

  /** A token built from three comma-free numerals reads back as their channels. */
  lemma ParseTokenOfFields(r: string, g: string, b: string, red: Channel, green: Channel, blue: Channel)
    requires ParseChannel(r) == Some(red) && ParseChannel(g) == Some(green) && ParseChannel(b) == Some(blue)
    requires ',' !in r && ',' !in g && ',' !in b
    ensures ParseToken("(" + r + "," + g + "," + b + ")") == Some(Rgb(red, green, blue))
  {
    var t := "(" + r + "," + g + "," + b + ")";
    var inner := r + [','] + g + [','] + b;
    assert t == ['('] + inner + [')'];
    assert t[1..|t| - 1] == inner;
    SplitThree(r, g, b, ',');
  }

  /** A pixel's token reads back as its channels. */
  lemma ParsePixelToken(p: Int32)
    ensures ParseToken(PixelToken(p)) == Some(RgbOf(p))
  {
    var r, g, b := Decimal(Red(p)), Decimal(Green(p)), Decimal(Blue(p));
    assert ',' !in r && ',' !in g && ',' !in b;
    ParseChannelOfDecimal(Red(p));
    ParseChannelOfDecimal(Green(p));
    ParseChannelOfDecimal(Blue(p));
    ParseTokenOfFields(r, g, b, Red(p), Green(p), Blue(p));
  }

  /** An opaque pixel with channels 200, 100 and 50 is shown as `(200,100,50)`. */
  lemma PixelTokenExample()
    ensures PixelToken(Argb(0xFF, 200, 100, 50)) == "(200,100,50)"
  {
    ChannelsOfArgb(0xFF, 200, 100, 50);
    DecimalExamples();
  }

  lemma DecimalExamples()
    ensures Decimal(200) == "200" && Decimal(100) == "100" && Decimal(50) == "50"
  {
    assert Decimal(20) == "20" && Decimal(10) == "10";
  }

  /** Tokens that each read back as a pixel read back, together, as the row of those pixels. */
  lemma {:induction false} ParseTokensPointwise(tokens: seq<string>, pixels: seq<Rgb>)
    requires |tokens| == |pixels|
    requires forall j :: 0 <= j < |tokens| ==> ParseToken(tokens[j]) == Some(pixels[j])
    ensures ParseTokens(tokens) == Some(pixels)
    decreases |tokens|
  {
    if tokens != [] {
      var rest, restOut := tokens[1..], pixels[1..];
      forall k | 0 <= k < |rest| ensures ParseToken(rest[k]) == Some(restOut[k]) {
        assert rest[k] == tokens[k + 1] && restOut[k] == pixels[k + 1];
      }
      ParseTokensPointwise(rest, restOut);
      assert ParseToken(tokens[0]) == Some(pixels[0]);
      assert pixels == [pixels[0]] + restOut;
    }
  }

  /** Lines that each read back as a row read back, together, as the matrix of those rows. */
  lemma {:induction false} ParseRowsPointwise(lines: seq<string>, rows: seq<seq<Rgb>>)
    requires |lines| == |rows|
    requires forall i :: 0 <= i < |lines| ==> ParseRow(lines[i]) == Some(rows[i])
    ensures ParseRows(lines) == Some(rows)
    decreases |lines|
  {
    if lines != [] {
      var rest, restOut := lines[1..], rows[1..];
      forall k | 0 <= k < |rest| ensures ParseRow(rest[k]) == Some(restOut[k]) {
        assert rest[k] == lines[k + 1] && restOut[k] == rows[k + 1];
      }
      ParseRowsPointwise(rest, restOut);
      assert ParseRow(lines[0]) == Some(rows[0]);
      assert rows == [rows[0]] + restOut;
    }
  }

  /** A row's line reads back as the channels of its pixels. */
  lemma ParseFormatRow(row: seq<Int32>)
    ensures ParseRow(FormatRow(row)) == Some(RgbRow(row))
  {
    if row == [] {
      assert RgbRow(row) == [];
    } else {
      var tokens := RowTokens(row);
      assert FormatRow(row) == Join(tokens, ' ') != "";
      SplitJoin(tokens, ' ');
      forall j | 0 <= j < |tokens| ensures ParseToken(tokens[j]) == Some(RgbRow(row)[j]) {
        ParsePixelToken(row[j]);
      }
      ParseTokensPointwise(tokens, RgbRow(row));
    }
  }

  /**
   * Round trip: the text of a matrix with at least one row parses back to
   * the red, green and blue channels of every one of its pixels, row by row.
   */
  lemma ParseFormatMatrix(m: seq<seq<Int32>>)
    requires |m| >= 1
    ensures ParseMatrix(FormatMatrix(m)) == Some(RgbMatrix(m))
  {
    var lines := RowLines(m);
    SplitJoin(lines, '\n');
    forall i | 0 <= i < |lines| ensures ParseRow(lines[i]) == Some(RgbMatrix(m)[i]) {
      ParseFormatRow(m[i]);
    }
    ParseRowsPointwise(lines, RgbMatrix(m));
  }
}
