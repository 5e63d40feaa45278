/**
 * The numbered listing the report generator prints for each source file: the
 * (sanitized) text is split on line breaks, every line longer than 85
 * characters is cut to 85 and marked with "...", and each line is emitted as
 * its number right-aligned in four columns, " | ", the line and a line break.
 *
 * Listing is the specification; NumberLines is the source's accumulating loop,
 * proved to produce Listing; RenderSource is sanitizing followed by numbering,
 * as the source does it for each file.
 */
module SourceListing {
  import opened PyStr
  import Sanitize

  /** Lines longer than this are cut. */
  const MaxLineLength: nat := 85

  /** Marks a line that was cut. */
  const Ellipsis: string := "..."

  /** Between the line number and the line. */
  const Separator: string := " | "

  /** The body printed for one line: a line of at most 85 characters is kept
      whole; a longer one keeps its first 85 characters, followed by "...".
      Either way the body has at most 88 characters. */
  function Clip(line: string): (body: string)
    ensures |body| <= MaxLineLength + |Ellipsis|
    ensures |line| <= MaxLineLength ==> body == line
    ensures |line| > MaxLineLength ==>
      |body| == MaxLineLength + |Ellipsis| &&
      body[..MaxLineLength] == line[..MaxLineLength] && body[MaxLineLength..] == Ellipsis
  {
    if |line| > MaxLineLength then line[..MaxLineLength] + Ellipsis else line
  }

  /** The row printed for line number `n`, without its line break: the
      number's four-wide field, the separator, then the line's body. */
  function Row(n: nat, line: string): (r: string)
    ensures |r| == |FormatWidth4(n)| + |Separator| + |Clip(line)|
  {
    FormatWidth4(n) + Separator + Clip(line)
  }

  /** The rows for `lines`, numbered consecutively from `n`. */
  function Rows(lines: seq<string>, n: nat): (rows: seq<string>)
    ensures |rows| == |lines|
  {
    seq(|lines|, k requires 0 <= k < |lines| => Row(n + k, lines[k]))
  }

  /** Every row followed by a line break. */
  function Terminated(rows: seq<string>): (out: string)
    ensures rows == [] <==> out == []
    ensures rows != [] ==> out[|out| - 1] == '\n'
  {
    if rows == [] then [] else rows[0] + "\n" + Terminated(rows[1..])
  }

  /** The listing of `lines` numbered from `n`: empty only for no lines, and
      otherwise ending in a line break. */
  function Listing(lines: seq<string>, n: nat): (out: string)
    ensures lines == [] <==> out == []
    ensures lines != [] ==> out[|out| - 1] == '\n'
  {
    Terminated(Rows(lines, n))
  }

  /** The source's loop: `enumerate(linhas, 1)` over the pieces of
      `codigo.split('\n')`, cutting long lines and appending each formatted row
      to the accumulated text. The result has one row per piece, in order, and
      nothing after the last row's line break. */
  method NumberLines(code: string) returns (numbered: string)
    ensures numbered == Listing(Split(code, '\n'), 1)
    ensures Split(numbered, '\n') == Rows(Split(code, '\n'), 1) + [""]
  {
    var lines := Split(code, '\n');
    ghost var rows := Rows(lines, 1);
    numbered := "";
    assert rows[0..] == rows;
    assert numbered + Terminated(rows[0..]) == Terminated(rows);
    for i := 1 to |lines| + 1
      invariant numbered + Terminated(rows[i - 1..]) == Terminated(rows)
    {
      var line := lines[i - 1];
      if |line| > MaxLineLength {
        line := line[..MaxLineLength] + Ellipsis;
      }
      assert line == Clip(lines[i - 1]);
      var row := FormatWidth4(i) + Separator + line;
      assert row == rows[i - 1];
      AppendRow(numbered, rows, i);
      numbered := numbered + row + "\n";
    }
    ListingLines(lines, 1);
  }

  /** Appending row `i` (counted from 1) moves one row from the part still to
      print to the part printed. */
  lemma AppendRow(printed: string, rows: seq<string>, i: nat)
    requires 1 <= i <= |rows|
    requires printed + Terminated(rows[i - 1..]) == Terminated(rows)
    ensures printed + rows[i - 1] + "\n" + Terminated(rows[i..]) == Terminated(rows)
  {
    var rest := rows[i - 1..];
    assert rest[0] == rows[i - 1] && rest[1..] == rows[i..];
    var tail := Terminated(rows[i..]);
    assert Terminated(rest) == rows[i - 1] + "\n" + tail;
    ConcatAssoc(printed, rows[i - 1] + "\n", tail);
  }

  lemma ConcatAssoc(a: string, b: string, c: string)
    ensures a + (b + c) == a + b + c
  {
  }

  /** What the source does for each file: sanitize the text, then number its
      lines. The listing is Latin-1 throughout and has one row for every line
      of the original text. */
  method RenderSource(code: string) returns (numbered: string)
    ensures numbered == Listing(Split(Sanitize.Sanitized(Sanitize.Replacements(), code), '\n'), 1)
    ensures forall c :: c in numbered ==> IsLatin1(c)
    ensures |Split(numbered, '\n')| == |Split(code, '\n')| + 1
  {
    var sanitized := Sanitize.SanitizeText(code);
    numbered := NumberLines(sanitized);
    Sanitize.SanitizedLines(Sanitize.Replacements(), code);
    ListingLatin1(Split(sanitized, '\n'), 1);
  }

  // ---------------------------------------------------------------------------
  // Properties of the listing

  /** A row holds no line break when its line holds none. */
  lemma RowNoBreak(n: nat, line: string)
    requires '\n' !in line
    ensures '\n' !in Row(n, line)
  {
    var b := Clip(line);
    if |line| > MaxLineLength {
      assert forall c :: c in line[..MaxLineLength] ==> c in line;
    }
    assert '\n' !in b;
  }

  /** Terminated rows are the rows joined by line breaks, plus a final one. */
  lemma {:induction false} TerminatedIsJoin(rows: seq<string>)
    ensures Terminated(rows) == Join(rows + [""], '\n')
  {
    if rows != [] {
      TerminatedIsJoin(rows[1..]);
      assert (rows + [""])[0] == rows[0];
      assert (rows + [""])[1..] == rows[1..] + [""];
    } else {
      assert rows + [""] == [""];
    }
  }

  /** The rows of separator-free lines hold no line break. */
  lemma RowsNoBreak(lines: seq<string>, n: nat)
    requires forall k :: 0 <= k < |lines| ==> '\n' !in lines[k]
    ensures forall k :: 0 <= k < |lines| ==> '\n' !in Rows(lines, n)[k]
  {
    forall k | 0 <= k < |lines| ensures '\n' !in Rows(lines, n)[k] {
      RowNoBreak(n + k, lines[k]);
    }
  }

  /** Read back line by line, the listing of separator-free lines is exactly
      its rows, in order, with nothing after the last line break. */
  lemma ListingLines(lines: seq<string>, n: nat)
    requires forall k :: 0 <= k < |lines| ==> '\n' !in lines[k]
    ensures Split(Listing(lines, n), '\n') == Rows(lines, n) + [""]
  {
    var rows := Rows(lines, n);
    var pieces := rows + [""];
    RowsNoBreak(lines, n);
    assert forall k :: 0 <= k < |pieces| ==> '\n' !in pieces[k] by {
      forall k | 0 <= k < |pieces| ensures '\n' !in pieces[k] {
        if k < |rows| { assert pieces[k] == rows[k]; }
      }
    }
    TerminatedIsJoin(rows);
    SplitJoin(pieces, '\n');
  }

  /** For numbers up to 9999, a row reads as: the number's numeral
      right-aligned in the first four columns, " | ", then the line's body. */
  lemma RowFields(n: nat, line: string)
    requires n <= 9999
    ensures var r := Row(n, line);
      |r| >= 7 && r[4..7] == Separator && r[7..] == Clip(line)
      && TrimLeadingSpaces(r[..4]) == Decimal(n)
      && ParseDecimal(TrimLeadingSpaces(r[..4])) == n
  {
    FormatWidth4RoundTrip(n);
    var r := Row(n, line);
    assert r[..4] == FormatWidth4(n);
  }

  /** Empty text still gives one numbered, empty row. */
  lemma EmptyListing()
    ensures Listing(Split("", '\n'), 1) == "   1 | \n"
  {
    assert Decimal(1) == "1";
    assert FormatWidth4(1) == "   1";
  }

  /** Terminated Latin-1 rows are Latin-1. */
  lemma {:induction false} TerminatedLatin1(rows: seq<string>)
    requires forall k, c :: 0 <= k < |rows| && c in rows[k] ==> IsLatin1(c)
    ensures forall c :: c in Terminated(rows) ==> IsLatin1(c)
  {
    if rows != [] {
      TerminatedLatin1(rows[1..]);
    }
  }

  /** A listing of Latin-1 lines is Latin-1. */
  lemma ListingLatin1(lines: seq<string>, n: nat)
    requires forall k, c :: 0 <= k < |lines| && c in lines[k] ==> IsLatin1(c)
    ensures forall c :: c in Listing(lines, n) ==> IsLatin1(c)
  {
    var rows := Rows(lines, n);
    forall k, c | 0 <= k < |rows| && c in rows[k] ensures IsLatin1(c) {
      var line := lines[k];
      if |line| > MaxLineLength {
        assert forall x :: x in line[..MaxLineLength] ==> x in line;
      }
      assert forall x :: x in FormatWidth4(n + k) ==> IsLatin1(x);
      assert rows[k] == FormatWidth4(n + k) + Separator + Clip(line);
    }
    TerminatedLatin1(rows);
  }
}
