/**
  The text the capture encoder prints: per row `#x,y,w`, then `,count:colour`
  per run (count in decimal, colour in lower-case hexadecimal), then a line
  break. A parser for that text, as an offline screenshot tool would read it,
  recovers the rows exactly.
 */
module CaptureText {
  import opened Wrappers
  import opened RunLength
  import opened Capture
  import opened Numerals

  /** The fields of a line joined by a separator. */
  function Join(fields: seq<string>, sep: char): string
    requires |fields| > 0
  {
    if |fields| == 1 then fields[0] else Join(DropLast(fields), sep) + [sep] + Last(fields)
  }

  /** A string cut at every separator (a string without one is one field). */
  function Split(s: string, sep: char): (fields: seq<string>)
    ensures |fields| > 0
  {
    if |s| == 0 then [""]
    else
      var fields := Split(DropLast(s), sep);
      if Last(s) == sep then fields + [""]
      else DropLast(fields) + [Last(fields) + [Last(s)]]
  }

  /** `,%hu:%hx` for one run, without the leading comma: the count in
      decimal digits, a colon, the colour in hexadecimal digits. */
  function RunText(r: Run): (s: string)
    ensures |Dec(r.count)| < |s| && s[|Dec(r.count)|] == ':'
    ensures AllDigits(s[..|Dec(r.count)|], 10) && AllDigits(s[|Dec(r.count)| + 1..], 16)
  {
    var count, colour := Dec(r.count), Hex(r.color as int);
    var s := count + ":" + colour;
    assert s[..|count|] == count && s[|count| + 1..] == colour;
    s
  }

  /** The runs of a row as the encoder prints them, each after a comma. Each
      run takes at least four characters: the comma, a digit, the colon and
      a digit. */
  function RunsText(runs: seq<Run>): (s: string)
    ensures |s| >= 4 * |runs|
    ensures |runs| > 0 ==> s[0] == ','
  {
    if |runs| == 0 then "" else RunsText(DropLast(runs)) + "," + RunText(Last(runs))
  }

  /** One printed row: `#%d,%d,%ld`, the runs, and a line break. */
  function RowText(row: Row): (s: string)
    ensures |s| >= 7 + 4 * |row.runs|
    ensures s[0] == '#' && Last(s) == '\n'
  {
    "#" + IntText(row.header.x) + "," + IntText(row.header.y) + "," + IntText(row.header.width)
      + RunsText(row.runs) + "\n"
  }

  /** Everything printed for one captured area: nothing for no rows, and
      otherwise text that starts a row and ends a line. */
  function CaptureOutput(rows: seq<Row>): (s: string)
    ensures |rows| == 0 <==> s == ""
    ensures |rows| > 0 ==> s[0] == '#' && Last(s) == '\n'
  {
    if |rows| == 0 then "" else CaptureOutput(DropLast(rows)) + RowText(Last(rows))
  }

  function RunFields(runs: seq<Run>): (fields: seq<string>)
    ensures |fields| == |runs|
    ensures forall i :: 0 <= i < |runs| ==> fields[i] == RunText(runs[i])
  {
    seq(|runs|, i requires 0 <= i < |runs| => RunText(runs[i]))
  }

  /** The comma-separated fields of a row, after the `#`. */
  function RowFields(row: Row): seq<string>
  {
    [IntText(row.header.x), IntText(row.header.y), IntText(row.header.width)] + RunFields(row.runs)
  }

  /** A printed row without its line break. */
  function RowLine(row: Row): string
  {
    "#" + Join(RowFields(row), ',')
  }

  function ParseRun(field: string): Option<Run>
  {
    var parts := Split(field, ':');
    if |parts| != 2 then None
    else
      match (ParseDigits(parts[0], 10), ParseDigits(parts[1], 16))
      case (Some(n), Some(c)) => if c < 256 then Some(Run(n, c as bv8)) else None
      case _ => None
  }

  /** Parses every item with `parse`, in order; fails as soon as one item does. */
  function ParseEach<T>(items: seq<string>, parse: string -> Option<T>): Option<seq<T>>
  {
    if |items| == 0 then Some([])
    else
      match (ParseEach(DropLast(items), parse), parse(Last(items)))
      case (Some(done), Some(x)) => Some(done + [x])
      case _ => None
  }

  function ParseRuns(fields: seq<string>): Option<seq<Run>>
  {
    ParseEach(fields, ParseRun)
  }

  /** Reads one line (without its line break) back into a row. */
  function ParseRow(line: string): Option<Row>
  {
    if |line| == 0 || line[0] != '#' then None
    else
      var fields := Split(line[1..], ',');
      if |fields| < 3 then None
      else
        match (ParseInt(fields[0]), ParseInt(fields[1]), ParseInt(fields[2]), ParseRuns(fields[3..]))
        case (Some(x), Some(y), Some(w), Some(runs)) => Some(Row(Header(x, y, w), runs))
        case _ => None
  }

  function ParseLines(lines: seq<string>): Option<seq<Row>>
  {
    ParseEach(lines, ParseRow)
  }

  /** Reads the printed capture of an area back into rows: every line must
      end with a line break and parse as a row. */
  function ParseCapture(text: string): Option<seq<Row>>
  {
    var lines := Split(text, '\n');
    if Last(lines) != "" then None else ParseLines(DropLast(lines))
  }

  lemma {:induction false} SplitAppendFree(t: string, f: string, sep: char)
    requires sep !in f
    ensures Split(t + f, sep) == DropLast(Split(t, sep)) + [Last(Split(t, sep)) + f]
    decreases |f|
  {
    var parts := Split(t, sep);
    if |f| == 0 {
      assert t + f == t;
      assert Last(parts) + f == Last(parts);
      assert DropLast(parts) + [Last(parts)] == parts;
    } else {
      var g, c := DropLast(f), Last(f);
      assert f == g + [c];
      assert sep !in g;
      SplitAppendFree(t, g, sep);
      var before := Split(t + g, sep);
      assert DropLast(before) == DropLast(parts);
      assert Last(before) == Last(parts) + g;
      assert DropLast(t + f) == t + g;
      assert Last(t + f) == c && c != sep;
      assert Split(t + f, sep) == DropLast(before) + [Last(before) + [c]];
      assert (Last(parts) + g) + [c] == Last(parts) + f;
    }
  }

  lemma SplitAtSeparator(t: string, sep: char)
    ensures Split(t + [sep], sep) == Split(t, sep) + [""]
  {
    assert DropLast(t + [sep]) == t;
  }

  /** Splitting undoes joining when no field holds the separator. */
  lemma {:induction false} SplitJoin(fields: seq<string>, sep: char)
    requires |fields| > 0
    requires forall i :: 0 <= i < |fields| ==> sep !in fields[i]
    ensures Split(Join(fields, sep), sep) == fields
    decreases |fields|
  {
    var f := Last(fields);
    assert sep !in f;
    if |fields| == 1 {
      SplitAppendFree("", f, sep);
      assert "" + f == f;
      assert [f] == fields;
    } else {
      var init := DropLast(fields);
      var j := Join(init, sep);
      assert forall i :: 0 <= i < |init| ==> sep !in init[i] by {
        assert forall i :: 0 <= i < |init| ==> init[i] == fields[i];
      }
      var parts := Split(j + [sep], sep);
      assert parts == init + [""] by {
        SplitJoin(init, sep);
        SplitAtSeparator(j, sep);
      }
      SplitAppendFree(j + [sep], f, sep);
      assert Split(Join(fields, sep), sep) == DropLast(parts) + [Last(parts) + f] by {
        assert Join(fields, sep) == (j + [sep]) + f;
      }
      assert DropLast(parts) == init && Last(parts) + f == f;
      assert init + [f] == fields;
    }
  }

  lemma NoSeparatorInNumerals(i: int, n: nat, sep: char)
    requires !NumeralChar(sep)
    ensures sep !in IntText(i) && sep !in Dec(n) && sep !in Hex(n)
  {
    NumeralChars(i, n);
  }

  lemma RunTextNoComma(r: Run)
    ensures ',' !in RunText(r) && '\n' !in RunText(r)
  {
    NoSeparatorInNumerals(0, r.count, ',');
    NoSeparatorInNumerals(0, r.color as int, ',');
    NoSeparatorInNumerals(0, r.count, '\n');
    NoSeparatorInNumerals(0, r.color as int, '\n');
  }

  lemma ParseRunText(r: Run)
    ensures ParseRun(RunText(r)) == Some(r)
  {
    var a, b := Dec(r.count), Hex(r.color as int);
    assert Split(RunText(r), ':') == [a, b] by {
      NoSeparatorInNumerals(0, r.count, ':');
      NoSeparatorInNumerals(0, r.color as int, ':');
      assert Join([a, b], ':') == RunText(r) by {
        assert DropLast([a, b]) == [a];
      }
      SplitJoin([a, b], ':');
    }
    assert ParseDigits(a, 10) == Some(r.count) by {
      ParseDec(r.count);
    }
    assert ParseDigits(b, 16) == Some(r.color as int) by {
      ParseHex(r.color as int);
    }
  }

  /** Items that each parse on their own parse, together, in order. */
  lemma {:induction false} ParseEachOf<T>(items: seq<string>, parse: string -> Option<T>, parsed: seq<T>)
    requires |items| == |parsed|
    requires forall i :: 0 <= i < |items| ==> parse(items[i]) == Some(parsed[i])
    ensures ParseEach(items, parse) == Some(parsed)
    decreases |items|
  {
    if |items| > 0 {
      ParseEachOf(DropLast(items), parse, DropLast(parsed));
      assert parse(Last(items)) == Some(Last(parsed));
      assert DropLast(parsed) + [Last(parsed)] == parsed;
    }
  }

  lemma ParseRunFields(runs: seq<Run>)
    ensures ParseRuns(RunFields(runs)) == Some(runs)
  {
    forall i | 0 <= i < |runs|
      ensures ParseRun(RunFields(runs)[i]) == Some(runs[i])
    {
      ParseRunText(runs[i]);
    }
    ParseEachOf(RunFields(runs), ParseRun, runs);
  }

  /** Each field after a separator. */
  function Prefixed(fields: seq<string>, sep: char): string
  {
    if |fields| == 0 then "" else Prefixed(DropLast(fields), sep) + [sep] + Last(fields)
  }

  lemma {:induction false} JoinAppend(prefix: seq<string>, more: seq<string>, sep: char)
    requires |prefix| > 0
    ensures Join(prefix + more, sep) == Join(prefix, sep) + Prefixed(more, sep)
    decreases |more|
  {
    var fields := prefix + more;
    if |more| > 0 {
      var init, f := DropLast(more), Last(more);
      JoinAppend(prefix, init, sep);
      assert DropLast(fields) == prefix + init;
      assert Last(fields) == f;
      var j, rest := Join(prefix, sep), Prefixed(init, sep);
      assert Join(fields, sep) == (j + rest) + [sep] + f;
      assert (j + rest) + [sep] + f == j + (rest + [sep] + f);
    } else {
      assert fields == prefix;
    }
  }

  /** The printed runs are their fields, each after a comma. */
  lemma {:induction false} RunsTextPrefixed(runs: seq<Run>)
    ensures RunsText(runs) == Prefixed(RunFields(runs), ',')
    decreases |runs|
  {
    if |runs| > 0 {
      var init, r := DropLast(runs), Last(runs);
      var fields := RunFields(runs);
      assert DropLast(fields) == RunFields(init) && Last(fields) == RunText(r);
      calc {
        RunsText(runs);
        RunsText(init) + "," + RunText(r);
        { RunsTextPrefixed(init); }
        Prefixed(RunFields(init), ',') + [','] + RunText(r);
        Prefixed(fields, ',');
      }
    }
  }

  /** The printed row is its line and a line break. */
  lemma RowTextIsLine(row: Row)
    ensures RowText(row) == RowLine(row) + "\n"
  {
    var h := row.header;
    var a, b, c := IntText(h.x), IntText(h.y), IntText(h.width);
    JoinAppend([a, b, c], RunFields(row.runs), ',');
    RunsTextPrefixed(row.runs);
    JoinThree(a, b, c);
    Reassociate(a, b, c, RunsText(row.runs));
  }

  lemma JoinThree(a: string, b: string, c: string)
    ensures Join([a, b, c], ',') == a + "," + b + "," + c
  {
    assert DropLast([a, b, c]) == [a, b];
    assert DropLast([a, b]) == [a];
    assert Join([a], ',') == a;
    assert Join([a, b], ',') == a + "," + b;
  }

  lemma Reassociate(a: string, b: string, c: string, rest: string)
    ensures "#" + a + "," + b + "," + c + rest + "\n" == "#" + (a + "," + b + "," + c + rest) + "\n"
  {
  }

  lemma RunFieldsChars(runs: seq<Run>)
    ensures forall i :: 0 <= i < |runs| ==> ',' !in RunFields(runs)[i] && '\n' !in RunFields(runs)[i]
  {
    forall i | 0 <= i < |runs|
      ensures ',' !in RunText(runs[i]) && '\n' !in RunText(runs[i])
    {
      RunTextNoComma(runs[i]);
    }
  }

  /** No field of a row holds a comma or a line break. */
  lemma RowFieldsChars(row: Row)
    ensures forall i :: 0 <= i < |RowFields(row)| ==> ',' !in RowFields(row)[i] && '\n' !in RowFields(row)[i]
  {
    var h := row.header;
    NoSeparatorInNumerals(h.x, 0, ',');
    NoSeparatorInNumerals(h.y, 0, ',');
    NoSeparatorInNumerals(h.width, 0, ',');
    NoSeparatorInNumerals(h.x, 0, '\n');
    NoSeparatorInNumerals(h.y, 0, '\n');
    NoSeparatorInNumerals(h.width, 0, '\n');
    RunFieldsChars(row.runs);
    var fields := RowFields(row);
    assert forall i :: 3 <= i < |fields| ==> fields[i] == RunFields(row.runs)[i - 3];
  }

  lemma RowLineChars(row: Row)
    ensures '\n' !in RowLine(row)
    ensures forall i :: 0 <= i < |RowFields(row)| ==> ',' !in RowFields(row)[i]
  {
    RowFieldsChars(row);
    JoinNoChar(RowFields(row), ',', '\n');
  }

  lemma {:induction false} JoinNoChar(fields: seq<string>, sep: char, c: char)
    requires |fields| > 0 && sep != c
    requires forall i :: 0 <= i < |fields| ==> c !in fields[i]
    ensures c !in Join(fields, sep)
    decreases |fields|
  {
    if |fields| > 1 {
      JoinNoChar(DropLast(fields), sep, c);
    }
  }

  /** Reading back a printed line gives the row. */
  lemma ParseRowLine(row: Row)
    ensures ParseRow(RowLine(row)) == Some(row)
  {
    var fields := RowFields(row);
    RowLineChars(row);
    assert RowLine(row)[1..] == Join(fields, ',');
    SplitJoin(fields, ',');
    var h := row.header;
    ParseIntText(h.x);
    ParseIntText(h.y);
    ParseIntText(h.width);
    assert fields[3..] == RunFields(row.runs);
    ParseRunFields(row.runs);
  }

  /** The printed rows, each without its line break. */
  function Lines(rows: seq<Row>): (lines: seq<string>)
    ensures |lines| == |rows|
  {
    MapSeq(rows, RowLine)
  }

  lemma LinesHaveNoBreak(rows: seq<Row>)
    ensures forall i :: 0 <= i < |rows| ==> '\n' !in Lines(rows)[i]
  {
    MapSeqAt(rows, RowLine);
    forall i | 0 <= i < |rows| {
      RowLineChars(rows[i]);
    }
  }

  lemma {:induction false} CaptureOutputJoin(rows: seq<Row>)
    ensures CaptureOutput(rows) == Join(Lines(rows) + [""], '\n')
    decreases |rows|
  {
    if |rows| == 0 {
      assert Lines(rows) + [""] == [""];
    } else {
      var init, row := DropLast(rows), Last(rows);
      CaptureOutputJoin(init);
      RowTextIsLine(row);
      JoinLast(Lines(init), RowLine(row));
    }
  }

  /** Replacing the empty last field by `f` appends `f` to the joined text. */
  lemma JoinLast(fields: seq<string>, f: string)
    ensures Join(fields + [f] + [""], '\n') == Join(fields + [""], '\n') + f + "\n"
  {
    var a := fields + [f] + [""];
    assert DropLast(a) == fields + [f];
    assert Last(a) == "";
    if |fields| == 0 {
      assert fields + [""] == [""];
      assert fields + [f] == [f];
    } else {
      var b := fields + [""];
      assert DropLast(b) == fields;
      assert DropLast(fields + [f]) == fields;
    }
  }

  lemma ParseLinesOf(rows: seq<Row>)
    ensures ParseLines(Lines(rows)) == Some(rows)
  {
    MapSeqAt(rows, RowLine);
    forall i | 0 <= i < |rows|
      ensures ParseRow(Lines(rows)[i]) == Some(rows[i])
    {
      ParseRowLine(rows[i]);
    }
    ParseEachOf(Lines(rows), ParseRow, rows);
  }

  /** Round trip for the printed capture: parsing what the encoder prints for
      any rows gives back exactly those rows. */
  lemma ParseCaptureOutput(rows: seq<Row>)
    ensures ParseCapture(CaptureOutput(rows)) == Some(rows)
  {
    var ls := Lines(rows) + [""];
    assert forall i :: 0 <= i < |ls| ==> '\n' !in ls[i] by {
      LinesHaveNoBreak(rows);
      assert forall i :: 0 <= i < |rows| ==> ls[i] == Lines(rows)[i];
    }
    SplitJoin(ls, '\n');
    CaptureOutputJoin(rows);
    assert Split(CaptureOutput(rows), '\n') == ls;
    assert Last(ls) == "" && DropLast(ls) == Lines(rows);
    ParseLinesOf(rows);
  }

  /** What an offline tool rebuilds from the printed capture of one area. */
  ghost function ScreenshotOf(text: string): Option<Screenshot>
  {
    match ParseCapture(text)
    case Some(rows) => Reconstruct(rows)
    case None => None
  }

  /** End to end: the screenshot rebuilt from the text of the intended
      capture of an area (what the code prints for areas narrower than 65536
      pixels) is the area's position, size and pixels in the buffer. */
  lemma ScreenshotFromText(a: Area, bfr: seq<Color>)
    requires Fits(a, |bfr|) && Width(a) > 0 && Height(a) > 0
    ensures 0 <= Width(a) * Height(a) <= |bfr|
    ensures ScreenshotOf(CaptureOutput(CaptureBuffer(a, bfr)))
              == Some(Screenshot(a.x1, a.y1, Width(a), Height(a), bfr[..Width(a) * Height(a)]))
  {
    MulMonotone(0, Width(a), Height(a));
    var rows := CaptureBuffer(a, bfr);
    ParseCaptureOutput(rows);
    ReconstructCapture(a, bfr);
  }

  lemma ExampleEncode()
    ensures Encode([5, 5, 9]) == [Run(2, 5), Run(1, 9)]
  {
    var p3: seq<Color> := [5, 5, 9];
    var p2: seq<Color> := [5, 5];
    var p1: seq<Color> := [5];
    assert DropLast(p1) == [];
    assert Encode(p1) == [Run(1, 5)];
    assert DropLast(p2) == p1;
    assert Encode(p2) == [Run(2, 5)];
    assert DropLast(p3) == p2;
  }

  /** The same round trip for the text `capture_buffer` actually prints,
      which carries the `uint16_t` counter: it holds for every area narrower
      than 65536 pixels. */
  lemma ScreenshotFromPrintedText(a: Area, bfr: seq<Color>)
    requires Fits(a, |bfr|) && 0 < Width(a) <= MaxRunCount && Height(a) > 0
    ensures 0 <= Width(a) * Height(a) <= |bfr|
    ensures ScreenshotOf(CaptureOutput(CaptureAsWritten(a, bfr)))
              == Some(Screenshot(a.x1, a.y1, Width(a), Height(a), bfr[..Width(a) * Height(a)]))
  {
    assert CaptureAsWritten(a, bfr) == CaptureBuffer(a, bfr);
    ScreenshotFromText(a, bfr);
  }

  /** A 3x1 area holding colours 5, 5, 9 is one row of two runs. */
  lemma ExampleRows()
    ensures CaptureBuffer(Area(0, 0, 2, 0), [5, 5, 9]) == [Row(Header(0, 0, 3), [Run(2, 5), Run(1, 9)])]
  {
    var a := Area(0, 0, 2, 0);
    var bfr: seq<Color> := [5, 5, 9];
    var rows := CaptureBuffer(a, bfr);
    assert |rows| == 1;
    assert RowPixels(a, bfr, 0) == bfr[0..3] == bfr;
    ExampleEncode();
    assert rows[0] == Row(Header(0, 0, 3), [Run(2, 5), Run(1, 9)]);
  }

  lemma ExampleRunsText()
    ensures RunsText([Run(2, 5), Run(1, 9)]) == ",2:5,1:9"
  {
    var runs := [Run(2, 5), Run(1, 9)];
    assert Dec(2) == "2" && Dec(1) == "1";
    assert Hex(5) == "5" && Hex(9) == "9";
    assert RunText(runs[0]) == "2:5";
    assert RunText(runs[1]) == "1:9";
    assert DropLast(runs) == [runs[0]];
    assert DropLast([runs[0]]) == [];
    assert RunsText([runs[0]]) == ",2:5";
  }

  lemma ExampleRowText()
    ensures RowText(Row(Header(0, 0, 3), [Run(2, 5), Run(1, 9)])) == "#0,0,3,2:5,1:9\n"
  {
    ExampleRunsText();
    assert IntText(0) == "0" && IntText(3) == "3";
  }

  /** ... and prints `#0,0,3,2:5,1:9` and a line break. */
  lemma ExampleLine()
    ensures CaptureOutput(CaptureBuffer(Area(0, 0, 2, 0), [5, 5, 9])) == "#0,0,3,2:5,1:9\n"
  {
    ExampleRows();
    ExampleRowText();
    var rows := [Row(Header(0, 0, 3), [Run(2, 5), Run(1, 9)])];
    assert DropLast(rows) == [];
    assert CaptureOutput(rows) == "" + RowText(rows[0]);
  }
}
