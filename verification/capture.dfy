/**
  The diagnostic screen-capture encoder of the LVGL display adapter
  (`capture_buffer`). A flushed area is an inclusive rectangle; its pixels
  sit in the render buffer one byte each, row-major, the pixel at column `x`
  of row `y` (both relative to the area) at index `y * w + x`. For every row
  the encoder emits a header (left edge, absolute row, width) followed by the
  row's maximal runs.
 */
module Capture {
  import opened Wrappers
  import opened RunLength

  /** Horizontal resolution of the display (`MY_DISP_HOR_RES`). */
  const HorRes: nat := 480

  /** Pixels in the single static render buffer (`kBufferSize`). */
  const BufferSize: nat := HorRes * 320

  /** Largest value of the encoder's `uint16_t` run counter. */
  const MaxRunCount: nat := 0xFFFF

  /** A screen coordinate, LVGL's 16-bit signed `lv_coord_t`. */
  type Coord = x: int | -0x8000 <= x < 0x8000

  /** An inclusive rectangle, LVGL's `lv_area_t`. */
  datatype Area = Area(x1: Coord, y1: Coord, x2: Coord, y2: Coord)

  function Width(a: Area): int { a.x2 - a.x1 + 1 }

  function Height(a: Area): int { a.y2 - a.y1 + 1 }

  /** `#x,y,width`: where one emitted row belongs on the screen. */
  datatype Header = Header(x: int, y: int, width: int)

  /** One emitted line: a header and the row's runs. */
  datatype Row = Row(header: Header, runs: seq<Run>)

  /** The renderer's guarantee: a non-empty area never holds more pixels than
      the buffer it is drawn into. */
  predicate Fits(a: Area, bufferLength: nat)
  {
    Width(a) > 0 && Height(a) > 0 ==> Width(a) * Height(a) <= bufferLength
  }

  /** Row `y` of an area of width `w` ends no later than row `h - 1` does. */
  lemma RowEndBound(y: int, w: int, h: int)
    requires 0 <= y < h && w > 0
    ensures 0 <= y * w && y * w + w <= w * h
  {
    MulMonotone(y, h - 1, w);
    assert y * w + w == (y + 1) * w;
    assert (h - 1) * w + w == w * h;
  }

  lemma MulMonotone(a: int, b: int, w: int)
    requires 0 <= a <= b && w >= 0
    ensures 0 <= a * w <= b * w
  {
    assert b * w - a * w == (b - a) * w;
  }

  /** Buffer access stays in bounds: every pixel index the encoder computes
      for an area that fits in the static buffer lies inside the area's own
      pixels and therefore inside the buffer. */
  lemma PixelIndexInBounds(a: Area, y: int, x: int)
    requires Fits(a, BufferSize)
    requires 0 <= y < Height(a) && 0 <= x < Width(a)
    ensures 0 <= y * Width(a) + x < Width(a) * Height(a) <= BufferSize
  {
    RowEndBound(y, Width(a), Height(a));
  }

  /** The pixels of row `y` of the area, as stored in the buffer. A row of a
      non-positive width has no pixels. */
  function RowPixels(a: Area, bfr: seq<Color>, y: int): (pixels: seq<Color>)
    requires Fits(a, |bfr|) && 0 <= y < Height(a)
    ensures |pixels| == if Width(a) > 0 then Width(a) else 0
    ensures forall x :: 0 <= x < |pixels| ==> 0 <= y * Width(a) + x < |bfr| && pixels[x] == bfr[y * Width(a) + x]
  {
    var w := Width(a);
    if w <= 0 then []
    else
      RowEndBound(y, w, Height(a));
      bfr[y * w .. y * w + w]
  }

  /** The rows the encoder emits for one flushed area: one per row of the
      area, none when the height is not positive. */
  function CaptureBuffer(a: Area, bfr: seq<Color>): (rows: seq<Row>)
    requires Fits(a, |bfr|)
    ensures |rows| == if Height(a) > 0 then Height(a) else 0
    ensures forall y :: 0 <= y < |rows| ==> Expand(rows[y].runs) == RowPixels(a, bfr, y)
  {
    var h := if Height(a) > 0 then Height(a) else 0;
    var rows := seq(h, y requires 0 <= y < h =>
      Row(Header(a.x1, a.y1 + y, Width(a)), Encode(RowPixels(a, bfr, y))));
    forall y | 0 <= y < h
      ensures Expand(rows[y].runs) == RowPixels(a, bfr, y)
    {
      EncodeRoundTrip(RowPixels(a, bfr, y));
    }
    rows
  }

  /** The `uint16_t` increment of the C code, wrap-around included. */
  function U16Inc(n: nat): (r: nat)
    requires n <= MaxRunCount
    ensures n < MaxRunCount ==> r == n + 1
    ensures n == MaxRunCount ==> r == 0
  {
    (n + 1) % (MaxRunCount + 1)
  }

  /** The encoder's state after scanning some pixels of a row: the runs
      already printed and the pending run (count and colour). */
  datatype Pending = Pending(runs: seq<Run>, count: nat, color: Color)

  /** The scan of a row's pixels exactly as the C loop performs it, with the
      pending count held in a `uint16_t`: an empty pending run starts a new
      one, a pixel of the pending colour increments the counter (wrapping
      from 65535 to 0), and any other pixel prints the pending run and starts
      a new one. */
  function ScanPrefix(pixels: seq<Color>): (st: Pending)
    ensures st.count <= MaxRunCount
    ensures forall i :: 0 <= i < |st.runs| ==> 0 < st.runs[i].count <= MaxRunCount
    ensures |pixels| == 0 ==> st == Pending([], 0, 0)
  {
    if |pixels| == 0 then Pending([], 0, 0)
    else
      var st := ScanPrefix(DropLast(pixels));
      var pixel := Last(pixels);
      if st.count == 0 then Pending(st.runs, 1, pixel)
      else if st.color == pixel then Pending(st.runs, U16Inc(st.count), st.color)
      else Pending(st.runs + [Run(st.count, st.color)], 1, pixel)
  }

  /** The runs printed for a row as written: the scanned runs, then the
      pending run when its counter is not 0. */
  function ScanRuns(pixels: seq<Color>): (runs: seq<Run>)
    ensures |pixels| == 0 ==> runs == []
    ensures forall i :: 0 <= i < |runs| ==> 0 < runs[i].count <= MaxRunCount
  {
    var st := ScanPrefix(pixels);
    if st.count > 0 then st.runs + [Run(st.count, st.color)] else st.runs
  }

  /** While the row is shorter than 65536 pixels the counter never wraps:
      it stays within the row's length and the pending run completes the
      encoding of the pixels scanned so far. */
  lemma {:induction false} ScanPrefixEncodes(pixels: seq<Color>)
    requires 0 < |pixels| <= MaxRunCount
    ensures 0 < ScanPrefix(pixels).count <= |pixels|
    ensures ScanPrefix(pixels).runs + [Run(ScanPrefix(pixels).count, ScanPrefix(pixels).color)] == Encode(pixels)
    decreases |pixels|
  {
    var prefix, pixel := DropLast(pixels), Last(pixels);
    var st := ScanPrefix(prefix);
    if |prefix| > 0 {
      ScanPrefixEncodes(prefix);
      var prior := Encode(prefix);
      assert Last(prior) == Run(st.count, st.color);
      assert DropLast(prior) == st.runs;
    }
  }

  /** The scan as written prints the encoding of every row shorter than
      65536 pixels. */
  lemma ScanRunsEncode(pixels: seq<Color>)
    requires |pixels| <= MaxRunCount
    ensures ScanRuns(pixels) == Encode(pixels)
  {
    if |pixels| > 0 {
      ScanPrefixEncodes(pixels);
    }
  }

  /** A uniform row shorter than 65536 pixels: the counter reaches its
      length and nothing is printed before the end of the row. */
  lemma {:induction false} ScanUniform(c: Color, n: nat)
    requires 1 <= n <= MaxRunCount
    ensures ScanPrefix(Repeat(c, n)) == Pending([], n, c)
    decreases n
  {
    var pixels := Repeat(c, n);
    assert Last(pixels) == c;
    if n > 1 {
      assert DropLast(pixels) == Repeat(c, n - 1);
      ScanUniform(c, n - 1);
    } else {
      assert DropLast(pixels) == [];
    }
  }

  /** The counter wrap: a row of 65536 pixels of one colour is printed with
      no run at all, although it is one run of 65536 pixels. */
  lemma CounterWrapLosesRow(c: Color)
    ensures Encode(Repeat(c, MaxRunCount + 1)) == [Run(MaxRunCount + 1, c)]
    ensures ScanRuns(Repeat(c, MaxRunCount + 1)) == []
    ensures Expand(ScanRuns(Repeat(c, MaxRunCount + 1))) != Repeat(c, MaxRunCount + 1)
  {
    UniformRow(c, MaxRunCount + 1);
    var pixels := Repeat(c, MaxRunCount + 1);
    var before := Repeat(c, MaxRunCount);
    RepeatSnoc(c, MaxRunCount);
    assert DropLast(pixels) == before && Last(pixels) == c;
    ScanUniform(c, MaxRunCount);
    assert U16Inc(MaxRunCount) == 0;
    assert ScanPrefix(pixels) == Pending([], 0, c);
    assert |Expand([])| == 0 < |pixels|;
  }

  /** The inner loop of the encoder for row `y`: a pending run (count,
      colour) with a 16-bit counter, printed on a colour change and once more
      at the end of the row when its counter is not 0. */
  method ScanRow(a: Area, bfr: seq<Color>, y: int) returns (runs: seq<Run>)
    requires Fits(a, |bfr|) && 0 <= y < Height(a)
    ensures runs == ScanRuns(RowPixels(a, bfr, y))
    ensures Width(a) <= MaxRunCount ==> runs == Encode(RowPixels(a, bfr, y))
  {
    var w := Width(a);
    ghost var pixels := RowPixels(a, bfr, y);
    var pendingCount: nat := 0;
    var pendingColor: Color := 0;
    runs := [];
    var x := 0;
    while x < w
      invariant 0 <= x <= |pixels|
      invariant ScanPrefix(pixels[..x]) == Pending(runs, pendingCount, pendingColor)
    {
      RowEndBound(y, w, Height(a));
      var pixel := bfr[y * w + x];
      assert pixels == bfr[y * w .. y * w + w];
      assert pixel == pixels[x] == Last(pixels[..x + 1]);
      assert DropLast(pixels[..x + 1]) == pixels[..x];
      if pendingCount == 0 {
        pendingCount := 1;
        pendingColor := pixel;
      } else if pendingColor == pixel {
        pendingCount := U16Inc(pendingCount);
      } else {
        runs := runs + [Run(pendingCount, pendingColor)];
        pendingColor := pixel;
        pendingCount := 1;
      }
      x := x + 1;
    }
    if pendingCount > 0 {
      runs := runs + [Run(pendingCount, pendingColor)];
    }
    assert pixels[..x] == pixels;
    if w <= MaxRunCount {
      ScanRunsEncode(pixels);
    }
  }

  /** The rows the encoder prints as written, with the 16-bit counter: one
      row per row of the area, headed by its position and the area's width. */
  function CaptureAsWritten(a: Area, bfr: seq<Color>): (rows: seq<Row>)
    requires Fits(a, |bfr|)
    ensures |rows| == if Height(a) > 0 then Height(a) else 0
    ensures forall y :: 0 <= y < |rows| ==> rows[y].header == Header(a.x1, a.y1 + y, Width(a))
    ensures Width(a) <= MaxRunCount ==> rows == CaptureBuffer(a, bfr)
  {
    var h := if Height(a) > 0 then Height(a) else 0;
    var rows := seq(h, y requires 0 <= y < h =>
      Row(Header(a.x1, a.y1 + y, Width(a)), ScanRuns(RowPixels(a, bfr, y))));
    if Width(a) <= MaxRunCount then
      forall y | 0 <= y < h
        ensures rows[y].runs == Encode(RowPixels(a, bfr, y))
      {
        ScanRunsEncode(RowPixels(a, bfr, y));
      }
      rows
    else
      rows
  }

  /** The whole flush of an area 65536 pixels wide and one row high, all of
      one colour: the code prints the row's header and no run at all, so the
      printed rows neither expand to the area's pixels nor form a region. */
  lemma CaptureWrapLosesArea(c: Color)
    ensures Fits(Area(-0x8000, 0, 0x7FFF, 0), BufferSize)
    ensures CaptureAsWritten(Area(-0x8000, 0, 0x7FFF, 0), Repeat(c, BufferSize))
              == [Row(Header(-0x8000, 0, MaxRunCount + 1), [])]
    ensures Pixels(CaptureAsWritten(Area(-0x8000, 0, 0x7FFF, 0), Repeat(c, BufferSize)))
              != Repeat(c, BufferSize)[..MaxRunCount + 1]
    ensures !Consistent(CaptureAsWritten(Area(-0x8000, 0, 0x7FFF, 0), Repeat(c, BufferSize)))
  {
    var a, bfr := Area(-0x8000, 0, 0x7FFF, 0), Repeat(c, BufferSize);
    var rows := CaptureAsWritten(a, bfr);
    assert RowPixels(a, bfr, 0) == Repeat(c, MaxRunCount + 1);
    CounterWrapLosesRow(c);
    assert rows[0].runs == [] by {
      assert rows[0].runs == ScanRuns(RowPixels(a, bfr, 0));
    }
    assert rows == [Row(Header(-0x8000, 0, MaxRunCount + 1), [])];
    assert Pixels(rows) == [] by {
      assert DropLast(rows) == [];
    }
  }

  /** The encoder as written: the outer loop over the area's rows around
      `ScanRow`. For every area narrower than 65536 pixels it prints exactly
      the rows `CaptureBuffer` describes. */
  method CaptureScan(a: Area, bfr: seq<Color>) returns (rows: seq<Row>)
    requires Fits(a, |bfr|)
    ensures rows == CaptureAsWritten(a, bfr)
    ensures Width(a) <= MaxRunCount ==> rows == CaptureBuffer(a, bfr)
  {
    var h := Height(a);
    ghost var expected := CaptureAsWritten(a, bfr);
    ghost var n := |expected|;
    assert n == if h > 0 then h else 0;
    rows := [];
    var y := 0;
    while y < h
      invariant 0 <= y <= n
      invariant rows == expected[..y]
    {
      var runs := ScanRow(a, bfr, y);
      var row := Row(Header(a.x1, a.y1 + y, Width(a)), runs);
      assert expected[..y + 1] == expected[..y] + [row] by {
        assert expected[y] == row;
      }
      rows := rows + [row];
      y := y + 1;
    }
    assert expected[..y] == expected;
  }

  /** One header per row of the area, each `(x1, y1 + y, w)`; nothing at all
      when the height is not positive; bare headers when the width is not
      positive. */
  lemma CaptureShape(a: Area, bfr: seq<Color>)
    requires Fits(a, |bfr|)
    ensures Height(a) <= 0 ==> CaptureBuffer(a, bfr) == []
    ensures Height(a) > 0 ==> |CaptureBuffer(a, bfr)| == Height(a)
    ensures forall y :: 0 <= y < |CaptureBuffer(a, bfr)| ==>
              CaptureBuffer(a, bfr)[y].header == Header(a.x1, a.y1 + y, Width(a))
    ensures Width(a) <= 0 ==> forall y :: 0 <= y < |CaptureBuffer(a, bfr)| ==> CaptureBuffer(a, bfr)[y].runs == []
  {
  }

  /** Each emitted row decodes to its row of the buffer, its runs are
      maximal, and their counts are at least 1, at most the width, and add up
      to the width. */
  lemma CaptureRows(a: Area, bfr: seq<Color>, y: int)
    requires Fits(a, |bfr|) && 0 <= y < Height(a)
    ensures Expand(CaptureBuffer(a, bfr)[y].runs) == RowPixels(a, bfr, y)
    ensures Maximal(CaptureBuffer(a, bfr)[y].runs)
    ensures Width(a) > 0 ==> TotalCount(CaptureBuffer(a, bfr)[y].runs) == Width(a)
    ensures forall i :: 0 <= i < |CaptureBuffer(a, bfr)[y].runs| ==>
              1 <= CaptureBuffer(a, bfr)[y].runs[i].count <= Width(a)
  {
    var pixels := RowPixels(a, bfr, y);
    EncodeRoundTrip(pixels);
    EncodeMaximal(pixels);
    EncodeCounts(pixels);
  }

  /** No run count exceeds the width, so when the width fits in the 16-bit
      counter no count the encoder holds ever wraps. */
  lemma CaptureCountsFitU16(a: Area, bfr: seq<Color>)
    requires Fits(a, |bfr|)
    requires Width(a) <= MaxRunCount
    ensures forall y, i :: 0 <= y < |CaptureBuffer(a, bfr)| && 0 <= i < |CaptureBuffer(a, bfr)[y].runs| ==>
              CaptureBuffer(a, bfr)[y].runs[i].count <= MaxRunCount
  {
    forall y, i | 0 <= y < |CaptureBuffer(a, bfr)| && 0 <= i < |CaptureBuffer(a, bfr)[y].runs|
      ensures CaptureBuffer(a, bfr)[y].runs[i].count <= MaxRunCount
    {
      CaptureRows(a, bfr, y);
    }
  }

  /** A screenshot region rebuilt from captured rows. */
  datatype Screenshot = Screenshot(x: int, y: int, width: int, height: nat, pixels: seq<Color>)

  /** All the rows' pixels, top row first. */
  function Pixels(rows: seq<Row>): seq<Color>
  {
    if |rows| == 0 then [] else Pixels(DropLast(rows)) + Expand(Last(rows).runs)
  }

  /** Rows of one region: the same left edge and width, consecutive rows,
      and each row expanding to the width's worth of pixels. */
  ghost predicate Consistent(rows: seq<Row>)
    requires |rows| > 0
  {
    var hd := rows[0].header;
    forall j :: 0 <= j < |rows| ==>
      && rows[j].header == Header(hd.x, hd.y + j, hd.width)
      && |Expand(rows[j].runs)| == (if hd.width > 0 then hd.width else 0)
  }

  /** What a capture-reconstruction tool recovers from the rows of one flush:
      nothing from no rows or inconsistent rows, otherwise the region and its
      pixels. */
  ghost function Reconstruct(rows: seq<Row>): Option<Screenshot>
  {
    if |rows| > 0 && Consistent(rows) then
      Some(Screenshot(rows[0].header.x, rows[0].header.y, rows[0].header.width, |rows|, Pixels(rows)))
    else None
  }

  /** The rows of the intended capture of an area of positive height (what
      the code prints for areas narrower than 65536 pixels) are the rows of
      one region. */
  lemma CaptureConsistent(a: Area, bfr: seq<Color>)
    requires Fits(a, |bfr|) && Height(a) > 0
    ensures |CaptureBuffer(a, bfr)| > 0 && Consistent(CaptureBuffer(a, bfr))
  {
    var rows := CaptureBuffer(a, bfr);
    CaptureShape(a, bfr);
    forall j | 0 <= j < |rows|
      ensures |Expand(rows[j].runs)| == (if Width(a) > 0 then Width(a) else 0)
    {
      CaptureRows(a, bfr, j);
    }
  }

  /** Rows whose `j`-th row expands to the `j`-th block of `w` pixels of a
      buffer: the first `k` of them expand to the first `k * w` pixels. */
  lemma {:induction false} PixelsOfBlocks(rows: seq<Row>, bfr: seq<Color>, w: nat, k: nat)
    requires k <= |rows| && k * w <= |bfr|
    requires forall j :: 0 <= j < k ==> j * w + w <= |bfr| && Expand(rows[j].runs) == bfr[j * w .. j * w + w]
    ensures Pixels(rows[..k]) == bfr[..k * w]
    decreases k
  {
    if k > 0 {
      var start := (k - 1) * w;
      assert start + w == k * w;
      PixelsOfBlocks(rows, bfr, w, k - 1);
      var prefix := rows[..k];
      assert DropLast(prefix) == rows[..k - 1];
      assert Last(prefix) == rows[k - 1];
      SlicesJoin(bfr, start, start + w);
    }
  }

  /** Row `j` of the intended capture (what the code prints for areas
      narrower than 65536 pixels) expands to the `j`-th block of `w` pixels. */
  lemma CaptureRowBlock(a: Area, bfr: seq<Color>, j: int)
    requires Fits(a, |bfr|) && Width(a) > 0 && 0 <= j < Height(a)
    ensures 0 <= j * Width(a) && j * Width(a) + Width(a) <= |bfr|
    ensures Expand(CaptureBuffer(a, bfr)[j].runs) == bfr[j * Width(a) .. j * Width(a) + Width(a)]
  {
    RowEndBound(j, Width(a), Height(a));
    CaptureRows(a, bfr, j);
  }

  /** The rows of the intended capture of an area of positive width and
      height (what the code prints for areas narrower than 65536 pixels)
      expand, top row first, to the area's `w * h` pixels of the buffer. */
  lemma CapturePixels(a: Area, bfr: seq<Color>)
    requires Fits(a, |bfr|) && Width(a) > 0 && Height(a) > 0
    ensures Width(a) * Height(a) <= |bfr|
    ensures Pixels(CaptureBuffer(a, bfr)) == bfr[..Width(a) * Height(a)]
  {
    var rows := CaptureBuffer(a, bfr);
    var w, h := Width(a), Height(a);
    assert rows[..h] == rows;
    assert w * h == h * w;
    assert forall j :: 0 <= j < h ==> 0 <= j * w && j * w + w <= |bfr| && Expand(rows[j].runs) == bfr[j * w .. j * w + w] by {
      forall j | 0 <= j < h
        ensures 0 <= j * w && j * w + w <= |bfr| && Expand(rows[j].runs) == bfr[j * w .. j * w + w]
      {
        CaptureRowBlock(a, bfr, j);
      }
    }
    PixelsOfBlocks(rows, bfr, w, h);
  }

  /** Round trip for a whole flush: rebuilding a screenshot from the rows of
      the intended capture (what the code prints for areas narrower than
      65536 pixels) recovers the area's position and size and exactly its `w * h`
      pixels of the buffer; an area of no rows leaves nothing to rebuild. */
  lemma ReconstructCapture(a: Area, bfr: seq<Color>)
    requires Fits(a, |bfr|)
    ensures Height(a) <= 0 ==> Reconstruct(CaptureBuffer(a, bfr)) == None
    ensures Height(a) > 0 && Width(a) > 0 ==>
              Reconstruct(CaptureBuffer(a, bfr)) == Some(Screenshot(a.x1, a.y1, Width(a), Height(a), bfr[..Width(a) * Height(a)]))
    ensures Height(a) > 0 && Width(a) <= 0 ==>
              Reconstruct(CaptureBuffer(a, bfr)) == Some(Screenshot(a.x1, a.y1, Width(a), Height(a), []))
  {
    var rows := CaptureBuffer(a, bfr);
    var w, h := Width(a), Height(a);
    CaptureShape(a, bfr);
    if h > 0 {
      CaptureConsistent(a, bfr);
      assert rows[0].header == Header(a.x1, a.y1, w);
      if w > 0 {
        CapturePixels(a, bfr);
      } else {
        EmptyRowsPixels(rows);
      }
    }
  }

  lemma {:induction false} EmptyRowsPixels(rows: seq<Row>)
    requires forall j :: 0 <= j < |rows| ==> rows[j].runs == []
    ensures Pixels(rows) == []
    decreases |rows|
  {
    if |rows| > 0 {
      EmptyRowsPixels(DropLast(rows));
    }
  }
}
