# Stepper motor analyzer: display adapter and time histogram, in Dafny

This project models two parts of the stepper motor analyzer's firmware.

**The LVGL display adapter** (`platformio/src/display/lvgl_adapter.cpp`):
- the diagnostic screen-capture encoder `capture_buffer`, which turns every row of a flushed area into a `#x,y,w` header followed by run-length encoded `,count:colour` pairs;
- the flush callback that wraps it: optional capture, then the TFT transfer, then `lv_disp_flush_ready`;
- the touch read callback;
- the log callback's line format;
- the `start_screen_capture` / `stop_screen_capture` commands.

**The time-by-speed histogram screen** (`platformio/src/ui/time_histogram_screen.cpp`):
- its `loop` throttle: at most one update per 200 ms, with `on_load` forcing the next loop to update;
- the point update: find the largest bucket and scale each bucket to whole percent of it in 64-bit arithmetic, store the result in a `uint16_t`, and mark a non-empty bucket that rounds to 0 as 1.

The modules follow the program's structure.

| Module | What it holds |
|---|---|
| `Wrappers` | `Option`, `Last`/`DropLast`, the element-wise map `MapSeq` with its pointwise lemma `MapSeqAt`, and two sequence facts. |
| `RunLength` | Run-length encoding of one row. `Encode` is built one pixel at a time from the left, as the C loop runs. `Expand` is its inverse. |
| `Capture` | Areas, `lv_coord_t`, and the buffer layout. `CaptureBuffer` is the intended encoder output. `ScanPrefix`/`ScanRuns` and the methods `ScanRow`/`CaptureScan` are the loops as written, with the `uint16_t` counter wrap spelled out. `Reconstruct` rebuilds a screenshot from captured rows. |
| `Numerals` | `%d`, `%ld`, `%lu`, `%hu` and `%hx` renderings, with parsers for them. |
| `CaptureText` | The printed capture text, a parser for it, and the end-to-end round trip from printed text back to buffer pixels, for areas narrower than 65536 pixels. |
| `Adapter` | The flush, start/stop, touch and log callbacks. Sessions of calls are recorded as event traces and checked against an independent protocol automaton. |
| `TimeHistogram` | Maximum search, scaling and the update throttle. |

Things the callbacks do outside the modelled code are events or inputs, not operations:
- printing to the serial port;
- the TFT transfer;
- `lv_disp_flush_ready`;
- the touch controller reading;
- `analyzer::sample_state()`;
- the elapsed-time clock.

The model follows the code in these details:
- **An area of non-positive width** prints one bare header per row. Only an area of non-positive height prints nothing.
- **A WARN log line** starts with `WARNING: `, not with the level's name.
- **Run counts are not split at 65535.** The counter is a `uint16_t` that wraps (see Findings). The intended encoder `CaptureBuffer` keeps unbounded counts. `CaptureScan` equals it for every area narrower than 65536 pixels, and `CaptureCountsFitU16` shows the counts then fit the counter. The flush callback's capture holds the rows as written (`CaptureAsWritten`), so it shows the wrap.
- **Each printed row** ends with a line break right after its last run.

## Model

All source paths are under `platformio/src/`.

| member | source | states |
|---|---|---|
| RunLength.Encode | platformio/src/display/lvgl_adapter.cpp:81-107 | An empty row has no runs; a non-empty row's last run has the row's last colour. |
| RunLength.EncodeRoundTrip | platformio/src/display/lvgl_adapter.cpp:83-107 | Expanding the runs of any row gives back exactly the row: no pixel is lost, added or reordered. |
| RunLength.EncodeMaximal | platformio/src/display/lvgl_adapter.cpp:86-102 | No run is empty, and no two neighbouring runs share a colour: a run is only closed on a colour change. |
| RunLength.EncodeCounts | platformio/src/display/lvgl_adapter.cpp:83-107 | Run counts add up to the row's width, and each is between 1 and the width. |
| RunLength.EncodeOfExpand | platformio/src/display/lvgl_adapter.cpp:83-107 | Any maximal run sequence is the encoding of its own expansion (the encoder is the decoder's inverse on maximal runs). |
| RunLength.EncodeCharacterization | platformio/src/display/lvgl_adapter.cpp:83-107 | For every row and run sequence: the runs are the row's encoding if and only if they are maximal and expand to the row. |
| RunLength.EncodeLength | platformio/src/display/lvgl_adapter.cpp:94-102 | A non-empty row yields exactly one run more than it has colour changes between neighbouring pixels. |
| RunLength.EncodeAppendRun | platformio/src/display/lvgl_adapter.cpp:99-102 | Appending n ≥ 1 pixels of a colour different from the row's last pixel appends exactly one run (n, colour). |
| RunLength.UniformRow | platformio/src/display/lvgl_adapter.cpp:86-107 | A row of one colour is one run covering the whole row. |
| RunLength.AlternatingRow | platformio/src/display/lvgl_adapter.cpp:99-102 | A row whose colour changes at every pixel yields one run of count 1 per pixel, in order. |
| Capture.PixelIndexInBounds | platformio/src/display/lvgl_adapter.cpp:31-35 | Every index `y * w + x` the encoder reads for an area that fits the static 480x320 buffer lies inside the area's pixels and inside the buffer. |
| Capture.RowPixels | platformio/src/display/lvgl_adapter.cpp:84 | Row y of the area has w pixels (none for a non-positive width), and its pixel x is buffer element `y * w + x`, which lies inside the buffer. |
| Capture.CaptureBuffer | platformio/src/display/lvgl_adapter.cpp:74-112 | The intended capture has one row per row of the area (none for a non-positive height), and each row's runs expand back to that row's pixels. |
| Capture.U16Inc | platformio/src/display/lvgl_adapter.cpp:95 | The `uint16_t` increment: n + 1 below 65535, 0 at 65535. |
| Capture.ScanPrefix | platformio/src/display/lvgl_adapter.cpp:81-103 | The scan state as written never holds a count above 65535, every run it has printed has a count between 1 and 65535, and it is empty before the first pixel. |
| Capture.ScanRuns | platformio/src/display/lvgl_adapter.cpp:100-107 | The runs printed as written, end-of-row flush included: none for an empty row, and every printed count is between 1 and 65535. |
| Capture.ScanPrefixEncodes | platformio/src/display/lvgl_adapter.cpp:81-103 | For rows shorter than 65536 pixels the counter never wraps: the pending count is between 1 and the pixels scanned, and the printed runs plus the pending run are the encoding of those pixels. |
| Capture.ScanRunsEncode | platformio/src/display/lvgl_adapter.cpp:81-107 | For rows shorter than 65536 pixels, the runs printed as written (including the end-of-row flush) are exactly the row's encoding. |
| Capture.ScanUniform | platformio/src/display/lvgl_adapter.cpp:87-97 | Scanning n ≤ 65535 pixels of one colour prints nothing and leaves a pending run of count n. |
| Capture.CounterWrapLosesRow | platformio/src/display/lvgl_adapter.cpp:95-107 | A row of 65536 pixels of one colour is one run, yet the code as written prints no run for it: its expansion is not the row. |
| Capture.ScanRow | platformio/src/display/lvgl_adapter.cpp:81-107 | The inner loop, with its pending count and colour, prints the as-written runs of row y. For an area narrower than 65536 pixels these are the row's encoding. |
| Capture.CaptureAsWritten | platformio/src/display/lvgl_adapter.cpp:74-112 | The rows printed as written: one per row of the area (none for a non-positive height), row y headed `(x1, y1 + y, w)`. For areas narrower than 65536 pixels they are the intended rows `CaptureBuffer`. |
| Capture.CaptureWrapLosesArea | platformio/src/display/lvgl_adapter.cpp:79-107 | The flush of the one-colour area from x = -32768 to 32767 on row 0 prints the bare header `#-32768,0,65536` and no run. Its rows neither expand to the area's pixels nor form a region. |
| Capture.CaptureScan | platformio/src/display/lvgl_adapter.cpp:74-112 | The two nested loops print one row per row of the area: header `(x1, y1 + y, w)` and the as-written runs. For areas narrower than 65536 pixels this is exactly `CaptureBuffer`. |
| Capture.CaptureShape | platformio/src/display/lvgl_adapter.cpp:75-80 | One header per row, each `(x1, y1 + y, w)`. Nothing for a non-positive height. Bare headers when the width is not positive. |
| Capture.CaptureRows | platformio/src/display/lvgl_adapter.cpp:79-107 | Each row of the intended capture `CaptureBuffer` (what the code prints for areas narrower than 65536 pixels) expands to its row of the buffer. Its runs are maximal, count between 1 and the width, and add up to the width. |
| Capture.CaptureCountsFitU16 | platformio/src/display/lvgl_adapter.cpp:81 | For areas narrower than 65536 pixels, no run count of the intended capture exceeds the `uint16_t` counter's range. |
| Capture.CaptureConsistent | platformio/src/display/lvgl_adapter.cpp:79-80 | The rows of the intended capture of an area of positive height (what the code prints for areas narrower than 65536 pixels) are consecutive rows of one region, each as wide as the area. |
| Capture.CaptureRowBlock | platformio/src/display/lvgl_adapter.cpp:84 | Row j of the intended capture (what the code prints for areas narrower than 65536 pixels) expands to buffer pixels `[j*w, j*w + w)`, and that block lies inside the buffer. |
| Capture.CapturePixels | platformio/src/display/lvgl_adapter.cpp:79-111 | All rows of the intended capture of an area (what the code prints for areas narrower than 65536 pixels), top row first, expand to exactly the first `w*h` pixels of the buffer. |
| Capture.ReconstructCapture | platformio/src/display/lvgl_adapter.cpp:74-112 | Rebuilding a screenshot from the rows of the intended capture (what the code prints for areas narrower than 65536 pixels) gives the area's position, width, height and its `w*h` buffer pixels. A non-positive height gives nothing; a non-positive width gives no pixels. |
| Numerals.DigitChar | platformio/src/display/lvgl_adapter.cpp:100 | Every digit value below 16 has a character that reads back as that value. |
| Numerals.ToDigits | platformio/src/display/lvgl_adapter.cpp:100 | A numeral is non-empty, made of digits of its base, and has no leading zero. |
| Numerals.Dec | platformio/src/display/lvgl_adapter.cpp:61 | `%lu`/`%hu` print a non-empty string of decimal digits with no leading zero. |
| Numerals.Hex | platformio/src/display/lvgl_adapter.cpp:100 | `%hx` prints a non-empty string of lower-case hexadecimal digits with no leading zero. |
| Numerals.IntText | platformio/src/display/lvgl_adapter.cpp:80 | `%d`/`%ld` print a non-empty numeral that starts with a minus sign exactly when the number is negative. |
| Numerals.ParseToDigits | platformio/src/display/lvgl_adapter.cpp:100 | Reading back a numeral written in any base 2..16 gives the number. |
| Numerals.ParseDec | platformio/src/display/lvgl_adapter.cpp:61 | `%lu`/`%hu` round trip. |
| Numerals.ParseHex | platformio/src/display/lvgl_adapter.cpp:106 | `%hx` round trip. |
| Numerals.ParseIntText | platformio/src/display/lvgl_adapter.cpp:80 | `%d`/`%ld` round trip, negative numbers included. |
| Numerals.NumeralChars | platformio/src/display/lvgl_adapter.cpp:80 | Printed numbers consist of digits and at most a minus sign, so they hold no `,`, `:` or line break. |
| CaptureText.RunText | platformio/src/display/lvgl_adapter.cpp:100 | One printed run is the count's decimal digits, a colon, then the colour's hexadecimal digits. |
| CaptureText.RunsText | platformio/src/display/lvgl_adapter.cpp:100-107 | The printed runs of a row start with a comma when there is a run, and take at least four characters per run. |
| CaptureText.RowText | platformio/src/display/lvgl_adapter.cpp:80-108 | A printed row starts with `#`, ends with a line break, and takes at least seven characters plus four per run. |
| CaptureText.CaptureOutput | platformio/src/display/lvgl_adapter.cpp:79-111 | The printed capture is empty exactly when there are no rows, and otherwise starts with `#` and ends with a line break. |
| CaptureText.ParseRunText | platformio/src/display/lvgl_adapter.cpp:100 | One printed `count:colour` pair parses back to its run. |
| CaptureText.ParseRunFields | platformio/src/display/lvgl_adapter.cpp:100-106 | The printed pairs of a row parse back to its runs, in order. |
| CaptureText.RowTextIsLine | platformio/src/display/lvgl_adapter.cpp:80-108 | A printed row is `#`, the header and run fields joined by commas, and a line break. |
| CaptureText.RowLineChars | platformio/src/display/lvgl_adapter.cpp:80-106 | A printed row holds no line break before its end, and no field of it holds a comma. |
| CaptureText.ParseRowLine | platformio/src/display/lvgl_adapter.cpp:80-108 | Any printed row parses back to its header and runs. |
| CaptureText.CaptureOutputJoin | platformio/src/display/lvgl_adapter.cpp:79-111 | The printed capture is the printed rows, each followed by a line break. |
| CaptureText.ParseCaptureOutput | platformio/src/display/lvgl_adapter.cpp:79-111 | Parsing the full printed capture of any rows gives back exactly those rows. |
| CaptureText.ScreenshotFromText | platformio/src/display/lvgl_adapter.cpp:74-112 | End to end: the screenshot rebuilt from the printed text of the intended capture of an area with positive width and height is the area's position, size and its `w*h` buffer pixels. |
| CaptureText.ScreenshotFromPrintedText | platformio/src/display/lvgl_adapter.cpp:74-112 | The same end-to-end round trip for the rows the code prints as written, `uint16_t` counter included, for every area of positive height and a width from 1 to 65535. |
| CaptureText.ExampleLine | platformio/src/display/lvgl_adapter.cpp:79-108 | A 3x1 area at (0,0) holding colours 5, 5, 9 prints `#0,0,3,2:5,1:9` and a line break. |
| Adapter.Flush | platformio/src/display/lvgl_adapter.cpp:116-131 | A flush emits one render of the area and buffer, then exactly one completion signal, last. A capture is emitted if and only if the flag is set. It comes before the render and holds the rows `capture_buffer` prints for that area, counter wrap included. For an area narrower than 65536 pixels these are the intended rows. No markers. |
| Adapter.StartCapture | platformio/src/display/lvgl_adapter.cpp:198-201 | Sets the capture flag and emits the begin marker. |
| Adapter.StopCapture | platformio/src/display/lvgl_adapter.cpp:203-206 | Clears the capture flag and emits the end marker. |
| Adapter.StepAccepted | platformio/src/display/lvgl_adapter.cpp:116-131 | The events of one call take the protocol automaton from the flag before the call to the flag after it. |
| Adapter.SessionFollowsProtocol | platformio/src/display/lvgl_adapter.cpp:116-131 | Every sequence of calls emits a trace the protocol automaton accepts, ending in the session's final flag, with exactly one completion signal per flush. |
| Adapter.AcceptedTracesAreSessions | platformio/src/display/lvgl_adapter.cpp:116-131 | Conversely, every trace the automaton accepts is what some sequence of start, stop and flush calls emits. |
| Adapter.ToCoord | platformio/src/display/lvgl_adapter.cpp:155-156 | The `uint16_t` to `lv_coord_t` conversion keeps the value modulo 2^16, and keeps it exactly below 32768. |
| Adapter.TouchRead | platformio/src/display/lvgl_adapter.cpp:151-160 | The state is pressed if and only if the driver reports pressed. The point is the driver's point (modulo 2^16). The callback reports no buffered data. |
| Adapter.LogPrefix | platformio/src/display/lvgl_adapter.cpp:47-54 | The prefix is empty if and only if the level is not ERROR, WARN, INFO or TRACE. |
| Adapter.LevelOfPrefixed | platformio/src/display/lvgl_adapter.cpp:47-58 | Reading the level back from a prefixed body gives the level for the four known levels, and none otherwise. |
| Adapter.LogBody | platformio/src/display/lvgl_adapter.cpp:58-66 | The body starts with `File: ` and ends with the message followed by a line break. |
| Adapter.LogLine | platformio/src/display/lvgl_adapter.cpp:43-67 | A log line names its level exactly for the four known levels, and then the right one. Every line goes on with `File: ` after the prefix and ends with a line break. |
| TimeHistogram.MaxTicks | platformio/src/ui/time_histogram_screen.cpp:57-64 | The maximum is at least every bucket and is one of the buckets. |
| TimeHistogram.FindMaxTicks | platformio/src/ui/time_histogram_screen.cpp:57-64 | The search from bucket 0, taking only strictly larger buckets, finds a bucket that is at least every bucket. |
| TimeHistogram.Scale | platformio/src/ui/time_histogram_screen.cpp:68-75 | A point fits in 16 bits, is 0 for an empty bucket, and is at least 1 for a non-empty one. |
| TimeHistogram.ScaleIsPercent | platformio/src/ui/time_histogram_screen.cpp:69-75 | When `ticks * 100` fits in 64 bits, the point is the bucket's share of the maximum in whole percent (at least 1 if non-empty), and at most 100. |
| TimeHistogram.ScaleOfMaximum | platformio/src/ui/time_histogram_screen.cpp:69-70 | When the maximum times 100 fits in 64 bits, a bucket holding a non-zero maximum scales to exactly 100. |
| TimeHistogram.ScaleAtMost100 | platformio/src/ui/time_histogram_screen.cpp:69-75 | For every tick count up to the maximum, wrapped product included, the point is at most 100. |
| TimeHistogram.ScaleWrapBreaksOrder | platformio/src/ui/time_histogram_screen.cpp:70 | When the maximum times 100 wraps in 64 bits, the maximum no longer shows 100 and a smaller bucket can show more: a maximum of 2^64/100 + 1 shows 1 while one tick less shows 99. |
| TimeHistogram.ScaleMonotone | platformio/src/ui/time_histogram_screen.cpp:69-75 | When the larger count times 100 fits in 64 bits, more ticks never give a lower point. |
| TimeHistogram.HistogramPoints | platformio/src/ui/time_histogram_screen.cpp:66-79 | For any bucket counts: one point per bucket, each in [0, 100], and 0 exactly for the empty buckets. |
| TimeHistogram.UpdatePoints | platformio/src/ui/time_histogram_screen.cpp:57-79 | The two loops as written produce those points. |
| TimeHistogram.HistogramShape | platformio/src/ui/time_histogram_screen.cpp:57-79 | When the maximum times 100 fits in 64 bits: 100 for every bucket at a non-zero maximum; all 0 when all buckets are empty; ordered as the tick counts are. |
| TimeHistogram.OnLoad | platformio/src/ui/time_histogram_screen.cpp:29-32 | Loading the screen marks more than the update interval as elapsed and leaves the points alone. |
| TimeHistogram.Loop | platformio/src/ui/time_histogram_screen.cpp:47-52 | A loop updates if and only if at least 200 ms have elapsed. Otherwise nothing changes. An update restarts the interval and redraws the points from the sampled buckets. |
| TimeHistogram.LoadThenLoopUpdates | platformio/src/ui/time_histogram_screen.cpp:29-31 | The first loop after loading the screen always updates, however little time has passed. |
| TimeHistogram.UpdateRate | platformio/src/ui/time_histogram_screen.cpp:47-52 | Over any run of loops, 200 ms times the number of updates, plus the time left pending, is at most the time elapsed before the run plus the time that passed during it. |

## Left out

- Hardware, I/O and library calls:
  - The serial output is left out. Printing becomes text values, plus `Captured`, `BeginMarker` and `EndMarker` events.
  - `render_buffer` and `lv_disp_flush_ready` are events.
  - `touch_driver::touch_read` is an input sample.
  - `analyzer::sample_state()` is an input bucket sequence.
  - The `LED2_ON`/`LED2_OFF` indicator is not modelled: it has no observable effect on the data.
- Registration code is not modelled: `setup`, `init_display_driver` and `init_touch_driver`. It only hands callbacks and the static buffer to LVGL.
- `dump_stats` is not modelled: it prints LVGL's memory monitor, which is outside this code.
- Histogram screen members outside the update are not modelled:
  - `setup`, `on_unload` and `on_event` create widgets or reset the analyzer;
  - `lv_chart_refresh` redraws the widget.
- `analyzer::kNumHistogramBuckets` is not part of this model. The buckets are any non-empty sequence; the source reads bucket 0 unconditionally.
- Elapsed time is left out:
  - It is a natural number of milliseconds passed in as a parameter.
  - The real clock is not modelled.
  - A 32-bit millisecond counter wrap in the elapsed-time helper is not modelled.
- `speed_gauge_screen.h` is context only and is not part of this model.
- Adapter.Flush: requires the area to fit in the buffer while capture is on. LVGL guarantees this for every flush. The source does not check it; out-of-range reads are undefined behaviour in C.
- Adapter.ToCoord: models the `uint16_t` to `int16_t` conversion as two's-complement wrap. Before C++20 that conversion is implementation-defined for values above 32767.
- TimeHistogram.HistogramShape: states the maximum-gives-100 and ordering properties only when the largest count times 100 fits in 64 bits. Above that the wrapped product breaks both, as `ScaleWrapBreaksOrder` shows; the [0, 100] bound and the zero marking still hold for all counts (`HistogramPoints`).
- TimeHistogram.ScaleIsPercent: same 64-bit precondition as `HistogramShape`, for the same reason.
- TimeHistogram.ScaleOfMaximum: holds only when the maximum times 100 fits in 64 bits. Above that the product wraps and the maximum can show 1 (`ScaleWrapBreaksOrder`).
- TimeHistogram.ScaleMonotone: holds only when the larger count times 100 fits in 64 bits. Above that a bucket one tick below the maximum can show 99 while the maximum shows 1 (`ScaleWrapBreaksOrder`).
- Capture.CaptureConsistent: is about the intended capture. The printed rows match it only for areas narrower than 65536 pixels (`ScreenshotFromPrintedText`); for the 65536-wide one-colour area they do not form a region (`CaptureWrapLosesArea`).
- Capture.CaptureRowBlock: is about the intended capture. The printed rows match it only for areas narrower than 65536 pixels (`ScreenshotFromPrintedText`); for the 65536-wide one-colour area row 0 expands to nothing (`CaptureWrapLosesArea`).
- Capture.CaptureRows: is about the intended capture. The printed rows match it only for areas narrower than 65536 pixels (`ScreenshotFromPrintedText`); a wider one-colour row prints no runs (see Findings).
- Capture.CapturePixels: is about the intended capture. The printed rows match it only for areas narrower than 65536 pixels (`ScreenshotFromPrintedText`); a wider one-colour row prints no runs (see Findings).
- Capture.ReconstructCapture: is about the intended capture. The printed rows match it only for areas narrower than 65536 pixels (`ScreenshotFromPrintedText`); a wider one-colour row prints no runs (see Findings).
- CaptureText.ScreenshotFromText: is about the intended capture. The printed rows match it only for areas narrower than 65536 pixels (`ScreenshotFromPrintedText`); a wider one-colour row prints no runs (see Findings).
- Printing format is modelled only for the forms used here (`%d`, `%ld`, `%lu`, `%hu`, `%hx`, `%s`). The `%s` arguments of the log callback are arbitrary strings; null pointers are not modelled.

## Findings

| source | as written | input that shows it | evidently intended | confidence | as-written member | corrected member |
|---|---|---|---|---|---|---|
| platformio/src/display/lvgl_adapter.cpp:95 | The pending run count is a `uint16_t` that wraps from 65535 to 0. A count of 0 is then treated as "no pending run". The lost run is never printed: the end-of-row flush is skipped, and a later pixel starts a fresh run. | An area 65536 pixels wide (x1 = -32768, x2 = 32767, inside the buffer's 153600 pixels) whose row is one colour. It prints `#-32768,y,65536` with no run at all (`CaptureWrapLosesArea` for the whole area). | Every row's runs expand back to the row, with long runs printed in full (split, or counted in a wider integer). | not executed; low practical impact, since LVGL clips flushed areas to the 480-pixel-wide display | Capture.CounterWrapLosesRow | RunLength.EncodeRoundTrip |
