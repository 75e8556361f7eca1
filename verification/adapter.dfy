/**
  The LVGL display adapter's callbacks: the flush callback (optional capture,
  then the transfer to the TFT driver, then the completion signal), the touch
  read callback, the log callback's line format, and the capture start/stop
  commands. Everything the callbacks do outside this module (the TFT transfer,
  the touch controller, the serial port) is recorded as events or taken as
  inputs.
 */
module Adapter {
  import opened Wrappers
  import opened RunLength
  import opened Capture
  import opened Numerals

  /** The adapter's mutable state: the screen-capture flag, off at start. */
  datatype State = State(captureEnabled: bool)

  /** What the adapter does that the outside world observes. */
  datatype Event =
    | Captured(rows: seq<Row>)                 // the capture text of one flushed area
    | Rendered(area: Area, pixels: seq<Color>)  // the TFT driver's render_buffer(x1, y1, x2, y2, buffer)
    | FlushReady                               // lv_disp_flush_ready: LVGL may reuse the buffer
    | BeginMarker                              // "###BEGIN screen capture"
    | EndMarker                                // "###END screen capture"

  /** The flush callback for area `a` drawn into `bfr`. The capture holds the
      rows `capture_buffer` prints, counter wrap included; they are the
      intended encoding whenever the area is narrower than 65536 pixels. The
      capture reads the buffer, so it needs the area to fit in it. */
  function Flush(s: State, a: Area, bfr: seq<Color>): (trace: seq<Event>)
    requires s.captureEnabled ==> Fits(a, |bfr|)
    ensures |trace| == if s.captureEnabled then 3 else 2
    ensures Last(trace) == FlushReady && multiset(trace)[FlushReady] == 1
    ensures trace[|trace| - 2] == Rendered(a, bfr)
    ensures forall i :: 0 <= i < |trace| && trace[i].Rendered? ==> i == |trace| - 2
    ensures (exists i :: 0 <= i < |trace| && trace[i].Captured?) <==> s.captureEnabled
    ensures forall i :: 0 <= i < |trace| && trace[i].Captured? ==> i < |trace| - 2 && trace[i].rows == CaptureAsWritten(a, bfr)
    ensures forall i :: 0 <= i < |trace| && trace[i].Captured? && Width(a) <= MaxRunCount ==> trace[i].rows == CaptureBuffer(a, bfr)
    ensures BeginMarker !in trace && EndMarker !in trace
  {
    if s.captureEnabled then
      var trace := [Captured(CaptureAsWritten(a, bfr)), Rendered(a, bfr), FlushReady];
      assert trace[0].Captured?;
      trace
    else
      [Rendered(a, bfr), FlushReady]
  }

  /** `start_screen_capture`: raise the flag and print the begin marker. */
  function StartCapture(s: State): (r: (State, seq<Event>))
    ensures r.0.captureEnabled && r.1 == [BeginMarker]
  {
    (State(true), [BeginMarker])
  }

  /** `stop_screen_capture`: lower the flag and print the end marker. */
  function StopCapture(s: State): (r: (State, seq<Event>))
    ensures !r.0.captureEnabled && r.1 == [EndMarker]
  {
    (State(false), [EndMarker])
  }

  /** The calls the outside world makes into the adapter's display side. */
  datatype Command = Start | Stop | FlushArea(area: Area, bfr: seq<Color>)

  /** LVGL's guarantee: every area it flushes fits in the buffer it drew it in. */
  ghost predicate AllFit(cmds: seq<Command>)
  {
    forall i :: 0 <= i < |cmds| && cmds[i].FlushArea? ==> Fits(cmds[i].area, |cmds[i].bfr|)
  }

  function Step(s: State, c: Command): (State, seq<Event>)
    requires c.FlushArea? ==> Fits(c.area, |c.bfr|)
  {
    match c
    case Start => StartCapture(s)
    case Stop => StopCapture(s)
    case FlushArea(a, bfr) => (s, Flush(s, a, bfr))
  }

  /** A sequence of calls from state `s`: the final state and every event. */
  function Session(s: State, cmds: seq<Command>): (State, seq<Event>)
    requires AllFit(cmds)
    decreases |cmds|
  {
    if |cmds| == 0 then (s, [])
    else
      var first := Step(s, cmds[0]);
      var rest := Session(first.0, cmds[1..]);
      (rest.0, first.1 + rest.1)
  }

  function FlushCount(cmds: seq<Command>): nat
  {
    if |cmds| == 0 then 0 else (if cmds[0].FlushArea? then 1 else 0) + FlushCount(cmds[1..])
  }

  /** The flush protocol as an automaton over events, independent of the
      callbacks: with the capture flag set, a flush is a capture of exactly
      the rendered area and pixels, the render, and the completion signal;
      with it clear, only the render and the completion signal; a rendered
      area always fits in its buffer. The markers set and clear the flag.
      The result is the final flag of an accepted trace. */
  ghost function Accepts(flag: bool, trace: seq<Event>): Option<bool>
    decreases |trace|
  {
    if |trace| == 0 then Some(flag)
    else
      match trace[0]
      case BeginMarker => Accepts(true, trace[1..])
      case EndMarker => Accepts(false, trace[1..])
      case Captured(rows) =>
        if flag && |trace| >= 3 && trace[1].Rendered? && trace[2] == FlushReady
           && Fits(trace[1].area, |trace[1].pixels|) && rows == CaptureAsWritten(trace[1].area, trace[1].pixels)
        then Accepts(flag, trace[3..])
        else None
      case Rendered(_, _) =>
        if !flag && |trace| >= 2 && trace[1] == FlushReady && Fits(trace[0].area, |trace[0].pixels|)
        then Accepts(flag, trace[2..])
        else None
      case FlushReady => None
  }

  lemma StepAccepted(s: State, c: Command, rest: seq<Event>)
    requires c.FlushArea? ==> Fits(c.area, |c.bfr|)
    ensures Accepts(s.captureEnabled, Step(s, c).1 + rest) == Accepts(Step(s, c).0.captureEnabled, rest)
  {
    var t := Step(s, c).1;
    assert (t + rest)[|t|..] == rest;
    assert (t + rest)[0] == t[0];
    if |t| >= 2 {
      assert (t + rest)[1] == t[1];
    }
    if |t| == 3 {
      assert (t + rest)[2] == t[2];
    }
  }

  /** Every session's events obey the flush protocol, end in the session's
      final flag, and signal completion exactly once per flush. */
  lemma {:induction false} SessionFollowsProtocol(s: State, cmds: seq<Command>)
    requires AllFit(cmds)
    ensures Accepts(s.captureEnabled, Session(s, cmds).1) == Some(Session(s, cmds).0.captureEnabled)
    ensures multiset(Session(s, cmds).1)[FlushReady] == FlushCount(cmds)
    decreases |cmds|
  {
    if |cmds| > 0 {
      var first := Step(s, cmds[0]);
      assert AllFit(cmds[1..]) by {
        assert forall i :: 0 <= i < |cmds| - 1 ==> cmds[1..][i] == cmds[i + 1];
      }
      SessionFollowsProtocol(first.0, cmds[1..]);
      StepAccepted(s, cmds[0], Session(first.0, cmds[1..]).1);
      if cmds[0].FlushArea? {
        var _ := Flush(s, cmds[0].area, cmds[0].bfr);
      }
    }
  }

  /** The commands that explain an accepted trace. */
  ghost function Explain(flag: bool, trace: seq<Event>): (cmds: seq<Command>)
    requires Accepts(flag, trace).Some?
    ensures AllFit(cmds)
    decreases |trace|
  {
    if |trace| == 0 then []
    else
      match trace[0]
      case BeginMarker => [Start] + Explain(true, trace[1..])
      case EndMarker => [Stop] + Explain(false, trace[1..])
      case Captured(_) => [FlushArea(trace[1].area, trace[1].pixels)] + Explain(flag, trace[3..])
      case Rendered(a, pixels) => [FlushArea(a, pixels)] + Explain(flag, trace[2..])
  }

  /** A session that starts with call `c` is that call's events followed by
      the rest of the session. */
  lemma SessionCons(s: State, c: Command, cmds: seq<Command>)
    requires AllFit([c] + cmds)
    ensures AllFit(cmds) && (c.FlushArea? ==> Fits(c.area, |c.bfr|))
    ensures Session(s, [c] + cmds).1 == Step(s, c).1 + Session(Step(s, c).0, cmds).1
  {
    var all := [c] + cmds;
    assert all[0] == c;
    assert all[1..] == cmds;
    assert forall i :: 0 <= i < |cmds| ==> cmds[i] == all[i + 1];
  }

  /** Completeness of the protocol: every trace the automaton accepts is
      what the adapter produces for some sequence of calls. */
  lemma {:induction false} AcceptedTracesAreSessions(flag: bool, trace: seq<Event>)
    requires Accepts(flag, trace).Some?
    ensures Session(State(flag), Explain(flag, trace)).1 == trace
    decreases |trace|
  {
    if |trace| > 0 {
      var cmds := Explain(flag, trace);
      var (c, n, next) :=
        match trace[0]
        case BeginMarker => (Start, 1, true)
        case EndMarker => (Stop, 1, false)
        case Captured(_) => (FlushArea(trace[1].area, trace[1].pixels), 3, flag)
        case Rendered(a, p) => (FlushArea(a, p), 2, flag);
      var rest := trace[n..];
      assert cmds == [c] + Explain(next, rest);
      SessionCons(State(flag), c, Explain(next, rest));
      assert Step(State(flag), c) == (State(next), trace[..n]) by {
        if c.FlushArea? {
          FlushOfAccepted(flag, trace);
        } else {
          assert trace[..1] == [trace[0]];
        }
      }
      AcceptedTracesAreSessions(next, rest);
      assert trace == trace[..n] + rest;
    }
  }

  /** The flush at the head of an accepted trace produces exactly the events
      the trace starts with. */
  lemma FlushOfAccepted(flag: bool, trace: seq<Event>)
    requires Accepts(flag, trace).Some? && |trace| > 0
    requires trace[0].Captured? || trace[0].Rendered?
    ensures trace[0].Captured? ==>
              |trace| >= 3 && Fits(trace[1].area, |trace[1].pixels|)
              && Flush(State(flag), trace[1].area, trace[1].pixels) == trace[..3]
    ensures trace[0].Rendered? ==>
              |trace| >= 2 && Fits(trace[0].area, |trace[0].pixels|)
              && Flush(State(flag), trace[0].area, trace[0].pixels) == trace[..2]
  {
    if trace[0].Captured? {
      assert trace[..3] == [trace[0], trace[1], trace[2]];
    } else {
      assert trace[..2] == [trace[0], trace[1]];
    }
  }

  // ---------------------------------------------------------------------
  // Touch input

  type U16 = x: int | 0 <= x < 0x1_0000

  /** One reading of the touch driver. */
  datatype TouchSample = TouchSample(x: U16, y: U16, pressed: bool)

  /** LVGL's `LV_INDEV_STATE_PR` and `LV_INDEV_STATE_REL`. */
  datatype IndevState = Pressed | Released

  /** LVGL's input record: the point and the state. */
  datatype IndevData = IndevData(x: Coord, y: Coord, state: IndevState)

  /** The conversion of a driver `uint16_t` into a 16-bit `lv_coord_t`. */
  function ToCoord(v: U16): (c: Coord)
    ensures c % 0x1_0000 == v
    ensures v < 0x8000 ==> c == v
  {
    if v < 0x8000 then v else v - 0x1_0000
  }

  /** `my_touch_read_cb`: copy the driver's point, map pressed to PR and
      released to REL, and report that no more data is buffered. */
  function TouchRead(sample: TouchSample): (r: (IndevData, bool))
    ensures r.0.state == Pressed <==> sample.pressed
    ensures r.0.x % 0x1_0000 == sample.x && r.0.y % 0x1_0000 == sample.y
    ensures sample.x < 0x8000 && sample.y < 0x8000 ==> r.0.x == sample.x && r.0.y == sample.y
    ensures !r.1
  {
    (IndevData(ToCoord(sample.x), ToCoord(sample.y), if sample.pressed then Pressed else Released), false)
  }

  // ---------------------------------------------------------------------
  // Log lines

  /** LVGL's log levels (`lv_log_level_t`). */
  const LevelTrace := 0
  const LevelInfo := 1
  const LevelWarn := 2
  const LevelError := 3

  predicate KnownLevel(level: int)
  {
    level == LevelError || level == LevelWarn || level == LevelInfo || level == LevelTrace
  }

  /** The prefix `my_log_cb` prints before a message. */
  function LogPrefix(level: int): (prefix: string)
    ensures prefix == "" <==> !KnownLevel(level)
  {
    if level == LevelError then "ERROR: "
    else if level == LevelWarn then "WARNING: "
    else if level == LevelInfo then "INFO: "
    else if level == LevelTrace then "TRACE: "
    else ""
  }

  /** What `my_log_cb` prints after the prefix: the source location, the
      function and the message. It opens with `File: ` and ends with the
      message and a line break. */
  function LogBody(file: string, line: nat, fnName: string, message: string): (body: string)
    ensures StartsWith(body, "File: ")
    ensures Last(body) == '\n'
    ensures |message| < |body| && body[|body| - 1 - |message| .. |body| - 1] == message
  {
    var location := "File: " + file + "#" + Dec(line) + ": " + fnName + ": ";
    Framed(location, message, "File: ");
    location + message + "\n"
  }

  /** A text made of a head that starts with `p`, a message and a line
      break starts with `p` and ends with the message and the break. */
  lemma Framed(head: string, message: string, p: string)
    requires StartsWith(head, p)
    ensures StartsWith(head + message + "\n", p)
    ensures Last(head + message + "\n") == '\n'
    ensures var text := head + message + "\n";
            |message| < |text| && text[|text| - 1 - |message| .. |text| - 1] == message
  {
    var text := head + message + "\n";
    assert text[..|p|] == head[..|p|];
    assert text[|head| .. |head| + |message|] == message;
  }

  /** The whole line `my_log_cb` prints. A reader finds its level exactly
      when the level is one of the four known ones, and then the right one;
      prefixed or not, the line goes on with `File: ` and ends with a line
      break. */
  function LogLine(level: int, file: string, line: nat, fnName: string, message: string): (text: string)
    ensures KnownLevel(level) ==> LevelOfLine(text) == Some(level)
    ensures !KnownLevel(level) ==> LevelOfLine(text) == None
    ensures StartsWith(text[|LogPrefix(level)|..], "File: ")
    ensures Last(text) == '\n'
  {
    var body := LogBody(file, line, fnName, message);
    PrefixedBody(level, body);
    LogPrefix(level) + body
  }

  /** What a prefix adds to a body that starts with `File: ` and ends with a
      line break: the level becomes readable, and the body and its last
      character stay where they were. */
  lemma PrefixedBody(level: int, body: string)
    requires StartsWith(body, "File: ") && |body| > 0 && Last(body) == '\n'
    ensures LevelOfLine(LogPrefix(level) + body) == if KnownLevel(level) then Some(level) else None
    ensures (LogPrefix(level) + body)[|LogPrefix(level)|..] == body
    ensures Last(LogPrefix(level) + body) == '\n'
  {
    var prefix := LogPrefix(level);
    assert (prefix + body)[|prefix|..] == body;
    assert Last(prefix + body) == Last(body);
    assert body[0] == 'F' by {
      assert body[..6] == "File: ";
    }
    LevelOfPrefixed(level, body);
  }

  function StartsWith(s: string, p: string): bool
  {
    |p| <= |s| && s[..|p|] == p
  }

  /** The level a reader of the log recovers from the start of a line. */
  function LevelOfLine(text: string): Option<int>
  {
    if StartsWith(text, "ERROR: ") then Some(LevelError)
    else if StartsWith(text, "WARNING: ") then Some(LevelWarn)
    else if StartsWith(text, "INFO: ") then Some(LevelInfo)
    else if StartsWith(text, "TRACE: ") then Some(LevelTrace)
    else None
  }

  lemma StartsWithPrefix(p: string, rest: string)
    ensures StartsWith(p + rest, p)
  {
    assert (p + rest)[..|p|] == p;
  }

  lemma NotStartsWith(s: string, p: string)
    requires |s| > 0 && |p| > 0 && s[0] != p[0]
    ensures !StartsWith(s, p)
  {
    if |p| <= |s| {
      assert s[..|p|][0] != p[0];
    }
  }

  /** The level read back from a prefixed text whose body starts with `F`. */
  lemma LevelOfPrefixed(level: int, rest: string)
    requires |rest| > 0 && rest[0] == 'F'
    ensures LevelOfLine(LogPrefix(level) + rest) == if KnownLevel(level) then Some(level) else None
  {
    var prefix := LogPrefix(level);
    var text := prefix + rest;
    StartsWithPrefix(prefix, rest);
    assert text[0] == (if prefix == "" then 'F' else prefix[0]);
    if level != LevelError {
      NotStartsWith(text, "ERROR: ");
    }
    if level != LevelWarn {
      NotStartsWith(text, "WARNING: ");
    }
    if level != LevelInfo {
      NotStartsWith(text, "INFO: ");
    }
    if level != LevelTrace {
      NotStartsWith(text, "TRACE: ");
    }
  }
}
