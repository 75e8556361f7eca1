/**
  Run-length compression of one row of 8-bit pixels, as the screen-capture
  encoder performs it: a row is scanned left to right, a pixel of the pending
  colour lengthens the pending run, and any other pixel closes the pending run
  and opens a new one.
 */
module RunLength {
  import opened Wrappers

  /** One pixel at LVGL's 8-bit colour depth. */
  type Color = bv8

  /** `count` adjacent pixels of one colour. */
  datatype Run = Run(count: nat, color: Color)

  /** `n` pixels of colour `c`. */
  function Repeat(c: Color, n: nat): (s: seq<Color>)
    ensures |s| == n
    ensures forall i :: 0 <= i < n ==> s[i] == c
  {
    seq(n, _ => c)
  }

  /** Decoding: every run expanded to `count` copies of its colour, in order. */
  function Expand(runs: seq<Run>): seq<Color>
  {
    if |runs| == 0 then []
    else Expand(DropLast(runs)) + Repeat(Last(runs).color, Last(runs).count)
  }

  /** The number of pixels a sequence of runs stands for. */
  function TotalCount(runs: seq<Run>): nat
  {
    if |runs| == 0 then 0 else TotalCount(DropLast(runs)) + Last(runs).count
  }

  /** The shape of the encoder's output: no empty run, and no two
      neighbouring runs of the same colour. */
  ghost predicate Maximal(runs: seq<Run>)
  {
    && (forall i :: 0 <= i < |runs| ==> runs[i].count >= 1)
    && (forall i :: 0 <= i < |runs| - 1 ==> runs[i].color != runs[i + 1].color)
  }

  /** The number of colour changes between horizontally adjacent pixels. */
  function Transitions(pixels: seq<Color>): nat
  {
    if |pixels| <= 1 then 0
    else Transitions(DropLast(pixels)) + (if pixels[|pixels| - 2] != Last(pixels) then 1 else 0)
  }

  /** The run-length encoding of a row, built one pixel at a time from the
      left as the capture loop builds it, with an unbounded count. */
  function Encode(pixels: seq<Color>): (runs: seq<Run>)
    ensures |pixels| == 0 ==> runs == []
    ensures |pixels| > 0 ==> |runs| > 0 && Last(runs).color == Last(pixels)
  {
    if |pixels| == 0 then []
    else
      var prior := Encode(DropLast(pixels));
      var c := Last(pixels);
      if |prior| > 0 && Last(prior).color == c then DropLast(prior) + [Run(Last(prior).count + 1, c)]
      else prior + [Run(1, c)]
  }

  lemma {:induction false} ExpandLength(runs: seq<Run>)
    ensures |Expand(runs)| == TotalCount(runs)
    decreases |runs|
  {
    if |runs| > 0 {
      ExpandLength(DropLast(runs));
    }
  }

  lemma RepeatSnoc(c: Color, n: nat)
    ensures Repeat(c, n + 1) == Repeat(c, n) + [c]
  {
  }

  lemma ExpandSnoc(runs: seq<Run>, r: Run)
    ensures Expand(runs + [r]) == Expand(runs) + Repeat(r.color, r.count)
  {
    assert DropLast(runs + [r]) == runs;
  }

  /** Round trip: decoding the encoding of a row gives back the row. */
  lemma {:induction false} EncodeRoundTrip(pixels: seq<Color>)
    ensures Expand(Encode(pixels)) == pixels
    decreases |pixels|
  {
    if |pixels| > 0 {
      var prefix := DropLast(pixels);
      var c := Last(pixels);
      var prior := Encode(prefix);
      EncodeRoundTrip(prefix);
      assert Expand(Encode(pixels)) == Expand(prior) + [c] by {
        if |prior| > 0 && Last(prior).color == c {
          var init, k := DropLast(prior), Last(prior).count;
          assert Encode(pixels) == init + [Run(k + 1, c)];
          assert prior == init + [Run(k, c)];
          ExpandSnoc(init, Run(k, c));
          ExpandSnoc(init, Run(k + 1, c));
          RepeatSnoc(c, k);
          AppendOne(Expand(init), Repeat(c, k), c);
        } else {
          assert Encode(pixels) == prior + [Run(1, c)];
          ExpandSnoc(prior, Run(1, c));
          RepeatSnoc(c, 0);
        }
      }
      assert prefix + [c] == pixels;
    }
  }

  /** The encoder only emits maximal runs. */
  lemma {:induction false} EncodeMaximal(pixels: seq<Color>)
    ensures Maximal(Encode(pixels))
    decreases |pixels|
  {
    if |pixels| > 0 {
      EncodeMaximal(DropLast(pixels));
    }
  }

  /** The run counts of a row add up to the row's width, and no single run
      is longer than the row. */
  lemma {:induction false} EncodeCounts(pixels: seq<Color>)
    ensures TotalCount(Encode(pixels)) == |pixels|
    ensures forall i :: 0 <= i < |Encode(pixels)| ==> 1 <= Encode(pixels)[i].count <= |pixels|
  {
    var runs := Encode(pixels);
    EncodeRoundTrip(pixels);
    ExpandLength(runs);
    EncodeMaximal(pixels);
    forall i | 0 <= i < |runs|
      ensures runs[i].count <= TotalCount(runs)
    {
      CountAtMostTotal(runs, i);
    }
  }

  lemma {:induction false} CountAtMostTotal(runs: seq<Run>, i: nat)
    requires i < |runs|
    ensures runs[i].count <= TotalCount(runs)
    decreases |runs|
  {
    if i < |runs| - 1 {
      CountAtMostTotal(DropLast(runs), i);
    }
  }

  /** Appending `n` pixels of a colour other than the last encoded one adds
      exactly one run. */
  lemma {:induction false} EncodeAppendRun(prefix: seq<Color>, c: Color, n: nat)
    requires n >= 1
    requires |prefix| > 0 ==> Last(prefix) != c
    ensures Encode(prefix + Repeat(c, n)) == Encode(prefix) + [Run(n, c)]
    decreases n
  {
    var q := prefix + Repeat(c, n - 1);
    var prior := Encode(q);
    if n == 1 {
      assert prior == Encode(prefix) by {
        assert q == prefix;
      }
      assert |prior| > 0 ==> Last(prior).color != c;
      EncodeSnoc(q, c);
      assert Encode(q + [c]) == Encode(prefix) + [Run(n, c)];
    } else {
      assert prior == Encode(prefix) + [Run(n - 1, c)] by {
        EncodeAppendRun(prefix, c, n - 1);
      }
      assert Last(prior) == Run(n - 1, c) && DropLast(prior) == Encode(prefix);
      EncodeSnoc(q, c);
      assert Encode(q + [c]) == Encode(prefix) + [Run(n, c)];
    }
    assert prefix + Repeat(c, n) == q + [c] by {
      RepeatSnoc(c, n - 1);
      AppendOne(prefix, Repeat(c, n - 1), c);
    }
  }

  /** One step of the encoder: a pixel either extends the last run or starts
      a new one. */
  lemma EncodeSnoc(pixels: seq<Color>, c: Color)
    ensures |Encode(pixels)| > 0 && Last(Encode(pixels)).color == c ==>
              Encode(pixels + [c]) == DropLast(Encode(pixels)) + [Run(Last(Encode(pixels)).count + 1, c)]
    ensures !(|Encode(pixels)| > 0 && Last(Encode(pixels)).color == c) ==>
              Encode(pixels + [c]) == Encode(pixels) + [Run(1, c)]
  {
    assert DropLast(pixels + [c]) == pixels && Last(pixels + [c]) == c;
  }

  /** Uniqueness: a maximal run sequence is the encoding of its own
      expansion, so the encoder is the inverse of the decoder on maximal runs. */
  lemma {:induction false} EncodeOfExpand(runs: seq<Run>)
    requires Maximal(runs)
    ensures Encode(Expand(runs)) == runs
    decreases |runs|
  {
    if |runs| > 0 {
      var rest, r := DropLast(runs), Last(runs);
      var prefix := Expand(rest);
      assert Maximal(rest);
      EncodeOfExpand(rest);
      assert |prefix| > 0 ==> Last(prefix) != r.color by {
        if |prefix| > 0 {
          assert Last(rest).color == Last(prefix);
          assert Last(rest) == runs[|runs| - 2];
        }
      }
      calc {
        Encode(Expand(runs));
        Encode(prefix + Repeat(r.color, r.count));
        { EncodeAppendRun(prefix, r.color, r.count); }
        rest + [Run(r.count, r.color)];
      }
      assert rest + [r] == runs;
    }
  }

  /** The encoding is exactly the one maximal run sequence that expands to
      the row. */
  lemma EncodeCharacterization(pixels: seq<Color>, runs: seq<Run>)
    ensures Encode(pixels) == runs <==> Maximal(runs) && Expand(runs) == pixels
  {
    EncodeRoundTrip(pixels);
    EncodeMaximal(pixels);
    if Maximal(runs) && Expand(runs) == pixels {
      EncodeOfExpand(runs);
    }
  }

  /** A non-empty row yields one run more than it has colour changes. */
  lemma {:induction false} EncodeLength(pixels: seq<Color>)
    requires |pixels| > 0
    ensures |Encode(pixels)| == Transitions(pixels) + 1
    decreases |pixels|
  {
    if |pixels| > 1 {
      var prefix := DropLast(pixels);
      EncodeLength(prefix);
      assert Last(prefix) == pixels[|pixels| - 2];
    }
  }

  /** A uniform row of width `n >= 1` is one run covering the whole row. */
  lemma UniformRow(c: Color, n: nat)
    requires n >= 1
    ensures Encode(Repeat(c, n)) == [Run(n, c)]
  {
    EncodeAppendRun([], c, n);
    assert [] + Repeat(c, n) == Repeat(c, n);
  }

  /** A row whose colour changes at every pixel cannot be compressed: it
      yields one run of length 1 per pixel. */
  lemma {:induction false} AlternatingRow(pixels: seq<Color>)
    requires forall i :: 0 <= i < |pixels| - 1 ==> pixels[i] != pixels[i + 1]
    ensures Encode(pixels) == seq(|pixels|, i requires 0 <= i < |pixels| => Run(1, pixels[i]))
    decreases |pixels|
  {
    if |pixels| > 0 {
      var prefix := DropLast(pixels);
      AlternatingRow(prefix);
      if |prefix| > 0 {
        assert Last(prefix) == pixels[|pixels| - 2];
      }
    }
  }
}
