/** The segmentation, classification and reassembly of `ess_attenuate` in
    de-ess.c. The second pass walks the input once: a gap before the next
    burst is copied verbatim, a burst is either copied or replaced by the FIR
    filter's output over the carried history followed by the burst, and the
    samples after the last burst are copied verbatim. The FIR filter itself is
    a parameter: a function of the buffer and the impulse response that keeps
    the buffer's length. */
module EssAttenuate {
  import opened Wrappers
  import opened Pcm
  import opened SlidingWindow
  import opened EssDetect

  /** Which impulse response a segment is filtered with, if any. */
  datatype Choice = NoAtten | UseH1 | UseH2

  /** One pass through the `do ... while` loop: the segment starts at input
      position `from` (the value of `sample_no`) and spans `len` samples;
      `burst` names the burst entry it consumes, `None` for a gap. */
  datatype Segment = Segment(from: nat, len: nat, choice: Choice, burst: Option<nat>)

  /** The burst-duration limits in samples and the RMS limits. */
  datatype Thresholds = Thresholds(delta1: nat, delta2: nat, threshold1: nat, threshold2: nat)

  /** `(samples_per_sec * delta) / 1000` in `unsigned int` arithmetic: the
      product wraps modulo 2^32 before the division. */
  function ToSamples(samplesPerSec: nat, ms: nat): (r: nat)
    requires samplesPerSec < UInt32Modulus && ms < UInt32Modulus
    ensures r < UInt32Modulus
    ensures samplesPerSec * ms < UInt32Modulus ==> r * 1000 <= samplesPerSec * ms < (r + 1) * 1000
  {
    var product := samplesPerSec * ms;
    var wrapped := product % UInt32Modulus;
    DivBounds(wrapped, 1000);
    wrapped / 1000
  }

  lemma DivBounds(a: nat, d: nat)
    requires d > 0
    ensures a / d <= a && (a / d) * d <= a < (a / d + 1) * d
  {
    var q, m := a / d, a % d;
    assert a == q * d + m && 0 <= m < d;
    assert (q + 1) * d == q * d + d;
    NoSmallerMultiple(q, d);
  }

  lemma {:induction false} NoSmallerMultiple(q: nat, d: nat)
    requires d > 0
    ensures q <= q * d
  {
    if d > 1 {
      NoSmallerMultiple(q, d - 1);
      assert q * d == q * (d - 1) + q;
    }
  }

  /** The limits `ess_attenuate` derives: both durations converted from
      milliseconds to samples, and both RMS limits an eighth of the file RMS. */
  function MakeThresholds(c: Config, fileRms: nat): (th: Thresholds)
    requires ValidConfig(c)
    ensures th.delta1 == ToSamples(c.samplesPerSec, c.delta1)
    ensures th.delta2 == ToSamples(c.samplesPerSec, c.delta2)
    ensures th.threshold1 == th.threshold2 && th.threshold1 * 8 <= fileRms < (th.threshold1 + 1) * 8
  {
    Thresholds(ToSamples(c.samplesPerSec, c.delta1), ToSamples(c.samplesPerSec, c.delta2),
               fileRms / 8, fileRms / 8)
  }

  /** With the globals as initialised (44100 samples per second, 80 ms and
      200 ms, a 2000 Hz fundamental), bursts are measured against 3528 and
      8820 samples, and a qualifying half-cycle lasts at most 11 samples. */
  lemma DefaultLimits(fileRms: nat)
    ensures ValidConfig(Defaults)
    ensures MakeThresholds(Defaults, fileRms).delta1 == 3528
    ensures MakeThresholds(Defaults, fileRms).delta2 == 8820
    ensures SamplesPerFundamentalHalfCycle(Defaults) == 11
  {
  }

  /** The per-burst decision: longer than `delta2` samples uses `h2`, longer
      than `delta1` but not than `delta2` uses `h1`, each only when the burst's
      RMS exceeds its limit; everything else passes through. */
  function Classify(len: nat, rms: nat, th: Thresholds): (ch: Choice)
    ensures ch == UseH2 <==> len > th.delta1 && len > th.delta2 && rms > th.threshold2
    ensures ch == UseH1 <==> th.delta1 < len <= th.delta2 && rms > th.threshold1
    ensures ch == NoAtten <==> len <= th.delta1
                               || (len > th.delta2 && rms <= th.threshold2)
                               || (len <= th.delta2 && rms <= th.threshold1)
  {
    if len > th.delta1 then
      if len > th.delta2 then
        if rms > th.threshold2 then UseH2 else NoAtten
      else
        if rms > th.threshold1 then UseH1 else NoAtten
    else NoAtten
  }

  /** Every burst entry spans a non-negative number of samples. */
  predicate Spans(bursts: seq<Burst>) {
    forall i :: 0 <= i < |bursts| ==> bursts[i].start <= bursts[i].end
  }

  /** Each segment begins where the previous one ends. */
  predicate Contiguous(segs: seq<Segment>) {
    forall i :: 0 <= i < |segs| - 1 ==> segs[i].from + segs[i].len == segs[i + 1].from
  }

  /** The burst entries the segments consume, in order. */
  function Sources(segs: seq<Segment>): seq<nat> {
    if |segs| == 0 then []
    else (if segs[0].burst.Some? then [segs[0].burst.value] else []) + Sources(segs[1..])
  }

  function Range(lo: nat, hi: nat): (r: seq<nat>)
    requires lo <= hi
    ensures |r| == hi - lo && forall i :: 0 <= i < |r| ==> r[i] == lo + i
  {
    seq(hi - lo, i => lo + i)
  }

  lemma SourcesCons(seg: Segment, rest: seq<Segment>)
    ensures Sources([seg] + rest)
            == (if seg.burst.Some? then [seg.burst.value] else []) + Sources(rest)
  {
    assert ([seg] + rest)[1..] == rest;
  }

  /** What the loop promises about segment `i` of a plan that started at
      entry `k`: a burst segment consumes a later entry, spans that entry's
      `end - start` samples and carries its classification; a gap is never
      filtered, is not empty, and ends exactly where the next segment, a
      burst, begins at that burst's start. */
  ghost predicate SegmentOk(bursts: seq<Burst>, k: nat, th: Thresholds, segs: seq<Segment>, i: nat)
    requires i < |segs|
  {
    match segs[i].burst
    case Some(m) =>
      && k <= m < |bursts|
      && segs[i].len == bursts[m].end - bursts[m].start
      && segs[i].choice == Classify(segs[i].len, bursts[m].rms, th)
    case None =>
      && segs[i].choice == NoAtten && segs[i].len > 0
      && i + 1 < |segs| && segs[i + 1].burst.Some?
      && segs[i + 1].burst.value < |bursts|
      && segs[i + 1].from == bursts[segs[i + 1].burst.value].start
  }

  /** The segment list tiles the input from `pos`, consumes entries `k` to the
      last exactly once and in order, ends with the last entry, and every
      segment is as `SegmentOk` says. */
  ghost predicate WellPlanned(bursts: seq<Burst>, k: nat, pos: nat, th: Thresholds, segs: seq<Segment>) {
    && k <= |bursts|
    && |segs| > 0 && segs[0].from == pos && Contiguous(segs)
    && Sources(segs) == Range(k, |bursts|)
    && segs[|segs| - 1].burst == Some(|bursts| - 1)
    && forall i :: 0 <= i < |segs| ==> SegmentOk(bursts, k, th, segs, i)
  }

  lemma PlanBurstLast(bursts: seq<Burst>, k: nat, th: Thresholds, seg: Segment)
    requires k + 1 == |bursts| && seg.burst == Some(k)
    requires seg.len == bursts[k].end - bursts[k].start
    requires seg.choice == Classify(seg.len, bursts[k].rms, th)
    ensures WellPlanned(bursts, k, seg.from, th, [seg])
  {
    SourcesCons(seg, []);
    assert SegmentOk(bursts, k, th, [seg], 0);
  }

  lemma PlanBurstCons(bursts: seq<Burst>, k: nat, th: Thresholds, seg: Segment, rest: seq<Segment>)
    requires k + 1 < |bursts| && seg.burst == Some(k)
    requires seg.len == bursts[k].end - bursts[k].start
    requires seg.choice == Classify(seg.len, bursts[k].rms, th)
    requires WellPlanned(bursts, k + 1, seg.from + seg.len, th, rest)
    ensures WellPlanned(bursts, k, seg.from, th, [seg] + rest)
  {
    var segs := [seg] + rest;
    SourcesCons(seg, rest);
    assert Range(k, |bursts|) == [k] + Range(k + 1, |bursts|);
    forall i | 0 <= i < |segs|
      ensures SegmentOk(bursts, k, th, segs, i)
    {
      if i > 0 {
        assert SegmentOk(bursts, k + 1, th, rest, i - 1);
        assert segs[i] == rest[i - 1];
      }
    }
  }

  lemma PlanGapCons(bursts: seq<Burst>, k: nat, th: Thresholds, seg: Segment, rest: seq<Segment>)
    requires k < |bursts| && seg.burst == None && seg.choice == NoAtten && seg.len > 0
    requires seg.from + seg.len == bursts[k].start
    requires WellPlanned(bursts, k, seg.from + seg.len, th, rest) && rest[0].burst == Some(k)
    ensures WellPlanned(bursts, k, seg.from, th, [seg] + rest)
  {
    var segs := [seg] + rest;
    SourcesCons(seg, rest);
    forall i | 0 <= i < |segs|
      ensures SegmentOk(bursts, k, th, segs, i)
    {
      if i > 0 {
        assert SegmentOk(bursts, k, th, rest, i - 1);
        assert segs[i] == rest[i - 1];
      }
    }
  }

  /** The segments the loop visits from `sample_no == pos` at burst entry `k`:
      when `pos` has not reached the entry's start, a gap up to it (the entry
      is not consumed); otherwise the entry's `end - start` samples, classified.
      The loop stops after the last entry is consumed. */
  function Plan(bursts: seq<Burst>, pos: nat, k: nat, th: Thresholds): seq<Segment>
    requires k < |bursts| && Spans(bursts)
    decreases |bursts| - k, if pos < bursts[k].start then 1 else 0
  {
    var b := bursts[k];
    if pos >= b.start then
      var len := b.end - b.start;
      var seg := Segment(pos, len, Classify(len, b.rms, th), Some(k));
      if k + 1 < |bursts| then [seg] + Plan(bursts, pos + len, k + 1, th) else [seg]
    else
      [Segment(pos, b.start - pos, NoAtten, None)] + Plan(bursts, b.start, k, th)
  }

  /** The plan from `pos` and entry `k` is well planned, and starts with entry
      `k` itself once `pos` has reached its start. */
  lemma {:induction false} PlanWellPlanned(bursts: seq<Burst>, pos: nat, k: nat, th: Thresholds)
    requires k < |bursts| && Spans(bursts)
    ensures WellPlanned(bursts, k, pos, th, Plan(bursts, pos, k, th))
    ensures pos >= bursts[k].start ==> Plan(bursts, pos, k, th)[0].burst == Some(k)
    decreases |bursts| - k, if pos < bursts[k].start then 1 else 0
  {
    var b := bursts[k];
    var segs := Plan(bursts, pos, k, th);
    if pos >= b.start {
      var len := b.end - b.start;
      var seg := Segment(pos, len, Classify(len, b.rms, th), Some(k));
      if k + 1 < |bursts| {
        var rest := Plan(bursts, pos + len, k + 1, th);
        assert segs == [seg] + rest;
        PlanWellPlanned(bursts, pos + len, k + 1, th);
        PlanBurstCons(bursts, k, th, seg, rest);
      } else {
        assert segs == [seg];
        PlanBurstLast(bursts, k, th, seg);
      }
    } else {
      var seg := Segment(pos, b.start - pos, NoAtten, None);
      var rest := Plan(bursts, b.start, k, th);
      assert segs == [seg] + rest;
      PlanWellPlanned(bursts, b.start, k, th);
      PlanGapCons(bursts, k, th, seg, rest);
    }
  }

  function Max(a: int, b: int): int {
    if a < b then b else a
  }

  /** Every burst segment is read from `max(start, pos)` of its entry. */
  ghost predicate Aligned(bursts: seq<Burst>, pos: int, segs: seq<Segment>) {
    forall i :: 0 <= i < |segs| ==>
      match segs[i].burst
      case Some(m) => m < |bursts| && segs[i].from == Max(bursts[m].start, pos)
      case None => true
  }

  /** Every entry a plan from entry `k` consumes starts at or after `p`. */
  lemma PlanStartsAfter(bursts: seq<Burst>, k: nat, pos: nat, th: Thresholds, segs: seq<Segment>, p: int)
    requires Spans(bursts) && Ordered(bursts) && WellPlanned(bursts, k, pos, th, segs)
    requires k < |bursts| && p <= bursts[k].start
    ensures forall i :: 0 <= i < |segs| && segs[i].burst.Some? && segs[i].burst.value < |bursts| ==>
              p <= bursts[segs[i].burst.value].start
  {
    forall i | 0 <= i < |segs| && segs[i].burst.Some? && segs[i].burst.value < |bursts|
      ensures p <= bursts[segs[i].burst.value].start
    {
      assert SegmentOk(bursts, k, th, segs, i);
      var m := segs[i].burst.value;
      if m != k {
        assert bursts[k].end < bursts[m].start;
      }
    }
  }

  /** `PlanStartsAfter` for the plan itself. */
  lemma PlanConsumesAfter(bursts: seq<Burst>, k: nat, pos: nat, th: Thresholds, p: int)
    requires Spans(bursts) && Ordered(bursts)
    requires k < |bursts| && p <= bursts[k].start
    ensures forall i :: (0 <= i < |Plan(bursts, pos, k, th)| && Plan(bursts, pos, k, th)[i].burst.Some?
                          && Plan(bursts, pos, k, th)[i].burst.value < |bursts|) ==>
              p <= bursts[Plan(bursts, pos, k, th)[i].burst.value].start
  {
    PlanWellPlanned(bursts, pos, k, th);
    PlanStartsAfter(bursts, k, pos, th, Plan(bursts, pos, k, th), p);
  }

  lemma AlignedCons(bursts: seq<Burst>, pos: int, seg: Segment, rest: seq<Segment>, p: int)
    requires Aligned(bursts, p, rest) && pos <= p
    requires seg.burst.Some? ==> seg.burst.value < |bursts| && seg.from == Max(bursts[seg.burst.value].start, pos)
    requires forall i :: 0 <= i < |rest| && rest[i].burst.Some? && rest[i].burst.value < |bursts| ==>
               p <= bursts[rest[i].burst.value].start
    ensures Aligned(bursts, pos, [seg] + rest)
  {
    var segs := [seg] + rest;
    forall i | 0 <= i < |segs|
      ensures match segs[i].burst
              case Some(m) => m < |bursts| && segs[i].from == Max(bursts[m].start, pos)
              case None => true
    {
      if i > 0 {
        assert segs[i] == rest[i - 1];
      }
    }
  }

  /** On a burst list as the detection pass produces it, the loop reaches each
      burst exactly at its start (or at `pos`, for a first burst whose start
      lies before `pos`), so burst `m` is read from `max(start_m, pos)`. */
  lemma {:induction false} PlanAligned(bursts: seq<Burst>, pos: nat, k: nat, th: Thresholds)
    requires k < |bursts| && Spans(bursts) && Ordered(bursts)
    requires pos <= bursts[k].start + 1
    ensures Aligned(bursts, pos, Plan(bursts, pos, k, th))
    decreases |bursts| - k, if pos < bursts[k].start then 1 else 0
  {
    var b := bursts[k];
    var segs := Plan(bursts, pos, k, th);
    if pos >= b.start {
      var len := b.end - b.start;
      var seg := Segment(pos, len, Classify(len, b.rms, th), Some(k));
      if k + 1 < |bursts| {
        var rest := Plan(bursts, pos + len, k + 1, th);
        assert segs == [seg] + rest;
        assert b.end < bursts[k + 1].start;
        PlanAligned(bursts, pos + len, k + 1, th);
        PlanConsumesAfter(bursts, k + 1, pos + len, th, pos + len);
        AlignedCons(bursts, pos, seg, rest, pos + len);
      } else {
        assert segs == [seg] + [];
        AlignedCons(bursts, pos, seg, [], pos);
      }
    } else {
      var seg := Segment(pos, b.start - pos, NoAtten, None);
      var rest := Plan(bursts, b.start, k, th);
      assert segs == [seg] + rest;
      PlanAligned(bursts, b.start, k, th);
      PlanConsumesAfter(bursts, k, b.start, th, b.start);
      AlignedCons(bursts, pos, seg, rest, b.start);
    }
  }

  /** The abstract FIR filter `filter(x, y, size, h)`: its output buffer has
      the input buffer's length. */
  ghost predicate LengthPreserving(filter: (seq<int>, seq<real>) -> seq<int>) {
    forall x, h :: |filter(x, h)| == |x|
  }

  /** What one segment writes: its raw samples, or the part of the filter's
      output over `history ++ raw` that lies past the `N` history samples. */
  function SegmentOutput(raw: seq<int>, history: seq<int>, choice: Choice,
                         filter: (seq<int>, seq<real>) -> seq<int>, h1: seq<real>, h2: seq<real>): (out: seq<int>)
    requires |history| == N && LengthPreserving(filter)
    ensures |out| == |raw|
  {
    match choice
    case NoAtten => raw
    case UseH1 => filter(history + raw, h1)[N..N + |raw|]
    case UseH2 => filter(history + raw, h2)[N..N + |raw|]
  }

  /** The samples written after the header, and whether the pass returned TRUE. */
  datatype Written = Written(samples: seq<int>, complete: bool)

  /** The input position after the segments, when they are read from `pos`. */
  function End(segs: seq<Segment>, pos: nat): (e: nat)
    ensures e >= pos
  {
    if |segs| == 0 then pos else End(segs[1..], pos + segs[0].len)
  }

  /** The I/O of the loop and the trailing copy: each segment reads `len`
      samples after the `N` history samples; a short read writes the samples
      it got, unfiltered, and ends the pass with FALSE; otherwise the segment's
      output is written and the history becomes the last `N` samples of the
      raw buffer. After the last segment the rest of the input is copied. */
  function Reassemble(xs: seq<int>, segs: seq<Segment>, pos: nat, history: seq<int>,
                      filter: (seq<int>, seq<real>) -> seq<int>, h1: seq<real>, h2: seq<real>): (w: Written)
    requires pos <= |xs| && |history| == N && LengthPreserving(filter)
    ensures |w.samples| == |xs| - pos
    ensures w.complete <==> End(segs, pos) <= |xs|
    decreases |segs|
  {
    if |segs| == 0 then Written(xs[pos..], true)
    else
      var len := segs[0].len;
      if pos + len > |xs| then Written(xs[pos..], false)
      else
        var raw := xs[pos..pos + len];
        var buffer := history + raw;
        var out := SegmentOutput(raw, history, segs[0].choice, filter, h1, h2);
        var rest := Reassemble(xs, segs[1..], pos + len, buffer[len..len + N], filter, h1, h2);
        Written(out + rest.samples, rest.complete)
  }

  /** The filter history at input position `p`: the `N` input samples before
      `p`, with zeros standing in before the start of the input. */
  function History(xs: seq<int>, p: nat): (h: seq<int>)
    requires p <= |xs|
    ensures |h| == N
  {
    (Zeros(N) + xs[..p])[p..p + N]
  }

  /** Carrying the last `N` raw samples of `history ++ segment` forward is the
      history at the segment's end. */
  lemma HistoryStep(xs: seq<int>, p: nat, len: nat)
    requires p + len <= |xs|
    ensures (History(xs, p) + xs[p..p + len])[len..len + N] == History(xs, p + len)
  {
    var w := Zeros(N) + xs[..p + len];
    assert History(xs, p) == w[p..p + N];
    assert xs[p..p + len] == w[N + p..N + p + len];
    assert History(xs, p) + xs[p..p + len] == w[p..p + N + len];
  }

  lemma {:induction false} FromMonotone(segs: seq<Segment>, i: nat, j: nat)
    requires Contiguous(segs) && i < j < |segs|
    ensures segs[i].from + segs[i].len <= segs[j].from
    decreases j - i
  {
    if i + 1 < j {
      FromMonotone(segs, i + 1, j);
    }
  }

  /** One step of the pass when the history is the true history. */
  lemma ReassembleUnfold(xs: seq<int>, segs: seq<Segment>, pos: nat,
                         filter: (seq<int>, seq<real>) -> seq<int>, h1: seq<real>, h2: seq<real>)
    requires LengthPreserving(filter) && |segs| > 0 && pos + segs[0].len <= |xs|
    ensures Reassemble(xs, segs, pos, History(xs, pos), filter, h1, h2).samples
            == SegmentOutput(xs[pos..pos + segs[0].len], History(xs, pos), segs[0].choice, filter, h1, h2)
               + Reassemble(xs, segs[1..], pos + segs[0].len, History(xs, pos + segs[0].len), filter, h1, h2).samples
  {
    HistoryStep(xs, pos, segs[0].len);
  }

  /** Every segment that lies inside the input is written where it was read:
      raw when unfiltered, and otherwise filtered over exactly the `N` input
      samples that precede it. */
  lemma {:induction false} ReassembleSegment(xs: seq<int>, segs: seq<Segment>, pos: nat, w: Written,
                                             filter: (seq<int>, seq<real>) -> seq<int>,
                                             h1: seq<real>, h2: seq<real>, i: nat)
    requires pos <= |xs| && LengthPreserving(filter)
    requires Contiguous(segs) && i < |segs| && segs[0].from == pos
    requires segs[i].from + segs[i].len <= |xs|
    requires w == Reassemble(xs, segs, pos, History(xs, pos), filter, h1, h2)
    ensures Placed(xs, w.samples, pos, segs[i].from, segs[i].len, segs[i].choice, filter, h1, h2)
    decreases i
  {
    var len := segs[0].len;
    if i > 0 {
      FromMonotone(segs, 0, i);
    }
    ReassembleUnfold(xs, segs, pos, filter, h1, h2);
    var out := SegmentOutput(xs[pos..pos + len], History(xs, pos), segs[0].choice, filter, h1, h2);
    var rest := Reassemble(xs, segs[1..], pos + len, History(xs, pos + len), filter, h1, h2);
    assert w.samples == out + rest.samples;
    if i == 0 {
      assert w.samples[0..len] == out;
    } else {
      var tail := segs[1..];
      ContiguousTail(segs);
      assert tail[i - 1] == segs[i];
      ReassembleSegment(xs, tail, pos + len, rest, filter, h1, h2, i - 1);
      PlacedShift(xs, w.samples, out, rest.samples, pos, len, segs[i].from, segs[i].len, segs[i].choice,
                  filter, h1, h2);
    }
  }

  /** The `len` input samples at `from` appear, as `SegmentOutput` makes them
      with `choice`, in `out`, the output written from input position `pos` on. */
  ghost predicate Placed(xs: seq<int>, out: seq<int>, pos: int, from: int, len: int, choice: Choice,
                         filter: (seq<int>, seq<real>) -> seq<int>, h1: seq<real>, h2: seq<real>)
    requires LengthPreserving(filter)
  {
    && 0 <= pos <= from && 0 <= len && from + len <= |xs| && from - pos + len <= |out|
    && out[from - pos..from - pos + len]
       == SegmentOutput(xs[from..from + len], History(xs, from), choice, filter, h1, h2)
  }

  lemma PlacedShift(xs: seq<int>, c: seq<int>, a: seq<int>, b: seq<int>, pos: int, n: int,
                    from: int, len: int, choice: Choice,
                    filter: (seq<int>, seq<real>) -> seq<int>, h1: seq<real>, h2: seq<real>)
    requires LengthPreserving(filter) && c == a + b && |a| == n && 0 <= pos
    requires Placed(xs, b, pos + n, from, len, choice, filter, h1, h2)
    ensures Placed(xs, c, pos, from, len, choice, filter, h1, h2)
  {
    var k := from - (pos + n);
    assert c[from - pos..from - pos + len] == b[k..k + len];
  }

  lemma ContiguousTail(segs: seq<Segment>)
    requires Contiguous(segs) && |segs| > 0
    ensures Contiguous(segs[1..])
  {
    var tail := segs[1..];
    forall j | 0 <= j < |tail| - 1
      ensures tail[j].from + tail[j].len == tail[j + 1].from
    {
      assert tail[j] == segs[j + 1] && tail[j + 1] == segs[j + 2];
    }
  }

  /** The position up to which the segments read from `pos` lie inside the input. */
  function Covered(xs: seq<int>, segs: seq<Segment>, pos: nat): (q: nat)
    requires pos <= |xs|
    ensures pos <= q <= |xs|
    decreases |segs|
  {
    if |segs| == 0 || pos + segs[0].len > |xs| then pos
    else Covered(xs, segs[1..], pos + segs[0].len)
  }

  /** The segments stop fitting only where they end, or before the end of
      the input: a pass that reads all of them covers exactly their span. */
  lemma {:induction false} CoveredEnd(xs: seq<int>, segs: seq<Segment>, pos: nat)
    requires pos <= |xs|
    ensures Covered(xs, segs, pos) == End(segs, pos) <==> End(segs, pos) <= |xs|
    decreases |segs|
  {
    if |segs| > 0 {
      if pos + segs[0].len <= |xs| {
        CoveredEnd(xs, segs[1..], pos + segs[0].len);
      }
    }
  }

  /** Everything from the point where the segments stop fitting is the input
      copied verbatim: the trailing copy after the last burst, or the samples
      a short read got. The pass completes exactly when that point is the end
      of the last segment. */
  lemma {:induction false} ReassembleTail(xs: seq<int>, segs: seq<Segment>, pos: nat, history: seq<int>, w: Written,
                                          filter: (seq<int>, seq<real>) -> seq<int>,
                                          h1: seq<real>, h2: seq<real>)
    requires pos <= |xs| && |history| == N && LengthPreserving(filter)
    requires w == Reassemble(xs, segs, pos, history, filter, h1, h2)
    ensures Copied(xs, w.samples, pos, Covered(xs, segs, pos))
    decreases |segs|
  {
    if |segs| > 0 && pos + segs[0].len <= |xs| {
      var rest, hist := ReassembleStep(xs, segs, pos, history, w, filter, h1, h2);
      var len := segs[0].len;
      ReassembleTail(xs, segs[1..], pos + len, hist, rest, filter, h1, h2);
      var q := Covered(xs, segs[1..], pos + len);
      assert Covered(xs, segs, pos) == q;
      TailShift(xs, w.samples, rest.samples, pos, len, q);
    } else {
      ReassembleStop(xs, segs, pos, history, w, filter, h1, h2);
    }
  }

  /** Where the segments stop fitting, the rest of the input is copied. */
  lemma ReassembleStop(xs: seq<int>, segs: seq<Segment>, pos: nat, history: seq<int>, w: Written,
                       filter: (seq<int>, seq<real>) -> seq<int>,
                       h1: seq<real>, h2: seq<real>)
    requires pos <= |xs| && |history| == N && LengthPreserving(filter)
    requires |segs| == 0 || pos + segs[0].len > |xs|
    requires w == Reassemble(xs, segs, pos, history, filter, h1, h2)
    ensures Covered(xs, segs, pos) == pos
    ensures Copied(xs, w.samples, pos, pos)
  {
    assert w.samples == xs[pos..];
  }

  /** `out`, written from input position `pos` on, holds the input itself from
      position `q` to the end. */
  ghost predicate Copied(xs: seq<int>, out: seq<int>, pos: int, q: int) {
    && 0 <= pos <= q && |out| == |xs| - pos
    && forall k :: q <= k < |xs| ==> out[k - pos] == xs[k]
  }

  lemma TailShift(xs: seq<int>, a: seq<int>, b: seq<int>, pos: int, len: int, q: int)
    requires 0 <= pos && |a| == |xs| - pos && 0 <= len <= |a| && a[len..] == b
    requires Copied(xs, b, pos + len, q)
    ensures Copied(xs, a, pos, q)
  {
    forall k | q <= k < |xs|
      ensures a[k - pos] == xs[k]
    {
      assert a[len..][k - (pos + len)] == b[k - (pos + len)];
    }
  }

  /** One step of the pass, with any history: the rest of the output is the
      pass over the remaining segments with the history carried forward. */
  lemma ReassembleStep(xs: seq<int>, segs: seq<Segment>, pos: nat, history: seq<int>, w: Written,
                       filter: (seq<int>, seq<real>) -> seq<int>,
                       h1: seq<real>, h2: seq<real>) returns (rest: Written, hist: seq<int>)
    requires pos <= |xs| && |history| == N && LengthPreserving(filter)
    requires |segs| > 0 && pos + segs[0].len <= |xs|
    requires w == Reassemble(xs, segs, pos, history, filter, h1, h2)
    ensures |hist| == N
    ensures rest == Reassemble(xs, segs[1..], pos + segs[0].len, hist, filter, h1, h2)
    ensures w.samples[segs[0].len..] == rest.samples && w.complete == rest.complete
    ensures w.samples[..segs[0].len]
            == SegmentOutput(xs[pos..pos + segs[0].len], history, segs[0].choice, filter, h1, h2)
  {
    var len := segs[0].len;
    var raw := xs[pos..pos + len];
    hist := (history + raw)[len..len + N];
    rest := Reassemble(xs, segs[1..], pos + len, hist, filter, h1, h2);
    var out := SegmentOutput(raw, history, segs[0].choice, filter, h1, h2);
    assert w.samples == out + rest.samples;
  }

  /** The second pass proper, once the thresholds are known: the segments
      planned from sample 0 and burst entry 0, reassembled with an all-zero
      history (`calloc(N, ...)`). */
  function Pass(xs: seq<int>, bursts: seq<Burst>, th: Thresholds,
                filter: (seq<int>, seq<real>) -> seq<int>, h1: seq<real>, h2: seq<real>): (w: Written)
    requires |bursts| > 0 && Spans(bursts) && LengthPreserving(filter)
    ensures |w.samples| == |xs|
    ensures w.complete <==> End(Plan(bursts, 0, 0, th), 0) <= |xs|
  {
    Reassemble(xs, Plan(bursts, 0, 0, th), 0, Zeros(N), filter, h1, h2)
  }

  /** `ess_attenuate`: thresholds from the whole-file RMS (taken over whatever
      `file_rms` is given: the stream from byte 0, header words included), then
      the second pass. `None` is the division by zero in `file_rms` when no
      sample passes its gate. `header` stands for the 22 header words the
      program's `file_rms` reads first; the model accepts a prefix of any
      length. At least one burst entry is required: the loop reads entry 0
      before testing the count. */
  function EssAttenuate(c: Config, header: seq<int>, xs: seq<int>, bursts: seq<Burst>,
                        filter: (seq<int>, seq<real>) -> seq<int>, h1: seq<real>, h2: seq<real>): (r: Option<Written>)
    requires ValidConfig(c) && |bursts| > 0 && Spans(bursts) && LengthPreserving(filter)
    ensures r.None? <==> FileRms(header + xs, c.noiseFloor).None?
    ensures r.Some? ==> |r.value.samples| == |xs|
    ensures r.Some? ==> (r.value.complete <==>
              End(Plan(bursts, 0, 0, MakeThresholds(c, FileRms(header + xs, c.noiseFloor).value)), 0) <= |xs|)
  {
    match FileRms(header + xs, c.noiseFloor)
    case None => None
    case Some(fileRms) => Some(Pass(xs, bursts, MakeThresholds(c, fileRms), filter, h1, h2))
  }

  /** On the detection pass's own burst list, `ess_attenuate` returns TRUE,
      and each burst is written as it is classified under the limits derived
      from the whole-file RMS (`filerms/8`). */
  lemma EssAttenuateDetected(c: Config, header: seq<int>, xs: seq<int>, bursts: seq<Burst>,
                             filter: (seq<int>, seq<real>) -> seq<int>, h1: seq<real>, h2: seq<real>)
    requires ValidConfig(c) && |bursts| > 0 && Detected(bursts, |xs|) && LengthPreserving(filter)
    ensures Spans(bursts)
    ensures var r := EssAttenuate(c, header, xs, bursts, filter, h1, h2);
            r.Some? ==>
              && r.value.complete
              && var th := MakeThresholds(c, FileRms(header + xs, c.noiseFloor).value);
                 forall m :: 0 <= m < |bursts| ==> BurstWritten(xs, r.value, th, filter, h1, h2, bursts[m])
  {
    DetectedSpans(bursts, |xs|);
    var r := EssAttenuate(c, header, xs, bursts, filter, h1, h2);
    if r.Some? {
      var th := MakeThresholds(c, FileRms(header + xs, c.noiseFloor).value);
      assert r.value == Pass(xs, bursts, th, filter, h1, h2);
      PassComplete(xs, bursts, th, filter, h1, h2);
      forall m | 0 <= m < |bursts|
        ensures BurstWritten(xs, r.value, th, filter, h1, h2, bursts[m])
      {
        PassBurst(xs, bursts, th, filter, h1, h2, m);
      }
    }
  }

  lemma DetectedSpans(bursts: seq<Burst>, len: int)
    requires Detected(bursts, len)
    ensures Spans(bursts)
  {
  }

  lemma {:induction false} EndIsLast(segs: seq<Segment>, pos: nat)
    requires Contiguous(segs) && |segs| > 0 && segs[0].from == pos
    ensures End(segs, pos) == segs[|segs| - 1].from + segs[|segs| - 1].len
    decreases |segs|
  {
    if |segs| > 1 {
      var tail := segs[1..];
      ContiguousTail(segs);
      EndIsLast(tail, pos + segs[0].len);
    }
  }

  /** The segment that consumes burst entry `m`. */
  lemma {:induction false} FindSegment(segs: seq<Segment>, m: nat) returns (i: nat)
    requires m in Sources(segs)
    ensures i < |segs| && segs[i].burst == Some(m)
    decreases |segs|
  {
    SourcesCons(segs[0], segs[1..]);
    assert segs == [segs[0]] + segs[1..];
    if segs[0].burst == Some(m) {
      i := 0;
    } else {
      var i' := FindSegment(segs[1..], m);
      i := i' + 1;
    }
  }

  /** The segment that holds input position `j`. */
  lemma {:induction false} Locate(segs: seq<Segment>, pos: nat, j: nat) returns (i: nat)
    requires Contiguous(segs) && |segs| > 0 && segs[0].from == pos && pos <= j < End(segs, pos)
    ensures i < |segs| && segs[i].from <= j < segs[i].from + segs[i].len
    decreases |segs|
  {
    if j < pos + segs[0].len {
      i := 0;
    } else {
      var tail := segs[1..];
      ContiguousTail(segs);
      var i' := Locate(tail, pos + segs[0].len, j);
      i := i' + 1;
    }
  }

  lemma FromMonotone'(segs: seq<Segment>, i: nat, j: nat)
    requires Contiguous(segs) && i <= j < |segs|
    ensures segs[i].from + segs[i].len <= segs[j].from + segs[j].len
  {
    if i < j {
      FromMonotone(segs, i, j);
    }
  }

  /** Where burst `b` is read from when the pass starts at position 0. */
  function ReadFrom(b: Burst): int {
    Max(b.start, 0)
  }

  /** On the detection pass's own burst list the second pass never hits a
      short read: the last burst ends before the input does. */
  lemma PassComplete(xs: seq<int>, bursts: seq<Burst>, th: Thresholds,
                     filter: (seq<int>, seq<real>) -> seq<int>, h1: seq<real>, h2: seq<real>)
    requires |bursts| > 0 && Detected(bursts, |xs|) && LengthPreserving(filter)
    ensures Spans(bursts)
    ensures Pass(xs, bursts, th, filter, h1, h2).complete
  {
    DetectedPlan(|xs|, bursts, th);
  }

  /** The facts about the plan of a detection-pass burst list that the
      end-to-end lemmas need: it is aligned and lies inside the input. */
  lemma DetectedPlan(len: nat, bursts: seq<Burst>, th: Thresholds)
    requires |bursts| > 0 && Detected(bursts, len)
    ensures Spans(bursts)
    ensures WellPlanned(bursts, 0, 0, th, Plan(bursts, 0, 0, th))
    ensures Aligned(bursts, 0, Plan(bursts, 0, 0, th))
    ensures End(Plan(bursts, 0, 0, th), 0) <= len
  {
    DetectedSpans(bursts, len);
    var segs := Plan(bursts, 0, 0, th);
    PlanWellPlanned(bursts, 0, 0, th);
    PlanAligned(bursts, 0, 0, th);
    var last := |segs| - 1;
    assert SegmentOk(bursts, 0, th, segs, last);
    EndIsLast(segs, 0);
  }

  /** The segment of burst `m` in the plan of a detection-pass burst list. */
  lemma BurstSegment(len: nat, bursts: seq<Burst>, th: Thresholds, m: nat) returns (i: nat)
    requires |bursts| > 0 && Detected(bursts, len) && m < |bursts|
    ensures Spans(bursts)
    ensures var segs := Plan(bursts, 0, 0, th);
            && Contiguous(segs) && segs[0].from == 0
            && i < |segs|
            && segs[i].from == ReadFrom(bursts[m])
            && segs[i].len == bursts[m].end - bursts[m].start
            && segs[i].choice == Classify(segs[i].len, bursts[m].rms, th)
            && segs[i].from + segs[i].len <= len
  {
    DetectedPlan(len, bursts, th);
    var segs := Plan(bursts, 0, 0, th);
    assert Sources(segs)[m] == m;
    i := FindSegment(segs, m);
    assert SegmentOk(bursts, 0, th, segs, i);
    EndIsLast(segs, 0);
    FromMonotone'(segs, i, |segs| - 1);
  }

  /** On the detection pass's own burst list, burst `m` occupies
      `max(start, 0)` for `end - start` samples of the output, which hold the
      input when the burst is classified "none" and otherwise the chosen
      filter's output over the `N` input samples before the burst followed by
      the burst. */
  lemma PassBurst(xs: seq<int>, bursts: seq<Burst>, th: Thresholds,
                  filter: (seq<int>, seq<real>) -> seq<int>, h1: seq<real>, h2: seq<real>, m: nat)
    requires |bursts| > 0 && Detected(bursts, |xs|) && LengthPreserving(filter) && m < |bursts|
    ensures Spans(bursts)
    ensures BurstWritten(xs, Pass(xs, bursts, th, filter, h1, h2), th, filter, h1, h2, bursts[m])
  {
    var i := BurstSegment(|xs|, bursts, th, m);
    var segs := Plan(bursts, 0, 0, th);
    var w := Pass(xs, bursts, th, filter, h1, h2);
    assert w == Reassemble(xs, segs, 0, Zeros(N), filter, h1, h2);
    PassSegment(xs, segs, w, i, filter, h1, h2);
    BurstPlaced(xs, w, th, filter, h1, h2, bursts[m], segs[i].from, segs[i].len, segs[i].choice);
  }

  /** Burst `b` occupies `max(start, 0)` for `end - start` samples of the
      output `w`, which hold what the chosen filter makes of them. */
  ghost predicate BurstWritten(xs: seq<int>, w: Written, th: Thresholds,
                               filter: (seq<int>, seq<real>) -> seq<int>, h1: seq<real>, h2: seq<real>, b: Burst)
    requires LengthPreserving(filter)
  {
    b.start <= b.end
    && Placed(xs, w.samples, 0, ReadFrom(b), b.end - b.start, Classify(b.end - b.start, b.rms, th), filter, h1, h2)
  }

  /** A segment placed where and as burst `b` asks is the burst written. */
  lemma BurstPlaced(xs: seq<int>, w: Written, th: Thresholds,
                    filter: (seq<int>, seq<real>) -> seq<int>, h1: seq<real>, h2: seq<real>, b: Burst,
                    from: int, len: nat, choice: Choice)
    requires LengthPreserving(filter) && Placed(xs, w.samples, 0, from, len, choice, filter, h1, h2)
    requires from == ReadFrom(b) && len == b.end - b.start && choice == Classify(len, b.rms, th)
    ensures BurstWritten(xs, w, th, filter, h1, h2, b)
  {
  }

  /** `ReassembleSegment` for a pass that starts at position 0. */
  lemma PassSegment(xs: seq<int>, segs: seq<Segment>, w: Written, i: nat,
                    filter: (seq<int>, seq<real>) -> seq<int>, h1: seq<real>, h2: seq<real>)
    requires Contiguous(segs) && |segs| > 0 && segs[0].from == 0 && LengthPreserving(filter)
    requires i < |segs| && segs[i].from + segs[i].len <= |xs|
    requires w == Reassemble(xs, segs, 0, Zeros(N), filter, h1, h2)
    ensures Placed(xs, w.samples, 0, segs[i].from, segs[i].len, segs[i].choice, filter, h1, h2)
  {
    assert History(xs, 0) == Zeros(N);
    ReassembleSegment(xs, segs, 0, w, filter, h1, h2, i);
  }

  /** On the detection pass's own burst list, every sample outside all burst
      spans is copied verbatim, the gaps and the tail alike. */
  lemma PassVerbatim(xs: seq<int>, bursts: seq<Burst>, th: Thresholds,
                     filter: (seq<int>, seq<real>) -> seq<int>, h1: seq<real>, h2: seq<real>, j: nat)
    requires |bursts| > 0 && Detected(bursts, |xs|) && LengthPreserving(filter) && j < |xs|
    requires forall m :: 0 <= m < |bursts| ==>
               !(ReadFrom(bursts[m]) <= j < ReadFrom(bursts[m]) + bursts[m].end - bursts[m].start)
    ensures Spans(bursts)
    ensures Pass(xs, bursts, th, filter, h1, h2).samples[j] == xs[j]
  {
    DetectedPlan(|xs|, bursts, th);
    var segs := Plan(bursts, 0, 0, th);
    var w := Pass(xs, bursts, th, filter, h1, h2);
    assert w == Reassemble(xs, segs, 0, Zeros(N), filter, h1, h2);
    if j < End(segs, 0) {
      var i := Locate(segs, 0, j);
      GapAt(bursts, th, segs, i, j);
      EndIsLast(segs, 0);
      FromMonotone'(segs, i, |segs| - 1);
      VerbatimInGap(xs, segs, w, filter, h1, h2, i, j);
    } else {
      VerbatimInTail(xs, segs, w, filter, h1, h2, j);
    }
  }

  lemma VerbatimInGap(xs: seq<int>, segs: seq<Segment>, w: Written,
                      filter: (seq<int>, seq<real>) -> seq<int>, h1: seq<real>, h2: seq<real>, i: nat, j: nat)
    requires Contiguous(segs) && |segs| > 0 && segs[0].from == 0 && LengthPreserving(filter)
    requires w == Reassemble(xs, segs, 0, Zeros(N), filter, h1, h2)
    requires i < |segs| && segs[i].from <= j < segs[i].from + segs[i].len <= |xs| && segs[i].choice == NoAtten
    ensures j < |w.samples| && w.samples[j] == xs[j]
  {
    var o, len := segs[i].from, segs[i].len;
    PassSegment(xs, segs, w, i, filter, h1, h2);
    assert w.samples[o..o + len][j - o] == w.samples[j];
  }

  lemma VerbatimInTail(xs: seq<int>, segs: seq<Segment>, w: Written,
                       filter: (seq<int>, seq<real>) -> seq<int>, h1: seq<real>, h2: seq<real>, j: nat)
    requires LengthPreserving(filter) && w == Reassemble(xs, segs, 0, Zeros(N), filter, h1, h2)
    requires End(segs, 0) <= j < |xs|
    ensures j < |w.samples| && w.samples[j] == xs[j]
  {
    ReassembleTail(xs, segs, 0, Zeros(N), w, filter, h1, h2);
    CoveredEnd(xs, segs, 0);
  }

  /** A burst that is not attenuated (too short, or not above its RMS limit)
      comes out exactly as it went in. */
  lemma PassBurstUnfiltered(xs: seq<int>, bursts: seq<Burst>, th: Thresholds,
                            filter: (seq<int>, seq<real>) -> seq<int>, h1: seq<real>, h2: seq<real>, m: nat)
    requires |bursts| > 0 && Detected(bursts, |xs|) && LengthPreserving(filter) && m < |bursts|
    requires Classify(bursts[m].end - bursts[m].start, bursts[m].rms, th) == NoAtten
    ensures Spans(bursts)
    ensures Unfiltered(xs, Pass(xs, bursts, th, filter, h1, h2).samples, ReadFrom(bursts[m]),
                       bursts[m].end - bursts[m].start)
  {
    PassBurst(xs, bursts, th, filter, h1, h2, m);
  }

  /** The `len` output samples at `from` are the input samples there. */
  ghost predicate Unfiltered(xs: seq<int>, out: seq<int>, from: int, len: int) {
    0 <= from && 0 <= len && from + len <= |xs| && from + len <= |out|
    && out[from..from + len] == xs[from..from + len]
  }

  /** A filter that returns its buffer unchanged makes the pass a copy of the
      input, whatever the segments. */
  lemma {:induction false} ReassembleIdentity(xs: seq<int>, segs: seq<Segment>, pos: nat, history: seq<int>,
                                              w: Written, filter: (seq<int>, seq<real>) -> seq<int>,
                                              h1: seq<real>, h2: seq<real>)
    requires pos <= |xs| && |history| == N && LengthPreserving(filter)
    requires forall x, h :: filter(x, h) == x
    requires w == Reassemble(xs, segs, pos, history, filter, h1, h2)
    ensures w.samples == xs[pos..]
    decreases |segs|
  {
    if |segs| > 0 && pos + segs[0].len <= |xs| {
      var rest, hist := ReassembleStep(xs, segs, pos, history, w, filter, h1, h2);
      var len := segs[0].len;
      ReassembleIdentity(xs, segs[1..], pos + len, hist, rest, filter, h1, h2);
      SegmentIdentity(xs[pos..pos + len], history, segs[0].choice, filter, h1, h2);
      SplitAt(xs[pos..], w.samples, len);
    } else {
      ReassembleStop(xs, segs, pos, history, w, filter, h1, h2);
    }
  }

  lemma SegmentIdentity(raw: seq<int>, history: seq<int>, choice: Choice,
                        filter: (seq<int>, seq<real>) -> seq<int>, h1: seq<real>, h2: seq<real>)
    requires |history| == N && LengthPreserving(filter)
    requires forall x, h :: filter(x, h) == x
    ensures SegmentOutput(raw, history, choice, filter, h1, h2) == raw
  {
    assert (history + raw)[N..N + |raw|] == raw;
  }

  /** Two sequences that agree before and after `k` are equal. */
  lemma SplitAt(a: seq<int>, b: seq<int>, k: nat)
    requires k <= |a| && |a| == |b| && a[..k] == b[..k] && a[k..] == b[k..]
    ensures a == b
  {
    assert a == a[..k] + a[k..];
    assert b == b[..k] + b[k..];
  }

  /** With a filter that returns its buffer unchanged, the whole second pass
      reproduces the input. */
  lemma PassIdentity(xs: seq<int>, bursts: seq<Burst>, th: Thresholds,
                     filter: (seq<int>, seq<real>) -> seq<int>, h1: seq<real>, h2: seq<real>)
    requires |bursts| > 0 && Spans(bursts) && LengthPreserving(filter)
    requires forall x, h :: filter(x, h) == x
    ensures Pass(xs, bursts, th, filter, h1, h2).samples == xs
  {
    var w := Pass(xs, bursts, th, filter, h1, h2);
    ReassembleIdentity(xs, Plan(bursts, 0, 0, th), 0, Zeros(N), w, filter, h1, h2);
  }

  /** A segment holding a position outside every burst span is an unfiltered gap. */
  lemma GapAt(bursts: seq<Burst>, th: Thresholds, segs: seq<Segment>, i: nat, j: int)
    requires Aligned(bursts, 0, segs) && i < |segs| && segs[i].from <= j < segs[i].from + segs[i].len
    requires forall i' :: 0 <= i' < |segs| ==> SegmentOk(bursts, 0, th, segs, i')
    requires forall m :: 0 <= m < |bursts| ==>
               !(ReadFrom(bursts[m]) <= j < ReadFrom(bursts[m]) + bursts[m].end - bursts[m].start)
    ensures segs[i].choice == NoAtten
  {
    assert SegmentOk(bursts, 0, th, segs, i);
    match segs[i].burst
    case None =>
    case Some(m) =>
      assert false;
  }
}
