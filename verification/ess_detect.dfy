/** `ess_detect` of de-ess.c and the detection loop of `main` that calls it.
    The function's labels `clean_slate`, `new_half_cycle` and `voiced` become
    an explicit state record stepped one sample at a time: the three states
    are "reset" (no qualifying half-cycle since the last reset), "qualifying"
    (`detection` false, counters running) and "detected" (`detection` true). */
module EssDetect {
  import opened Wrappers
  import opened Pcm
  import opened SlidingWindow

  /** A fricative burst: `start` is `sample_no - qualifying_samples` at
      confirmation, `end` is `sample_no - samples_in_this_half_cycle` when the
      burst closes, `rms` is taken over every sample since the last reset. */
  datatype Burst = Burst(start: int, end: int, rms: nat)

  /** A TRUE return of `ess_detect`: the burst and `*sample_no` at return. */
  datatype Found = Found(burst: Burst, sampleNo: int)

  /** The locals of one `ess_detect` call plus the shared counter `sample_no`,
      the index of the last sample read (-1 before the first). `sample` is the
      last sample read in this call (0 at entry): it becomes `prev_sample`. */
  datatype Scan = Scan(
    sampleNo: int,
    window: Window,
    sample: int,
    qualifyingHalfCycles: nat,
    qualifyingSamples: nat,
    sumOfSquares: nat,
    n: nat,
    samplesInThisHalfCycle: nat,
    detection: bool,
    start: int)

  /** `(samples_per_sec / fundamental) / 2`: the longest half-cycle that can
      still belong to a fricative. */
  function SamplesPerFundamentalHalfCycle(c: Config): (r: nat)
    requires c.fundamental > 0
    ensures 2 * r <= c.samplesPerSec / c.fundamental < 2 * r + 2
  {
    (c.samplesPerSec / c.fundamental) / 2
  }

  /** The state on entry: empty gate, predecessor 0, counters cleared. */
  function Entry(sampleNo: int): Scan {
    Scan(sampleNo, Empty(), 0, 0, 0, 0, 0, 0, false, 0)
  }

  /** The body of the `do ... while` loop: advance `sample_no`, push the
      sample through the gate, and count it into the energy and the current
      half-cycle. */
  function Read(st: Scan, x: int): Scan
    requires Valid(st.window)
  {
    st.(sampleNo := st.sampleNo + 1,
        window := Push(st.window, x),
        sample := x,
        sumOfSquares := st.sumOfSquares + x * x,
        n := st.n + 1,
        samplesInThisHalfCycle := st.samplesInThisHalfCycle + 1)
  }

  /** The half-cycle just ended is short and above the noise floor. */
  predicate Qualifies(c: Config, st: Scan)
    requires c.fundamental > 0
  {
    !(Mean(st.window) < c.noiseFloor)
    && !(st.samplesInThisHalfCycle > SamplesPerFundamentalHalfCycle(c))
  }

  /** A qualifying half-cycle: count it, and confirm the burst once strictly
      more than the threshold have been seen, back-dating its start over all
      qualifying samples. Then `new_half_cycle`. */
  function Qualify(st: Scan): Scan {
    var qhc := st.qualifyingHalfCycles + 1;
    var qs := st.qualifyingSamples + st.samplesInThisHalfCycle;
    var confirm := !st.detection && qhc > QualifyingHalfCyclesThreshold;
    st.(qualifyingHalfCycles := qhc,
        qualifyingSamples := qs,
        samplesInThisHalfCycle := 0,
        detection := st.detection || confirm,
        start := if confirm then st.sampleNo - qs else st.start)
  }

  /** `clean_slate` followed by `new_half_cycle`. */
  function CleanSlate(st: Scan): Scan {
    st.(qualifyingHalfCycles := 0,
        qualifyingSamples := 0,
        sumOfSquares := 0,
        n := 0,
        samplesInThisHalfCycle := 0)
  }

  /** What holds of the state throughout a call that entered with
      `sample_no == e`. */
  ghost predicate Inv(xs: seq<int>, e: int, st: Scan) {
    GateInv(xs, e, st) && CountInv(xs, e, st)
  }

  /** The gate has seen exactly the samples read in this call. */
  ghost predicate GateInv(xs: seq<int>, e: int, st: Scan) {
    && -1 <= e <= st.sampleNo
    && st.sampleNo + 1 <= |xs|
    && Valid(st.window)
    && st.window == Feed(xs[e + 1..st.sampleNo + 1])
    && st.sample == (if st.sampleNo == e then 0 else xs[st.sampleNo])
  }

  /** The counters and the energy cover the samples since the last reset. */
  ghost predicate CountInv(xs: seq<int>, e: int, st: Scan) {
    && -1 <= e <= st.sampleNo
    && st.sampleNo + 1 <= |xs|
    && st.n == st.qualifyingSamples + st.samplesInThisHalfCycle
    && st.qualifyingHalfCycles <= st.qualifyingSamples
    && st.n <= st.sampleNo - e
    && st.sumOfSquares == SumSq(xs[st.sampleNo + 1 - st.n..st.sampleNo + 1])
    && (!st.detection ==> st.qualifyingHalfCycles <= QualifyingHalfCyclesThreshold)
    && (st.detection ==>
          && e <= st.start
          && st.start + st.n == st.sampleNo
          && st.qualifyingSamples > QualifyingHalfCyclesThreshold)
  }

  lemma SumSqSnoc(xs: seq<int>, a: int, b: int)
    requires 0 <= a <= b < |xs|
    ensures SumSq(xs[a..b + 1]) == SumSq(xs[a..b]) + xs[b] * xs[b]
  {
    assert xs[a..b + 1][..b - a] == xs[a..b];
  }

  lemma ReadInv(xs: seq<int>, e: int, st: Scan)
    requires Inv(xs, e, st) && st.sampleNo + 1 < |xs|
    ensures Inv(xs, e, Read(st, xs[st.sampleNo + 1]))
  {
    ReadGate(xs, e, st);
    ReadCount(xs, e, st);
  }

  lemma ReadGate(xs: seq<int>, e: int, st: Scan)
    requires GateInv(xs, e, st) && st.sampleNo + 1 < |xs|
    ensures GateInv(xs, e, Read(st, xs[st.sampleNo + 1]))
  {
    var k := st.sampleNo + 1;
    var r := Read(st, xs[k]);
    assert r.sampleNo == k && r.sample == xs[k] && r.window == Push(st.window, xs[k]);
    FeedSnoc(xs, e + 1, k);
  }

  lemma ReadCount(xs: seq<int>, e: int, st: Scan)
    requires Valid(st.window) && CountInv(xs, e, st) && st.sampleNo + 1 < |xs|
    ensures CountInv(xs, e, Read(st, xs[st.sampleNo + 1]))
  {
    var k := st.sampleNo + 1;
    SumSqSnoc(xs, k - st.n, k);
  }

  lemma FeedSnoc(xs: seq<int>, a: int, b: int)
    requires 0 <= a <= b < |xs|
    ensures Feed(xs[a..b + 1]) == Push(Feed(xs[a..b]), xs[b])
  {
    assert xs[a..b + 1][..b - a] == xs[a..b];
  }

  lemma QualifyInv(xs: seq<int>, e: int, t: Scan)
    requires Inv(xs, e, t) && t.samplesInThisHalfCycle >= 1
    ensures Inv(xs, e, Qualify(t))
  {
  }

  lemma CleanSlateInv(xs: seq<int>, e: int, t: Scan)
    requires Inv(xs, e, t) && !t.detection
    ensures Inv(xs, e, CleanSlate(t))
  {
  }

  /* ---- Half-cycles of the input, defined without the scan state ---- */

  /** The sample before position `p` as a call entered at `e` sees it:
      `prev_sample` is 0 for the first sample the call reads. */
  function Before(xs: seq<int>, e: int, p: int): int
    requires -1 <= e < p < |xs|
  {
    if p == e + 1 then 0 else xs[p - 1]
  }

  /** Sample `p` ends a half-cycle: its sign bit differs from its
      predecessor's. */
  predicate IsEnd(xs: seq<int>, e: int, p: int)
    requires -1 <= e < p < |xs|
  {
    SignBit(xs[p]) != SignBit(Before(xs, e, p))
  }

  /** The last half-cycle end at or before `p`, or `e` if there is none. */
  function LastEnd(xs: seq<int>, e: int, p: int): (q: int)
    requires -1 <= e <= p < |xs|
    ensures e <= q <= p
    decreases p - e
  {
    if p == e then e else if IsEnd(xs, e, p) then p else LastEnd(xs, e, p - 1)
  }

  /** The half-cycle that ends at `p` qualifies: the gate over everything the
      call has read is not below the noise floor, and the half-cycle, which
      began after the previous end, is no longer than the fundamental's. */
  predicate QualifiesAt(xs: seq<int>, c: Config, e: int, p: int)
    requires c.fundamental > 0 && -1 <= e < p < |xs|
  {
    && !(Mean(Feed(xs[e + 1..p + 1])) < c.noiseFloor)
    && !(p - LastEnd(xs, e, p - 1) > SamplesPerFundamentalHalfCycle(c))
  }

  /** A half-cycle end that does not qualify: it clears the counts, or it
      closes a confirmed burst. */
  predicate IsReset(xs: seq<int>, c: Config, e: int, p: int)
    requires c.fundamental > 0 && -1 <= e < p < |xs|
  {
    IsEnd(xs, e, p) && !QualifiesAt(xs, c, e, p)
  }

  /** The last non-qualifying end at or before `p`, or `e` if there is none. */
  function LastReset(xs: seq<int>, c: Config, e: int, p: int): (q: int)
    requires c.fundamental > 0 && -1 <= e <= p < |xs|
    ensures e <= q <= LastEnd(xs, e, p)
    decreases p - e
  {
    if p == e then e
    else if IsReset(xs, c, e, p) then p
    else LastReset(xs, c, e, p - 1)
  }

  /** The number of half-cycle ends in `(a, b]`. */
  function Ends(xs: seq<int>, e: int, a: int, b: int): nat
    requires -1 <= e <= a <= b < |xs|
    decreases b - a
  {
    if a == b then 0 else Ends(xs, e, a, b - 1) + (if IsEnd(xs, e, b) then 1 else 0)
  }

  /** A burst closes at `p`: `p` ends a non-qualifying half-cycle, and the
      half-cycles since the last reset, all of which qualified, number more
      than the threshold. */
  predicate Closes(xs: seq<int>, c: Config, e: int, p: int)
    requires c.fundamental > 0 && -1 <= e < p < |xs|
  {
    && IsReset(xs, c, e, p)
    && Ends(xs, e, LastReset(xs, c, e, p - 1), LastEnd(xs, e, p - 1)) > QualifyingHalfCyclesThreshold
  }

  /** No burst closes strictly between `a` and `b`. */
  ghost predicate NoClose(xs: seq<int>, c: Config, e: int, a: int, b: int)
    requires c.fundamental > 0 && -1 <= e <= a && b <= |xs|
  {
    forall p :: a < p < b ==> !Closes(xs, c, e, p)
  }

  /** A burst from `start` to `end` reported at `q`: its RMS is over every
      sample after `start` up to `q`. */
  function BurstFrom(xs: seq<int>, start: int, end: int, q: int): Burst
    requires -1 <= start < q < |xs|
  {
    var count: nat := q - start;
    Burst(start, end, RootMean(SumSq(xs[start + 1..q + 1]), count).value)
  }

  /** The burst that closes at `q`: it starts at the last reset before the
      closing half-cycle and ends where that half-cycle begins. */
  function BurstAt(xs: seq<int>, c: Config, e: int, q: int): Burst
    requires c.fundamental > 0 && -1 <= e < q < |xs|
  {
    BurstFrom(xs, LastReset(xs, c, e, q - 1), LastEnd(xs, e, q - 1), q)
  }

  /** The first position at or after `p` where a burst closes. */
  function NextClose(xs: seq<int>, c: Config, e: int, p: int): (q: Option<int>)
    requires c.fundamental > 0 && -1 <= e < p
    ensures q.Some? ==> p <= q.value < |xs| && Closes(xs, c, e, q.value)
    decreases |xs| - p
  {
    if p >= |xs| then None
    else if Closes(xs, c, e, p) then Some(p)
    else NextClose(xs, c, e, p + 1)
  }

  /** What one call entered at `e` reports, from the half-cycles alone. */
  function Reference(xs: seq<int>, c: Config, e: int): Option<Found>
    requires c.fundamental > 0 && -1 <= e
  {
    match NextClose(xs, c, e, e + 1)
    case None => None
    case Some(q) => Some(Found(BurstAt(xs, c, e, q), q))
  }

  /** Every burst the loop of `main` collects from `sample_no == e`, from the
      half-cycles alone: each call starts afresh where the previous returned. */
  function Bursts(xs: seq<int>, c: Config, e: int): seq<Burst>
    requires c.fundamental > 0 && -1 <= e
    decreases |xs| - e
  {
    match NextClose(xs, c, e, e + 1)
    case None => []
    case Some(q) => [BurstAt(xs, c, e, q)] + Bursts(xs, c, q)
  }

  /** `LastEnd` is the last end: none lies after it. */
  lemma {:induction false} NoEndAfterLastEnd(xs: seq<int>, e: int, q: int, p: int)
    requires -1 <= e <= q < |xs| && LastEnd(xs, e, q) < p <= q
    ensures !IsEnd(xs, e, p)
    decreases q - e
  {
    if q != e && !IsEnd(xs, e, q) && p < q {
      NoEndAfterLastEnd(xs, e, q - 1, p);
    }
  }

  /** `LastReset` is the last reset: every end after it qualifies. */
  lemma {:induction false} NoResetAfterLastReset(xs: seq<int>, c: Config, e: int, q: int, p: int)
    requires c.fundamental > 0 && -1 <= e <= q < |xs| && LastReset(xs, c, e, q) < p <= q
    ensures !IsReset(xs, c, e, p)
    decreases q - e
  {
    if q != e && !IsReset(xs, c, e, q) && p < q {
      NoResetAfterLastReset(xs, c, e, q - 1, p);
    }
  }

  /** Ends past the last end add nothing to the count. */
  lemma {:induction false} EndsUpToLastEnd(xs: seq<int>, e: int, a: int, q: int)
    requires -1 <= e <= q < |xs| && e <= a <= LastEnd(xs, e, q)
    ensures Ends(xs, e, a, q) == Ends(xs, e, a, LastEnd(xs, e, q))
    decreases q - e
  {
    if q != LastEnd(xs, e, q) {
      EndsUpToLastEnd(xs, e, a, q - 1);
    }
  }

  /** What a closing position means, spelled out: the closing half-cycle is
      one half-cycle (no end between the burst's end and the close) that does
      not qualify, every half-cycle inside the burst qualifies, and more than
      the threshold of them end inside it. */
  lemma ClosedRun(xs: seq<int>, c: Config, e: int, q: int)
    requires c.fundamental > 0 && -1 <= e < q < |xs| && Closes(xs, c, e, q)
    ensures var b := BurstAt(xs, c, e, q);
      && e <= b.start <= b.end < q
      && IsEnd(xs, e, q) && !QualifiesAt(xs, c, e, q)
      && (forall p :: b.end < p < q ==> !IsEnd(xs, e, p))
      && (forall p :: b.start < p <= b.end && IsEnd(xs, e, p) ==> QualifiesAt(xs, c, e, p))
      && Ends(xs, e, b.start, b.end) > QualifyingHalfCyclesThreshold
  {
    var b := BurstAt(xs, c, e, q);
    forall p | b.end < p < q
      ensures !IsEnd(xs, e, p)
    {
      NoEndAfterLastEnd(xs, e, q - 1, p);
    }
    forall p | b.start < p <= b.end && IsEnd(xs, e, p)
      ensures QualifiesAt(xs, c, e, p)
    {
      NoResetAfterLastReset(xs, c, e, q - 1, p);
    }
  }

  /** The first close at or after `p` is `q` when `q` closes and nothing in
      between does. */
  lemma {:induction false} NextCloseIs(xs: seq<int>, c: Config, e: int, p: int, q: int)
    requires c.fundamental > 0 && -1 <= e < p <= q < |xs| && Closes(xs, c, e, q)
    requires NoClose(xs, c, e, p - 1, q)
    ensures NextClose(xs, c, e, p) == Some(q)
    decreases q - p
  {
    if p < q {
      NextCloseIs(xs, c, e, p + 1, q);
    }
  }

  /** There is no close at or after `p` when nothing from `p` on closes. */
  lemma {:induction false} NextCloseNone(xs: seq<int>, c: Config, e: int, p: int)
    requires c.fundamental > 0 && -1 <= e < p <= |xs|
    requires NoClose(xs, c, e, p - 1, |xs|)
    ensures NextClose(xs, c, e, p) == None
    decreases |xs| - p
  {
    if p < |xs| {
      NextCloseNone(xs, c, e, p + 1);
    }
  }

  /** The counters of a scan at position `s` in terms of the half-cycles
      alone: the current half-cycle began after the last end, the energy and
      `n` run from the last reset, `qualifying_half_cycles` counts the ends
      between the two, `detection` is set exactly when that count passed the
      threshold, and no burst has closed yet. */
  ghost predicate TracksAt(xs: seq<int>, c: Config, e: int, s: int, h: nat, n: nat, q: nat, d: bool)
    requires c.fundamental > 0 && -1 <= e <= s < |xs| && h <= n <= s - e
  {
    && LastEnd(xs, e, s) == s - h
    && LastReset(xs, c, e, s) == s - n
    && q == Ends(xs, e, s - n, s - h)
    && (d <==> q > QualifyingHalfCyclesThreshold)
    && NoClose(xs, c, e, e, s + 1)
  }

  /** The scan's counters agree with the half-cycles of the input. */
  ghost predicate Tracks(xs: seq<int>, c: Config, e: int, st: Scan)
    requires c.fundamental > 0 && -1 <= e <= st.sampleNo < |xs|
    requires st.samplesInThisHalfCycle <= st.n <= st.sampleNo - e
  {
    TracksAt(xs, c, e, st.sampleNo, st.samplesInThisHalfCycle, st.n,
             st.qualifyingHalfCycles, st.detection)
  }

  /** Both invariants of the scan. */
  ghost predicate Full(xs: seq<int>, c: Config, e: int, st: Scan) {
    && c.fundamental > 0
    && Inv(xs, e, st)
    && Tracks(xs, c, e, st)
  }

  lemma EntryFull(xs: seq<int>, c: Config, e: int)
    requires c.fundamental > 0 && -1 <= e && e + 1 <= |xs|
    ensures Full(xs, c, e, Entry(e))
  {
    assert xs[e + 1..e + 1] == [];
  }

  lemma NoCloseSnoc(xs: seq<int>, c: Config, e: int, a: int, b: int)
    requires c.fundamental > 0 && -1 <= e <= a < b < |xs|
    requires NoClose(xs, c, e, a, b) && !Closes(xs, c, e, b)
    ensures NoClose(xs, c, e, a, b + 1)
  {
  }

  /** A sample with its predecessor's sign continues the half-cycle. */
  lemma TracksSameSign(xs: seq<int>, c: Config, e: int, s: int, h: nat, n: nat, q: nat, d: bool)
    requires c.fundamental > 0 && -1 <= e <= s && s + 1 < |xs| && h <= n <= s - e
    requires TracksAt(xs, c, e, s, h, n, q, d) && !IsEnd(xs, e, s + 1)
    ensures TracksAt(xs, c, e, s + 1, h + 1, n + 1, q, d)
  {
    NoCloseSnoc(xs, c, e, e, s + 1);
  }

  /** A qualifying end is counted. */
  lemma TracksQualify(xs: seq<int>, c: Config, e: int, s: int, h: nat, n: nat, q: nat, d: bool, d': bool)
    requires c.fundamental > 0 && -1 <= e <= s && s + 1 < |xs| && h <= n <= s - e
    requires TracksAt(xs, c, e, s, h, n, q, d)
    requires IsEnd(xs, e, s + 1) && QualifiesAt(xs, c, e, s + 1)
    requires d' == (d || q + 1 > QualifyingHalfCyclesThreshold)
    ensures TracksAt(xs, c, e, s + 1, 0, n + 1, q + 1, d')
  {
    EndsUpToLastEnd(xs, e, s - n, s);
    NoCloseSnoc(xs, c, e, e, s + 1);
  }

  /** A non-qualifying end before confirmation closes nothing and resets. */
  lemma TracksReset(xs: seq<int>, c: Config, e: int, s: int, h: nat, n: nat, q: nat)
    requires c.fundamental > 0 && -1 <= e <= s && s + 1 < |xs| && h <= n <= s - e
    requires TracksAt(xs, c, e, s, h, n, q, false)
    requires IsEnd(xs, e, s + 1) && !QualifiesAt(xs, c, e, s + 1)
    ensures TracksAt(xs, c, e, s + 1, 0, 0, 0, false)
  {
    NoCloseSnoc(xs, c, e, e, s + 1);
  }

  /** A non-qualifying end after more than the threshold of qualifying
      half-cycles closes the burst. */
  lemma TracksClose(xs: seq<int>, c: Config, e: int, s: int)
    requires c.fundamental > 0 && -1 <= e <= s && s + 1 < |xs|
    requires IsEnd(xs, e, s + 1) && !QualifiesAt(xs, c, e, s + 1)
    requires Ends(xs, e, LastReset(xs, c, e, s), LastEnd(xs, e, s)) > QualifyingHalfCyclesThreshold
    ensures Closes(xs, c, e, s + 1)
  {
  }

  /** The sign comparison with `prev_sample` finds exactly the half-cycle
      ends. */
  lemma EndMatches(xs: seq<int>, e: int, st: Scan)
    requires GateInv(xs, e, st) && st.sampleNo + 1 < |xs|
    ensures var p := st.sampleNo + 1;
      IsEnd(xs, e, p) <==> SignBit(xs[p]) != SignBit(st.sample)
  {
  }

  /** After sample `sampleNo + 1` is read, the scan's test of the half-cycle
      it ends, mean not below the floor and length at most
      `samples_per_fundamental_half_cycle`, is exactly `QualifiesAt`. */
  lemma QualifiesMatches(xs: seq<int>, c: Config, e: int, st: Scan)
    requires Full(xs, c, e, st) && st.sampleNo + 1 < |xs|
    ensures var p := st.sampleNo + 1;
      QualifiesAt(xs, c, e, p) <==> Qualifies(c, Read(st, xs[p]))
  {
    ReadGate(xs, e, st);
  }

  lemma SameSignStep(xs: seq<int>, c: Config, e: int, st: Scan)
    requires Full(xs, c, e, st) && st.sampleNo + 1 < |xs|
    requires SignBit(xs[st.sampleNo + 1]) == SignBit(st.sample)
    ensures Full(xs, c, e, Read(st, xs[st.sampleNo + 1]))
  {
    var t := Read(st, xs[st.sampleNo + 1]);
    ReadInv(xs, e, st);
    EndMatches(xs, e, st);
    SameSignTracks(xs, c, e, st, t);
  }

  lemma SameSignTracks(xs: seq<int>, c: Config, e: int, st: Scan, t: Scan)
    requires c.fundamental > 0 && -1 <= e <= st.sampleNo && st.sampleNo + 1 < |xs|
    requires st.samplesInThisHalfCycle <= st.n <= st.sampleNo - e
    requires Tracks(xs, c, e, st) && !IsEnd(xs, e, st.sampleNo + 1)
    requires t.sampleNo == st.sampleNo + 1 && t.n == st.n + 1
    requires t.samplesInThisHalfCycle == st.samplesInThisHalfCycle + 1
    requires t.qualifyingHalfCycles == st.qualifyingHalfCycles && t.detection == st.detection
    ensures t.samplesInThisHalfCycle <= t.n <= t.sampleNo - e && Tracks(xs, c, e, t)
  {
    TracksSameSign(xs, c, e, st.sampleNo, st.samplesInThisHalfCycle, st.n,
                   st.qualifyingHalfCycles, st.detection);
  }

  lemma QualifyStep(xs: seq<int>, c: Config, e: int, st: Scan)
    requires Full(xs, c, e, st) && st.sampleNo + 1 < |xs|
    requires SignBit(xs[st.sampleNo + 1]) != SignBit(st.sample)
    requires Qualifies(c, Read(st, xs[st.sampleNo + 1]))
    ensures Full(xs, c, e, Qualify(Read(st, xs[st.sampleNo + 1])))
  {
    var t := Read(st, xs[st.sampleNo + 1]);
    ReadInv(xs, e, st);
    QualifyInv(xs, e, t);
    EndMatches(xs, e, st);
    QualifiesMatches(xs, c, e, st);
    QualifyTracks(xs, c, e, st, t, Qualify(t));
  }

  lemma QualifyTracks(xs: seq<int>, c: Config, e: int, st: Scan, t: Scan, u: Scan)
    requires c.fundamental > 0 && -1 <= e <= st.sampleNo && st.sampleNo + 1 < |xs|
    requires st.samplesInThisHalfCycle <= st.n <= st.sampleNo - e
    requires Tracks(xs, c, e, st)
    requires IsEnd(xs, e, st.sampleNo + 1) && QualifiesAt(xs, c, e, st.sampleNo + 1)
    requires t.sampleNo == st.sampleNo + 1 && t.n == st.n + 1
    requires t.samplesInThisHalfCycle == st.samplesInThisHalfCycle + 1
    requires t.qualifyingHalfCycles == st.qualifyingHalfCycles && t.detection == st.detection
    requires u == Qualify(t)
    ensures u.samplesInThisHalfCycle <= u.n <= u.sampleNo - e && Tracks(xs, c, e, u)
  {
    TracksQualify(xs, c, e, st.sampleNo, st.samplesInThisHalfCycle, st.n,
                  st.qualifyingHalfCycles, st.detection, u.detection);
  }

  lemma CloseStep(xs: seq<int>, c: Config, e: int, st: Scan)
    requires Full(xs, c, e, st) && st.sampleNo + 1 < |xs|
    requires SignBit(xs[st.sampleNo + 1]) != SignBit(st.sample)
    requires !Qualifies(c, Read(st, xs[st.sampleNo + 1]))
    requires st.detection
    ensures var t := Read(st, xs[st.sampleNo + 1]);
      t.n > 0 && Finds(xs, c, e, st.sampleNo, Some(Close(t)))
  {
    var t := Read(st, xs[st.sampleNo + 1]);
    ReadInv(xs, e, st);
    EndMatches(xs, e, st);
    QualifiesMatches(xs, c, e, st);
    CloseFinds(xs, c, e, st, t);
  }

  lemma CloseFinds(xs: seq<int>, c: Config, e: int, st: Scan, t: Scan)
    requires c.fundamental > 0 && -1 <= e <= st.sampleNo && st.sampleNo + 1 < |xs|
    requires st.samplesInThisHalfCycle <= st.n <= st.sampleNo - e
    requires Tracks(xs, c, e, st) && st.detection
    requires IsEnd(xs, e, st.sampleNo + 1) && !QualifiesAt(xs, c, e, st.sampleNo + 1)
    requires CountInv(xs, e, t) && t.detection && t.sampleNo == st.sampleNo + 1
    requires t.n == st.n + 1 && t.samplesInThisHalfCycle == st.samplesInThisHalfCycle + 1
    ensures t.n > 0 && Finds(xs, c, e, st.sampleNo, Some(Close(t)))
  {
    var s := st.sampleNo;
    var start, end := s - st.n, s - st.samplesInThisHalfCycle;
    assert LastReset(xs, c, e, s) == start && LastEnd(xs, e, s) == end;
    assert Ends(xs, e, start, end) > QualifyingHalfCyclesThreshold;
    TracksClose(xs, c, e, s);
    CloseBurst(xs, e, t, start, end, s + 1);
  }

  /** The burst `voiced` reports runs from the back-dated start to where the
      closing half-cycle began. */
  lemma CloseBurst(xs: seq<int>, e: int, t: Scan, start: int, end: int, q: int)
    requires CountInv(xs, e, t) && t.detection && t.samplesInThisHalfCycle >= 1
    requires q == t.sampleNo && start == q - t.n && end == q - t.samplesInThisHalfCycle
    ensures t.n > 0 && -1 <= start < q < |xs|
    ensures Close(t) == Found(BurstFrom(xs, start, end, q), q)
  {
    assert t.sumOfSquares == SumSq(xs[t.sampleNo - t.n + 1..t.sampleNo + 1]);
  }

  lemma CleanSlateStep(xs: seq<int>, c: Config, e: int, st: Scan)
    requires Full(xs, c, e, st) && st.sampleNo + 1 < |xs|
    requires SignBit(xs[st.sampleNo + 1]) != SignBit(st.sample)
    requires !Qualifies(c, Read(st, xs[st.sampleNo + 1]))
    requires !st.detection
    ensures Full(xs, c, e, CleanSlate(Read(st, xs[st.sampleNo + 1])))
  {
    var t := Read(st, xs[st.sampleNo + 1]);
    ReadInv(xs, e, st);
    CleanSlateInv(xs, e, t);
    EndMatches(xs, e, st);
    QualifiesMatches(xs, c, e, st);
    ResetTracks(xs, c, e, st, t, CleanSlate(t));
  }

  lemma ResetTracks(xs: seq<int>, c: Config, e: int, st: Scan, t: Scan, u: Scan)
    requires c.fundamental > 0 && -1 <= e <= st.sampleNo && st.sampleNo + 1 < |xs|
    requires st.samplesInThisHalfCycle <= st.n <= st.sampleNo - e
    requires Tracks(xs, c, e, st) && !st.detection
    requires IsEnd(xs, e, st.sampleNo + 1) && !QualifiesAt(xs, c, e, st.sampleNo + 1)
    requires t.sampleNo == st.sampleNo + 1 && t.detection == st.detection
    requires u == CleanSlate(t)
    ensures u.samplesInThisHalfCycle <= u.n <= u.sampleNo - e && Tracks(xs, c, e, u)
  {
    TracksReset(xs, c, e, st.sampleNo, st.samplesInThisHalfCycle, st.n,
                st.qualifyingHalfCycles);
  }

  /** `r` is what a scan past position `s` reports: the first close after
      `s` with the burst it closes, or `None` when nothing after `s` closes. */
  ghost predicate Finds(xs: seq<int>, c: Config, e: int, s: int, r: Option<Found>)
    requires c.fundamental > 0 && -1 <= e <= s
  {
    match r
    case None => NoClose(xs, c, e, s, |xs|)
    case Some(f) =>
      && s < f.sampleNo < |xs|
      && Closes(xs, c, e, f.sampleNo)
      && f.burst == BurstAt(xs, c, e, f.sampleNo)
      && NoClose(xs, c, e, s, f.sampleNo)
  }

  lemma FindsAfter(xs: seq<int>, c: Config, e: int, s: int, r: Option<Found>)
    requires c.fundamental > 0 && -1 <= e <= s && s + 1 < |xs|
    requires Finds(xs, c, e, s + 1, r) && !Closes(xs, c, e, s + 1)
    ensures Finds(xs, c, e, s, r)
  {
  }

  /** A scan from the entry position finds exactly what `Reference` says. */
  lemma FindsReference(xs: seq<int>, c: Config, e: int, r: Option<Found>)
    requires c.fundamental > 0 && -1 <= e < |xs| && Finds(xs, c, e, e, r)
    ensures r == Reference(xs, c, e)
    ensures r.None? <==> NoClose(xs, c, e, e, |xs|)
  {
    match r
    case None =>
      NextCloseNone(xs, c, e, e + 1);
    case Some(f) =>
      NextCloseIs(xs, c, e, e + 1, f.sampleNo);
  }

  /** What a TRUE return promises: the burst starts no earlier than the
      `sample_no` the call was entered with, is longer than the qualifying
      threshold, ends before the last sample read, and its RMS covers every
      sample from just after `start` through the closing half-cycle. */
  ghost predicate Reported(xs: seq<int>, e: int, f: Found) {
    && -1 <= e < f.sampleNo < |xs|
    && e <= f.burst.start
    && f.burst.end - f.burst.start > QualifyingHalfCyclesThreshold
    && f.burst.end < f.sampleNo
    && Some(f.burst.rms)
       == RootMean(SumSq(xs[f.burst.start + 1..f.sampleNo + 1]), f.sampleNo - f.burst.start)
  }

  /** `voiced` with `detection == TRUE`: the burst ends where the closing
      half-cycle began. */
  function Close(t: Scan): Found
    requires t.n > 0
  {
    var rms := RootMean(t.sumOfSquares, t.n);
    Found(Burst(t.start, t.sampleNo - t.samplesInThisHalfCycle, rms.value), t.sampleNo)
  }

  lemma CloseReported(xs: seq<int>, e: int, t: Scan)
    requires Inv(xs, e, t) && t.detection && t.samplesInThisHalfCycle >= 1
    ensures t.n > 0 && Reported(xs, e, Close(t))
  {
  }

  /** What reading one more sample does: scanning goes on from a new state,
      or `ess_detect` returns TRUE. */
  datatype Outcome = Continue(next: Scan) | Return(found: Found)

  /** One round of the `do ... while` loop and, when the sign changes, the
      half-cycle tests after it: same sign continues the half-cycle, a
      qualifying half-cycle is counted (`new_half_cycle`), a non-qualifying
      one closes a confirmed burst (`voiced`) or starts over (`clean_slate`). */
  function Advance(c: Config, st: Scan, x: int): Outcome
    requires c.fundamental > 0 && Valid(st.window)
  {
    var t := Read(st, x);
    if SignBit(x) == SignBit(st.sample) then Continue(t)
    else if Qualifies(c, t) then Continue(Qualify(t))
    else if t.detection then Return(Close(t))
    else Continue(CleanSlate(t))
  }

  /** The scanning loop of `ess_detect` from state `st`: `None` when the input
      runs out (a confirmed but unclosed burst is dropped), otherwise the burst
      closed by the first non-qualifying half-cycle after confirmation. */
  function Run(xs: seq<int>, c: Config, e: int, st: Scan): (r: Option<Found>)
    requires c.fundamental > 0
    requires Full(xs, c, e, st)
    ensures r.Some? ==> Reported(xs, e, r.value) && st.sampleNo < r.value.sampleNo
    ensures r.Some? && st.detection ==> r.value.burst.start == st.start
    ensures Finds(xs, c, e, st.sampleNo, r)
    decreases |xs| - st.sampleNo
  {
    if st.sampleNo + 1 >= |xs| then None
    else
      Step(xs, c, e, st);
      match Advance(c, st, xs[st.sampleNo + 1])
      case Return(f) => Some(f)
      case Continue(u) =>
        var r := Run(xs, c, e, u);
        FindsAfter(xs, c, e, st.sampleNo, r);
        r
  }

  /** One sample of the scan: the next state keeps both invariants, keeps a
      confirmed start and closes nothing, or the burst closes here and is the
      reference burst. */
  lemma Step(xs: seq<int>, c: Config, e: int, st: Scan)
    requires Full(xs, c, e, st) && st.sampleNo + 1 < |xs|
    ensures match Advance(c, st, xs[st.sampleNo + 1])
      case Continue(u) =>
        && u.sampleNo == st.sampleNo + 1
        && Full(xs, c, e, u)
        && !Closes(xs, c, e, st.sampleNo + 1)
        && (st.detection ==> u.detection && u.start == st.start)
      case Return(f) =>
        && Reported(xs, e, f)
        && Finds(xs, c, e, st.sampleNo, Some(f))
        && (st.detection ==> f.burst.start == st.start)
  {
    var x := xs[st.sampleNo + 1];
    var t := Read(st, x);
    if SignBit(x) == SignBit(st.sample) {
      SameSignStep(xs, c, e, st);
    } else if Qualifies(c, t) {
      QualifyStep(xs, c, e, st);
    } else if t.detection {
      ReadInv(xs, e, st);
      CloseReported(xs, e, t);
      CloseStep(xs, c, e, st);
    } else {
      CleanSlateStep(xs, c, e, st);
    }
  }

  /** `ess_detect(pcm_file, &sample_no, ...)` with the file positioned just
      after sample `sampleNo`: TRUE with the first burst that closes after
      `sampleNo`, FALSE exactly when none does before the input runs out. */
  function EssDetect(xs: seq<int>, c: Config, sampleNo: int): (r: Option<Found>)
    requires c.fundamental > 0
    requires -1 <= sampleNo && sampleNo + 1 <= |xs|
    ensures r.Some? ==> Reported(xs, sampleNo, r.value)
    ensures r == Reference(xs, c, sampleNo)
    ensures r.None? <==> NoClose(xs, c, sampleNo, sampleNo, |xs|)
  {
    EntryFull(xs, c, sampleNo);
    var r := Run(xs, c, sampleNo, Entry(sampleNo));
    FindsReference(xs, c, sampleNo, r);
    r
  }

  /** Bursts in stream order with a gap of at least one sample between them. */
  predicate Ordered(bs: seq<Burst>) {
    forall i, j :: 0 <= i < j < |bs| ==> bs[i].end < bs[j].start
  }

  /** A list of bursts as the detection pass produces them on an input of
      `len` samples. */
  predicate Detected(bs: seq<Burst>, len: int) {
    && Ordered(bs)
    && forall i :: 0 <= i < |bs| ==>
         && -1 <= bs[i].start
         && bs[i].end - bs[i].start > QualifyingHalfCyclesThreshold
         && bs[i].end + 1 < len
  }

  /** The number of half-cycle ends in `(a, b]` is at most the number of
      samples there. */
  lemma {:induction false} EndsBound(xs: seq<int>, e: int, a: int, b: int)
    requires -1 <= e <= a <= b < |xs|
    ensures Ends(xs, e, a, b) <= b - a
    decreases b - a
  {
    if a < b {
      EndsBound(xs, e, a, b - 1);
    }
  }

  /** One step of the reference list: the first reported burst, then the
      bursts after the position it was reported at. */
  lemma BurstsStep(xs: seq<int>, c: Config, e: int)
    requires c.fundamental > 0 && -1 <= e
    ensures Reference(xs, c, e).None? ==> Bursts(xs, c, e) == []
    ensures Reference(xs, c, e).Some? ==>
      var f := Reference(xs, c, e).value;
      e < f.sampleNo < |xs| && Bursts(xs, c, e) == [f.burst] + Bursts(xs, c, f.sampleNo)
  {
  }

  /** A burst closed at `q` lies between `e` and `q` and is longer than the
      threshold. */
  lemma BurstAtBounds(xs: seq<int>, c: Config, e: int, q: int)
    requires c.fundamental > 0 && -1 <= e < q < |xs| && Closes(xs, c, e, q)
    ensures var b := BurstAt(xs, c, e, q);
      e <= b.start && b.end < q && b.end - b.start > QualifyingHalfCyclesThreshold
  {
    ClosedRun(xs, c, e, q);
    var b := BurstAt(xs, c, e, q);
    EndsBound(xs, e, b.start, b.end);
  }

  lemma ConsDetected(b: Burst, rest: seq<Burst>, e: int, q: int, len: int)
    requires Detected(rest, len) && forall i :: 0 <= i < |rest| ==> q <= rest[i].start
    requires -1 <= e <= b.start && b.end < q < len
    requires b.end - b.start > QualifyingHalfCyclesThreshold
    ensures Detected([b] + rest, len)
    ensures forall i :: 0 <= i < |[b] + rest| ==> e <= ([b] + rest)[i].start
  {
    var bs := [b] + rest;
    forall i, j | 0 <= i < j < |bs|
      ensures bs[i].end < bs[j].start
    {
      if i == 0 {
        assert bs[j] == rest[j - 1];
      } else {
        assert bs[i] == rest[i - 1] && bs[j] == rest[j - 1];
      }
    }
    forall i | 0 <= i < |bs|
      ensures e <= bs[i].start && bs[i].end - bs[i].start > QualifyingHalfCyclesThreshold
      ensures -1 <= bs[i].start && bs[i].end + 1 < len
    {
      if i > 0 {
        assert bs[i] == rest[i - 1];
      }
    }
  }

  /** The reference bursts are what the detection pass promises: in order
      with gaps, starting at or after `e`, longer than the threshold, and
      ending before the last sample. */
  lemma {:induction false} BurstsDetected(xs: seq<int>, c: Config, e: int)
    requires c.fundamental > 0 && -1 <= e
    ensures Detected(Bursts(xs, c, e), |xs|)
    ensures forall i :: 0 <= i < |Bursts(xs, c, e)| ==> e <= Bursts(xs, c, e)[i].start
    decreases |xs| - e
  {
    match NextClose(xs, c, e, e + 1)
    case None =>
    case Some(q) =>
      BurstsDetected(xs, c, q);
      BurstAtBounds(xs, c, e, q);
      ConsDetected(BurstAt(xs, c, e, q), Bursts(xs, c, q), e, q, |xs|);
  }

  /** The loop of `main` from `sample_no == sampleNo` with `total` bursts
      already stored: call `ess_detect` until it returns FALSE; `None` when the
      burst arrays overflow. */
  function DetectFrom(xs: seq<int>, c: Config, sampleNo: int, total: nat): (r: Option<seq<Burst>>)
    requires c.fundamental > 0
    requires -1 <= sampleNo && sampleNo + 1 <= |xs|
    requires total < ArraySize
    ensures r.Some? ==> total + |r.value| < ArraySize
    ensures r.Some? ==> Detected(r.value, |xs|)
    ensures r.Some? ==> forall i :: 0 <= i < |r.value| ==> sampleNo <= r.value[i].start
    ensures r.Some? <==> total + |Bursts(xs, c, sampleNo)| < ArraySize
    ensures r.Some? ==> r.value == Bursts(xs, c, sampleNo)
    decreases |xs| - sampleNo
  {
    BurstsDetected(xs, c, sampleNo);
    BurstsStep(xs, c, sampleNo);
    match EssDetect(xs, c, sampleNo)
    case None => Some([])
    case Some(f) =>
      if total + 1 >= ArraySize then None
      else
        match DetectFrom(xs, c, f.sampleNo, total + 1)
        case None => None
        case Some(rest) => Some([f.burst] + rest)
  }

  /** The detection pass: `sample_no = -1`, then `DetectFrom`. */
  function Detect(xs: seq<int>, c: Config): (r: Option<seq<Burst>>)
    requires c.fundamental > 0
    ensures r.Some? ==> Detected(r.value, |xs|) && |r.value| < ArraySize
    ensures r.Some? <==> |Bursts(xs, c, -1)| < ArraySize
    ensures r.Some? ==> r.value == Bursts(xs, c, -1)
  {
    DetectFrom(xs, c, -1, 0)
  }
}
