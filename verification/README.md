# de-ess, modelled in Dafny

A model of the signal-processing core of `de-ess.c`. This C program finds
sibilant ("ess") bursts in a 16-bit mono PCM file and re-writes the file with
only those bursts passed through one of two FIR filters. The model covers
five pieces:

- `sqroot`, the exact integer floor square root (module `IntSqrt`).
- The sliding absolute-mean noise gate, and `file_rms` built on it (module
  `SlidingWindow`).
- The `ess_detect` state machine and the detection loop of `main` that
  collects its bursts (module `EssDetect`). The module also defines the
  half-cycles of the input, which of them qualify, and where a burst closes
  directly on the sample sequence (`IsEnd`, `QualifiesAt`, `Closes`,
  `BurstAt`, `Bursts`). It proves that the state machine returns exactly
  those bursts.
- The second pass of `ess_attenuate` (module `EssAttenuate`). It covers the
  segmentation into gaps and bursts, the choice of impulse response per
  burst, the `N`-sample filter history carried between segments, the short
  read that ends the pass early, and the trailing copy. The FIR `filter` is
  a parameter: any function of buffer and impulse response that keeps the
  buffer's length.
- The mirror loop that makes the impulse response symmetric (module
  `ImpulseResponse`).

Module `Pcm` holds the shared constants and tunables. Module `Wrappers` holds
`Option`.

Files and streams become sequences:

- The input is the sequence of samples after the 44-byte header.
- `sample_no` is an index into that sequence.
- End of file is the end of the sequence.
- The output is the sequence of samples written after the copied header,
  plus the function's TRUE/FALSE result.

Integer widths are modelled where they matter:

- `(samples_per_sec * delta) / 1000` wraps modulo 2^32 before the division.
- The 16-slot ring buffer of the gate is modelled slot by slot.
- Each slot is a `short`, so `abs(-32768)` stays -32768 there
  (`Pcm.ShortAbs`). A window holding it counts it as -32768 instead of
  +32768, which lowers the sum by 65536 and can make the sum and the mean
  negative: a lone -32768 gives -2048 (`SlidingWindow.MinSampleGate`).
  Beside two samples of 32767 the mean is still 2047
  (`SlidingWindow.MinSampleBeside`).
- `abs_sum` is an `unsigned int` and the mean a `short`. For 16-bit samples
  the wrap and the truncation cancel out, and the program's mean is the floor
  of the signed sum over 16 (`SlidingWindow.FeedMeanAsWritten`).

## Where the code differs from its comments and names

The model follows the code in each case.

- **The gate covers 15 samples, not 16.** The `abs_sample[16]` array and
  the shift by 4 suggest a 16-sample mean. But the slot subtracted
  (`j == i + 1`) is the next one to be overwritten. The running sum is
  therefore the sum of the newest **15** slot values, and the "mean"
  divides it by 16 (`SlidingWindow.FeedSum`).
- **`file_rms` gates with `>`, `ess_detect` with `>=`.** The two copies of
  the gate treat a mean equal to the noise floor differently. `file_rms`
  counts a sample when the mean is strictly **above** the floor
  (de-ess.c:179). `ess_detect` treats a half-cycle as above the floor unless
  the mean is strictly below it (de-ess.c:268).
- **`file_rms` reads the header too.** Its comment (de-ess.c:149) speaks of
  the RMS of the PCM file. It runs on the stream as opened, from byte 0, so
  the 22 header words go through the gate as samples
  (`EssAttenuate.EssAttenuate` passes `header + xs`). With no gated sample
  at all, its division by zero is modelled as `None`.
- **Burst coordinates are one sample early.** The comment before
  `ess_detect` (de-ess.c:189-199) calls them the start and end sample
  indices of the burst. A burst's `start` is
  `sample_no - qualifying_samples`. That is the index of the sample just
  *before* the first qualifying one, and it can be -1 on the first call.
  `end` is `sample_no - samples_in_this_half_cycle`, the last sample of the
  last qualifying half-cycle. The second pass reads the burst from
  `max(start, 0)` for `end - start` samples (`EssAttenuate.PassBurst`).
- **End of file in `ess_detect` drops a confirmed burst.** The same comment
  says FALSE means end of file before the start and end of the next burst.
  A burst that is confirmed but not yet closed at end of file is also
  dropped. `feof` is checked before `fread`, so a failed read replays the
  previous sample. That sample has the same sign as its predecessor, the
  half-cycle cannot close, and the next test returns FALSE. The model
  returns `None` once the input is exhausted.

## Model

| member | source | states |
|---|---|---|
| IntSqrt.Log4Bounds | de-ess.c:53-58 | `1 << l2` from the shift-by-two loop is the largest power of two whose square is at most `num` |
| IntSqrt.Refine | de-ess.c:59-67 | the bit-by-bit rounds keep `u*u <= num < (u+v)^2` and end with the floor square root |
| IntSqrt.Sqroot | de-ess.c:50-69 | `sqroot(num)` satisfies `r*r <= num < (r+1)*(r+1)`; 0 and 1 come back unchanged |
| IntSqrt.SqrootUnique | de-ess.c:50-69 | any `r` within those bounds is what `sqroot` returns, so the bounds define it |
| IntSqrt.SqrootMonotone | de-ess.c:50-69 | a larger argument never has a smaller root |
| SlidingWindow.PushHolds | de-ess.c:172-177 | one write at `i`, one eviction at `j` and the index advance keep every slot holding the `short` magnitude of the last sample written to that slot |
| SlidingWindow.FeedSlots | de-ess.c:158-177 | after any input, the ring holds the `short` magnitudes of the newest 16 samples (zeros before the start) and `i` is the count modulo 16 |
| SlidingWindow.FeedSum | de-ess.c:172-174 | `abs_sum` equals the sum of the `short` magnitudes of the newest 15 samples, not 16 |
| SlidingWindow.FeedMean | de-ess.c:174 | `sliding_abs_mean` is that 15-sample sum divided by 16 |
| SlidingWindow.ShiftedMeanExact | de-ess.c:173-174 | on every sum 15 `short` slots can hold, shifting the `unsigned int` sum by 4 and storing it in a `short` gives the floor of the signed sum over 16 |
| SlidingWindow.FeedMeanAsWritten | de-ess.c:172-174 | on 16-bit samples the modelled mean is the `sliding_abs_mean` the program computes |
| SlidingWindow.MinSampleGate | de-ess.c:172-174 | a lone -32768 keeps -32768 in its slot, so the mean is -2048, not 2048 |
| SlidingWindow.MinSampleBeside | de-ess.c:172-174 | -32768 counts as -32768, not +32768, but beside two samples of 32767 the mean stays positive (2047) |
| Pcm.ShortAbs | de-ess.c:172 | `abs(sample)` in a `short`: a 16-bit value with the same low 16 bits as the magnitude, negative exactly for -32768 |
| SlidingWindow.AccumulateGated | de-ess.c:170-183 | the loop's `sum_of_squares` and `n` equal the square sum and count of the gated samples, which are defined independently (mean strictly above the noise floor) |
| SlidingWindow.RootMean | de-ess.c:185 | `None` exactly when the count is zero; otherwise the floor square root of the integer mean square |
| SlidingWindow.FileRms | de-ess.c:150-186 | `file_rms` is the floor RMS over exactly the gated samples, and `None` when there are none |
| EssDetect.SamplesPerFundamentalHalfCycle | de-ess.c:210 | the longest qualifying half-cycle is half the samples in one period of `fundamental`, both divisions rounding down |
| EssDetect.ReadInv | de-ess.c:238-265 | reading one sample keeps the gate equal to the gate over all samples of this call, and the energy equal to the square sum since the last reset |
| EssDetect.QualifyInv | de-ess.c:282-298 | counting a qualifying half-cycle, and confirming the burst with its back-dated start, keeps the invariant |
| EssDetect.CleanSlateInv | de-ess.c:229-236 | the `clean_slate` reset keeps the invariant |
| EssDetect.EndMatches | de-ess.c:227-265 | the loop's sign-bit comparison with `prev_sample`, which is 0 for the first sample of a call, stops exactly at the half-cycle ends defined on the input |
| EssDetect.QualifiesMatches | de-ess.c:266-273 | after a half-cycle ends, the two tests accept it exactly when the gate over the call's samples is not below the noise floor (`>=`) and the half-cycle is at most `samples_per_fundamental_half_cycle` long, which is `QualifiesAt` on the input |
| EssDetect.Step | de-ess.c:238-298 | one sample of the scan keeps its counters equal to the ones defined on the half-cycles of the input; when it goes on, nothing closed at this sample and a confirmed start is kept; when it returns, a burst closes at this sample and the report is the burst defined there |
| EssDetect.ClosedRun | de-ess.c:266-298 | a close at `q` means: `q` ends a half-cycle that does not qualify, no end lies between the burst's end and `q`, every half-cycle ending inside the burst qualified, and more than 100 of them ended inside it |
| EssDetect.CloseReported | de-ess.c:274-278 | closing a confirmed burst gives a report that meets every promise of a TRUE return |
| EssDetect.Run | de-ess.c:229-300 | the scan returns the first close after its current position, with the burst defined there, and `None` exactly when no close follows before the input ends; a reported burst starts at or after the entry position, is longer than 100 samples, ends before the return position, and its RMS is over every sample from `start + 1` to the return position; a confirmed start is kept |
| EssDetect.FindsReference | de-ess.c:189-199 | a scan from the entry position finds exactly the first close after it, or none |
| EssDetect.EssDetect | de-ess.c:201-300 | TRUE with the first burst that closes after `sample_no`, equal to the one defined on the half-cycles, and FALSE exactly when no burst closes before the input runs out; a TRUE return also satisfies the promises listed for `Run` |
| EssDetect.BurstsDetected | de-ess.c:503-513 | the bursts that successive calls close, each call starting where the previous one returned, are ordered with gaps, start at or after the entry position, are longer than 100 samples and end inside the input |
| EssDetect.DetectFrom | de-ess.c:503-513 | the collected list is exactly the bursts that successive calls close; `None` (the `exit(11)`) exactly when the stored count reaches `ARRAY_SIZE`; the list is ordered with gaps, starts at or after the entry position and fits in the input |
| EssDetect.Detect | de-ess.c:503-513 | the detection pass from `sample_no = -1` yields exactly the bursts closed from the start of the input, or `None` when there are `ARRAY_SIZE` or more |
| EssAttenuate.ToSamples | de-ess.c:323-324 | the `unsigned int` result is below 2^32, and when the product does not wrap it is the floor of `samples_per_sec * ms / 1000` |
| EssAttenuate.MakeThresholds | de-ess.c:323-345 | both durations are converted to samples by `ToSamples`, and both RMS limits are equal and are the floor of one eighth of the file RMS |
| EssAttenuate.DefaultLimits | de-ess.c:13-16 | with the globals as initialised, the duration limits are 3528 and 8820 samples and a qualifying half-cycle has at most 11 samples |
| EssAttenuate.Classify | de-ess.c:374-394 | `h2` exactly for bursts longer than `delta2` and above `threshold2`, `h1` exactly for bursts longer than `delta1` (not `delta2`) and above `threshold1`, and no filter in every other case |
| EssAttenuate.PlanWellPlanned | de-ess.c:360-439 | the loop's segments tile the input from the start position, consume every remaining burst entry once and in order, give each burst segment its entry's length and classification, and end on the last entry; each gap is unfiltered and runs up to the next burst's start |
| EssAttenuate.PlanAligned | de-ess.c:360-372 | on an ordered list, each burst is read from `max(start, pos)` |
| EssAttenuate.Reassemble | de-ess.c:396-443 | the output has as many samples as the input; the pass returns TRUE exactly when every segment fits in the input |
| EssAttenuate.HistoryStep | de-ess.c:416-419 | the history carried forward is always the `N` input samples before the current position, with zeros before the file start |
| EssAttenuate.ReassembleSegment | de-ess.c:396-427 | every segment that fits is written where it was read: raw if unfiltered, otherwise the filter output over the `N` preceding input samples and the segment, with the history prefix dropped |
| EssAttenuate.ReassembleTail | de-ess.c:404-443 | from where the segments stop fitting, the output is the input copied: the trailing copy, or the samples a short read got |
| EssAttenuate.CoveredEnd | de-ess.c:404-414 | the segments are read to their end exactly when they end inside the input |
| EssAttenuate.Pass | de-ess.c:355-443 | the second pass from position 0 with a zeroed history writes one sample per input sample and completes exactly when the planned segments fit |
| EssAttenuate.EssAttenuate | de-ess.c:342-451 | `None` exactly when `file_rms` divides by zero; otherwise the output has the input's length, and the result is TRUE exactly when the segments planned under the `file_rms` limits end inside the input |
| EssAttenuate.EssAttenuateDetected | de-ess.c:342-451 | on the detection pass's own burst list the result is TRUE, and every burst is written as its classification under `filerms/8` and the duration limits says |
| EssAttenuate.PassComplete | de-ess.c:404-450 | on the detection pass's own burst list the second pass never hits a short read |
| EssAttenuate.PassBurst | de-ess.c:360-427 | on the detection pass's own list, burst `m` occupies `end - start` output samples from `max(start, 0)`, written as its classification says |
| EssAttenuate.PassBurstUnfiltered | de-ess.c:390-426 | a burst classified for no filter (too short, or not above its RMS limit) is output identical to the input |
| EssAttenuate.PassVerbatim | de-ess.c:365-443 | every sample outside all burst spans, in the gaps and in the tail, is copied unchanged |
| EssAttenuate.ReassembleIdentity | de-ess.c:396-443 | with a filter that returns its buffer unchanged, the reassembled output is the input, whatever the segments |
| EssAttenuate.PassIdentity | de-ess.c:396-443 | with a filter that returns its buffer unchanged, the whole second pass reproduces the input |
| ImpulseResponse.Mirror | de-ess.c:107-109 | the in-place loop leaves a symmetric response (`h[n] == h[N-1-n]`), keeps taps `0..alpha`, and equals the independently defined mirror of the first half |
| ImpulseResponse.MirrorFixed | de-ess.c:107-109 | mirroring changes nothing exactly when the taps are already symmetric |
| ImpulseResponse.MirrorUnique | de-ess.c:107-109 | a symmetric response is determined by its first `alpha + 1` taps |
| ImpulseResponse.MirrorTaps | de-ess.c:107-109 | for the program's 81 taps, taps 0 to 40 are kept and tap `n > 40` is tap `80 - n` |

## Left out

- File I/O is not modelled. This covers `fopen`, `fseek` to bytes 24 and 44,
  reading the sample rate, copying the header, `rewind`, the `-d` printing,
  `print_decimal`, `getopt` and the usage text. The model starts from the
  sample sequence and returns the written samples.
- Floating point is not modelled. This covers the cosine sums and the
  `atof` parsing of `impulse_response`, and the convolution in `filter`.
  The impulse responses are opaque `seq<real>` values. `filter` is a
  parameter whose only assumed property is that it keeps the buffer length.
- Writes are assumed to succeed. The "wrote only" diagnostic after a short
  `fwrite` (de-ess.c:429-432) changes no state, so it is left out.
- Samples are unbounded integers. The model agrees with the program on
  16-bit samples, which is all a `short` read from the file can hold; the
  lemmas that need the range require `Pcm.Samples`.
- `unsigned long long` overflow in `sqroot` and `sum_of_squares` is not
  modelled. It cannot happen for files of realistic length; `int_sqrt.dfy`
  works on unbounded naturals.
- `int` overflow of `sample_no` is not modelled. It would need inputs of
  2^31 samples or more.
- The globals `delta1` and `delta2` are overwritten in place by their
  sample counts, so a second call of `ess_attenuate` would convert them
  twice. The model converts once per call.
- The `verbose` flag, `attenuate_by`, `interim` and the fftw include are
  unused by the code paths above, so they are left out.
- `exit(11)` when the burst arrays fill up is modelled as the result `None`.
- The `H1`/`H2` arrays are declared with `(N-1)/2` entries, but the reading
  loop of `impulse_response` stores `alpha + 1 = (N+1)/2` of them, one past
  the end. This loop sits in the unmodelled floating-point and file part,
  so it is recorded here only.
- EssAttenuate.EssAttenuate requires at least one burst entry. With
  `total_ess_bursts == 0` the C loop still reads entry 0 of the burst arrays,
  which was never written.
