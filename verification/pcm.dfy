/** Constants, sample arithmetic and tunables shared by every stage of the
    de-esser (de-ess.h and the globals at the top of de-ess.c). */
module Pcm {

  /** Number of taps of both FIR filters; the program requires it to be odd. */
  const N: nat := 81

  /** Index of the centre tap of an odd-length filter, `(N-1)/2`. Only odd
      lengths are used, so the division truncates the same way in C and here. */
  function Alpha(len: nat): nat
    requires len % 2 == 1
  {
    (len - 1) / 2
  }

  /** A burst is confirmed after strictly more qualifying half-cycles than this. */
  const QualifyingHalfCyclesThreshold: nat := 100

  /** Capacity of the burst arrays kept by the detection pass. */
  const ArraySize: nat := 100000

  /** Width of an `unsigned int`. */
  const UInt32Modulus: nat := 0x1_0000_0000

  function Abs(x: int): nat {
    if x < 0 then -x else x
  }

  /** `sample & 0x8000` is non-zero exactly for negative 16-bit samples. */
  predicate SignBit(x: int) {
    x < 0
  }

  /** Sum of squares of a run of samples, accumulated in sample order. */
  function SumSq(xs: seq<int>): nat {
    if |xs| == 0 then 0 else SumSq(xs[..|xs| - 1]) + xs[|xs| - 1] * xs[|xs| - 1]
  }

  /** A 16-bit sample: what a `short` holds. */
  predicate IsShort(x: int) {
    -0x8000 <= x <= 0x7fff
  }

  predicate Samples(xs: seq<int>) {
    forall k :: 0 <= k < |xs| ==> IsShort(xs[k])
  }

  /** An `int` value converted to `short`: the value with the same low 16 bits. */
  function ToShort(v: int): (r: int)
    ensures IsShort(r) && (r - v) % 0x1_0000 == 0
    ensures IsShort(v) ==> r == v
  {
    (v + 0x8000) % 0x1_0000 - 0x8000
  }

  /** `abs(sample)` stored back into a `short`: the magnitude, except that the
      magnitude 32768 of -32768 does not fit and the slot keeps -32768. */
  function ShortAbs(x: int): (r: int)
    ensures IsShort(x) ==> IsShort(r) && (r - Abs(x)) % 0x1_0000 == 0
    ensures IsShort(x) ==> (r < 0 <==> x == -0x8000)
  {
    if x == -0x8000 then x else Abs(x)
  }

  /** Sum of the gate's magnitudes of a run of samples, in sample order. */
  function SumAbs(xs: seq<int>): int {
    if |xs| == 0 then 0 else SumAbs(xs[..|xs| - 1]) + ShortAbs(xs[|xs| - 1])
  }

  function Zeros(n: nat): (z: seq<int>)
    ensures |z| == n && forall k :: 0 <= k < n ==> z[k] == 0
  {
    seq(n, _ => 0)
  }

  /** The tunables that de-ess.c keeps in global variables: burst durations in
      milliseconds, the sampling rate read from the file header, the upper bound
      on voice fundamentals in Hz, and the noise floor as a sample magnitude. */
  datatype Config = Config(
    delta1: nat,
    delta2: nat,
    samplesPerSec: nat,
    fundamental: nat,
    noiseFloor: int)

  /** The values the globals are initialised with. */
  const Defaults: Config := Config(80, 200, 44100, 2000, 100)

  /** What the program's types admit: `unsigned int` tunables, a `short`
      noise floor, and a non-zero fundamental (it is a divisor). */
  predicate ValidConfig(c: Config) {
    && c.delta1 < UInt32Modulus
    && c.delta2 < UInt32Modulus
    && c.samplesPerSec < UInt32Modulus
    && 0 < c.fundamental < UInt32Modulus
    && -0x8000 <= c.noiseFloor <= 0x7fff
  }
}
