/** The last step of `impulse_response`: the first half of the taps, up to the
    centre tap `alpha`, has been computed, and the loop mirrors it onto the
    second half so that the FIR filter is linear-phase. The cosine sums that
    produce the first half are floating point and are not modelled: the taps
    are left abstract. */
module ImpulseResponse {
  import Pcm

  /** Linear-phase symmetry: `h[n] == h[len - 1 - n]` for every tap. */
  ghost predicate Symmetric<T>(h: seq<T>) {
    forall n :: 0 <= n < |h| ==> h[n] == h[|h| - 1 - n]
  }

  /** The intended result, stated independently of the loop: the first half as
      given, and each later tap equal to its mirror image in the first half. */
  function MirrorOf<T>(h: seq<T>): seq<T>
    requires |h| % 2 == 1
  {
    seq(|h|, n requires 0 <= n < |h| => if n <= Pcm.Alpha(|h|) then h[n] else h[|h| - 1 - n])
  }

  /** The mirror loop as written, in place: for `n` from `alpha` up to the
      last tap, `h[n] := h[N - n - 1]`. Every tap it reads lies in the first
      half, which it never overwrites except at `alpha`, with itself. */
  method Mirror<T>(h: seq<T>) returns (r: seq<T>)
    requires |h| % 2 == 1
    ensures |r| == |h|
    ensures Symmetric(r)
    ensures forall n :: 0 <= n <= Pcm.Alpha(|h|) ==> r[n] == h[n]
    ensures r == MirrorOf(h)
  {
    var alpha := Pcm.Alpha(|h|);
    r := h;
    var n := alpha;
    while n < |h|
      invariant alpha <= n <= |h| && |r| == |h|
      invariant forall i :: 0 <= i <= alpha ==> r[i] == h[i]
      invariant forall i :: alpha < i < n ==> r[i] == h[|h| - 1 - i]
      invariant forall i :: n <= i < |h| ==> r[i] == h[i]
    {
      r := r[n := r[|h| - n - 1]];
      n := n + 1;
    }
    forall i | 0 <= i < |h|
      ensures r[i] == r[|h| - 1 - i]
    {
    }
  }

  /** Mirroring changes nothing exactly when the taps are already symmetric. */
  lemma MirrorFixed<T>(h: seq<T>)
    requires |h| % 2 == 1
    ensures MirrorOf(h) == h <==> Symmetric(h)
  {
    var m := MirrorOf(h);
    if Symmetric(h) {
      forall n | 0 <= n < |h|
        ensures m[n] == h[n]
      {
        if n > Pcm.Alpha(|h|) {
          assert h[n] == h[|h| - 1 - n];
        }
      }
    }
    if m == h {
      forall n | 0 <= n < |h|
        ensures h[n] == h[|h| - 1 - n]
      {
        var k := |h| - 1 - n;
        if n <= Pcm.Alpha(|h|) {
          assert m[k] == h[k];
        } else {
          assert m[n] == h[n];
        }
      }
    }
  }

  /** A symmetric tap sequence is determined by its first half: any symmetric
      `r` that agrees with `h` up to the centre tap is the mirror of `h`. */
  lemma MirrorUnique<T>(h: seq<T>, r: seq<T>)
    requires |h| % 2 == 1 && |r| == |h| && Symmetric(r)
    requires forall n :: 0 <= n <= Pcm.Alpha(|h|) ==> r[n] == h[n]
    ensures r == MirrorOf(h)
  {
    var m := MirrorOf(h);
    forall n | 0 <= n < |h|
      ensures r[n] == m[n]
    {
      if n > Pcm.Alpha(|h|) {
        assert r[n] == r[|h| - 1 - n];
      }
    }
  }

  /** The two impulse responses of the program have `N` taps: taps 0 to 40
      are kept and taps 41 to 80 copy taps 39 down to 0. */
  method MirrorTaps<T>(h: seq<T>) returns (r: seq<T>)
    requires |h| == Pcm.N
    ensures |r| == Pcm.N && Symmetric(r)
    ensures forall n :: 0 <= n <= Pcm.Alpha(Pcm.N) ==> r[n] == h[n]
    ensures forall n :: Pcm.Alpha(Pcm.N) < n < Pcm.N ==> r[n] == h[Pcm.N - 1 - n]
  {
    r := Mirror(h);
  }
}
