/** `sqroot` of de-ess.c: the exact floor square root by binomial expansion,
    one result bit per round, most significant bit first. */
module IntSqrt {

  function Pow2(k: nat): (r: nat)
    ensures r >= 1
  {
    if k == 0 then 1 else 2 * Pow2(k - 1)
  }

  /** The count left in `l2` by `while( u >>= 2 ) l2++` when `u` starts at `num`. */
  function Log4(num: nat): nat {
    if num / 4 == 0 then 0 else 1 + Log4(num / 4)
  }

  lemma SquareOfSum(a: nat, b: nat)
    ensures (a + b) * (a + b) == a * a + (a + a + b) * b
  {
  }

  lemma SquareDoubles(p: nat)
    ensures (2 * p) * (2 * p) == 4 * (p * p)
  {
  }

  /** `1 << l2` is the highest power of two whose square does not exceed `num`. */
  lemma {:induction false} Log4Bounds(num: nat)
    requires num >= 1
    ensures Pow2(Log4(num)) * Pow2(Log4(num)) <= num
    ensures num < Pow2(Log4(num) + 1) * Pow2(Log4(num) + 1)
  {
    if num / 4 != 0 {
      var l := Log4(num / 4);
      Log4Bounds(num / 4);
      SquareDoubles(Pow2(l));
      SquareDoubles(Pow2(l + 1));
    }
  }

  /** The rounds of `while( l2-- )`: `v` is the bit tried next, `u` the root
      found so far and `u2 == u*u`; the candidate square `(u+v)^2` is formed as
      `((u+u+v) << l2) + u2` and accepted when it does not exceed `num`. */
  function Refine(num: nat, l2: nat, u: nat, v: nat, u2: nat): (r: nat)
    requires v == Pow2(l2)
    requires u2 == u * u <= num < (u + v) * (u + v)
    ensures r * r <= num < (r + 1) * (r + 1)
    decreases l2
  {
    if l2 == 0 then u
    else
      var l2' := l2 - 1;
      var v' := v / 2;
      var n := (u + u + v') * Pow2(l2') + u2;
      SquareOfSum(u, v');
      if n <= num then Refine(num, l2', u + v', v', n)
      else Refine(num, l2', u, v', u2)
  }

  /** `sqroot(num)`: the floor of the square root; 0 and 1 come back unchanged. */
  function Sqroot(num: nat): (r: nat)
    ensures r * r <= num < (r + 1) * (r + 1)
    ensures num < 2 ==> r == num
  {
    if 2 > num then num
    else
      var l2 := Log4(num);
      var u := Pow2(l2);
      Log4Bounds(num);
      Refine(num, l2, u, u, u * Pow2(l2))
  }

  lemma SquareMonotone(a: nat, b: nat)
    requires a < b
    ensures (a + 1) * (a + 1) <= b * b
  {
    assert a + 1 <= b;
    assert (a + 1) * (a + 1) <= (a + 1) * b <= b * b;
  }

  /** The bounds determine the root: any `r` with `r*r <= num < (r+1)*(r+1)`
      is what `sqroot` returns. */
  lemma SqrootUnique(num: nat, r: nat)
    requires r * r <= num < (r + 1) * (r + 1)
    ensures Sqroot(num) == r
  {
    var s := Sqroot(num);
    if s < r {
      SquareMonotone(s, r);
    } else if r < s {
      SquareMonotone(r, s);
    }
  }

  /** A larger argument never has a smaller root. */
  lemma SqrootMonotone(a: nat, b: nat)
    requires a <= b
    ensures Sqroot(a) <= Sqroot(b)
  {
    var x, y := Sqroot(a), Sqroot(b);
    if y < x {
      SquareMonotone(y, x);
    }
  }
}
