/** Finite sums of reals over integer ranges. */
module Sums {

  /** f(lo) + ... + f(hi - 1) */
  ghost function Sum(f: int -> real, lo: int, hi: int): real
    decreases hi - lo
  {
    if hi <= lo then 0.0 else Sum(f, lo, hi - 1) + f(hi - 1)
  }

  lemma SumStep(f: int -> real, lo: int, hi: int)
    requires lo < hi
    ensures Sum(f, lo, hi) == Sum(f, lo, hi - 1) + f(hi - 1)
  {}

  lemma {:induction false} SumSplit(f: int -> real, lo: int, mid: int, hi: int)
    requires lo <= mid <= hi
    ensures Sum(f, lo, hi) == Sum(f, lo, mid) + Sum(f, mid, hi)
    decreases hi - mid
  {
    if mid < hi { SumSplit(f, lo, mid, hi - 1); }
  }

  lemma {:induction false} SumEqual(f: int -> real, g: int -> real, lo: int, hi: int)
    requires forall k :: lo <= k < hi ==> f(k) == g(k)
    ensures Sum(f, lo, hi) == Sum(g, lo, hi)
    decreases hi - lo
  {
    if lo < hi { SumEqual(f, g, lo, hi - 1); }
  }

  lemma {:induction false} SumZero(f: int -> real, lo: int, hi: int)
    requires forall k :: lo <= k < hi ==> f(k) == 0.0
    ensures Sum(f, lo, hi) == 0.0
    decreases hi - lo
  {
    if lo < hi { SumZero(f, lo, hi - 1); }
  }

  lemma {:induction false} SumScale(f: int -> real, c: real, lo: int, hi: int)
    ensures Sum(k => f(k) * c, lo, hi) == Sum(f, lo, hi) * c
    decreases hi - lo
  {
    if lo < hi { SumScale(f, c, lo, hi - 1); }
  }

  /** Terms that vanish outside a subrange do not count. */
  lemma SumSupport(f: int -> real, lo: int, hi: int, a: int, b: int)
    requires lo <= a <= b <= hi
    requires forall k :: lo <= k < hi && !(a <= k < b) ==> f(k) == 0.0
    ensures Sum(f, lo, hi) == Sum(f, a, b)
  {
    SumSplit(f, lo, a, hi);
    SumSplit(f, a, b, hi);
    SumZero(f, lo, a);
    SumZero(f, b, hi);
  }
}
