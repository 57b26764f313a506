/** Python's slice expression `s[lo:hi]` on sequences and strings.

    Both bounds are normalised the way Python does it: a negative bound counts
    from the end, and every bound is then clamped into [0, |s|]. A slice whose
    normalised upper bound does not exceed its lower bound is empty. */
module Slices {

  function Min(a: int, b: int): int {
    if a <= b then a else b
  }

  /** Python's normalisation of one slice bound against a length `n`. */
  function Bound(k: int, n: nat): (b: nat)
    ensures b <= n
    ensures 0 <= k ==> b == Min(k, n)
    ensures k < 0 && 0 <= k + n ==> b == k + n
    ensures k + n < 0 ==> b == 0
  {
    if k < 0 then (if k + n < 0 then 0 else (k + n) as nat)
    else if k > n then n
    else k as nat
  }

  /** `s[lo:hi]` as Python evaluates it. */
  function Slice<T>(s: seq<T>, lo: int, hi: int): (r: seq<T>)
    ensures |r| <= |s|
    ensures 0 <= lo <= hi ==> r == s[Min(lo, |s|)..Min(hi, |s|)]
    ensures 0 <= lo < |s| && lo < hi ==> |r| == Min(hi, |s|) - lo > 0
    ensures lo == 0 ==> r == s[..Bound(hi, |s|)]
  {
    var a, b := Bound(lo, |s|), Bound(hi, |s|);
    if a < b then s[a..b] else []
  }

  /** Slicing a suffix is slicing the whole sequence further along. */
  lemma SliceOfSuffix<T>(s: seq<T>, d: nat, lo: int, hi: int)
    requires d <= |s| && 0 <= lo <= hi
    ensures Slice(s[d..], lo, hi) == Slice(s, lo + d, hi + d)
  {
    var t := s[d..];
    assert t[Min(lo, |t|)..Min(hi, |t|)] == s[Min(lo + d, |s|)..Min(hi + d, |s|)];
  }
}
