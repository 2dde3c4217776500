/** The largest secure width: exponential search from below, then binary search. */
module WidthSearch {

  // Security only falls as the width grows.
  ghost predicate Antitone(secure: int -> bool, cap: int) {
    forall i, j :: 1 <= i <= j <= cap && secure(j) ==> secure(i)
  }

  // w is the largest secure width in [1, cap], or zero when there is none.
  ghost predicate LargestSecure(secure: int -> bool, cap: int, w: int) {
    && 0 <= w <= cap
    && (forall i :: 1 <= i <= w ==> secure(i))
    && (forall i :: w < i <= cap ==> !secure(i))
  }

  method MaxWidth(secure: int -> bool, cap: int) returns (width: int)
    requires cap >= 1 && Antitone(secure, cap)
    ensures LargestSecure(secure, cap, width)
  {
    if !secure(1) {
      return 0;
    }
    if secure(cap) {
      return cap;
    }
    var hi := 1;
    while true
      invariant 1 <= hi < cap && secure(hi)
      decreases cap - hi
    {
      var next := if hi * 2 < cap then hi * 2 else cap;
      if secure(next) {
        hi := next;
        continue;
      }
      var lo, high := hi, next;
      while lo < high - 1
        invariant 1 <= lo < high <= cap && secure(lo) && !secure(high)
      {
        var mid := (lo + high) / 2;
        if secure(mid) {
          lo := mid;
        } else {
          high := mid;
        }
      }
      return lo;
    }
  }
}
