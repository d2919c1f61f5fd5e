/** Small shared vocabulary: bytes, an optional value, distinctness and a
    counting argument (a duplicate-free sequence drawn from a finite pool is
    no longer than the pool). */
module Util {

  /** An `unsigned char` of the C source. */
  newtype byte = x: int | 0 <= x < 256

  datatype Option<T> = None | Some(value: T)

  /** No value occurs twice. */
  predicate Distinct<T(==)>(s: seq<T>) {
    forall i, j | 0 <= i < j < |s| :: s[i] != s[j]
  }

  /** Pigeonhole: a duplicate-free sequence whose elements come from `pool`
      has at most `|pool|` elements. */
  lemma {:induction false} DistinctWithin<T>(s: seq<T>, pool: set<T>)
    requires Distinct(s)
    requires forall i | 0 <= i < |s| :: s[i] in pool
    ensures |s| <= |pool|
  {
    if |s| > 0 {
      forall i | 0 <= i < |s| - 1
        ensures s[1..][i] in pool - {s[0]}
      {
        assert s[1..][i] == s[i + 1] && s[0] != s[i + 1];
      }
      DistinctWithin(s[1..], pool - {s[0]});
    }
  }

  /** The integer range [lo, hi) as a set; it has hi - lo elements. */
  function Range(lo: int, hi: int): (r: set<int>)
    ensures forall x :: x in r <==> lo <= x < hi
    ensures lo <= hi ==> |r| == hi - lo
    decreases hi - lo
  {
    if lo >= hi then {} else Range(lo, hi - 1) + {hi - 1}
  }
}
