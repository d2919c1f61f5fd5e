/** keyfile_shuffle_string (src/modules/keyfile.c:126-147): an in-place
    "carry and displace" shuffle.  One index `sIndex` is reserved; its
    character is picked up and carried; each of `p` rounds draws an index
    other than `sIndex`, puts the carried character there and picks up the
    one it displaced; finally the last carried character goes to `sIndex`.

    The rand() results are a parameter: `rands[0]` chooses `sIndex`, the rest
    feed the retry loops in order. */
module KeyFile {
  import opened Util

  /** The indices the `count` rounds settle on, given the draws `rands`:
      each draw is reduced modulo the length `m`, and a draw that lands on
      the reserved index `s` is rejected and drawn again (keyfile.c:137-138).
      None when the draws run out first. */
  function Displacements(rands: seq<nat>, m: nat, s: nat, count: nat): (r: Option<seq<nat>>)
    requires m > 0
    ensures r.Some? ==> |r.value| == count
    ensures r.Some? ==> forall k | 0 <= k < |r.value| :: r.value[k] < m && r.value[k] != s
    decreases |rands|
  {
    if count == 0 then Some([])
    else if rands == [] then None
    else if rands[0] % m == s then Displacements(rands[1..], m, s, count)
    else
      match Displacements(rands[1..], m, s, count - 1)
      case None => None
      case Some(rest) => Some([rands[0] % m] + rest)
  }

  /** A one-character string admits no round at all: every draw lands on the
      reserved index, so the retry loop never ends. */
  lemma {:induction false} SingleCharNeverSettles(rands: seq<nat>, count: nat)
    requires count > 0
    ensures Displacements(rands, 1, 0, count) == None
    decreases |rands|
  {
    if rands != [] {
      SingleCharNeverSettles(rands[1..], count);
    }
  }

  /** The string and the carried character after the rounds at `idx`, in
      order: each round puts the carried character at its index and picks up
      the character that was there (keyfile.c:140-142). */
  function Carry(str: seq<char>, c1: char, idx: seq<nat>): (r: (seq<char>, char))
    requires forall k | 0 <= k < |idx| :: idx[k] < |str|
    ensures |r.0| == |str|
    decreases |idx|
  {
    if idx == [] then (str, c1)
    else
      var (t, c) := Carry(str, c1, idx[..|idx| - 1]);
      var rIndex := idx[|idx| - 1];
      (t[rIndex := c], t[rIndex])
  }

  /** A draw that misses the reserved index settles the next round. */
  lemma DisplacementsHit(rands: seq<nat>, m: nat, s: nat, count: nat, idx: seq<nat>)
    requires m > 0 && rands != [] && rands[0] % m != s && count > 0
    requires Displacements(rands, m, s, count) == Some(idx)
    ensures idx != [] && idx[0] == rands[0] % m
    ensures Displacements(rands[1..], m, s, count - 1) == Some(idx[1..])
  {
  }

  /** The carry after one more round. */
  lemma CarrySnoc(str: seq<char>, c1: char, idx: seq<nat>, i: int)
    requires forall k | 0 <= k < |idx| :: idx[k] < |str|
    requires 0 <= i < |idx|
    ensures var (t, c) := Carry(str, c1, idx[..i]);
      Carry(str, c1, idx[..i + 1]) == (t[idx[i] := c], t[idx[i]])
  {
    assert idx[..i + 1][..i] == idx[..i];
  }

  /** The whole shuffle: carry the character at the reserved index `s`
      through the rounds at `idx`, then store the last carried character at
      `s` (keyfile.c:130-144). */
  function Shuffled(str: seq<char>, s: nat, idx: seq<nat>): (r: seq<char>)
    requires s < |str|
    requires forall k | 0 <= k < |idx| :: idx[k] < |str|
    ensures |r| == |str|
  {
    var (t, c) := Carry(str, str[s], idx);
    t[s := c]
  }

  /** Carrying only moves characters: the string and the carried character
      together hold the same characters before and after. */
  lemma {:induction false} CarryConserves(str: seq<char>, c1: char, idx: seq<nat>)
    requires forall k | 0 <= k < |idx| :: idx[k] < |str|
    ensures multiset(Carry(str, c1, idx).0) + multiset{Carry(str, c1, idx).1} == multiset(str) + multiset{c1}
    decreases |idx|
  {
    if idx != [] {
      var (t, c) := Carry(str, c1, idx[..|idx| - 1]);
      CarryConserves(str, c1, idx[..|idx| - 1]);
      ReplaceOne(t, idx[|idx| - 1], c);
    }
  }

  /** An index no round chose keeps its character. */
  lemma {:induction false} CarryFrame(str: seq<char>, c1: char, idx: seq<nat>, k: int)
    requires forall j | 0 <= j < |idx| :: idx[j] < |str|
    requires 0 <= k < |str| && forall j | 0 <= j < |idx| :: idx[j] != k
    ensures Carry(str, c1, idx).0[k] == str[k]
    decreases |idx|
  {
    if idx != [] {
      CarryFrame(str, c1, idx[..|idx| - 1], k);
    }
  }

  /** Overwriting one character trades it for the new one. */
  lemma ReplaceOne(t: seq<char>, k: int, c: char)
    requires 0 <= k < |t|
    ensures multiset(t[k := c]) + multiset{t[k]} == multiset(t) + multiset{c}
  {
    assert multiset(t[k := c]) == multiset(t) - multiset{t[k]} + multiset{c};
  }

  lemma CancelOne(a: multiset<char>, b: multiset<char>, x: char)
    requires a + multiset{x} == b + multiset{x}
    ensures a == b
  {
    forall y
      ensures a[y] == b[y]
    {
      assert (a + multiset{x})[y] == (b + multiset{x})[y];
    }
  }

  /** The shuffle is a permutation of the string (keyfile.c:126-147). */
  lemma ShufflePermutes(str: seq<char>, s: nat, idx: seq<nat>)
    requires s < |str|
    requires forall k | 0 <= k < |idx| :: idx[k] < |str| && idx[k] != s
    ensures |Shuffled(str, s, idx)| == |str|
    ensures multiset(Shuffled(str, s, idx)) == multiset(str)
  {
    var (t, c) := Carry(str, str[s], idx);
    CarryConserves(str, str[s], idx);
    CarryFrame(str, str[s], idx, s);
    ReplaceOne(t, s, c);
    CancelOne(multiset(t[s := c]), multiset(str), str[s]);
  }

  /** An index that is neither reserved nor chosen by a round keeps its
      character (keyfile.c:140-142). */
  lemma ShuffleUntouched(str: seq<char>, s: nat, idx: seq<nat>, k: int)
    requires s < |str|
    requires forall j | 0 <= j < |idx| :: idx[j] < |str|
    requires 0 <= k < |str| && k != s && forall j | 0 <= j < |idx| :: idx[j] != k
    ensures Shuffled(str, s, idx)[k] == str[k]
  {
    CarryFrame(str, str[s], idx, k);
  }

  /** With no rounds the reserved index gets its own character back and the
      string is unchanged (keyfile.c:130-132, 144). */
  lemma ShuffleNoRounds(str: seq<char>, s: nat)
    requires s < |str|
    ensures Shuffled(str, s, []) == str
  {
  }

  /** When the rounds choose distinct indices, the shuffle rotates the
      characters along the cycle s -> idx[0] -> ... -> idx[last] -> s: each
      chosen index receives the character of the one before it, and the
      reserved index receives the last chosen index's character. */
  lemma {:induction false} CarryRotates(str: seq<char>, s: nat, idx: seq<nat>)
    requires s < |str|
    requires forall k | 0 <= k < |idx| :: idx[k] < |str| && idx[k] != s
    requires Distinct(idx)
    ensures var (t, c) := Carry(str, str[s], idx);
      c == (if idx == [] then str[s] else str[idx[|idx| - 1]]) &&
      forall j | 0 <= j < |idx| :: t[idx[j]] == if j == 0 then str[s] else str[idx[j - 1]]
    decreases |idx|
  {
    if idx != [] {
      var front := idx[..|idx| - 1];
      var rIndex := idx[|idx| - 1];
      assert Distinct(front) by {
        forall a, b | 0 <= a < b < |front|
          ensures front[a] != front[b]
        {
          assert front[a] == idx[a] && front[b] == idx[b];
        }
      }
      CarryRotates(str, s, front);
      CarryFrame(str, str[s], front, rIndex);
      var prev := Carry(str, str[s], front);
      var t, c := prev.0, prev.1;
      var r := Carry(str, str[s], idx);
      assert r == (t[rIndex := c], t[rIndex]);
      forall j | 0 <= j < |idx|
        ensures r.0[idx[j]] == if j == 0 then str[s] else str[idx[j - 1]]
      {
        if j < |idx| - 1 {
          assert idx[j] == front[j] && idx[j] != rIndex;
          assert t[front[j]] == (if j == 0 then str[s] else str[front[j - 1]]);
          if j > 0 {
            assert idx[j - 1] == front[j - 1];
          }
        } else {
          assert r.0[rIndex] == c;
          if j > 0 {
            assert front[|front| - 1] == idx[j - 1];
          }
        }
      }
    }
  }

  /** The shuffle as a rotation (distinct rounds). */
  lemma ShuffleRotates(str: seq<char>, s: nat, idx: seq<nat>)
    requires s < |str|
    requires forall k | 0 <= k < |idx| :: idx[k] < |str| && idx[k] != s
    requires Distinct(idx)
    ensures var r := Shuffled(str, s, idx);
      r[s] == (if idx == [] then str[s] else str[idx[|idx| - 1]]) &&
      forall j | 0 <= j < |idx| :: r[idx[j]] == if j == 0 then str[s] else str[idx[j - 1]]
  {
    CarryRotates(str, s, idx);
  }

  /** The retry loop of keyfile.c:137-138: draws from `rands[next..]` until
      one, reduced modulo `len`, misses the reserved index `sIndex`.  It
      settles on the first of the remaining rounds and leaves the draws for
      the rest. */
  method DrawIndex(rands: seq<nat>, next: nat, len: nat, sIndex: nat, count: nat, ghost rounds: seq<nat>)
    returns (rIndex: nat, next': nat)
    requires len > 0 && next <= |rands| && count > 0
    requires Displacements(rands[next..], len, sIndex, count) == Some(rounds)
    ensures next < next' <= |rands|
    ensures rounds != [] && rIndex == rounds[0] && rIndex != sIndex
    ensures Displacements(rands[next'..], len, sIndex, count - 1) == Some(rounds[1..])
  {
    rIndex := rands[next] % len;
    next' := next + 1;
    while rIndex == sIndex
      invariant next < next' <= |rands|
      invariant rIndex == rands[next' - 1] % len
      invariant Displacements(rands[next' - 1..], len, sIndex, count) == Some(rounds)
      decreases |rands| - next'
    {
      assert rands[next' - 1..][1..] == rands[next'..];
      rIndex := rands[next'] % len;
      next' := next' + 1;
    }
    assert rands[next' - 1..][1..] == rands[next'..];
    DisplacementsHit(rands[next' - 1..], len, sIndex, count, rounds);
  }

  /** keyfile_shuffle_string: shuffles `str` in place with `p` rounds and
      returns the same buffer.  The draws must be enough to finish every
      retry loop, as rand() always is when the string has at least two
      characters. */
  method ShuffleString(str: array<char>, p: nat, rands: seq<nat>) returns (res: array<char>)
    requires str.Length >= 1 && |rands| >= 1
    requires Displacements(rands[1..], str.Length, rands[0] % str.Length, p).Some?
    modifies str
    ensures res == str
    ensures str[..] == Shuffled(old(str[..]), rands[0] % str.Length,
                                Displacements(rands[1..], str.Length, rands[0] % str.Length, p).value)
  {
    var len := str.Length;
    var sIndex := rands[0] % len;
    var next := 1;
    var rIndex := sIndex;
    var c1 := str[rIndex];
    ghost var s0 := str[..];
    ghost var idx := Displacements(rands[1..], len, sIndex, p).value;
    var i := 0;
    while i < p
      invariant 0 <= i <= p && 1 <= next <= |rands|
      invariant Displacements(rands[next..], len, sIndex, p - i) == Some(idx[i..])
      invariant str[..] == Carry(s0, s0[sIndex], idx[..i]).0 && c1 == Carry(s0, s0[sIndex], idx[..i]).1
    {
      rIndex, next := DrawIndex(rands, next, len, sIndex, p - i, idx[i..]);
      assert idx[i..][1..] == idx[i + 1..];
      CarrySnoc(s0, s0[sIndex], idx, i);

      ghost var t := str[..];
      var c2 := str[rIndex];
      str[rIndex] := c1;
      assert str[..] == t[rIndex := c1];
      c1 := c2;
      i := i + 1;
    }
    assert idx[..p] == idx;
    str[sIndex] := c1;
    return str;
  }
}
