/** The rolling of perimeter bytes after each traversal
    (src/modules/mirrorfield.c:280-339), as pure functions over the table of
    4n perimeter bytes.  Each of the two slots used by the traversal swaps its
    byte with a roll target: the slot plus its byte plus its neighbour's byte,
    modulo 4n, moved on by n/2 while it hits a forbidden slot. */
module PerimeterRoll {
  import opened Util

  /** The table neighbour whose byte feeds a slot's roll target
      (mirrorfield.c:289-298). */
  function Neighbour(slot: int): int {
    if slot == 0 then slot + 1 else slot - 1
  }

  /** The first roll target of `slot`, before collision avoidance. */
  function RollBase(n: nat, table: seq<byte>, slot: int): (t: int)
    requires 1 <= n && |table| == 4 * n && 0 <= slot < 4 * n
    ensures 0 <= t < 4 * n
  {
    (slot + table[slot] as int + table[Neighbour(slot)] as int) % (4 * n)
  }

  /** One collision-avoidance move (mirrorfield.c:302, 305). */
  function Hop(n: nat, t: int): int
    requires 1 <= n
  {
    (t + n / 2) % (4 * n)
  }

  /** The collision-avoidance loop with at most `fuel` moves
      (mirrorfield.c:301-306); four are always enough (`EscapeAvoids`). */
  function Escape(n: nat, t: int, avoid: set<int>, fuel: nat): int
    requires 1 <= n
    decreases fuel
  {
    if fuel == 0 || t !in avoid then t else Escape(n, Hop(n, t), avoid, fuel - 1)
  }

  lemma ModOnce(v: int, m: int)
    requires 0 < m && 0 <= v < 2 * m
    ensures v % m == if v < m then v else v - m
  {
    if v >= m {
      assert v == 1 * m + (v - m);
    }
  }

  /** For a slot in range, a move adds n/2 and wraps round at most once. */
  lemma HopWraps(n: nat, t: int)
    requires 2 <= n && 0 <= t < 4 * n
    ensures Hop(n, t) == if t + n / 2 < 4 * n then t + n / 2 else t + n / 2 - 4 * n
  {
    ModOnce(t + n / 2, 4 * n);
  }

  /** Five slots, each n/2 on from the one before (wrapping round 4n), are
      distinct: the step is at least 1 and four steps stay below 4n. */
  lemma FiveHopsDistinct(n: nat, t: int, t1: int, t2: int, t3: int, t4: int)
    requires 2 <= n && 0 <= t < 4 * n
    requires t1 == (if t + n / 2 < 4 * n then t + n / 2 else t + n / 2 - 4 * n)
    requires t2 == (if t1 + n / 2 < 4 * n then t1 + n / 2 else t1 + n / 2 - 4 * n)
    requires t3 == (if t2 + n / 2 < 4 * n then t2 + n / 2 else t2 + n / 2 - 4 * n)
    requires t4 == (if t3 + n / 2 < 4 * n then t3 + n / 2 else t3 + n / 2 - 4 * n)
    ensures Distinct([t, t1, t2, t3, t4])
  {
    var h, m := n / 2, 4 * n;
    assert 1 <= h && 4 * h <= 2 * n;
    // each ti is t + i*h, less 4n once it has wrapped
    assert t1 == t + h - (if t + h >= m then m else 0);
    assert t2 == t + 2 * h - (if t + 2 * h >= m then m else 0);
    assert t3 == t + 3 * h - (if t + 3 * h >= m then m else 0);
    assert t4 == t + 4 * h - (if t + 4 * h >= m then m else 0);
    var s := [t, t1, t2, t3, t4];
    forall a, b | 0 <= a < b < |s|
      ensures s[a] != s[b]
    {
    }
  }

  /** With at most four forbidden slots, four moves reach a free slot. */
  lemma EscapeAvoids(n: nat, t: int, avoid: set<int>)
    requires 2 <= n && 0 <= t < 4 * n && |avoid| <= 4
    ensures 0 <= Escape(n, t, avoid, 4) < 4 * n
    ensures Escape(n, t, avoid, 4) !in avoid
  {
    var t1 := Hop(n, t);
    HopWraps(n, t);
    var t2 := Hop(n, t1);
    HopWraps(n, t1);
    var t3 := Hop(n, t2);
    HopWraps(n, t2);
    var t4 := Hop(n, t3);
    HopWraps(n, t3);
    assert Escape(n, t, avoid, 4) == (if t !in avoid then t else Escape(n, t1, avoid, 3));
    assert Escape(n, t1, avoid, 3) == (if t1 !in avoid then t1 else Escape(n, t2, avoid, 2));
    assert Escape(n, t2, avoid, 2) == (if t2 !in avoid then t2 else Escape(n, t3, avoid, 1));
    assert Escape(n, t3, avoid, 1) == (if t3 !in avoid then t3 else t4);
    if Escape(n, t, avoid, 4) in avoid {
      FiveHopsDistinct(n, t, t1, t2, t3, t4);
      DistinctWithin([t, t1, t2, t3, t4], avoid);
    }
  }

  /** The slots a roll target may not take: both slots of this traversal and
      both of the previous one (mirrorfield.c:300-306). */
  function Avoided(start: int, end: int, lastStart: int, lastEnd: int): set<int> {
    {start, end, lastStart, lastEnd}
  }

  lemma AvoidedSize(start: int, end: int, lastStart: int, lastEnd: int)
    ensures |Avoided(start, end, lastStart, lastEnd)| <= 4
  {
    assert Avoided(start, end, lastStart, lastEnd) == {start} + {end} + {lastStart} + {lastEnd};
  }

  /** Where `slot` rolls to: a slot that is none of the avoided ones. */
  function RollTarget(n: nat, table: seq<byte>, slot: int, avoid: set<int>): (t: int)
    requires 2 <= n && |table| == 4 * n && 0 <= slot < 4 * n
    ensures |avoid| <= 4 ==> 0 <= t < 4 * n && t !in avoid
  {
    if |avoid| <= 4 then EscapeAvoids(n, RollBase(n, table, slot), avoid); Escape(n, RollBase(n, table, slot), avoid, 4)
    else Escape(n, RollBase(n, table, slot), avoid, 4)
  }

  /** Exchange of the bytes at `i` and `j`. */
  function Swap(s: seq<byte>, i: int, j: int): seq<byte>
    requires 0 <= i < |s| && 0 <= j < |s|
  {
    s[i := s[j]][j := s[i]]
  }

  lemma SwapPermutes(s: seq<byte>, i: int, j: int)
    requires 0 <= i < |s| && 0 <= j < |s|
    ensures |Swap(s, i, j)| == |s|
    ensures multiset(Swap(s, i, j)) == multiset(s)
  {
    if i != j {
      var u := s[i := s[j]];
      assert multiset(u) == multiset(s) - multiset{s[i]} + multiset{s[j]};
      assert u[j] == s[j];
      assert multiset(u[j := s[i]]) == multiset(u) - multiset{s[j]} + multiset{s[i]};
    } else {
      assert Swap(s, i, j) == s;
    }
  }

  lemma SwapDistinct(s: seq<byte>, i: int, j: int)
    requires 0 <= i < |s| && 0 <= j < |s| && Distinct(s)
    ensures Distinct(Swap(s, i, j))
  {
    var w := Swap(s, i, j);
    forall a, b | 0 <= a < b < |w|
      ensures w[a] != w[b]
    {
      var pa := if a == j then i else if a == i then j else a;
      var pb := if b == j then i else if b == i then j else b;
      assert w[a] == s[pa] && w[b] == s[pb] && pa != pb;
    }
  }

  /** The whole roll (mirrorfield.c:288-333): both targets are computed from
      the table as it was, then the slot holding the larger byte is swapped
      with its target first. */
  function Roll(n: nat, table: seq<byte>, start: int, end: int, lastStart: int, lastEnd: int): (r: seq<byte>)
    requires 2 <= n && |table| == 4 * n && 0 <= start < 4 * n && 0 <= end < 4 * n
    ensures |r| == |table|
  {
    var avoid := Avoided(start, end, lastStart, lastEnd);
    AvoidedSize(start, end, lastStart, lastEnd);
    var st := RollTarget(n, table, start, avoid);
    var et := RollTarget(n, table, end, avoid);
    if table[start] > table[end] then Swap(Swap(table, start, st), end, et)
    else Swap(Swap(table, end, et), start, st)
  }

  /** Rolling permutes the table, so a table of distinct bytes stays so. */
  lemma RollPermutes(n: nat, table: seq<byte>, start: int, end: int, lastStart: int, lastEnd: int)
    requires 2 <= n && |table| == 4 * n && 0 <= start < 4 * n && 0 <= end < 4 * n
    ensures |Roll(n, table, start, end, lastStart, lastEnd)| == |table|
    ensures multiset(Roll(n, table, start, end, lastStart, lastEnd)) == multiset(table)
    ensures Distinct(table) ==> Distinct(Roll(n, table, start, end, lastStart, lastEnd))
  {
    var avoid := Avoided(start, end, lastStart, lastEnd);
    AvoidedSize(start, end, lastStart, lastEnd);
    var st := RollTarget(n, table, start, avoid);
    var et := RollTarget(n, table, end, avoid);
    var a, b, sa, sb := start, end, st, et;
    if !(table[start] > table[end]) {
      a, b, sa, sb := end, start, et, st;
    }
    var u := Swap(table, a, sa);
    SwapPermutes(table, a, sa);
    SwapPermutes(u, b, sb);
    if Distinct(table) {
      SwapDistinct(table, a, sa);
      SwapDistinct(u, b, sb);
    }
  }

  /** Only the two slots and their two roll targets change, and the targets
      avoid both current and both previous slots. */
  lemma RollFrame(n: nat, table: seq<byte>, start: int, end: int, lastStart: int, lastEnd: int, k: int)
    requires 2 <= n && |table| == 4 * n && 0 <= start < 4 * n && 0 <= end < 4 * n
    requires 0 <= k < 4 * n
    ensures var avoid := Avoided(start, end, lastStart, lastEnd);
      var st := RollTarget(n, table, start, avoid);
      var et := RollTarget(n, table, end, avoid);
      st !in {start, end, lastStart, lastEnd} && et !in {start, end, lastStart, lastEnd} &&
      (k !in {start, end, st, et} ==> Roll(n, table, start, end, lastStart, lastEnd)[k] == table[k])
  {
    AvoidedSize(start, end, lastStart, lastEnd);
  }

  /** The roll reads its memory only as a set of slots to avoid. */
  lemma RollMemoryUnordered(n: nat, table: seq<byte>, start: int, end: int,
                            lastStart: int, lastEnd: int, lastStart': int, lastEnd': int)
    requires 2 <= n && |table| == 4 * n && 0 <= start < 4 * n && 0 <= end < 4 * n
    requires {lastStart, lastEnd} == {lastStart', lastEnd'}
    ensures Roll(n, table, start, end, lastStart, lastEnd) == Roll(n, table, start, end, lastStart', lastEnd')
  {
    assert Avoided(start, end, lastStart, lastEnd) == Avoided(start, end, lastStart', lastEnd');
  }

  /** The roll treats its two slots alike and its memory as an unordered pair:
      exchanging the slots, or the remembered slots, gives the same table
      (for distinct bytes the larger-first order does not depend on which is
      called start). */
  lemma RollSymmetric(n: nat, table: seq<byte>, start: int, end: int,
                      lastStart: int, lastEnd: int, lastStart': int, lastEnd': int)
    requires 2 <= n && |table| == 4 * n && 0 <= start < 4 * n && 0 <= end < 4 * n
    requires Distinct(table)
    requires {lastStart, lastEnd} == {lastStart', lastEnd'}
    ensures Roll(n, table, start, end, lastStart, lastEnd) == Roll(n, table, end, start, lastStart', lastEnd')
  {
    assert Avoided(start, end, lastStart, lastEnd) == Avoided(end, start, lastStart', lastEnd');
    if start != end {
      assert table[start] != table[end];
    }
  }

  /** When both slots roll onto the same target, the larger byte (rolled
      first) ends in the slot that held the smaller one, the smaller byte ends
      on the target, and the slot that held the larger byte gets the target's
      byte. */
  lemma RollCollision(n: nat, table: seq<byte>, start: int, end: int, lastStart: int, lastEnd: int)
    requires 2 <= n && |table| == 4 * n && 0 <= start < 4 * n && 0 <= end < 4 * n
    requires start != end && table[start] != table[end]
    requires var avoid := Avoided(start, end, lastStart, lastEnd);
      RollTarget(n, table, start, avoid) == RollTarget(n, table, end, avoid)
    ensures var avoid := Avoided(start, end, lastStart, lastEnd);
      var t := RollTarget(n, table, start, avoid);
      var (big, small) := if table[start] > table[end] then (start, end) else (end, start);
      var r := Roll(n, table, start, end, lastStart, lastEnd);
      r[small] == table[big] && r[t] == table[small] && r[big] == table[t]
  {
  }
}
