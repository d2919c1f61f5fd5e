/** The geometry of one traversal of the mirror field
    (src/modules/mirrorfield.c:145-253), as pure functions over the grid as
    it stood when the call began.

    Within one call a mirror deflects with its pre-call orientation however
    often the ray meets it (the unspin-on-revisit rule; MirrorField proves
    this of the loop), so a traversal is a walk in a FIXED field.  A `Ray`
    is the ray standing on cell (r, c) having arrived in direction `d`;
    `Step` deflects it by the mirror there and moves it one cell.  The field
    has `n` rows and columns and 4n perimeter slots: top [0,n) entering Down,
    right [n,2n) entering Left, left [2n,3n) entering Right, bottom [3n,4n)
    entering Up.

    Main results: every ray entering from a slot leaves the field within 4n^2
    steps (`ExitsGrid`), the exit slot is a slot (`Exit`), and a ray entering
    at the exit slot retraces the path backwards and leaves at the entry slot,
    crossing the same cells (`ExitReverses`). */
module MirrorPaths {
  import opened Util

  // Cell orientations as the grid stores them (mirrorfield.c:22-25).
  const MirrorForward := 0
  const MirrorStraight := 1
  const MirrorBackward := 2
  const MirrorNone := 3

  datatype Dir = Down | Left | Right | Up

  function Reverse(d: Dir): Dir {
    match d
    case Down => Up
    case Up => Down
    case Left => Right
    case Right => Left
  }

  /** The new direction after meeting a cell of orientation `m`
      (mirrorfield.c:188-222): FORWARD swaps Down/Left and Right/Up, BACKWARD
      swaps Down/Right and Left/Up, anything else lets the ray pass.  A ray
      turns exactly at the two real mirrors, and it never turns back. */
  function Deflect(m: int, d: Dir): (r: Dir)
    ensures r != d <==> m == MirrorForward || m == MirrorBackward
    ensures r != Reverse(d)
  {
    if m == MirrorForward then
      match d
      case Down => Left
      case Left => Down
      case Right => Up
      case Up => Right
    else if m == MirrorBackward then
      match d
      case Down => Right
      case Right => Down
      case Left => Up
      case Up => Left
    else d
  }

  /** Every deflection is its own inverse. */
  lemma DeflectInvolutive(m: int, d: Dir)
    ensures Deflect(m, Deflect(m, d)) == d
  {
  }

  /** A ray sent back along the outgoing direction leaves along the reverse of
      the incoming one: mirrors are reversible. */
  lemma DeflectReversible(m: int, d: Dir)
    ensures Deflect(m, Reverse(Deflect(m, d))) == Reverse(d)
  {
  }

  datatype Ray = Ray(r: int, c: int, d: Dir)

  predicate InGrid(n: nat, s: Ray) {
    0 <= s.r < n && 0 <= s.c < n
  }

  /** Row-major index of the cell under the ray (mirrorfield.c:172). */
  function CellIndex(n: nat, s: Ray): int {
    s.r * n + s.c
  }

  lemma CellIndexRange(n: nat, s: Ray)
    requires InGrid(n, s)
    ensures 0 <= CellIndex(n, s) < n * n
  {
    assert s.r * n <= (n - 1) * n;
  }

  /** Orientation of the cell under the ray; cells outside `m` count as
      empty, which never happens for a field of the right size. */
  function MirrorAt(m: seq<int>, n: nat, s: Ray): int {
    if InGrid(n, s) && CellIndex(n, s) < |m| then m[CellIndex(n, s)] else MirrorNone
  }

  /** The ray one cell further on in direction `d` (mirrorfield.c:231-252). */
  function Move(s: Ray, d: Dir): Ray {
    match d
    case Down => Ray(s.r + 1, s.c, d)
    case Left => Ray(s.r, s.c - 1, d)
    case Right => Ray(s.r, s.c + 1, d)
    case Up => Ray(s.r - 1, s.c, d)
  }

  /** A move depends only on the cell the ray stands on. */
  lemma MoveFromCell(s: Ray, d: Dir, arrived: Dir)
    ensures Move(Ray(s.r, s.c, arrived), d) == Move(s, d)
  {
  }

  /** One iteration of the traversal loop in a fixed field: the ray turns by
      the mirror it stands on and moves one cell on in its new direction,
      never straight back. */
  function Step(m: seq<int>, n: nat, s: Ray): Ray {
    Move(s, Deflect(MirrorAt(m, n, s), s.d))
  }

  /** A step turns by the mirror under the ray, moves one cell on in the new
      direction, and never sends the ray straight back. */
  lemma StepOneCell(m: seq<int>, n: nat, s: Ray)
    ensures var r := Step(m, n, s);
      r.d == Deflect(MirrorAt(m, n, s), s.d) && r.d != Reverse(s.d) &&
      (r.r - s.r) * (r.r - s.r) + (r.c - s.c) * (r.c - s.c) == 1
  {
  }

  /** Cell and inward direction for a perimeter slot (mirrorfield.c:150-166). */
  function Entry(n: nat, slot: int): (e: Ray)
    requires 0 <= slot < 4 * n
    ensures InGrid(n, e)
  {
    if slot < n then Ray(0, slot, Down)
    else if slot < 2 * n then Ray(slot - n, n - 1, Left)
    else if slot < 3 * n then Ray(slot - 2 * n, 0, Right)
    else Ray(n - 1, slot - 3 * n, Up)
  }

  /** Slot reached by a ray that has just left the field, read off the
      direction it left in (mirrorfield.c:232-251): the top edge numbers
      slots 0..n-1, the right edge n..2n-1, the left edge 2n..3n-1 and the
      bottom edge 3n..4n-1. */
  function ExitSlot(n: nat, o: Ray): (slot: int)
    ensures o.d == Up && 0 <= o.c < n ==> 0 <= slot < n
    ensures o.d == Right && 0 <= o.r < n ==> n <= slot < 2 * n
    ensures o.d == Left && 0 <= o.r < n ==> 2 * n <= slot < 3 * n
    ensures o.d == Down && 0 <= o.c < n ==> 3 * n <= slot < 4 * n
  {
    match o.d
    case Down => o.c + 3 * n
    case Left => o.r + 2 * n
    case Right => o.r + n
    case Up => o.c
  }

  /** Leaving the field maps to the slot whose entry is the cell just left,
      entered against the direction of leaving. */
  lemma EntryOfExit(n: nat, s: Ray, d: Dir)
    requires InGrid(n, s) && !InGrid(n, Move(s, d))
    ensures 0 <= ExitSlot(n, Move(s, d)) < 4 * n
    ensures Entry(n, ExitSlot(n, Move(s, d))) == Ray(s.r, s.c, Reverse(d))
  {
  }

  /** Backing out of a slot's entry cell leaves the field through that slot. */
  lemma ExitOfEntry(n: nat, slot: int)
    requires 0 <= slot < 4 * n
    ensures !InGrid(n, Move(Entry(n, slot), Reverse(Entry(n, slot).d)))
    ensures ExitSlot(n, Move(Entry(n, slot), Reverse(Entry(n, slot).d))) == slot
  {
  }

  /** Number of distinct (cell, direction) states: no traversal is longer. */
  function Bound(n: nat): nat {
    4 * n * n
  }

  /** The in-field rays visited from `s` with at most `fuel` steps. */
  function Trace(m: seq<int>, n: nat, s: Ray, fuel: nat): seq<Ray>
    decreases fuel
  {
    if fuel == 0 || !InGrid(n, s) then [] else [s] + Trace(m, n, Step(m, n, s), fuel - 1)
  }

  /** Where the ray from `s` stands after at most `fuel` steps, stopping as
      soon as it is outside the field. */
  function Run(m: seq<int>, n: nat, s: Ray, fuel: nat): Ray
    decreases fuel
  {
    if fuel == 0 || !InGrid(n, s) then s else Run(m, n, Step(m, n, s), fuel - 1)
  }

  /** Consecutive in-field rays, each the step of the one before. */
  predicate Chain(m: seq<int>, n: nat, t: seq<Ray>) {
    (forall i | 0 <= i < |t| :: InGrid(n, t[i])) &&
    (forall i | 0 <= i < |t| - 1 :: Step(m, n, t[i]) == t[i + 1])
  }

  lemma {:induction false} TraceFacts(m: seq<int>, n: nat, s: Ray, fuel: nat)
    ensures |Trace(m, n, s, fuel)| <= fuel
    ensures Chain(m, n, Trace(m, n, s, fuel))
    ensures InGrid(n, s) && fuel > 0 ==> Trace(m, n, s, fuel) != []
    ensures Trace(m, n, s, fuel) == [] ==> Run(m, n, s, fuel) == s
    ensures Trace(m, n, s, fuel) != [] ==>
      var t := Trace(m, n, s, fuel);
      t[0] == s && Run(m, n, s, fuel) == Step(m, n, t[|t| - 1])
    ensures InGrid(n, Run(m, n, s, fuel)) ==> |Trace(m, n, s, fuel)| == fuel
    decreases fuel
  {
    if fuel > 0 && InGrid(n, s) {
      var s' := Step(m, n, s);
      TraceFacts(m, n, s', fuel - 1);
      var rest := Trace(m, n, s', fuel - 1);
      assert Trace(m, n, s, fuel) == [s] + rest;
      assert rest != [] ==> rest[0] == s';
    }
  }

  /** The ray one step back: where a ray must have stood to arrive at `s`. */
  function Back(m: seq<int>, n: nat, s: Ray): Ray {
    var q := Move(s, Reverse(s.d));
    Ray(q.r, q.c, Deflect(MirrorAt(m, n, q), s.d))
  }

  /** The traversal step is injective on in-field rays. */
  lemma BackStep(m: seq<int>, n: nat, s: Ray)
    requires InGrid(n, s)
    ensures Back(m, n, Step(m, n, s)) == s
  {
    DeflectInvolutive(MirrorAt(m, n, s), s.d);
  }

  /** A ray that has just entered from a slot has no in-field predecessor. */
  lemma EntryHasNoPredecessor(m: seq<int>, n: nat, slot: int)
    requires 0 <= slot < 4 * n
    ensures !InGrid(n, Back(m, n, Entry(n, slot)))
  {
    ExitOfEntry(n, slot);
  }

  /** In a chain starting where no in-field ray leads, no state repeats. */
  lemma {:induction false} NoRepeat(m: seq<int>, n: nat, t: seq<Ray>, i: int, j: int)
    requires Chain(m, n, t) && |t| > 0 && !InGrid(n, Back(m, n, t[0]))
    requires 0 <= i < j < |t|
    ensures t[i] != t[j]
    decreases i
  {
    BackStep(m, n, t[j - 1]);
    if i > 0 {
      NoRepeat(m, n, t, i - 1, j - 1);
      BackStep(m, n, t[i - 1]);
    }
  }

  function DirCode(d: Dir): int {
    match d
    case Down => 0
    case Left => 1
    case Right => 2
    case Up => 3
  }

  /** A numbering of the 4n^2 in-field states. */
  function StateCode(n: nat, s: Ray): int {
    CellIndex(n, s) * 4 + DirCode(s.d)
  }

  lemma StateCodeRange(n: nat, s: Ray)
    requires InGrid(n, s)
    ensures 0 <= StateCode(n, s) < Bound(n)
  {
    CellIndexRange(n, s);
  }

  lemma MulMonotone(x: int, y: int, n: nat)
    requires x <= y
    ensures x * n <= y * n
  {
  }

  lemma CellIndexInjective(n: nat, a: Ray, b: Ray)
    requires InGrid(n, a) && InGrid(n, b) && CellIndex(n, a) == CellIndex(n, b)
    ensures a.r == b.r && a.c == b.c
  {
    if a.r < b.r {
      RowsApart(n, a.r, b.r);
      assert false;
    } else if b.r < a.r {
      RowsApart(n, b.r, a.r);
      assert false;
    }
  }

  /** A later row starts at least a whole row further on. */
  lemma RowsApart(n: nat, r1: int, r2: int)
    requires r1 < r2
    ensures r1 * n + n <= r2 * n
  {
    MulMonotone(r1 + 1, r2, n);
  }

  lemma StateCodeInjective(n: nat, a: Ray, b: Ray)
    requires InGrid(n, a) && InGrid(n, b) && StateCode(n, a) == StateCode(n, b)
    ensures a == b
  {
    var x, y := CellIndex(n, a), CellIndex(n, b);
    assert 0 <= DirCode(a.d) < 4 && 0 <= DirCode(b.d) < 4;
    assert x == y;
    CellIndexInjective(n, a, b);
    assert DirCode(a.d) == DirCode(b.d);
  }

  /** A chain starting where no in-field ray leads has at most 4n^2 rays. */
  lemma ChainShort(m: seq<int>, n: nat, t: seq<Ray>)
    requires Chain(m, n, t) && |t| > 0 && !InGrid(n, Back(m, n, t[0]))
    ensures |t| <= Bound(n)
  {
    var codes := seq(|t|, i requires 0 <= i < |t| => StateCode(n, t[i]));
    forall i, j | 0 <= i < j < |codes|
      ensures codes[i] != codes[j]
    {
      NoRepeat(m, n, t, i, j);
      if codes[i] == codes[j] {
        StateCodeInjective(n, t[i], t[j]);
      }
    }
    forall i | 0 <= i < |codes|
      ensures codes[i] in Range(0, Bound(n))
    {
      StateCodeRange(n, t[i]);
    }
    DistinctWithin(codes, Range(0, Bound(n)));
  }

  /** Termination: the ray entering from any slot is outside the field after
      at most 4n^2 steps. */
  lemma ExitsGrid(m: seq<int>, n: nat, slot: int)
    requires 0 <= slot < 4 * n
    ensures !InGrid(n, Run(m, n, Entry(n, slot), Bound(n)))
  {
    var e := Entry(n, slot);
    var o := Run(m, n, e, Bound(n));
    TraceFacts(m, n, e, Bound(n));
    if InGrid(n, o) {
      var t := Trace(m, n, e, Bound(n));
      var t' := t + [o];
      assert Chain(m, n, t') by {
        assert forall i | 0 <= i < |t| :: t'[i] == t[i];
      }
      EntryHasNoPredecessor(m, n, slot);
      ChainShort(m, n, t');
    }
  }

  /** The ray from `e`, walked `done` and now standing at `s`: the remaining
      walk from `s` completes the walk from `e`. */
  predicate WalkedTo(m: seq<int>, n: nat, e: Ray, done: seq<Ray>, s: Ray) {
    |done| <= Bound(n) &&
    Trace(m, n, e, Bound(n)) == done + Trace(m, n, s, Bound(n) - |done|) &&
    Run(m, n, e, Bound(n)) == Run(m, n, s, Bound(n) - |done|)
  }

  /** A walk that is still in the field, from a start that leaves it within
      the bound, has steps left, and takes one more. */
  lemma WalkOn(m: seq<int>, n: nat, e: Ray, done: seq<Ray>, s: Ray)
    requires WalkedTo(m, n, e, done, s) && InGrid(n, s)
    requires !InGrid(n, Run(m, n, e, Bound(n)))
    ensures |done| < Bound(n)
    ensures WalkedTo(m, n, e, done + [s], Step(m, n, s))
  {
    var fuel := Bound(n) - |done|;
    var rest := Trace(m, n, Step(m, n, s), fuel - 1);
    assert Trace(m, n, s, fuel) == [s] + rest;
    assert done + ([s] + rest) == (done + [s]) + rest;
  }

  /** A walk that has left the field has walked the whole trace. */
  lemma WalkDone(m: seq<int>, n: nat, e: Ray, done: seq<Ray>, s: Ray)
    requires WalkedTo(m, n, e, done, s) && !InGrid(n, s)
    ensures Trace(m, n, e, Bound(n)) == done && Run(m, n, e, Bound(n)) == s
  {
    assert done + [] == done;
  }

  /** The in-field rays of the traversal entering at `slot`. */
  function Path(m: seq<int>, n: nat, slot: int): seq<Ray>
    requires 0 <= slot < 4 * n
  {
    Trace(m, n, Entry(n, slot), Bound(n))
  }

  /** The exit slot of the traversal entering at `slot` (mirrorfield.c:169-253):
      always one of the 4n slots. */
  function Exit(m: seq<int>, n: nat, slot: int): (e: int)
    requires 0 <= slot < 4 * n
    ensures 0 <= e < 4 * n
  {
    ExitsGrid(m, n, slot);
    TraceFacts(m, n, Entry(n, slot), Bound(n));
    var t := Path(m, n, slot);
    EntryOfExit(n, t[|t| - 1], Deflect(MirrorAt(m, n, t[|t| - 1]), t[|t| - 1].d));
    ExitSlot(n, Run(m, n, Entry(n, slot), Bound(n)))
  }

  /** The cells a list of rays stands on. */
  function Cells(n: nat, t: seq<Ray>): set<int> {
    set i | 0 <= i < |t| :: CellIndex(n, t[i])
  }

  /** Extending a list of rays by one ray adds that ray's cell. */
  lemma CellsSnoc(n: nat, t: seq<Ray>, s: Ray)
    ensures Cells(n, t + [s]) == Cells(n, t) + {CellIndex(n, s)}
  {
    var u := t + [s];
    forall x | x in Cells(n, u)
      ensures x in Cells(n, t) + {CellIndex(n, s)}
    {
      var i :| 0 <= i < |u| && CellIndex(n, u[i]) == x;
      if i < |t| {
        assert u[i] == t[i];
      }
    }
    forall x | x in Cells(n, t)
      ensures x in Cells(n, u)
    {
      var i :| 0 <= i < |t| && CellIndex(n, t[i]) == x;
      assert u[i] == t[i];
    }
    assert u[|t|] == s;
  }

  /** The same cell, with the ray turned to leave the way it came in. */
  function Flip(m: seq<int>, n: nat, s: Ray): Ray {
    Ray(s.r, s.c, Reverse(Deflect(MirrorAt(m, n, s), s.d)))
  }

  /** Reversibility of one step: from the flipped successor, one step lands on
      the flipped predecessor. */
  lemma StepFlip(m: seq<int>, n: nat, s: Ray)
    requires InGrid(n, s)
    ensures Step(m, n, Flip(m, n, Step(m, n, s))) == Flip(m, n, s)
  {
    var t := Step(m, n, s);
    DeflectReversible(MirrorAt(m, n, t), t.d);
  }

  /** A chain walked backwards, each ray flipped. */
  function FlipBack(m: seq<int>, n: nat, t: seq<Ray>): seq<Ray> {
    seq(|t|, i requires 0 <= i < |t| => Flip(m, n, t[|t| - 1 - i]))
  }

  /** A ray flipped at the end of a chain walks the chain backwards. */
  lemma {:induction false} Retrace(m: seq<int>, n: nat, t: seq<Ray>, fuel: nat)
    requires Chain(m, n, t) && |t| > 0 && |t| <= fuel
    ensures Trace(m, n, Flip(m, n, t[|t| - 1]), fuel) ==
      FlipBack(m, n, t) + Trace(m, n, Step(m, n, Flip(m, n, t[0])), fuel - |t|)
    ensures Run(m, n, Flip(m, n, t[|t| - 1]), fuel) ==
      Run(m, n, Step(m, n, Flip(m, n, t[0])), fuel - |t|)
    decreases |t|
  {
    var last := t[|t| - 1];
    assert InGrid(n, Flip(m, n, last));
    if |t| > 1 {
      var u := t[..|t| - 1];
      assert Chain(m, n, u);
      StepFlip(m, n, u[|u| - 1]);
      assert Step(m, n, Flip(m, n, last)) == Flip(m, n, u[|u| - 1]);
      Retrace(m, n, u, fuel - 1);
      assert FlipBack(m, n, t) == [Flip(m, n, last)] + FlipBack(m, n, u);
    }
  }

  lemma FlipBackCells(m: seq<int>, n: nat, t: seq<Ray>)
    ensures Cells(n, FlipBack(m, n, t)) == Cells(n, t)
  {
    var f := FlipBack(m, n, t);
    forall x | x in Cells(n, t)
      ensures x in Cells(n, f)
    {
      var i :| 0 <= i < |t| && CellIndex(n, t[i]) == x;
      assert f[|t| - 1 - i] == Flip(m, n, t[i]);
    }
    forall x | x in Cells(n, f)
      ensures x in Cells(n, t)
    {
      var i :| 0 <= i < |f| && CellIndex(n, f[i]) == x;
      assert f[i] == Flip(m, n, t[|t| - 1 - i]);
    }
  }

  /** A ray flipped where it stands and stepped on leaves the way it came. */
  lemma FlipLeaves(m: seq<int>, n: nat, e: Ray)
    ensures Step(m, n, Flip(m, n, e)) == Move(e, Reverse(e.d))
  {
    DeflectReversible(MirrorAt(m, n, e), e.d);
    assert MirrorAt(m, n, Flip(m, n, e)) == MirrorAt(m, n, e);
    MoveFromCell(e, Reverse(e.d), Flip(m, n, e).d);
  }

  /** Path reversibility: the ray entering at the exit slot leaves at the entry
      slot, crossing exactly the same cells. */
  lemma ExitReverses(m: seq<int>, n: nat, slot: int)
    requires 0 <= slot < 4 * n
    ensures Exit(m, n, Exit(m, n, slot)) == slot
    ensures Cells(n, Path(m, n, Exit(m, n, slot))) == Cells(n, Path(m, n, slot))
  {
    var e := Entry(n, slot);
    var K := Bound(n);
    ExitsGrid(m, n, slot);
    TraceFacts(m, n, e, K);
    var t := Path(m, n, slot);
    var last := t[|t| - 1];
    EntryOfExit(n, last, Deflect(MirrorAt(m, n, last), last.d));
    var end := Exit(m, n, slot);
    assert Entry(n, end) == Flip(m, n, last);
    Retrace(m, n, t, K);
    var o := Step(m, n, Flip(m, n, e));
    ExitOfEntry(n, slot);
    FlipLeaves(m, n, e);
    assert Trace(m, n, o, K - |t|) == [];
    assert Path(m, n, end) == FlipBack(m, n, t);
    FlipBackCells(m, n, t);
  }

  /** A traversal can cross more cells than the field is wide: in the 2x2
      field with BACKWARD mirrors on the top row and FORWARD mirrors on the
      bottom row, the ray from slot 0 meets all four cells and leaves at
      slot 6. */
  lemma LongTraversal()
    ensures |Path([MirrorBackward, MirrorBackward, MirrorForward, MirrorForward], 2, 0)| == 4
    ensures Exit([MirrorBackward, MirrorBackward, MirrorForward, MirrorForward], 2, 0) == 6
  {
    var m := [MirrorBackward, MirrorBackward, MirrorForward, MirrorForward];
    var a, b, c, d := Ray(0, 0, Down), Ray(0, 1, Right), Ray(1, 1, Down), Ray(1, 0, Left);
    var o := Ray(2, 0, Down);
    assert Step(m, 2, a) == b && Step(m, 2, b) == c && Step(m, 2, c) == d && Step(m, 2, d) == o;
    assert Trace(m, 2, o, 12) == [];
    assert Trace(m, 2, a, 16) == [a, b, c, d];
    assert Run(m, 2, a, 16) == o;
  }
}
