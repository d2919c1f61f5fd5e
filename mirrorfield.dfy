/** The mirrorfield module of src/modules/mirrorfield.c as a class: its static
    arrays `grid` and `perimeterChars` become array fields, its static
    counters (the loader's `i`, `evenodd`, `lastStartCharPos`,
    `lastEndCharPos`) become variable fields, and GRID_SIZE becomes the
    constant `n`.  Every method is proved against the pure model: the loader
    against FieldLoad.LoadStep, the cipher call against CipherSpec.Crypt and
    the roll against PerimeterRoll.Roll. */
module MirrorField {
  import opened Util
  import opened MirrorPaths
  import opened PerimeterRoll
  import opened FieldLoad
  import opened CipherSpec

  /** The invariant of the traversal loop (mirrorfield.c:169-253), over the
      values of its variables: the walk from `e` in the pre-call field `g0`
      has met the rays `done` and stands at `cur`; `endCharPos` is -1 while
      the ray is on the field and its exit slot once it has left; the
      visited marks and the grid are those of one spin per met cell. */
  ghost predicate Traversing(g0: seq<int>, n: nat, e: Ray, done: seq<Ray>, cur: Ray, endCharPos: int,
                             visited: seq<bool>, grid: seq<int>)
  {
    WalkedTo(g0, n, e, done, cur) &&
    (endCharPos < 0 ==> endCharPos == -1 && InGrid(n, cur)) &&
    (endCharPos >= 0 ==> !InGrid(n, cur) && endCharPos == ExitSlot(n, cur)) &&
    visited == Marks(g0, Cells(n, done)) && grid == SpinCells(g0, Cells(n, done))
  }

  /** Before the first iteration: nothing met, nothing marked, the grid as
      it was. */
  lemma TraversingStart(g0: seq<int>, n: nat, e: Ray, visited: seq<bool>)
    requires InGrid(n, e) && |visited| == |g0| && forall i | 0 <= i < |visited| :: !visited[i]
    ensures Traversing(g0, n, e, [], e, -1, visited, g0)
  {
    assert Cells(n, []) == {};
  }

  /** One iteration keeps the invariant: a met cell that is marked holds its
      spun orientation, and after the ray deflects by the pre-call
      orientation, spins the cell and moves, the invariant holds of the next
      ray with one more cell met. */
  lemma TraversingStep(g0: seq<int>, n: nat, e: Ray, done: seq<Ray>, cur: Ray,
                       visited: seq<bool>, grid: seq<int>)
    requires Traversing(g0, n, e, done, cur, -1, visited, grid)
    requires !InGrid(n, Run(g0, n, e, Bound(n))) && |g0| == n * n
    ensures |done| < Bound(n)
    ensures var t := CellIndex(n, cur);
      0 <= t < |g0| && |visited| == |grid| == |g0| &&
      (visited[t] ==> g0[t] != MirrorNone) &&
      grid[t] == (if visited[t] then Spin(g0[t]) else g0[t]) &&
      var next := Step(g0, n, cur);
      Traversing(g0, n, e, done + [cur], next, if InGrid(n, next) then -1 else ExitSlot(n, next),
                 visited[t := visited[t] || g0[t] != MirrorNone],
                 grid[t := if g0[t] != MirrorNone then Spin(g0[t]) else g0[t]])
  {
    WalkOn(g0, n, e, done, cur);
    CellIndexRange(n, cur);
    var t := CellIndex(n, cur);
    CellsSnoc(n, done, cur);
    MeetOneMore(g0, Cells(n, done), t);
    var next := Step(g0, n, cur);
    if !InGrid(n, next) {
      EntryOfExit(n, cur, Deflect(MirrorAt(g0, n, cur), cur.d));
    }
  }

  class MirrorField {
    const n: nat
    const grid: array<int>
    const perimeterChars: array<byte>
    var loadCursor: int
    var evenodd: int
    var lastStartCharPos: int
    var lastEndCharPos: int

    predicate Valid()
      reads this
    {
      2 <= n && 4 * n <= 256 &&
      grid.Length == n * n && perimeterChars.Length == 4 * n &&
      -1 <= loadCursor && 0 <= evenodd <= 1 &&
      -1 <= lastStartCharPos < 4 * n && -1 <= lastEndCharPos < 4 * n
    }

    /** The cipher's view of the state. */
    function State(): Cipher
      reads this, grid, perimeterChars
    {
      Cipher(grid[..], perimeterChars[..], evenodd, lastStartCharPos, lastEndCharPos)
    }

    /** The loader's view of the state. */
    function LoaderState(): Loader
      reads this, grid, perimeterChars
    {
      Loader(grid[..], perimeterChars[..], loadCursor)
    }

    /** The state before any call: zeroed arrays (static storage), counters
        at their initial values (mirrorfield.c:32-33, 55, 131, 285-286). */
    constructor (size: nat)
      requires 2 <= size && 4 * size <= 256
      ensures Valid() && n == size && GridInRange(grid[..])
      ensures fresh(grid) && fresh(perimeterChars)
      ensures forall k | 0 <= k < grid.Length :: grid[k] == MirrorForward
      ensures forall k | 0 <= k < perimeterChars.Length :: perimeterChars[k] == 0
      ensures loadCursor == -1 && evenodd == 0
      ensures lastStartCharPos == -1 && lastEndCharPos == -1
    {
      n := size;
      grid := new int[size * size](_ => 0);
      perimeterChars := new byte[4 * size](_ => 0);
      loadCursor := -1;
      evenodd := 0;
      lastStartCharPos := -1;
      lastEndCharPos := -1;
    }

    /** mirrorfield_init: every cell becomes FORWARD (0) and every perimeter
        byte 0; the counters keep their values. */
    method Init()
      requires Valid()
      modifies grid, perimeterChars
      ensures Valid() && GridInRange(grid[..])
      ensures forall k | 0 <= k < grid.Length :: grid[k] == MirrorForward
      ensures forall k | 0 <= k < perimeterChars.Length :: perimeterChars[k] == 0
    {
      forall k | 0 <= k < grid.Length {
        grid[k] := 0;
      }
      forall k | 0 <= k < perimeterChars.Length {
        perimeterChars[k] := 0;
      }
    }

    /** mirrorfield_set: one loader step.  It only ever writes one of the
        four orientations, so a grid in range stays in range. */
    method Set(ch: byte) returns (ok: bool)
      requires Valid()
      modifies this, grid, perimeterChars
      ensures Valid()
      ensures (ok, LoaderState()) == LoadStep(n, old(LoaderState()), ch)
      ensures old(GridInRange(grid[..])) ==> GridInRange(grid[..])
      ensures evenodd == old(evenodd)
      ensures lastStartCharPos == old(lastStartCharPos) && lastEndCharPos == old(lastEndCharPos)
    {
      loadCursor := loadCursor + 1;
      if loadCursor < n * n {
        var t := RowMajorIndex(loadCursor, n);
        if ch == SymbolForward {
          grid[t] := MirrorForward;
        } else if ch == SymbolBackward {
          grid[t] := MirrorBackward;
        } else if ch == SymbolStraight {
          grid[t] := MirrorStraight;
        } else if ch == SymbolNone {
          grid[t] := MirrorNone;
        } else {
          return false;
        }
        return true;
      }
      var t := loadCursor - n * n;
      if t < 4 * n {
        perimeterChars[t] := ch;
        return true;
      }
      return false;
    }

    /** mirrorfield_validate: every cell holds one of the four orientations
        and no perimeter byte occurs twice. */
    method Validate() returns (ok: bool)
      requires Valid()
      ensures ok <==> GridInRange(grid[..]) && Distinct(perimeterChars[..])
    {
      var i := 0;
      while i < n * n
        invariant 0 <= i <= n * n
        invariant forall k | 0 <= k < i :: 0 <= grid[k] <= 3
      {
        if grid[i] < 0 || grid[i] > 3 {
          assert grid[..][i] == grid[i];
          return false;
        }
        i := i + 1;
      }
      i := 0;
      while i < 4 * n
        invariant 0 <= i <= 4 * n
        invariant forall a, b | 0 <= a < i && a < b < 4 * n :: perimeterChars[a] != perimeterChars[b]
      {
        var i2 := i + 1;
        while i2 < 4 * n
          invariant i + 1 <= i2 <= 4 * n
          invariant forall b | i < b < i2 :: perimeterChars[i] != perimeterChars[b]
        {
          if perimeterChars[i] == perimeterChars[i2] {
            assert perimeterChars[..][i] == perimeterChars[..][i2];
            return false;
          }
          i2 := i2 + 1;
        }
        i := i + 1;
      }
      return true;
    }

    /** mirrorfield_crypt_char: toggles the parity, finds the byte's slot,
        runs the ray through the field (unspinning a revisited mirror before it
        deflects, spinning every mirror it meets), picks the output and rolls
        the two slots.  The new state and the result are those of the model;
        a byte outside the table only toggles the parity. */
    method CryptChar(ch: byte) returns (res: Option<byte>)
      requires Valid() && GridInRange(grid[..])
      modifies this, grid, perimeterChars
      ensures Valid() && GridInRange(grid[..])
      ensures (res, State()) == Crypt(n, old(State()), ch)
      ensures loadCursor == old(loadCursor)
    {
      ghost var s0 := State();
      evenodd := (evenodd + 1) % 2;

      var startCharPos := 0;
      while startCharPos < 4 * n && perimeterChars[startCharPos] != ch
        invariant 0 <= startCharPos <= 4 * n
        invariant forall j | 0 <= j < startCharPos :: perimeterChars[j] != ch
      {
        startCharPos := startCharPos + 1;
      }
      assert startCharPos == FindSlot(s0.table, ch);
      if startCharPos == 4 * n {
        return None;
      }

      res := CryptFromSlot(startCharPos);
      CryptFound(n, s0, ch);
    }

    /** The part of mirrorfield_crypt_char after the lookup
        (mirrorfield.c:149-269): the traversal from the byte's slot, the
        output rule read from the table before the roll, then the roll. */
    method CryptFromSlot(startCharPos: int) returns (res: Option<byte>)
      requires Valid() && GridInRange(grid[..]) && 0 <= startCharPos < 4 * n
      modifies this, grid, perimeterChars
      ensures Valid() && GridInRange(grid[..])
      ensures var end := Exit(old(grid[..]), n, startCharPos);
        res == Some(Output(old(perimeterChars[..]), startCharPos, end, evenodd)) &&
        grid[..] == SpinCells(old(grid[..]), Cells(n, Path(old(grid[..]), n, startCharPos))) &&
        perimeterChars[..] ==
          Roll(n, old(perimeterChars[..]), startCharPos, end, old(lastStartCharPos), old(lastEndCharPos)) &&
        lastStartCharPos == startCharPos && lastEndCharPos == end
      ensures evenodd == old(evenodd) && loadCursor == old(loadCursor)
    {
      ghost var table := perimeterChars[..];
      var endCharPos := Traverse(startCharPos);
      assert perimeterChars[..] == table;

      var ech := perimeterChars[endCharPos];
      if perimeterChars[startCharPos] as int == startCharPos || perimeterChars[endCharPos] as int == endCharPos {
        if evenodd != 0 {
          ech := perimeterChars[startCharPos];
        }
      }
      assert ech == Output(table, startCharPos, endCharPos, evenodd);

      RollChars(startCharPos, endCharPos);
      res := Some(ech);
    }

    /** The traversal of mirrorfield.c:149-253 from slot `startCharPos`: the
        ray leaves at the model's exit slot, and afterwards every mirror on its
        path has spun exactly once, whatever the number of visits. */
    method Traverse(startCharPos: int) returns (endCharPos: int)
      requires Valid() && GridInRange(grid[..]) && 0 <= startCharPos < 4 * n
      modifies grid
      ensures endCharPos == Exit(old(grid[..]), n, startCharPos)
      ensures grid[..] == SpinCells(old(grid[..]), Cells(n, Path(old(grid[..]), n, startCharPos)))
    {
      ghost var g0 := grid[..];
      var r, c, direction;
      if startCharPos < n {
        direction, r, c := Down, 0, startCharPos;
      } else if startCharPos < 2 * n {
        direction, r, c := Left, startCharPos - n, n - 1;
      } else if startCharPos < 3 * n {
        direction, r, c := Right, startCharPos - 2 * n, 0;
      } else {
        direction, r, c := Up, n - 1, startCharPos - 3 * n;
      }
      ghost var e := Ray(r, c, direction);
      assert e == Entry(n, startCharPos);

      var visited := new bool[n * n](_ => false);
      endCharPos := -1;
      ghost var done: seq<Ray> := [];
      ExitsGrid(g0, n, startCharPos);
      TraversingStart(g0, n, e, visited[..]);
      while endCharPos < 0
        modifies grid, visited
        invariant Traversing(g0, n, e, done, Ray(r, c, direction), endCharPos, visited[..], grid[..])
        decreases Bound(n) - |done|
      {
        ghost var here := Ray(r, c, direction);
        r, c, direction, endCharPos := Iterate(visited, r, c, direction, g0, e, done);
        done := done + [here];
      }
      WalkDone(g0, n, e, done, Ray(r, c, direction));
      assert Path(g0, n, startCharPos) == done;
    }

    /** One iteration of the traversal loop (mirrorfield.c:171-252): the ray
        meets the cell it stands on and moves on; the loop invariant holds
        again with that ray added to the walk. */
    method Iterate(visited: array<bool>, r: int, c: int, direction: Dir,
                   ghost g0: seq<int>, ghost e: Ray, ghost done: seq<Ray>)
      returns (r': int, c': int, direction': Dir, endCharPos: int)
      requires grid.Length == n * n && visited.Length == n * n && |g0| == n * n && GridInRange(g0)
      requires Traversing(g0, n, e, done, Ray(r, c, direction), -1, visited[..], grid[..])
      requires !InGrid(n, Run(g0, n, e, Bound(n)))
      modifies grid, visited
      ensures |done| < Bound(n)
      ensures Traversing(g0, n, e, done + [Ray(r, c, direction)], Ray(r', c', direction'), endCharPos, visited[..], grid[..])
    {
      ghost var here, marks, cells := Ray(r, c, direction), visited[..], grid[..];
      TraversingStep(g0, n, e, done, here, marks, cells);
      var t := CellIndex(n, Ray(r, c, direction));
      ghost var next := Step(g0, n, here);
      assert g0[t] == MirrorAt(g0, n, here);
      assert visited[t] == marks[t] && grid[t] == cells[t];

      direction' := Visit(visited, t, direction, g0[t]);

      MoveFromCell(here, direction', direction');
      r', c', endCharPos := Advance(r, c, direction');
      assert Ray(r', c', direction') == next;
      assert endCharPos == if InGrid(n, next) then -1 else ExitSlot(n, next);
      assert visited[..] == marks[t := marks[t] || g0[t] != MirrorNone];
      assert grid[..] == cells[t := if g0[t] != MirrorNone then Spin(g0[t]) else g0[t]];
    }

    /** The ray meets cell `t` (mirrorfield.c:181-228), whose orientation
        before the call was `orig`: a cell already visited is unspun first, so
        the ray deflects by `orig`; then a cell that is not NONE is spun and
        marked visited.  Afterwards the cell has advanced exactly one step
        from `orig`, however often it was met. */
    method Visit(visited: array<bool>, t: int, direction: Dir, ghost orig: int) returns (direction': Dir)
      requires visited.Length == grid.Length && 0 <= t < grid.Length
      requires 0 <= orig <= 3 && (visited[t] ==> orig != MirrorNone)
      requires grid[t] == if visited[t] then Spin(orig) else orig
      modifies grid, visited
      ensures direction' == Deflect(orig, direction)
      ensures visited[..] == old(visited[..])[t := old(visited[t]) || orig != MirrorNone]
      ensures grid[..] == old(grid[..])[t := if orig != MirrorNone then Spin(orig) else orig]
    {
      // a mirror met before in this call deflects as it stood before the call
      if visited[t] {
        grid[t] := (grid[t] + 2) % 3;
      }
      direction' := Deflect(grid[t], direction);

      if grid[t] != MirrorNone {
        grid[t] := (grid[t] + 1) % 3;
        visited[t] := true;
      }
    }

    /** One move of the ray (mirrorfield.c:231-252): the next cell in
        `direction`, and the slot the ray leaves by when that cell is off the
        field (-1 while it is on it). */
    method Advance(r: int, c: int, direction: Dir) returns (r': int, c': int, endCharPos: int)
      requires InGrid(n, Ray(r, c, direction))
      ensures Ray(r', c', direction) == Move(Ray(r, c, direction), direction)
      ensures endCharPos == if InGrid(n, Ray(r', c', direction)) then -1 else ExitSlot(n, Ray(r', c', direction))
    {
      r', c', endCharPos := r, c, -1;
      match direction
      case Down =>
        r' := r' + 1;
        if r' == n {
          endCharPos := c' + 3 * n;
        }
      case Left =>
        c' := c' - 1;
        if c' == -1 {
          endCharPos := r' + 2 * n;
        }
      case Right =>
        c' := c' + 1;
        if c' == n {
          endCharPos := r' + n;
        }
      case Up =>
        r' := r' - 1;
        if r' == -1 {
          endCharPos := c';
        }
    }

    /** mirrorfield_roll_chars: both slots swap with their roll targets (the
        larger byte first) and are remembered for the next call. */
    method RollChars(startCharPos: int, endCharPos: int)
      requires Valid() && 0 <= startCharPos < 4 * n && 0 <= endCharPos < 4 * n
      modifies this, perimeterChars
      ensures Valid()
      ensures perimeterChars[..] ==
        Roll(n, old(perimeterChars[..]), startCharPos, endCharPos, old(lastStartCharPos), old(lastEndCharPos))
      ensures lastStartCharPos == startCharPos && lastEndCharPos == endCharPos
      ensures evenodd == old(evenodd) && loadCursor == old(loadCursor)
    {
      ghost var table := perimeterChars[..];
      var startRollCharPos := RollTargetOf(startCharPos, endCharPos);
      var endRollCharPos := RollTargetOf(endCharPos, startCharPos);
      assert Avoided(endCharPos, startCharPos, lastStartCharPos, lastEndCharPos)
        == Avoided(startCharPos, endCharPos, lastStartCharPos, lastEndCharPos);

      var tempChar;
      if perimeterChars[startCharPos] as int > perimeterChars[endCharPos] as int {
        tempChar := perimeterChars[startCharPos];
        perimeterChars[startCharPos] := perimeterChars[startRollCharPos];
        perimeterChars[startRollCharPos] := tempChar;

        tempChar := perimeterChars[endCharPos];
        perimeterChars[endCharPos] := perimeterChars[endRollCharPos];
        perimeterChars[endRollCharPos] := tempChar;
      } else {
        tempChar := perimeterChars[endCharPos];
        perimeterChars[endCharPos] := perimeterChars[endRollCharPos];
        perimeterChars[endRollCharPos] := tempChar;

        tempChar := perimeterChars[startCharPos];
        perimeterChars[startCharPos] := perimeterChars[startRollCharPos];
        perimeterChars[startRollCharPos] := tempChar;
      }

      lastStartCharPos := startCharPos;
      lastEndCharPos := endCharPos;
    }

    /** The roll target of `slot` (mirrorfield.c:289-306, written once for
        both slots): its base position, moved on by GRID_SIZE/2 while it hits
        `slot`, the `other` slot or either remembered slot.  The loop ends
        within four moves and its result is none of those slots. */
    method RollTargetOf(slot: int, other: int) returns (t: int)
      requires Valid() && 0 <= slot < 4 * n && 0 <= other < 4 * n
      ensures t == RollTarget(n, perimeterChars[..], slot, Avoided(slot, other, lastStartCharPos, lastEndCharPos))
      ensures 0 <= t < 4 * n && t != slot && t != other && t != lastStartCharPos && t != lastEndCharPos
    {
      ghost var avoid := Avoided(slot, other, lastStartCharPos, lastEndCharPos);
      AvoidedSize(slot, other, lastStartCharPos, lastEndCharPos);
      if slot == 0 {
        t := (slot + perimeterChars[slot] as int + perimeterChars[slot + 1] as int) % (4 * n);
      } else {
        t := (slot + perimeterChars[slot] as int + perimeterChars[slot - 1] as int) % (4 * n);
      }
      assert t == RollBase(n, perimeterChars[..], slot);
      ghost var fuel: nat := 4;
      while t == slot || t == other || t == lastEndCharPos || t == lastStartCharPos
        invariant 0 <= t < 4 * n
        invariant Escape(n, t, avoid, fuel) == RollTarget(n, perimeterChars[..], slot, avoid)
        decreases fuel
      {
        t := (t + (n / 2)) % (4 * n);
        fuel := fuel - 1;
      }
    }
  }
}
