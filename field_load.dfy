/** Loading the mirror field one byte per call
    (src/modules/mirrorfield.c:54-86), as a pure step function over the
    loader's view of the state: the grid, the perimeter table and the call
    counter (the `static int i` of mirrorfield_set, starting at -1). */
module FieldLoad {
  import opened Util
  import opened MirrorPaths

  // The key-file symbols for the four orientations.
  const SymbolForward: byte := '/' as int as byte
  const SymbolBackward: byte := '\\' as int as byte
  const SymbolStraight: byte := '-' as int as byte
  const SymbolNone: byte := ' ' as int as byte

  /** The orientation a key-file symbol stands for, if it is one
      (mirrorfield.c:64-74). */
  function DecodeMirror(ch: byte): (v: Option<int>)
    ensures v.Some? <==> ch in {SymbolForward, SymbolBackward, SymbolStraight, SymbolNone}
    ensures v.Some? ==> 0 <= v.value <= 3
  {
    if ch == SymbolForward then Some(MirrorForward)
    else if ch == SymbolBackward then Some(MirrorBackward)
    else if ch == SymbolStraight then Some(MirrorStraight)
    else if ch == SymbolNone then Some(MirrorNone)
    else None
  }

  /** The symbol the field is drawn with for an orientation
      (mirrorfield.c:387-394); any other value is drawn as a space. */
  function MirrorSymbol(v: int): byte {
    if v == MirrorForward then SymbolForward
    else if v == MirrorBackward then SymbolBackward
    else if v == MirrorStraight then SymbolStraight
    else SymbolNone
  }

  /** Drawing and loading are inverse on the four orientations. */
  lemma SymbolRoundTrip(v: int, ch: byte)
    ensures 0 <= v <= 3 ==> DecodeMirror(MirrorSymbol(v)) == Some(v)
    ensures DecodeMirror(ch).Some? ==> MirrorSymbol(DecodeMirror(ch).value) == ch
  {
  }

  /** The cell index of the i-th grid symbol (mirrorfield.c:63): row-major
      order, so it is `i` itself. */
  function RowMajorIndex(i: nat, n: nat): (t: int)
    requires 0 < n
    ensures t == i
  {
    (i / n) * n + i % n
  }

  datatype Loader = Loader(grid: seq<int>, table: seq<byte>, cursor: int)

  predicate LoaderShaped(n: nat, f: Loader) {
    1 <= n && |f.grid| == n * n && |f.table| == 4 * n && -1 <= f.cursor
  }

  /** One call of mirrorfield_set: the call counter advances; the first n^2
      calls decode a grid symbol (an unknown symbol is refused and writes
      nothing), the next 4n calls store a perimeter byte verbatim, and every
      later call is refused. */
  function LoadStep(n: nat, f: Loader, ch: byte): (r: (bool, Loader))
    requires LoaderShaped(n, f)
    ensures LoaderShaped(n, r.1) && r.1.cursor == f.cursor + 1
    ensures f.cursor + 1 < n * n ==>
      r.0 == DecodeMirror(ch).Some? && r.1.table == f.table &&
      r.1.grid == if r.0 then f.grid[f.cursor + 1 := DecodeMirror(ch).value] else f.grid
    ensures n * n <= f.cursor + 1 < n * n + 4 * n ==>
      r.0 && r.1.grid == f.grid && r.1.table == f.table[f.cursor + 1 - n * n := ch]
    ensures n * n + 4 * n <= f.cursor + 1 ==> !r.0 && r.1.grid == f.grid && r.1.table == f.table
  {
    var i := f.cursor + 1;
    if i < n * n then
      var t := RowMajorIndex(i, n);
      match DecodeMirror(ch)
      case Some(v) => (true, Loader(f.grid[t := v], f.table, i))
      case None => (false, f.(cursor := i))
    else if i - n * n < 4 * n then
      (true, Loader(f.grid, f.table[i - n * n := ch], i))
    else
      (false, f.(cursor := i))
  }

  /** Feeding a byte sequence to the loader, call after call; the flag says
      whether every call accepted its byte. */
  function LoadAll(n: nat, f: Loader, bytes: seq<byte>): (bool, Loader)
    requires LoaderShaped(n, f)
    decreases |bytes|
  {
    if bytes == [] then (true, f)
    else
      var (ok, f1) := LoadStep(n, f, bytes[0]);
      var (rest, f2) := LoadAll(n, f1, bytes[1..]);
      (ok && rest, f2)
  }

  /** What a grid cell holds after its symbol `ch` was offered to it. */
  function Decoded(ch: byte, previous: int): int {
    match DecodeMirror(ch)
    case Some(v) => v
    case None => previous
  }

  /** Feeding bytes that fit in the key from any counter value: the counter
      advances by one per byte, and every call accepts exactly when each
      byte offered to a grid cell is one of the four symbols. */
  lemma {:induction false} LoadAllAccepts(n: nat, f: Loader, bytes: seq<byte>)
    requires LoaderShaped(n, f) && f.cursor + 1 + |bytes| <= n * n + 4 * n
    ensures var (ok, g) := LoadAll(n, f, bytes);
      var c := f.cursor + 1;
      LoaderShaped(n, g) && g.cursor == f.cursor + |bytes| &&
      (ok <==> forall j | 0 <= j < |bytes| && c + j < n * n :: DecodeMirror(bytes[j]).Some?)
    decreases |bytes|
  {
    if bytes != [] {
      var (ok1, f1) := LoadStep(n, f, bytes[0]);
      LoadAllAccepts(n, f1, bytes[1..]);
      var c := f.cursor + 1;
      var (ok, g) := LoadAll(n, f, bytes);
      if ok {
        forall j | 0 <= j < |bytes| && c + j < n * n
          ensures DecodeMirror(bytes[j]).Some?
        {
          if j > 0 {
            assert bytes[1..][j - 1] == bytes[j];
          }
        }
      } else if ok1 {
        var j :| 0 <= j < |bytes[1..]| && c + 1 + j < n * n && !DecodeMirror(bytes[1..][j]).Some?;
        assert bytes[1..][j] == bytes[j + 1];
      }
    }
  }

  /** Feeding bytes from any counter value: the grid cells in the window of
      the calls hold what their symbols decode to (a refused symbol leaves
      its cell as it was); the other cells are untouched. */
  lemma {:induction false} LoadAllGrid(n: nat, f: Loader, bytes: seq<byte>)
    requires LoaderShaped(n, f)
    ensures var g := LoadAll(n, f, bytes).1;
      var c := f.cursor + 1;
      |g.grid| == n * n &&
      forall k | 0 <= k < n * n ::
        g.grid[k] == if c <= k < c + |bytes| then Decoded(bytes[k - c], f.grid[k]) else f.grid[k]
    decreases |bytes|
  {
    if bytes != [] {
      var f1 := LoadStep(n, f, bytes[0]).1;
      LoadStepGrid(n, f, bytes[0]);
      LoadAllGrid(n, f1, bytes[1..]);
      var c := f.cursor + 1;
      var g := LoadAll(n, f, bytes).1;
      assert g == LoadAll(n, f1, bytes[1..]).1;
      forall k | 0 <= k < n * n
        ensures g.grid[k] == if c <= k < c + |bytes| then Decoded(bytes[k - c], f.grid[k]) else f.grid[k]
      {
        if c < k < c + |bytes| {
          assert bytes[1..][k - (c + 1)] == bytes[k - c];
        }
      }
    }
  }

  /** One call changes at most the grid cell at the new counter value. */
  lemma LoadStepGrid(n: nat, f: Loader, ch: byte)
    requires LoaderShaped(n, f)
    ensures var g := LoadStep(n, f, ch).1;
      forall k | 0 <= k < n * n ::
        g.grid[k] == if k == f.cursor + 1 then Decoded(ch, f.grid[k]) else f.grid[k]
  {
  }

  /** Feeding bytes from any counter value: the perimeter slots in the
      window of the calls hold their bytes verbatim; the others are
      untouched. */
  lemma {:induction false} LoadAllTable(n: nat, f: Loader, bytes: seq<byte>)
    requires LoaderShaped(n, f)
    ensures var g := LoadAll(n, f, bytes).1;
      var c := f.cursor + 1;
      |g.table| == 4 * n &&
      forall k | 0 <= k < 4 * n ::
        g.table[k] == if c <= k + n * n < c + |bytes| then bytes[k + n * n - c] else f.table[k]
    decreases |bytes|
  {
    if bytes != [] {
      var f1 := LoadStep(n, f, bytes[0]).1;
      LoadAllTable(n, f1, bytes[1..]);
      var c := f.cursor + 1;
      var g := LoadAll(n, f, bytes).1;
      forall k | 0 <= k < 4 * n
        ensures g.table[k] == if c <= k + n * n < c + |bytes| then bytes[k + n * n - c] else f.table[k]
      {
        if c < k + n * n < c + |bytes| {
          assert bytes[1..][k + n * n - (c + 1)] == bytes[k + n * n - c];
        }
      }
    }
  }

  /** Loading a whole key (n^2 grid symbols, then 4n perimeter bytes) from a
      fresh counter: the grid holds the decoded symbols in row-major order
      (a refused symbol leaves its cell as it was), the table holds the last
      4n bytes verbatim, and every call succeeded exactly when every grid
      symbol was one of the four. */
  lemma LoadKey(n: nat, f: Loader, bytes: seq<byte>)
    requires LoaderShaped(n, f) && f.cursor == -1 && |bytes| == n * n + 4 * n
    ensures var (ok, g) := LoadAll(n, f, bytes);
      LoaderShaped(n, g) &&
      (ok <==> forall k | 0 <= k < n * n :: DecodeMirror(bytes[k]).Some?) &&
      (forall k | 0 <= k < n * n :: g.grid[k] == Decoded(bytes[k], f.grid[k])) &&
      g.table == bytes[n * n..] &&
      g.cursor == |bytes| - 1
  {
    LoadAllAccepts(n, f, bytes);
    LoadAllGrid(n, f, bytes);
    LoadAllTable(n, f, bytes);
  }
}
