/** The cipher primitive mirrorfield_crypt_char
    (src/modules/mirrorfield.c:123-270) as a pure function of the cipher state,
    and the round-trip property claimed at mirrorfield.c:258: the same
    primitive, run from the same state on the ciphertext, gives back the
    plaintext. */
module CipherSpec {
  import opened Util
  import opened MirrorPaths
  import opened PerimeterRoll

  /** Everything mirrorfield_crypt_char reads or writes: the grid, the
      perimeter table, the parity toggle and the slots of the previous call
      (-1 before the first call). */
  datatype Cipher = Cipher(grid: seq<int>, table: seq<byte>, evenodd: int, lastStart: int, lastEnd: int)

  predicate Shaped(n: nat, s: Cipher) {
    2 <= n && |s.grid| == n * n && |s.table| == 4 * n
  }

  /** Every grid value is one of the four orientations. */
  predicate GridInRange(g: seq<int>) {
    forall i | 0 <= i < |g| :: 0 <= g[i] <= 3
  }

  /** A state that has passed mirrorfield_validate, with a parity bit. */
  predicate WellFormed(n: nat, s: Cipher) {
    Shaped(n, s) && 4 * n <= 256 && GridInRange(s.grid) && Distinct(s.table) &&
    0 <= s.evenodd <= 1 && -1 <= s.lastStart < 4 * n && -1 <= s.lastEnd < 4 * n
  }

  /** The first slot holding `ch`, or |table| when there is none
      (mirrorfield.c:145-147). */
  function FindSlot(table: seq<byte>, ch: byte): (k: nat)
    ensures k <= |table|
    ensures forall j | 0 <= j < k :: table[j] != ch
    ensures k < |table| ==> table[k] == ch
    ensures k == |table| <==> ch !in table
  {
    if table == [] then 0
    else if table[0] == ch then 0
    else 1 + FindSlot(table[1..], ch)
  }

  /** One step round the cycle FORWARD -> STRAIGHT -> BACKWARD -> FORWARD
      (mirrorfield.c:226). */
  function Spin(v: int): int {
    (v + 1) % 3
  }

  /** Undoing a spin (mirrorfield.c:184). */
  function Unspin(v: int): int {
    (v + 2) % 3
  }

  lemma UnspinSpin(v: int)
    requires 0 <= v <= 2
    ensures Unspin(Spin(v)) == v && Spin(v) != v
  {
  }

  /** The grid after a traversal over `cells`: every such cell that is not
      NONE has spun once; everything else is as it was. */
  function SpinCells(g: seq<int>, cells: set<int>): (r: seq<int>)
    ensures |r| == |g|
    ensures forall i | 0 <= i < |g| && (i !in cells || g[i] == MirrorNone) :: r[i] == g[i]
    ensures forall i | 0 <= i < |g| && i in cells && 0 <= g[i] <= 2 :: r[i] == Spin(g[i]) != g[i]
    ensures GridInRange(g) ==> GridInRange(r)
  {
    seq(|g|, i requires 0 <= i < |g| => if i in cells && g[i] != MirrorNone then Spin(g[i]) else g[i])
  }

  /** Which cells a traversal over `cells` has marked visited: those on it
      that are not NONE. */
  function Marks(g: seq<int>, cells: set<int>): (r: seq<bool>)
    ensures |r| == |g|
    ensures forall i | 0 <= i < |g| :: r[i] == (i in cells && g[i] != MirrorNone)
  {
    seq(|g|, i requires 0 <= i < |g| => i in cells && g[i] != MirrorNone)
  }

  /** Meeting one more cell marks it and spins it, once. */
  lemma MeetOneMore(g: seq<int>, cells: set<int>, t: int)
    requires 0 <= t < |g|
    ensures Marks(g, cells + {t}) == Marks(g, cells)[t := g[t] != MirrorNone]
    ensures SpinCells(g, cells + {t}) ==
      SpinCells(g, cells)[t := if g[t] != MirrorNone then Spin(g[t]) else g[t]]
  {
  }

  /** The output byte (mirrorfield.c:256-263): the byte at the exit slot,
      except that on odd calls, when either slot holds its own index as its
      value, the byte at the entry slot (the input itself) is returned. */
  function Output(table: seq<byte>, start: int, end: int, evenodd: int): (b: byte)
    requires 0 <= start < |table| && 0 <= end < |table|
    ensures b == table[start] || b == table[end]
    ensures evenodd == 0 ==> b == table[end]
    ensures table[start] as int != start && table[end] as int != end ==> b == table[end]
  {
    if (table[start] as int == start || table[end] as int == end) && evenodd != 0 then table[start]
    else table[end]
  }

  /** The call on a byte found at slot `start`, with the parity already
      toggled: the ray runs from `start`, the cells on its path spin, the
      output is chosen, the two slots roll and are remembered. */
  function CryptFrom(n: nat, s: Cipher, start: int, parity: int): (r: (Option<byte>, Cipher))
    requires Shaped(n, s) && 0 <= start < 4 * n
    ensures Shaped(n, r.1)
  {
    var end := Exit(s.grid, n, start);
    (Some(Output(s.table, start, end, parity)),
     Cipher(SpinCells(s.grid, Cells(n, Path(s.grid, n, start))),
            Roll(n, s.table, start, end, s.lastStart, s.lastEnd),
            parity, start, end))
  }

  /** One call of the primitive.  The parity toggles first; a byte absent from
      the table yields `None` and changes nothing else.  (In C the lookup
      stops at 4n without a match, the ray's coordinates stay unset and its
      direction stays 0, so the traversal loop never ends; `None` stands for
      that call.) */
  function Crypt(n: nat, s: Cipher, ch: byte): (r: (Option<byte>, Cipher))
    requires Shaped(n, s)
    ensures Shaped(n, r.1)
  {
    var parity := (s.evenodd + 1) % 2;
    var start := FindSlot(s.table, ch);
    if start == |s.table| then (None, s.(evenodd := parity))
    else CryptFrom(n, s, start, parity)
  }

  /** The call on a byte of the table. */
  lemma CryptFound(n: nat, s: Cipher, ch: byte)
    requires Shaped(n, s) && ch in s.table
    ensures FindSlot(s.table, ch) < |s.table|
    ensures Crypt(n, s, ch) == CryptFrom(n, s, FindSlot(s.table, ch), (s.evenodd + 1) % 2)
  {
  }

  /** A call keeps the state well formed and the alphabet unchanged; the
      parity flips; a byte of the alphabet is accepted and its output is in
      the alphabet; a byte outside it is refused. */
  lemma CryptKeepsWellFormed(n: nat, s: Cipher, ch: byte)
    requires WellFormed(n, s)
    ensures var (out, s') := Crypt(n, s, ch);
      WellFormed(n, s') && multiset(s'.table) == multiset(s.table) &&
      s'.evenodd == 1 - s.evenodd &&
      (out.Some? <==> ch in s.table) &&
      (out.Some? ==> out.value in s.table)
  {
    var start := FindSlot(s.table, ch);
    if start < |s.table| {
      var end := Exit(s.grid, n, start);
      RollPermutes(n, s.table, start, end, s.lastStart, s.lastEnd);
    }
  }

  /** The output of a call on a byte found at `start`. */
  lemma CryptFromOutput(n: nat, s: Cipher, start: int, parity: int)
    requires Shaped(n, s) && 0 <= start < 4 * n
    ensures CryptFrom(n, s, start, parity).0 == Some(Output(s.table, start, Exit(s.grid, n, start), parity))
  {
  }

  /** The output rule (mirrorfield.c:255-263): the byte at the exit slot,
      read before the roll, except on odd-numbered calls (the stored parity
      is still 0) when either slot holds its own index as its byte; then the
      input byte itself comes back. */
  lemma CryptOutput(n: nat, s: Cipher, ch: byte)
    requires WellFormed(n, s) && ch in s.table
    ensures var start := FindSlot(s.table, ch);
      var end := Exit(s.grid, n, start);
      Crypt(n, s, ch).0 == Some(
        if (s.table[start] as int == start || s.table[end] as int == end) && s.evenodd == 0 then ch
        else s.table[end])
  {
    CryptFound(n, s, ch);
    var start := FindSlot(s.table, ch);
    CryptFromOutput(n, s, start, (s.evenodd + 1) % 2);
    OutputParity(s.table, start, Exit(s.grid, n, start), s.evenodd);
  }

  lemma OutputParity(table: seq<byte>, start: int, end: int, evenodd: int)
    requires 0 <= start < |table| && 0 <= end < |table| && 0 <= evenodd <= 1
    ensures Output(table, start, end, (evenodd + 1) % 2) ==
      if (table[start] as int == start || table[end] as int == end) && evenodd == 0 then table[start]
      else table[end]
  {
  }

  /** Two states that differ at most in the order of the two remembered
      slots: the roll only asks whether a target is one of them. */
  predicate Equiv(a: Cipher, b: Cipher) {
    a.grid == b.grid && a.table == b.table && a.evenodd == b.evenodd &&
    {a.lastStart, a.lastEnd} == {b.lastStart, b.lastEnd}
  }

  /** Equivalent states answer alike and stay equivalent. */
  lemma CryptRespectsEquiv(n: nat, a: Cipher, b: Cipher, ch: byte)
    requires Shaped(n, a) && Equiv(a, b)
    ensures Shaped(n, b)
    ensures Crypt(n, a, ch).0 == Crypt(n, b, ch).0
    ensures Equiv(Crypt(n, a, ch).1, Crypt(n, b, ch).1)
  {
    if ch in a.table {
      CryptFound(n, a, ch);
      CryptFound(n, b, ch);
      var start := FindSlot(a.table, ch);
      var end := Exit(a.grid, n, start);
      RollMemoryUnordered(n, a.table, start, end, a.lastStart, a.lastEnd, b.lastStart, b.lastEnd);
    }
  }

  /** Entering at the exit slot instead of the entry slot, from the same
      state, ends in an equivalent state: the ray walks back over the same
      cells, and the roll does not depend on the order of the two slots. */
  lemma CryptFromReverses(n: nat, s: Cipher, start: int, end: int, parity: int)
    requires WellFormed(n, s) && 0 <= start < 4 * n && end == Exit(s.grid, n, start)
    ensures Exit(s.grid, n, end) == start
    ensures Equiv(CryptFrom(n, s, start, parity).1, CryptFrom(n, s, end, parity).1)
  {
    ExitReverses(s.grid, n, start);
    RollSymmetric(n, s.table, start, end, s.lastStart, s.lastEnd, s.lastStart, s.lastEnd);
    assert {start, end} == {end, start};
  }

  /** The round trip of mirrorfield.c:258 for one byte: from the same state,
      the primitive maps the ciphertext back to the plaintext, and both
      sessions end in equivalent states. */
  lemma CryptRoundTrip(n: nat, s: Cipher, ch: byte)
    requires WellFormed(n, s) && ch in s.table
    ensures var (c, s1) := Crypt(n, s, ch);
      c.Some? &&
      var (p, s2) := Crypt(n, s, c.value);
      p == Some(ch) && Equiv(s1, s2)
  {
    var parity := (s.evenodd + 1) % 2;
    CryptFound(n, s, ch);
    var start := FindSlot(s.table, ch);
    var end := Exit(s.grid, n, start);
    var c := Output(s.table, start, end, parity);
    CryptFromOutput(n, s, start, parity);
    if c != ch {
      assert c == s.table[end];
      assert FindSlot(s.table, c) == end;
      CryptFound(n, s, c);
      CryptFromReverses(n, s, start, end, parity);
      CryptFromOutput(n, s, end, parity);
      assert Output(s.table, end, start, parity) == ch;
    }
  }

  /** A stream processed byte by byte, stopping at the first byte outside
      the alphabet. */
  function CryptStream(n: nat, s: Cipher, input: seq<byte>): (r: (seq<byte>, Cipher))
    requires Shaped(n, s)
    decreases |input|
  {
    if input == [] then ([], s)
    else
      var (c, s1) := Crypt(n, s, input[0]);
      match c
      case None => ([], s1)
      case Some(b) =>
        var (rest, s2) := CryptStream(n, s1, input[1..]);
        ([b] + rest, s2)
  }

  /** One byte of a stream round trip: the byte is enciphered in one session
      and deciphered in an equivalent one; the sessions stay equivalent and
      keep their alphabet. */
  lemma RoundTripStep(n: nat, a: Cipher, b: Cipher, ch: byte) returns (c: byte, a1: Cipher, b1: Cipher)
    requires WellFormed(n, a) && Equiv(a, b) && ch in a.table
    ensures Shaped(n, b)
    ensures Crypt(n, a, ch) == (Some(c), a1) && Crypt(n, b, c) == (Some(ch), b1)
    ensures WellFormed(n, a1) && multiset(a1.table) == multiset(a.table) && Equiv(a1, b1)
  {
    CryptRoundTrip(n, a, ch);
    CryptKeepsWellFormed(n, a, ch);
    c := Crypt(n, a, ch).0.value;
    a1 := Crypt(n, a, ch).1;
    CryptRespectsEquiv(n, a, b, c);
    b1 := Crypt(n, b, c).1;
  }

  /** A stream whose first byte is accepted: its output starts with that
      byte's output and continues with the rest from the state it left. */
  lemma StreamCons(n: nat, s: Cipher, input: seq<byte>, c: byte, s1: Cipher)
    requires Shaped(n, s) && input != [] && Crypt(n, s, input[0]) == (Some(c), s1)
    ensures CryptStream(n, s, input).0 == [c] + CryptStream(n, s1, input[1..]).0
  {
  }

  /** The tail of a stream of alphabet bytes is in any permuted alphabet. */
  lemma TailInAlphabet(input: seq<byte>, t: seq<byte>, t': seq<byte>)
    requires input != [] && multiset(t') == multiset(t)
    requires forall i | 0 <= i < |input| :: input[i] in t
    ensures forall i | 0 <= i < |input[1..]| :: input[1..][i] in t'
  {
    forall i | 0 <= i < |input[1..]|
      ensures input[1..][i] in t'
    {
      assert input[1..][i] == input[i + 1];
      assert input[i + 1] in multiset(t);
    }
  }

  /** A round trip of the first byte and of the rest is a round trip of the
      whole stream. */
  lemma StreamRoundTripCons(n: nat, a: Cipher, b: Cipher, input: seq<byte>, c: byte, a1: Cipher, b1: Cipher)
    requires Shaped(n, a) && Shaped(n, b) && input != []
    requires Crypt(n, a, input[0]) == (Some(c), a1) && Crypt(n, b, c) == (Some(input[0]), b1)
    requires CryptStream(n, b1, CryptStream(n, a1, input[1..]).0).0 == input[1..]
    ensures CryptStream(n, b, CryptStream(n, a, input).0).0 == input
  {
    var rest := CryptStream(n, a1, input[1..]).0;
    StreamCons(n, a, input, c, a1);
    ConsParts(c, rest);
    StreamCons(n, b, [c] + rest, input[0], b1);
    ConsParts(input[0], input[1..]);
  }

  /** A sequence is its head followed by its tail. */
  lemma ConsParts(x: byte, s: seq<byte>)
    ensures ([x] + s)[0] == x && ([x] + s)[1..] == s
  {
  }

  lemma {:induction false} StreamRoundTripFrom(n: nat, a: Cipher, b: Cipher, input: seq<byte>)
    requires WellFormed(n, a) && Equiv(a, b)
    requires forall i | 0 <= i < |input| :: input[i] in a.table
    ensures Shaped(n, b)
    ensures CryptStream(n, b, CryptStream(n, a, input).0).0 == input
    decreases |input|
  {
    if input != [] {
      var c, a1, b1 := RoundTripStep(n, a, b, input[0]);
      TailInAlphabet(input, a.table, a1.table);
      StreamRoundTripFrom(n, a1, b1, input[1..]);
      StreamRoundTripCons(n, a, b, input, c, a1, b1);
    }
  }

  /** Encrypting a stream of alphabet bytes and decrypting the result from a
      copy of the same starting state gives the stream back. */
  lemma StreamRoundTrip(n: nat, s: Cipher, input: seq<byte>)
    requires WellFormed(n, s)
    requires forall i | 0 <= i < |input| :: input[i] in s.table
    ensures CryptStream(n, s, CryptStream(n, s, input).0).0 == input
  {
    StreamRoundTripFrom(n, s, s, input);
  }
}
