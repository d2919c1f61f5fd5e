# mrrcrypt mirror field, modelled in Dafny

mrrcrypt is a symmetric substitution cipher. Its key is a mirror field: an
n x n grid of mirrors plus a table of 4n distinct perimeter bytes. To
encipher a byte, a ray is sent into the field from that byte's perimeter
slot. It bounces off the mirrors and leaves at another slot. The byte at the
exit slot is the output, give or take one parity rule. Every mirror the ray
met turns one step, and the two perimeter bytes involved are "rolled" to new
slots. Deciphering runs the same primitive from the same starting state.

The project models `src/modules/mirrorfield.c` and `keyfile_shuffle_string`
from `src/modules/keyfile.c`:

- `util.dfy` (`Util`): bytes, `Option`, distinctness, and a pigeonhole lemma.
- `mirror_paths.dfy` (`MirrorPaths`): the geometry of one traversal, as pure
  functions over the grid as it stood when the call began.
  - Deflection, entry slots and exit slots.
  - Termination within 4n² steps.
  - Path reversibility: entering at the exit slot leads back out through the
    entry slot, over the same cells.
- `perimeter_roll.dfy` (`PerimeterRoll`): the roll of two perimeter bytes.
  - Target arithmetic and the collision-avoidance loop, which is proved to
    end within four moves.
  - Larger byte first.
  - The roll permutes the table and changes only four slots. For a table of
    distinct bytes it is also symmetric in its two slots.
- `field_load.dfy` (`FieldLoad`): the byte-at-a-time loader `mirrorfield_set`
  as a step function over (grid, table, counter), and the effect of loading a
  whole key.
- `cipher_spec.dfy` (`CipherSpec`): `mirrorfield_crypt_char` as a function
  `Crypt` on the whole cipher state, with these results:
  - well-formedness is preserved;
  - the output rule;
  - the round trip, for one byte and for a stream.
- `mirrorfield.dfy` (`MirrorField`): the C module itself as a class.
  - Its static arrays `grid` and `perimeterChars` are array fields.
  - Its static counters are variable fields.
  - GRID_SIZE is the constant `n`.
  - Each C function is a method with the same loops and branches, proved
    against the pure model above. The traversal loop's invariant is proved
    to keep each met mirror turned exactly once, whatever the number of
    visits (the unspin-on-revisit rule).
- `keyfile.dfy` (`KeyFile`): the in-place carry-and-displace shuffle over an
  array.
  - The `rand()` results are a parameter.
  - It is proved to be a permutation, to leave unchosen positions alone, and,
    for distinct rounds, to rotate the chosen positions.

The round trip is the claim at `mirrorfield.c:258`. It holds with one caveat.
After enciphering, the state remembers the slot pair (start, end). After
deciphering, it usually remembers (end, start). The exception is when the
parity rule at lines 259-263 returned the input byte itself: then the two
calls are identical and both remember (start, end). The roll only asks
whether a target is one of those slots, so in either case the two states
behave identically from then on (`CryptRespectsEquiv`). `StreamRoundTrip` proves that deciphering an
enciphered stream from a copy of the same well-formed starting state gives
the stream back.

Three behaviours of the C code are worth stating:

- **Unrecognised grid symbol.** A bad grid symbol is not fatal:
  `mirrorfield_set` returns 0 for that call, leaves the cell as it was and
  still advances its counter, so the next call fills the next cell
  (`LoadStep`, `LoadKey`).
- **Traversal length.** A traversal can meet more cells than the field is
  wide: in a 2x2 field the ray can meet all four cells (`LongTraversal`).
  The proved bound is 4n² steps (`ExitsGrid`).
- **Byte not in the table.** For a byte absent from the table,
  `mirrorfield_crypt_char` does not return. The lookup at lines 145-147
  reads only slots 0..4n-1 and stops at 4n without a match. None of the
  branches at lines 150-166 runs, so `r` and `c` are never set (undefined
  behaviour) and `direction` keeps its initial 0 (line 126). No case of the
  switch at lines 231-252 matches direction 0, so `endCharPos` stays -1 and
  the loop at line 169 never exits. The model returns `None` in place of
  that call and changes nothing else. The parity still toggles, because the code toggles
  it before the scan (line 134).

## Model

The table lists the members that carry a contract. The small helper
definitions `PerimeterRoll.Neighbour`, `Hop`, `Escape` and `Swap`,
`CipherSpec.Spin` and `Unspin`, and `MirrorPaths.Move` model single source
lines (mirrorfield.c:289-298, 302, 301-306, 313-315, 226, 184 and 231-252).
Their behaviour is stated by the lemmas that name them: `RollBase`,
`HopWraps`, `EscapeAvoids`, `SwapPermutes`, `UnspinSpin` and `EntryOfExit`.

| member | source | states |
|---|---|---|
| MirrorPaths.Deflect | src/modules/mirrorfield.c:188-222 | the deflection switch: FORWARD swaps Down/Left and Right/Up, BACKWARD swaps Down/Right and Left/Up; the ray changes direction exactly at these two mirrors and is never sent straight back |
| MirrorPaths.DeflectInvolutive | src/modules/mirrorfield.c:188-222 | meeting the same mirror twice restores the direction: each deflection is its own inverse |
| MirrorPaths.DeflectReversible | src/modules/mirrorfield.c:188-222 | a ray sent back along its outgoing direction leaves along the reverse of its incoming one |
| MirrorPaths.CellIndexRange | src/modules/mirrorfield.c:172 | the row-major index of an in-field cell lies in [0, n²) |
| MirrorPaths.StepOneCell | src/modules/mirrorfield.c:181-252 | one iteration of the loop (`Step`) deflects by the mirror under the ray and moves exactly one cell on, never straight back |
| MirrorPaths.ExitSlot | src/modules/mirrorfield.c:231-252 | the exit slot read off the leaving direction: top edge 0..n-1, right edge n..2n-1, left edge 2n..3n-1, bottom edge 3n..4n-1 |
| MirrorPaths.Entry | src/modules/mirrorfield.c:150-166 | every slot in [0, 4n) enters the field on an in-field cell of its edge |
| MirrorPaths.EntryOfExit | src/modules/mirrorfield.c:231-252 | a ray leaving the field gets an exit slot in [0, 4n), and that slot's entry is the cell just left, facing back in |
| MirrorPaths.ExitOfEntry | src/modules/mirrorfield.c:150-166 | backing out of a slot's entry cell leaves the field through that same slot |
| MirrorPaths.BackStep | src/modules/mirrorfield.c:169-253 | the (cell, direction) step is injective: the predecessor of a step is recovered |
| MirrorPaths.EntryHasNoPredecessor | src/modules/mirrorfield.c:150-166 | the ray entering at a slot has no in-field predecessor |
| MirrorPaths.ChainShort | src/modules/mirrorfield.c:169-253 | a walk whose first ray has no in-field predecessor never repeats a (cell, direction) state, so it has at most 4n² rays |
| MirrorPaths.ExitsGrid | src/modules/mirrorfield.c:169-253 | the traversal loop ends: from any slot the ray is out of the field within 4n² steps |
| MirrorPaths.Exit | src/modules/mirrorfield.c:169-253 | the exit slot of every traversal is one of the 4n slots |
| MirrorPaths.StepFlip | src/modules/mirrorfield.c:188-252 | from the flipped successor, one step lands on the flipped predecessor |
| MirrorPaths.Retrace | src/modules/mirrorfield.c:169-253 | a ray flipped at the end of a walk walks it backwards |
| MirrorPaths.ExitReverses | src/modules/mirrorfield.c:169-253 | the ray entering at the exit slot leaves at the entry slot and crosses exactly the same cells |
| MirrorPaths.LongTraversal | src/modules/mirrorfield.c:169-253 | in a 2x2 field the ray from slot 0 crosses 4 cells and leaves at slot 6 |
| PerimeterRoll.RollBase | src/modules/mirrorfield.c:289-298 | the first roll target (slot + its byte + neighbour's byte) mod 4n is a slot |
| PerimeterRoll.HopWraps | src/modules/mirrorfield.c:302 | one avoidance move adds n/2 and wraps round 4n at most once |
| PerimeterRoll.FiveHopsDistinct | src/modules/mirrorfield.c:301-306 | five successive avoidance positions are pairwise distinct for n >= 2 |
| PerimeterRoll.EscapeAvoids | src/modules/mirrorfield.c:300-306 | with at most four forbidden slots, four moves reach a slot that is not forbidden |
| PerimeterRoll.RollTarget | src/modules/mirrorfield.c:289-306 | a roll target is a slot and is none of the (at most four) avoided slots |
| PerimeterRoll.SwapPermutes | src/modules/mirrorfield.c:313-315 | a swap keeps the length and the multiset of bytes |
| PerimeterRoll.SwapDistinct | src/modules/mirrorfield.c:313-315 | a swap keeps the bytes pairwise distinct |
| PerimeterRoll.Roll | src/modules/mirrorfield.c:288-333 | `mirrorfield_roll_chars` on the table: both targets come from the table as it was, the larger byte's slot is swapped with its target first; the length is kept (its other properties are the lemmas below) |
| PerimeterRoll.RollPermutes | src/modules/mirrorfield.c:310-333 | the roll permutes the table, so a table of distinct bytes stays distinct |
| PerimeterRoll.RollFrame | src/modules/mirrorfield.c:300-333 | both targets avoid start, end and both remembered slots; no slot other than start, end and the two targets changes |
| PerimeterRoll.RollMemoryUnordered | src/modules/mirrorfield.c:300-306 | the roll depends on the remembered slots only as an unordered pair |
| PerimeterRoll.RollSymmetric | src/modules/mirrorfield.c:288-333 | for distinct bytes, exchanging start and end (and reordering the memory) gives the same table |
| PerimeterRoll.RollCollision | src/modules/mirrorfield.c:308-333 | when both slots share a target, the larger byte ends in the smaller byte's slot, the smaller on the target, and the target's byte in the larger byte's slot |
| FieldLoad.DecodeMirror | src/modules/mirrorfield.c:64-74 | exactly `/`, `\`, `-` and space decode, each to an orientation in 0..3 |
| FieldLoad.SymbolRoundTrip | src/modules/mirrorfield.c:64-74 | decoding and the drawing symbols of lines 387-394 are inverse on the four orientations |
| FieldLoad.RowMajorIndex | src/modules/mirrorfield.c:63 | the cell index computed for call i is i itself |
| FieldLoad.LoadStep | src/modules/mirrorfield.c:54-86 | the counter advances on every call. The first n² calls accept exactly the four symbols and write only cell i. The next 4n calls store the byte verbatim at slot i - n². Later calls are refused and change nothing. |
| FieldLoad.LoadStepGrid | src/modules/mirrorfield.c:59-76 | one call changes at most the grid cell at the new counter value |
| FieldLoad.LoadAllAccepts | src/modules/mirrorfield.c:54-86 | feeding bytes that fit in the key advances the counter once per byte, and all calls accept iff every byte aimed at a grid cell is a symbol |
| FieldLoad.LoadAllGrid | src/modules/mirrorfield.c:59-76 | cells in the window of the calls hold their decoded symbols (a refused symbol leaves the cell as it was); other cells are untouched |
| FieldLoad.LoadAllTable | src/modules/mirrorfield.c:78-83 | slots in the window of the calls hold their bytes verbatim; other slots are untouched |
| FieldLoad.LoadKey | src/modules/mirrorfield.c:54-86 | loading n² + 4n bytes from a fresh counter fills the grid in row-major order and the table with the last 4n bytes, and succeeds iff every grid symbol is valid |
| CipherSpec.FindSlot | src/modules/mirrorfield.c:145-147 | the result is the first slot holding the byte, or the table length iff the byte is absent |
| CipherSpec.UnspinSpin | src/modules/mirrorfield.c:184 | for the three real mirrors, unspinning undoes a spin (line 226) and a spin always changes the mirror |
| CipherSpec.SpinCells | src/modules/mirrorfield.c:181-228 | after a traversal, each met non-NONE cell has advanced one step; NONE and unmet cells are unchanged; values stay in 0..3 |
| CipherSpec.Marks | src/modules/mirrorfield.c:225-228 | the closed form that the traversal's visited array is proved equal to (`Traversing`, `Traverse`): a cell is marked iff the ray met it and it is not NONE |
| CipherSpec.MeetOneMore | src/modules/mirrorfield.c:181-228 | meeting one more cell marks it and spins it once, and changes nothing else |
| CipherSpec.CryptFrom | src/modules/mirrorfield.c:149-269 | a call on a found byte keeps the state's shape |
| CipherSpec.Crypt | src/modules/mirrorfield.c:123-270 | a call keeps the state's shape; its meaning is stated by the lemmas below |
| CipherSpec.CryptFound | src/modules/mirrorfield.c:144-166 | for a byte of the table, the lookup stops inside the table and the call traverses from that slot |
| CipherSpec.CryptKeepsWellFormed | src/modules/mirrorfield.c:131-134 | a call on a validated state keeps it validated with the same alphabet, flips the parity, and succeeds iff the byte is in the alphabet; the output is then in the alphabet |
| CipherSpec.Output | src/modules/mirrorfield.c:256-263 | the output rule: the result is the start or the exit slot's byte; it is the exit byte whenever the parity is 0 or neither slot holds its own index |
| CipherSpec.CryptFromOutput | src/modules/mirrorfield.c:255-263 | the output is chosen from the table before the roll |
| CipherSpec.OutputParity | src/modules/mirrorfield.c:259-263 | the start slot's byte comes back when the start or exit slot holds its own index and the stored parity was 0 (the toggled parity is 1); otherwise the exit byte comes back |
| CipherSpec.CryptOutput | src/modules/mirrorfield.c:255-263 | the output is the exit slot's byte read before the roll, except that when the start or exit slot holds its own index and the parity was 0 before the toggle, the input byte itself comes back |
| CipherSpec.CryptRespectsEquiv | src/modules/mirrorfield.c:300-306 | states differing only in the order of the remembered slots give the same output and stay so |
| CipherSpec.CryptFromReverses | src/modules/mirrorfield.c:169-339 | entering at the exit slot leads back to the entry slot and ends in an equivalent state |
| CipherSpec.CryptRoundTrip | src/modules/mirrorfield.c:258-263 | from the same state, the primitive maps the ciphertext byte back to the plaintext byte, and both sessions end equivalent |
| CipherSpec.RoundTripStep | src/modules/mirrorfield.c:258-263 | one byte enciphered in one session and deciphered in an equivalent one keeps the sessions equivalent and the alphabet unchanged |
| CipherSpec.StreamCons | src/modules/mirrorfield.c:123-270 | a stream's output starts with its first byte's output and continues from the state that call left |
| CipherSpec.StreamRoundTripCons | src/modules/mirrorfield.c:258-263 | a round trip of the first byte and of the rest is a round trip of the stream |
| CipherSpec.StreamRoundTripFrom | src/modules/mirrorfield.c:258-263 | deciphering from any equivalent state gives an enciphered alphabet stream back |
| CipherSpec.StreamRoundTrip | src/modules/mirrorfield.c:258-263 | enciphering a stream of alphabet bytes and deciphering the result from a copy of the same state gives the stream back |
| MirrorField.TraversingStart | src/modules/mirrorfield.c:129-137 | before the loop nothing is met, nothing is marked and the grid is as it was: the loop invariant holds |
| MirrorField.TraversingStep | src/modules/mirrorfield.c:169-253 | one iteration keeps the loop invariant, and a marked cell holds its spun orientation |
| MirrorField.MirrorField.constructor | src/modules/mirrorfield.c:32-33 | static storage starts zeroed (grid and table at lines 32-33), with the loader counter at -1 (line 55), the parity at 0 (line 131) and the remembered slots at -1 (lines 285-286); the grid is in 0..3 |
| MirrorField.MirrorField.Init | src/modules/mirrorfield.c:38-44 | every cell becomes FORWARD (0) and every perimeter byte 0; the grid is then in 0..3 |
| MirrorField.MirrorField.Set | src/modules/mirrorfield.c:54-86 | result and new grid, table and counter are those of `LoadStep`; parity and memory are unchanged; a grid in 0..3 stays in 0..3 |
| MirrorField.MirrorField.Validate | src/modules/mirrorfield.c:95-115 | returns true iff every cell is in 0..3 and the perimeter bytes are pairwise distinct; changes nothing |
| MirrorField.MirrorField.CryptChar | src/modules/mirrorfield.c:123-270 | result and new state are those of `Crypt`; grid values stay in 0..3; the loader counter is unchanged |
| MirrorField.MirrorField.CryptFromSlot | src/modules/mirrorfield.c:149-269 | output by the output rule on the pre-roll table; grid spun along the path; table rolled; memory set to (start, exit) |
| MirrorField.MirrorField.Traverse | src/modules/mirrorfield.c:149-253 | the loop ends at the model's exit slot, and every met mirror has spun exactly once, however often it was met |
| MirrorField.MirrorField.Iterate | src/modules/mirrorfield.c:171-252 | one loop iteration keeps the traversal invariant with the current ray added to the walk |
| MirrorField.MirrorField.Visit | src/modules/mirrorfield.c:181-228 | a revisited mirror is unspun first, so the ray deflects by the pre-call orientation; afterwards the cell is one step on from it and marked iff not NONE |
| MirrorField.MirrorField.Advance | src/modules/mirrorfield.c:231-252 | the ray moves one cell, and the exit slot is set exactly when it has left the field |
| MirrorField.MirrorField.RollChars | src/modules/mirrorfield.c:280-339 | the table becomes `Roll` of the old one and the memory becomes (start, end); parity and counter are unchanged |
| MirrorField.MirrorField.RollTargetOf | src/modules/mirrorfield.c:289-306 | the avoidance loop ends with `RollTarget`, a slot that is neither slot nor either remembered slot |
| KeyFile.Displacements | src/modules/keyfile.c:137-138 | when the draws settle every round there are exactly p round indices, each below the length and different from the reserved index |
| KeyFile.SingleCharNeverSettles | src/modules/keyfile.c:137-138 | for a one-character string no supply of draws settles a round: the retry loop never ends |
| KeyFile.DisplacementsHit | src/modules/keyfile.c:137-138 | a draw that misses the reserved index is the next round's index |
| KeyFile.DrawIndex | src/modules/keyfile.c:137-138 | the retry loop consumes draws until one misses the reserved index, and returns the next round's index |
| KeyFile.Carry | src/modules/keyfile.c:133-143 | the loop of rounds: each round puts the carried character at its index and picks up the one there; the length is kept |
| KeyFile.Shuffled | src/modules/keyfile.c:126-147 | the whole shuffle: carry the reserved character through the rounds, then store the last carried character at the reserved index; the length is kept |
| KeyFile.CarrySnoc | src/modules/keyfile.c:140-142 | one more round puts the carried character at its index and picks up the displaced one |
| KeyFile.CarryConserves | src/modules/keyfile.c:140-142 | string plus carried character keep the same multiset of characters |
| KeyFile.CarryFrame | src/modules/keyfile.c:140-142 | an index no round chose keeps its character |
| KeyFile.ShufflePermutes | src/modules/keyfile.c:126-147 | the shuffled string has the same length and the same multiset of characters |
| KeyFile.ShuffleUntouched | src/modules/keyfile.c:140-142 | an index that is neither reserved nor chosen keeps its character |
| KeyFile.ShuffleNoRounds | src/modules/keyfile.c:130-132 | with p = 0 the string is unchanged (line 144 writes the reserved character back) |
| KeyFile.CarryRotates | src/modules/keyfile.c:133-143 | with distinct rounds, each chosen index receives the previous one's character and the last displaced character is carried out |
| KeyFile.ShuffleRotates | src/modules/keyfile.c:126-147 | with distinct rounds, the shuffle rotates the characters along reserved -> rounds -> reserved |
| KeyFile.ShuffleString | src/modules/keyfile.c:126-147 | returns the same buffer, holding `Shuffled` of the old contents with the reserved index and rounds drawn from the supplied `rand()` results |

## Left out

- `mirrorfield_draw` (`mirrorfield.c:346-410`) is terminal output. Only its
  symbol table is used, in `SymbolRoundTrip`.
- The debug path of `mirrorfield_crypt_char` (`timespec`, draw, `fflush`,
  `nanosleep`) is presentation only and never touches cipher state.
- `keyfile_open`, `keyfile_create`, `keyfile_next_char` and `keyfile_close`
  are not modelled. They are file-system and environment I/O. Without them,
  a key that ends early is not modelled either.
- `srand`/`rand` are replaced by the `rands` parameter of
  `KeyFile.ShuffleString`. The base64 encoding of generated keys is a call
  into a module that is not part of this model.
- No claim of cryptographic strength is made; only functional behaviour and
  state invariants are.
- GRID_SIZE is defined in `main.h`, which is not part of this model. It is
  the constant `n`, with 2 <= n and 4n <= 256. Pure functions take it as a
  parameter.
- MirrorField.MirrorField.Set: does not model the overflow of the C `int`
  counter after 2^31 calls; the counter is an unbounded integer.
- MirrorField.MirrorField.CryptChar: requires every grid value to be in
  0..3. `mirrorfield_init` and `mirrorfield_set` only ever write those
  values, and the constructor, `Init`, `Set` and `CryptChar` are proved to
  keep the grid in range, so every reachable state meets this requirement.
  A grid holding another value, which only a direct write into the array
  could produce, is not modelled.
- MirrorField.MirrorField.CryptChar: a byte absent from the table is
  undefined behaviour in C: the coordinates are never set and the traversal
  loop never exits (see above).
  The model returns `None` after toggling the parity and changes nothing
  else.
- KeyFile.ShuffleString: requires a non-empty string. For an empty string
  the C divides by zero at `keyfile.c:130` (`rand() % strlen(str)`). The
  only caller, at `keyfile.c:108`, passes a copy of the constant character
  set `SUPPORTED_CHARS`, which is not empty (it is defined in `main.h`,
  which is not part of this model).
- CipherSpec.CryptKeepsWellFormed: the parity is stated per call (it flips).
  The resulting pattern over a whole stream, odd-numbered calls seeing
  parity 1, is left to repeated use of this lemma.
- KeyFile.ShuffleString: `p` is a natural number. A negative C `int`
  behaves like 0 rounds, which is the p = 0 case.
- KeyFile.ShuffleString: the string is the array's contents, with no NUL
  terminator, and `strlen` is the array length.
- KeyFile.ShuffleString: requires the supplied draws to be enough to settle
  every round. With `rand()` this holds almost surely for strings of two or
  more characters, and never for a one-character string with p > 0
  (`SingleCharNeverSettles`).
