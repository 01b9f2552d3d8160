# Verified models of Slurm's Hilbert curve, PMI and reporting code

Dafny 4.11 models of the algorithmic parts of this Slurm tree, with proofs of
what they are for:

- `contribs/skilling.c`: the transforms between the coordinates of a point in n
  dimensions and its transposed Hilbert index (`Bits`, `Hilbert`, `HilbertIndex`,
  `HilbertCurve`, `HilbertNesting`, and `HilbertRecursion` with a reference curve; the
  in-place array code is in `Skilling`).
- `contribs/pmi2/pmi2_api.c` and `pmi2_util.c`: the PMI-2 wire codec (`Pmi2Wire`
  and `Pmi2RoundTrip` for the format, `Pmi2Client` for the cursor loops over
  buffers, `Pmi2Bytes` for the bytes spelled out), the buffered line reader (`LineReader`) and the linked queue of
  pending commands (`PendingQueue`).
- `contribs/pmi/pmi.c`: the PMI-1 key-value spaces of one process (`Kvs` for what
  an operation does to a table, `KvsProcess` for the parallel arrays and loops),
  their iterators (`KvsIterator`), several ranks sharing them through the server
  of `src/api/pmi_server.c` (`KvsProtocol`, `KvsRefinement`, `KvsPrivacy`,
  `KvsCopies`), and the argument splitter (`PmiArgs`).
- `src/api/cluster_report_functions.c`: the grouping of usage into report rows
  (`UsageReport`), and which rows there are (`UsageRows`).
- `tools/gitlint_rules.py`: the commit trailer splitter (`Trailers`).

Code that works in place is an imperative method here too; each such method is
proved equal to a function of its input or of the old state, and the theorems are
about those functions. Where the source goes on behind the end of an array, C
does not define what it does; the model stops there with an outcome of its own
(`Overrun`, `LeftRecord`, `OutOfBlock`, `Overflowed`), and so it does where the
source follows a pointer that nothing assigned (`UnsetTarget`, `UnsetSlot`). A
theorem says exactly when that happens. `dafny verify dfyconfig.toml` checks everything.

The central theorems:

- Hilbert: `HilbertCurve.CurveMovesOneUnit` (successive indices are points one
  unit apart), `PointOfInteger` and `IntegerOfPoint` (a bijection of the cube onto
  the index range), `HilbertNesting.BlocksAreSubcubes` (aligned blocks of indices
  are aligned subcubes), and `HilbertRecursion.PointIsOnCurve` (the transforms compute
  the reference curve, which is defined by recursion from the bits of the index
  alone), for every number of dimensions and bits.
- PMI-2: `Pmi2Client.Converse` over any split into short reads and writes, resting
  on `Pmi2RoundTrip.StreamRoundTrip`; for every buffer, `FirstPassCoversSecond` and
  `ReachesCallerIff`, which says when a caller gets the command in it. On the wire,
  `Pmi2Bytes.FrameBytes`, and `DecodesRaw` with `AcceptedIsRaw`: exactly which bodies
  are accepted, and as what.
  `LineReader.ReadLines` over every run of reads, read errors included.
- PMI-1, over every run of every number of ranks:
  `KvsProtocol.PutsBeforeBarrierAreVisible`, `KvsPrivacy.PutIsInvisibleUntilCommit`,
  and `KvsRefinement.TableRefinesMap`, which says what `PMI_KVS_Get` returns at any
  rank in any state.
- Reports: `UsageReport.ReportsAreExact` for the sums, and `UsageRows.ReportLabels`,
  `ReportUserRows` and `ReportWckeyRows` for the rows.
- Trailers: `Trailers.SplitDivides` and `DivisionIsUnique` (the items are the one
  proper division of the body, and a repeat), `FlattenSplit`.

Where the code differs from what its comments or names suggest, the model follows
the code and states exactly when the expected property holds:

- `SEARCH_REMOVE` never advances `prev`, so it drops the items between the head
  and the match: `PendingQueue.RemoveIsExactIff`, `RemoveDropsBetween`.
- `PMIi_WriteSimpleCommand` checks the room for a key, but not for a value, its `;`
  or the final zero, so it can store behind `cmdbuf`:
  `Pmi2Client.OverrunIff`, `ChecksSufficeIff`, `LongMessageOverruns`.
- `PMIi_ReadCommand` stores the zero that should end `command` in the buffer it was
  copied from, and does not keep the length: what `PMIi_ReadCommandExp` makes of
  it can depend on a byte that nothing assigned. The comparison takes any extension
  of the expected string, and for a command that the expected string extends, such
  as a request name checked against its response name, it may pass, fail or go on
  behind the block: `Pmi2RoundTrip.LeftoverIsHarmlessIff`, `CheckIsExactIff`,
  `LeftoverDecides`.
- The first pass over a command counts a `;` inside a key too, and then the array of
  pairs is longer than what is stored in it: `Pmi2RoundTrip.ArrayIsFilledIff`. The
  lookup of `thrid` goes through the whole array and follows the pointers that were
  never assigned: `Pmi2RoundTrip.HandoverIs`, `SplitNameIsFollowed`.
- `PMIi_ReadCommand` looks for a `thrid` in builds without threads too. A command that
  has one is stored elsewhere; if its value does not convert to a pointer, it is
  stored through one that is left over from the frame before, or was never assigned:
  `Pmi2RoundTrip.ReachesCallerIff`, `ThridIsFollowed`.
- `PMIi_WriteSimpleCommand` escapes values, but neither the command name nor the keys:
  `Pmi2RoundTrip.NameSurvivesIffNoSemicolon`, `SemicolonSplitsName`, `KeysSurviveIff`.
- `PMI_KVS_Get` compares the length of the value with `length - 1` as unsigned numbers,
  so with a length of zero or less it reports success for any value:
  `KvsProcess.Process.KvsGet`.
- `_kvs_put` takes the first record of a name even if it was destroyed, `PMI_KVS_Get` the
  first that was not: `Kvs.GetAfterPut`, `PutIsLost`.
- The inner loop of `PMI_KVS_Iter_first` tests the record index instead of the
  position. It skips records and runs out of others:
  `KvsIterator.Iterator.Iterate`, `SecondRecordIsMissed`, `LeavesRecordIff`,
  `KvsCopies.OwnPutIsDisabled`.
- The index of an iteration has 16 bits. With a pair to return behind position 65534,
  an iteration starts over and does not end: `KvsIterator.NeverEnds`.
- `_kvs_disable_local_keys` is there so that an iteration returns no duplicates. With
  a search for duplicate keys a rank's own keys stay DISABLED and are never
  returned; without it every further commit adds a copy:
  `KvsCopies.EachKeyOnceIff`, `SecondCommitDuplicates`.
- `pull_non_trailer` lacks the `else` of the loop in `from_lines`, so a last
  section can give its last line back: `Trailers.FlattenSplit`, `RepeatedLastLine`.
- The parent row of a wckey also gets usage of entries that have no user, and
  those get no user row: `UsageReport.ParentIsSumOfUsersIff`, `UsageWithoutUser`.

## Model

| member | source | states |
|---|---|---|
| `HilbertCurve.CurveMovesOneUnit` | iso-workspace/slurm-src/contribs/skilling.c:37-61 | Hilbert adjacency: for all n and b and every h with h+1 < 2^(n*b), the points of h and h+1 differ along exactly one axis, and there by exactly 1 |
| `HilbertCurve.ConsecutiveTransposesAreNeighbours` | iso-workspace/slurm-src/contribs/skilling.c:37-61 | the same for any two transposed indices whose interleaved integers are consecutive |
| `HilbertCurve.TwistKeepsNeighbours` | iso-workspace/slurm-src/contribs/skilling.c:57-58 | an invert or exchange step is an isometry of the low-bit subcube: neighbours below level k stay neighbours below level k |
| `HilbertCurve.PivotLevel` | iso-workspace/slurm-src/contribs/skilling.c:52-60 | the level at which two Gray codes differ turns a single differing bit into points one unit apart |
| `HilbertCurve.GrayBit` | iso-workspace/slurm-src/contribs/skilling.c:45-49 | the word-wise decode is H ^ (H/2) on the interleaved bits |
| `HilbertCurve.GrayOfIncrement` | iso-workspace/slurm-src/contribs/skilling.c:45-49 | Gray codes of consecutive indices differ in one bit and read 1,0,...,0 below it |
| `HilbertCurve.PointOfInteger` | iso-workspace/slurm-src/contribs/skilling.c:62-113 | the Hilbert integer of a point of the cube is below 2^(n*b), and determines the point |
| `HilbertCurve.IntegerOfPoint` | iso-workspace/slurm-src/contribs/skilling.c:62-113 | every integer below 2^(n*b) is the Hilbert integer of a point of the cube; with the previous row, a bijection |
| `HilbertRecursion.PointIsOnCurve` | iso-workspace/slurm-src/contribs/skilling.c:37-113 | for all n, b and h below 2^(n*b), the point of h is that of the reference curve: n leading bits select a subcube by Gray code, and the rest runs through it along the curve of b-1 bits with axes exchanged and mirrored in closed form |
| `HilbertRecursion.CurveIsSelfSimilar` | iso-workspace/slurm-src/contribs/skilling.c:51-60 | one step of that recursion, coordinate by coordinate |
| `HilbertRecursion.SubcubeOrder` | iso-workspace/slurm-src/contribs/skilling.c:45-60 | the top bit of coordinate a is the exclusive or of the bits n*b-1-a and n*b-a of the index |
| `HilbertRecursion.SubcubeEnds` | iso-workspace/slurm-src/contribs/skilling.c:51-60 | at which corner each of the 2^n subcubes is entered and left: the coordinates of the first and the last index of its block |
| `HilbertRecursion.AxesAreOnCurve` | iso-workspace/slurm-src/contribs/skilling.c:37-61 | TransposetoAxes gives the point of the reference curve at the interleaved index |
| `HilbertRecursion.TransposedIsOnCurve` | iso-workspace/slurm-src/contribs/skilling.c:62-89 | AxestoTranspose gives the only index at which the reference curve comes to the point |
| `HilbertNesting.TransposedNests` | iso-workspace/slurm-src/contribs/skilling.c:62-89 | for k < b, shifting every word of the transposed index by k is transposing the point shifted by k with b-k bits |
| `HilbertNesting.HilbertIntegerNests` | iso-workspace/slurm-src/contribs/skilling.c:62-113 | dropping n*k low bits of the Hilbert integer gives the integer of the enclosing subcube of side 2^k |
| `HilbertNesting.BlocksAreSubcubes` | iso-workspace/slurm-src/contribs/skilling.c:62-113 | two points have indices in the same aligned block of 2^(n*k) if and only if their coordinates divided by 2^k agree, i.e. they share an aligned subcube of side 2^k |
| `HilbertNesting.CurveStartsAtOrigin` | iso-workspace/slurm-src/contribs/skilling.c:37-61 | index 0 is the origin |
| `HilbertNesting.CurveEndsAtCorner` | iso-workspace/slurm-src/contribs/skilling.c:37-61 | the last index is the far corner of axis 0 |
| `Hilbert.TwistIsInvolution` | iso-workspace/slurm-src/contribs/skilling.c:57-58 | a step undoes itself, because it never changes the bit that controls it |
| `Hilbert.AxesOfTransposed` | iso-workspace/slurm-src/contribs/skilling.c:37-89 | TransposetoAxes after AxestoTranspose is the identity |
| `Hilbert.TransposedOfAxes` | iso-workspace/slurm-src/contribs/skilling.c:37-89 | AxestoTranspose after TransposetoAxes is the identity |
| `Hilbert.AxesInCube` | iso-workspace/slurm-src/contribs/skilling.c:37-61 | words stay below 2^b |
| `Hilbert.TransposedInCube` | iso-workspace/slurm-src/contribs/skilling.c:62-89 | words stay below 2^b |
| `Hilbert.EncodeDecode` | iso-workspace/slurm-src/contribs/skilling.c:80-88 | the Gray encode undoes the Gray decode |
| `Hilbert.DecodeEncode` | iso-workspace/slurm-src/contribs/skilling.c:80-88 | the Gray decode undoes the Gray encode |
| `HilbertIndex.IndexOfSpread` | iso-workspace/slurm-src/contribs/skilling.c:109-113 | interleaving the words that an integer spreads to gives the integer back |
| `HilbertIndex.SpreadOfIndex` | iso-workspace/slurm-src/contribs/skilling.c:109-113 | spreading an interleaved integer gives the words back |
| `HilbertIndex.InterleavedBit` | iso-workspace/slurm-src/contribs/skilling.c:109-113 | bit level*n + (n-1-axis) of the interleaved integer is bit level of word axis |
| `HilbertIndex.SampleProgramIndex` | iso-workspace/slurm-src/contribs/skilling.c:109-113 | for 5 bits and 3 dimensions the interleave is the sum written out in the sample program |
| `Skilling.Step` | iso-workspace/slurm-src/contribs/skilling.c:57-59 | the mask arithmetic on two words inverts or exchanges exactly the low bits, in place, and stays below 2^b |
| `Skilling.UndoLevel` | iso-workspace/slurm-src/contribs/skilling.c:55-59 | one level runs the steps on axes n-1 down to 0 |
| `Skilling.UndoExcessWork` | iso-workspace/slurm-src/contribs/skilling.c:51-60 | levels 1 to b-1 ascending, within the cube; for 32 bits the loop ends because both powers wrap to zero |
| `Skilling.GrayDecodeInPlace` | iso-workspace/slurm-src/contribs/skilling.c:45-49 | the loop overwrites X with its Gray code although each word is read after its successor is written |
| `Skilling.TransposeToAxes` | iso-workspace/slurm-src/contribs/skilling.c:37-61 | for 1 to 32 bits the array becomes the point of the transposed index, within the cube, and that is the point of the reference curve at the interleaved index |
| `Skilling.RedoLevel` | iso-workspace/slurm-src/contribs/skilling.c:73-77 | one level runs the steps on axes 0 to n-1 |
| `Skilling.AxesToTranspose` | iso-workspace/slurm-src/contribs/skilling.c:62-89 | for 1 to 32 bits the array becomes the transposed index of the point, within the cube, at which the reference curve comes to the point |
| `Skilling.DoublingScan` | iso-workspace/slurm-src/contribs/skilling.c:84-85 | the shift loop with i = 1, 2, 4, ... computes the bit-by-bit prefix exclusive or, for every b |
| `Skilling.CorrectionIsHalf` | iso-workspace/slurm-src/contribs/skilling.c:83-86 | the correction t is the scanned word shifted right by one |
| `Skilling.GrayEncodeInPlace` | iso-workspace/slurm-src/contribs/skilling.c:80-88 | the three loops overwrite X with its Gray encoding |
| `Skilling.SampleProgram` | iso-workspace/slurm-src/contribs/skilling.c:94-113 | the printed integer is the Hilbert integer of the position, and the reference curve comes to the position there |
| `Pmi2RoundTrip.LengthFieldDecodes` | iso-workspace/slurm-src/contribs/pmi2/pmi2_api.c:1634-1642 | atoi of the space-padded six-character field is the body length |
| `Pmi2RoundTrip.BodyRoundTrip` | iso-workspace/slurm-src/contribs/pmi2/pmi2_api.c:1560-1642 | parsing a written body gives back the name in front of one byte that nothing assigned, the same pairs in order with arbitrary value bytes, and the right count |
| `Pmi2RoundTrip.NameSurvivesIffNoSemicolon` | iso-workspace/slurm-src/contribs/pmi2/pmi2_api.c:1591-1591 | the unescaped command name is read back if and only if it holds no `;` |
| `Pmi2RoundTrip.SemicolonSplitsName` | iso-workspace/slurm-src/contribs/pmi2/pmi2_api.c:1591-1591 | the command "a;b" with the pair k=v is decoded as "a" with the pair "b;k"=v, in an array of two of which one is stored; what becomes of it is in SplitNameIsFollowed |
| `Pmi2RoundTrip.KeysSurviveIff` | iso-workspace/slurm-src/contribs/pmi2/pmi2_api.c:1607-1632 | a message within the limits is decoded to the same name, pairs and count if and only if no key holds a `=`, starts with `;` or holds a `;` that is not doubled |
| `Pmi2RoundTrip.LeftoverIsHarmlessIff` | iso-workspace/slurm-src/contribs/pmi2/pmi2_api.c:1460-1463 | comparing the stored command with an expected string has the same outcome for every unassigned byte behind the name if and only if the string is no longer than the name or differs within it |
| `Pmi2RoundTrip.CheckIsExactIff` | iso-workspace/slurm-src/contribs/pmi2/pmi2_api.c:1542-1542 | the check takes the expected command and rejects any other, without leaving the block and whatever the unassigned byte, if and only if the two are equal or neither is an extension of the other |
| `Pmi2RoundTrip.LeftoverDecides` | iso-workspace/slurm-src/contribs/pmi2/pmi2_api.c:1542-1542 | "a" passes for "ab" or not, depending on the byte behind it; checked against "abk" it is rejected or the comparison leaves the block; "ab" always passes for "a" |
| `Pmi2RoundTrip.ScanEscaped` | iso-workspace/slurm-src/contribs/pmi2/pmi2_api.c:1286-1307 | an escaped value is read up to its own terminator and comes out unescaped |
| `Pmi2RoundTrip.ScannedIsEscaped` | iso-workspace/slurm-src/contribs/pmi2/pmi2_api.c:1286-1307 | conversely, any accepted value, escaped again, is what was in the buffer |
| `Pmi2RoundTrip.FrameRoundTrip` | iso-workspace/slurm-src/contribs/pmi2/pmi2_api.c:1394-1500 | a frame without a thrid, in front of any bytes, is read back and stored for the caller, and takes six bytes plus the decoded length |
| `Pmi2RoundTrip.StreamRoundTrip` | iso-workspace/slurm-src/contribs/pmi2/pmi2_api.c:1394-1500 | repeated reads recover exactly the sequence of commands written, each for its caller |
| `Pmi2RoundTrip.FirstPassCoversSecond` | iso-workspace/slurm-src/contribs/pmi2/pmi2_api.c:1433-1483 | for every buffer the first pass counts at least as many pairs as parse_keyval calls succeed |
| `Pmi2RoundTrip.PairsFitTheirArray` | iso-workspace/slurm-src/contribs/pmi2/pmi2_api.c:1465-1483 | an accepted command never holds more pairs than its array of nPairs |
| `Pmi2RoundTrip.ArrayIsFilledIff` | iso-workspace/slurm-src/contribs/pmi2/pmi2_api.c:1433-1483 | the two passes agree, and the array of an accepted command is filled, if and only if no key holds a `;` that is not doubled |
| `Pmi2Bytes.DecodesRaw` | iso-workspace/slurm-src/contribs/pmi2/pmi2_api.c:1433-1483 | a body of pairs within the limits, whose keys hold no "=" and do not start with ";", is accepted exactly if the first key is "cmd" as a C string; then the name, the pairs with keys cut at a zero, and the count with its excess |
| `Pmi2Bytes.AcceptedIsRaw` | iso-workspace/slurm-src/contribs/pmi2/pmi2_api.c:1433-1483 | conversely, every body that is accepted is such a body |
| `Pmi2Bytes.AtoiIs` | iso-workspace/slurm-src/contribs/pmi2/pmi2_api.c:1410-1410 | the length: white space, a sign or none, then the digits |
| `Pmi2Bytes.AfterFrameIs` | iso-workspace/slurm-src/contribs/pmi2/pmi2_api.c:1397-1429 | for every stream, how many bytes a read takes, and what it decodes |
| `Pmi2RoundTrip.GetValIs` | iso-workspace/slurm-src/contribs/pmi2/pmi2_api.c:1162-1173 | getval gives the value of the first stored pair with the key; if there is none, it reports that, or follows an unassigned pointer exactly if the array is not filled |
| `Pmi2RoundTrip.AddresseeIs` | iso-workspace/slurm-src/contribs/pmi2/pmi2_api.c:1207-1224 | the address is what sscanf makes of the value of the first pair with the key "thrid", up to a zero; none for an empty value |
| `Pmi2RoundTrip.HandoverIs` | iso-workspace/slurm-src/contribs/pmi2/pmi2_api.c:1485-1500 | for every body: it is rejected, stored for the caller, stored at the address in its first thrid or where the previous frame went, or the reader follows an unassigned slot or target |
| `Pmi2RoundTrip.ReachesCallerIff` | iso-workspace/slurm-src/contribs/pmi2/pmi2_api.c:1485-1500 | for every body, the command reaches the caller if and only if it decodes and either no pair is a thrid and no key holds an undoubled `;`, or the first thrid is the address of the caller |
| `Pmi2RoundTrip.ThridIsFollowed` | iso-workspace/slurm-src/contribs/pmi2/pmi2_api.c:1485-1500 | the command "a" with the pair thrid=v decodes, and is stored through a target that nothing assigned |
| `Pmi2RoundTrip.SplitNameIsFollowed` | iso-workspace/slurm-src/contribs/pmi2/pmi2_api.c:1162-1173 | for the command "a;b" with the pair k=v the lookup follows the unassigned second slot |
| `Pmi2Client.Fill` | iso-workspace/slurm-src/contribs/pmi2/pmi2_api.c:1397-1429 | whatever the read sizes, exactly n bytes of the stream are taken, and it fails only if there are fewer |
| `Pmi2Client.CountInBuffer` | iso-workspace/slurm-src/contribs/pmi2/pmi2_api.c:1433-1451 | the counting loop computes the number of undoubled `;`, plus one for an unfinished end |
| `Pmi2Client.UnescapeInPlace` | iso-workspace/slurm-src/contribs/pmi2/pmi2_api.c:1286-1300 | the write cursor never passes the read cursor, what is left is the unescaped original, and everything from the terminator on is unchanged |
| `Pmi2Client.ParseValue` | iso-workspace/slurm-src/contribs/pmi2/pmi2_api.c:1286-1304 | the value is accepted exactly if it is terminated and within the limit |
| `Pmi2Client.ParseKeyval` | iso-workspace/slurm-src/contribs/pmi2/pmi2_api.c:1264-1314 | succeeds exactly on a well-formed item, leaves key and value in the buffer, and touches nothing outside it |
| `Pmi2Client.NextPair` | iso-workspace/slurm-src/contribs/pmi2/pmi2_api.c:1316-1349 | the copied pair is the parsed one |
| `Pmi2Client.StoreNextPair` | iso-workspace/slurm-src/contribs/pmi2/pmi2_api.c:1471-1483 | the store to pairs[pair_index] is always in range |
| `Pmi2Client.ParseIntoArray` | iso-workspace/slurm-src/contribs/pmi2/pmi2_api.c:1467-1483 | the second pass over a buffer that it rewrites gives what a pure parse of the original bytes gives |
| `Pmi2Client.CopyCommand` | iso-workspace/slurm-src/contribs/pmi2/pmi2_api.c:1460-1463 | the block holds the name and one byte of unknown content |
| `Pmi2Client.DecodeBuffer` | iso-workspace/slurm-src/contribs/pmi2/pmi2_api.c:1433-1483 | the two passes over the buffer assemble exactly the command that a pure parse of the bytes gives, or fail when it does |
| `Pmi2Client.ReadOne` | iso-workspace/slurm-src/contribs/pmi2/pmi2_api.c:1394-1483 | one frame is taken from the stream and decoded as the specification says, also on failure |
| `Pmi2Client.FindThrid` | iso-workspace/slurm-src/contribs/pmi2/pmi2_api.c:1162-1173 | the search loop over the array is the specified lookup, unassigned slots included |
| `Pmi2Client.ChooseTarget` | iso-workspace/slurm-src/contribs/pmi2/pmi2_api.c:1485-1500 | the target of a command, for every command, previous target and conversion |
| `Pmi2Client.ReadCommand` | iso-workspace/slurm-src/contribs/pmi2/pmi2_api.c:1354-1500 | whatever the read sizes, frames that go to others are stored there in order, each taken as the one-frame specification says, until one fails, follows an unassigned pointer or is for the caller; exactly those frames are consumed |
| `Pmi2Client.CheckCommand` | iso-workspace/slurm-src/contribs/pmi2/pmi2_api.c:1542-1542 | the loop reads the block while the two agree, and says so when it leaves it |
| `Pmi2Client.PutEscaped` | iso-workspace/slurm-src/contribs/pmi2/pmi2_api.c:1615-1626 | the loop appends the value with every `;` doubled, or leaves the buffer exactly if that does not fit |
| `Pmi2Client.PutPair` | iso-workspace/slurm-src/contribs/pmi2/pmi2_api.c:1607-1632 | one pair is appended behind what is there, or the buffer is left exactly if it does not fit |
| `Pmi2Client.SendFrame` | iso-workspace/slurm-src/contribs/pmi2/pmi2_api.c:1634-1674 | the length is stored over the blanks and exactly one frame is sent |
| `Pmi2Client.WriteOut` | iso-workspace/slurm-src/contribs/pmi2/pmi2_api.c:1665-1674 | the bytes go out once and in order, whatever the write sizes |
| `Pmi2Client.WriteSimpleCommand` | iso-workspace/slurm-src/contribs/pmi2/pmi2_api.c:1560-1691 | for every command and pairs, the status is the one of WriteStatusIs; on success exactly one frame is sent, otherwise nothing |
| `Pmi2Bytes.WriteStatusIs` | iso-workspace/slurm-src/contribs/pmi2/pmi2_api.c:1560-1646 | for every message, the status in numbers: 1024 bytes of name, 64 of key, 1024 of value, 65536 of buffer, which fault is found first, and success exactly if there is none |
| `Pmi2Bytes.FrameBytes` | iso-workspace/slurm-src/contribs/pmi2/pmi2_api.c:1591-1642 | behind its first six bytes a frame is "cmd=", the name, ";" and the pairs, byte by byte |
| `Pmi2Bytes.PairOnWire` | iso-workspace/slurm-src/contribs/pmi2/pmi2_api.c:1607-1632 | each pair stands in its place as key, "=", escaped value and ";" |
| `Pmi2Bytes.EscapedAt` | iso-workspace/slurm-src/contribs/pmi2/pmi2_api.c:1617-1626 | an escaped value is longer by its number of ";", and each byte stands at the position that gives, a ";" twice |
| `Pmi2Bytes.LengthFieldIs` | iso-workspace/slurm-src/contribs/pmi2/pmi2_api.c:1634-1642 | the six bytes in front are the decimal digits of the length, without leading zeros, and blanks |
| `Pmi2Client.OverrunIff` | iso-workspace/slurm-src/contribs/pmi2/pmi2_api.c:1607-1644 | for every input, a store leaves cmdbuf if and only if up to some pair everything is within the limits, its key fits and its value does not, or all pairs just fill the buffer |
| `Pmi2Client.ChecksSufficeIff` | iso-workspace/slurm-src/contribs/pmi2/pmi2_api.c:1607-1644 | when all checks of the source pass, no store leaves cmdbuf if and only if the frame and its final zero fit into PMII_MAX_COMMAND_LEN |
| `Pmi2Client.LongMessageOverruns` | iso-workspace/slurm-src/contribs/pmi2/pmi2_api.c:1607-1632 | 64 pairs of 1024 plain bytes pass every check and leave the buffer |
| `Pmi2Client.Converse` | iso-workspace/slurm-src/contribs/pmi2/pmi2_api.c:1354-1691 | any sequence of commands without a thrid, written to one descriptor and read back over any short reads and writes, arrives at the caller in order, each with its name, its pairs and their number |
| `LineReader.Reader.Readline` | iso-workspace/slurm-src/contribs/pmi2/pmi2_util.c:53-105 | what is returned plus what is unread is what was unread before; without a read error it is the line at the front of the stream, independent of the read sizes |
| `LineReader.Reader.ReadInto` | iso-workspace/slurm-src/contribs/pmi2/pmi2_util.c:66-96 | the loop stops after a newline, at the limit, or when the descriptor gives nothing more |
| `LineReader.Reader.Refill` | iso-workspace/slurm-src/contribs/pmi2/pmi2_util.c:69-89 | refilling the buffer loses and repeats nothing |
| `LineReader.LineShape` | iso-workspace/slurm-src/contribs/pmi2/pmi2_util.c:53-105 | a line holds a newline at its end only, and ends there, at maxlen-1 bytes or at the end of input |
| `LineReader.LineIsFront` | iso-workspace/slurm-src/contribs/pmi2/pmi2_util.c:53-105 | the line is the longest front of the stream of at most maxlen-1 bytes with a newline at most at its end |
| `LineReader.ReadLines` | iso-workspace/slurm-src/contribs/pmi2/pmi2_util.c:53-105 | over any run of calls, any read sizes and any read errors, the strings returned and what is unread together are what was unread before; each string ends at its first newline, at maxlen-1, at the end of input or at an error |
| `LineReader.RunWithoutErrors` | iso-workspace/slurm-src/contribs/pmi2/pmi2_util.c:53-105 | a run without read errors returns the lines of the stream, however the bytes came in |
| `LineReader.LinesArePrefix` | iso-workspace/slurm-src/contribs/pmi2/pmi2_util.c:53-105 | over every run, errors included, the strings joined together are a prefix of the stream |
| `PendingQueue.Queue.Enqueue` | iso-workspace/slurm-src/contribs/pmi2/pmi2_api.c:140-153 | the command is appended; head and tail stay null together and tail stays the last item that can be reached |
| `PendingQueue.Queue.SearchRemove` | iso-workspace/slurm-src/contribs/pmi2/pmi2_api.c:155-181 | reports whether the command was there; a first match at position k >= 1 leaves q[0] and q[k+1..]; the links stay well formed |
| `PendingQueue.AfterRemoveIs` | iso-workspace/slurm-src/contribs/pmi2/pmi2_api.c:155-181 | a first match at position 0 takes the head, one at position k takes 1 to k, none takes nothing |
| `PendingQueue.RemoveIsExactIff` | iso-workspace/slurm-src/contribs/pmi2/pmi2_api.c:155-181 | exactly the first match goes if and only if it is at position 0 or 1, or there is none |
| `PendingQueue.RemoveDropsBetween` | iso-workspace/slurm-src/contribs/pmi2/pmi2_api.c:168-178 | a queue on which more is lost |
| `Kvs.CommitPartitions` | iso-workspace/slurm-src/contribs/pmi/pmi.c:1266-1277 | after the swap loop the first local_pairs entries are the non-GLOBAL ones in their original order, the rest are GLOBAL, and triples are only permuted |
| `Kvs.CommitSpaceIs` | iso-workspace/slurm-src/contribs/pmi/pmi.c:1266-1305 | where every entry of a record goes: those not GLOBAL to the front in their order, as they are sent, the GLOBAL ones rotated by the swaps; a defunct record is left alone |
| `Kvs.CommitIs` | iso-workspace/slurm-src/contribs/pmi/pmi.c:1230-1305 | every record on its own, and the message holds them in order |
| `Kvs.BarrierIs` | iso-workspace/slurm-src/contribs/pmi/pmi.c:691-707 | every LOCAL key is disabled, then the pairs of the reply are put in order |
| `Kvs.CommitTwice` | iso-workspace/slurm-src/contribs/pmi/pmi.c:1266-1277 | a second pass changes nothing and finds the same number |
| `Kvs.CommitTableTwice` | iso-workspace/slurm-src/contribs/pmi/pmi.c:1266-1305 | a second commit leaves all records as they are |
| `Kvs.SentTwice` | iso-workspace/slurm-src/contribs/pmi/pmi.c:1266-1305 | ... and sends the same pairs |
| `Kvs.GetAfterPut` | iso-workspace/slurm-src/contribs/pmi/pmi.c:1136-1212 | for every table, what the next Get of that name and key gives after a put: the value, if the first record of the name is live and either holds no copy of the key or duplicates are searched for; otherwise what it gave before |
| `Kvs.GetIs` | iso-workspace/slurm-src/contribs/pmi/pmi.c:1364-1405 | for every table: no live record of the name, no copy of the key in the first of them, or the value of its first copy |
| `Kvs.PutEntryIs` | iso-workspace/slurm-src/contribs/pmi/pmi.c:1155-1200 | the first copy is replaced, or a pair appended, and nothing else changes; a local put leaves LOCAL, one from the server keeps the state of a copy and makes a new one GLOBAL |
| `Kvs.PutIs` | iso-workspace/slurm-src/contribs/pmi/pmi.c:1136-1212 | only the first record of the name changes, and only its pairs |
| `Kvs.GetOfOther` | iso-workspace/slurm-src/contribs/pmi/pmi.c:1136-1212 | a put changes nothing that is found under another key or name |
| `Kvs.PutIsLost` | iso-workspace/slurm-src/contribs/pmi/pmi.c:1136-1212 | a destroyed record in front of a live one of the same name: the put succeeds and the next Get does not find the key |
| `KvsProcess.Process.InitKvs` | iso-workspace/slurm-src/contribs/pmi/pmi.c:899-919 | an empty record is appended |
| `KvsProcess.Process.PutPair` | iso-workspace/slurm-src/contribs/pmi/pmi.c:1136-1212 | the parallel arrays change as the table of triples does; fails exactly if no record has the name |
| `KvsProcess.Process.KvsPut` | iso-workspace/slurm-src/contribs/pmi/pmi.c:1121-1134 | the return code for every input, and no change on failure |
| `KvsProcess.SwapRec` | iso-workspace/slurm-src/contribs/pmi/pmi.c:1323-1339 | state, key and value move together |
| `KvsProcess.PartitionRec` | iso-workspace/slurm-src/contribs/pmi/pmi.c:1269-1277 | the loop that skips needless swaps computes the partition |
| `KvsProcess.Process.Commit` | iso-workspace/slurm-src/contribs/pmi/pmi.c:1230-1305 | every record that is not defunct is partitioned, and the message holds their front parts |
| `KvsProcess.Process.DisableLocalKeys` | iso-workspace/slurm-src/contribs/pmi/pmi.c:1987-1998 | LOCAL becomes DISABLED, and nothing else changes |
| `KvsProcess.Process.MergeReply` | iso-workspace/slurm-src/contribs/pmi/pmi.c:691-707 | the reply is put pair by pair over the disabled table; fails exactly if some pair names no record |
| `KvsProcess.Process.KvsGet` | iso-workspace/slurm-src/contribs/pmi/pmi.c:1364-1405 | the first copy in the first live record, and the return code for every input; on success the buffer holds the value if length > 0, is untouched if it is 0, and is left if it is negative |
| `KvsIterator.Iterator.IterFirst` | iso-workspace/slurm-src/contribs/pmi/pmi.c:1436-1486 | the answer and the iteration indices for every table, also when the loop reads behind the arrays of a record |
| `KvsIterator.FirstFromIs` | iso-workspace/slurm-src/contribs/pmi/pmi.c:1436-1486 | for every table, return code, key and value in terms of the record at which the search ends |
| `KvsIterator.FirstIndicesAre` | iso-workspace/slurm-src/contribs/pmi/pmi.c:1436-1486 | ... and the iteration index of every record |
| `KvsIterator.Iterator.IterNext` | iso-workspace/slurm-src/contribs/pmi/pmi.c:1517-1565 | the same for the next pair, with the 16-bit counter and any number of live records of the name |
| `KvsIterator.NextFromIs` | iso-workspace/slurm-src/contribs/pmi/pmi.c:1517-1565 | the same for the next pair |
| `KvsIterator.NextIndicesAre` | iso-workspace/slurm-src/contribs/pmi/pmi.c:1517-1565 | ... and the iteration index of every record, modulo 65536 |
| `KvsIterator.Iterator.Iterate` | iso-workspace/slurm-src/contribs/pmi/pmi.c:1436-1565 | iterating up to the first empty key leaves the record exactly if its index is below its number of pairs and all are DISABLED; otherwise it returns the pairs that are not DISABLED, once each and in order, up to the first with an empty key, if the index is below the number of pairs, else nothing; exactly when these are all of them |
| `KvsIterator.NeverEnds` | iso-workspace/slurm-src/contribs/pmi/pmi.c:1517-1565 | on all other records, those with a pair to return at position 65535 or behind and no empty key to return in front of it, every call returns a pair, for ever |
| `KvsIterator.LeavesRecordIff` | iso-workspace/slurm-src/contribs/pmi/pmi.c:1458-1481 | for every table, Iter_first reads behind the arrays if and only if it comes to a live record whose index is below its number of pairs and whose pairs are all DISABLED |
| `KvsIterator.SecondRecordIsMissed` | iso-workspace/slurm-src/contribs/pmi/pmi.c:1470-1481 | the single pair of a second record is not found |
| `KvsProtocol.NextInv` | iso-workspace/slurm-src/contribs/pmi/pmi.c:666-708 | every put, commit, barrier entry, release and exit of any rank keeps the protocol invariant |
| `KvsProtocol.PutsBeforeBarrierAreVisible` | iso-workspace/slurm-src/contribs/pmi/pmi.c:1364-1405 | in every run in which each key is put once and ranks commit before they enter, PMI_KVS_Get at every rank gives, from its exit of the barrier on, what was put before the release by whichever rank |
| `KvsProtocol.GetAfterBarrier` | iso-workspace/slurm-src/contribs/pmi/pmi.c:1364-1405 | the same as a statement about every reachable state |
| `KvsProtocol.GetNeverInvents` | iso-workspace/slurm-src/contribs/pmi/pmi.c:1364-1405 | in every reachable state a value that is found was put for that key |
| `KvsRefinement.TableRefinesMap` | iso-workspace/slurm-src/contribs/pmi/pmi.c:1364-1405 | in every state of every run, what PMI_KVS_Get finds at a rank is a lookup in a map: its own puts and what anyone put before the release of the last barrier it left; the LOCAL, DISABLED and GLOBAL copies refine that map |
| `KvsRefinement.OwnPutIsFound` | iso-workspace/slurm-src/contribs/pmi/pmi.c:1136-1212 | over every run, a rank gets its own put from the put on |
| `KvsRefinement.NextHeldInv` | iso-workspace/slurm-src/contribs/pmi/pmi.c:691-707 | every event keeps: a put is with its rank, and a rank holds only its own puts and what was published before it left a barrier |
| `KvsProtocol.BarrierKeeps` | iso-workspace/slurm-src/contribs/pmi/pmi.c:691-707 | after the merge every key of the reply is held, no key is lost, and copies agree |
| `KvsProtocol.SentCovers` | iso-workspace/slurm-src/contribs/pmi/pmi.c:1266-1305 | a commit sends every key that has a copy that is not GLOBAL |
| `KvsProtocol.MergeKeeps` | iso-workspace/slurm-src/src/api/pmi_server.c:344-381 | the server keeps all keys, stores every committed pair, and marks none as sent |
| `KvsProtocol.MergeOneIs` | iso-workspace/slurm-src/src/api/pmi_server.c:344-381 | a committed pair replaces the first one with its key, or is appended if there is none or duplicates are not searched for, and is to be sent again |
| `KvsProtocol.UnsentCovers` | iso-workspace/slurm-src/src/api/pmi_server.c:296-329 | the transmitted copy holds every pair that was not sent before |
| `KvsProtocol.UnsentIs` | iso-workspace/slurm-src/src/api/pmi_server.c:296-329 | the transmitted copy is exactly the pairs that were not sent before, in their order |
| `KvsPrivacy.PutIsInvisibleUntilCommit` | iso-workspace/slurm-src/contribs/pmi/pmi.c:1111-1134 | in every run, what a rank has put is not found by any other rank until that rank commits, whatever others put, commit or synchronise meanwhile |
| `KvsPrivacy.NextKeepsPrivate` | iso-workspace/slurm-src/contribs/pmi/pmi.c:1230-1305 | every step but a commit of the owner keeps the key away from the server, the reply and all other ranks |
| `KvsCopies.CopiesAfterBarrier` | iso-workspace/slurm-src/contribs/pmi/pmi.c:1980-1998 | over every run, how many copies of a key a rank has for an iteration when it leaves a barrier: one per commit of the rank that put it up to the release, or, with a search for duplicates, one of what others put and none of its own |
| `KvsCopies.EachKeyOnceIff` | iso-workspace/slurm-src/contribs/pmi/pmi.c:1980-1998 | every published key is there exactly once if and only if the rank that put it committed exactly once from the put to the release, or, with a search for duplicates, this rank put none of them |
| `KvsCopies.IterationAfterBarrier` | iso-workspace/slurm-src/contribs/pmi/pmi.c:1517-1565 | the same for what an iteration over the parallel arrays is to return |
| `KvsCopies.BarrierCopies` | iso-workspace/slurm-src/contribs/pmi/pmi.c:691-707 | what disabling and merging do to the LOCAL, DISABLED and GLOBAL copies of a key |
| `KvsCopies.TimesSent` | iso-workspace/slurm-src/contribs/pmi/pmi.c:1266-1305 | a commit sends a key once for every copy that is not GLOBAL |
| `KvsCopies.OwnKeysLeaveRecord` | iso-workspace/slurm-src/contribs/pmi/pmi.c:1470-1481 | with a search for duplicates, after a barrier every pair of a rank that put all keys of a name itself is DISABLED, and Iter_first leaves the record exactly if its index is below its number of pairs |
| `KvsCopies.OwnPutIsDisabled` | iso-workspace/slurm-src/contribs/pmi/pmi.c:1155-1157 | one put and the reply that brings it back lead to that state |
| `KvsCopies.SecondCommitDuplicates` | iso-workspace/slurm-src/contribs/pmi/pmi.c:1266-1305 | a put, two commits and a barrier: two copies without a search for duplicates, none with it |
| `PmiArgs.ArgsToKeyval` | iso-workspace/slurm-src/contribs/pmi/pmi.c:1773-1858 | fails exactly on an empty command line or two neighbouring arguments that do not start with "-"; otherwise the list flattens to the command line again, keys start with "-" and values do not |
| `PmiArgs.ProperIsUnique` | iso-workspace/slurm-src/contribs/pmi/pmi.c:1773-1858 | no other list of such pairs flattens to the command line |
| `UsageReport.ProcessAccountByUser` | iso-workspace/slurm-src/src/api/cluster_report_functions.c:98-143 | trying the previous row first gives the report of always searching; rows stay distinct by (id, id_alt); those that were there keep place and label, each new one comes behind them with account, cluster, parent and user of the association |
| `UsageReport.RowsAreLabelled` | iso-workspace/slurm-src/src/api/cluster_report_functions.c:109-143 | the same for any records: one new row for each (id, id_alt) that occurs and has none |
| `UsageReport.RowIsSumOfRecords` | iso-workspace/slurm-src/src/api/cluster_report_functions.c:109-143 | every row gains exactly what the records of its (id, id_alt) used, per TRES |
| `UsageReport.RowsConserve` | iso-workspace/slurm-src/src/api/cluster_report_functions.c:98-143 | over all rows, per TRES, the total grows by the sum of the records |
| `UsageReport.ProcessUserByAccount` | iso-workspace/slurm-src/src/api/cluster_report_functions.c:54-96 | the usage goes to the one row of the user and account; rows stay distinct |
| `UsageReport.UsersConserve` | iso-workspace/slurm-src/src/api/cluster_report_functions.c:54-96 | over all user rows, per TRES, the total grows by the sum of the records |
| `UsageReport.ChargeUserCharged` | iso-workspace/slurm-src/src/api/cluster_report_functions.c:54-96 | the rows of a user and account gain exactly what the association used, and no others do |
| `UsageReport.UserRowIsCharged` | iso-workspace/slurm-src/src/api/cluster_report_functions.c:54-96 | with distinct rows that is the one row of the two |
| `UsageReport.AddAllSecs` | iso-workspace/slurm-src/src/common/slurmdb_defs.c:4499-4514 | transferring records to a TRES list adds, per TRES, what they used |
| `UsageReport.ProcessAssocs` | iso-workspace/slurm-src/src/api/cluster_report_functions.c:210-269 | walking the list of associations or wckeys while deleting from it charges every entry of the cluster and leaves exactly the others that have usage |
| `UsageReport.ChargeConserves` | iso-workspace/slurm-src/src/api/cluster_report_functions.c:210-269 | every share of a cluster report (all rows, one row, a user, a parent row, the rows of all users of a wckey or of one) gains exactly what the entries on the cluster used |
| `UsageReport.KeptOwes` | iso-workspace/slurm-src/src/api/cluster_report_functions.c:210-269 | no other cluster loses an entry, and this one has none left |
| `UsageReport.ProcessClusters` | iso-workspace/slurm-src/src/api/cluster_report_functions.c:357-384 | one report per cluster with accounting records, each with distinct rows |
| `UsageReport.ReportedNamesAre` | iso-workspace/slurm-src/src/api/cluster_report_functions.c:357-384 | the reports are those of the clusters with accounting records, in order |
| `UsageReport.ReportsAreExact` | iso-workspace/slurm-src/src/api/cluster_report_functions.c:357-384 | in each finished report, for all four kinds, every row and every other share holds, per TRES, exactly the sum over the entries on that cluster, charged once |
| `UsageRows.ReportIs` | iso-workspace/slurm-src/src/api/cluster_report_functions.c:357-384 | the report of a cluster is made from the whole list the first time its name comes up, and is empty after that |
| `UsageRows.ReportLabels` | iso-workspace/slurm-src/src/api/cluster_report_functions.c:98-143 | a finished report has a row for an (id, id_alt) exactly if an entry on the cluster has a record of it, labelled with account, cluster, parent and user of the first such entry |
| `UsageRows.ReportUserRows` | iso-workspace/slurm-src/src/api/cluster_report_functions.c:54-171 | a finished report by user has one row per user and account of an entry, or one per entry if by wckey |
| `UsageRows.ReportWckeyRows` | iso-workspace/slurm-src/src/api/cluster_report_functions.c:173-208 | a finished report of wckeys has a row per entry with its wckey and user, and one more without a user per wckey, with no other label |
| `UsageReport.ProcessWckeyByUser` | iso-workspace/slurm-src/src/api/cluster_report_functions.c:173-208 | the usage goes to the parent row of the wckey and to a new row of the user |
| `UsageReport.ParentIsSumOfUsersIff` | iso-workspace/slurm-src/src/api/cluster_report_functions.c:173-269 | in the finished report of a cluster, the parent row of a wckey is the sum of its user rows if and only if its entries without a user used nothing |
| `UsageReport.UsageWithoutUser` | iso-workspace/slurm-src/src/api/cluster_report_functions.c:173-208 | a wckey without a user: the parent row has usage that no user row has |
| `Trailers.FromLines` | iso-workspace/slurm-src/tools/gitlint_rules.py:59-83 | a trailer takes its continuation lines and nothing more; other lines are left alone |
| `Trailers.PullNonTrailer` | iso-workspace/slurm-src/tools/gitlint_rules.py:85-98 | a section ends before the next trailer or blank line; where the next item starts |
| `Trailers.NextItem` | iso-workspace/slurm-src/tools/gitlint_rules.py:119-126 | every round yields the next item and consumes a line; a trailer exactly if the first line is a trailer line |
| `Trailers.SplitTrailersAndBody` | iso-workspace/slurm-src/tools/gitlint_rules.py:116-126 | terminates; its items are a proper division of the body, plus the last line again if that ends in a section of two lines or more |
| `Trailers.SplitDivides` | iso-workspace/slurm-src/tools/gitlint_rules.py:59-126 | the same for every body: an item is a trailer exactly if it starts with a trailer line, holds only lines that belong to it, and could not take the first line of the next |
| `Trailers.DivisionIsUnique` | iso-workspace/slurm-src/tools/gitlint_rules.py:59-126 | a body has no other such division |
| `Trailers.FlattenSplit` | iso-workspace/slurm-src/tools/gitlint_rules.py:59-126 | the items flatten to the body, plus one repeat of the last line exactly when the last two lines stand in the same section |
| `Trailers.RepeatedLastLine` | iso-workspace/slurm-src/tools/gitlint_rules.py:85-98 | a body on which the last line is repeated |

## Left out

- Skilling.TransposeToAxes: words outside the cube; the signed shifts of lines 52 and 71 are taken to wrap as compilers have them do.
- Skilling.SampleProgram: reading the command line and printing.
- Pmi2Client.ReadCommand: failing or interrupted reads other than end of input, and memory exhaustion; a negative or zero length field is a failure. Which strings `%p` of sscanf takes is a parameter. `PMI2_debug` is off, so that the queue of pending commands is not searched, and the caller's command is not complete beforehand. What follows after an unassigned pointer is used, or an address that is no command, C does not define.
- Pmi2Client.WriteSimpleCommand: what happens after a store outside the buffer, which C does not define; failing writes and the `thrid` pair of threaded builds.
- Pmi2RoundTrip.BodyRoundTrip: keys and names with a zero byte, which are no C strings; for all other keys see KeysSurviveIff.
- Pmi2RoundTrip.ReachesCallerIff: the previous target is not the caller, since the loop ends when it is.
- Pmi2RoundTrip.LeftoverIsHarmlessIff: the rest of PMIi_ReadCommandExp, which looks up the return code and the error message.
- `PMI2U_parse_keyvals`, `PMI2U_getval`, `MPIU_Strncpy`, `getvalint` and `getvalbool`, and `PMI2_Job_Spawn`: easier relatives of the parsers that are modelled.
- PendingQueue.Queue.SearchRemove: requires a queue that is not empty, as the source dereferences the head; freeing of items is not modelled.
- LineReader.Reader.Readline: the descriptor argument is fixed, since the static buffer serves one descriptor; interrupted reads are retried by the source and are no event here.
- KvsProcess.Process.PutPair: strings of exactly the maximum length (the source's copies are then not terminated), memory exhaustion and locking; the parallel arrays are sequences of a record value, so their reallocation is not modelled.
- KvsProcess.Process.Commit: the paths without initialisation or without a job step, and the RPC itself; the message is a list of (name, key, value).
- KvsProcess.Process.MergeReply: likewise, and a barrier without any reply, which changes nothing.
- KvsIterator.Iterator.IterFirst: what happens after a read behind the arrays, which C does not define; copying into short buffers.
- KvsProcess.Process.KvsGet: what the padding of strncpy overwrites for a negative length, which C does not define.
- KvsIterator.Iterator.Iterate: records on which the loop does not end, which are those of NeverEnds; names with several live records.
- KvsProtocol.PutsBeforeBarrierAreVisible: keys that are put more than once, which the description of PMI_KVS_Put forbids (lines 1116-1118); one flag `noDup` stands for the client's and the server's, which each set from their own environment (contribs/pmi/pmi.c:221-223, src/api/pmi_server.c:422-425), so runs in which the two differ are not covered; the server's lists per name are one list tagged with names, and its fan-out and message loss are not modelled.
- `PMI_KVS_Create`, `PMI_KVS_Destroy`, publishing, spawning and the getters of `pmi.c`: easy.
- UsageReport.ProcessAssocs: one list type stands for associations and wckeys, whose two loops differ only in the element type.
- UsageReport.AddAllSecs: 64-bit overflow, and a first count other than zero in a copied TRES record.
- Sorting of report lists, user ids, and the averages of cluster TRES.
- Trailers.FlattenSplit: the two regular expressions are arbitrary predicates; joining the lines of a section and classifying trailers by tag are not modelled.
- Everything else in the repository: RPC wrappers, daemons, PAM and NSS modules, documentation scripts.
