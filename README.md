# SafestPath: the Huffman container and the safest-route solvers, in Dafny

This project models two parts of the SafestPath repository and proves what
they promise.

**The Huffman container format of `bits.cpp`.**

* `Bit` values and their comparison.
* The integrity check on an `EncodedData`.
* The bit-level `BitWriter` and `BitReader`, which pack bits least
  significant first.
* `writeData` and `readData`.

`writeData` writes these fields in order:

1. the magic number `0xC5106BA7`, as the little-endian bytes A7 6B 10 C5;
2. the leaf count minus one, as a byte;
3. the leaves;
4. the number of bits used in the last byte (1 to 8);
5. the tree-shape bits, then the message bits, packed eight to a byte.

`readData` reads a container back from the current position of a stream
to its end.

The model works at two levels:

* `Codec.Encode` and `Codec.Decode` state the layout as functions on byte
  sequences.
* The imperative methods are proved against those functions: the
  `EncodedData` queues, a byte sink and a byte source, and the two bit
  streams (`ContainerIO.WriteData`, `ContainerRead.ReadData`,
  `BitStreams.BitWriter`, `BitStreams.BitReader`).

Decoding what was encoded gives the container back
(`CodecProofs.RoundTrip`). Every cut of the header is rejected with the
error the code raises there.

**The three safest-route solvers of `street.cpp`.**

A city is a grid of streets. A route goes from the top-left street to the
bottom-right one, one step right or down at a time, onto sidewalks only.
Its safety is the sum of its streets' ratings.

* Solution 1 enumerates every route recursively into a priority queue keyed
  by negated safety.
* Solution 2 recursively keeps the better of two continuations, as
  `getSaferPath` judges them.
* Solution 3 runs a breadth-first search over stacks of grid locations.

Each solution is proved to return a safest route (`Grids.Safest`) whenever
a route exists:

* `ExhaustiveSearch.SafestPath1`;
* `RecursiveSearch.SafestPath2Safest`, which also proves that solution 2
  returns a full-length result exactly when a route exists, and a shorter
  sequence otherwise;
* `WorklistSearch.SafestPath3`.

For solution 3 the proof also shows that `checked_moves` never prunes a
move. The search takes stacks level by level, so every move lies on a
diagonal beyond every checked location (`WorklistSearch.NeverPruned`).
Every route therefore reaches the priority queue.

**What a truncated file reads back as.** The code derives the number of
bits to read from the file's actual length, not from a stored bit count.
So a file that has lost whole bytes from the end of its packed bits is
not always rejected. `readData` succeeds exactly when the bits lost, eight
for each byte, are no more than the message bits. It then returns the
message shortened by eight bits for each byte lost
(`CodecProofs.TruncatedBitsShortenMessage`). The model follows the code.
A cut inside the header, the leaves or the modulus byte is rejected
(`CodecProofs.TruncatedHeaderRejected`). A cut that leaves too few bits for
the tree shape is rejected too (`CodecProofs.ReadBitsFailsShort`).

## Model

| member | source | states |
|---|---|---|
| Bits.MakeBit | bits.cpp:14-26 | succeeds exactly for 0 and 1, with that value; the characters '0' and '1' give the character-confusion error, every other value the illegal-value error |
| Bits.MakeBitOfToInt | bits.cpp:14-26 | making a bit from a bit's numeric value gives that bit back |
| Bits.CharacterConfusionIsDistinct | bits.cpp:16-23 | a rejected value gets the character-confusion error exactly when it is 48 or 49 |
| Bits.Equal | bits.cpp:28-30 | true exactly for bits of the same value |
| Bits.NotEqual | bits.cpp:31-33 | true exactly for bits of different values |
| Packing.PackByteBits | bits.cpp:67-72 | bit `k` of a packed byte is the `k`-th bit put, and zero past the bits put |
| Packing.Pack | bits.cpp:63-83 | the bytes `BitWriter` writes for a bit stream: `n` bits take `(n + 7) / 8` bytes, the last one flushed by the destructor |
| Packing.PackAt | bits.cpp:67-76 | bit `i` of the stream is bit `i % 8`, least significant first, of byte `i / 8` |
| Packing.PackPadding | bits.cpp:63-65 | the unused high bits of the last byte are zero |
| Packing.Unpack | bits.cpp:94-115 | the bits `BitReader` yields from a byte stream: eight per byte |
| Packing.UnpackPack | bits.cpp:94-100 | reading the bytes back gives the bits written, then fewer than eight padding bits |
| Packing.UnpackPackPadding | bits.cpp:94-100 | the padding bits read back are zero |
| Packing.UnpackPrefix | bits.cpp:107-115 | the bits of a prefix of the bytes are the matching prefix of the bits |
| BitStreams.ByteSink.Put | bits.cpp:143 | appends one byte to the output |
| BitStreams.ByteSink.Write | bits.cpp:139 | appends the bytes to the output |
| BitStreams.ByteSource.Get | bits.cpp:173-176 | yields the next byte and advances, or fails at the end without moving |
| BitStreams.ByteSource.Read | bits.cpp:186-190 | yields the next `n` bytes when that many remain; otherwise fails with the stream at its end |
| BitStreams.ByteSource.Remaining | bits.cpp:208-215 | the distance from the current position to the end of the stream |
| BitStreams.BitWriter.constructor | bits.cpp:62 | an empty bit buffer over the given output |
| BitStreams.BitWriter.Put | bits.cpp:67-76 | the bit joins the written stream; on the eighth bit the packed byte goes out and the buffer empties |
| BitStreams.BitWriter.Flush | bits.cpp:79-83 | writes the buffer byte and empties the buffer |
| BitStreams.BitWriter.Close | bits.cpp:63-65 | after the destructor the output holds every written bit packed, flushing a partial byte only |
| BitStreams.BitReader.constructor | bits.cpp:92-105 | a reader with no buffered bits at the stream's position |
| BitStreams.BitReader.Get | bits.cpp:94-100 | yields the next bit of the byte stream, least significant first, or fails at the end without moving; a byte is fetched only when the buffered one is used up, so after `t` bits the stream has advanced by `(t + 7) / 8` bytes |
| BitStreams.BitReader.ReadMore | bits.cpp:107-115 | loads the next byte, failing exactly when none is left |
| Codec.Wrap64 | bits.cpp:218 | the value of an integer as a `uint64_t`: in range and unchanged when it fits |
| Codec.Wrap64Add | bits.cpp:218-230 | adding to a wrapped count and wrapping again is wrapping the sum, so each decrement wraps like `bitsToRead--` |
| Codec.CheckIntegrity | bits.cpp:43-55 | no error exactly for a well-formed container; too few leaves is reported first |
| Codec.Modulus | bits.cpp:149-150 | from 1 to 8, and 8 exactly when the bit count is a multiple of 8 |
| Codec.ModulusByte | bits.cpp:149-151 | the byte written holds the modulus |
| Codec.CountByte | bits.cpp:142-143 | the byte written is the leaf count minus one modulo 256 |
| Codec.Encode | bits.cpp:134-157 | the bytes `writeData` appends: four magic bytes, the count byte, one byte per leaf, the modulus byte, then one byte per started group of eight bits |
| Codec.Decode | bits.cpp:162-234 | a container read successfully is well formed and has at most 256 leaves |
| Codec.DecodeCount | bits.cpp:172-184 | after the count byte, success means a well-formed container of 2 to 256 leaves |
| Codec.DecodeLeaves | bits.cpp:186-200 | success means a well-formed container with exactly the announced leaves |
| Codec.ReadBits | bits.cpp:202-231 | success keeps the leaves read and gives a well-formed container |
| CodecProofs.EncodeLayout | bits.cpp:134-157 | where each field of a written container lies and what it holds |
| CodecProofs.RoundTrip | bits.cpp:134-234 | reading what was written gives the container back, for at most 256 leaves |
| CodecProofs.DecodeEncode | bits.cpp:162-215 | reading a written container reaches the bit phase with its leaves and modulus |
| CodecProofs.ModulusRecoversLength | bits.cpp:217-218 | the bit count computed from the byte count and the modulus is the number of bits written |
| CodecProofs.ReadBitsOfPack | bits.cpp:217-231 | the bit phase over the packed bits gives back the tree shape and the message |
| CodecProofs.TruncatedHeaderRejected | bits.cpp:162-199 | a file cut inside the header, the leaves or the modulus byte fails with that part's error |
| CodecProofs.TruncatedDecode | bits.cpp:202-218 | a file cut inside the packed bits reads as the bit phase over the bytes kept |
| CodecProofs.TruncatedBitsShortenMessage | bits.cpp:202-231 | a file that lost whole bytes of packed bits reads successfully exactly when the lost bits fit in the message, and then yields the message shortened by them |
| CodecProofs.ReadBitsOfTruncatedPack | bits.cpp:217-231 | the bit phase over a cut packing succeeds exactly when the lost bits fit in the message |
| CodecProofs.ReadBitsSucceeds | bits.cpp:217-231 | when the announced bits cover the tree shape and fit in the bytes, the bit phase splits them into shape and message |
| CodecProofs.ReadBitsFailsShort | bits.cpp:220-225 | when the announced bits do not cover the tree shape, reading fails at the end of the file |
| CodecProofs.LeafCountWraps | bits.cpp:142-143 | with more than 256 leaves the count byte wraps and the container does not read back |
| ContainerIO.EncodedData.constructor | bits.cpp:170 | an empty container |
| ContainerIO.WriteData | bits.cpp:134-157 | reports the integrity error and writes nothing, or writes exactly the encoding and drains the queues |
| ContainerIO.WriteLeaves | bits.cpp:146 | writes the leaves in order and empties that queue |
| ContainerIO.WriteBits | bits.cpp:153-156 | writes the shape and message bits packed and empties both queues |
| ContainerIO.WriteShape | bits.cpp:155 | puts every tree-shape bit into the writer and empties that queue |
| ContainerIO.WriteMessage | bits.cpp:156 | puts every message bit into the writer and empties that queue |
| ContainerRead.ReadData | bits.cpp:162-234 | fails with the error `Decode` gives for the rest of the stream, or returns a fresh container equal to what it decodes |
| ContainerRead.ReadCountInto | bits.cpp:172-233 | the same, from the count byte on |
| ContainerRead.ReadLeavesInto | bits.cpp:186-233 | the same, from the leaves on |
| ContainerRead.EnqueueLeaves | bits.cpp:191-193 | appends the leaves to the queue in order |
| ContainerRead.ReadBitsInto | bits.cpp:202-233 | the same, from the bits on |
| ContainerRead.ReadShape | bits.cpp:220-225 | reads exactly the tree-shape bits when enough remain, and wraps the count down by as many |
| ContainerRead.ReadMessage | bits.cpp:227-231 | reads exactly the remaining count of message bits when enough remain |
| Streets.PathSafety | street.cpp:55-61 | the sum of the ratings along the path |
| Streets.SafetyConcat | street.cpp:55-61 | the safety of two joined paths is the sum of their safeties |
| Streets.AreEqual | street.cpp:32-46 | true exactly when the paths have the same length and agree street by street on crime, light, density and sidewalk |
| Streets.SamePathEquivalence | street.cpp:32-46 | that agreement is reflexive, symmetric and transitive |
| Streets.SaferPath | street.cpp:136-150 | returns one of the two paths, one no worse than either: longer wins, then safer; a tie returns the first |
| Grids.WalkLength | street.cpp:83-100 | a route from a cell has exactly as many steps as the cell is far from the exit |
| Grids.CompletionsWalks | street.cpp:83-100 | every continuation the recursive enumeration produces is a route to the exit |
| Grids.CompletionsComplete | street.cpp:83-100 | every route to the exit is produced |
| Grids.ReachableCompletions | street.cpp:113-119 | the enumeration from the start is nonempty exactly when some route exists |
| Grids.AmongIsSafest | street.cpp:113-119 | a continuation no less safe than any other is a safest route of full length |
| PriorityQueues.LowestIndex | street.cpp:118 | the first entry of least priority value |
| PriorityQueues.MinQueue.constructor | street.cpp:114 | an empty queue |
| PriorityQueues.MinQueue.Enqueue | street.cpp:85 | appends the entry |
| PriorityQueues.MinQueue.Dequeue | street.cpp:118 | removes and returns an entry of least priority value |
| ExhaustiveSearch.SafestPath1Helper | street.cpp:83-100 | enqueues, in order, the entries of the recursive enumeration from `(row, col)` |
| ExhaustiveSearch.Enumerated | street.cpp:83-100 | what the helper enqueues from a cell: every entry continues the path so far and is keyed by its negated safety |
| ExhaustiveSearch.Continued | street.cpp:91-98 | what the helper enqueues after a step onto a cell, nothing when that cell is not a sidewalk: entries continuing the path, keyed by negated safety |
| ExhaustiveSearch.EnumeratedRoutes | street.cpp:83-100 | those entries are one per route from the cell: the path continued along it, keyed by its negated safety |
| ExhaustiveSearch.ContinuedRoutes | street.cpp:88-98 | after a step onto a cell, one entry per route starting with that step |
| ExhaustiveSearch.LowestIsSafest | street.cpp:113-119 | the entry of least key is a safest route of full length |
| ExhaustiveSearch.SafestPath1 | street.cpp:113-119 | when a route exists, returns a safest route, of full length |
| RecursiveSearch.SafestPath2Helper | street.cpp:164-196 | the search from a cell: either empty (a dead end) or the path so far continued by at most the cell's distance to the exit |
| RecursiveSearch.Extend | street.cpp:185-190 | a neighbour's street joins the end of the path exactly when it is a sidewalk, and otherwise the path is unchanged; its rating is added to the path's safety |
| RecursiveSearch.SafestPath2 | street.cpp:208-212 | empty, or a path that starts at the top-left street and is no longer than a route |
| RecursiveSearch.ExitOutcome | street.cpp:165-167 | at the exit the path so far is the answer |
| RecursiveSearch.EdgeOutcome | street.cpp:168-181 | in the last row or column the one way on decides; a non-sidewalk ends with a shorter result |
| RecursiveSearch.OutcomeSafer | street.cpp:182-194 | keeping the safer of the two results gives the best over both sets of routes |
| RecursiveSearch.SafestPath2HelperOutcome | street.cpp:164-196 | never longer than a full route, full exactly when a route remains, and then the safest continuation of the path |
| RecursiveSearch.SafestPath2Safest | street.cpp:208-212 | full length exactly when a route exists, and then a safest route |
| Stacks.StackLevel | street.cpp:300-304 | location `j` of every stack the search builds lies on diagonal `j` |
| Stacks.StackLength | street.cpp:292-294 | a stack is no longer than a route, and is that long exactly when its top is the exit |
| Stacks.StackPush | street.cpp:302-304 | pushing an open neighbour of the top keeps a stack |
| Stacks.StackRoute | street.cpp:331-339 | a finished stack is the entrance followed by a route, and its streets are that route's |
| Stacks.RoutePrefix | street.cpp:292-306 | a stack that starts a route is that route once at the exit, or else continues into it through a valid move |
| WorklistSearch.GenerateValidMoves | street.cpp:233-246 | the moves right and down that stay in the grid and land on a sidewalk, and no others |
| WorklistSearch.GridLocPathSafety | street.cpp:259-267 | the sum of the ratings of the streets at the stack's locations |
| WorklistSearch.InOrderSet | street.cpp:300 | the order a `Set<GridLocation>` is iterated in lists each of its locations once, by row and then column |
| WorklistSearch.Expand | street.cpp:300-306 | appends to the worklist a copy of the stack extended by each move not yet checked, in set order, and nothing else |
| WorklistSearch.MovesInOrder | street.cpp:299-301 | the moves taken are at most two valid moves, and include every valid move not checked |
| WorklistSearch.Started | street.cpp:283-290 | the initial worklist covers every route |
| WorklistSearch.NeverPruned | street.cpp:293-301 | no valid move is ever in the checked set |
| WorklistSearch.LevelsAdvance | street.cpp:291-309 | the worklist stays ordered by length, within two levels |
| WorklistSearch.CoveringAdvance | street.cpp:291-309 | every route stays queued or ahead in the worklist |
| WorklistSearch.SolutionsAdd | street.cpp:294-295 | a finished stack enters the priority queue keyed by its negated safety |
| WorklistSearch.Advance | street.cpp:291-309 | one round of the loop keeps all of the above |
| WorklistSearch.WeightAdvance | street.cpp:291-309 | each round lightens the worklist, so the loop ends |
| WorklistSearch.ReachableFound | street.cpp:311 | when a route exists the priority queue is not empty at the end |
| WorklistSearch.LowestRouteIsSafest | street.cpp:311 | the stack of least key is a finished route with the greatest safety |
| WorklistSearch.SafestPath3Helper | street.cpp:282-313 | returns the stack of a safest route |
| WorklistSearch.SafestPath3 | street.cpp:331-340 | returns the streets of a safest route, of full length |

## Left out

- The debugging `operator<<` for `Bit` and for `EncodedData`: output only.
- `error()` aborts the operation in the source by throwing an `ErrorException`, which a caller may catch. Here a `Result` or `Option` carries the error instead.
- The magic number is written from host memory. This model fixes the little-endian byte order of the usual hosts.
- Failures of `tellg` and `seekg` are not modelled. The distance to the end of the stream is taken as given (`ByteSource.Remaining`).
- The signed `streamoff` arithmetic of `(endPos - currPos - 1) * 8` is not modelled beyond the 64-bit wrap of `bitsToRead`. Overflow needs a file of more than 2^60 bytes.
- CodecProofs.RoundTrip: requires at most 256 leaves and fewer than 2^64 bits. Beyond 256 the count byte wraps and the container does not read back (`CodecProofs.LeafCountWraps`).
- `street.h` and its `getSafetyRating` are not part of this model. A street's rating is a given field.
- The Stanford library containers are modelled by what the code uses:
  - `Vector` and `Stack` by sequences;
  - `Queue` by a sequence taken from the front;
  - `Set` by a set iterated by row and then column;
  - `Grid` by a rectangular sequence of rows.
- PriorityQueues.MinQueue.Dequeue: returns the earliest of several entries with equal least priority. The order the library gives to ties is not modelled, so the solvers are proved to return *a* safest route, not one particular route among equally safe ones.
- ExhaustiveSearch.SafestPath1, WorklistSearch.SafestPath3 and WorklistSearch.SafestPath3Helper require that a route exists. Without one, `solutions.dequeue()` is called on an empty queue, which is an error in the source.
- Ratings and path safeties are unbounded integers. Overflow of the C++ `int` sums is not modelled.
- `safestPath2Helper` takes `path` by reference and appends to it in the last row and column. No caller reads it afterwards, so the model passes it by value.
- The `Grid<GridLocation>` that solution 3 builds only supplies the grid's size for `inBounds`. The model reads the size from the street grid.
- The `STUDENT_TEST` cases, timing and the rest of the program are not modelled.
