# A verified model of the GenUnicodeProp data table

`DataTable` (DataTable.cs) is the table builder of the Unicode property
generator. It keeps a sorted dictionary from codepoint to value and a
default value for every codepoint without an entry. A table of type 1 is
dumped flat. A table of type 12 is compressed into a 12:4:4 three-level
table:

- the key space is split into 4352 super-blocks of 256 codepoints (17
  planes);
- each super-block is split into 16 rows of 16 values;
- identical rows are stored once in the level-3 data table, under the
  element offset at which they start (a checked 16-bit id);
- identical groups of 16 row ids are stored once in the level-2 index
  table, under their group number (a checked 8-bit id);
- the level-1 index holds one group number per super-block.

`GetBytes12_4_4` then writes three byte arrays:

- level-1 and level-2 entries become little-endian 16-bit words, relocated
  into word offsets from the start of the whole image (unchecked casts);
- the level-3 values are encoded by the table's callback;
- padding bytes `0xEE` follow, computed from the total length minus 4 with
  C#'s truncating `%`.

The project is split into modules that follow that structure:

- `Wrappers` holds the option and result types.
- `Store` holds the value store: effective values and the ascending key
  order of the sorted dictionary.
- `Interning` holds content-keyed block interning: one `Pool` per
  deduplication level, the `Intern` step with its checked id, the
  `WellInterned` invariant, and the `";"`-joined dictionary keys.
- `TableBuild` holds a functional reference for the generation. It is
  written as `InternRows`/`SuperBlock`/`BuildFrom`, with the logical
  three-step `Lookup`, and it proves lookup correctness, deduplication,
  sharing if and only if contents agree, and the overflow bounds.
- `Layout` holds the serialized image, the consumer's `ReadEntry` on it,
  and the proof that the image answers every lookup as the logical tables
  do.
- `DataTables` holds the class `DataTable`. Its fields are the source's
  fields, and its methods are the source's methods with their loops and
  invariants, each proved against the functions above.

Where the code and the intended design differ, the model follows the code:

- The flat dump covers the stored values only, not every codepoint.
- A relocated pointer above 16 bits wraps; it is not reported as an error.
- The padding leaves the three arrays 4 bytes past a multiple of 16, not
  on a multiple of 16.
- A generation that overflows leaves the lists partly extended.
- The callback's output width is not checked.

## Model

| member | source | states |
|---|---|---|
| Store.StoreOverrides | DataTable.cs:40 | storing a value at one codepoint changes the effective value of that codepoint only; the last write wins |
| Store.AscendingKeys | DataTable.cs:14 | the sorted dictionary enumerates each of its keys exactly once, in strictly ascending order |
| Store.AscendingKeysAppend | DataTable.cs:14 | a key above all present keys is enumerated last, after the old keys in their old order |
| Interning.InternKeepsWellInterned | DataTable.cs:94-117 | interning keeps the pool well formed: whole blocks, each block under its own id, every id within the width, every key naming an equal block; it fails exactly when the block is new and its id does not fit |
| Interning.WellInternedDistinct | DataTable.cs:94-117 | a pool built by interning never stores the same block twice, and its last block's id fits the id width |
| Interning.JoinKeyInjective | DataTable.cs:93 | joining equal-length rows with `;` gives the same key if and only if the rows are equal, provided no value contains `;` |
| Interning.JoinKeyCollision | DataTable.cs:93 | with a `;` inside a value, two different rows produce the same dictionary key |
| TableBuild.BuildResolves | DataTable.cs:74-119 | after a successful generation, level 1 has one entry per super-block, and the three-step lookup of every codepoint in range yields its stored value, or the default when it has none |
| TableBuild.BuildDeduplicates | DataTable.cs:92-117 | level 2 and level 3 hold whole blocks of 16 and no block twice; level-2 entries are row offsets that fit 16 bits; level-1 entries are group numbers that fit 8 bits; at most 4096 rows and 256 groups are stored |
| TableBuild.RowIdsAgree | DataTable.cs:92-105 | two rows of the key space get the same level-3 id if and only if their 16 effective values are equal |
| TableBuild.GroupIdsAgree | DataTable.cs:108-119 | two super-blocks get the same level-1 entry if and only if their 256 effective values are equal |
| TableBuild.EmptyStoreSingleBlocks | DataTable.cs:74-119 | an empty store produces exactly one all-default row, exactly one all-zero group and a level-1 table of zeros |
| TableBuild.DistinctRowsFit | DataTable.cs:98 | a successful generation implies that the key space holds at most 4096 pairwise distinct rows |
| TableBuild.DistinctSuperBlocksFit | DataTable.cs:112 | a successful generation implies that the key space holds at most 256 pairwise distinct super-blocks |
| Layout.LittleEndian16 | DataTable.cs:143 | `BitConverter.GetBytes((ushort)w)` is two bytes, low byte first, that denote `w` modulo 2^16 |
| Layout.WordsRoundTrip | DataTable.cs:141-155 | reading word `i` back from an emitted word array, whatever follows it, gives entry `i` modulo 2^16 |
| Layout.ValueBytesFixedWidth | DataTable.cs:158-163 | with a fixed-width callback, the level-3 array has width × count bytes and value `e` occupies bytes `width*e` to `width*(e+1)` |
| Layout.ImageAgreesWithLookup | DataTable.cs:137-167 | whenever the logical lookup finds a value, the reader following the relocated level-1 and level-2 words of the image finds exactly that value's encoding |
| Layout.ImageResolves | DataTable.cs:137-167 | the image of a successful generation answers every codepoint in range with the encoding of its effective value, as long as no relocated word wraps |
| DataTables.CsRemainder | DataTable.cs:171 | C#'s `%`: smaller than the divisor in magnitude, with the sign of the dividend, differing from it by a multiple of the divisor, and zero exactly when the divisor divides the dividend |
| DataTables.DecimalRoundTrip | DataTable.cs:42 | the decimal text `byte.ToString()` produces reads back as the byte's value |
| DataTables.DecimalHasNoSeparator | DataTable.cs:108 | the decimal text of a number never contains the separator `;`: neither the ids joined into a level-2 key here nor the byte values stored through the overload at line 42 |
| DataTables.Level2KeyInjective | DataTable.cs:108 | two groups of row ids of equal length get the same `;`-joined decimal key if and only if they hold the same ids, so the level-2 dictionary keyed by text is the one keyed by the group |
| DataTables.PaddedLength | DataTable.cs:164 | with the padding computed from the length minus 4, the three arrays together end 4 bytes past a multiple of 16 |
| DataTables.DataTable.constructor | DataTable.cs:22-32 | a table of type 1 or 12 starts with its configuration and with an empty store and empty tables |
| DataTables.DataTable.Create | DataTable.cs:22-32 | construction succeeds if and only if the type is 1 or 12; any other type is an invalid-table-type error |
| DataTables.DataTable.AddData | DataTable.cs:40 | the store maps the codepoint to the new value and is otherwise unchanged |
| DataTables.DataTable.AddByteData | DataTable.cs:42 | the store maps the key to the byte's decimal text and is otherwise unchanged |
| DataTables.DataTable.GetBytesFlat | DataTable.cs:44-50 | the flat dump is the callback's encoding of every stored value, concatenated in ascending codepoint order |
| DataTables.DataTable.FillRow | DataTable.cs:82-90 | the row buffer holds the effective values of the 16 codepoints from `ch` on |
| DataTables.DataTable.InternSuperBlock | DataTable.cs:79-119 | one pass of the outer loop extends the tables and both dictionaries exactly as `SuperBlock` does, and reports an overflow exactly when `SuperBlock` fails |
| DataTables.DataTable.GenerateTable12_4_4 | DataTable.cs:55-135 | a table not of type 12 fails with an invalid-operation error and changes nothing; otherwise the generation fails with an overflow exactly when `Build` does, and on success the tables are `Build`'s |
| DataTables.DataTable.GetBytes12_4_4 | DataTable.cs:137-167 | the three arrays are the relocated level-1 words, the relocated level-2 words, and the encoded level-3 values followed by the padding, and their total length is 4 past a multiple of 16 |
| DataTables.DataTable.GetByteBoundaryBytes | DataTable.cs:169-177 | the padding is all fill bytes and brings `offset` to a multiple of the boundary; it is empty exactly when `offset` is already aligned; it is shorter than the boundary for a non-negative offset, and between one and two boundaries long for a negative unaligned one |

## Left out

- The console output of `GenerateTable12_4_4` and its `planeTableSize` computation are not modelled: they produce no state.
- The value callback is modelled as a total pure function from string to bytes. An exception from it, or a dependence on state, is not modelled.
- Null values are not modelled: `v ?? DefaultValue` in `GetBytesFlat` is the identity on the store here.
- Codepoints (`uint`) are modelled as `nat`. Keys above 2^32 cannot arise in the source and are not excluded here.
- `BitConverter` is modelled as little-endian, as it is on every platform the generator runs on.
- The two hash dictionaries are keyed by the block itself, not by its `;`-joined text. `JoinKeyInjective` shows that the two agree for level 3 when no value contains `;`, and `JoinKeyCollision` shows the collision otherwise; `Level2KeyInjective` shows that they always agree for level 2, whose keys are decimal ids.
- InternSuperBlock: recomputes the running codepoint `ch` as `256 * sb` at the start of each super-block instead of carrying it across iterations; the two agree.
- GenerateTable12_4_4: after an overflow, the state of the three lists is not specified. The source leaves them partly extended.
- ImageResolves: assumes no relocated level-1 or level-2 word reaches 2^16. The source's unchecked casts would wrap such a word, and the resulting image is not characterised.
- DistinctRowsFit: proves that success implies at most 4096 distinct rows, hence that more distinct rows make the build fail. The other direction is not proved: that a key space with at most 4096 distinct rows and at most 256 distinct super-blocks always builds, so that no overflow is reported spuriously.
- DistinctSuperBlocksFit: proves that success implies at most 256 distinct super-blocks, hence that more make the build fail. The other direction is not proved: that at most 256 distinct super-blocks (with at most 4096 distinct rows) always build without an overflow.
- GetByteBoundaryBytes: requires a positive boundary. Its only caller passes 16, and a zero boundary would throw a division by zero.
- The table of type 1 has no generation step in this source. Only its flat dump (`GetBytesFlat`) is modelled.
