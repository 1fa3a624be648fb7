# BigVec and the test engine's name and id conversions, in Dafny

This project models two parts of the scrypto toolkit.

**`BigVec<V>`** is a vector split into chunks of at most `capacity_per_vec`
elements. Each chunk lives in a key-value store under an integer key. An
in-memory directory (`vec_structure`) records the size of every chunk, and
`start_index` is the store key of the first chunk. The model covers:

- construction: `new`, `with_capacity_per_vec` and `From<Vec<V>>`;
- `push` and `pop`;
- `get`, `get_mut` and the index translation `get_correct_indexes`;
- `insert`, including its restructuring loop;
- `pop_first_vec`;
- `push_vec` and `push_vec_raw`;
- `append`;
- `len`, `is_empty` and `vec_nb`;
- the by-reference iterator.

The store is a `map<nat, seq<V>>`, `usize` is `nat`, and every Rust panic
is the value `Panic(reason)` of the `Outcome` datatype. A BigVec is:

- *well-formed* (`Wf`) when its chunks sit exactly under the keys
  `start_index .. start_index + n` and have the sizes the directory records;
- *valid* (`Valid`) when it is well-formed and every chunk but the last is
  full.

Validity is the condition under which `index / cap` and `index % cap` find
element `index`. Every operation is related to `Elems`, the flat sequence
the chunks stand for.

Several operations use bare directory positions as store keys, without
`start_index`: `pop`, `push_vec`, `push_vec_raw`, `append` and the
iterator. `insert` makes the opposite slip: it adds `start_index` to the
chunk position and then uses the sum as a directory position as well as a
store key. The model computes the keys exactly as the code does, so
correctness lemmas about the code as written assume `start_index == 0`.
For `pop`, `push_vec_raw`, `push_vec` and `insert`, a keyed version (chunk
`i` under key `start_index + i`) is proved correct for every
`start_index`. A concrete lemma shows each of these four going wrong after
`pop_first_vec`, and so does one for the iterator. `append` and the
iterator have no keyed version.

**The test engine's string functions**:

- `ToId` turns a `String` into a non-fungible local id, read by its first
  character:
  - `<name>` is a string id;
  - `#n#` is an integer id;
  - `[hex]` is a bytes id;
  - `{hex-with-dashes}` is a RUID;
  - anything else is a string id.
- `ToId` for the integer types converts through `u64`.
- `ReferenceName::format` lower-cases a name and deletes `_` and spaces.
- `EnvRef::format` lower-cases a name and turns `_` into spaces.

Modules follow the source:

| module | what it holds |
|---|---|
| `Outcomes` | `Option`, the panic reasons, `Outcome` |
| `Chunks` | `Flatten` and `Sum`, and `DivMod` for Rust's `usize` `/` and `%` |
| `BigVecs` | the state, its invariants, push, pop, get, get_mut, pop_first_vec |
| `BigVecInsert` | insert |
| `BigVecBulk` | push_vec, push_vec_raw, From, append |
| `BigVecIter` | the iterator |
| `Ascii` | character classes and ASCII case mapping |
| `NfIds` | `ToId` |
| `References` | `ReferenceName::format` |
| `EnvironmentReference` | `EnvRef::format` |

The code and the design description of `BigVec` disagree in four places.
The model follows the code:

- **Insert bounds.** The description allows `insert` at every index up to
  `len()` and rejects `len() + 1`. The code rejects `len()` when the last
  chunk is partial. It accepts `vec_nb() * cap` even when that lies past
  `len()`.
- **Append.** The description has `append` move the other BigVec's chunks
  into the store. The code moves none.
- **Pop.** The description has `pop` use the key `start_index + n - 1`.
  The code uses the bare position `n - 1`.
- **Keys after `pop_first_vec`.** The description keeps chunk `i` under
  the store key `start_index + i` in every operation, and expects
  `push_vec_raw` to be used after draining the front. In the code,
  `push_vec` and `push_vec_raw` use `i` as the key. `insert` uses
  `i + start_index` as the directory position as well as the key.

## Model

| member | source | states |
|---|---|---|
| Chunks.DivModIsDivision | data-structures/src/big_vec.rs:491-492 | the quotient and remainder used for index translation are `index / cap` and `index % cap`; `DivMod` computes them by repeated subtraction and its own contract gives `index == q * cap + o` with `o < cap` |
| BigVecs.New | data-structures/src/big_vec.rs:33-40 | `new()` panics exactly for a zero-sized element (division by zero); otherwise it is empty, starts at key 0, its capacity is the largest `c` with `c * size <= 1_000_000`, and it is valid exactly when the element size is at most 1_000_000 |
| BigVecs.NewForU32 | data-structures/src/big_vec.rs:36 | a 4-byte element gives 250000 elements per chunk |
| BigVecs.WithCapacityPerVec | data-structures/src/big_vec.rs:60-67 | the new BigVec is empty with length 0 and the requested capacity; with a positive capacity it is valid and holds no element |
| BigVecs.ElemsLength | data-structures/src/big_vec.rs:442-444 | on a well-formed BigVec `len()`, the sum of the directory, is the number of elements the chunks hold |
| BigVecs.EmptyIffNoElems | data-structures/src/big_vec.rs:459-461 | `is_empty()` (an empty directory) holds exactly when `len()` is 0 and exactly when there are no elements |
| BigVecs.ChunkCountOfValid | data-structures/src/big_vec.rs:476-478 | on a valid BigVec `vec_nb()` is `len()` divided by the capacity, rounded up |
| BigVecs.TranslateIndex | data-structures/src/big_vec.rs:490-503 | on a valid BigVec `get_correct_indexes` never panics and finds a location exactly for indexes below `len()`: the key of chunk `index / cap` shifted by `start_index`, and offset `index % cap`, which lies inside that chunk |
| BigVecs.GetIsElems | data-structures/src/big_vec.rs:156-159 | on a valid BigVec `get(i)` is element `i` of the flat sequence when `i < len()` and `None` otherwise, and never panics |
| BigVecs.SetAtUpdatesOne | data-structures/src/big_vec.rs:189-197 | writing through `get_mut(i)` replaces exactly element `i`, keeps the directory, `start_index` and validity; past the end `get_mut` gives `None` |
| BigVecs.PushAppends | data-structures/src/big_vec.rs:80-99 | on a valid BigVec `push(x)` succeeds, appends `x` to the elements, adds one to `len()` and keeps the BigVec valid; it opens a new one-element chunk exactly when the directory is empty or the last chunk is full, and otherwise grows the last chunk by one |
| BigVecs.PopRemovesLast | data-structures/src/big_vec.rs:114-129 | with `start_index == 0`, `pop()` gives `None` on an empty BigVec and otherwise returns the last element; the rest stays valid with one element fewer, and the last directory entry disappears exactly when it drops to zero |
| BigVecs.PopAfterPopFirstVecReturnsWrongElement | data-structures/src/big_vec.rs:119-126 | after `pop_first_vec()` on chunks `[0]`, `[10]`, `[20]` (capacity 1), `pop()` reads the bare key 1: it returns 10 instead of 20 and removes the wrong chunk; with the key shifted by `start_index` it returns 20 |
| BigVecs.PopKeyedRemovesLast | data-structures/src/big_vec.rs:114-129 | `pop()` reading the last chunk under `start_index + n - 1`, the key `push` writes: on every valid BigVec, whatever its `start_index`, it removes and returns the last element as above |
| BigVecs.PopFirstVecDrainsFront | data-structures/src/big_vec.rs:315-325 | `pop_first_vec()` gives `None` and changes nothing on an empty BigVec; otherwise it returns the first chunk, the rest stays valid, the old elements are that chunk followed by the new ones, `start_index` advances by one, and `get(i)` afterwards is the old `get(i + chunk size)` |
| BigVecs.DrainFrontIsElems | data-structures/src/big_vec.rs:315-325 | calling `pop_first_vec()` until it returns `None` yields all elements of a valid BigVec in order |
| BigVecInsert.InsertRejectsExactly | data-structures/src/big_vec.rs:226-236 | on a valid BigVec, `insert(index, x)` panics as out of bounds exactly when `index` is neither below `len()` nor equal to `vec_nb() * cap` |
| BigVecInsert.InsertSplices | data-structures/src/big_vec.rs:226-290 | with `start_index == 0` and `index <= len()`, `insert` as written is accepted exactly for indexes below `len()` and for `len()` when every chunk is full; an accepted insert leaves the BigVec valid with `x` spliced in at position `index` |
| BigVecInsert.InsertPastEndAppends | data-structures/src/big_vec.rs:230-245 | when the last chunk is partial, `insert(vec_nb() * cap, x)` is accepted although the index lies past `len()`: `x` goes into a new chunk at the end and the BigVec stops being valid |
| BigVecInsert.InsertAtLenPanics | data-structures/src/big_vec.rs:230-235 | with capacity 3 and chunks `[1, 2, 3]`, `[4]`: `insert(4, 5)` at `len()` panics while the corrected insert appends 5, and `insert(6, 5)` is accepted |
| BigVecInsert.InsertIntendedSplices | data-structures/src/big_vec.rs:226-290 | the insert with the documented bounds check, looking chunk `index / cap` up under `start_index + index / cap`: on every valid BigVec, whatever its `start_index`, it panics exactly for `index > len()`; for every other index it keeps the BigVec valid, adds one to `len()` and splices `x` in at `index` |
| BigVecInsert.InsertAfterPopFirstVecOverwrites | data-structures/src/big_vec.rs:238-245 | after `pop_first_vec()` on chunks `[0, 1, 2]`, `[3, 4, 5]`, `[6]` (capacity 3), `insert(3, 8)` takes position `1 + start_index` as past the directory's end and writes `[8]` over `[6]` under key 2, leaving a BigVec that is not well-formed; the corrected insert gives 3, 4, 5, 8, 6 |
| BigVecInsert.CascadeShifts | data-structures/src/big_vec.rs:260-289 | the restructuring loop, entered after a full chunk with an element `t` to carry and with chunk `i` under key `start_index + i`, succeeds, keeps the BigVec valid and inserts `t` at the front of the chunks that follow |
| BigVecInsert.InsertAtNeverOutOfBounds | data-structures/src/big_vec.rs:238-289 | after the bounds check, whatever the position and the keys, the rest of `insert` never reports an out-of-bounds index |
| BigVecInsert.CascadeNeverOutOfBounds | data-structures/src/big_vec.rs:265-289 | the restructuring loop only ever panics on a missing chunk |
| BigVecBulk.ChunkSizesShape | data-structures/src/big_vec.rs:390-396 | the loop of `push_vec_raw` cuts `m` elements into chunks of sizes between 1 and the capacity that add up to `m`, all full but the last |
| BigVecBulk.PushVecRawAppends | data-structures/src/big_vec.rs:387-397 | with `start_index == 0`, `push_vec_raw(es)` appends `es` in new chunks after the existing ones and keeps the BigVec well-formed; it stays valid when the old last chunk was full |
| BigVecBulk.PushVecRawKeyedAppends | data-structures/src/big_vec.rs:387-397 | `push_vec_raw` storing new chunks from key `start_index + vec_nb()`: on every well-formed BigVec, whatever its `start_index`, it appends `es` as above |
| BigVecBulk.PushVecRawAfterPopFirstVecLosesChunk | data-structures/src/big_vec.rs:388-395 | after `pop_first_vec()` on chunks `[0, 1, 2]`, `[3, 4, 5]`, `[6]` (capacity 3), `push_vec_raw([7])` writes `[7]` over `[6]` under key 2, leaving a BigVec that is not well-formed; the corrected version gives 3, 4, 5, 6, 7 |
| BigVecBulk.PushVecRawLeavesGap | data-structures/src/big_vec.rs:371-397 | because `push_vec_raw` does not fill the current last chunk, pushing `[7, 8]` after chunks `[0, 1, 2]`, `[3, 4, 5]`, `[6]` (capacity 3) appends them in a new chunk and leaves a partial chunk in the middle |
| BigVecBulk.PushVecAppends | data-structures/src/big_vec.rs:344-369 | on a valid BigVec with `start_index == 0`, `push_vec(es)` appends `es` and keeps the BigVec valid; it grows the last chunk when `es` fits, else fills it to the capacity and opens new chunks for the rest |
| BigVecBulk.PushVecKeyedAppends | data-structures/src/big_vec.rs:344-369 | `push_vec` with every key shifted by `start_index`: on every valid BigVec, whatever its `start_index`, it appends `es` and keeps the BigVec valid, with the directory changes above |
| BigVecBulk.PushVecAfterPopFirstVecMisplaces | data-structures/src/big_vec.rs:345-356 | after `pop_first_vec()` on chunks `[0, 1, 2]`, `[3, 4, 5]`, `[6]` (capacity 3), `push_vec([7])` appends 7 to the full chunk under key 1, which then holds four elements where the directory records two, so the result is not well-formed; the corrected version grows `[6]` into `[6, 7]` and stays valid |
| BigVecBulk.FromHoldsVec | data-structures/src/big_vec.rs:531-537 | `From<Vec<V>>` panics for a zero-sized element; for element sizes up to 1_000_000 it gives a valid BigVec at key 0 holding exactly the vector |
| BigVecBulk.FromNineU32 | data-structures/src/big_vec.rs:531-537 | nine 4-byte values make a non-empty BigVec of capacity 250000 holding them in order |
| BigVecBulk.AppendLosesChunks | data-structures/src/big_vec.rs:415-427 | `append` with a non-empty `other` of the same capacity succeeds, but the directory then names chunks the store lacks, so the result is not well-formed |
| BigVecBulk.AppendThenGetPanics | data-structures/src/big_vec.rs:415-427 | appending one chunk `[7]` to an empty BigVec gives `len() == 1`, yet `get(0)` panics; the corrected append gives `Some(7)` |
| BigVecBulk.AppendIntendedConcats | data-structures/src/big_vec.rs:415-427 | the corrected `append`, which moves each chunk of `other`, gives a well-formed BigVec whose elements are those of `self` followed by those of `other`; it is valid when both are valid and `self`'s last chunk is full |
| BigVecBulk.MoveChunksMoves | data-structures/src/big_vec.rs:419-423 | the copying loop puts chunk `i` of the source under key `to + i`, adds no other key and leaves every other key of the destination as it was |
| BigVecIter.Next | data-structures/src/big_vec.rs:615-634 | `next()` panics exactly when the current chunk is drained, another chunk is due and its key is missing; it yields the head of the current chunk while there is one, yields `None` after the last chunk, and every yield moves the iterator forward |
| BigVecIter.ToSeqIsElems | data-structures/src/big_vec.rs:594-634 | iterating a well-formed BigVec with `start_index == 0` never panics and yields exactly its elements |
| BigVecIter.FromIterates | data-structures/src/big_vec.rs:531-634 | iterating the BigVec built from a vector yields that vector |
| BigVecIter.IterAfterPopFirstVecYieldsNothing | data-structures/src/big_vec.rs:598-609 | the iterator starts on the bare key 0: after `pop_first_vec()` on chunks `[1, 2]`, `[3, 4]` it yields nothing although `[3, 4]` is still held |
| NfIds.IntegerToIdPanics | test-engine/src/nf_ids.rs:108-126 | `to_id` on an integer type panics exactly for values outside the `u64` range: never for `u8`, `u16` and `u32`, for every negative value of a signed type |
| NfIds.IntegerExamples | test-engine/src/nf_ids.rs:108-126 | `-1i32` and `2^64` as `u128` panic; `7u8` is integer id 7 |
| NfIds.ParseShowDecimal | test-engine/src/nf_ids.rs:55 | `str::parse::<u64>` reads back the decimal digits of every `u64`, with or without a leading `+` |
| NfIds.PlainIsString | test-engine/src/nf_ids.rs:36-38 | a string that is empty or does not start with `<`, `#`, `[` or `{` becomes a string id unchanged |
| NfIds.LoneOpenerPanics | test-engine/src/nf_ids.rs:39-41 | an opener alone panics on the `pop().unwrap()` of the empty rest |
| NfIds.UnclosedIsString | test-engine/src/nf_ids.rs:39-97 | when the last character does not close the opener, or nothing lies between them, the popped character is pushed back and the rest without the opener is a string id |
| NfIds.AngleIsString | test-engine/src/nf_ids.rs:39-47 | `<name>` with a non-empty name is the string id `name` |
| NfIds.HashIsInteger | test-engine/src/nf_ids.rs:48-60 | `#body#` panics when `body` does not parse as a `u64`, else it is the integer id of that value |
| NfIds.IntegerRoundTrip | test-engine/src/nf_ids.rs:48-56 | `#n#` with the decimal digits of a `u64` `n` is the integer id `n` |
| NfIds.TakePairsOfDigits | test-engine/src/nf_ids.rs:69-72 | an even-length string of hex digits decodes to half as many bytes, byte `i` being `16 * digit(2i) + digit(2i+1)` |
| NfIds.TakePairsOddDigits | test-engine/src/nf_ids.rs:69-72 | an odd-length string of hex digits panics on the slice past the end |
| NfIds.BracketIsBytes | test-engine/src/nf_ids.rs:61-77 | `[hex]` with an even number of hex digits is the bytes id of the decoded pairs; with an odd number it panics |
| NfIds.BytesRoundTrip | test-engine/src/nf_ids.rs:61-73 | bracketing the lower-case hex of a non-empty byte string reads back as the bytes id of that string |
| NfIds.PlusSignInHexPair | test-engine/src/nf_ids.rs:71 | `u8::from_str_radix` takes a leading `+`, so `[+f]` is the one-byte id 15 |
| NfIds.BraceIsRuid | test-engine/src/nf_ids.rs:78-93 | `{body}` whose text without dashes starts with 64 hex digits, of either case, is the RUID whose byte `i` is `16 * digit(2i) + digit(2i+1)`; when the text without dashes is fewer than 64 hex digits, the slice past its end panics |
| NfIds.RuidRoundTrip | test-engine/src/nf_ids.rs:78-93 | the dashed 8-8-8-8-byte hex text of a RUID between braces reads back as that RUID |
| References.FormatAppend | test-engine/src/references.rs:24-28 | the reference key of a concatenation is the concatenation of the keys |
| References.FormatChar | test-engine/src/references.rs:24-28 | a single `_` or space has the empty key; any other character has its lower-cased self as key |
| References.FormatClean | test-engine/src/references.rs:24-28 | a key holds no `_`, no space and no upper-case letter, and is no longer than the name |
| References.FormatOfClean | test-engine/src/references.rs:24-28 | a name without separators or upper-case letters is its own key |
| References.FormatIdempotent | test-engine/src/references.rs:24-40 | formatting a key again changes nothing |
| References.FormatIgnoresSeparator | test-engine/src/references.rs:24-28 | inserting a `_` or a space anywhere leaves the key unchanged |
| References.FormatKeepsOthers | test-engine/src/references.rs:24-28 | any other character shows up lower-cased at its place in the key |
| References.FormatIgnoresCase | test-engine/src/references.rs:24-28 | names equal after lower-casing share a key |
| References.RadixFindsRadix | test-engine/src/references.rs:24-28 | "Radix" and "radix" both have the key "radix" |
| References.DutchAuctionKeys | test-engine/src/references.rs:24-28 | "dutch_auction" and "dutch auction" both have the key "dutchauction" |
| EnvironmentReference.EnvFormatAt | test-engine/src/environment_reference.rs:9-11 | the result has the name's length; each `_` becomes a space and every other character is lower-cased in place |
| EnvironmentReference.EnvFormatClean | test-engine/src/environment_reference.rs:9-11 | the result has no `_` and no upper-case letter, and keeps every space of the name |
| EnvironmentReference.EnvFormatIdempotent | test-engine/src/environment_reference.rs:9-11 | formatting twice is formatting once |
| EnvironmentReference.KeyOfEnvFormat | test-engine/src/environment_reference.rs:5-12 | an environment name has the same reference key as the raw name |
| EnvironmentReference.EnvFormatKeepsSpaces | test-engine/src/environment_reference.rs:9-11 | "My_Arg x" becomes "my arg x", while its reference key is "myargx" |

## Left out

- The key-value store's persistence, SBOR encoding and fee metering: the store is a Dafny `map`.
- `BigVecItemRef` and `BigVecItemRefMut` as borrow guards: `get` returns the element and `get_mut` is modelled as a write (`SetAt`).
- `internal_representation`, `structure()`, `capacity_per_vec()` and `Default`: plain reads of the state, or an alias of `new`.
- `size_of::<V>()`: it becomes the parameter `elemSize` of `New` and `From`.
- Integer width: `usize` is unbounded, so the model does no overflow checks on `start_index + n`, which cannot overflow in practice. The two `usize` underflows the code can reach are modelled as a `SubtractOverflow` panic: `pop` on a zero directory entry, and `push_vec`'s `capacity_per_vec - *vec_size` when the last entry exceeds the capacity.
- `append` and the iterator with store keys shifted by `start_index` are not modelled. Their lemmas about the code as written assume `start_index == 0`. A concrete lemma shows the iterator failing after `pop_first_vec`.
- `push_vec_raw` with capacity 0 never terminates in the code. The model returns `Panic(LoopsForever)` instead.
- `NonFungibleLocalId::string` and `NonFungibleLocalId::bytes` validate their argument by rules of the ledger library, which is not part of this model. The model takes them as the two predicates of `Validators`.
- The `ToId` implementations that wrap or pass through an existing id (`NonFungibleLocalId`, `Vec<u8>`, `[u8; 32]` and the four id subtypes) are not modelled separately. They appear only as the constructors reached from `String::to_id`.
- Characters are modelled as single units. Byte-offset slicing of non-ASCII text, and the case mapping of non-ASCII letters in `to_lowercase`, are not modelled: `Lower` changes only `A`-`Z`.
- The rest of the test engine (manifest building, the ledger simulator, receipts, the environment encoder) and the maths library are outside this model.

## Findings

| source | as written | input that shows it | evidently intended | confidence | as-written member | corrected member |
|---|---|---|---|---|---|---|
| data-structures/src/big_vec.rs:230-235 | the bounds check rejects `index == len()` when the last chunk is partial, and accepts `index == vec_nb() * cap` past `len()`, which breaks the full-chunks invariant | capacity 3, chunks `[1, 2, 3]`, `[4]`: `insert(4, 5)` panics, `insert(6, 5)` succeeds | every index up to `len()` is accepted and nothing beyond | high, not executed | BigVecInsert.InsertAtLenPanics | BigVecInsert.InsertIntendedSplices |
| data-structures/src/big_vec.rs:119-126 | `pop` looks the last chunk up under `n - 1`, ignoring `start_index`, which `push` and `pop_first_vec` use | capacity 1, push 0, 10, 20, `pop_first_vec()`, then `pop()` returns 10 | `pop` returns the last element, 20 | high, not executed | BigVecs.PopAfterPopFirstVecReturnsWrongElement | BigVecs.PopKeyedRemovesLast |
| data-structures/src/big_vec.rs:388-395 | `push_vec_raw` stores new chunks from the bare key `vec_nb()`, ignoring `start_index` | capacity 3, chunks `[0, 1, 2]`, `[3, 4, 5]`, `[6]`, `pop_first_vec()`, then `push_vec_raw([7])` writes over `[6]` | the new chunk goes under `start_index + vec_nb()` and 6 is kept | high, not executed | BigVecBulk.PushVecRawAfterPopFirstVecLosesChunk | BigVecBulk.PushVecRawKeyedAppends |
| data-structures/src/big_vec.rs:345-356 | `push_vec` tops up the chunk under the bare key `vec_nb() - 1`, ignoring `start_index` | the same BigVec after `pop_first_vec()`, then `push_vec([7])` makes the full chunk `[3, 4, 5, 7]` | 7 is appended to the last chunk, `[6]` | high, not executed | BigVecBulk.PushVecAfterPopFirstVecMisplaces | BigVecBulk.PushVecKeyedAppends |
| data-structures/src/big_vec.rs:238-245 | `insert` adds `start_index` to the chunk position and then uses the sum as a directory position | the same BigVec after `pop_first_vec()`, then `insert(3, 8)` writes `[8]` over `[6]` | 8 goes in front of 6 | high, not executed | BigVecInsert.InsertAfterPopFirstVecOverwrites | BigVecInsert.InsertIntendedSplices |
| data-structures/src/big_vec.rs:417-423 | `other.vec_structure` is emptied by `Vec::append` before the loop reads its length, so no chunk is copied | capacity 2, append a BigVec holding `[7]` to an empty one: `len()` is 1 and `get(0)` panics | each chunk of `other` is moved to the next key of `self` | high, not executed | BigVecBulk.AppendThenGetPanics | BigVecBulk.AppendIntendedConcats |
