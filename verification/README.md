# Verified cores of the Cajeta runtime and its benchmark references

This project models the self-contained algorithms in Cajeta's C runtime fragments and in its
benchmark reference and generator scripts, and proves what each is for. `dafny verify
dfyconfig.toml` checks all of it.

- **Bounding-volume hierarchy** (`BvhTree`, `BvhBuilder`, `BvhBlock`, `BvhWalk`, `Float32`). The
  recursive builder sorts a range of primitives in place, cuts it at the median and writes a
  depth-first node table whose escape links replace a stack. Building a block and walking it
  reports exactly the primitives whose own box passes the test, each once.
- **Edit distance, trigram index, query generator** (`Osa`, `Trigram`, `QueryGen`). The rolling rows
  compute the least cost of any alignment; the inverted index returns exactly the keys that share
  a gram; every generated query is one edit from its source key and finds it again.
- **SipHash-2-4 and the integer mixers** (`SipHash`, `IntegerMix`). The streaming state equals the
  function of Aumasson and Bernstein's "SipHash: a fast short-input PRF", section 2, for every
  cutting of the message; the mixers are bijections.
- **Wire codecs** (`Varint`, `Protobuf`, `ProtobufExact`, `Avro`, `AvroSchema`, `Decimals`). The emitted encoders and
  decoders for any list of field kinds, and the schema printer with the scanner that reads it.
- **Execution epochs** (`Epoch`, `EpochRuntime`). Popping to a depth restores everything the program
  saw when that level was pushed, and frees each name registered since exactly once.
- **Shadow table** (`ShadowTable`). The open-addressed table of non-blocking modes refines a map.
- **Smaller cores**: the Arrow extension metadata (`ArrowMetadata`), the layered dependency graph
  (`DiGraph`), the reactor's start and shutdown under interleaving (`ReactorLifecycle`), the Vulkan
  tick arithmetic and choices (`VulkanTicks`), the synthetic program's run (`SynthProgram`).

Code that changes state in place is modelled by classes, arrays and loops, each proved against a
specification function; the lemmas are about those functions. Layouts, byte orders and constants are
told apart from those functions too: word by word and byte by byte in the caller's own numbers, or as
known answers such as the published SipHash vector (`SipHash.PublishedVector`), a whole block
(`BvhBlock.TwoBoxBlock`) and whole messages (`Protobuf.MessageInBytes`, `Avro.RecordInBytes`).

Where a promise is not true of all inputs, a lemma gives the exact condition:

- a block's reference offset, its largest structural word, survives its float32 form exactly while
  18·count - 1 is at most 2^24 (`BvhBlock.RefOffsetExactIff`), up to where the walk reads every reference where it was stored
  (`BvhBlock.LastReadIff`), and a stored box is the caller's own exactly inside the
  ±1e30 sentinels (`BvhTree.LeafBoxIsOwnIff`);
- varints carry exactly the non-negative integers (`Varint.SurvivesIff`), a protobuf chunk decodes to
  its field under every tail and every slots exactly when it carries none that is negative
  (`ProtobufExact.ChunkSurvivesIff`), and so does a whole record of the usual magnitudes
  (`ProtobufExact.TightRoundTripIff`);
- an Avro record decodes to itself exactly when its int64 fields lie strictly between -2^62 and 2^62
  (`Avro.RoundTripIff`);
- after any run the Avro encoder refuses a schema text exactly when its kinds are wrong and it is not
  as long as the last one of the right kinds (`Avro.RefusedIff`);
- the exported block size is read back exactly when it is not negative
  (`ArrowMetadata.ExportReadsBack`);
- the shadow table answers wrongly only for the marker -1, and then only while a slot is free
  (`ShadowTable.GetFaithfulIff`);
- the wake byte reaches the open pipe end exactly when no other shutdown has run its second section
  in between (`ReactorLifecycle.WakeReachesOpenIff`).

Where code and comments disagree, the model follows the code:

- `bench/scripts/gen_wire.py:360-363` says the Avro encoder refuses a schema whose field types differ.
  It compares a text's length with the remembered one first, so one of equal length is taken
  unread: the promise holds only as long as no text of the right kinds has come
  (`Avro.RefusesAllWrongIff`).
- `runtime/native/cajeta_prof_abi.h:265` describes a non-monotonic span as starting before the previous
  span did; the tracker compares with the previous span's end.

## Model

| member | source | states |
|---|---|---|
| Float32.RoundIsNearest | runtime/native/cajeta_bvh.c:89 | the float32 word of a structural integer is a representable value, and none is nearer |
| Float32.SurvivesIff | runtime/native/cajeta_bvh.c:1 | a natural comes back from its float32 word if and only if it is itself a float32 value |
| Float32.ExactUpTo | runtime/native/cajeta_bvh.c:1 | every integer up to 2^24 is an exact word |
| Float32.TiesToEven | runtime/native/cajeta_bvh.c:89 | halfway cases go to the even significand, down and up, in literal values |
| BvhTree.ExtentEncloses | runtime/native/cajeta_bvh.c:56-67 | the accumulated boxes enclose every primitive and centroid of the range, whatever the coordinates |
| BvhTree.ExtentLeast | runtime/native/cajeta_bvh.c:56-67 | nothing smaller encloses them and the start box |
| BvhTree.ExtentIsExactUnion | runtime/native/cajeta_bvh.c:56-68 | inside the sentinels a box is the least that encloses its primitives: another box encloses it if and only if it encloses each of them |
| BvhTree.LeafBoxIsOwnIff | runtime/native/cajeta_bvh.c:56-68 | a leaf stores its primitive's own box if and only if that box lies inside the sentinels |
| BvhTree.BoxesByAxis | runtime/native/cajeta_bvh.c:56-68 | enclosing, union and the ±1e30 limit, axis by axis |
| BvhTree.BoxInWords | runtime/native/cajeta_bvh.c:5-6 | word k of a box is coordinate k of its lower corner, word 3+k of its upper one |
| BvhTree.LongestAxis | runtime/native/cajeta_bvh.c:76-79 | no axis has a longer centroid extent than the one chosen, and every earlier one is strictly shorter |
| BvhTree.HeightIsCeilLog2 | runtime/native/cajeta_bvh.c:83-85 | halving a range is done at most k levels deep if and only if it has at most 2^k primitives |
| BvhBuilder.Measure | runtime/native/cajeta_bvh.c:56-67 | one pass over the range computes both unions |
| BvhBuilder.SortRange | runtime/native/cajeta_bvh.c:80-82 | the range comes out rearranged and in order on the axis; nothing outside moves |
| BvhBuilder.EmitLeaf | runtime/native/cajeta_bvh.c:70-74 | a leaf owns the reference slot of its position and carries the caller's index |
| BvhBuilder.BuildHalves | runtime/native/cajeta_bvh.c:80-89 | sorting, cutting and building both halves under a root whose box is in place gives the whole subtree, cut at medians throughout |
| BvhBuilder.Build | runtime/native/cajeta_bvh.c:50-91 | a subtree over n primitives takes the next 2n-1 nodes and n slots and no other word, escapes past itself, its right child at the left one's escape, its leaves in slot order over a rearrangement of the range |
| BvhBuilder.CutKept | runtime/native/cajeta_bvh.c:80-85 | building the halves, which rearranges them, keeps the cut between them |
| BvhWalk.NodesThreaded | runtime/native/cajeta_bvh.c:5-8 | every escape leads forward and not past the table, and every leaf has a reference slot |
| BvhWalk.VisitSubtree | runtime/native/cajeta_bvh.c:5-8 | from a subtree's root the walk reports that subtree's hits in leaf order and then goes on at its escape |
| BvhWalk.WalkIsBruteForce | runtime/native/cajeta_bvh.c:1-8 | for every box test that is monotone under enclosure the walk over a table equals testing every primitive |
| BvhWalk.SubtreeHeight | runtime/native/cajeta_bvh.c:83-89 | a subtree in the node table, its children found through the stored escapes, is exactly as high as the halving of its range |
| BvhWalk.HitsOfPermutation | runtime/native/cajeta_bvh.c:8 | leaf order does not change which indices are reported, nor how often |
| BvhWalk.HitsOnce | runtime/native/cajeta_bvh.c:8 | over the caller's numbering each index is reported once or not at all |
| BvhBlock.RefOffsetExactIff | runtime/native/cajeta_bvh.c:126-135 | the reference offset is 18·count - 1, and its word is exact if and only if that is at most 2^24 |
| BvhBlock.BlockWordsIff | runtime/native/cajeta_bvh.c:93-101 | for a count up to 2^24 the size read from the header is the size allocated if and only if the reference offset fits, for both geometries |
| BvhBlock.BlockHeightIff | runtime/native/cajeta_bvh.c:83-89 | the node table of a block is at most k levels high if and only if the block holds at most 2^k primitives |
| BvhBlock.LastReadIff | runtime/native/cajeta_bvh.c:5-8 | a walk whose test always passes comes to the last leaf, and reads its reference where it was stored if and only if the reference offset fits |
| BvhBlock.FirstTooLarge | runtime/native/cajeta_bvh.c:105-141 | from the first count that does not fit, 932068 boxes, that read lies past the block |
| BvhBlock.WriteHeader | runtime/native/cajeta_bvh.c:130-137 | the eight header words, and nothing behind them |
| BvhBlock.FillBlock | runtime/native/cajeta_bvh.c:125-137 | header and tables form a block over a permutation of the primitives; words past the tables stay |
| BvhBlock.BuildAabbs | runtime/native/cajeta_bvh.c:105-141 | null exactly when there is nothing to build, otherwise a fresh block over the boxes |
| BvhBlock.TrianglePrim | runtime/native/cajeta_bvh.c:167-174 | a triangle's box is the least that encloses its three vertices |
| BvhBlock.AabbPrimsAt | runtime/native/cajeta_bvh.c:115-123 | box i's corners are words 6i+k and 6i+3+k of the caller's array, its centroid their middle, its index i |
| BvhBlock.SoupPrimsAt | runtime/native/cajeta_bvh.c:164-174 | on every axis triangle t's box runs from the least to the greatest of the words (3t+v)·stride+k, and its centroid is their mean |
| BvhBlock.SoupPacked | runtime/native/cajeta_bvh.c:163-176 | in a block, packed word 9t+3v+k behind the tables is the soup's word (3t+v)·stride+k |
| BvhBlock.PackTriangle | runtime/native/cajeta_bvh.c:175-176 | one more triangle's nine words packed behind those before, which stay |
| BvhBlock.BuildTriangles | runtime/native/cajeta_bvh.c:146-193 | null exactly when there is nothing to build, otherwise a fresh block over the soup with all vertices packed behind the tables |
| BvhBlock.Walk | runtime/native/cajeta_bvh.c:1-8 | over a block in memory: every primitive whose box passes is reported exactly once by its original index, within nodeCount steps |
| BvhBlock.QueryAabbs | runtime/native/cajeta_bvh.c:1-141 | end to end, building and walking report index j once if box j passes and never otherwise |
| BvhBlock.BlocksInWords | runtime/native/cajeta_bvh.c:105-190 | a block over n boxes takes 19n-1 words, over n triangles 28n-1, and its header's eight words |
| BvhBlock.ThreeLeaves | runtime/native/cajeta_bvh.c:83-89 | of three primitives the left half is one: node 1 is a leaf, node 2 holds the other two, with every escape and slot |
| BvhBlock.TwoBoxBlock | runtime/native/cajeta_bvh.c:105-141 | all 37 words of the block over two boxes given in descending order |
| Osa.NextRow | bench/scripts/search_ref.py:110-117 | from the two rows before, the next row of the distances between prefixes |
| Osa.Compute | bench/scripts/search_ref.py:102-119 | the three rolling rows end in the distance of the two strings |
| Osa.DistIsLowerBound | bench/scripts/search_ref.py:102-119 | no alignment of two prefixes is cheaper than the table's entry |
| Osa.DistIsAttained | bench/scripts/search_ref.py:102-119 | some alignment costs exactly the entry |
| Osa.DistanceIsMinimum | bench/scripts/search_ref.py:102-119 | the distance is the minimum cost over all alignments of match, substitute, insert, delete and adjacent-swap steps |
| Osa.DistanceSymmetric | bench/scripts/search_ref.py:102-119 | the distance is symmetric |
| Osa.DistBounds | bench/scripts/search_ref.py:102-119 | it lies between the difference of the lengths and the longer length |
| Osa.DistanceZeroIff | bench/scripts/search_ref.py:102-119 | it is zero exactly on equal strings |
| Osa.ShortDistances | bench/scripts/search_ref.py:102-119 | a swap, a substitution and an insertion cost one each, and case counts |
| Osa.SwappedPairIsFinal | bench/scripts/search_ref.py:102-119 | a swapped pair is not edited again: "ca" and "abc" are at distance 3 |
| Trigram.PostingsMember | bench/scripts/search_ref.py:135-138 | a gram's posting list holds exactly the keys that have the gram |
| Trigram.GramsAre | bench/scripts/search_ref.py:93-99 | how many grams a text has, how long each is, and every character of each, lower-cased |
| Trigram.PostingsCount | bench/scripts/search_ref.py:133-138 | a posting list is in key order and names a key as often as the key has the gram |
| Trigram.BuildIndex | bench/scripts/search_ref.py:133-138 | the index holds every gram's posting list, and their lengths add up to the number of gram occurrences |
| Trigram.Candidates | bench/scripts/search_ref.py:141-145 | a query's candidates are exactly the keys that share a gram with it |
| QueryGen.ScaledBelow | bench/scripts/search_ref.py:48-50 | a draw below m is below m, for every state and every m |
| QueryGen.ScaledIsShare | bench/scripts/search_ref.py:48-50 | a draw is the share of m that the top sixteen bits are of 2^16, rounded down |
| QueryGen.Lcg.Rnd | bench/scripts/search_ref.py:44-50 | the new state and the scaled draw |
| QueryGen.Keys | bench/scripts/search_ref.py:63-69 | the keys the generator's seed determines, each of eight to sixteen lower-case letters |
| QueryGen.FirstKey | bench/scripts/search_ref.py:44-69 | seed 777 gives "dholpqkjtv" first, and the state behind it |
| QueryGen.Queries | bench/scripts/search_ref.py:72-90 | the queries the seed determines, each one substitution, transposition or deletion, in bounds, of one of the keys |
| QueryGen.FirstQueries | bench/scripts/search_ref.py:72-90 | seed 999 over two keys: one deletion, one substitution and one transposition, with the states behind them |
| QueryGen.EditedTexts | bench/scripts/search_ref.py:79-88 | what those edits make of the keys |
| QueryGen.EditWithinOne | bench/scripts/search_ref.py:79-88 | one edit is at distance at most 1 |
| QueryGen.EditSharesGram | bench/scripts/search_ref.py:79-99 | a key of at least seven letters shares a trigram with every edit of it |
| QueryGen.SevenIsLeast | bench/scripts/search_ref.py:79-99 | seven is the least such length: every shorter one has a key and an edit that share none |
| QueryGen.SourceIsFound | bench/scripts/search_ref.py:141-145 | the index always returns the key a query was drawn from, which is within distance 1 of it |
| QueryGen.EveryQueryCounts | bench/scripts/search_ref.py:140-145 | the candidate total is at least the number of queries |
| QueryGen.Count | bench/scripts/search_ref.py:133-145 | the two published totals: gram occurrences, and candidates over all queries |
| QueryGen.CandidatePairs | bench/scripts/search_ref.py:140-145 | the candidate total is the number of pairs of a query and a key that share a gram |
| SipHash.RoundUndone | runtime/native/cajeta_rt_hash.c:225-231 | a round loses nothing: its inverse gives the four words back |
| SipHash.UnroundUndone | runtime/native/cajeta_rt_hash.c:225-231 | and every state is a round's result: a round is a permutation |
| SipHash.HeldMore | runtime/native/cajeta_rt_hash.c:266-285 | bytes that do not fill the buffer are only held back |
| SipHash.HeldWord | runtime/native/cajeta_rt_hash.c:272-280 | bytes that complete a word advance the state by that word |
| SipHash.HeldFinish | runtime/native/cajeta_rt_hash.c:287-302 | at most seven bytes are ever held back, and finishing from them is the function of the whole message |
| SipHash.State.constructor | runtime/native/cajeta_rt_hash.c:244-252 | a new state stands for the empty message under its key |
| SipHash.State.Reset | runtime/native/cajeta_rt_hash.c:318-321 | so does a reset one, whatever was absorbed before |
| SipHash.State.SipRound | runtime/native/cajeta_rt_hash.c:225-231 | the fourteen assignments amount to the round of section 2 |
| SipHash.State.AbsorbBlock | runtime/native/cajeta_rt_hash.c:254-261 | one word compressed |
| SipHash.State.TopUp | runtime/native/cajeta_rt_hash.c:266-276 | the partly filled buffer is topped up first; if data is left over it is empty again |
| SipHash.State.TakeRest | runtime/native/cajeta_rt_hash.c:277-284 | whole words straight from the data, the rest held back |
| SipHash.State.Update | runtime/native/cajeta_rt_hash.c:263-285 | the state stands for the message with the data appended |
| SipHash.State.Digest | runtime/native/cajeta_rt_hash.c:287-303 | the first finish is SipHash-2-4 of the message under the key |
| SipHash.Feed | runtime/native/cajeta_rt_hash.c:323-366 | an update or a fixed-width write appends its bytes, the integers little-endian |
| SipHash.Stream | runtime/native/cajeta_rt_hash.c:307-366 | for every key and every sequence of updates and writes, empty ones included, the result is SipHash-2-4 of the concatenated bytes |
| SipHash.OneShot | runtime/native/cajeta_rt_hash.c:335-343 | the one-shot function agrees, a length of zero or less counting as the empty message |
| SipHash.WriteCompressesValue | runtime/native/cajeta_rt_hash.c:361-366 | behind whole words, a 64-bit integer written little-endian compresses that integer itself |
| SipHash.PublishedVector | runtime/native/cajeta_rt_hash.c:221-303 | the vector of the paper: key 00..0f and message 00..0e give 0xa129ca6149be45e5 |
| SipHash.PublishedVectorAsWrites | runtime/native/cajeta_rt_hash.c:345-366 | the same message spelled by four fixed-width integer writes |
| SipHash.PaddingIs | runtime/native/cajeta_rt_hash.c:287-295 | the padded message: null bytes, then the length modulo 256, up to a whole number of words |
| SipHash.MessageGrows | runtime/native/cajeta_rt_hash.c:323-366 | the message of a list of pieces is theirs in order |
| IntegerMix.FastIntMixBijective | runtime/native/cajeta_rt_hash.c:82-88 | the cheap mixer has an inverse on both sides |
| IntegerMix.SplitMixBijective | runtime/native/cajeta_rt_hash.c:72-80 | so has the finalizer |
| IntegerMix.MixersOnWords | runtime/native/cajeta_rt_hash.c:82-88 | the cheap mixer on literal words |
| IntegerMix.FinalizerOnWords | runtime/native/cajeta_rt_hash.c:72-80 | the finalizer on literal words |
| IntegerMix.Int64NeverCollides | runtime/native/cajeta_rt_hash.c:90-92 | under one seed two int64 hashes agree if and only if the values do |
| IntegerMix.Int32NeverCollides | runtime/native/cajeta_rt_hash.c:94-98 | the same for int32, through sign extension |
| IntegerMix.BooleanNeverCollides | runtime/native/cajeta_rt_hash.c:132-135 | under one seed two booleans' hashes agree if and only if the booleans do |
| IntegerMix.HashesOnValues | runtime/native/cajeta_rt_hash.c:90-135 | the three hashes on literal values and seeds |
| IntegerMix.SignsOnValues | runtime/native/cajeta_rt_hash.c:94-98 | sign extension on both signs |
| Varint.CountVar | bench/scripts/gen_wire.py:237-245 | counting agrees with the number of bytes written, the generator's varint_len included |
| Varint.PutVar | bench/scripts/gen_wire.py:247-257 | the bytes of v from p on, every other byte as it was, and the position after them |
| Varint.GetVar | bench/scripts/gen_wire.py:299-307 | the reader's loop computes the value and the position after it |
| Varint.VarRoundTrip | bench/scripts/gen_wire.py:247-307 | every non-negative integer is read back, whatever follows |
| Varint.VarByteAt | bench/scripts/gen_wire.py:247-257 | byte i of a varint holds the i-th group of seven bits, with the high bit set on all but the last |
| Varint.VarBytesOf300 | bench/scripts/gen_wire.py:247-257 | literal varints, a negative number's single byte among them |
| Varint.TenBytesReadNegative | bench/scripts/gen_wire.py:299-307 | ten bytes can spell a negative number; of the tenth only the lowest bit counts |
| Varint.SurvivesIff | bench/scripts/gen_wire.py:240-255 | an int64 is read back, whatever follows it, if and only if it is not negative |
| Varint.NineBytes | bench/scripts/gen_wire.py:247-257 | no int64 takes more than nine bytes |
| Varint.LengthBelowLimit | bench/scripts/gen_wire.py:62-67 | a length is at most m bytes exactly below the m-th limit |
| Varint.LoadOfStore | bench/scripts/gen_wire.py:284-286 | eight stored bytes load back |
| Varint.Le64At | bench/scripts/gen_wire.py:225 | byte i of a stored 64-bit pattern is its i-th base-256 digit: the lowest comes first |
| Varint.StoreOfLoad | bench/scripts/gen_wire.py:294-324 | any eight bytes are the stored form of what they load as |
| Protobuf.TagIsVarintIff | bench/scripts/gen_wire.py:276-283 | the literal tag bytes are the tag's varint, and as long as the generator counts, exactly for field numbers up to 2047 |
| Protobuf.Size | bench/scripts/gen_wire.py:259-269 | the emitted size, a fixed part and the varint lengths, is the sum the generator computes field by field |
| Protobuf.EncodedSize | bench/scripts/gen_wire.py:70-75 | and is the length of the encoding |
| Protobuf.Encode | bench/scripts/gen_wire.py:271-292 | a fresh buffer of exactly that size, filled with the fields' chunks in order |
| Protobuf.ChunksInBytes | bench/scripts/gen_wire.py:271-292 | three chunks byte by byte: the double 1.0, and tags of one and two bytes |
| Protobuf.MessageInBytes | bench/scripts/gen_wire.py:271-292 | a whole message of three fields byte by byte |
| Protobuf.Decoder.Decode | bench/scripts/gen_wire.py:294-335 | the tag loop over whatever the slots held: a record, with the slots it was read from left behind, or a read past the end |
| Protobuf.OddMessages | bench/scripts/gen_wire.py:298-324 | other wire types are read as varints; a field without a slot and a message that ends early fail |
| Protobuf.WideTag | bench/scripts/gen_wire.py:308-324 | of a tag's field number only the low 32 bits count |
| Protobuf.NegativeField | bench/scripts/gen_wire.py:308-324 | a field number with its 32nd bit set fails |
| Protobuf.SlotsAreRead | bench/scripts/gen_wire.py:325-335 | each field is read from the slot of its number, an int32 cut to its low 32 bits |
| Protobuf.DecodeChunk | bench/scripts/gen_wire.py:298-324 | one chunk sets its field's slot to the value it carries and no other |
| Protobuf.DecodeChunks | bench/scripts/gen_wire.py:298-324 | chunks in any order and number are assigned one after another, and decoding goes on behind them |
| Protobuf.LastOneWins | bench/scripts/gen_wire.py:228-229 | of several chunks of a field the last one wins; a field without any keeps what its slot held |
| Protobuf.RoundTripInAnyOrder | bench/scripts/gen_wire.py:271-335 | the chunks of a record with non-negative integers, permuted or repeated, decode to the record from any slots |
| Protobuf.RoundTrip | bench/scripts/gen_wire.py:271-335 | encode then decode is the identity on such records, from any slots |
| ProtobufExact.DecodeNegative | bench/scripts/gen_wire.py:240-255 | a field with a negative integer, last in a message, is cut off or leaves a byte from 0 to 127 in its slot |
| ProtobufExact.ChunkSurvivesIff | bench/scripts/gen_wire.py:271-324 | a chunk sets its slot to its value, whatever follows and whatever the slots hold, if and only if it carries no negative integer |
| ProtobufExact.LastNegativeIsLost | bench/scripts/gen_wire.py:271-335 | a record whose last field is its only negative integer comes back from no slots at all |
| ProtobufExact.DecodePays | bench/scripts/gen_wire.py:298-324 | bytes that decode to a record are at least as many as setting the slots that read wrong takes |
| ProtobufExact.TightNegativeIsLost | bench/scripts/gen_wire.py:271-335 | a tight record with a negative integer anywhere comes back from no slots that hold none of its values |
| ProtobufExact.TightRoundTripIff | bench/scripts/gen_wire.py:271-335 | a tight record, doubles at least 2^49 as patterns or with the sign bit and integers below 2^56, comes back from every slots if and only if it has no negative integer |
| ProtobufExact.NegativeRecordIsLost | bench/scripts/gen_wire.py:240-255 | the record of -1 alone is cut off inside its varint |
| AvroSchema.KindsOf | bench/scripts/gen_wire.py:398-430 | the scan's loops compute the letters of every type value after the first |
| AvroSchema.TypeMarkIff | bench/scripts/gen_wire.py:404-405 | a type mark is exactly the six characters "type" with its quotes |
| AvroSchema.NextQuoteIsFirst | bench/scripts/gen_wire.py:406-409 | the value starts behind the first quote after the mark |
| AvroSchema.ShortScans | bench/scripts/gen_wire.py:398-430 | the first value is passed over, another type is a question mark, and seven characters hold no type |
| AvroSchema.ScanFields | bench/scripts/gen_wire.py:340-343 | from the fields of a printed schema on, the scan adds one letter a field |
| AvroSchema.KindsOfPrinted | bench/scripts/gen_wire.py:340-430 | scanning the printed schema of any list of kinds gives that list's letters |
| AvroSchema.PrintedSchema | bench/scripts/gen_wire.py:340-343 | fields are numbered from 1 and joined by a comma and a line break |
| AvroSchema.PrintedLong | bench/scripts/gen_wire.py:341-342 | the text of a long field |
| AvroSchema.PrintedInt | bench/scripts/gen_wire.py:341-342 | the text of an int field |
| AvroSchema.PrintedDouble | bench/scripts/gen_wire.py:341-342 | the text of a double field |
| AvroSchema.LettersInjective | bench/scripts/gen_wire.py:348 | and the letters tell the list |
| Avro.ZigZagIff | bench/scripts/gen_wire.py:455-468 | zigzag is non-negative and undone exactly for values strictly between -2^62 and 2^62 |
| Avro.ZigZagAtTheEnds | bench/scripts/gen_wire.py:455-468 | zigzag at the ends of the range, where its shifts and sums wrap |
| Avro.WriteRecord | bench/scripts/gen_wire.py:470-490 | an exactly sized buffer holding the fields in schema order |
| Avro.RecordInBytes | bench/scripts/gen_wire.py:470-490 | a record byte by byte: no tags, zigzag integers, little-endian doubles |
| Avro.ReadRecord | bench/scripts/gen_wire.py:492-519 | the tagless reader's loops compute the record, or a read past the end |
| Avro.WideVarint | bench/scripts/gen_wire.py:499-517 | a varint too wide for an int32 field leaves its low 32 bits there; an int64 field keeps it whole |
| Avro.FieldRoundTrip | bench/scripts/gen_wire.py:481-517 | one field is read back and its bytes consumed |
| Avro.RecordRoundTrip | bench/scripts/gen_wire.py:470-519 | records inside the range round-trip and use up the bytes |
| Avro.RecordTakesMore | bench/scripts/gen_wire.py:470-519 | bytes that decode to a record reach at least as far as its own encoding, and further when a field is out of range |
| Avro.RoundTripIff | bench/scripts/gen_wire.py:470-519 | a record decodes from its encoding to itself if and only if its int64 fields are in range |
| Avro.Encoder.Resolve | bench/scripts/gen_wire.py:432-443 | refused exactly when the kinds are wrong and the length is not that of the last text of the right kinds the object has met |
| Avro.Encoder.Encode | bench/scripts/gen_wire.py:470-490 | nothing when the schema is refused, otherwise the record's encoding |
| Avro.Encoder.Decode | bench/scripts/gen_wire.py:492-519 | nothing when the schema is refused, otherwise what the bytes hold |
| Avro.RememberedLength | bench/scripts/gen_wire.py:432-443 | after any schema texts the remembered length is that of the last one of the right kinds |
| Avro.RefusedIff | bench/scripts/gen_wire.py:432-443 | after any texts, a text is refused if and only if its kinds are wrong and it is not as long as that one |
| Avro.RefusesAllWrongIff | bench/scripts/gen_wire.py:360-363 | every text of wrong kinds is refused if and only if none of the right kinds has come before |
| Avro.SameLengthSlipsThrough | bench/scripts/gen_wire.py:434-436 | a witness among printed schemas: of two of equal length the wrong one is refused at first and taken after the right one |
| Epoch.PushKeeps | runtime/native/cajeta_rt_epoch.c:34-58 | a push saves the present extents as the newest level and changes nothing a program sees |
| Epoch.RegistrationKeeps | runtime/native/cajeta_rt_epoch.c:34-58 | registering keeps every saved level a prefix of what is registered |
| Epoch.UnlinkedIsSuffix | runtime/native/cajeta_rt_epoch.c:102-106 | unlinking from the head stops exactly at the saved chain, and frees the rest once each |
| Epoch.PopRestores | runtime/native/cajeta_rt_epoch.c:62-111 | popping to a level gives every registry, the selection, the debug table and the at-exit chain back as they were when it was pushed |
| Epoch.PushAnswers | runtime/native/cajeta_rt_epoch.c:34-58 | only the sixty-fifth push is refused; every other answers the new depth and saves each registry's own count |
| Epoch.PopEntries | runtime/native/cajeta_rt_epoch.c:65-98 | a pop leaves NULL or zero in every slot it drops, every other slot as it was, and no census hint |
| Epoch.PopFreesInOrder | runtime/native/cajeta_rt_epoch.c:65-85 | the names freed, one by one: dropped classes from the lowest slot up, then dropped kernels |
| Epoch.StepKeeps | runtime/native/cajeta_rt_epoch.c:34-111 | the invariant behind that is kept by every operation, refused pushes and pops included |
| Epoch.RunKeeps | runtime/native/cajeta_rt_epoch.c:34-111 | and by every run; levels a run does not pop keep their views |
| Epoch.PopUndoesRun | runtime/native/cajeta_rt_epoch.c:32-111 | push, any run above that level, pop to it: the program sees what it saw before |
| Epoch.PopConserves | runtime/native/cajeta_rt_epoch.c:62-106 | a pop frees exactly the names and nodes it takes out of use |
| Epoch.RunConserves | runtime/native/cajeta_rt_epoch.c:62-106 | over every run each registered name is either still owned or was freed once |
| Epoch.PopFreesRegistered | runtime/native/cajeta_rt_epoch.c:32-111 | after such a run the pop has freed exactly the class and kernel names registered since, each once, and none older |
| Epoch.PopEachAgrees | runtime/native/cajeta_rt_epoch.c:62-111 | one pop to a level agrees with popping the levels one at a time, apart from the generation counters, which move once for each |
| EpochRuntime.Runtime.Push | runtime/native/cajeta_rt_epoch.c:34-58 | in memory, exactly the specified push |
| EpochRuntime.Free | runtime/native/cajeta_rt_epoch.c:65-69 | the names of the dropped entries in order, the entries cleared, the others kept |
| EpochRuntime.Runtime.Unlink | runtime/native/cajeta_rt_epoch.c:102-106 | the chain from the saved head on, and what was taken off |
| EpochRuntime.Runtime.PopTo | runtime/native/cajeta_rt_epoch.c:62-111 | in memory, exactly the specified pop, and nothing for a depth out of range |
| ShadowTable.GetIsLookup | runtime/native/cajeta_net_nonblocking.c:93-105 | for every descriptor but the marker -1, get is a lookup in the map the table stands for |
| ShadowTable.PutKeeps | runtime/native/cajeta_net_nonblocking.c:75-89 | keys stay unique and no free slot comes between a key's home and its entry, with wrap-around |
| ShadowTable.HomesAre | runtime/native/cajeta_net_nonblocking.c:68-72 | the home slots of literal descriptors, a negative one included |
| ShadowTable.Collision | runtime/native/cajeta_net_nonblocking.c:75-89 | of two descriptors with one home the second is stored one slot on, all other slots free |
| ShadowTable.PutIsUpdate | runtime/native/cajeta_net_nonblocking.c:75-89 | put updates the map while there is room or the key is known; on a full table a new key is dropped and all others stay |
| ShadowTable.FullIff | runtime/native/cajeta_net_nonblocking.c:57-61 | the map has 1024 entries exactly when no slot is free |
| ShadowTable.GetFaithfulIff | runtime/native/cajeta_net_nonblocking.c:93-105 | get is right if and only if the descriptor is not -1 or the table is full |
| ShadowTable.RunIsMap | runtime/native/cajeta_net_nonblocking.c:57-105 | after any puts the map holds the first 1024 distinct descriptors, each with the mode last put for it |
| ShadowTable.GetReturnsLast | runtime/native/cajeta_net_nonblocking.c:57-105 | for up to 1024 distinct descriptors get returns the mode last put, or -1 |
| ShadowTable.PutThenGet | runtime/native/cajeta_net_nonblocking.c:75-105 | after one more put its descriptor answers 0 for a zero mode and 1 for any other, and every other descriptor as before |
| ShadowTable.GetUnknown | runtime/native/cajeta_net_nonblocking.c:93-105 | a descriptor never put answers -1 |
| ShadowTable.Shadow.Record | runtime/native/cajeta_net_nonblocking.c:75-89 | the probe loop over the arrays performs that put, setting the table up first if need be |
| ShadowTable.Shadow.Query | runtime/native/cajeta_net_nonblocking.c:93-105 | the probe loop performs that get and changes nothing a caller sees |
| ArrowMetadata.FindValue | runtime/native/cajeta_arrow.c:284-305 | the pair-skipping loop computes the specified scan, or reports a length that leads outside |
| ArrowMetadata.ReaderFindsFirst | runtime/native/cajeta_arrow.c:214-305 | over any pair list written as a blob, whatever follows it, the reader finds the first pair with the key or none |
| ArrowMetadata.LedOutside | runtime/native/cajeta_arrow.c:284-305 | what the reader makes of missing pairs, a negative length, and counts of zero or less |
| ArrowMetadata.MetaPut | runtime/native/cajeta_arrow.c:241-250 | a pair's bytes at an offset, every other byte as it was, and their number |
| ArrowMetadata.Le32At | runtime/native/cajeta_arrow.c:241-250 | byte i of a stored length is its i-th base-256 digit |
| ArrowMetadata.BlobInBytes | runtime/native/cajeta_arrow.c:241-266 | a blob of one pair byte by byte |
| ArrowMetadata.MxFits | runtime/native/cajeta_arrow.c:220-267 | for every int32 block size nothing is cut and at most 97 of the 128 bytes are written |
| ArrowMetadata.ExportMx | runtime/native/cajeta_arrow.c:253-281 | a fresh buffer holding the blob of name and block size, zeros behind it |
| ArrowMetadata.ExportedPairs | runtime/native/cajeta_arrow.c:260-267 | the two pairs exported, keys and values in literal text |
| ArrowMetadata.ReadExtKind | runtime/native/cajeta_arrow.c:284-307 | 1, 0 or -1 by what the scan finds; 0 without metadata |
| ArrowMetadata.ReadExtBlock | runtime/native/cajeta_arrow.c:310-333 | the digits of what the scan finds; 0 without any |
| ArrowMetadata.KindOfPairs | runtime/native/cajeta_arrow.c:284-307 | over any written pairs the first extension name decides: 1 for cajeta.mxfp4, -1 for another, 0 without one |
| ArrowMetadata.BlockOfPairs | runtime/native/cajeta_arrow.c:310-333 | and the block size is the digits of the first extension metadata, or 0 |
| ArrowMetadata.DigitsOfBlockText | runtime/native/cajeta_arrow.c:260-329 | the digits of the printed text are the block size without its sign |
| ArrowMetadata.ExportReadsBack | runtime/native/cajeta_arrow.c:253-333 | exporting any int32 and reading the buffer gives kind 1 and the size's magnitude, the size itself if and only if it is not negative |
| DiGraph.NodesAreAll | bench/scripts/gen_di_graph.py:43 | the list holds every component once, levels times width of them |
| DiGraph.NodesInOrder | bench/scripts/gen_di_graph.py:43 | level by level, each in the order of its positions |
| DiGraph.DepsAre | bench/scripts/gen_di_graph.py:34-40 | which components a component injects, in levels and positions |
| DiGraph.GeneratedDeps | bench/scripts/gen_di_graph.py:34-40 | and in which order, in the generated graph |
| DiGraph.SameLevelOnlyFromRoot | bench/scripts/gen_di_graph.py:34-40 | the root is the only component that uses its own level |
| DiGraph.NoCycle | bench/scripts/gen_di_graph.py:34-40 | ranks fall along every chain, so none comes back to its start and none is longer than the levels and one |
| DiGraph.AllReachable | bench/scripts/gen_di_graph.py:34-43 | a chain leads from the root to every component |
| DiGraph.ValueIsPlain | bench/scripts/gen_di_graph.py:46-47 | off the root a value is its own number and its two successors' values |
| DiGraph.RootValue | bench/scripts/gen_di_graph.py:46-50 | for any levels and width the root's value is the sum over levels l of 2^l times the level's own numbers |
| DiGraph.RootValueClosed | bench/scripts/gen_di_graph.py:46-50 | the same in closed form |
| DiGraph.PublishedValue | bench/scripts/gen_di_graph.py:26-51 | ten levels of ten make 100 components and the value 875665 |
| ReactorLifecycle.StepKeeps | runtime/native/cajeta_net_reactor_lifecycle.c:39-216 | every critical section and wake write of every thread keeps the invariant |
| ReactorLifecycle.RunKeeps | runtime/native/cajeta_net_reactor_lifecycle.c:118-216 | under every interleaving the ends are both open or both closed, open ends mean the latch is set, none is closed twice, and all are closed while the latch is clear |
| ReactorLifecycle.ClosedOncePerOpening | runtime/native/cajeta_net_reactor_lifecycle.c:96-113 | between two closings of a descriptor lies an opening of it |
| ReactorLifecycle.WakeReachesOpenIff | runtime/native/cajeta_net_reactor_lifecycle.c:188-211 | the end a thread read under the mutex is still open at its write if and only if no second section ran in between, as long as the number is not handed out again |
| ReactorLifecycle.OverlappingShutdowns | runtime/native/cajeta_net_reactor_lifecycle.c:188-211 | two overlapping shutdowns can write a wake byte to an end already closed |
| ReactorLifecycle.FailedPipe | runtime/native/cajeta_net_reactor_lifecycle.c:118-216 | a pipe that fails leaves the reactor started without one until a shutdown; the next start opens a pipe whose second end a wake writes to |
| ReactorLifecycle.NotStarted | runtime/native/cajeta_net_reactor_lifecycle.c:188-193 | a shutdown of what was never started changes nothing |
| ReactorLifecycle.Lifecycle.WakePipeOpenLocked | runtime/native/cajeta_net_reactor_lifecycle.c:39-93 | both ends or neither; nothing when they are open |
| ReactorLifecycle.Lifecycle.WakePipeCloseLocked | runtime/native/cajeta_net_reactor_lifecycle.c:96-113 | each open end closed once and marked closed |
| ReactorLifecycle.Lifecycle.Init | runtime/native/cajeta_net_reactor_lifecycle.c:118-126 | latched on the first call even when the pipe fails, and a no-op after |
| ReactorLifecycle.Lifecycle.ShutdownEnter | runtime/native/cajeta_net_reactor_lifecycle.c:188-195 | whether to go on and the end to wake, together the phase the interleaving's step puts the thread in |
| ReactorLifecycle.Lifecycle.WakeEnter | runtime/native/cajeta_net_reactor_lifecycle.c:140-144 | the end to wake, the phase of a wake's step |
| ReactorLifecycle.Lifecycle.ShutdownLeave | runtime/native/cajeta_net_reactor_lifecycle.c:208-211 | the latch cleared and the ends closed |
| VulkanTicks.AndOnes | runtime/native/cajeta_rt_prof_vulkan.c:93-96 | masking with n ones is the remainder by 2^n |
| VulkanTicks.DeltaExactIff | runtime/native/cajeta_rt_prof_vulkan.c:88-97 | from readings right only in their valid bits, arbitrary above, the delta is the true duration if and only if that is between 0 and one turn of the counter |
| VulkanTicks.KnownDeltas | runtime/native/cajeta_rt_prof_vulkan.c:88-97 | literal readings that wrap at the word and at 36 bits, with other bits above; a width of 0 makes no duration |
| VulkanTicks.Tracker.NoteSpan | runtime/native/cajeta_rt_prof_vulkan.c:101-111 | the flag, the count and the new last end |
| VulkanTicks.ResetsCountEarly | runtime/native/cajeta_rt_prof_vulkan.c:99-116 | over every sequence the counter is the number of spans that start before the previous one's end since tracking was last cleared |
| VulkanTicks.RollOverIsFlagged | runtime/native/cajeta_rt_prof_vulkan.c:99-111 | of a monotone clock read at its width, the tracker flags a start within one turn of the last end if and only if the counter rolled over in between |
| VulkanTicks.PickQueueFamily | runtime/native/cajeta_rt_prof_vulkan.c:30-45 | the first compute family with timestamps, else the first compute family with timing off, else -1 |
| VulkanTicks.ComputesIff | runtime/native/cajeta_rt_prof_vulkan.c:36-38 | the compute flag is bit 1 of the flags |
| VulkanTicks.PickDevice | runtime/native/cajeta_rt_prof_vulkan.c:57-78 | the first device of the forced driver or -1; unforced, the first of the highest rank |
| VulkanTicks.Drivers | runtime/native/cajeta_rt_prof_vulkan.c:47-66 | the driver each forcing text asks for, and the order of preference, by driver number |
| SynthProgram.ReduceLate | bench/datasets/gen_synth.py:78-84 | reducing a factor early does not change a reduced product and sum |
| SynthProgram.Obj.Step | bench/datasets/gen_synth.py:78-84 | eight reduced rounds equal the unreduced recurrence, reduced once |
| SynthProgram.Obj.Fold | bench/datasets/gen_synth.py:91-97 | six reduced rounds equal 21 times the low ten bits plus six times the field, reduced once |
| SynthProgram.Obj.Apply | bench/datasets/gen_synth.py:102-109 | one call counted, the composed value, below M |
| SynthProgram.SmallSteps | bench/datasets/gen_synth.py:78-97 | step, both ways of mixing, and fold on literal values |
| SynthProgram.Pass | bench/datasets/gen_synth.py:58-63 | one round threads the value through every object and counts one call on each |
| SynthProgram.Run | bench/datasets/gen_synth.py:58-68 | for any class count whose calls fit and all constants in range, all arithmetic stays in [0, 2^41), the checksum is below M and the calls are ROUNDS for each class |
| SynthProgram.TwoClasses | bench/datasets/gen_synth.py:58-68 | the checksum of a program of two classes, through four passes and the folds |
| SynthProgram.RemaindersAgreeIff | bench/datasets/gen_synth.py:23-24 | truncated and floored remainders agree exactly on what is not negative or is a multiple |
| SynthProgram.XorshiftUndone | bench/datasets/gen_synth.py:35-41 | the generator's step has a left inverse |
| SynthProgram.NeverZero | bench/datasets/gen_synth.py:35-41 | so it never sticks at zero |
| SynthProgram.FirstNumbers | bench/datasets/gen_synth.py:35-46 | the seed's first five numbers |
| SynthProgram.DrawAll | bench/datasets/gen_synth.py:44-55 | five draws a class, every constant in its range |
| SynthProgram.FirstClass | bench/datasets/gen_synth.py:44-55 | the constants of the first class |

## Left out

- BvhBlock.BlockWordsIff: a count above 2^24 is itself rounded, and the errors of count and reference offset can then cancel, so the equivalence is stated for counts up to 2^24 (an offset fits only far below that).
- ProtobufExact.TightRoundTripIff: stated for tight records; bytes other than a field's own can set a smaller double or a larger integer more cheaply, so the counting behind it stops there. For every other record the per-chunk equivalence and `ProtobufExact.LastNegativeIsLost` hold.
- Protobuf.RoundTrip: stated for non-negative integers; `ProtobufExact` says what becomes of negative ones. Field numbers are at most 2047, beyond which the two literal tag bytes are no tag.
- SynthProgram.Run: asks that the call total, ROUNDS for each class, itself lies below 2^41, without which the last sum leaves the range.
- QueryGen.SourceIsFound: lower-casing is that of ASCII letters, which is all the generator produces.
- SipHash.State.Digest: finishing uses the state up; what a second finish without a reset returns is not described.
- Float rounding of box coordinates and centroids, NaN and infinities: coordinates are reals; only the float32 form of structural integers is modelled.
- The sort is any that orders the range on the axis; qsort's own algorithm and the order of equal centroids are not modelled. The walk is written from the layout the file's header comment states, as the traversal is not in the file.
- Failed allocations (a null result), and counts whose sizes leave 32 bits.
- Of `search_ref.py`, the library's Levenshtein and Jaro-Winkler sums, the distinct-posting count and the top-k truth count.
- Varints read past 64 bits: a read past the end of the buffer or a field outside the slots is a failed decode. Doubles are their 64-bit patterns. The fixed layout and its views.
- Epochs: the mutexes, the injected-override and singleton tables, which a pop wipes rather than restores, re-registration that updates an entry in place, and the kernel entries' level and refusal flags. At-exit nodes are their addresses, in chain order.
- The POSIX path of the non-blocking query and the entry points around the table.
- Arrow: releases and reference counts, the data buffers, and foreign metadata whose digits overflow a long. Integers are little-endian in memory, as on the hosts the runtime runs on.
- The Winsock branches of the lifecycle, the reading end's drain, and the counter that shutdown resets outside the mutex.
- The profiler's clock fit, and the counters of resolved and unavailable spans.
- XXH3, the entropy sources, the seed, and the hashes of floats and identifiers; the renderers of the generators.
