# Verified model of the FISCO BCOS C++ SDK

The SDK talks to blockchain nodes over websockets. This project models the parts of it that are
data structures and arithmetic, in Dafny, and proves what they promise.

| file | what it holds |
|---|---|
| `Words` | bytes, 32-byte words, two's complement, fixed-width conversions |
| `AbiTypes`, `AbiLayout`, `AbiReads` | ABI values and types, the standard's encoding as a reference, where its parts lie, bounds-checked reads |
| `TreeCodec`, `TreeCodecTheorems` | the codec over value trees, its loops, standard conformance and round trip |
| `TemplateEncoding`, `TemplateCodec` | the older codec driven by C++ types: when its bytes are the standard's, round trip up to its signed threshold |
| `DecoderAgreement` | the two ABI decoders on arbitrary bytes |
| `TypeStrings`, `TypeFactory`, `FactoryTheorems` | type strings, the shared helper, the trees built from them, the values that come back through them |
| `ScaleIntegers`, `ScaleCodec`, `ScaleStreams`, `ScaleTheorems`, `ScaleMinimal`, `ScaleCanonical`, `ScaleOrder`, `ScaleWire` | the SCALE codec: integers, structures, stream objects, round trip, minimality, canonical form, map order, bytes |
| `Routing`, `BlockHeights`, `Service` | the routing index, the block heights, the object that holds both |
| `EventMachine`, `EventSub`, `EventParams` | event subscriptions as a state machine, the object that runs it, its parameters as JSON |
| `RateLimiter` | the time-window rate limiter |

How to read it. Code that changes things step by step is a method or a class, tied by its
`ensures` to a function; the theorems are lemmas about that function. Exceptions and failed
assertions are `Err`. `size_t` arithmetic wraps at 2^64 and the decoder's `int currentOffset` at
2^32; round trips are stated for buffers below 2^31 bytes, where neither wraps. Both ABI codecs are
related to one reference, the standard's head/tail encoding, which neither of them is written like:
the tree codec keeps separate offset and value buffers for lists and asks values, not types, whether
they are dynamic.

What the proofs found. These hold only under a condition, and each is stated as an equivalence:

- decoding into a T[] needs a first element with its bytesN leaves filled, so the factory's own tree
  for `bytes32[]` cannot decode a list with elements (`RoundTrip`, `FactoryRoundTrip`, `BytesListLost`);
- members of a T[N] share one helper, so `uint[2][2]` is misbuilt, and values that reach it do not
  come back (`BuildShape`, `FactoryRoundTrip`, `NestedArrayMisbuilt`);
- the template codec's signed reader compares with 0x8fff...f, so int256 values below -7*2^252 come
  back positive (`AbiRoundTrip`, `ThresholdIsTight`);
- a resubscribe may ask for an earlier block than the first request did (`WhenStartsDecrease`);
- the template codec treats every tuple as dynamic, against the comment above its trait, and counts
  one word per member, so only some arguments with tuples are encoded as the standard says
  (`ArgumentsConform`, `StaticTupleMoved`);
- the two decoders do not accept the same bytes: the tree codec asserts on lengths and offsets and
  keeps positions in an int (`DecodersAgree`, `DecodersReadTheSame`, `LengthWraps`);
- `compactLen` leaves out the header byte from 2^30 on (`CompactLenIsExact`);
- a handshake raises a group's height and leaves its latest nodes alone (`ExactUnlessPassed`,
  `StaleAfterHandshake`).

Assumptions. The event machine has fresh task ids and answers each subscribe request once. The
rate limiter's clock does not run backwards and its sleeps last at least as long as asked. Each public
operation of `Service` and `EventSub` is one step.

## Model

| member | source | states |
|---|---|---|
| `TreeCodecTheorems.RoundTrip` | bcos-cpp-sdk/utilities/abi/ContractABITypeCodec.cpp:376-549 | With any prefix and suffix, deserialize at the prefix's end into any tree whatever gives the value back if and only if the tree suits it: it has the value's shape, and every non-empty T[] of the value finds an element to clone whose bytesN leaves are filled |
| `TreeCodecTheorems.DecodeAt` | bcos-cpp-sdk/utilities/abi/ContractABITypeCodec.cpp:376-549 | An encoding found anywhere in a buffer is read back into a tree that suits it, by mutual induction with the member and list loops; offsets count from the enclosing frame |
| `TreeCodecTheorems.DecodedSuits` | bcos-cpp-sdk/utilities/abi/ContractABITypeCodec.cpp:376-549 | Whatever the bytes, a tree suits what was decoded into it |
| `TreeCodecTheorems.EncodeIsStandard` | bcos-cpp-sdk/utilities/abi/ContractABITypeCodec.cpp:119-281 | serialize accepts every well-formed value and writes enc(v) of the Solidity Contract ABI Specification, section "Formal Specification of the Encoding" |
| `TreeCodecTheorems.BytesContent` | bcos-cpp-sdk/utilities/abi/ContractABITypeCodec.cpp:98-117 | Byte by byte: a string or bytes is a word with its length, its data, and zeros up to whole words |
| `TreeCodecTheorems.WordContent` | bcos-cpp-sdk/utilities/abi/ContractABITypeCodec.cpp:53-96 | Byte by byte: a bytesN starts its word and zeros fill it, an address ends its word behind zeros, numbers are their words, negative ones plus 2^256 |
| `Words.BigEndianEnd` | bcos-cpp-sdk/utilities/abi/ContractABITypeCodec.cpp:53-69 | Words are big-endian: the last byte is the lowest digit and the bytes before it are those of the rest |
| `Words.BigEndianInverse` | bcos-cpp-sdk/utilities/abi/ContractABITypeCodec.cpp:289-306 | Writing what was read gives the bytes back |
| `TreeCodecTheorems.ListsEncodeAsStructs` | bcos-cpp-sdk/utilities/abi/ContractABITypeCodec.cpp:185-274 | T[N] is written like a struct of its elements, T[] the same behind a length word |
| `TreeCodecTheorems.OutlineSize` | bcos-cpp-sdk/utilities/abi/ContractABIType.h:628-642 | dynamicType and offsetAsBytes, asked of a tree, answer what the standard says of its type |
| `TreeCodec.Serialize` | bcos-cpp-sdk/utilities/abi/ContractABITypeCodec.cpp:119-281 | Fails exactly where some bytesN exceeds 32 bytes or some T[N] other than the root itself does not hold N > 0 elements; otherwise appends the specified bytes |
| `TreeCodec.RootCount` | bcos-cpp-sdk/utilities/abi/ContractABITypeCodec.cpp:214-237 | The count of a T[N] is checked wherever it stands inside something, and not at the root |
| `TreeCodec.SerializeList` | bcos-cpp-sdk/utilities/abi/ContractABITypeCodec.cpp:185-237 | The two-buffer loop of T[N] and T[]: offsets in front, values behind, running offset equal to the specified one |
| `TreeCodec.SerializeStruct` | bcos-cpp-sdk/utilities/abi/ContractABITypeCodec.cpp:238-274 | The fixed and dynamic buffers of a struct after both loops |
| `TreeCodec.Deserialize` | bcos-cpp-sdk/utilities/abi/ContractABITypeCodec.cpp:376-549 | The recursive decoder as a function of template, buffer and offset, error branches included |
| `TreeCodec.DeserializeMembers` | bcos-cpp-sdk/utilities/abi/ContractABITypeCodec.cpp:490-542 | The loops over T[N] and struct members with the 32-bit currentOffset |
| `TreeCodec.DeserializeCopies` | bcos-cpp-sdk/utilities/abi/ContractABITypeCodec.cpp:441-489 | The T[] loop: each element is decoded into a clone of element 0, and cloning re-checks bytesN |
| `TreeCodec.BehindOffset` | bcos-cpp-sdk/utilities/abi/ContractABITypeCodec.cpp:461-541 | A dynamic element is read where its offset says, counted from the frame; refused from 2^63 - 1 on in lists and arrays, and at 0 in arrays |
| `Words.Int32IsRemainder` | bcos-cpp-sdk/utilities/abi/ContractABITypeCodec.cpp:449-450 | The int currentOffset is its size_t offset modulo 2^32 |
| `TreeCodec.CloneableIff` | bcos-cpp-sdk/utilities/abi/ContractABIType.h:406-453 | What can be cloned: every bytesN anywhere in it holds its N bytes, 1 to 32 |
| `AbiReads.ReadWordIs` | bcos-cpp-sdk/utilities/abi/ContractABITypeCodec.cpp:289-316 | Where a word can be read: inside the buffer as it stands, in the last 31 positions of size_t as zero, nowhere else |
| `AbiReads.ReadBytesIs` | bcos-cpp-sdk/utilities/abi/ContractABITypeCodec.cpp:344-374 | Where a string can be read and what comes out, wrap-around included |
| `AbiLayout.EncodedSize` | bcos-cpp-sdk/utilities/abi/ContractABITypeCodec.cpp:119-281 | A static value takes exactly the head size of its type |
| `TreeCodecTheorems.StaticSize` | bcos-cpp-sdk/utilities/abi/ContractABIType.h:628-642 | A static value takes exactly offsetAsBytes bytes |
| `AbiLayout.HeadLayout` | bcos-cpp-sdk/utilities/abi/ContractABITypeCodec.cpp:238-274 | Head k starts at the sum of the heads before it and holds the member itself or the frame-relative start of its own tail |
| `AbiLayout.TailLayout` | bcos-cpp-sdk/utilities/abi/ContractABITypeCodec.cpp:238-274 | Tails start behind the heads, follow each other with no gap or overlap, and the last ends with the tuple |
| `AbiLayout.EncodingIsAligned` | bcos-cpp-sdk/utilities/abi/ContractABITypeCodec.cpp:119-281 | Every encoding is a multiple of 32 bytes |
| `TemplateCodec.ContractABICodec.AbiIn` | bcos-cpp-sdk/utilities/abi/solidity/ContractABICodec.h:449-461 | abiIn with an empty signature returns the very bytes the tree codec writes for the struct of the arguments if and only if the arguments conform; without tuples they always do |
| `TemplateCodec.ContractABICodec.AbiInAux` | bcos-cpp-sdk/utilities/abi/solidity/ContractABICodec.h:370-387 | The recursion over the arguments keeps fixed, dynamic and offset equal to heads, tails and next tail position, tuples included |
| `TemplateCodec.ContractABICodec.AbiOut` | bcos-cpp-sdk/utilities/abi/solidity/ContractABICodec.h:423-437 | Equals DecodeArgs on the input, or fails where an exception is caught |
| `TemplateCodec.ContractABICodec.AbiOutAux` | bcos-cpp-sdk/utilities/abi/solidity/ContractABICodec.h:391-408 | The cursor moves by the static size of each argument |
| `TemplateCodec.Serialise` | bcos-cpp-sdk/utilities/abi/solidity/ContractABICodec.h:470-543 | What is written for any value, tuples included |
| `TemplateCodec.SerialiseElements` | bcos-cpp-sdk/utilities/abi/solidity/ContractABICodec.h:471-515 | The loop of std::array and std::vector: offsets count one word per element |
| `TemplateCodec.SerialiseTuple` | bcos-cpp-sdk/utilities/abi/solidity/ContractABICodec.h:517-543 | The loop of std::tuple: offsets count one word per member, whatever the members take |
| `TemplateCodec.Deserialize` | bcos-cpp-sdk/utilities/abi/solidity/ContractABICodec.h:545-620 | Equals DecodeValue, tuples and error branches included |
| `TemplateCodec.DeserializeElements` | bcos-cpp-sdk/utilities/abi/solidity/ContractABICodec.h:545-593 | The element loop of std::array and std::vector |
| `TemplateCodec.DeserializeTuple` | bcos-cpp-sdk/utilities/abi/solidity/ContractABICodec.h:595-620 | The member loop of std::tuple with its running tupleOffset |
| `TemplateEncoding.TraitsFollowStandard` | bcos-cpp-sdk/utilities/abi/solidity/ContractABICodec.h:168-244 | The compile-time trait agrees with the standard's dynamic types if and only if the type is no static tuple and no array of such; head sizes then agree too |
| `TemplateEncoding.ArgumentsConform` | bcos-cpp-sdk/utilities/abi/solidity/ContractABICodec.h:449-461 | The bytes of an argument list with tuples are the standard's if and only if no static tuple is written and every tuple with a dynamic member has one word per head |
| `TemplateEncoding.ConformingIsStandard` | bcos-cpp-sdk/utilities/abi/solidity/ContractABICodec.h:470-543 | A conforming value is written as the standard encodes it |
| `TemplateEncoding.StandardConforms` | bcos-cpp-sdk/utilities/abi/solidity/ContractABICodec.h:470-543 | A value written as the standard encodes it conforms, by comparing lengths first and then part by part |
| `TemplateEncoding.StaticTupleMoved` | bcos-cpp-sdk/utilities/abi/solidity/ContractABICodec.h:152-160 | A one-number tuple is written as an offset and the number, where the standard has the number alone |
| `TemplateCodec.DecodeValueAt` | bcos-cpp-sdk/utilities/abi/solidity/ContractABICodec.h:545-620 | Reading any framed value from its own bytes gives it back with its signed leaves passed through the threshold reader |
| `TemplateCodec.RereadFixpoint` | bcos-cpp-sdk/utilities/abi/solidity/ContractABICodec.cpp:134-150 | That reader leaves a value alone if and only if every signed leaf is at least -7*2^252 |
| `TemplateCodec.AbiRoundTrip` | bcos-cpp-sdk/utilities/abi/solidity/ContractABICodec.h:391-437 | abiOut on abiIn's own bytes, static tuples included, whatever bytes follow: if every tuple with a trait-dynamic member has strides that add up to one word per member, the arguments come back with signed leaves reread, and unchanged if and only if every signed leaf is at least -7*2^252 |
| `TemplateCodec.ConformingRoundTrip` | bcos-cpp-sdk/utilities/abi/solidity/ContractABICodec.h:391-437 | The same on the tree codec's bytes for conforming arguments |
| `TemplateCodec.MisframedTuple` | bcos-cpp-sdk/utilities/abi/solidity/ContractABICodec.h:517-543 | A tuple of a two-number array and an empty string cannot be read back by its own reader |
| `TemplateCodec.TupleFreeArguments` | bcos-cpp-sdk/utilities/abi/solidity/ContractABICodec.h:370-387 | Every argument list without tuples conforms and is framed, so that these results hold for it |
| `TemplateCodec.ThresholdIsTight` | bcos-cpp-sdk/utilities/abi/solidity/ContractABICodec.cpp:134-150 | -7*2^252 - 1 is a valid int256 and comes back as the positive 9*2^252 - 1 |
| `DecoderAgreement.DecodersAgree` | bcos-cpp-sdk/utilities/abi/solidity/ContractABICodec.h:391-437 | On every buffer of at most 2^31 - 1 bytes and tuple-free types: on plain buffers abiOut and the tree decoder accept the same, on others never both, and where both accept the tree's values are abiOut's with the signed leaves read by two's complement. Plain: lengths and offsets the tree codec asserts on are in range, and no array or bytes32 lies at a position that int or size_t arithmetic bends |
| `DecoderAgreement.Agree` | bcos-cpp-sdk/utilities/abi/ContractABITypeCodec.cpp:376-549 | The same for each value at each position, by induction over both decoders' loops |
| `DecoderAgreement.DecodersReadTheSame` | bcos-cpp-sdk/utilities/abi/solidity/ContractABICodec.cpp:134-150 | Where both accept, they read the very same values if and only if no signed word read from the buffer lies in [2^255, 9*2^252) |
| `DecoderAgreement.LengthWraps` | bcos-cpp-sdk/utilities/abi/solidity/ContractABICodec.h:567-576 | A list length of 2^64 is an empty list for abiOut and an error for the tree decoder |
| `DecoderAgreement.LeavesRead` | bcos-cpp-sdk/utilities/abi/solidity/ContractABICodec.cpp:134-172 | What both decoders make of a word: any but 0 is true, an address is its last 20 bytes, unsigned words are themselves, signed ones part in [2^255, 9*2^252) |
| `DecoderAgreement.BytesNRead` | bcos-cpp-sdk/utilities/abi/ContractABITypeCodec.cpp:327-342 | A bytesN takes the first N bytes of its word, for N = 1, ..., 32 alone |
| `DecoderAgreement.FixedBytesIs` | bcos-cpp-sdk/utilities/abi/solidity/ContractABICodec.cpp:174-180 | A bytes32 at any position: its bytes, an error, or in the last 31 positions of size_t zeros for abiOut and an error for the tree decoder |
| `TypeStrings.ParseUndoesPrint` | bcos-cpp-sdk/utilities/abi/ContractABIMethodDefinition.cpp:42-109 | Printing a base name and extents and resetting a helper with it gives the same base and extents, for every list of extents up to 2^31 - 1 |
| `TypeStrings.ParseExtents` | bcos-cpp-sdk/utilities/abi/ContractABIMethodDefinition.cpp:64-104 | The bracket-scanning loop terminates and equals the recursive scan; every malformed bracket is an error |
| `TypeStrings.NamedTypeHelper.Reset` | bcos-cpp-sdk/utilities/abi/ContractABIMethodDefinition.cpp:42-109 | Base type and extents of the trimmed string; on an exception the fields stay cleared |
| `TypeStrings.NamedTypeHelper.RemoveExtent` | bcos-cpp-sdk/utilities/abi/ContractABIMethodDefinition.cpp:29-39 | Drops the last extent if there is one |
| `TypeStrings.TrimIs` | bcos-cpp-sdk/utilities/abi/ContractABIMethodDefinition.cpp:51-56 | Trimming leaves a part with only blanks around it and none at its ends |
| `TypeStrings.BlankIs` | bcos-cpp-sdk/utilities/abi/ContractABIMethodDefinition.cpp:51-56 | Blanks are the space and the characters from tab to carriage return |
| `TypeStrings.StoiReads` | bcos-cpp-sdk/utilities/abi/ContractABIMethodDefinition.cpp:91-95 | stoi: signs, digits, whatever follows them, and the 32-bit range |
| `TypeStrings.StoiBlank` | bcos-cpp-sdk/utilities/abi/ContractABIMethodDefinition.cpp:91-95 | Blanks in front are passed over |
| `TypeStrings.StoiNothing` | bcos-cpp-sdk/utilities/abi/ContractABIMethodDefinition.cpp:91-95 | What starts with no number is refused |
| `TypeStrings.NegativeExtent` | bcos-cpp-sdk/utilities/abi/ContractABIMethodDefinition.cpp:91-95 | A negative extent becomes 2^64 minus it |
| `TypeStrings.BadBrackets` | bcos-cpp-sdk/utilities/abi/ContractABIMethodDefinition.cpp:71-80 | Brackets not closed, not opened or the wrong way round are refused |
| `TypeFactory.BuildShape` | bcos-cpp-sdk/utilities/abi/ContractABIDefinitionFactory.cpp:409-479 | The tree built is the homogeneous one with the last bracket outermost if and only if every fixed extent other than the innermost is at most 1 and every extent fits 32 bits |
| `TypeFactory.BuildAbstractType` | bcos-cpp-sdk/utilities/abi/ContractABIDefinitionFactory.cpp:409-437 | The recursion on the shared, consumed helper: the tree built and the extents left over |
| `TypeFactory.BuildFixedList` | bcos-cpp-sdk/utilities/abi/ContractABIDefinitionFactory.cpp:451-467 | Sibling members of a T[N] take up the helper where the one before left it |
| `TypeFactory.BuildTuple` | bcos-cpp-sdk/utilities/abi/ContractABIDefinitionFactory.cpp:469-479 | Each component is built with a helper of its own |
| `FactoryTheorems.KnownBuilds` | bcos-cpp-sdk/utilities/abi/ContractABIDefinitionFactory.cpp:409-479 | The factory builds a tree exactly for the strings that parse and whose bases, those of the components included, are known |
| `FactoryTheorems.BaseIsSpelled` | bcos-cpp-sdk/utilities/abi/ContractABIDefinitionFactory.cpp:481-568 | What is built for a base is a leaf of the type its spelling names |
| `FactoryTheorems.NumberNames` | bcos-cpp-sdk/utilities/abi/ContractABIDefinitionFactory.cpp:488-527 | uintN and intN build an unsigned and a signed number exactly for N = 8, 16, ..., 256 |
| `FactoryTheorems.BytesNames` | bcos-cpp-sdk/utilities/abi/ContractABIDefinitionFactory.cpp:540-555 | bytesN builds a fixed N bytes exactly for N = 1, ..., 32 |
| `FactoryTheorems.PlainNames` | bcos-cpp-sdk/utilities/abi/ContractABIDefinitionFactory.cpp:481-568 | uint, int, bool, string, bytes and address build what they name |
| `FactoryTheorems.LongerNames` | bcos-cpp-sdk/utilities/abi/ContractABIDefinitionFactory.cpp:529-559 | Of bool, string and address only the start is looked at |
| `FactoryTheorems.TupleNames` | bcos-cpp-sdk/utilities/abi/ContractABIMethodDefinition.h:138 | Any base with the word tuple in it is one |
| `FactoryTheorems.NamedSuits` | bcos-cpp-sdk/utilities/abi/ContractABIDefinitionFactory.cpp:409-479 | The tree built for a string suits a value of the type it names if and only if the value reaches no misbuilt T[N] and no non-empty T[] of it has a bytesN in its element type |
| `FactoryTheorems.FactoryRoundTrip` | bcos-cpp-sdk/utilities/abi/ContractABIDefinitionFactory.cpp:409-479 | For every string the factory accepts and every value of the type it names: encode, then decode into the tree built from the string, gives the value back if and only if the value reaches no misbuilt T[N] and none of its non-empty lists holds a bytesN |
| `FactoryTheorems.NestedArrayMisbuilt` | bcos-cpp-sdk/utilities/abi/ContractABIDefinitionFactory.cpp:461-464 | uint[2][2] is built with a bare number as its second row |
| `FactoryTheorems.BytesListLost` | bcos-cpp-sdk/utilities/abi/ContractABIType.h:448-453 | Into the tree built for bytes32[], decoding any list with elements fails |
| `ScaleTheorems.RoundTrip` | bcos-cpp-sdk/utilities/abi/scale/ScaleDecoderStream.h:51-294 | For every value of every type and any bytes before and after, decoding its encoding gives the value and stops right behind it |
| `ScaleTheorems.DecodeAt` | bcos-cpp-sdk/utilities/abi/scale/ScaleDecoderStream.h:139-294 | The same for an encoding found anywhere in the span, by mutual induction over tuples, arrays, vectors, maps, optionals and variants |
| `ScaleTheorems.PrefixFree` | bcos-cpp-sdk/utilities/abi/scale/ScaleEncoderStream.h:50-83 | No value's bytes begin with those of another value of its type |
| `ScaleMinimal.EncodingIsMinimal` | bcos-cpp-sdk/utilities/abi/scale/ScaleEncoderStream.h:330-338 | No byte string shorter than the encoder's decodes to the value, for every type |
| `ScaleCanonical.DecodedHasType` | bcos-cpp-sdk/utilities/abi/scale/ScaleDecoderStream.h:224-294 | Whatever bytes are accepted, the result is a value of the type: integers in range, map keys ascending, variant index valid |
| `ScaleCanonical.DecodableIffEncodable` | bcos-cpp-sdk/utilities/abi/scale/ScaleDecoderStream.h:51-294 | The values decoding can yield are exactly the values of the type that can be encoded |
| `ScaleCanonical.Reencode` | bcos-cpp-sdk/utilities/abi/scale/ScaleDecoderStream.h:51-294 | Encoding again what was decoded gives bytes that are no longer and decode to the same value |
| `ScaleCanonical.EmplaceSorted` | bcos-cpp-sdk/utilities/abi/scale/ScaleDecoderStream.h:285-291 | Emplacing keeps the keys ascending and adds nothing but the entry |
| `ScaleOrder.KeysAscend` | bcos-cpp-sdk/utilities/abi/scale/ScaleDecoderStream.h:271-294 | The keys of a decoded map ascend: numbers by size, false before true, strings and lists at the first place where they differ or one ends |
| `ScaleOrder.LessIsBefore` | bcos-cpp-sdk/utilities/abi/scale/ScaleDecoderStream.h:285-291 | The comparison is that order, defined by first differences |
| `ScaleOrder.Comparable` | bcos-cpp-sdk/utilities/abi/scale/ScaleDecoderStream.h:285-291 | Of two different values of a type one comes before the other |
| `ScaleOrder.MapHoldsFirstPairs` | bcos-cpp-sdk/utilities/abi/scale/ScaleDecoderStream.h:283-292 | A decoded map holds, of the pairs in the bytes, exactly those that are the first with their key, and ends where they end |
| `ScaleWire.ShortestIsUnique` | bcos-cpp-sdk/utilities/abi/scale/ScaleDecoderStream.h:51-262 | For types without maps and bool vectors, of the bytes that decode to a value only the encoder's have its length; so a bool above 1 or an optional bool above 2 is refused |
| `ScaleWire.CompactFormat` | bcos-cpp-sdk/utilities/abi/scale/ScaleEncoderStream.cpp:26-121 | The four modes of a compact integer, byte by byte |
| `ScaleWire.ByteFormat` | bcos-cpp-sdk/utilities/abi/scale/ScaleEncoderStream.h:172-187 | The bytes of bools, optionals and variants |
| `ScaleWire.IntFormat` | bcos-cpp-sdk/utilities/abi/scale/FixedWidthIntegerCodec.h:42-52 | Fixed-width integers are little-endian two's complement |
| `ScaleWire.LittleIsReversed` | bcos-cpp-sdk/utilities/abi/scale/FixedWidthIntegerCodec.h:42-52 | Little-endian bytes are big-endian bytes from the other end |
| `ScaleWire.TupleFormat` | bcos-cpp-sdk/utilities/abi/scale/ScaleEncoderStream.h:296-304 | Members follow each other in order |
| `ScaleWire.CollectionFormat` | bcos-cpp-sdk/utilities/abi/scale/ScaleEncoderStream.h:329-338 | The size, then the elements in order |
| `ScaleWire.StringFormat` | bcos-cpp-sdk/utilities/abi/scale/ScaleEncoderStream.h:234-237 | The size, then the bytes |
| `ScaleWire.BulkRead` | bcos-cpp-sdk/utilities/abi/scale/ScaleDecoderStream.h:247-252 | Vectors of bools and one-byte integers take any bytes, as many as their size says |
| `ScaleWire.RawFormat` | bcos-cpp-sdk/utilities/abi/scale/ScaleDecoderStream.h:247-252 | In bulk any byte but 0 is true, and integers are two's complement |
| `ScaleIntegers.CompactAt` | bcos-cpp-sdk/utilities/abi/scale/ScaleDecoderStream.cpp:45-114 | decodeCompactInteger undoes encodeCompactInteger, leaving what follows |
| `ScaleIntegers.CompactIsMinimal` | bcos-cpp-sdk/utilities/abi/scale/ScaleDecoderStream.cpp:45-114 | Any bytes that decode to n are at least as long as its encoding, and of that length only the encoding itself |
| `ScaleIntegers.CompactRange` | bcos-cpp-sdk/utilities/abi/scale/ScaleEncoderStream.cpp:56-93 | Exactly the numbers 0 <= n < 256^67 can be encoded |
| `ScaleIntegers.CountBytesIsLength` | bcos-cpp-sdk/utilities/abi/scale/Common.h:50-58 | countBytes is the number of base-256 digits |
| `ScaleIntegers.CountBytesOf` | bcos-cpp-sdk/utilities/abi/scale/Common.h:50-58 | The do-while loop computes it |
| `ScaleIntegers.CompactLenIsExact` | bcos-cpp-sdk/utilities/abi/scale/Common.h:59-71 | compactLen is the encoded length if and only if n < 2^30; above, it is one short |
| `ScaleIntegers.InterpretUndoesTruncation` | bcos-cpp-sdk/utilities/abi/scale/FixedWidthIntegerCodec.h:113-128 | Reading the two's complement of an in-range integer of 1, 2, 4 or 8 bytes gives it back, the minimum included |
| `ScaleIntegers.LittleRoundTrip` | bcos-cpp-sdk/utilities/abi/scale/FixedWidthIntegerCodec.h:42-52 | Bytes read as n if and only if they are the little-endian bytes of n |
| `ScaleStreams.ScaleEncoderStream.Put` | bcos-cpp-sdk/utilities/abi/scale/ScaleEncoderStream.h:50-187 | Succeeds exactly for encodable values and then appends their encoding; on failure what was there before stays |
| `ScaleStreams.ScaleEncoderStream.PutCompact` | bcos-cpp-sdk/utilities/abi/scale/ScaleEncoderStream.cpp:56-121 | The four categories; fails on negative and on too large numbers |
| `ScaleStreams.ScaleEncoderStream.PutLittle` | bcos-cpp-sdk/utilities/abi/scale/FixedWidthIntegerCodec.h:42-52 | The byte loop appends the little-endian bytes |
| `ScaleStreams.ScaleEncoderStream.PutCollection` | bcos-cpp-sdk/utilities/abi/scale/ScaleEncoderStream.h:329-338 | Size, then the elements in order |
| `ScaleStreams.FindAlternative` | bcos-cpp-sdk/utilities/abi/scale/ScaleEncoderStream.h:306-319 | The index written for a variant is the first alternative of the type held |
| `ScaleStreams.ScaleDecoderStream.Get` | bcos-cpp-sdk/utilities/abi/scale/ScaleDecoderStream.h:51-294 | Equals Decode at the current index, moves by exactly the bytes read, and keeps index and iterator in step |
| `ScaleStreams.ScaleDecoderStream.NextByte` | bcos-cpp-sdk/utilities/abi/scale/ScaleDecoderStream.h:372-381 | Reads one byte and moves index and iterator together, or fails at the end |
| `ScaleStreams.ScaleDecoderStream.TakeCompact` | bcos-cpp-sdk/utilities/abi/scale/ScaleDecoderStream.cpp:45-114 | Equals DecodeCompact for all four flags, short input included |
| `ScaleStreams.ScaleDecoderStream.TakeLittle` | bcos-cpp-sdk/utilities/abi/scale/FixedWidthIntegerCodec.h:96-101 | The multiplier loop computes the little-endian number |
| `ScaleStreams.ScaleDecoderStream.GetVector` | bcos-cpp-sdk/utilities/abi/scale/ScaleDecoderStream.h:224-262 | Vectors of one-byte elements are read in bulk and unchecked, others element by element |
| `ScaleStreams.ScaleDecoderStream.GetEntries` | bcos-cpp-sdk/utilities/abi/scale/ScaleDecoderStream.h:283-292 | The map loop: each pair is emplaced, duplicates are skipped |
| `Routing.AlwaysConsistent` | bcos-cpp-sdk/ws/Service.cpp:315-440 | After any sequence of group updates and disconnects, e is in index[g][n] exactly when e's stored info for g lists n, and no node entry is empty |
| `Routing.IndexFollowsHistory` | bcos-cpp-sdk/ws/Service.cpp:315-440 | e is in index[g][n] exactly when e's last report for g since its last disconnect names n |
| `Routing.ReportsFollowHistory` | bcos-cpp-sdk/ws/Service.cpp:578-588 | The stored info of e for g is its last report since its last disconnect |
| `Routing.UpdateKeeps` | bcos-cpp-sdk/ws/Service.cpp:406-440 | An update keeps the agreement and stores the reported nodes |
| `Routing.DisconnectKeeps` | bcos-cpp-sdk/ws/Service.cpp:315-369 | A disconnect keeps the agreement, removes the endpoint everywhere and touches no other endpoint |
| `Routing.DisconnectDropsGroups` | bcos-cpp-sdk/ws/Service.cpp:341-347 | A disconnect leaves no group without nodes behind |
| `Routing.AvailableMeansRouted` | bcos-cpp-sdk/ws/Service.cpp:442-503 | hasEndPointOfNodeAvailable holds exactly when getEndPointsByGroupAndNode yields a non-empty set, that is when some endpoint reported the node |
| `Routing.GroupNodesAreIndexed` | bcos-cpp-sdk/ws/Service.cpp:527-576 | getGroupInfo's node names are exactly the keys of index[g] |
| `Service.Service.OnDisconnect` | bcos-cpp-sdk/ws/Service.cpp:109-118 | The routing state after a disconnect; nothing changes for an empty endpoint |
| `Service.Service.ClearGroups` | bcos-cpp-sdk/ws/Service.cpp:319-353 | The nested erasing loops drop the endpoint, empty nodes and empty groups |
| `Service.Service.ClearNodes` | bcos-cpp-sdk/ws/Service.cpp:384-399 | The loop that drops the endpoint and the nodes left empty |
| `Service.Service.UpdateGroupInfoByEp` | bcos-cpp-sdk/ws/Service.cpp:406-440 | The routing state after an update |
| `Service.Service.AddNodes` | bcos-cpp-sdk/ws/Service.cpp:427-436 | The loop that adds the endpoint to each reported node |
| `Service.Service.GetGroupInfo` | bcos-cpp-sdk/ws/Service.cpp:527-576 | The union of the node names over all endpoints that know the group, or nothing |
| `Service.Service.SelectEndPoint` | bcos-cpp-sdk/ws/Service.cpp:143-203 | The endpoint picked is one of those the group and node allow; none if there is none |
| `Service.Service.GetHighestBlockNumberNodes` | bcos-cpp-sdk/ws/Service.cpp:676-709 | Exactly the latest nodes that have an endpoint |
| `Service.Service.RandomGetHighestBlockNumberNode` | bcos-cpp-sdk/ws/Service.cpp:660-674 | One of them, and none only if there is none |
| `Service.RouteToHighest` | bcos-cpp-sdk/rpc/JsonRpcImpl.cpp:68-80 | A message without a node name finds an endpoint whenever some endpoint last reported nodes of the group, and if a highest node was picked, one whose last report named it; with no group, any session |
| `BlockHeights.HeightIsMaximum` | bcos-cpp-sdk/ws/Service.cpp:622-658 | The height of a group is the maximum reported since its last removal, and there is none before a report |
| `BlockHeights.AnnouncementsIncrease` | bcos-cpp-sdk/ws/Service.cpp:754-770 | Heights announced as new strictly increase and never exceed the current height |
| `BlockHeights.AnnouncedIffRaises` | bcos-cpp-sdk/ws/Service.cpp:754-770 | A notification is announced if and only if it says more than everything since the last removal |
| `BlockHeights.LatestNodesLead` | bcos-cpp-sdk/ws/Service.cpp:729-752 | In every run, handshakes included, a node is listed as latest if and only if it once notified a block no smaller than any said before, and no later notification exceeds everything before it |
| `BlockHeights.ExactUnlessPassed` | bcos-cpp-sdk/ws/Service.cpp:266-270 | The latest nodes are exactly those that notified the height if and only if there is no handshake that exceeds everything before it while a node leads that has never notified as much; a condition on the events alone |
| `BlockHeights.LatestNodesAreExact` | bcos-cpp-sdk/ws/Service.cpp:711-752 | Without handshakes since the last removal the latest nodes are always exact |
| `BlockHeights.StaleAfterHandshake` | bcos-cpp-sdk/ws/Service.cpp:266-270 | A run in which a handshake leaves a node listed that never reported the height |
| `Service.Service.UpdateGroupBlockNumber` | bcos-cpp-sdk/ws/Service.cpp:622-658 | New height and the two flags |
| `Service.Service.OnRecvBlockNotifier` | bcos-cpp-sdk/ws/Service.cpp:729-771 | New height and node set; the callbacks of the group are called, in order, exactly for a new height |
| `Service.Service.RegisterBlockNumberNotifier` | bcos-cpp-sdk/ws/Service.cpp:773-779 | Appends the callback to its group and touches no other |
| `Service.Service.RemoveBlockNumberInfo` | bcos-cpp-sdk/ws/Service.cpp:711-718 | Forgets height, latest nodes and callbacks of the group |
| `EventMachine.RunKeeps` | bcos-cpp-sdk/event/EventSub.cpp:79-256 | The invariant holds after every run of subscribe, response, push, disconnect, timer and unsubscribe steps |
| `EventMachine.TaskMapsAgree` | bcos-cpp-sdk/event/EventSub.cpp:118-256 | Working and suspended tasks are disjoint, the counter equals the number of suspended tasks, and suspended tasks have no session |
| `EventMachine.OneRequestPerTask` | bcos-cpp-sdk/event/EventSub.h:75-86 | Never two outstanding subscribe requests for an id, and an id waits exactly while its timer-driven request is outstanding |
| `EventMachine.StaysSubscribed` | bcos-cpp-sdk/event/EventSub.cpp:299-316 | A subscribed task leaves both maps only by unsubscribe, end of push or an error push, over any stretch of any run |
| `EventMachine.SubscribedWasAccepted` | bcos-cpp-sdk/event/EventSub.cpp:390-402 | Nobody is in either map whose request was never accepted |
| `EventMachine.SubscribedIff` | bcos-cpp-sdk/event/EventSub.cpp:118-256 | In every run a task is subscribed if and only if a request for it was accepted and nothing has ended the subscription since |
| `EventMachine.EndingEnds` | bcos-cpp-sdk/event/EventSub.cpp:299-316 | Unsubscribe, end of push and error pushes end a subscription |
| `EventMachine.EndedForGood` | bcos-cpp-sdk/event/EventSub.cpp:451-459 | With no request under way, an ending event leaves the task gone for the rest of the run |
| `EventMachine.DisconnectEffect` | bcos-cpp-sdk/event/EventSub.cpp:230-248 | A lost connection suspends, and strips of its session, each working task that came by it or has no session; every other keeps working with its session |
| `EventMachine.AnswerEffect` | bcos-cpp-sdk/event/EventSub.cpp:367-409 | An accepted request, first or later, puts its task to work on the session it came by; any other answer leaves the maps alone |
| `EventMachine.SentIsOutstanding` | bcos-cpp-sdk/event/EventSub.cpp:346-367 | What an event sends is under way behind it |
| `EventMachine.AskedAgain` | bcos-cpp-sdk/event/EventSub.cpp:101-113 | In any run a task whose connection is lost is requested again by the next timer step that finds a session, from where it then stands, whatever other events come in between |
| `EventMachine.Recovers` | bcos-cpp-sdk/event/EventSub.cpp:367-409 | It works again with the new session when that request is accepted, however much later |
| `EventMachine.GoneForGood` | bcos-cpp-sdk/event/EventSub.cpp:451-459 | A task in neither map with no request outstanding never comes back |
| `EventMachine.PendingRequestRevives` | bcos-cpp-sdk/event/EventSub.cpp:397-402 | With a request outstanding, an unsubscribed task does come back when that request is accepted |
| `EventMachine.CurrentIsLargest` | bcos-cpp-sdk/event/EventSubTask.h:41-48 | The recorded block is the largest pushed to the task, or -1 |
| `EventMachine.ResumesAfterRecorded` | bcos-cpp-sdk/event/EventSubRequest.cpp:137-138 | Once a positive block is recorded, every request asks from the largest recorded block plus one |
| `EventMachine.StartsNeverDecrease` | bcos-cpp-sdk/event/EventSubRequest.cpp:137-138 | Once a positive block is recorded for a task, later requests for it never ask for an earlier start |
| `EventMachine.WhenStartsDecrease` | bcos-cpp-sdk/event/EventSubRequest.cpp:137-138 | Of any two requests for a task, the first one included, the later asks for an earlier start if and only if the largest block recorded by then is positive and below the earlier start minus one |
| `EventSub.EventSub.DoLoop` | bcos-cpp-sdk/event/EventSub.cpp:79-116 | One request for each suspended task that is not waiting, if there is a session |
| `EventSub.EventSub.SuspendTasks` | bcos-cpp-sdk/event/EventSub.cpp:221-256 | All working tasks of the lost endpoint, and those without a session, are suspended; the count is theirs |
| `EventSub.EventSub.OnSubscribeResponse` | bcos-cpp-sdk/event/EventSub.cpp:367-409 | Accepted: session set and task moved to the working ones; a timer request stops waiting in every case |
| `EventSub.EventSub.OnRecvEventSubMessage` | bcos-cpp-sdk/event/EventSub.cpp:289-329 | End and error remove the task, success records the block |
| `EventSub.EventSub.SubscribeEvent` | bcos-cpp-sdk/event/EventSub.cpp:427-449 | A fresh id and one outstanding request; nothing if the params fail verification |
| `EventSub.EventSub.AddTask` | bcos-cpp-sdk/event/EventSub.cpp:118-129 | Out of the suspended and into the working tasks |
| `EventSub.EventSub.GetTaskAndRemove` | bcos-cpp-sdk/event/EventSub.cpp:164-194 | Out of whichever map holds it |
| `EventSub.EventSub.UnsubscribeEvent` | bcos-cpp-sdk/event/EventSub.cpp:451-479 | The task leaves the maps, and its session, if it has one, is asked to unsubscribe |
| `EventParams.ParseRendered` | bcos-cpp-sdk/event/EventSubParams.cpp:97-191 | Reading what toJson wrote into any object: blocks replaced, addresses united, topics merged, where the first position with a topic cuts off what the object had behind it |
| `EventParams.FreshRoundTrip` | bcos-cpp-sdk/event/EventSubParams.cpp:97-191 | Into a fresh object: the same params up to trailing empty topic positions, and exactly the same if and only if there are none |
| `EventParams.PlainTopic` | bcos-cpp-sdk/event/EventSubParams.cpp:129-140 | A position that is a plain string adds that string, as a list of it alone does |
| `EventParams.PlacedTopic` | bcos-cpp-sdk/event/EventSubParams.h:51-57 | After addTopic there are index + 1 positions, the topic at its place and the others as they were or empty |
| `EventParams.RenderedMembers` | bcos-cpp-sdk/event/EventSubParams.cpp:154-191 | What toJson writes, member by member, null for a position without topics |
| `EventParams.MissingMembers` | bcos-cpp-sdk/event/EventSubParams.cpp:97-116 | What is missing stays as it was |
| `EventParams.OddBlocks` | bcos-cpp-sdk/event/EventSubParams.cpp:99-107 | Blocks of other kinds: null and booleans are numbers; texts, lists, objects and what exceeds 64 bits are refused |
| `EventParams.OddAddresses` | bcos-cpp-sdk/event/EventSubParams.cpp:109-116 | Addresses of other kinds: null, booleans and numbers are texts; lists and objects are refused |
| `EventParams.NoAddresses` | bcos-cpp-sdk/event/EventSubParams.cpp:109-116 | Only lists have addresses; an object with members is refused, anything else has none |
| `EventParams.TopicsMember` | bcos-cpp-sdk/event/EventSubParams.cpp:118-142 | A list of one plain topic, read from its member |
| `EventParams.IncompleteRequest` | bcos-cpp-sdk/event/EventSubRequest.cpp:194-213 | A request without an id, a group or params is refused |
| `EventParams.RequestRoundTrip` | bcos-cpp-sdk/event/EventSubRequest.cpp:111-173 | A request read back has its id, its group and its params up to trailing empty topic positions, with the block to resume from |
| `EventParams.EventSubSubRequest.ReadParams` | bcos-cpp-sdk/event/EventSubRequest.cpp:215-260 | The request's own reading of blocks, addresses, topics and inner topics gives, for every JSON tree, what EventSubParams::fromJson gives in a fresh object |
| `EventParams.EventSubSubRequest.ReadTopicArray` | bcos-cpp-sdk/event/EventSubRequest.cpp:235-260 | The request's nested topic loops |
| `EventParams.EventSubParams.FromJson` | bcos-cpp-sdk/event/EventSubParams.cpp:97-145 | Equals Parse on the object's own state; fails exactly where the JSON library throws |
| `EventParams.EventSubParams.ToJson` | bcos-cpp-sdk/event/EventSubParams.cpp:154-191 | The four members, each address and topic once, null for an empty position |
| `EventParams.EventSubParams.AddTopicAt` | bcos-cpp-sdk/event/EventSubParams.h:51-57 | Resizes to index + 1, cutting or padding, and inserts |
| `EventParams.EventSubSubRequest.GenerateJson` | bcos-cpp-sdk/event/EventSubRequest.cpp:111-173 | The request with the block to resume from |
| `EventParams.EventSubSubRequest.FromJson` | bcos-cpp-sdk/event/EventSubRequest.cpp:175-287 | All of id, group and params, or nothing changes |
| `RateLimiter.WindowBound` | bcos-cpp-sdk/utilities/TimeWindowRateLimiter.cpp:32-64 | In every run with a non-decreasing clock, requests up to max get at most (k+1)*max permits in any k windows, plus what was rolled back in them |
| `RateLimiter.BoundIsReached` | bcos-cpp-sdk/utilities/TimeWindowRateLimiter.cpp:32-64 | For every k > 0 and window of at least 2 ms a run reaches (k+1)*max without any rollback |
| `RateLimiter.PermitsInRange` | bcos-cpp-sdk/utilities/TimeWindowRateLimiter.cpp:101-109 | Stored permits stay within [0, max] in every run |
| `RateLimiter.GrantedIff` | bcos-cpp-sdk/utilities/TimeWindowRateLimiter.cpp:32-64 | In any run a request up to max is granted if and only if it and what is spent in the window open then make at most max; above max only the flag decides. Spent: granted since the window began less what was rolled back, never below 0 |
| `RateLimiter.RunMatches` | bcos-cpp-sdk/utilities/TimeWindowRateLimiter.cpp:32-109 | The limiter follows a ledger of window start and amount spent, step by step |
| `RateLimiter.WindowGrantsAll` | bcos-cpp-sdk/utilities/TimeWindowRateLimiter.cpp:57-61 | Requests within one window that together ask for no more than is stored are all granted |
| `RateLimiter.RollbackWraps` | bcos-cpp-sdk/utilities/TimeWindowRateLimiter.cpp:101-109 | A rollback that overflows 64 bits takes permits away |
| `RateLimiter.ElapsedWraps` | bcos-cpp-sdk/utilities/TimeWindowRateLimiter.cpp:50 | A clock that went backwards counts as one that wrapped 64 bits |
| `RateLimiter.RollbackUndoesAcquire` | bcos-cpp-sdk/utilities/TimeWindowRateLimiter.cpp:101-109 | Rolling back a granted request restores what was stored before it |
| `RateLimiter.TimeWindowRateLimiter.Acquire` | bcos-cpp-sdk/utilities/TimeWindowRateLimiter.cpp:66-99 | With no other caller and sleeps that last, any p <= max is granted after at most two failed tries, and exactly p permits are taken |
| `RateLimiter.TimeWindowRateLimiter.TryAcquireAt` | bcos-cpp-sdk/utilities/TimeWindowRateLimiter.cpp:32-64 | Refill when a window has passed, then grant if enough is stored; above max only the flag decides |
| `RateLimiter.TimeWindowRateLimiter.RollbackPermits` | bcos-cpp-sdk/utilities/TimeWindowRateLimiter.cpp:101-109 | Adds in 64 bits, capped at max |

## Left out

- `ContractABITypeCodecLiquidImpl`: most of its decoders are stubs.
- Names and integer extents of the value tree: they play no part in the encoding; values are compared whole, which is finer than `isEqual`.
- Value trees as heap objects: a tree is a value, so a partly filled `_out` after an exception and sharing between trees are not captured.
- `assert` in the decoders is taken as enabled; with it compiled out the offsets it guards would be used as they are.
- `AbiRoundTrip`: one direction for tuples whose strides do not add up; they may come back by accident, and `MisframedTuple` is one that does not.
- `OffsetAsBytes`: unbounded here, 32-bit `unsigned` in the source; the same below 2^32 bytes, and the theorems speak of buffers below 2^31.
- `std::array` of size 0: with static elements it does not compile, and the tree codec throws on it.
- The four-byte method selector, `abiOutByFuncSelector`, hex forms, and all hashing and keys.
- Failing allocations: a `resize` to an absurd length read from the input is not an error by itself.
- `h256`, `s2u`, `u2s`, `getCroppedData` and the JSON library are external; they are modelled as 32-byte big-endian words, two's complement, a crop that is empty when it does not fit, and a JSON tree with integers, strings, booleans, null, arrays and objects. JSON text and real numbers are not part of this model.
- In SCALE: `std::list` (its decoder does not compile), pointers and reference wrappers, vectors whose element is a one-member tuple of a byte, and reading past the span in bulk, which is an error here and stops the program there. Map keys are compared as numbers, bytes and lexicographically.
- Boost variants that name a type twice.
- Interleavings inside a public operation, where the code takes its lock several times.
- What `verifyParams` looks at (its answer is an input), answers to an unsubscribe request, and exceptions thrown by user callbacks.
- Group info other than node names.
- Negative permits in the run theorems of the rate limiter; `tryAcquire` and `rollback` themselves take any integer. `GrantedIff` asks that rollbacks do not overflow 64 bits (`RollbackWraps`).
- The network, timers, handshake messages, JSON-RPC wrappers, AMOP, Tars structures, configuration, logging and rate reporting: wrappers, generated code or input and output.
