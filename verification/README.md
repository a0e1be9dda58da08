# Codecs of the p2p library: a verified model

Three codec families of the library, each with two separately written halves that have to agree, and
the small layers they stand on. Everything is stated for all inputs, all message types of the modelled
form, all runs.

**Bencode.** `BencodeEntries` has the entries, the order of keys and the encoding; `BencodeGrammar` the
grammar as derivation trees and a reader that finds exactly the derivations there are; `BencodeLaws`
the round trip with its exact condition, unique and prefix-free encodings, and canonical forms;
`BencodeTokens` which entries share an encoding; `BencodeText` the digits, letters and key order, said of
the bytes themselves;
`BencodeDecode` and `BencodeEncode` the cursor-moving decoder and the appending encoder, proved against
the grammar and the encoding. `Decimal` is lexical_cast and IntegerToStr. A failed BC_ASSERT, a throwing
lexical_cast and a throwing std::string constructor are failed decodes, `size_type` is signed with
64 bits, and the byte at `end` reads as NUL.

**The entry as a tagged union.** `BencodeObject` has objects made of a tag and a storage with at most one
live payload, `BencodeLife` references into them and the law of assignment, `BencodeProgram` the
constructors, destructor, assignments and accessors over a program's variables. Every payload built has
a number, so "destroyed exactly once" and "owned by one object" can be said.

**The type-directed serializer.** `Serial` has the types, the bytes, reading into an existing target and
the merge law; `SerialOrder` that the iteration order of sets and maps cannot be noticed; `SerialSize` size
prediction with the POD shortcuts and the types for which it is exact; `SerialNarrow` what it means that
cursors move by an int, and `SerialCursor` the serializer, unserializer and size helper as moving cursors.
`SerialContents` says type by
type what the bytes are and what a target holds after reading. `ByteOrder` and `NetByteOrder` are the
big-endian cursor functions.

**Message classes.** The classes of proto.proto and message.proto follow one generated pattern, so a class
is a `MsgType` here (`MessageClasses` lists Info with everything nested in it, and BtReplyTrackerMsg).
`Wire` has varints and unknown fields, `WireGrammar` and `MessageGrammar` what can be derived as a field or a
message, `MessagePaths` messages seen through paths into them, `Messages` merging, `MessageParse` the plain loop of read-tag and
switch, `MessageSerialize` the bytes and the round trip, `MessageSize` and `MessageWrite` the cached sizes
and the two serializers, `MessageState` presence bits and chunk masks at every depth, `MessageObject` the class with its
goto-driven parse loop, `MessageRuns` whole runs. The runtime library is not part of this model; its
primitives have the meaning the Protocol Buffers "Encoding" document gives them (sections "Base 128
Varints", "Message Structure" and "Last One Wins"). A failed primitive read leaves its target unchanged.

**Frames.** `Frame` is the checksummed transport frame. CRC-32 is an arbitrary function of the bytes and the
descriptor pool an arbitrary map from names to message types.

What the code does that its comments or callers may not expect:

- An UNDEFINED dictionary value makes the encoding undecodable or changes its meaning; UNDEFINED list
  elements disappear (bencode_impl.hpp:172, `BencodeLaws.UndefinedValueFails`).
- Self-assignment of an entry loses its value, assignment from an entry inside uses destroyed memory, and
  after assignment from an entry around it `*this == e` is false (bencode_entry.hpp:204-208,
  `BencodeLife.AssignmentLaw`).
- The size of a map with C-string keys or values over POD types is overestimated, because
  boost::is_pod accepts the pointer (serialize_impl.hpp:716-720, `SerialSize.SizeAgreesIff`).
- Cursors and size helper advance by an int: an object with a number, string or C string of 2^31 bytes or
  more is not written or read behind itself, and one with such a step in measuring is predicted too small
  (single_value_model.hpp:23-31, `SerialNarrow.ReadBackIff`, `SerialSize.SizeIsExact`, and
  `SerialNarrow.LongStringIsMisplaced` for such a string).
- The comment on ProtobufTransportFormat speaks of the message length; the header holds the total
  length without the header's own four bytes (header_based_net_serializer.hpp:54-63).
- The test for an unknown type name comes after the null descriptor was used
  (protobuf_msg_encode.cpp:18-22, 126-130); the model counts that as `Crash`.

## Model

| member | source | states |
|---|---|---|
| `BencodeGrammar.ReaderIsGrammar` | code/trunk/p2p/pub/bencode.cpp:99-143 | For every input, tree and rest: the deterministic reader accepts with that tree and that rest exactly when the tree is a derivation of the bencode grammar and the input is the bytes it derives followed by the rest. So accepted inputs are exactly those with a derived prefix, and derivation and prefix are unique. |
| `BencodeGrammar.ReadTreeSound` | code/trunk/p2p/pub/bencode.cpp:99-143 | What is read is a derivation of exactly the consumed bytes. |
| `BencodeGrammar.ReadTreeComplete` | code/trunk/p2p/pub/bencode.cpp:99-143 | A derivation is read back as it is whatever bytes follow it. |
| `BencodeGrammar.ReadNumberIff` | code/trunk/p2p/pub/bencode.cpp:48-58 | A number is read, with that text and that rest, if and only if lexical_cast accepts the text and the input is the text, the end character and the rest; such a text never contains the end character, so it ends at the first one. |
| `BencodeGrammar.ReadNumberComplete` | code/trunk/p2p/pub/bencode.cpp:48-58 | Every text lexical_cast accepts, signs and leading zeros included, is read in full when its end character follows. |
| `BencodeGrammar.StrComplete` | code/trunk/p2p/pub/bencode.cpp:70-77 | A string whose length text denotes its size is read with exactly that many bytes, whatever they are. |
| `BencodeLaws.DecodeIsGrammar` | code/trunk/p2p/pub/bencode.cpp:99-143 | Decoding gives an entry and a rest exactly when some derivation of a prefix denotes that entry, the first of duplicate keys being kept. |
| `BencodeLaws.DecodeFails` | code/trunk/p2p/pub/bencode.cpp:99-143 | Decoding fails exactly when no prefix of the input is derived by the grammar. |
| `BencodeLaws.DecodedIsDefined` | code/trunk/p2p/pub/bencode.cpp:122-138 | A decoded entry has no UNDEFINED node at any depth and all its dictionaries have strictly increasing keys. |
| `BencodeLaws.EncodeDerives` | code/trunk/p2p/pub/inc/bencode_impl.hpp:163-237 | Encoding an entry without UNDEFINED dictionary values writes a derivation whose meaning is the entry without its UNDEFINED list elements. |
| `BencodeLaws.RoundTrip` | code/trunk/p2p/pub/bencode.cpp:99-167 | For any trailing bytes the encoding decodes to the entry without UNDEFINED list elements and leaves exactly the trailing bytes. |
| `BencodeLaws.RoundTripIff` | code/trunk/p2p/pub/bencode.cpp:99-167 | That round trip holds if and only if the entry is not UNDEFINED and no dictionary in it has an UNDEFINED value. |
| `BencodeLaws.FaithfulIff` | code/trunk/p2p/pub/bencode.cpp:99-167 | The entry itself comes back if and only if it contains no UNDEFINED at all. |
| `BencodeLaws.UndefinedValueFails` | code/trunk/p2p/pub/inc/bencode_impl.hpp:223-237 | A dictionary with one UNDEFINED value encodes to something that is never decoded, for every key and every trailing input. |
| `BencodeLaws.UndefinedValuesMakeKeysValues` | code/trunk/p2p/pub/inc/bencode_impl.hpp:223-237 | With two UNDEFINED values the encoding decodes to another dictionary, in which the second key is the value of the first. |
| `BencodeLaws.PrefixFree` | code/trunk/p2p/pub/inc/bencode_impl.hpp:163-237 | If the encodings of two UNDEFINED-free entries, each with something behind it, are the same bytes, the entries are equal and so is what follows. |
| `BencodeLaws.SameEncodingIff` | code/trunk/p2p/pub/bencode_entry.cpp:208-226 | UNDEFINED-free entries are equal if and only if their encodings are. |
| `BencodeLaws.EqualEncodings` | code/trunk/p2p/pub/inc/bencode_impl.hpp:163-237 | For entries that are not UNDEFINED and have no UNDEFINED dictionary value: two encodings are equal if and only if the entries agree up to UNDEFINED list elements. |
| `BencodeTokens.SharedEncodingIff` | code/trunk/p2p/pub/inc/bencode_impl.hpp:163-237 | Any two entries whatsoever have the same encoding if and only if they have the same tokens, where UNDEFINED has none and a dictionary has those of its keys and values in order. |
| `BencodeTokens.SpellUnique` | code/trunk/p2p/pub/inc/bencode_impl.hpp:93-237 | The bytes of a list of tokens determine the tokens. |
| `BencodeLaws.EncodePruned` | code/trunk/p2p/pub/inc/bencode_impl.hpp:163-174 | An UNDEFINED entry leaves no trace in the encoding, wherever it is. |
| `BencodeLaws.CanonicalIff` | code/trunk/p2p/pub/inc/bencode_impl.hpp:163-237 | Re-encoding what a derivation denotes gives back its bytes if and only if all its numbers are minimal and all keys strictly increase. |
| `BencodeLaws.CanonicalForm` | code/trunk/p2p/pub/bencode.cpp:99-143 | For every accepted input the re-encoded entry is canonical, decodes to the same entry before any trailing bytes, and equals the consumed prefix if and only if that prefix was canonical. |
| `BencodeLaws.MeaningIsDefined` | code/trunk/p2p/pub/bencode.cpp:122-138 | Every derivation denotes an UNDEFINED-free entry with sorted maps, however often its keys repeat. |
| `BencodeEntries.InsertIsMapInsert` | code/trunk/p2p/pub/bencode.cpp:127-131 | Inserting into a sorted map keeps it sorted and adds the item if and only if its key was not there; nothing is replaced. |
| `BencodeEntries.InsertAllInOrder` | code/trunk/p2p/pub/bencode.cpp:127-131 | Items that come in key order are listed as they are. |
| `BencodeText.LessIff` | code/trunk/p2p/pub/inc/bencode_entry.hpp:115-115 | Keys are ordered by the byte at the first place where they differ, bytes as numbers, and a prefix before what it is a prefix of. |
| `BencodeText.SortedIff` | code/trunk/p2p/pub/inc/bencode_impl.hpp:223-237 | The keys of a sorted dictionary ascend in that order. |
| `BencodeText.SmallerKeyFirst` | code/trunk/p2p/pub/inc/bencode_impl.hpp:223-237 | Whichever of two keys was inserted first, the one with the smaller byte at the first difference is written first. |
| `BencodeText.FirstKeyWins` | code/trunk/p2p/pub/bencode.cpp:122-134 | Of the items that come in under one key exactly the first is in the map, unless the key was there before. |
| `BencodeText.EncodedLetters` | code/trunk/p2p/pub/inc/bencode_impl.hpp:93-237 | The bytes around the parts: i (105), e (101), the colon (58), l (108) and d (100). |
| `BencodeDecode.Interval.BdecodeInteger` | code/trunk/p2p/pub/bencode.cpp:48-58 | Succeeds exactly when the number reader does; then it returns the value of the text read and stands behind the end character. |
| `BencodeDecode.Interval.BdecodeString` | code/trunk/p2p/pub/bencode.cpp:70-77 | Succeeds exactly for sizes between 0 and what is left; then it returns those bytes and stands behind them. A negative size passes the assertion and fails in std::string. |
| `BencodeDecode.Interval.Bdecode` | code/trunk/p2p/pub/bencode.cpp:99-143 | An empty interval gives UNDEFINED and does not move. Otherwise it succeeds exactly when a prefix is derivable, returns what that derivation denotes, moves strictly forward and stays inside the buffer, and terminates on every input. |
| `BencodeDecode.Interval.BdecodeList` | code/trunk/p2p/pub/bencode.cpp:110-120 | The list loop collects exactly the entries up to the end tag, or fails. |
| `BencodeDecode.Interval.BdecodeDict` | code/trunk/p2p/pub/bencode.cpp:122-134 | The dictionary loop builds exactly the map of the first value under each key, rejects keys that are not strings, or fails. |
| `BencodeDecode.BdecodeRange` | code/trunk/p2p/pub/bencode.cpp:156-167 | Succeeds on a non-inverted range exactly when a prefix of it is derivable; the reported length is positive, at most the range, and exactly what the entry took. An inverted range gives UNDEFINED and length 0. |
| `BencodeDecode.BdecodeText` | code/trunk/p2p/pub/bencode.cpp:178-181 | The empty text is UNDEFINED; any other text is decoded from its start. |
| `BencodeDecode.DecodeListStep` | code/trunk/p2p/pub/bencode.cpp:114-117 | One turn of the list loop preserves what the whole list decodes to. |
| `BencodeDecode.DecodeDictStep` | code/trunk/p2p/pub/bencode.cpp:126-131 | One turn of the dictionary loop preserves what the whole dictionary decodes to. |
| `BencodeEncode.BencodeEntry` | code/trunk/p2p/pub/inc/bencode_impl.hpp:163-174 | Appends exactly the encoding of the entry, nothing for UNDEFINED. |
| `BencodeEncode.BencodeList` | code/trunk/p2p/pub/inc/bencode_impl.hpp:191-204 | Appends the encoding of the list, element by element. |
| `BencodeEncode.BencodeDict` | code/trunk/p2p/pub/inc/bencode_impl.hpp:223-237 | Appends the encoding of the dictionary in key order. |
| `BencodeEncode.BencodeStr` | code/trunk/p2p/pub/inc/bencode_impl.hpp:136-144 | Appends length, colon and the bytes. |
| `BencodeEncode.BencodeInteger` | code/trunk/p2p/pub/inc/bencode_impl.hpp:93-101 | Appends the minimal decimal text of the integer between its tags. |
| `BencodeEncode.BencodeText` | code/trunk/p2p/pub/inc/bencode_impl.hpp:248-254 | Returns exactly the encoding of the entry. |
| `Decimal.ScanOfPrint` | code/trunk/p2p/pub/inc/bencode_impl.hpp:70-74 | lexical_cast to text and back is the identity on every 64-bit integer. |
| `BencodeText.ScanIff` | code/trunk/p2p/pub/inc/bencode_impl.hpp:70-74 | lexical_cast takes a text to a value if and only if the text is digits, one sign at most before them, of that value, and an int64 holds it. |
| `BencodeText.DigitsByPosition` | code/trunk/p2p/pub/inc/bencode_impl.hpp:70-74 | The character k places from the right is the ASCII digit of 10^k, and there is no needless zero. |
| `BencodeText.PrintedSign` | code/trunk/p2p/pub/inc/bencode_impl.hpp:70-74 | A negative number is printed as a minus sign (45) and the digits of its absolute value, any other as its digits. |
| `BencodeText.ValueByPosition` | code/trunk/p2p/pub/inc/bencode_impl.hpp:70-74 | A digit before others counts for the power of ten of their number. |
| `BencodeText.PrintedScansIff` | code/trunk/p2p/pub/inc/bencode_impl.hpp:70-74 | What is printed of an integer is taken back if and only if it is between -2^63 and 2^63 - 1. |
| `Decimal.IntegerToStr` | code/trunk/p2p/pub/bencode_entry.cpp:67-84 | For every value but the smallest and every size of at least 2 the text stays in the buffer, ends in NUL, leaves all other bytes alone and is the sign followed by the last digits that fit. |
| `Decimal.LastDigitsValue` | code/trunk/p2p/pub/bencode_entry.cpp:77-81 | The k last digits of a number denote it modulo 10^k. |
| `Decimal.PrintedTextScans` | code/trunk/p2p/pub/bencode_entry.cpp:67-84 | With room for every character the printed text is the minimal one and reads back as the value. |
| `BencodeProgram.Program.Run` | code/trunk/p2p/pub/bencode_entry.cpp:228-293 | Any run of constructors, assignments, accessors, operator[] and push_back goes step by step as the values say, stops only at a step that goes wrong, and if it goes through, then at the end of the program every payload ever built has been destroyed exactly once. |
| `BencodeProgram.Program.Do` | code/trunk/p2p/pub/bencode_entry.cpp:87-293 | A step goes wrong exactly when an assertion fails or it reads a destroyed payload; otherwise only the object it names changes, to the value the step means, tags still name the live payloads, and every payload has one owner or one destruction. |
| `BencodeProgram.StepsThereAre` | code/trunk/p2p/pub/bencode_entry.cpp:87-293 | The steps of a program: every constructor, and every assignment, accessor, lookup and push_back whose objects are there, with a payload to take and a list to push to. |
| `BencodeProgram.OwnersAreDisjoint` | code/trunk/p2p/pub/bencode_entry.cpp:250-270 | Two objects of which none is inside the other share no payload, and neither owns a destroyed one: copies are deep. |
| `BencodeLife.AssignmentLaw` | code/trunk/p2p/pub/inc/bencode_entry.hpp:204-208 | After an assignment *this == e holds if and only if this is not inside e, and this has the value e had before if and only if neither is the other or inside it, or this held nothing before. |
| `BencodeLife.SourceAfterDestruct` | code/trunk/p2p/pub/inc/bencode_entry.hpp:204-208 | What the source has become once the target was destroyed: gone exactly if it was strictly inside, UNDEFINED if it is the target, unchanged if apart, itself with the target emptied if around it. |
| `BencodeProgram.Program.Assign` | code/trunk/p2p/pub/inc/bencode_entry.hpp:204-208 | Goes wrong exactly when the source is inside the target; otherwise only the target changes and the assignment law holds, so self-assignment loses the value. |
| `BencodeProgram.Program.AssignPayload` | code/trunk/p2p/pub/bencode_entry.cpp:180-199 | Assignment from the string, list or map inside an entry goes wrong exactly when that entry is the target or inside it; otherwise the assignment law holds. |
| `BencodeProgram.Program.AssignInteger` | code/trunk/p2p/pub/bencode_entry.cpp:201-206 | Assignment from the integer inside an entry goes wrong exactly when that entry is strictly inside the target, so an entry keeps its value when its own integer is assigned to it; otherwise only the target changes, to that integer. |
| `BencodeProgram.Program.AssignScalar` | code/trunk/p2p/pub/bencode_entry.cpp:201-206 | Assignment of an integer from elsewhere, and likewise of a string: only the target changes, to the assigned value, and its old payloads are destroyed. |
| `BencodeProgram.Program.Copy` | code/trunk/p2p/pub/bencode_entry.cpp:250-270 | The copy has the value of the original and owns only newly built payloads. |
| `BencodeProgram.Program.Destruct` | code/trunk/p2p/pub/bencode_entry.cpp:272-293 | Destroys the payloads of the object, each once, and no other, and leaves UNDEFINED. |
| `BencodeProgram.Program.Destroy` | code/trunk/p2p/pub/bencode_entry.cpp:42-47 | The destructor called is that of the payload the tag names, and the payload was not destroyed before. |
| `BencodeProgram.Program.Construct` | code/trunk/p2p/pub/bencode_entry.cpp:228-248 | Tag and payload agree; strings and containers are empty, an integer is arbitrary. |
| `BencodeProgram.Program.Access` | code/trunk/p2p/pub/inc/bencode_entry.hpp:210-254 | An UNDEFINED entry gets a new payload of the asked type, any other entry stays as it is; it succeeds exactly for UNDEFINED and the asked type. |
| `BencodeProgram.Program.Index` | code/trunk/p2p/pub/bencode_entry.cpp:97-105 | The entry's map becomes the old one with UNDEFINED inserted under the key if it was missing, and the returned reference is the entry under the key; fails exactly for other types. |
| `BencodeProgram.Program.FindKey` | code/trunk/p2p/pub/bencode_entry.cpp:121-126 | Finds the entry under the key if and only if the map has one; an UNDEFINED entry becomes an empty map. |
| `BencodeProgram.Program.Position` | code/trunk/p2p/pub/bencode_entry.cpp:121-126 | Finds the key exactly if it is in the sorted keys, and otherwise the place where it belongs. |
| `BencodeProgram.Program.Declare` | code/trunk/p2p/pub/bencode_entry.cpp:135-144 | A new variable with the asked tag; the others are untouched. |
| `BencodeProgram.Program.DeclareScalar` | code/trunk/p2p/pub/bencode_entry.cpp:173-178 | A new variable with the given integer, and likewise with a given string; the others are untouched. |
| `BencodeProgram.Program.DeclareCopy` | code/trunk/p2p/pub/bencode_entry.cpp:146-150 | A new variable with the value of the source; the others are untouched. |
| `BencodeProgram.Program.Drop` | code/trunk/p2p/pub/inc/bencode_entry.hpp:202-202 | The last variable goes, and exactly its payloads are destroyed. |
| `BencodeProgram.Program.PushBack` | code/trunk/p2p/pub/inc/bencode_entry.hpp:236-241 | The list gets one more element, of the value the source had. |
| `BencodeProgram.Equals` | code/trunk/p2p/pub/bencode_entry.cpp:208-226 | operator== holds if and only if the two objects have the same value. |
| `BencodeLife.ValueWithItem` | code/trunk/p2p/pub/bencode_entry.cpp:97-105 | Inserting an UNDEFINED item at the found place is std::map insertion on the value. |
| `BencodeLife.AssignedInside` | code/trunk/p2p/pub/inc/bencode_entry.hpp:204-208 | Assigning to a part of an object the object with that part emptied never makes part and object equal. |
| `Serial.MergeLaw` | code/trunk/p2p/pub/inc/serialize_impl.hpp:272-421 | For every type, object and existing target, and any bytes behind: reading back the serialized object leaves the merge of its value into the target, and exactly those bytes unread. POD and strings are replaced, sequences resized and merged elementwise, sets and multisets joined, maps keep their own value for a shared key. |
| `Serial.RoundTrip` | code/trunk/p2p/pub/inc/serialize_impl.hpp:272-421 | A value-initialized variable receives exactly the value that was written. |
| `SerialContents.SequenceRead` | code/trunk/p2p/pub/inc/serialize_impl.hpp:335-346 | Reading a sequence into one that holds something gives as many elements as were written: those that were there merged with the ones read in their place, and further ones exactly as read. |
| `SerialContents.ElementsReadInPlace` | code/trunk/p2p/pub/inc/serialize_impl.hpp:335-346 | Every element that was there is read into as if its bytes were read alone. |
| `SerialContents.SetsInSequence` | code/trunk/p2p/pub/inc/serialize_impl.hpp:335-391 | A set in a sequence keeps what it held and gains exactly the values read in its place. |
| `SerialContents.MembersRead` | code/trunk/p2p/pub/inc/serialize_impl.hpp:350-372 | The members of a pair are read each into the member that is there. |
| `SerialContents.SetRead` | code/trunk/p2p/pub/inc/serialize_impl.hpp:376-391 | A value is in the set afterwards if and only if it was there or is that of an element read. |
| `SerialContents.BagRead` | code/trunk/p2p/pub/inc/serialize_impl.hpp:376-421 | In a multiset or multimap every value occurs as often as before and as often as it was read, together. |
| `SerialContents.MapRead` | code/trunk/p2p/pub/inc/serialize_impl.hpp:405-421 | A key that was there keeps its value; any other is there exactly if it was read, with the value of the first entry that has it. |
| `SerialContents.CountIsWritten` | code/trunk/p2p/pub/inc/serialize_impl.hpp:153-225 | The number of elements is written in eight bytes, byte i being that of 256^i, and the elements behind it. |
| `SerialContents.LengthIsWritten` | code/trunk/p2p/pub/inc/serialize_impl.hpp:111-119 | The number of characters, not of bytes, is written in the same way before the characters. |
| `SerialContents.WrittenInOrder` | code/trunk/p2p/pub/inc/serialize_impl.hpp:153-225 | The elements of two lists in a row are written as those of the first and then those of the second. |
| `SerialContents.ReadableIff` | code/trunk/p2p/pub/inc/serialize_impl.hpp:272-421 | The types that are read are those in which no container, at any depth, holds a C string. |
| `SerialContents.TypeOKIff` | code/trunk/p2p/pub/inc/serialize_impl.hpp:92-225 | Every type whose numbers and characters have at least one byte is modelled. |
| `SerialOrder.OrderIrrelevant` | code/trunk/p2p/pub/inc/serialize_impl.hpp:376-421 | Objects that differ only in the order in which the sets and maps inside them, at any depth, are iterated have the same value, if no map in them has a key twice. |
| `SerialOrder.PermutedIsSame` | code/trunk/p2p/pub/inc/serialize_impl.hpp:376-421 | Every order in which the elements of a set or map can be iterated is such a difference. |
| `SerialOrder.ProperMapIff` | code/trunk/p2p/pub/inc/serialize_impl.hpp:405-421 | What the order results ask of a map object: no two of its keys have one value. |
| `SerialOrder.OrderCannotBeNoticed` | code/trunk/p2p/pub/inc/serialize_impl.hpp:153-421 | Whichever of these orders an object was written in, reading it into any target gives the same value and leaves the same bytes. |
| `Serial.ToMapIsUnion` | code/trunk/p2p/pub/inc/serialize_impl.hpp:411-418 | Inserting pairs one by one is the union in which the target's own entries win. |
| `Serial.MergeIntoDefault` | code/trunk/p2p/pub/inc/serialize_impl.hpp:272-421 | Merging into a default target gives exactly the value. |
| `Serial.MergeLawStr` | code/trunk/p2p/pub/inc/serialize_impl.hpp:292-301 | A string of characters of any width replaces the target. |
| `SerialCursor.Serializer.Write` | code/trunk/p2p/pub/inc/serialize_impl.hpp:92-225 | Within the buffer the cursor moves by the narrowed steps of the object, and gets behind it if and only if every move is small; then, with room for the object, exactly its bytes are written at the cursor and nothing else changes. |
| `SerialCursor.Serializer.WriteAll` | code/trunk/p2p/pub/inc/serialize_impl.hpp:153-225 | The same for the elements of a container in iteration order. |
| `SerialCursor.Unserializer.Into` | code/trunk/p2p/pub/inc/serialize_impl.hpp:272-421 | For every buffer, cursor, type and target: fails exactly when a narrowed read leaves the buffer, and otherwise merges the elements read into the target and stands where their narrowed steps lead. |
| `SerialCursor.Unserializer.IntoElements` | code/trunk/p2p/pub/inc/serialize_impl.hpp:335-346 | The loop over the resized sequence reads every element into the element that is there. |
| `SerialCursor.Unserializer.InsertElements` | code/trunk/p2p/pub/inc/serialize_impl.hpp:377-421 | The counting loop of sets and maps inserts the announced number of newly read elements, which is the merge into the target. |
| `SerialCursor.SizeHelper.Add` | code/trunk/p2p/pub/inc/serialize_impl.hpp:469-720 | Adds the predicted size, each step narrowed to an int. |
| `SerialCursor.SizeHelper.Advance` | code/trunk/p2p/pub/inc/serialize_impl.hpp:469-473 | A step is cut to 32 bits and read as signed. |
| `SerialSize.StepIsSigned32` | code/trunk/p2p/pub/inc/serialize_impl.hpp:469-473 | A narrowed step is the number between -2^31 and 2^31 - 1 that is congruent to the step modulo 2^32. |
| `SerialSize.MapIsMultiplied` | code/trunk/p2p/pub/inc/serialize_impl.hpp:695-720 | The size of a map or multimap of PODs and C strings is that of its count and, per entry, of the PODs and eight bytes for a pointer. |
| `SerialSize.DefaultIsLeast` | code/trunk/p2p/pub/inc/serialize_impl.hpp:376-421 | A new element holds zeros, empty strings and empty containers. |
| `SerialContents.ExactIff` | code/trunk/p2p/pub/inc/serialize_impl.hpp:469-720 | The exact types are those in which no container whose size is multiplied has C strings in its elements. |
| `SerialSize.SizeIsExact` | code/trunk/p2p/pub/inc/serialize_impl.hpp:469-720 | For every object of an exact type the predicted size is at most the bytes written, and equal to them if and only if every step fits an int, the products of the POD shortcuts included. |
| `SerialSize.SizeAgreesIff` | code/trunk/p2p/pub/inc/serialize_impl.hpp:469-720 | For every type: prediction and writing agree on all its objects of small steps if and only if no such object can hold a map that takes the POD shortcut with C-string keys or values, of elements an int can count. |
| `SerialSize.WorstIsOverestimated` | code/trunk/p2p/pub/inc/serialize_impl.hpp:695-720 | If one can, the object made of least parts around one such element is predicted larger than it is written. |
| `SerialSize.NotOverestimated` | code/trunk/p2p/pub/inc/serialize_impl.hpp:469-720 | If none can, every object of small steps is predicted exactly. |
| `SerialNarrow.MoveIff` | code/trunk/p2p/pub/inc/serialize_impl.hpp:92-225 | Writing moves the cursor at most by the length of the object, and by exactly that if and only if every number, string and C string in it is short enough for an int. |
| `SerialNarrow.LongStringIsMisplaced` | code/trunk/p2p/pub/inc/serialize_impl.hpp:111-119 | A string of 2^31 bytes is written and read whole, but the cursor ends 2^32 bytes short, before the start of the buffer, and the predicted size is negative. |
| `SerialNarrow.ReadBackIff` | code/trunk/p2p/pub/inc/serialize_impl.hpp:272-421 | Of what was written, the elements are read back in order with the cursor behind them if and only if every move is small, whatever surrounds it in the buffer. |
| `SerialNarrow.ParseMoves` | code/trunk/p2p/pub/inc/serialize_impl.hpp:272-421 | Whatever a buffer holds, what is read is an object of the type, and the cursor moves as far as writing that object moves it. |
| `SerialNarrow.ParseSound` | code/trunk/p2p/pub/inc/serialize_impl.hpp:272-421 | What is read with small moves stood in the buffer exactly as it would be written. |
| `SerialNarrow.ReadIntoOfWritten` | code/trunk/p2p/pub/inc/serialize_impl.hpp:272-421 | What was written with small moves is merged into the target, with the cursor behind it. |
| `SerialNarrow.ReadIntoIsUnserialize` | code/trunk/p2p/pub/inc/serialize_impl.hpp:272-421 | A read of small moves is the read the merge law speaks of. |
| `SerialNarrow.SmallStepsAreSmallMoves` | code/trunk/p2p/pub/inc/serialize_impl.hpp:469-720 | Whenever measuring an object of an exact type takes small steps, so do writing and reading it. |
| `SerialSize.CStringMapIsOverestimated` | code/trunk/p2p/pub/inc/serialize_impl.hpp:695-720 | A map from C strings to 4-byte numbers with one entry is predicted to take 20 bytes and takes 13. |
| `SerialSize.ContainerSizeIsExact` | code/trunk/p2p/pub/inc/serialize_impl.hpp:524-720 | The same for a container, whether its size is multiplied or summed up element by element. |
| `SerialCursor.Transfer` | code/trunk/p2p/pub/inc/serialize_impl.hpp:26-62 | For every type that can be read: measuring, writing into a buffer of the measured size and reading back merges the object into the target whenever the steps of measuring are small. |
| `SerialCursor.ReadableIsExact` | code/trunk/p2p/pub/inc/serialize_impl.hpp:272-720 | What can be read back is of an exact type, so its size is never overestimated. |
| `SerialCursor.Pack` | code/trunk/p2p/pub/inc/serialize_impl.hpp:26-62 | A buffer of the measured size begins with the written object whenever the moves are small and the size is not too small; of an object of an exact type it holds exactly the bytes if and only if every step of measuring fits an int. |
| `NetByteOrder.HostToNet` | code/trunk/p2p/pub/inc/net_byte_order_impl.hpp:144-160 | The loop leaves bytes whose big-endian base-256 value is the number, returns the cursor behind them and changes nothing else, for every width. |
| `NetByteOrder.NetToHost` | code/trunk/p2p/pub/inc/net_byte_order_impl.hpp:97-113 | The loop returns the big-endian value of the bytes, whose network form is those bytes again. |
| `NetByteOrder.SwappedTwice` | code/trunk/p2p/pub/inc/net_byte_order_impl.hpp:125-131 | On numbers instead of buffers the two conversions are one map that undoes itself. |
| `NetByteOrder.SwappedIsReversed` | code/trunk/p2p/pub/inc/net_byte_order_impl.hpp:125-131 | The object of the result holds the bytes of the argument in the opposite order, so it is the number those bytes are on the network. |
| `NetByteOrder.SwappedPort` | code/trunk/p2p/pub/inc/net_byte_order_impl.hpp:125-131 | Of a 16-bit number the two bytes change places. |
| `ByteOrder.NetRoundTrip` | code/trunk/p2p/pub/inc/net_byte_order_impl.hpp:97-160 | The value of the network bytes of a number that fits the width is the number. |
| `ByteOrder.NetOfValue` | code/trunk/p2p/pub/inc/net_byte_order_impl.hpp:97-160 | The network bytes of the value of some bytes are those bytes. |
| `ByteOrder.NetByte` | code/trunk/p2p/pub/inc/net_byte_order_impl.hpp:144-160 | Byte i of k on the wire is the one of 256^(k-1-i). |
| `ByteOrder.NetValueOfFour` | code/trunk/p2p/pub/inc/net_byte_order_impl.hpp:97-113 | Four bytes from the wire are worth 2^24, 2^16, 2^8 and 1 times their values. |
| `NetByteOrder.ChainRoundTrip` | code/trunk/p2p/pub/inc/net_byte_order_impl.hpp:28-51 | A chain of writes of any mixed widths read back by the same chain gives the same numbers, whatever follows. |
| `NetByteOrder.ChainOfValues` | code/trunk/p2p/pub/inc/net_byte_order_impl.hpp:46-51 | Writing what a chain of reads returned gives the bytes it read. |
| `NetByteOrder.Cursor.PutAll` | code/trunk/p2p/pub/inc/net_byte_order_impl.hpp:28-33 | A chain of & writes leaves exactly the concatenated network bytes at the cursor and moves it behind them. |
| `NetByteOrder.Cursor.TakeAll` | code/trunk/p2p/pub/inc/net_byte_order_impl.hpp:46-51 | A chain of & reads returns the numbers at the cursor and moves it behind them. |
| `Frame.EncodeProtobufMessage` | code/trunk/p2p/pub/protobuf_msg_encode.cpp:69-99 | With a buffer of at least the frame's length it writes exactly the frame and returns its length; with a shorter one it writes nothing and returns 0; it overruns the buffer exactly when the frame's length wraps in msg_length_t and the buffer passes the test against the wrapped length. |
| `Frame.DecodeProtobufMessage` | code/trunk/p2p/pub/protobuf_msg_encode.cpp:111-154 | On every buffer the cursor arithmetic with its signed and unsigned 32-bit conversions gives what Decode says of the bytes. |
| `Frame.MessageIff` | code/trunk/p2p/pub/protobuf_msg_encode.cpp:111-154 | A message is returned if and only if the header is the length of the rest, the name is known, the checksum is in reach and right, and the bytes between begin inside and can be spelled as fields that say this message with all its required ones. |
| `Frame.NullIff` | code/trunk/p2p/pub/protobuf_msg_encode.cpp:111-154 | An empty pointer is returned if and only if length and name are right and the checksum is in reach but wrong, or right and the message bytes are none of the type; the decoder goes wrong exactly in the cases that are left. |
| `Frame.FrameLayout` | code/trunk/p2p/pub/protobuf_msg_encode.cpp:24-31 | The parts of a frame, byte by byte: header, name length, name, NUL, message and checksum, each where and of the value the format says. |
| `Frame.FramableIff` | code/trunk/p2p/pub/protobuf_msg_encode.cpp:46-55 | Framed is every name without NUL, and message, whose sizes fit an int, if the frame is below 2^32 bytes. |
| `Frame.FrameRoundTripIff` | code/trunk/p2p/pub/protobuf_msg_encode.cpp:69-154 | Decoding an encoded frame gives the same type and message if and only if the message is one parsing can produce and has all required fields. |
| `Frame.ReturnedIsChecked` | code/trunk/p2p/pub/protobuf_msg_encode.cpp:142-153 | Whatever is returned came in a frame whose stated length is its length and whose checksum holds over name length, name and data; framing it again decodes to the same. |
| `Frame.DecodeOfFrame` | code/trunk/p2p/pub/protobuf_msg_encode.cpp:111-154 | Of any framed bytes the decoder parses exactly the message bytes, under the framed name. |
| `Frame.FramesDiffer` | code/trunk/p2p/pub/protobuf_msg_encode.cpp:24-31 | No two pairs of name and message bytes share a frame. |
| `Frame.GetProtobufMessageEncodeLength` | code/trunk/p2p/pub/protobuf_msg_encode.cpp:46-55 | The length of the frame modulo 2^32. |
| `Frame.Finish` | code/trunk/p2p/pub/protobuf_msg_encode.cpp:98-98 | The header receives the length without itself, and the total length is returned. |
| `Frame.GetLength` | code/trunk/p2p/pub/protobuf_msg_encode.cpp:116-116 | The header's number plus its own size, as a 32-bit signed number. |
| `Frame.DecodeData` | code/trunk/p2p/pub/protobuf_msg_encode.cpp:132-153 | The unsigned data length passed to a signed advance lands on the last four bytes or outside the frame, and the outcome is that of DecodeNamed. |
| `Wire.SkipOfEncoded` | code/trunk/p2p/bcrm/src/proto.pb.cpp:3774-3783 | Every unknown value, nested groups included, is read back from what is written for it, whatever follows. |
| `Wire.VarintRoundTrip` | code/trunk/p2p/bcrm/src/proto.pb.cpp:894-898 | A written varint read back gives the value cut to the reader's width. |
| `WireGrammar.ReadVarintIff` | code/trunk/p2p/bcrm/src/proto.pb.cpp:894-898 | A number is read if and only if the input begins with at most ten bytes of which all but the last have the top bit; it is the sum of their low seven bits by powers of 128, cut to the width. |
| `WireGrammar.VarintDigits` | code/trunk/p2p/bcrm/src/proto.pb.cpp:1150-1229 | A written varint has the base-128 digits of the number, lowest first, and no needless one. |
| `WireGrammar.SkipIsGrammar` | code/trunk/p2p/bcrm/src/proto.pb.cpp:3774-3783 | An unknown field's value is read if and only if the input begins with a spelling of one by its wire type, groups being closed by their own end tags; the value is what the spelling says. |
| `Messages.MergeAssociative` | code/trunk/p2p/bcrm/src/proto.pb.cpp:3938-3952 | Merging is associative for every message type, nested messages included. |
| `Messages.MergeIdentity` | code/trunk/p2p/bcrm/src/proto.pb.cpp:3938-3952 | The empty message is neutral for merging on both sides. |
| `MessagePaths.LastOneWins` | code/trunk/p2p/bcrm/src/proto.pb.cpp:3938-3952 | At every path through submessages: the merge has the second message's number or string if it has one and else the first's, the elements of both in order, and a submessage if either has it. |
| `MessagePaths.InitializedIff` | code/trunk/p2p/bcrm/src/proto.pb.cpp:3966-3984 | A message is initialized if and only if every message there is a path to, elements of repeated fields included, has a value for each of its required fields. |
| `MessagePaths.AcceptedIff` | code/trunk/p2p/bcrm/src/proto.pb.cpp:3695-3984 | Parsing accepts a message as whole and initialized if and only if its bytes can be spelled as fields that say it and no required field at any path is missing. |
| `Messages.MergeInitialized` | code/trunk/p2p/bcrm/src/proto.pb.cpp:3966-3984 | Merging two initialized messages gives an initialized one. |
| `MessageParse.ParseIsMerge` | code/trunk/p2p/bcrm/src/proto.pb.cpp:3695-3788 | For every byte string and every present message: parsing into it succeeds exactly when parsing into an empty one does, and then merges the parsed message into it. |
| `MessageParse.ConcatenationIsMerge` | code/trunk/p2p/bcrm/src/proto.pb.cpp:3695-3952 | Two accepted byte strings one after the other parse to the merge of what each parses to. |
| `MessageParse.ParseContinues` | code/trunk/p2p/bcrm/src/proto.pb.cpp:3695-3788 | A parse that used up its input continues with more input as if both had been given at once. |
| `MessageParse.ReadFieldIsMerge` | code/trunk/p2p/bcrm/src/proto.pb.cpp:3699-3773 | Reading one field is merging a message that holds only that field: last scalar wins, repeated fields grow, submessages are merged. |
| `MessageGrammar.ParseIsGrammar` | code/trunk/p2p/bcrm/src/proto.pb.cpp:3695-3788 | The parse loop accepts a byte string, with a message, if and only if the bytes can be spelled as a list of fields, in any order and number, known ones by their kind and others by wire type, whose merge is that message. |
| `MessageGrammar.RefusedKeepsPrefix` | code/trunk/p2p/bcrm/src/proto.pb.cpp:3695-3788 | An input that is not accepted begins with fields whose merge is kept; the loop stopped at a missing, zero or end-group tag with nothing else changed, or failed in one value, and then at most that field is different. |
| `MessageGrammar.FailedField` | code/trunk/p2p/bcrm/src/proto.pb.cpp:868-885 | A number that cannot be read changes nothing; a string or submessage is there afterwards, a string with the bytes it had or none. |
| `MessageGrammar.KeptIsSigned` | code/trunk/p2p/protobuf/ugs-rcs/message.pb.cpp:1890-1909 | The number kept for an out-of-range enum value is congruent modulo 2^64 to the signed 32-bit value. |
| `MessageSerialize.SerializedConcatenationIsMerge` | code/trunk/p2p/bcrm/src/proto.pb.cpp:3695-3952 | The serializations of two well-formed messages one after the other parse to the second merged into the first. |
| `MessageSerialize.RoundTrip` | code/trunk/p2p/bcrm/src/proto.pb.cpp:3790-3870 | Every well-formed message, nested and with unknown fields, parses back to itself. |
| `MessageSerialize.RoundTripIff` | code/trunk/p2p/bcrm/src/proto.pb.cpp:3790-3870 | A typed message comes back from its bytes if and only if its unknown fields are ones its parser leaves unknown. |
| `MessageGrammar.NumbersAscend` | code/trunk/p2p/bcrm/src/proto.pb.cpp:3790-3870 | A message is written as fields whose numbers never descend, which together say its known fields, and then its unknown fields. |
| `MessageSerialize.ParseWellFormed` | code/trunk/p2p/bcrm/src/proto.pb.cpp:3695-3788 | No input, accepted or not, takes a well-formed message to one that is not. |
| `MessageSerialize.ParseSerializeIdempotent` | code/trunk/p2p/protobuf/ugs-rcs/message.pb.cpp:1868-1989 | For every accepted byte string, serializing the message and parsing again gives the same message. |
| `MessageClasses.OpenEnum` | code/trunk/p2p/protobuf/ugs-rcs/message.pb.cpp:1890-1909 | For every sequence of tracker_type values the last valid one is the field and each out-of-range one survives among the unknown fields, in order. |
| `MessageClasses.EnumArrives` | code/trunk/p2p/protobuf/ugs-rcs/message.pb.cpp:1890-1909 | For any accepted bytes before and after, and any bytes that read as an enum field's tag and a value: the whole is accepted; an out-of-range value survives among the unknown fields between those before and those after and changes no field; a valid one is the field's value unless a later one replaces it. |
| `MessageClasses.ExpectedTags` | code/trunk/p2p/bcrm/src/proto.pb.cpp:3699-3773 | The tags of all modelled classes are the ones their loops look ahead for. |
| `MessageClasses.ClassesOK` | code/trunk/p2p/bcrm/src/proto.pb.cpp:3695-3788 | Info with its nested classes and BtReplyTrackerMsg are instances of the modelled pattern. |
| `MessageClasses.DeclaredFlat` | code/trunk/p2p/bcrm/src/proto.pb.cpp:3699-3773 | The kinds of the fields of the classes without submessages, and which of them are required, optional or repeated. |
| `MessageClasses.DeclaredNested` | code/trunk/p2p/bcrm/src/proto.pb.cpp:3699-3773 | The same for the classes with submessages, and the number of tracker types. |
| `MessageClasses.ModelledFields` | code/trunk/p2p/bcrm/src/proto.pb.cpp:3699-3773 | Modelled are all message types of at most 15 fields of which only strings and submessages are repeated, with enums of 1 to 2^31 values from 0 on. |
| `MessageSize.ByteSize` | code/trunk/p2p/bcrm/src/proto.pb.cpp:3872-3924 | From the stored bits and members, at every depth: leaves in every message of the tree exactly the number of bytes it serializes to. |
| `MessageSize.SingularByteSize` | code/trunk/p2p/bcrm/src/proto.pb.cpp:3875-3890 | The members with presence bits are measured exactly although chunks without a bit, and members without theirs, are skipped. |
| `MessageSize.SingularSlot` | code/trunk/p2p/bcrm/src/proto.pb.cpp:3875-3890 | In a state that keeps the presence invariant, what a mask or bit test skips would have added no byte and no submessage, and what is not skipped is the visible value. |
| `MessageSize.SlotByteSize` | code/trunk/p2p/bcrm/src/proto.pb.cpp:2950-3002 | The bytes of one field and the sizes of its submessages. |
| `MessageSize.VarintSizeExact` | code/trunk/p2p/bcrm/src/proto.pb.cpp:1150-1229 | The size by thresholds is the length of the varint. |
| `MessageSize.TotalsAddUp` | code/trunk/p2p/bcrm/src/proto.pb.cpp:3872-3924 | Counting singular and repeated fields apart gives the size of all fields in number order. |
| `MessageWrite.WriteToArray` | code/trunk/p2p/bcrm/src/proto.pb.cpp:3828-3870 | From the stored bits and members, with right cached sizes: the array serializer writes exactly the serialized message at the position and nothing else. |
| `MessageWrite.WriteToStream` | code/trunk/p2p/bcrm/src/proto.pb.cpp:3790-3826 | From the stored bits and members, with right cached sizes: the stream serializer appends exactly the same bytes. |
| `MessageWrite.WriteMessageMaybeToArray` | code/trunk/p2p/bcrm/src/proto.pb.cpp:2874-2908 | Whether or not the stream lends a buffer of the cached size, the same bytes are appended. |
| `MessageState.ClearEmpties` | code/trunk/p2p/bcrm/src/proto.pb.cpp:2763-2773 | In a state that keeps the presence invariant, Clear with its skipped chunks and the Clear of every submessage leaves the empty message, no bit at any depth, and the invariant. |
| `MessageState.MergeStatesIsMerge` | code/trunk/p2p/bcrm/src/proto.pb.cpp:3016-3030 | MergeFrom with its skipped chunks, run on the bits and members of every submessage, keeps the invariant and is merging the visible messages. |
| `MessageState.BlankIff` | code/trunk/p2p/bcrm/src/proto.pb.cpp:3679-3693 | Under the invariant an object shows the empty message if and only if it has no bit, no element and no unknown field. |
| `MessageState.AbsentIsZero` | code/trunk/p2p/bcrm/src/proto.pb.hpp:2635-2661 | The member of an absent number or string holds 0 or no bytes, which is what its accessor returns. |
| `MessageState.IsInitializedIff` | code/trunk/p2p/bcrm/src/proto.pb.cpp:3966-3984 | IsInitialized, asked of the bits, is true if and only if the visible message has all its required fields at every depth. |
| `MessageState.StoredIsPut` | code/trunk/p2p/bcrm/src/proto.pb.hpp:2635-2661 | Storing a member with its bit keeps the invariant and changes the visible message in that field only. |
| `MessageState.UnsetIsAbsent` | code/trunk/p2p/bcrm/src/proto.pb.hpp:2635-2661 | Resetting a member with its bit keeps the invariant and makes that field absent. |
| `MessageObject.Message.MergePartialFromCodedStream` | code/trunk/p2p/bcrm/src/proto.pb.cpp:868-1032 | For every input, and whatever ExpectTag overlooks, the loop with gotos ends with the status and message of the plain read-tag-and-switch loop. |
| `MessageObject.JumpIsReadTag` | code/trunk/p2p/bcrm/src/proto.pb.cpp:2775-2872 | Jumping to a label on a matching tag byte is reading the tag and switching on it. |
| `MessageObject.LookAhead` | code/trunk/p2p/bcrm/src/proto.pb.cpp:2791-2856 | The jump to the same or the next field, or the exit at the end, loses nothing of the plain loop's outcome. |
| `MessageObject.Message.AtField` | code/trunk/p2p/bcrm/src/proto.pb.cpp:3700-3773 | A label reads its field and goes on where the plain loop would. |
| `MessageObject.Message.AtTag` | code/trunk/p2p/bcrm/src/proto.pb.cpp:3698-3783 | ReadTag and switch: exits with the plain loop's outcome or goes on. |
| `MessageObject.Message.ReadSubInto` | code/trunk/p2p/bcrm/src/proto.pb.cpp:3746-3758 | The nested loop, bounded by the declared length, runs on the submessage that is there or on a new one, and the message shown is what the plain loop makes. |
| `MessageObject.Message.ReadStringInto` | code/trunk/p2p/bcrm/src/proto.pb.cpp:874-885 | A string is read into the mutable member; a failed read leaves the member present. |
| `MessageObject.Message.ReadInto` | code/trunk/p2p/protobuf/ugs-rcs/message.pb.cpp:1890-1909 | One field is read as the plain switch reads it; an invalid enum value goes to the unknown fields. |
| `MessageObject.Message.Uninterpreted` | code/trunk/p2p/bcrm/src/proto.pb.cpp:3774-3783 | An unknown tag is kept, ends the loop, or fails as in the plain loop. |
| `MessageObject.Message.Clear` | code/trunk/p2p/bcrm/src/proto.pb.cpp:3679-3693 | Clears every submessage by its own Clear; the object shows the empty message, has no bit left, and keeps the presence invariant. |
| `MessageObject.Message.MergeFrom` | code/trunk/p2p/bcrm/src/proto.pb.cpp:3938-3952 | Merges every submessage by its own MergeFrom; the object shows the merge of what both showed and keeps the invariant. |
| `MessageObject.Message.CopyFrom` | code/trunk/p2p/bcrm/src/proto.pb.cpp:3960-3964 | The object shows what the source showed, also when it is the source. |
| `MessageObject.Message.Swap` | code/trunk/p2p/bcrm/src/proto.pb.cpp:3986-3998 | The two objects show each other's messages and have each other's cached sizes. |
| `MessageObject.Message.MutableSub` | code/trunk/p2p/bcrm/src/proto.pb.hpp:2651-2655 | The submessage becomes present with what was visible of it, empty if nothing was, although the member may hold an old cleared object. |
| `MessageObject.Message.Open` | code/trunk/p2p/bcrm/src/proto.pb.hpp:2651-2655 | The pointer to a submessage or element leads to an object that shows what is visible there. |
| `MessageObject.Message.Close` | code/trunk/p2p/bcrm/src/proto.pb.hpp:2651-2655 | Whatever was done to that object through the pointer is what the field then shows there, and nothing else changes. |
| `MessageObject.Message.AddSub` | code/trunk/p2p/bcrm/src/proto.pb.hpp:2247-2249 | The field gets one more element, which is empty. |
| `MessageObject.Message.Release` | code/trunk/p2p/bcrm/src/proto.pb.hpp:2656-2661 | The field becomes absent and the value that was visible is handed out. |
| `MessageObject.Message.ClearField` | code/trunk/p2p/bcrm/src/proto.pb.hpp:2644-2647 | A submessage is cleared in place; the field becomes absent and the invariant is kept. |
| `MessageObject.Message.UpdateSizes` | code/trunk/p2p/bcrm/src/proto.pb.cpp:3872-3924 | Measures the stored bits and members, returns the exact serialized size and leaves right cached sizes. |
| `MessageObject.Message.ToArray` | code/trunk/p2p/bcrm/src/proto.pb.cpp:3828-3870 | After ByteSize exactly the serialized message is written, of exactly the cached size. |
| `MessageObject.Message.ToStream` | code/trunk/p2p/bcrm/src/proto.pb.cpp:3790-3826 | After ByteSize exactly the serialized message is appended. |
| `MessageObject.Message.ParseFrom` | code/trunk/p2p/bcrm/src/proto.pb.cpp:3695-3788 | Accepts exactly the inputs the plain loop uses up into an initialized message, which the object then shows. |
| `MessageRuns.Run` | code/trunk/p2p/bcrm/src/proto.pb.hpp:2635-2661 | Under every run of operations, with runs of submessages and elements through their pointers at any depth and with accepted or failed parses, the presence invariant holds at every depth and the object shows what the operations do to a message without presence bits. |
| `MessageRuns.RunsRoundTrip` | code/trunk/p2p/bcrm/src/proto.pb.cpp:3695-3870 | After any such run from a new object the serialized message parses back to what the object shows. |
| `MessageRuns.MergeWellFormed` | code/trunk/p2p/bcrm/src/proto.pb.cpp:3938-3952 | Merging keeps messages serializable. |

## Left out

- Message classes are data: the loops over the fields of a `MsgType` stand for the unrolled code of each class, and only the classes named above are listed; classes with field numbers above 15 or repeated numbers are outside `TypeOK`.
- Submessage pointers: a submessage is opened as an object with the bits and members it has, changed by its own methods and closed again before anything else is done with its parent, so a pointer kept from before the parent was cleared, merged or parsed is not modelled; nor is direct access to the unknown field set. An element added to a repeated field is a new object, where the runtime may hand out a cleared one again.
- Reflection, descriptors, metadata, UTF-8 verification, static initialisation, `set_allocated` and the recursion limit of nested messages: library plumbing.
- The limits of CodedInputStream: a declared length past the input is a failed read; what else the runtime does with it is not modelled.
- MessageObject.Message.ToArray: requires the sizes of an unchanged message; what is written with stale cached sizes is not modelled.
- Frame.EncodeProtobufMessage: requires the message and the type name below 2^31 bytes, because their sizes are ints, and no NUL in the name.
- Frame: the internals of CRC-32; what a decoder that reads outside its buffer returns (`Crash`).
- Serial: user hooks (TAG_HAS_IMPL) and tag selection; C strings inside containers are written but not read, since they would be copied through an uninitialized pointer; capacity of the target of a C string.
- SerialCursor.Serializer.Write: what an access outside the buffer does; the model only says that it happens (`ok` is false). A negative measured size, which wraps in size_t, is a failed allocation.
- SerialNarrow.ReadBackIff: is about the elements read; two lists of elements can be worth the same set, so of values only one direction is stated (`SerialNarrow.ReadIntoOfWritten`).
- Iterators and allocation of std containers: a map is its items in key order, a set or unordered container the list of elements in iteration order.
- BencodeProgram: references are paths of positions, so a step names its objects as they are at that time; free-standing containers as arguments (they are the payloads of further variables), the raw bytes of the storage and C-string keys of operator[] and FindKey (the same code over another key type) are not modelled.
- BencodeProgram.Program.Construct: an integer without a value is any integer, where the source leaves it indeterminate.
- Decimal.IntegerToStr: the smallest 64-bit integer is excluded, since the source negates it.
- BencodeEntry::Print, stream output and Swap (which only asserts): output only, or not implemented.
- BencodeDecode: a buffer whose byte at `end` is not NUL, and the state of the cursor after a failed decode, which no caller sees.
- Big-endian hosts: the memcpy branches of the byte-order functions.
- Other generated files, hexadecimal encoding, the message dispatcher and all networking: the same pattern again, or finite tables.
