# Verification of the MessagePack library and code generator

This project models the byte codec (`msgp/`) and the code generator (`gen/`) in Dafny and
proves what they are for: that encoders and decoders are inverse, that the table-driven
`Skip` agrees with both, that in-place edits act like updates of an association list, that
the buffered `Writer` loses and repeats nothing, and that the generator compiles every type
tree into programs that encode, size and decode its values correctly. It is checked with
`dafny verify dfyconfig.toml`.

## How the modules fit together

- `Wire`, `Encoding`, `Decoding` hold the wire format: numbers, lead bytes, the size table,
  values, and encoders and readers as functions. `WireFormat` writes the format out a second
  time, in the numbers of the MessagePack specification, and proves the two the same.
  `RoundTrip`, `Integers`, `Skipping` and `Errors` prove the laws of encoders and readers.
- `Append` and `ReadLoops` are the imperative slice encoders and readers: Go slices over
  backing arrays, grown and written in place, proved against those functions.
- `Edit` and `Association` are the edits of an encoded map: first as raw searches and
  overlapping moves, then as operations on an association list.
- `Writer`, `WriterRuns` and `Reader` are the streaming side: a class over a sink that may
  take any part of what it is given and fail at any call, and a stream that may end anywhere.
- `TypeTree` holds the generator's type tree, the Go values of such types and their encoding
  node by node. For each generator one module defines the emitted statements with an
  interpreter and what is emitted for each node (`MarshalGen`, `UnmarshalGen`, `SizeGen`), and
  one holds the generator itself, a class that walks the tree and prints into blocks, proved
  to print exactly that (`MarshalPrinter`, `UnmarshalPrinter`, `SizePrinter`).
- `AnyInput` and `AnyResult` are about input nobody vouches for: what a generated method that
  succeeds has read, and what it leaves.
- `Targets` says what a variable holds after a value has been read into it. `GeneratedRoundTrip`,
  `Lossless`, `GeneratedStyles`, `GeneratedObjects`, `EncodeRuns` and `EncodeCuts` prove what the
  emitted programs do, alone and composed; `SizeValue`, `SizeBound`, `SizeInterfaces` and
  `SizeExcess` what `Msgsize` returns and which types it bounds (`Inhabitation`: types with values).
- `ByteArrays`, `FieldScope`, `LoopVariables` and `SizeText` describe four faults for which Go
  rejects emitted programs, each with the exact set of types that have it.
- `Resolve` turns parsed declarations into the named types the generators work on. `Unfolding`,
  `InlineWalk`, `InlineWeight`, `InlineTermination`, `InlineRuns` and `Inline` are the inliner: what it may make
  of a tree, one walk that rewrites a type in place while reading it, when walks end, and runs
  over all types in any order.

## How the code is represented

- Bytes are numbers below 256 and bit masks are arithmetic; `int` and `uintptr` have 64 bits.
  Word sizes, wrap-around and two's complement are written out. Lengths stay below 2^32, as the
  wire format requires.
- A Go map is the list of its entries in the order in which the run at hand enumerates them;
  theorems hold for every order. Floats are bit patterns; a float32 read into a float64 keeps
  its float32 pattern. A time is its Unix seconds and nanoseconds.
- Errors are values of one datatype; running out of input is `ShortBytes` on slices and
  streams alike. No user extension is registered. `val` does not alias `raw` in edits.
- An extension type either fixes its number, as types of the user's do, or is the library's
  `RawExtension`, whose number is a field: reading asks the target for it.
- Emitted code refers to a variable by the field selectors that lead to it from the variable of
  the enclosing block. A call of a named type's method uses up fuel; the theorems hold for
  every amount of fuel that reaches the depth of the value, so none of them is bounded.
- `Zero` is a zero value whose fields nobody has looked into yet. Decoding targets are
  arbitrary: stale slice capacity, stale fields, non-nil pointers.
- The two encoders are told apart by a `Style`: `Slice` for the `Append*` functions and
  `MarshalMsg`, `Stream` for the `Write*` methods and `EncodeMsg`.

## Where the code does less than it says

The lemma named with each says when the code is right, in most cases if and only if.

- `ReadInt64Bytes` reads the upper half of the uint32 form as negative
  (`Integers.SignedReadOfUint`); the stream reader does not (`Reader.ReadersDisagree`).
- A complex number at the very end of the input is read as a raw extension
  (`RoundTrip.ComplexBack`).
- A bin object that the input cuts off is read into an array of bytes, as far as it goes
  (`Errors.ExactByTable`, `AnyInput.TakesOneObject`, `AnyInput.CutOffIsRead`).
- `resizeMap` growing a 16-bit count past its form in place leaves the lead byte as it was
  (`Association.ResizeKeepsBody`, `Association.ResizeOutgrown`).
- `Reader.Skip` sizes an ext32 object from five bytes where its header needs six, and so does
  not skip what holds one (`Reader.SkipNext`, `Reader.Ext32NotSkipped`).
- `Writer.Append` cuts off what does not fit the buffer, so that an `EncodeMsg` sends the encoding
  exactly when every fused constant it meets fits (`EncodeRuns.EncodeMsg`,
  `EncodeCuts.AllWholeExactly`, `EncodeRuns.LongTagIsCut`).
- Which extension may be read into a `RawExtension` is decided by the number the target happens to
  hold, 0 in a new one: another number is an error, or is lost if the extension has no data
  (`Targets.ReceivedExactly`, `Targets.FreshTarget`, `GeneratedRoundTrip.FreshRawExtension`).
- The generated code returns a pointer to something that encodes as nil as a nil pointer, and
  small unsigned numbers in interface values as signed (`Lossless.SeenIsSent`,
  `Lossless.MarshalThenUnmarshal`).
- The two encoders differ on extensions of length 1, 2, 4, 8 and 16
  (`WriterRuns.StylesAgree`), the two generators also on arrays of `uint8`
  (`GeneratedStyles.GeneratorsAgree`).
- `Msgsize` does not count the headers of arrays inside fixed-size elements
  (`SizeBound.SliceBoundExactly`, `SizeExcess.NamelessExactly`, `SizeBound.NestedArrayOutgrows`),
  guesses 512 bytes for any slice in an interface value (`SizeInterfaces.CoveredExactly`,
  `SizeInterfaces.NilsOutgrow`), and its text is not Go when a fixed-size element ends in an empty
  struct (`SizeText.ProgramIsGoExactly`).
- Inlining the name of a byte type into an array of it leaves programs that Go rejects, because
  the array's slice is not a byte slice (`Unfolding.PlainAfterInlining`,
  `ByteArrays.InliningNamedBytes`).
- The inliner guards only against a type inside itself. A cycle of types is no trouble where a
  type on it is walked, since that type grows too complex in time, but the walk of a type that
  reaches a cycle of small types without being on it does not end
  (`InlineTermination.ReturnsExactly`, `Inline.OutsiderNeverEnds`).
- The emitted `UnmarshalMsg` uses `field` outside the scope of its declaration when a tuple
  holds a map-encoded struct inside a block before another one (`FieldScope.CompilesExactly`).
- For elements that are structs without anything to encode, the printed loops declare a variable
  they do not use, which Go rejects (`LoopVariables.LoopsUseExactly`,
  `LoopVariables.LoopsUseInExactly`); `Msgsize` does not have this fault (`SizeText.EmitUses`).

## Model

| member | source | states |
|---|---|---|
| Wire.BuildSizes | msgp/elsize.go:5-62 | the literal plus the five initialisation loops give, for each of the 256 lead bytes, the entry of the closed form `SpecOf` that every decoder proof uses |
| Wire.ReadBE64 | msgp/integers.go:54-70 | a 64-bit number written big-endian is read back from any position inside any other bytes (`ReadBE16` and `ReadBE32` likewise) |
| Wire.Unsigned | msgp/integers.go:5-52 | two's complement of every word size: the unsigned pattern, whose signed reading is the number again |
| Encoding.AssignIsUpdate | msgp/read_bytes.go:775-776 | assigning into a Go map kept as an entry list is the update of the mathematical map |
| Encoding.AssignKeys | msgp/read_bytes.go:775-776 | an assignment adds no key but its own and keeps keys distinct |
| WireFormat.EncodedInNumbers | msgp/defs.go:26-63 | for every value, from either encoder: the bytes are those of an encoding written out in the numbers of the MessagePack specification, lead byte, header and size class by size class, without a name of the library |
| WireFormat.IntInNumbers | msgp/write_bytes.go:88-127 | every signed number: the lead byte and two's complement digits of its range |
| WireFormat.UintInNumbers | msgp/write_bytes.go:149-170 | every unsigned number: the lead byte and digits of its range |
| WireFormat.CountsInNumbers | msgp/write_bytes.go:39-68 | every count of pairs or elements: 0x80 and 0x90 up to 15, then 0xde, 0xdf, 0xdc and 0xdd |
| WireFormat.LengthsInNumbers | msgp/write_bytes.go:198-252 | every length of a string or of binary data: 0xa0 up to 31, then 0xd9 to 0xdb and 0xc4 to 0xc6 |
| WireFormat.TableInNumbers | msgp/elsize.go:5-62 | each of the 256 lead bytes by number: its type, how many bytes size the object, and with those there the object's own bytes and the objects inside it; 0xc1 is refused |
| WireFormat.BlameInNumbers | msgp/errors.go:94-100 | a lead byte that a reader does not take: 0xc1 is an invalid prefix, any other a type error naming both types |
| WireFormat.SignedFormsRead | msgp/read_bytes.go:282-343 | the signed reader takes every signed form, the shortest or not, for the number it holds |
| WireFormat.UnsignedFormsRead | msgp/read_bytes.go:282-448 | every unsigned form, the shortest or not: its number for the unsigned reader; for the signed one too, but for the upper half of the 32-bit form, read as negative, and of the 64-bit one, an overflow |
| WireFormat.HeaderFormsRead | msgp/read_bytes.go:135-202 | map and array headers are read from every form with room for the count |
| WireFormat.TextFormsRead | msgp/read_bytes.go:510-664 | strings and binary data are read from every form with room for the length |
| RoundTrip.IntfBack | msgp/read_bytes.go:783-851 | dynamic round trip: for every value tree, every map enumeration order, either encoder and any trailing bytes, reading returns the tree, small unsigned numbers as signed, and exactly the trailing bytes |
| RoundTrip.ElemsBack | msgp/read_bytes.go:794-808 | the array loop returns the values in order |
| RoundTrip.EntriesBack | msgp/read_bytes.go:746-781 | the map loop, started on a map that already holds distinct keys, appends the entries in the order in which they were enumerated |
| RoundTrip.ComplexBack | msgp/read_bytes.go:14-39 | a complex number comes back as one exactly when a byte follows it; at the end of the input it comes back as the raw extension of type 3 or 4 with its bytes |
| RoundTrip.ExtBack | msgp/extension.go:448-515 | both extension encoders, whose headers differ, are read back to the same type and data at every length |
| RoundTrip.ExtBackInto | msgp/extension.go:500-515 | read with any wanted number, an encoded extension is taken if and only if that is its number or it has no data, and refused for its type otherwise |
| RoundTrip.MapHeaderBack | msgp/read_bytes.go:135-161 | every map header is read back, in each of its three forms |
| RoundTrip.ArrayHeaderBack | msgp/read_bytes.go:176-202 | every array header is read back, in each of its three forms |
| RoundTrip.StrBack | msgp/read_bytes.go:612-664 | every string is read back, in each of its four forms |
| RoundTrip.BinBack | msgp/read_bytes.go:510-561 | every byte slice is read back, in each of its three forms |
| RoundTrip.ExactBack | msgp/read_bytes.go:568-609 | a fixed-size array is filled with the bytes of a bin object of its length, whatever it held |
| RoundTrip.TimeBack | msgp/read_bytes.go:730-744 | every time, negative seconds included, is read back |
| RoundTrip.KeyBack | msgp/read_bytes.go:164-172 | every map key is read back |
| RoundTrip.ContainerType | msgp/read_bytes.go:783-822 | a container header sends the dynamic reader to the container's loop |
| RoundTrip.IntBack | msgp/read_bytes.go:282-343 | `ReadInt64Bytes` inverts `AppendInt64` on all of int64 |
| RoundTrip.UintBack | msgp/read_bytes.go:389-448 | `ReadUint64Bytes` inverts `AppendUint64` on all of uint64 |
| Integers.NarrowIntBack | msgp/read_bytes.go:345-376 | a narrowed signed reader succeeds exactly on the values that fit, and otherwise reports the value that overflowed |
| Integers.NarrowUintBack | msgp/read_bytes.go:450-487 | the same for the unsigned readers |
| Integers.SignedReadOfUint | msgp/read_bytes.go:282-343 | `ReadInt64Bytes` on unsigned encodings: right exactly below 2^31 and from 2^32 to 2^63-1, negative in the upper half of the uint32 form, an overflow from 2^63 on |
| Integers.SignedReadWrong | msgp/read_bytes.go:316-323 | the smallest value it gets wrong: 2^31 is read as -2^31 |
| Integers.UnsignedReadOfInt | msgp/read_bytes.go:389-448 | the unsigned reader accepts of the signed encodings exactly the positive fixints |
| Integers.IntShortest | msgp/write_bytes.go:88-127 | no encoding in the signed family that reads as the same number is shorter |
| Integers.UintShortest | msgp/write_bytes.go:149-170 | no encoding in the unsigned family that reads as the same number is shorter |
| Errors.HeadersByTable | msgp/read_bytes.go:135-217 | on every input: header, nil and boolean readers succeed exactly on a complete prefix of their type, and otherwise blame the type or the missing bytes |
| Errors.TextByTable | msgp/read_bytes.go:510-664 | on every input: string and binary readers succeed exactly on a complete object of their type, and which error they report otherwise |
| Errors.KeyByTable | msgp/read_bytes.go:164-172 | on every input: a map key is read exactly from a complete string or binary object, and which error is reported otherwise |
| Errors.IntegersByTable | msgp/read_bytes.go:282-448 | on every input: which lead bytes the signed and the unsigned reader take, and the only overflow |
| Errors.ExtensionsByTable | msgp/extension.go:448-515 | on every input: an extension is read exactly if it is complete and of the wanted type, or empty; a cut-off header is reported before a wrong type, and that before a cut-off body |
| Errors.ExactByTable | msgp/read_bytes.go:568-609 | on every input: into a byte array only a bin object that announces the array's length is read, any other length is the array error; a body that the input cuts off fills the front of the array and leaves nothing |
| Errors.FixedFormsByTable | msgp/read_bytes.go:219-744 | on every input: floats, complex numbers and times are read exactly from a complete object of their form |
| Skipping.SkipAgrees | msgp/read_bytes.go:856-911 | on every byte string, well formed or not: if the dynamic reader succeeds, `Skip` succeeds with the same remainder |
| Skipping.SkipLocal | msgp/read_bytes.go:856-873 | what `Skip` consumes is skipped in the same way in front of any other bytes |
| Skipping.SkipPrefix | msgp/read_bytes.go:856-911 | every proper prefix of an object is reported as too short, wherever the cut is, nested objects included |
| Skipping.ObjectsPrefixFree | msgp/read_bytes.go:856-911 | no object is a prefix of another: a concatenation of objects splits in one way only |
| Skipping.FrontIsObject | msgp/read_bytes.go:856-873 | what `Skip` cuts off is itself exactly one object |
| Skipping.EncodedIsObject | msgp/write_bytes.go:320-406 | every encoding of a dynamic value, from either encoder, is exactly one object |
| GeneratedObjects.GeneratedIsObject | gen/marshal.go:73-211 | for every type tree and value: what `MarshalMsg` or `EncodeMsg` encodes is exactly one object |
| GeneratedObjects.SkipDropsEncoding | msgp/read_bytes.go:856-873 | `Skip` drops exactly what a generated method appended |
| GeneratedObjects.GeneratedInNumbers | gen/marshal.go:73-211 | for every type tree and value: what each node puts on the wire, in the numbers of the specification; an array of bytes is a bin object, for `EncodeMsg` one of `uint8` too, every other array an array object |
| GeneratedObjects.NamesInNumbers | gen/marshal.go:101-118 | each map entry and struct field has its name in front of its value as a string object, a tuple's fields have none |
| Decoding.GetSize | msgp/read_bytes.go:876-911 | a size is never zero, which is what makes the recursion of `Skip` terminate |
| Decoding.Skip | msgp/read_bytes.go:856-873 | the remainder is a proper suffix of the input |
| Append.Require | msgp/write_bytes.go:12-29 | the new capacity exactly, contents kept, the same array exactly when it was large enough |
| Append.Ensure | msgp/write_bytes.go:32-36 | the length grows by the request and the old contents stay in front |
| Append.AmortisedGrowth | msgp/write_bytes.go:12-36 | over any run of `ensure` calls on a slice that starts out empty: bytes copied never exceed the capacity, which never exceeds twice the length |
| Append.NoRegrowth | msgp/write_bytes.go:12-36 | after one `Require`, extending by no more than was asked for never reallocates |
| Append.PutUint32 | msgp/integers.go:72-78 | the shifts write the big-endian bytes and leave the rest of the array alone |
| Append.Shifts32 | msgp/integers.go:72-78 | the four shifted bytes are the big-endian bytes |
| Append.PutUnix | msgp/integers.go:105-119 | seconds and nanoseconds, negative ones included, as 12 bytes, everything else unchanged |
| Append.PrefixU16 | msgp/integers.go:139-144 | lead byte and number in place, everything else unchanged |
| Append.AppendMapHeader | msgp/write_bytes.go:39-52 | in place when there is room: the old contents followed by the header |
| Append.AppendArrayHeader | msgp/write_bytes.go:55-68 | in place when there is room: the old contents followed by the header |
| Append.AppendInt64 | msgp/write_bytes.go:88-127 | appends the encoding that `IntBack` inverts |
| Append.AppendInt8 | msgp/write_bytes.go:130-140 | writes the same bytes as the 64-bit encoder |
| Append.AppendUint64 | msgp/write_bytes.go:149-170 | appends the encoding that `UintBack` inverts |
| Append.AppendUint8 | msgp/write_bytes.go:176-183 | writes the same bytes as the 64-bit encoder |
| Append.AppendBytes | msgp/write_bytes.go:198-217 | size switch, then the copy into the reserved space |
| Append.AppendString | msgp/write_bytes.go:228-251 | size switch, then the copy into the reserved space |
| Append.AppendTime | msgp/write_bytes.go:274-282 | the fifteen bytes of the time extension |
| Append.AppendExtension | msgp/extension.go:381-442 | the two size switches: the fixext header the first one writes is overwritten, so the result always has an ext header |
| Append.AppendIntf | msgp/write_bytes.go:320-406 | the whole encoding of a dynamic value is appended; nothing before it changes |
| Append.AppendMapStrIntf | msgp/write_bytes.go:298-313 | the map loop appends key and value of every entry in enumeration order |
| ReadLoops.SkipBytes | msgp/read_bytes.go:856-873 | the recursive loop computes `Skip` |
| ReadLoops.ReadMapStrIntf | msgp/read_bytes.go:746-781 | the caller's map, if there is one, is cleared in any order and filled, else a map is made; its entries are those of the round trip's reader; a bad header leaves it alone |
| ReadLoops.ReadIntfBytes | msgp/read_bytes.go:783-851 | dispatch and loops compute the reader of the round trip |
| ReadLoops.ReadBytesBytes | msgp/read_bytes.go:510-561 | the scratch slice is reused when large enough; the result holds the data whatever it held; on an error it is untouched |
| ReadLoops.RawUnmarshal | msgp/read_bytes.go:64-78 | the raw value becomes exactly the next object: it and the remainder are the input |
| Edit.LocateBounds | msgp/edit.go:113-147 | the search loop returns the bounds of the value, or 0, 0 when the key is missing or the map is malformed |
| Edit.LocateKVBounds | msgp/edit.go:151-184 | the same for key and value together |
| Edit.Replace | msgp/edit.go:71-109 | every branch, same size, shrinking, growing into the spare capacity under overlap, or allocating, yields `raw[:start]+val+raw[end:]`; which branches keep the array; the copying variant leaves `raw` alone |
| Edit.ReplaceKey | msgp/edit.go:22-39 | found exactly if the key is there; the spliced bytes; a failed or copying call changes nothing |
| Edit.ResizeMap | msgp/edit.go:187-239 | every header form and capacity case rewrites the header in front of the same body |
| Edit.RemoveKey | msgp/edit.go:43-50 | the first matching pair is cut out in place and the count lowered |
| Edit.SpareIsIrrelevant | msgp/edit.go:187-239 | lowering the count by one never depends on the capacity |
| Association.LocateIsLookup | msgp/edit.go:11-17 | `Locate` on any encoded map, with any header form, key form and trailing bytes, is the lookup in the association list |
| Association.ReplaceIsUpdate | msgp/edit.go:22-39 | `Replace` is the update of the first matching pair; every other byte is kept; no result exactly when the key is missing |
| Association.RemoveIsWithout | msgp/edit.go:43-50 | `Remove` is the list without the first matching pair, in the same header form with the count one lower, all other bytes in order |
| Association.ReplaceThenLocate | msgp/edit.go:11-39 | after `Replace` the key locates the new object and every other key the bytes it located before |
| Association.RemoveThenLocate | msgp/edit.go:11-50 | after `Remove` the key locates its next pair, if any, and every other key what it located before |
| Association.SearchFindsFirst | msgp/edit.go:113-147 | the raw search stops at the first pair with the key and nowhere else |
| Association.ResizeKeepsBody | msgp/edit.go:187-239 | the resized header reads as the new count in front of the same body, if and only if it is not a 16-bit count outgrowing its form in place |
| Association.ResizeOutgrown | msgp/edit.go:196-200 | the failing input: 65535 pairs and one more with two spare bytes read as one pair |
| Writer.Writer.Flush | msgp/write.go:90-106 | delivered plus pending bytes never change, also when the sink takes only a part and fails; on success nothing is pending |
| Writer.Writer.Require | msgp/write.go:116-126 | the reserved bytes lie behind everything accepted so far |
| Writer.Writer.AppendBytes | msgp/write.go:128-138 | what does not fit the whole buffer is cut off, the rest is accepted |
| Writer.Writer.Write | msgp/write.go:201-214 | payloads larger than the buffer bypass it after a flush; order is kept, the count returned is that of the bytes accepted, and it fails only if, and always if, the sink failed in this call or took too little |
| Writer.Writer.WriteStringBody | msgp/write.go:216-235 | the same for strings, with the short-write check |
| Writer.Writer.WriteInt64 | msgp/write.go:284-309 | accepts the bytes `AppendInt64` appends |
| Writer.Writer.WriteUint64 | msgp/write.go:332-345 | accepts the bytes `AppendUint64` appends |
| Writer.Writer.WriteString | msgp/write.go:400-422 | header and body, across a flush or a bypass between the two |
| Writer.Writer.WriteComplex128 | msgp/write.go:447-457 | eighteen contiguous bytes, the reason for the smallest buffer |
| Writer.Writer.WriteExtension | msgp/extension.go:110-207 | header and body accepted in order, in the buffer, or by making the body the new buffer after a flush |
| Writer.Writer.WriteIntf | msgp/write.go:524-598 | on success the whole encoding is accepted, on failure a prefix of it; on success the buffer is as long as the longest extension body that did not fit it |
| Writer.Writer.WriteMapStrIntf | msgp/write.go:479-500 | the map loop, with an early exit on the first error |
| WriterRuns.Run | msgp/write.go:90-235 | conservation and progress over runs: after any operations, some of which fail, delivered and buffered bytes are the old ones followed by one piece per operation, whole on success and a prefix on failure; on a sink that never fails every operation succeeds; the buffer keeps at least 18 bytes |
| WriterRuns.Encode | msgp/write.go:524-598 | a dynamic value written to a new writer of any size and flushed: a sink that never fails receives exactly its encoding, without an error; any error is one of the sink |
| WriterRuns.StylesAgree | msgp/extension.go:110-207 | the two encoders write the same bytes exactly when no extension inside has length 1, 2, 4, 8 or 16; otherwise the stream encoder writes fewer |
| Reader.GetNextSize | msgp/read.go:213-249 | peeking at the stream finds the size that `getSize` finds on all remaining bytes |
| Reader.CopyNext | msgp/read.go:115-159 | blames the sink exactly if the sink failed and the stream only for what `Skip` refuses; otherwise it has written and counted the bytes `Skip` drops and left the stream at `Skip`'s remainder |
| Reader.AppendNext | msgp/read_bytes.go:105-124 | the slice grows by exactly the bytes `Skip` drops, and succeeds exactly when `Skip` does |
| Reader.FiveBytesSuffice | msgp/read.go:253-270 | the five buffered bytes `Reader.Skip` sizes an object from suffice for every form but ext32 |
| Reader.SkipNext | msgp/read.go:253-293 | a run of `Reader.Skip`: what it skips is what `Skip` drops; it skips every object that holds no ext32 object and, with all input buffered, no other |
| Reader.Ext32NotSkipped | msgp/read.go:258-270 | the failing input: an array holding an ext32 object, which `Skip` drops |
| Reader.ReadStreamInt64 | msgp/read.go:473-549 | the stream reader computes `StreamInt`, stream position included |
| Reader.StreamIntBack | msgp/read.go:473-549 | the stream reader returns every signed value, every unsigned value up to 2^63-1, and overflows above it, having consumed the object |
| Reader.ReadersDisagree | msgp/read.go:527-532 | where both succeed, stream and slice reader differ exactly on unsigned values from 2^31 to 2^32-1 |
| MarshalGen.EmitCorrect | gen/marshal.go:73-211 | for every type tree and value, the emitted program appends the pending constants and then exactly the node-by-node encoding |
| MarshalGen.FusingPreservesMeaning | gen/marshal.go:58-120 | the fused and the unfused program append the same bytes, for both generators |
| MarshalGen.FieldsCorrect | gen/marshal.go:85-120 | the fields of a struct from any position on, with constants pending in front of the first |
| MarshalGen.ExecPend | gen/marshal.go:58-71 | pending and emitted constants together are always all constants so far |
| MarshalPrinter.Generator.Next | gen/marshal.go:73-211 | the walking generator prints exactly the specified statements and leaves no constant pending, nested empty structs included |
| MarshalPrinter.Generator.Block | gen/spec.go:329-337 | a loop or nil branch opens only with an empty fuse buffer, prints exactly the program of its element, and closes with an empty fuse buffer |
| MarshalPrinter.Generator.Tuple | gen/marshal.go:85-99 | the header is fused with the constants of the first field |
| MarshalPrinter.Generator.MapStruct | gen/marshal.go:101-120 | every tag is fused with the constants of its field |
| MarshalPrinter.Generator.Execute | gen/marshal.go:28-52 | behind what has been printed: the program of one named type, with an empty fuse buffer at its end if it was empty before |
| MarshalPrinter.Generator.ExecuteAll | gen/source.go:90-107 | all types of a file one after the other: no constant of one gets into the program of another |
| EncodeRuns.Run | gen/encode.go:28-125 | an emitted `EncodeMsg` running on a `Writer` accepts exactly the bytes of the program with each constant cut to the buffer as it then is, or a prefix on failure |
| EncodeRuns.EncodeMsg | msgp/write.go:67-86 | `EncodeMsg` on a new writer of any size and a flush: it fails only if the sink does, and without an error the sink has received the encoding of the value if and only if no constant was cut |
| EncodeRuns.CutExactly | msgp/write.go:128-138 | a run accepts the program's meaning if every constant it appends fits the buffer it meets, and fewer bytes if not |
| EncodeRuns.EncodedExactly | gen/encode.go:97-106 | the bytes of a run are the encoding of the value if and only if every constant executed fits |
| EncodeRuns.FittingRuns | gen/encode.go:97-106 | if the constants of all programs fit the buffer, no run cuts any |
| EncodeCuts.AllWholeExactly | gen/encode.go:97-131 | for a type: every value is sent whole if and only if every constant of the programs that it reaches fits the buffer; loops over arrays of no elements reach nothing |
| EncodeCuts.EmitJudged | gen/encode.go:114-200 | whether a run cuts a constant is told by the constants met on the way through the value, whatever extensions make of the buffer |
| EncodeRuns.LongTagIsCut | msgp/write.go:128-138 | the failing input: a struct with a nineteen-byte tag and the smallest buffer loses three bytes of the tag without an error |
| GeneratedStyles.GeneratorsAgree | gen/encode.go:160-174 | for every type tree and value: `EncodeMsg` and `MarshalMsg` write the same bytes if and only if along the value there is no `uint8` array and no extension of length 1, 2, 4, 8 or 16 |
| GeneratedStyles.PrimArrayExactly | gen/encode.go:160-174 | for an array of primitives that is Go with both generators, of any length: they agree if and only if the elements are not `uint8` and none is an extension of length 1, 2, 4, 8 or 16 |
| GeneratedRoundTrip.Decodes | gen/unmarshal.go:56-215 | generated round trip: for every type tree with distinct tags, every value, any target and any trailing bytes, the emitted `UnmarshalMsg` leaves exactly what the target receives, spare capacity included, and those bytes, or ends with the error of the first extension the target refuses |
| GeneratedRoundTrip.FreshRawExtension | msgp/extension.go:500-515 | the failing input: a `RawExtension` of type 7 read into a new struct is refused if it has data, and loses its number if it has none |
| AnyInput.TakesOneObject | gen/unmarshal.go:56-215 | on any input, into any variable: if the emitted `UnmarshalMsg` succeeds, it has read exactly the object `Skip` drops and hands on the same remainder; where arrays of bytes may be cut off, it can otherwise only have reached the end of the input inside that object |
| AnyInput.ReadsOneObject | gen/unmarshal.go:56-215 | without arrays of bytes: any input it accepts is one object and what it hands on |
| AnyInput.CutOffIsRead | msgp/read_bytes.go:601-605 | the failing input: a bin object of four bytes cut off after one is read into `[4]byte`, though `Skip` finds it too short |
| AnyInput.TupleCount | gen/unmarshal.go:67-79 | on any input, a tuple struct: an array header of another count than its fields ends with the array error naming both, and only behind one of the same count are the fields read |
| AnyInput.ArrayCount | gen/unmarshal.go:170-174 | on any input, an array: another count than its length ends with the array error naming both |
| AnyResult.LeavesItsType | gen/unmarshal.go:56-215 | on any input, into any variable that holds a value of its type: a successful `UnmarshalMsg` leaves a value of that type, numbers within their widths, arrays of their length, each map key once |
| AnyResult.ReadsSound | msgp/read_bytes.go:783-851 | on any input: what the dynamic reader returns is a value with each map key once |
| AnyResult.AssignGoKeys | gen/spec.go:306-310 | a map assignment sets its key, leaves every other entry, adds nothing else and keeps keys distinct |
| AnyResult.StaleElements | gen/spec.go:317-319 | fields that are not sent keep what the slice's memory holds: read into enough capacity, n empty maps show its first n structs again, those behind its old length included |
| Targets.ReceivedExactly | gen/unmarshal.go:135-136 | reading succeeds if and only if every `RawExtension` with data meets its own number in the target, and delivers all there is to see if and only if every one does |
| Targets.FreshTarget | msgp/extension.go:85-86 | a new variable takes exactly the values whose every `RawExtension` has the number 0 or no data |
| Targets.AnyTarget | gen/unmarshal.go:115-155 | values without a `RawExtension` are delivered in full into any target |
| Targets.RestoredExactly | gen/spec.go:317-319 | a value read back into the variable it came from is delivered in full if and only if every `RawExtension` in its maps has the number 0: slices, arrays, pointers and structs reuse what they hold, maps start afresh |
| Targets.ResizedInPlace | gen/spec.go:317-319 | with enough capacity no element moves or is lost, stale ones included; otherwise every element is new |
| GeneratedRoundTrip.ItemsDecode | gen/unmarshal.go:80-113 | any list of fields and unknown entries, in any order and with repetitions: the fields are left as reading the entries into them one after the other leaves them |
| GeneratedRoundTrip.FieldsAreApart | gen/unmarshal.go:80-113 | whether the entries are taken and what each field holds after them is told by that field's own entries |
| GeneratedRoundTrip.LastWins | gen/unmarshal.go:80-113 | a field ends with the last value given for it, or with what it held |
| GeneratedRoundTrip.AnyFieldOrder | gen/unmarshal.go:80-113 | the same for the whole method of a map-encoded struct, remainder included |
| GeneratedRoundTrip.ItemDecodes | gen/unmarshal.go:95-108 | one entry is read into its field and no other; an unknown name consumes one object and changes nothing |
| GeneratedRoundTrip.WithinLifts | gen/elem.go:458-462 | statements on a field do to the struct what they do to the field |
| GeneratedRoundTrip.NilLead | gen/unmarshal.go:210-215 | an encoding starts with the nil byte exactly for nil pointers, nil interfaces and pointers to those |
| GeneratedRoundTrip.LoopDecodes | gen/spec.go:329-337 | the element loop reads every element into what the element held |
| GeneratedRoundTrip.EntriesDecode | gen/unmarshal.go:188-208 | the map loop reads every value into a zero value and keeps the order in which the entries were written |
| Lossless.MarshalThenUnmarshal | gen/unmarshal.go:22-45 | both generators composed with the reader: success if and only if every `RawExtension` with data meets its own number in the target, and the value itself if and only if every one does and the value is faithful |
| Lossless.SeenIsSent | gen/unmarshal.go:210-215 | what there is to see is what was sent if and only if no pointer points to something that encodes as nil and no interface value holds a small unsigned number |
| Lossless.NormIsIdentity | msgp/read_bytes.go:783-802 | a dynamic value is returned unchanged if and only if it holds no unsigned number below 128 |
| Lossless.PointerToNil | gen/unmarshal.go:210-215 | the failing value: a pointer to a nil pointer comes back as a nil pointer |
| UnmarshalPrinter.Generator.Next | gen/unmarshal.go:56-215 | the walking generator prints exactly the specified statements |
| UnmarshalPrinter.Generator.StructAsMap | gen/unmarshal.go:80-113 | one case for each field, in order, and the declaration of `field` when it is still missing |
| UnmarshalPrinter.Generator.Execute | gen/unmarshal.go:22-45 | the program of one named type; its uses of `field` are in scope exactly for the types that `Compilable` describes |
| FieldScope.CompilesExactly | gen/unmarshal.go:80-85 | every loop over field names sees the declaration of `field` if and only if in no tuple a field holding a map-encoded struct follows one that holds such a struct only inside a block |
| FieldScope.LateStruct | gen/unmarshal.go:80-85 | the failing type: a tuple of a slice of structs and a struct; in the other order `field` is in scope, and all loops use their variables |
| LoopVariables.LoopsUseExactly | gen/spec.go:329-337 | for every type tree: each loop of the emitted `MarshalMsg` (or `EncodeMsg`) uses its variables, as Go demands, if and only if no slice, array or map in the tree has elements that are structs without anything to encode |
| LoopVariables.LoopsUseInExactly | gen/unmarshal.go:157-186 | the same for the slice and array loops of the emitted `UnmarshalMsg` |
| LoopVariables.EmptyElements | gen/spec.go:329-337 | the failing types: a slice of empty structs, and for the writing programs a map of them |
| FieldScope.OutOfScope | gen/unmarshal.go:80-85 | once the declaration's scope has been left, any further loop is an error |
| SizeGen.StaysWellPlaced | gen/size.go:48-200 | through every node and nested block: ` + ` only on an open sum, `s = ` only before anything else |
| SizeGen.ProgramIsWellFormed | gen/size.go:70-87 | an emitted `Msgsize` assigns `s` at most once, in its first statement; whether its expressions are Go is `SizeText.ProgramIsGoExactly` |
| SizeValue.EmitAdds | gen/size.go:89-200 | whatever state the emitter is in, the statements for a variable add the size of its value to what was there |
| SizeValue.MsgsizeIsSizeOf | gen/size.go:70-87 | an emitted `Msgsize` returns the size of the value node by node, for every type tree |
| SizeValue.TermAdds | gen/size.go:48-68 | a summand adds its value in each of the three states |
| SizePrinter.Generator.AddConstant | gen/size.go:48-68 | the three-state printer: text is only ever added to an open sum |
| SizePrinter.Generator.Next | gen/size.go:89-200 | the walking generator prints exactly the specified statements and keeps them well placed |
| SizePrinter.Generator.GStruct | gen/size.go:89-115 | header and tags of a struct become summands around those of its fields |
| SizePrinter.Generator.Execute | gen/size.go:70-87 | the program of one named type, which is Go exactly for the printable types |
| SizeBound.SizeBounds | gen/size.go:89-200 | the size bounds the encoding, for every value of every tree of covered types |
| SizeBound.SliceBoundExactly | gen/size.go:125-144 | slices of fixed-size elements: a bound for all values if and only if the element's expression covers its longest encoding |
| SizeBound.ArrayBoundExactly | gen/size.go:146-163 | arrays with a fixed-size expression: likewise, five bytes of header included |
| SizeBound.ArrayFreeCovers | gen/size.go:223-257 | expressions of scalars and of structs of them always cover, tuples included |
| SizeBound.ArrayFreeExactly | gen/size.go:223-257 | the expression of an array-free type is its longest encoding and the names of the tuple fields in it, which are never written: no less and no more |
| SizeBound.NestedArrayOutgrows | gen/size.go:225-228 | the failing type: an array of five one-element arrays of bool encodes to 11 bytes, `Msgsize` says 10 |
| SizeBound.LongestAttains | msgp/size.go:6-33 | the worst-case size of a fixed-size type is attained by one of its values |
| SizeBound.WithinWorst | msgp/size.go:6-33 | no value of a fixed-size type encodes longer than its worst-case size |
| SizeText.StrayPlus | gen/size.go:234-254 | the expression text ends in a stray `+` exactly for empty struct tails, and has one before a closing parenthesis exactly when an array's elements end so |
| SizeText.ProgramIsGoExactly | gen/size.go:125-163 | for every type: the emitted `Msgsize` has no stray `+` and its loops use their variables if and only if no fixed-size expression it prints has a stray `+` |
| SizeText.EmitUses | gen/size.go:125-163 | what is not of fixed size is printed with the variable's name, so that every loop printed uses its variable |
| SizeText.EmptyElements | gen/size.go:131-137 | the failing type: a slice of empty structs |
| SizeBound.GuessCovers | msgp/write.go:655-697 | `GuessSize` bounds every dynamic value whose slices each encode into 512 bytes |
| SizeBound.GuessIsLongest | msgp/write.go:655-697 | the guess of a value without parts is the longest encoding of its kind, no less and no more |
| SizeBound.GuessNineTimes | msgp/write.go:655-697 | but for slices and times, guessed at 512, the guess is at most nine times the encoding, and exactly nine times that of 0 |
| SizeInterfaces.CoveredExactly | gen/size.go:259-275 | for types whose fixed-size expressions cover: the size bounds every value if and only if no interface value is within reach of the type |
| SizeInterfaces.Outgrows | msgp/write.go:694-696 | any type with an interface value within reach has values that encode longer than `Msgsize` says, by any margin |
| SizeInterfaces.NilsOutgrow | msgp/write.go:694-696 | the failing value: a slice of 512 nils encodes to 515 bytes, 512 are guessed |
| SizeExcess.NamelessExactly | gen/size.go:89-257 | for every type that names no others: the size bounds every value if and only if no interface value is within reach and the excess of the type is not positive |
| SizeExcess.ExcessBounds | gen/size.go:89-257 | no encoding exceeds its size by more than the type's excess |
| SizeExcess.MostExcess | gen/size.go:89-257 | some value's encoding does exceed its size by as much |
| SizeExcess.FieldsMakeUp | gen/size.go:146-163 | a struct of `[5][1]bool` and `[3]bool` is bounded although its first field is not |
| SizeBound.MarshalNeverReallocates | gen/marshal.go:48-49 | `MarshalMsg` after its `Require(Msgsize())`: however its bytes are split into `ensure` calls, none reallocates or copies |
| Inline.Source.NextInline | gen/inline.go:94-133 | the walk rewrites the type's own tree in place: node and tree end as the walk's function says, which reads the tree as it has grown so far |
| InlineWalk.NextSound | gen/inline.go:94-133 | what a walk puts at a place is an unfolding of what was there, with nothing left to inline |
| InlineWalk.NextGrows | gen/inline.go:112-113 | a walk never makes a node simpler |
| Inline.Source.PropInline | gen/inline.go:73-92 | over the types in any order: ends, unfolds references only, leaves references only to types of five nodes and more or that refer to themselves, changes no type's values, and no value's encoding as far as the resulting arrays are Go |
| InlineWeight.ComplexityIsWeight | gen/elem.go:216-448 | the complexity of every tree is the number of its nodes, maps and converted primitives counted twice |
| InlineWeight.ReplacedExactly | gen/inline.go:94-124 | a reference is replaced if and only if the type it names has at most four such nodes and is not the one it stands in |
| InlineWeight.FlatStructs | gen/inline.go:20-22 | a struct of p plain primitives, c converted ones and m maps of plain ones is inlined as a whole if p + 2c + 3m is at most 3, and left alone otherwise |
| InlineWeight.AllSettledExactly | gen/inline.go:94-124 | nothing is left to inline if and only if every reference left is to a type of at least five nodes or to one that refers to itself |
| Unfolding.SameBytes | gen/inline.go:94-133 | an unfolding whose arrays are Go encodes every value like the original |
| Unfolding.SameValues | gen/inline.go:94-133 | an unfolding has the same values |
| Unfolding.UnfoldingGrows | gen/elem.go:267-448 | unfolding never lowers `Complexity`, so what was too complex to inline stays so |
| ByteArrays.TakesExactly | gen/marshal.go:154-166 | for every type tree: the emitted `MarshalMsg` (or `EncodeMsg`) hands Go only byte slices it accepts if and only if no array in the tree holds a named byte type (or named `uint8` type) |
| ByteArrays.ReadsExactly | gen/unmarshal.go:157-175 | the same for the emitted `UnmarshalMsg` |
| ByteArrays.InliningNamedBytes | gen/marshal.go:159-162 | the failing type: a struct with an array of a named byte type; its programs are Go before inlining and not after |
| Unfolding.PlainAfterInlining | gen/marshal.go:159-162 | the types' arrays are Go after inlining if and only if they were before and none is an array of a named byte type |
| InlineTermination.ReturnsExactly | gen/inline.go:94-133 | walking a type ends if and only if the type does not reach, through small types, a cycle of two or more small types that avoids it |
| Inline.EndsExactly | gen/inline.go:73-92 | the walks end in every order of the types if and only if no type reaches such a cycle |
| InlineRuns.StillSafe | gen/inline.go:73-92 | walking one type opens no such cycle to another |
| InlineRuns.CycleOutgrows | gen/inline.go:102-114 | a type on a cycle of small types is too complex to inline once it has been walked |
| Inline.TwoTypesEnd | gen/inline.go:99-114 | two types that refer to each other are inlined without trouble |
| Inline.OutsiderNeverEnds | gen/inline.go:99-114 | the failing input: a third type that refers to them; its walk does not end |
| Inline.OutsiderLaterEnds | gen/inline.go:73-92 | the same types in another order: once a type on the cycle has been walked, the walks end |
| Resolve.Source.Resolve | gen/source.go:147-172 | visiting names in any order, it terminates; a name becomes known exactly if its chain reaches a type known before, and is then a copy of that type; the rest is returned unresolved |
| Resolve.Source.Process | gen/source.go:175-202 | told from the declarations alone: a name is known if and only if it stands, itself or through any chain of names, for a declared tree, and it keeps that tree as declared, a primitive marked for conversion; no type is left that is just a name |
| Resolve.StoredAsDeclared | gen/elem.go:181-186 | whatever the order in which links were resolved, every known name keeps the tree its chain ends in |
| Resolve.KeptMeansTheSame | gen/elem.go:490-499 | what is kept has the values and the encoding of what was declared |
| Resolve.Confluent | gen/source.go:147-172 | two runs in different orders give the same types |
| Resolve.CyclesLeadNowhere | gen/source.go:147-172 | names on a cycle of aliases reach no known type |
| Resolve.OneEnd | gen/source.go:131-145 | a chain reaches at most one known type |
| Resolve.StepIsSound | gen/source.go:152-164 | resolving one link keeps every resolved name a copy of what its chain ends in |

## Left out

- Files, Go source parsing, import formatting, logging, directives and the generated tests:
  plumbing around libraries that are not part of this model. `Resolve` starts from parsed trees.
- The Go text of the emitted code beyond what is named above: variable names, receivers and
  printer errors.
- The internals of the buffered stream under `Reader`: replaced by a stream with peek, next and
  a buffer size. The other `Reader` methods are stream twins of the slice readers, and
  `gen/decode.go` is the twin of `gen/unmarshal.go` over them.
- The JSON transcoders, `Number`, `EndlessReader`, error texts and type printers.
- `reflect` fallbacks, `Sizer` and `Encoder` values and string-to-string maps inside interface
  values, float formatting, time zones, and user code behind extensions and convert shims. A
  shim that only casts is a `Base` node with `convert`.
- `findShim` and the ignore passes, which only replace or drop trees before printing.
- `HasKey`, which is not a twin of `Locate`: it does not skip values.
- Which remainder accompanies an error, and what a target holds after a failed read.
- Writer.Writer.Wrote: says nothing about the bytes once a sink has taken less than everything
  without reporting an error, which the sink's contract forbids.
- SizeBound.SizeBounds: excludes types whose fixed-size expressions do not cover and interface
  values with oversized slices. It is exact for types that cover (`SizeInterfaces.CoveredExactly`),
  and for types that name no others there is `SizeExcess.NamelessExactly`; for types that do not cover
  and name others no exact condition is stated.
- Inline.Source.PropInline: requires what makes the code end in every order of the types, which is
  exact (`Inline.EndsExactly`); some types end in some orders only (`Inline.OutsiderLaterEnds`). The result may depend on the order of the types; its meaning does not.
- GeneratedRoundTrip.Decodes: is about the meaning of the emitted statements also where the text
  around them is not Go. The faults that Go finds are stated in `ByteArrays`, `FieldScope`,
  `LoopVariables` and `SizeText`, each by itself; that there are no others is not.
