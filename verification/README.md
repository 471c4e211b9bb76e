# The wire format, its runtimes and its generator

This project models the untagged value format of crabcraft guests, the code that
speaks it, and the generator that writes such code, and proves that they agree.

* **The format.** `Wire` holds the types, values and the reference encoder and decoder;
  `Leb128` and `Unicode` the integers and texts inside them. `WireLanguage` defines, without
  a decoder, which byte strings denote which values, `WireFaults` which denote none and for
  what reason, and `WireTheorems` derives from it what the format promises: round trips with
  any suffix, prefix-freeness, locality, canonicalisation, minimum sizes. `LooseValues` is
  about strings and chars that are none, which some lanes send. `Vectors` has the golden
  vectors of the repository, byte for byte.
* **The SDK codec.** `Codec` is the codec as it runs: bytes pushed onto a vector, a cursor
  over a buffer, integers built by shifting, flags packed bit by bit. Every method is
  proved to do what the reference says.
* **The generator as a compiler.** `Ir` is the source language, `AsNative` the objects of
  the AssemblyScript lane, `AsEncode` and `AsDecode` the emitted statements and their
  meaning over locals, a sink and a decoder with a sticky error. `AsEncodeCorrect` and
  `AsDecodeCorrect` are the compiler correctness proofs, nested loops, options, variants and
  calls of generated helpers included; `AsEmitter` is the emitter as it runs, with its
  writer and its counter of temporaries; `AsTheorems` puts parameters, writer and reader
  together. `Shapes` is the table of shared classes and its collision guard, `ShapeNames`
  their names and when they cannot collide, `EmitOrder` the topological sort of the C++
  backend, `RustNative` the `lift` and `lower` conversions of the Rust backend, `RawString`
  the delimiter search of the C++ backend, `Workspace` the editor of the Cargo workspace,
  `Toml` and `WorkspaceToml` what the edited array is to a TOML reader, `Manifest` and
  `Stamp` the freshness stamp.
* **The runtimes.** `AsRuntime` has the growing sink and the sticky decoder of the
  AssemblyScript lane, `AsMachine` the emitted statements as calls of those two, `Guest` the
  dispatch of `crab_invoke` in all lanes, `Pins` the table of buffers handed to the host,
  `SqliteLane` (over `Json`) the C guest.
* **The call path.** `Abi` has handlers, framing and dispatch, `Signatures` the four result
  classes, and `Mesh` the reply parser, the typed wrappers, and the theorem that a call
  between any two lanes returns what the implementation returned. `Dispatch` says what is
  answered to names, arguments and replies that are none. `NativeCall` puts it together with
  the conversions and the emitted code of the AssemblyScript and Rust lanes.

Integers of the sources are unbounded here where their width cannot matter and bounded
where it does: the shifts of the LEB128 decoders are shown to stay within 64 bits, the sink
capacity within 31, the C length check is taken modulo 2^32. Lists and strings are shorter
than 2^32. Floats are their bytes.

## What the proofs found

* A char is a plain `u32` in the AssemblyScript lane and is not checked on the way out.
  What is written for a legal object reads back exactly when its chars are scalar values
  (`AsTheorems.WrittenIsReadable`); a lone surrogate is sent and then refused
  (`AsTheorems.SurrogateIsSent`).
* A C++ result with an empty error text is a success (`crab.hpp:66-76`), and Go and C++
  handlers send messages and strings that are not UTF-8, which every caller refuses to decode
  (AssemblyScript handlers refuse to send them; chars go out unchecked in all three). A call
  is transparent exactly when all texts that travel are texts and a C++ caller is not handed
  an empty failure (`Mesh.CallTransparent`). `Mesh.BadTextIsRefused` says what the caller gets
  otherwise; `Mesh.EmptyTextReadsAsSuccess` and `Mesh.BadMessageIsRefused` are concrete cases.
* A fresh project is honest exactly when the run that stamped it had loaded the bytes it
  hashed (`Stamp.FreshIsHonest`): an edit between the two leaves a fresh stamp over old
  output (`Stamp.EditedWhileLoaded`).
* A `regen` that fails can be repeated exactly if it fails before it has cleared `gen/` or
  after it has written the stamp. If it fails in between it is lost: `load_at` asks for the
  stamp that is gone (`Stamp.FailedRegenIsLost`), and such a run exists
  (`Stamp.RegenCanBeLost`). The comment at `project.rs:184-188` says the project is out of
  sight until `regen` succeeds; after such a failure it cannot.
* `Manifest::parse` undoes `render` exactly on fields that are not empty, hold no newline and
  do not end in a carriage return, which `str::lines` would drop.
* The C guest checks UTF-8 neither on the way in (`SqliteLane.OthersAlsoCheckUtf8`) nor on the
  way out: the document it prints is JSON, and its reply can be decoded, exactly when the
  column names and text cells are UTF-8 (`SqliteLane.TableArrives`), which
  `SELECT CAST(x'FF' AS TEXT)` shows they need not be (`SqliteLane.CastBlobIsNoText`).
* Two shapes can want one class name, and the generator then refuses the module
  (`ShapeNames.TokensCollide`). It never happens if no type name is a word of the generator or
  another name, alone or with more words behind it (`Shapes.ApartIsConsistent`), as among
  different names of one word each.
* The workspace editor keeps the strings of an array, whatever is added, exactly when all are
  non-empty basic strings without a comma, without a closing bracket and without an escaped
  quote at the end (`WorkspaceToml.SafeToEdit`). A string in literal quotes is quoted a second
  time, and a bracket inside a string, as in a glob, ends the array there
  (`WorkspaceToml.LiteralIsDamaged`, `WorkspaceToml.GlobIsDamaged`). It takes the first
  `members` array there is, of whatever table (`WorkspaceToml.OtherTableIsEdited`).

## Model

| member | source | states |
|---|---|---|
| Leb128.UlebExact | guest/crab-sdk/src/codec.rs:169-186 | decoding at a width succeeds with a value and an end exactly when the bytes up to that end are a terminated encoding of that value, of at most ceil(bits/7) bytes, and the value fits the width |
| Leb128.SlebExact | guest/crab-sdk/src/codec.rs:189-220 | the same for signed integers, in one statement that covers the range check of narrow widths and the tenth byte of an s64 |
| Leb128.UlebShortest | guest/crab-sdk/src/codec.rs:28-38 | no terminated encoding of an unsigned integer is shorter than the emitted one |
| Leb128.SlebShortest | guest/crab-sdk/src/codec.rs:40-51 | no terminated encoding of a signed integer is shorter than the emitted one |
| Leb128.UlebIsUleb | guest/crab-sdk/src/codec.rs:28-38 | the encoding of any integer of a width is accepted at that width |
| Leb128.SlebIsSleb | guest/crab-sdk/src/codec.rs:40-51 | the encoding of any signed integer of a width is accepted at that width |
| Unicode.Utf8Valid | tools/crabgen/templates/cpp/crab.cpp:20-49 | the hand-written validator accepts a byte string exactly when it is the concatenated UTF-8 encodings of some Unicode scalar values (sections 3 and 4 of RFC 3629) |
| Unicode.Utf16Wellformed | tools/crabgen/templates/ts/assembly/gen/runtime.ts:121-134 | the surrogate check accepts exactly the UTF-16 encodings of scalar sequences (section 2 of RFC 2781) |
| Unicode.ConversionInverse | tools/crabgen/templates/ts/assembly/gen/runtime.ts:491-507 | text conversion between UTF-16 and UTF-8 loses nothing in either direction |
| WireLanguage.DecodeExact | guest/crab-sdk/src/codec.rs:231-345 | at any cursor of any buffer the decoder yields a value and an end exactly when the bytes between denote that value in the declarative language of the type |
| WireFaults.FaultExact | guest/crab-sdk/src/codec.rs:231-345 | at any cursor of any buffer the decoder fails with an error exactly when the bytes from there have that fault at the type, as declared without a decoder: the first thing that goes wrong, after values that denote what stands before it |
| WireFaults.OneOrTheOther | guest/crab-sdk/src/codec.rs:231-345 | every byte string begins with a value of the type or has one fault at it, never both and never two |
| WireFaults.UlebFaultExact | guest/crab-sdk/src/codec.rs:169-186 | an unsigned integer ends too early, or has as many bytes as its width allows and carries bits beyond it, or asks for one byte more, and the error says which |
| WireFaults.SlebFaultExact | guest/crab-sdk/src/codec.rs:189-220 | the same for signed integers: below 64 bits the value is read whole and then found out of range, in 64 bits the tenth byte is no sign |
| WireTheorems.EncodeDenotes | guest/crab-sdk/src/codec.rs:54-122 | the encoding of every well-typed value is in the language of its type |
| WireTheorems.UnpackPack | guest/crab-sdk/src/codec.rs:111-120 | packed flags unpack to themselves and leave the spare high bits clear |
| WireTheorems.PackUnpack | guest/crab-sdk/src/codec.rs:328-343 | flag bytes without spare bits are what their flags pack to, so flags have one encoding |
| WireTheorems.RoundTrip | guest/crab-sdk/src/codec.rs:231-345 | decoding an encoded value between any prefix and any suffix gives the value and stops exactly at the suffix |
| WireTheorems.PrefixFree | guest/crab-sdk/src/codec.rs:54-122 | an encoding that is a prefix of another at the same type is the same value, hence encoding is injective |
| WireTheorems.DecodeLocal | guest/crab-sdk/src/codec.rs:231-345 | a decoding depends on nothing but the bytes it consumes |
| WireTheorems.DecodeYields | guest/crab-sdk/src/codec.rs:231-356 | a successful decode stays in the buffer, is well typed, takes at least the minimum size of its type, and re-encodes to no more bytes, which decode to the same value |
| WireTheorems.ListCountBounded | guest/crab-sdk/src/codec.rs:266-273 | a decoded list whose elements are never empty has fewer items than bytes consumed |
| WireTheorems.ParamsRoundTrip | guest/crab-sdk/src/codec.rs:360-373 | parameter decoding inverts the concatenation of encoded parameters |
| Vectors.Naturals | guest/crab-sdk/src/vectors.rs:57-88 | the golden vectors of u8 and u32: each value has its type, encodes to its bytes and is what they decode to |
| Vectors.LongNaturals | guest/crab-sdk/src/vectors.rs:89-104 | the same for u64, the largest included |
| Vectors.Signed | guest/crab-sdk/src/vectors.rs:105-120 | the same for negative s32 |
| Vectors.Chars | guest/crab-sdk/src/vectors.rs:137-152 | the same for chars, one beyond the basic plane |
| Vectors.Texts | guest/crab-sdk/src/vectors.rs:153-168 | the same for strings, whose length counts bytes |
| Vectors.Lists | guest/crab-sdk/src/vectors.rs:169-184 | the same for lists |
| Vectors.Records | guest/crab-sdk/src/vectors.rs:185-203 | the same for a record of a string and an option |
| Vectors.Tuples | guest/crab-sdk/src/vectors.rs:204-211 | the same for a tuple |
| Vectors.Cases | guest/crab-sdk/src/vectors.rs:220-241 | the same for both cases of a variant |
| Vectors.Results | guest/crab-sdk/src/vectors.rs:258-279 | the same for both sides of a result |
| Vectors.FlagsOfTen | guest/crab-sdk/src/vectors.rs:280-289 | ten flags take two bytes, the first flag the lowest bit of the first |
| Vectors.SignedBytes | guest/crab-sdk/tests/vectors.rs:87-90 | -129 and 128 are refused as s8, with the overflow error |
| Vectors.TooLong | guest/crab-sdk/tests/vectors.rs:66-69 | a third byte of a u8 is refused as too long, and bits beyond the eighth as an overflow (`Vectors.TooBig`) |
| Vectors.NoCase | guest/crab-sdk/tests/vectors.rs:95-98 | a case out of range is refused with its number, as are enums, booleans and options |
| Vectors.StrayBit | guest/crab-sdk/tests/vectors.rs:99-100 | a bit above the last flag is refused |
| Vectors.NoText | guest/crab-sdk/tests/vectors.rs:106-114 | a string that is no UTF-8 is refused for that reason, and one cut off for its end (`Vectors.CutOff`) |
| Codec.UlebEncode | guest/crab-sdk/src/codec.rs:28-38 | the loop appends the unsigned encoding and nothing else |
| Codec.SlebEncode | guest/crab-sdk/src/codec.rs:40-51 | the loop with its arithmetic shift appends the signed encoding |
| Codec.PackFlags | guest/crab-sdk/src/codec.rs:111-120 | or-ing every set flag into its byte of a zeroed buffer gives the packed flags |
| Codec.EncodeValue | guest/crab-sdk/src/codec.rs:54-122 | exactly the reference encoding is appended to the vector |
| Codec.NoCarry | guest/crab-sdk/src/codec.rs:174-183 | or-ing a shifted payload in is adding it: it never meets a set bit and never shifts a bit out of 64 |
| Codec.OrBitIsOr | guest/crab-sdk/src/codec.rs:111-120 | setting a flag bit is the bitwise or with its power of two |
| Codec.Decoder.Byte | guest/crab-sdk/src/codec.rs:150-157 | one byte and the cursor after it, or the end-of-buffer error |
| Codec.Decoder.Take | guest/crab-sdk/src/codec.rs:159-166 | exactly the next bytes, or the end-of-buffer error |
| Codec.Decoder.Uleb | guest/crab-sdk/src/codec.rs:169-186 | the shifting loop gives the verdict, error, value and cursor of the specification |
| Codec.Decoder.Sleb | guest/crab-sdk/src/codec.rs:189-220 | the shifting loop with sign extension gives the verdict, error, value and cursor of the specification |
| Codec.Decoder.PrefixBit | guest/crab-sdk/src/codec.rs:222-228 | a discriminant byte is 0 or 1, anything else is an error that names it |
| Codec.Decoder.FlagBits | guest/crab-sdk/src/codec.rs:328-343 | bit by bit unpacking agrees with the specification, spare bits refused |
| Codec.Decoder.Value | guest/crab-sdk/src/codec.rs:231-345 | the recursive decoder gives the verdict, error, value and cursor of the reference for every type and buffer |
| Codec.DecodeBuffer | guest/crab-sdk/src/codec.rs:349-356 | one value and nothing after it, or the error with the number of bytes left |
| Codec.DecodeParamsBuffer | guest/crab-sdk/src/codec.rs:360-373 | all parameters in order and nothing after them, errors naming their parameter |
| AsNativeTheorems.UnboxedIsNotNull | tools/crabgen/src/backend_as.rs:581-599 | an option payload the generator does not box is never null, so null always means none |
| AsNativeTheorems.BoxExact | tools/crabgen/src/backend_as.rs:578-599 | an option is boxed exactly if some legal object of its payload is null or is no reference |
| AsNativeTheorems.NativeFaithful | tools/crabgen/src/backend_as.rs:559-621 | the object built for any well-typed value is legal and stands for exactly that value, options of any depth included |
| AsNativeTheorems.NativeInjective | tools/crabgen/src/backend_as.rs:581-621 | no two distinct values share an object |
| LooseValues.LooseRefused | guest/crab-sdk/src/codec.rs:231-345 | a value of the right shape with a string that is not UTF-8 or a char that is no scalar value is refused by the decoder wherever its encoding stands, with the UTF-8 error if all chars are right |
| LooseValues.LooseTyped | guest/crab-sdk/src/codec.rs:250-265 | such a value is well typed exactly if all its strings and chars are texts |
| AsNativeTheorems.ToValueLoose | tools/crabgen/src/backend_as.rs:409-426 | the value of any legal object has the wire type up to its chars, and all its strings are UTF-8 |
| AsNativeTheorems.ToValueTyped | tools/crabgen/src/backend_as.rs:409-426 | the value of any legal object has the wire type exactly when its chars are scalar values |
| AsNativeTheorems.DefaultShaped | tools/crabgen/src/backend_as.rs:623-661 | every default expression yields a legal object of its type |
| AsNativeTheorems.DefaultIsZero | tools/crabgen/src/backend_as.rs:623-661 | every default is a zero all the way down: false, 0, empty, null, first case, not an error |
| AsEncodeCorrect.EmitCorrect | tools/crabgen/src/backend_as.rs:924-986 | the emitted encode statements, run on any legal object, append the reference encoding of its value or set the sink error when it has none, and leave every variable made before them alone |
| AsEncodeCorrect.HelperCorrect | tools/crabgen/src/backend_as.rs:1427-1612 | the same for the body of every generated encode helper, its enum, flags and tag guards included |
| AsEncodeCorrect.LoopCorrect | tools/crabgen/src/backend_as.rs:926-932 | the emitted element loop appends the rest of the list from any index, for any nesting of loops |
| AsEncodeCorrect.VariantCorrect | tools/crabgen/src/backend_as.rs:1427-1612 | the tag guard and the emitted switch append tag and payload, or set the error for a bad tag or a null payload |
| AsDecodeCorrect.EmitFills | tools/crabgen/src/backend_as.rs:992-1079 | the emitted decode statements, run on any buffer into a default target, give the reference verdict, error and cursor, and fill the target, and nothing else, with the decoded value |
| AsDecodeCorrect.HelperReturns | tools/crabgen/src/backend_as.rs:1427-1612 | every generated decode helper returns the object, cursor and error of the reference decoder |
| AsDecodeCorrect.LoopFills | tools/crabgen/src/backend_as.rs:995-1013 | the emitted counting loop pushes exactly the remaining items, or stops at the first error |
| AsDecodeCorrect.VariantReturns | tools/crabgen/src/backend_as.rs:1427-1612 | the emitted switch fills the field of the decoded case and leaves the other cases at their defaults |
| AsDecodeCorrect.EmitTotal | tools/crabgen/src/backend_as.rs:992-1079 | emission succeeds for every accepted type and never moves the temporary counter back |
| AsEmitter.Cx.Fresh | tools/crabgen/src/backend_as.rs:464-468 | every temporary is new |
| AsEmitter.TempNamesApart | tools/crabgen/src/backend_as.rs:393-402 | the spelled names of two temporaries differ, and no mangled parameter name is one of them |
| AsEmitter.EmitEncode | tools/crabgen/src/backend_as.rs:924-986 | the emitter appends to the open block exactly the code whose meaning is proved, and fails exactly when there is none |
| AsEmitter.EmitDecode | tools/crabgen/src/backend_as.rs:992-1079 | the same for the decode emitter, with the order in which it draws temporaries |
| AsTheorems.ParamsEncode | tools/crabgen/src/backend_as.rs:1716-1722 | the parameter code of a mesh wrapper appends the concatenation of the reference encodings |
| AsTheorems.ParamsDecode | tools/crabgen/src/backend_as.rs:1623-1634 | the parameter code of a handler leaves every parameter in its own local, or returns the first error of the reference decoder |
| AsTheorems.Written | tools/crabgen/src/backend_as.rs:1647-1653 | encoding a result into a fresh sink gives exactly its reference bytes, and the error exactly when it has no value |
| AsTheorems.WrittenIsReadable | tools/crabgen/src/backend_as.rs:924-986 | what is written for a legal object decodes back to its value if and only if its chars are scalar values |
| AsTheorems.ReadBack | tools/crabgen/src/backend_as.rs:1738-1748 | the emitted decode code, run on an encoded value, ends at the end of the buffer with an object that stands for that value |
| AsTheorems.SurrogateIsSent | tools/crabgen/templates/ts/assembly/gen/runtime.ts:249-251 | a lone surrogate is a legal char, the emitted code writes it, and every decoder refuses it |
| AsTheorems.ReadWhole | tools/crabgen/templates/ts/assembly/gen/runtime.ts:328-332 | the emitted decode code followed by `finish` accepts a buffer exactly when it is one value and nothing else, with the reference error or the number of bytes left otherwise |
| AsMachine.Write | tools/crabgen/src/backend_as.rs:924-986 | every emitted writing statement, made as a call of the growing sink, has the effect it is given in the correctness proofs, as long as 2^30 bytes are not exceeded |
| AsMachine.Read | tools/crabgen/src/backend_as.rs:992-1079 | every emitted reading statement, made as a call of the sticky decoder, has the effect it is given in the correctness proofs |
| AsRuntime.Sink.Ensure | tools/crabgen/templates/ts/assembly/gen/runtime.ts:147-155 | doubling makes room without changing the contents and without leaving the 31-bit range |
| AsRuntime.Sink.Byte | tools/crabgen/templates/ts/assembly/gen/runtime.ts:163-166 | contents grow by the byte, through any reallocation |
| AsRuntime.Sink.Raw | tools/crabgen/templates/ts/assembly/gen/runtime.ts:169-173 | contents grow by the bytes, through any reallocation |
| AsRuntime.Sink.PutUleb | tools/crabgen/templates/ts/assembly/gen/runtime.ts:176-186 | contents grow by the unsigned encoding |
| AsRuntime.Sink.PutSleb | tools/crabgen/templates/ts/assembly/gen/runtime.ts:189-200 | contents grow by the signed encoding |
| AsRuntime.Sink.PutString | tools/crabgen/templates/ts/assembly/gen/runtime.ts:256-265 | length and UTF-8 form are appended, or nothing and the error is set, exactly for a string without such a form |
| AsRuntime.Sink.PutFlags | tools/crabgen/templates/ts/assembly/gen/runtime.ts:292-302 | writing zeros and or-ing bits in place appends the packed flags and leaves what was before |
| AsRuntime.Decoder.UlebBits | tools/crabgen/templates/ts/assembly/gen/runtime.ts:345-364 | the specification's value or its error kept; nothing at all once an error is kept |
| AsRuntime.Decoder.SlebBits | tools/crabgen/templates/ts/assembly/gen/runtime.ts:369-404 | the same for signed integers |
| AsRuntime.Decoder.Text | tools/crabgen/templates/ts/assembly/gen/runtime.ts:491-507 | the same for strings, as UTF-16 |
| AsRuntime.Decoder.Flags | tools/crabgen/templates/ts/assembly/gen/runtime.ts:555-573 | the same for flags |
| AsRuntime.Decoder.Index | tools/crabgen/templates/ts/assembly/gen/runtime.ts:530-551 | the same for variant and enum indices |
| AsRuntime.Decoder.PerformAll | tools/crabgen/templates/ts/assembly/gen/runtime.ts:311-574 | any sequence of calls gives the results of the short-circuiting decoder up to its first error, zero values after it, and keeps that error |
| Ir.ResolveExact | tools/crabgen/src/backend_cpp.rs:757-772 | a type resolves to the type at the end of its alias chain, exactly if the chain has at most 63 names |
| Ir.DeclaredExact | tools/crabgen/src/backend_as.rs:551-621 | a definition is accepted exactly if its tags fit 31 bits and its flags 64, and every part of its tree is a primitive, a composite, or a declared and resolvable name of lower rank |
| EmitOrder.GraphExact | tools/crabgen/src/backend_cpp.rs:832-870 | one declaration has an edge to another exactly if its name stands anywhere in the type tree of the first |
| EmitOrder.Sorter.Visit | tools/crabgen/src/backend_cpp.rs:870-897 | a visit either finds a cycle or appends what its root needs, dependencies first, and restores the colours of the stack |
| EmitOrder.Sort | tools/crabgen/src/backend_cpp.rs:832-902 | the sort fails exactly for cyclic graphs, and otherwise permutes all nodes, puts every node after all it depends on, and lets a node overtake an earlier one only if something declared no later needs it |
| EmitOrder.NoDepsKeepsOrder | tools/crabgen/src/backend_cpp.rs:828-831 | without dependencies the declaration order is kept |
| EmitOrder.EmissionOrder | tools/crabgen/src/backend_cpp.rs:832-902 | there is no order exactly if some chain of declarations, each mentioning the next, returns to its start; otherwise every declaration stands in it once, after whatever it mentions, and overtakes an earlier one only if something declared no later leads to it |
| EmitOrder.DepsFirstExact | tools/crabgen/src/backend_cpp.rs:870-897 | an order of all declarations has its dependencies first exactly if whatever a declaration mentions stands at a smaller position |
| EmitOrder.SortedIsValid | tools/crabgen/src/backend_cpp.rs:832-902 | an order of the declarations, taken as ranks, gives what the emitters rely on if and only if whatever is mentioned stands before and every declaration is well formed: sizes in range, names declared, nominal forms only at the top, and no alias chain of 64 names |
| Shapes.Accumulator.Add | tools/crabgen/src/backend_as.rs:502-517 | a request fails exactly when its name already stands for another shape |
| Shapes.Accumulator.Scan | tools/crabgen/src/backend_as.rs:730-772 | a scan makes exactly the requests of its type, or fails because they clash |
| Shapes.CollectShapes | tools/crabgen/src/backend_as.rs:699-728 | the table can be built exactly when no name is wanted for two shapes, always if the names of the module keep apart; then names are unique, the classes are exactly those requested, and the table is complete |
| Shapes.NeedsExact | tools/crabgen/src/backend_as.rs:730-772 | a scan requests exactly what the tuples, results and boxed options anywhere in the type tree want |
| Shapes.RequestsExact | tools/crabgen/src/backend_as.rs:699-728 | a module requests exactly what its definitions, parameters and returned values want, and one wrapper class for every function |
| Shapes.ApartIsConsistent | tools/crabgen/src/backend_as.rs:689-728 | if the names of a module keep apart no two of its shapes want one class name, the wrapper classes of functions included |
| Shapes.TableIsNamed | tools/crabgen/src/backend_as.rs:699-772 | every class in the table is named by the code of some definition or some function |
| Shapes.DefaultNames | tools/crabgen/src/backend_as.rs:639-655 | the default of a type names what stands at the end of its alias chain |
| Shapes.FieldsAreParts | tools/crabgen/src/backend_as.rs:1323-1384 | the parts of the type a class is for are that type and the parts of the class's fields |
| Shapes.TableIsComplete | tools/crabgen/src/backend_as.rs:699-772 | for every definition, every function's parameters and result, and every class in the table, whatever they can name is in the table, wrapper classes of results included, and its name gives its own shape |
| Shapes.ModuleScanned | tools/crabgen/src/backend_as.rs:699-709 | scanning all declarations scans whatever any name resolves to |
| Shapes.FieldsScanned | tools/crabgen/src/backend_as.rs:730-772 | the field types of a requested class are scanned too |
| Shapes.MentionedHasItsShape | tools/crabgen/src/backend_as.rs:601-661 | every class that the type expressions, defaults and decode code of a scanned type can name is in the table, and its name gives its own shape |
| ShapeNames.TokenUnique | tools/crabgen/src/backend_as.rs:1896-1929 | if each name begins with a letter and none is a generator's word or another name, alone or with more words behind it, a token can be read back from the front of any text: what it is the token of, and where it ends |
| ShapeNames.OneWordNames | tools/crabgen/src/backend_as.rs:340-351 | names of one word meet that condition as soon as they are spelled differently and are no words of the generator |
| ShapeNames.PascalSplits | tools/crabgen/src/backend_as.rs:340-351 | a name is spelled by its segments, each with a capital and without the hyphens |
| ShapeNames.TokenSpellings | tools/crabgen/src/backend_as.rs:1896-1929 | the spelled names of a result, a tuple and an option inside an option |
| ShapeNames.TokensCollide | tools/crabgen/src/backend_as.rs:1890-1895 | two different tuples spell one class name |
| RustNative.LiftTyped | tools/crabgen/src/backend_rust.rs:626-734 | lifting never fails on a value of the wire type, and lowering the result gives the value back |
| RustNative.LowerTyped | tools/crabgen/src/backend_rust.rs:768-875 | a lowered value has the wire type and lifts to the native value it came from |
| RustNative.LowerFails | tools/crabgen/src/backend_rust.rs:1159-1180 | lowering fails exactly when some flags value inside has a bit beyond its declared flags |
| RustNative.InfallibleIsTotal | tools/crabgen/src/backend_rust.rs:738-764 | where the generator takes lowering for infallible it cannot fail |
| RustNative.FallibleExact | tools/crabgen/src/backend_rust.rs:736-764 | the generator takes lowering for fallible exactly where a record, variant, enum or flags type stands in the wire type |
| RawString.Contains | tools/crabgen/src/backend_cpp.rs:1657-1657 | substring search |
| RawString.FewRejections | tools/crabgen/src/backend_cpp.rs:1657-1660 | rejected delimiters were found at different positions, so there are no more than characters |
| RawString.ChooseDelimiter | tools/crabgen/src/backend_cpp.rs:1654-1660 | the search ends for every schema with the first delimiter whose closing sequence is not in it |
| RawString.LiteralReadsBack | tools/crabgen/src/backend_cpp.rs:1661-1668 | the first closing sequence in the literal is the one after the schema, so it reads back as exactly the schema |
| RawString.DelimiterFits | tools/crabgen/src/backend_cpp.rs:1654-1668 | for schemas below 10^9 characters the delimiter has at most the 16 characters a raw string allows |
| Workspace.FindAnchor | tools/crabgen/src/backend_rust.rs:1607-1620 | the line loop finds the first line that begins with the key and an equals sign |
| Workspace.AnchorExact | tools/crabgen/src/backend_rust.rs:1604-1622 | that is the first place where a line begins and, after white space, `members` and an equals sign stand on it, and there is none exactly if no line is such |
| Workspace.BracketsExact | tools/crabgen/src/backend_rust.rs:1621-1630 | the array is what stands between the first opening bracket after that place and the first closing one after it |
| Workspace.GreaterExact | tools/crabgen/src/backend_rust.rs:1643-1647 | entries are compared at their first difference |
| Workspace.ManyLinesExample | tools/crabgen/src/backend_rust.rs:1648-1664 | two entries in both layouts, letter by letter |
| Workspace.AddMember | tools/crabgen/src/backend_rust.rs:1601-1670 | the edit that is made, or why none is |
| Workspace.EditInserts | tools/crabgen/src/backend_rust.rs:1601-1670 | an edit changes only what is between the brackets, re-parses, as the editor reads it, to the old entries with the new one in its place, keeps the layout, and makes the next edit a no-op |
| Workspace.GrownSorted | tools/crabgen/src/backend_rust.rs:1647-1652 | a sorted list stays sorted |
| Workspace.BracketsKept | tools/crabgen/src/backend_rust.rs:1607-1631 | after an edit the same array is found, with exactly what was written into it |
| WorkspaceToml.EditIsRight | tools/crabgen/src/backend_rust.rs:1601-1670 | with no backslash in the array, TOML reads the old strings with the new one in its place after an edit if and only if every old string is basic, not empty, and without comma or closing bracket |
| WorkspaceToml.SafeToEdit | tools/crabgen/src/backend_rust.rs:1601-1670 | for every array: all edits are right in that sense if and only if every string is such a string and none ends in an escaped quote |
| WorkspaceToml.OnlyPlainKept | tools/crabgen/src/backend_rust.rs:1639-1643 | an edit that is right had nothing but such strings before it |
| WorkspaceToml.PlainKept | tools/crabgen/src/backend_rust.rs:1647-1666 | such strings are kept, wherever the new one goes |
| WorkspaceToml.LiteralIsDamaged | tools/crabgen/src/backend_rust.rs:1639-1643 | a string in literal quotes is written back in two kinds of quotes and is another string then |
| WorkspaceToml.GlobIsDamaged | tools/crabgen/src/backend_rust.rs:1627-1632 | the bracket of `"a[b]"` ends the array for the editor, and what it writes is another array |
| WorkspaceToml.EscapeByLuck | tools/crabgen/src/backend_rust.rs:1627-1643 | one edit of an array that is not safe can come out right, because of an escaped quote |
| WorkspaceToml.OtherTableIsEdited | tools/crabgen/src/backend_rust.rs:1604-1622 | the array of a table before `[workspace]` is edited instead, although its strings are plain |
| Manifest.ParseInvertsRender | tools/crabgen/src/manifest.rs:39-59 | parsing a rendered manifest gives it back if and only if no field is empty, holds a newline or ends in a carriage return |
| Stamp.FreshIsHonest | tools/crabgen/src/project.rs:105-204 | at every moment of every run of edits, `regen` and `new` failing anywhere, a project `check` calls fresh is completely generated from its current interface file if and only if the run that stamped it had loaded what it hashed |
| Stamp.UndisturbedIsHonest | tools/crabgen/src/project.rs:105-204 | if nobody edits between loading and hashing, every fresh project is completely generated from its current interface file |
| Stamp.RunKeepsInv | tools/crabgen/src/project.rs:184-204 | at every moment of every run a stamp on disk stands over complete output |
| Stamp.EditedWhileLoaded | tools/crabgen/src/project.rs:151-156 | there is a run from nothing to a fresh project that is honest only if the interface was not changed between loading and hashing |
| Stamp.FailedRegenIsLost | tools/crabgen/src/project.rs:91-105 | at every failure of a `regen` in every run: the project is without a stamp, for good, if and only if the directory was cleared and not stamped yet, and otherwise the `regen` can be repeated if there is an interface file |
| Stamp.RegenCanBeLost | tools/crabgen/src/project.rs:184-204 | there is a run in which the `regen` of a fresh project is lost in this way |
| Stamp.Project.RewriteGen | tools/crabgen/src/project.rs:189-204 | whichever statement fails, either nothing changed or no stamp is left; success is honest exactly when what was hashed is what was loaded; and the directory is what the steps of a run leave |
| Abi.LenbufRoundTrip | guest/crab-sdk/src/abi.rs:55-63 | a reply is read back from its length prefix whatever follows it in memory |
| Abi.ParamsAgree | guest/crab-sdk/src/abi.rs:122-126 | all lanes accept the same argument buffers and read the same values |
| Abi.LookupsMiss | guest/crab-sdk/src/abi.rs:42-44 | both kinds of lookup miss exactly the names nobody registered |
| Abi.LookupsFind | guest/crab-sdk/src/abi.rs:42-44 | the Rust lookup finds the first registration of a name, a handler map the last |
| Signatures.ReplyTypeIsDeclared | tools/crabgen/src/backend_rust.rs:603-618 | in every result class the reply carries exactly the declared result type, through aliases |
| Signatures.ClassIs | tools/crabgen/src/backend_as.rs:663-679 | under its aliases a type that is no result is returned plainly, a result without an err side or with a string there becomes the language's own error over its ok side, and any other result is returned whole |
| Signatures.ClassOnTheWire | tools/crabgen/src/backend_as.rs:663-679 | the wire type alone decides the class, so all backends decide alike |
| Signatures.ReturnedIs | tools/crabgen/src/backend_as.rs:681-687 | a wrapper class holds nothing, the ok side of a result that becomes an error, or the declared result type |
| Guest.Registry.CrabInvoke | guest/crab-sdk/src/abi.rs:99-136 | the reply buffer holds the framed reply of the specification for every name and argument buffer |
| Guest.Registry.Lookup | guest/crab-sdk/src/abi.rs:42-44 | the first registration of a name |
| Guest.HandlerMap.Register | tools/crabgen/templates/cpp/crab.cpp:348-351 | the handler map finds the last registration of every name |
| Guest.HandlerMap.RunHandler | tools/crabgen/src/backend_cpp.rs:1392-1456 | decoding the parameters, the trailing check, running the implementation and encoding compose to the specified handler, of which `Dispatch` says what it answers to arguments good and bad |
| Guest.HandlerMap.CrabInvoke | tools/crabgen/templates/ts/assembly/gen/runtime.ts:685-712 | the reply is the framed reply of the specification, unencodable texts replaced in the AssemblyScript lane |
| Dispatch.StatusZero | guest/crab-sdk/src/abi.rs:99-136 | in every lane, for every name and argument buffer, the reply has status 0 exactly if the implementation of that name ran on the values the bytes denote and returned something with a wire form, whose encoding is then all it holds; every other reply has status 1 |
| Dispatch.BadArguments | tools/crabgen/src/backend_as.rs:1616-1634 | arguments that denote no parameters are answered by the status-1 frame of a text with the name of the function and the first fault: the parameter that cannot be read after those that can, or the number of bytes left |
| Dispatch.BadArgumentsRefused | tools/crabgen/src/backend_go.rs:1385-1400 | every caller refuses that answer with the same text |
| Dispatch.ArgsExact | tools/crabgen/src/backend_go.rs:1385-1400 | arguments are read exactly as the parameters they denote |
| Dispatch.BadName | tools/crabgen/templates/ts/assembly/gen/runtime.ts:692-706 | a name that is no UTF-8 is refused by the Rust and AssemblyScript runtimes with a text of its own, whatever is registered |
| Dispatch.ParseExact | tools/crabgen/templates/go/mesh.go:64-90 | whatever the payload, it passes exactly with status 0, gives a text exactly if one text and nothing else follows status 1, and is refused as malformed otherwise |
| Dispatch.ReadExact | tools/crabgen/src/backend_cpp.rs:1510-1556 | whatever the body of a reply, the wrappers of all lanes return what it denotes at the reply type, and fail with a text if it denotes nothing there, trailing bytes included |
| Mesh.TextComesBack | tools/crabgen/templates/go/mesh.go:68-90 | an error text survives framing and parsing exactly if it is UTF-8 |
| Mesh.Replies | guest/crab-sdk/src/abi.rs:99-136 | the callee decodes exactly the arguments sent, runs the implementation and frames its outcome |
| Mesh.ReadsBack | tools/crabgen/src/backend_cpp.rs:1510-1556 | every typed wrapper, whole-value or stepwise, reads back the outcome its callee encoded, and fails with the decoder's error where a text in it is none |
| Mesh.CallTransparent | tools/crabgen/src/backend_as.rs:1694-1790 | for any two lanes, any result class, any failure text and any strings and chars inside a value, the caller gets what the implementation returned if and only if the outcome can be represented on the way |
| Mesh.BadTextIsRefused | tools/crabgen/src/backend_as.rs:1655-1665 | otherwise the caller fails, with its own decoder's error or with the refusal of an AssemblyScript sink |
| Mesh.EmptyTextReadsAsSuccess | tools/crabgen/templates/cpp/crab.hpp:66-76 | a Rust failure with an empty text is a failure to a Rust caller and a success to a C++ caller |
| Mesh.BadMessageIsRefused | tools/crabgen/src/backend_go.rs:1412-1432 | the message 0xFF of a Go or C++ implementation is sent, and every caller reports a decoding error |
| Mesh.UnknownFunction | guest/crab-sdk/src/abi.rs:118-120 | a call of an unregistered address fails with the same text between any two lanes |
| NativeCall.NativeCallTransparent | tools/crabgen/src/backend_as.rs:1616-1790 | in the AssemblyScript and Rust lanes the implementation runs on objects that stand for the caller's arguments, the callee's own code writes its result, and the caller gets an object that stands for it, or the promised text, if and only if it can be represented on the way |
| NativeCall.CalleeAnswers | tools/crabgen/src/backend_as.rs:1645-1675 | the callee's emitted statements append the encoding of the object returned, or leave an error exactly if it has none; the Rust conversion fails exactly on stray flag bits |
| NativeCall.BadObjectIsRefused | tools/crabgen/src/backend_as.rs:1647-1653 | for an object without a wire value the caller gets the framed error of the callee's encoder exactly if that is UTF-8, and for one with a char that is none it fails |
| NativeCall.CallerSends | tools/crabgen/src/backend_as.rs:1716-1722 | the caller's emitted statements or conversions send the encodings of the values its objects stand for |
| NativeCall.CalleeReceives | tools/crabgen/src/backend_as.rs:1623-1634 | the callee's emitted statements or conversions leave exactly the objects made of those values |
| Pins.Runtime.CrabAlloc | tools/crabgen/templates/ts/assembly/gen/runtime.ts:674-679 | a new buffer is pinned at a free address and no other pin changes |
| Pins.Runtime.HostCall | tools/crabgen/templates/go/runtime.go:512-534 | a balanced call, with any nesting of mesh calls and re-entry, leaves the pin table as it was |
| Pins.Runtime.CrabInvoke | tools/crabgen/templates/cpp/crab.cpp:425-449 | exactly the name and argument buffers are released, and no buffer is read after its release, whether they are released before or after the handler |
| Pins.Runtime.CallOut | tools/crabgen/templates/ts/assembly/gen/mesh.ts:33-59 | the reply is copied out of its buffer while it is pinned, and the buffer is released |
| Pins.PinnedAreOutstanding | tools/crabgen/templates/ts/assembly/gen/runtime.ts:624-712 | at every moment of every run of allocations, writes, invocations and mesh replies in any order, the table holds exactly the buffers handed out and not given back since |
| Pins.ArgumentsStay | tools/crabgen/templates/go/runtime.go:512-534 | at every moment of every run the buffers of every invocation in progress are pinned and hold what the host wrote |
| Pins.BalancedRun | tools/crabgen/templates/cpp/crab.cpp:425-449 | between two moments with the same buffers outstanding the pinned addresses are the same |
| SqliteLane.UlebGet32 | guest/sqlite-c/main.c:87-98 | the C loop accepts exactly what the 32-bit unsigned decoder accepts |
| SqliteLane.SqlParam | guest/sqlite-c/main.c:280-288 | the parameter check accepts a buffer exactly when it is one complete string, although its sum can wrap |
| SqliteLane.OthersAlsoCheckUtf8 | guest/sqlite-c/main.c:280-288 | the other lanes accept the same buffers, less those whose text is not UTF-8 |
| SqliteLane.PrintDocument | guest/sqlite-c/main.c:202-256 | the column and row loops print the document text |
| SqliteLane.EmptyDocument | guest/sqlite-c/main.c:197-200 | the document of no columns and no rows is the one the guest writes out for a statement that is none |
| SqliteLane.HexReads | guest/sqlite-c/main.c:226-236 | every byte of a blob is two lowercase digits, the high one first |
| SqliteLane.DocumentReads | guest/sqlite-c/main.c:202-256 | the printed document parses as JSON (RFC 8259) if and only if every column name and text cell is UTF-8, and then back to the table: integers, nulls, text byte for byte, blobs as lowercase hex |
| SqliteLane.ReplyResult | guest/sqlite-c/main.c:125-135 | the reply is the ABI success frame around the encoded result |
| SqliteLane.TableArrives | guest/sqlite-c/main.c:238-256 | the reply with the document decodes in every lane if and only if every column name and text cell is UTF-8 |
| SqliteLane.CastBlobIsNoText | guest/sqlite-c/main.c:238-241 | for a text cell of the one byte 0xFF the document is no JSON text and every lane refuses the reply |
| Json.StringReads | guest/sqlite-c/main.c:139-155 | a byte string printed as a JSON string is a JSON text if and only if it is UTF-8, and is then read back byte for byte |
| Json.IntReads | guest/sqlite-c/main.c:218-220 | every integer printed in decimal is read back |

## Left out

- The Lua host: gateway, scheduler, worker and client are not part of this model; the host
  is whatever carries buffers unchanged.
- Files, processes and permissions beyond the directory model of `Stamp`; removing a
  directory is taken as atomic and hashing as injective.
- Emission of declarations, comments, READMEs and build scripts, casing rules and reserved
  names other than those of temporaries and parameters.
- The Go and C++ emitters of encode and decode statements; their runtimes are covered where
  they share a specification with the modelled ones (UTF-8 validation, dispatch, framing,
  reply parsing, wrappers, pins).
- Statements of emitted handlers and wrappers other than those for parameters and results;
  `Abi` and `Mesh` model what they do on values.
- Identity and aliasing of AssemblyScript objects: objects are trees, so sharing one object
  between two fields is not distinguished.
- The call depth of the interpreters of emitted code is a number at least as large as the
  rank of the type; accepted modules cannot exceed it.
- The text an emitted guard puts into the sink error; the sink error is a flag.
- The cursor of a decoder after its first error, which nothing reads.
- Meaning of floats, which travel as bytes, and the SQLite guest's `%.17g` output for them.
- The suffix the Rust library adds to UTF-8 errors.
- SQLite itself: rows are an arbitrary finite sequence; its error messages and the check for
  a second statement are not modelled.
- JSON numbers with fraction or exponent and escaped surrogate pairs, which the guest never
  prints, are refused by the JSON reader.
- AsDecodeCorrect.EmitFills: the target must hold the default of its type, which is what the
  emitted code declares.
- Workspace.EditInserts: entries are compared as the editor reads them; `WorkspaceToml` says
  when that is what TOML reads.
- WorkspaceToml.SafeToEdit: which line holds the key is the editor's choice, the first that
  begins with `members =`, whatever table (`OtherTableIsEdited`) or multi-line string it stands
  in; multi-line
  strings inside the array are not read, and strings are compared as they are written.
- Guest.HandlerMap.RunHandler: runs the reference codec on wire values; the emitted statements
  of the AssemblyScript lane are tied to it by `NativeCall`, those of Go and C++ are not.
- SqliteLane.PrintDocument: rows hold no floats, whose `%.17g` text is not modelled.
- AsMachine.Write: the text put into the sink error is not kept, only that there is one.
- NativeCall.BadObjectIsRefused: the text of the encoder's error is a parameter.
- Pins.Runtime.HostCall: the addresses are chosen by an arbitrary allocator that avoids live
  buffers; the Rust lane keeps no pins.
