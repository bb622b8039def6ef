# OpenCRun in Dafny

OpenCRun is an OpenCL runtime for CPUs built on LLVM. This project models
its core in Dafny and proves properties of that model. The parts modelled
are:

- **The generic-library generator.** `create_gen_lib.py` reads OpenCL C
  prototypes written with the placeholder type `gentype`. It expands each
  one to the scalar and vector types, with their declarations and bodies,
  and reports parse errors with a `@` marker at the failure point. The
  modules are `GenTypes`, `GenParser`, `GenErrors`, `GenTemplate`,
  `GenFunction`, `GenEmit`, `GenDriver` and `GenRoundTrip`.
- **The OCLGen emitter.** It builds the OpenCL C type table and the
  builtin declarations and implementations. The modules are `OclBuiltin`
  and `OclEmitter`.
- **The runtime's command builders and validators.** These check buffer
  reads, writes, copies, maps, native kernels and N-dimensional ranges.
  Each check either yields a command or an OpenCL error code, and a
  diagnostic goes to the context. The modules are `Command`, `NDRange`,
  `NativeKernel`, `DimensionInfo`, `Kernel` and `Program`. Diagnostics are
  an enumeration: `Diagnostics` lists them and `Text` gives their wording.
- **Contexts, queues and events.** This covers buffer creation, the
  in-order queue's enqueue and scheduler, the event status order and the
  profiler's sample trace. The modules are `Context`, `MemoryObj`,
  `CommandQueue`, `Event`, `Profiler`, `SysTime` and `Table`.
- **The API entry points.** The modules are `InfoQuery`, `ApiContext`
  and `ApiDevice`:
  - `clGet*Info` size-query-then-fill;
  - `clCreateContext` and `clCreateContextFromType` property parsing;
  - `clGetDeviceIDs`.
- **Parsing the hardware description.** This covers lists, numbers, sizes
  and `key: value` files, plus the component hierarchy and the last-level
  caches. The modules are `SimpleParser` and `HardwareGraph`.
- **The LLVM passes, over a small IR.** These are the kernel metadata
  handler, the builtin lookup, the footprint estimator, the aggressive
  inliner and the CPU global-memory allocator. The modules are `IR`,
  `Metadata`, `Footprint`, `Inliner` and `GlobalMemory`.
- **The benchmarks' host matrices.** The module is `ManagedMatrix`.

Errors are values. `Results` defines `Result` and `Option`. `ClCodes`
holds the OpenCL 1.1 status codes and flags with their standard values.
Integers are unbounded. Where a 64-bit wrap-around changes an outcome it
is written out in an as-written member beside the corrected one: the
`size_t` bound checks of copy areas and of global work offsets, and the
signed arithmetic of `Time`.

## Model

| member | source | states |
|---|---|---|
| GenTypes.Vectors | utils/oclgen/create_gen_lib.py:364-365 | one vector type name per default width (2, 3, 4, 8, 16); `GenRoundTrip.VectorsParse` shows each names the vector type of that width |
| GenParser.ParseTypeId | utils/oclgen/create_gen_lib.py:147-166 | after optional blanks the stream must start with `gentype` or `float`, otherwise the `type_id` exception with everything left; on success the type (optional width 2/3/4/8/16) followed by the rest is exactly the unblanked input |
| GenParser.ParseIdentifier | utils/oclgen/create_gen_lib.py:168-177 | fails with `identifier` exactly when no letter or `_` follows the blanks; otherwise takes the longest word, which is an identifier, and the rest starts with a non-word character |
| GenParser.ParseSymbol | utils/oclgen/create_gen_lib.py:179-199 | `(` and `)` after optional blanks: fails with the token's name and the length left exactly when the next non-blank character is not the symbol |
| GenParser.ParseArg | utils/oclgen/create_gen_lib.py:141-145 | a type then an identifier; what it returns is a valid argument and it consumes input |
| GenParser.ParseArgList | utils/oclgen/create_gen_lib.py:124-139 | one or more comma-separated arguments; every argument returned is valid and the list is never empty |
| GenParser.ParsePrototypeRest | utils/oclgen/create_gen_lib.py:115-122 | return type, name, `(`, arguments, `)`; the prototype returned is well formed |
| GenParser.ParsePrototype | utils/oclgen/create_gen_lib.py:201-215 | a whole stream as one prototype with nothing but blanks after it; an exception carries the whole stream and how much of it was left |
| GenParser.ParseTypeIdStream | utils/oclgen/create_gen_lib.py:201-207 | a whole stream as one type: what is returned, surrounded only by blanks, is the stream |
| GenParser.TrailingSpaces | utils/oclgen/create_gen_lib.py:201-207 | a stream whose text after the leading blanks is the shown item followed by blanks is that item surrounded by blanks, which is what `parse_end` accepts |
| GenRoundTrip.ParseTypeIdOf | utils/oclgen/create_gen_lib.py:147-166 | parsing a printed type after any blanks gives the type back and leaves the rest untouched |
| GenRoundTrip.ParseIdentifierOf | utils/oclgen/create_gen_lib.py:168-177 | parsing a printed identifier after any blanks gives it back and leaves the rest untouched |
| GenRoundTrip.ParseArgOf | utils/oclgen/create_gen_lib.py:141-145 | parsing a printed argument gives it back |
| GenRoundTrip.ParseArgListOf | utils/oclgen/create_gen_lib.py:124-139 | parsing arguments printed with `, ` separators up to `)` gives the same list back |
| GenRoundTrip.PrototypeRoundTrip | utils/oclgen/create_gen_lib.py:209-215 | a well-formed prototype printed by `__str__` parses back to itself |
| GenRoundTrip.ParsedPrototypeIsCanonical | utils/oclgen/create_gen_lib.py:209-215 | printing a parsed prototype and parsing the text again gives the same prototype |
| GenRoundTrip.VectorsParse | utils/oclgen/create_gen_lib.py:217-223 | each name `vectors` produces for `gentype` or `float` parses as that base type with the matching width |
| GenRoundTrip.PrototypeSteps | utils/oclgen/create_gen_lib.py:115-122 | when the five steps succeed in turn and leave nothing, the prototype is the one the steps found |
| GenErrors.ParseMessageMarksFailurePoint | utils/oclgen/create_gen_lib.py:25-35 | (corrected) the message is the header and the whole stream with one `@` inserted exactly `to_end` characters before the end |
| GenErrors.ParseMessageAgreesWhenSomethingLeft | utils/oclgen/create_gen_lib.py:31-35 | when some input was left the message as written is the corrected one |
| GenErrors.ParseMessageAsWrittenAtEnd | utils/oclgen/create_gen_lib.py:31-35 | when nothing was left, the message as written puts `@` before the whole stream, where the corrected one puts it after |
| GenErrors.ParseMessageAsWrittenMisplacesMarker | utils/oclgen/create_gen_lib.py:31-35 | the concrete prototype `gentype f(` whose messages differ |
| GenErrors.Message | utils/oclgen/create_gen_lib.py:18-35 | the text printed for a caught error: a parse error prints as its header and the whole stream with one `@` inserted (the as-written `__str__`), equal to the corrected message whenever the parse stopped inside the stream; an unknown property prints `Unknown property: ` and its name |
| GenErrors.UnclosedArgumentListStopsAtEnd | utils/oclgen/create_gen_lib.py:124-152 | `gentype f(` fails in `type_id` with nothing left |
| GenErrors.PrototypeStopsInArgs | utils/oclgen/create_gen_lib.py:115-122 | a failure inside the argument list is the prototype's failure, reported against the whole stream |
| GenTemplate.NoPlaceholderUnchanged | utils/oclgen/create_gen_lib.py:296-300 | a body without `$` substitutes to itself |
| GenTemplate.SubstituteComposed | utils/oclgen/create_gen_lib.py:296-300 | a body built from text, `$cty`, `${cty}` and `$$` pieces substitutes to the pieces expanded with the `cty` value (`f` for float, empty otherwise) |
| GenTemplate.TextThenTemplate | utils/oclgen/create_gen_lib.py:296-300 | text without `$` passes through in front of the rest's substitution |
| GenTemplate.UnknownPlaceholderRaises | utils/oclgen/create_gen_lib.py:296-300 | a placeholder naming anything but `cty` raises `KeyError` with that name |
| GenTemplate.UnknownAfterText | utils/oclgen/create_gen_lib.py:296-300 | a failure after plain text is the failure of the rest |
| GenTemplate.AcosBodyForFloat | utils/oclgen/Math.py:4-5 | worked instance of `SubstituteComposed`, not a separate property: the `acos` body of the math catalogue becomes `return __builtin_acosf(x);` for float |
| GenTemplate.AcosComposes | utils/oclgen/Math.py:4-5 | worked instance: the `acos` body is the composition of well-formed pieces, so `SubstituteComposed` applies to it |
| GenFunction.NewDescriptor | utils/oclgen/create_gen_lib.py:229-233 | a definition starts from the parsed prototype, pure and inline, no body and no types; a prototype that does not parse raises its parse exception |
| GenFunction.ParseTypes | utils/oclgen/create_gen_lib.py:242-243 | each listed string parsed as a whole type, position by position; a failure is the failure of one of the strings, and `ParseTypesFirstFailure` shows it is the first string that fails |
| GenFunction.ParseTypesFirstFailure | utils/oclgen/create_gen_lib.py:242-243 | the first string that fails gives the error: it does not parse, with exactly that exception, and every string before it parses |
| GenFunction.ParseTypesAllOrNothing | utils/oclgen/create_gen_lib.py:242-243 | the list is accepted exactly when every string parses |
| GenFunction.SetAttr | utils/oclgen/create_gen_lib.py:235-249 | an assignment to anything but `proto`, `body`, `types`, `pure`, `inline` raises `Unknown property` with the name; an allowed one changes only its own field; `types` is set exactly when every string parses and a non-sequence value escapes; `pure`/`inline` take the value's truth |
| GenFunction.SetTypes | utils/oclgen/create_gen_lib.py:242-243 | the types are set, and only they, exactly when every string parses; otherwise the parse exception is caught |
| GenFunction.TypesFromStringFail | utils/oclgen/create_gen_lib.py:242-243 | a plain string given as `types` is iterated character by character, so its first character fails with `type_id` |
| GenFunction.FloatAndVectorsAccepted | utils/oclgen/Math.py:5-6 | worked instance of `SetTypes`: `["float"] + vectors("float")` sets the six float types, scalar first |
| GenEmit.Instantiate | utils/oclgen/create_gen_lib.py:343-348 | a `gentype` slot takes the instance type, any other type stays |
| GenEmit.InstantiatePrototype | utils/oclgen/create_gen_lib.py:277-294 | the instance keeps the name, the number of arguments and their identifiers |
| GenEmit.InstantiateWellFormed | utils/oclgen/create_gen_lib.py:277-294 | instantiating a well-formed prototype with a valid type gives a well-formed prototype |
| GenEmit.AttributesLines | utils/oclgen/create_gen_lib.py:336-341 | `overloadable` always, then the `pure` line exactly when pure and the `always_inline` line exactly when inline |
| GenEmit.SignatureIsInstantiatedPrototype | utils/oclgen/create_gen_lib.py:277-294 | the header's signature is the instantiated prototype printed |
| GenEmit.SignatureReparses | utils/oclgen/create_gen_lib.py:277-294 | the signature of every instance parses back to the instantiated prototype |
| GenEmit.EmitDecls | utils/oclgen/create_gen_lib.py:251-258 | no types set escapes with `AttributeError`, an empty list writes nothing, otherwise the comment and one header plus `;` per type in order |
| GenEmit.DeclLines | utils/oclgen/create_gen_lib.py:256-258 | line `i` is the declaration for type `i` |
| GenEmit.LanesLines | utils/oclgen/create_gen_lib.py:312-332 | the lane loop's text is the concatenation of one call line per lane |
| GenEmit.VectBodyShape | utils/oclgen/create_gen_lib.py:302-334 | a vector body is the `Res` declaration, one line per lane, then `return Res;` |
| GenEmit.FixedReturnOverwrites | utils/oclgen/create_gen_lib.py:313-316 | with a non-generic return type every lane assigns the whole `Res` |
| GenEmit.ImplBody | utils/oclgen/create_gen_lib.py:270-300 | a vector type gets the lane body; a scalar type gets the substituted body, or the missing-body / type / key errors |
| GenEmit.ImplEntries | utils/oclgen/create_gen_lib.py:265-275 | one entry per type: done with header, body and `}` exactly when the body succeeds |
| GenEmit.EmitImpls | utils/oclgen/create_gen_lib.py:260-275 | no types escapes, an empty list writes nothing, otherwise the comment and one implementation per type when nothing escapes |
| GenEmit.ImplsFromEntries | utils/oclgen/create_gen_lib.py:265-275 | when nothing escapes each type's text is header, body, `}` |
| GenEmit.ImplsFrom | utils/oclgen/create_gen_lib.py:265-275 | at most one implementation per remaining type, and exactly one per remaining type when nothing escapes |
| GenEmit.ImplsFromFailsIff | utils/oclgen/create_gen_lib.py:265-275 | the implementations escape exactly when some type's body fails |
| GenEmit.ImplsFromStopsAt | utils/oclgen/create_gen_lib.py:265-275 | the escape is the first failing type's error, every earlier type succeeded, and the output stops there |
| GenDriver.RunBody | utils/oclgen/create_gen_lib.py:350-354 | the `with` body's assignments in order; an empty body leaves the definition as created |
| GenDriver.Emit | utils/oclgen/create_gen_lib.py:356-360 | with no output file nothing is written; an escape in the declarations is propagated after writing what was written |
| GenDriver.RunDefinition | utils/oclgen/create_gen_lib.py:350-362 | a prototype that does not parse prints its message, and because the generator then never yields, `RuntimeError` escapes; a definition prints at most one line |
| GenDriver.RunAppends | utils/oclgen/create_gen_lib.py:350-362 | a run only appends to the output files |
| GenDriver.CaughtWritesNothing | utils/oclgen/create_gen_lib.py:352-362 | a DSL exception in the body prints its message and writes nothing |
| GenDriver.UnknownPropertyReported | utils/oclgen/create_gen_lib.py:248-249 | assigning an unknown attribute prints `Unknown property: <name>` |
| GenDriver.CaughtThenContinues | utils/oclgen/create_gen_lib.py:350-362 | after a caught exception the run goes on with the next definition |
| GenDriver.RunConcat | utils/oclgen/create_gen_lib.py:350-362 | running two lists of definitions is running the first then continuing with the second |
| GenDriver.EscapeEndsRun | utils/oclgen/create_gen_lib.py:350-362 | an exception that is not a DSL exception ends the run: nothing after it happens |
| GenDriver.NoSinksNoEmissionError | utils/oclgen/create_gen_lib.py:356-360 | without output files a definition produces nothing, even without types |
| GenDriver.DeclarationsPerDefinition | utils/oclgen/create_gen_lib.py:251-258 | a definition appends one comment and one declaration per type to the declarations file, none for no types |
| GenDriver.UnsetTypesEscape | utils/oclgen/create_gen_lib.py:251-253 | a definition that never sets `types` escapes with `AttributeError` on emission |
| GenTemplate.Substitute | utils/oclgen/create_gen_lib.py:299 | substituting a body fails only as `string.Template` does, with a `KeyError` for an unknown placeholder or a `ValueError` for a malformed one |
| GenEmit.DeclsOf | utils/oclgen/create_gen_lib.py:251-258 | the declarations of a definition are its comment followed by one declaration line per type, in the order of the types |
| OclBuiltin.ScalarName | utils/OCLGen/OCLLibBuiltin.cpp:108-120 | a scalar record's name must start with `ocl_` and have something after it; the type's name is the record name without the prefix, and the missing prefix throws its message |
| OclBuiltin.Lookup | utils/OCLGen/OCLLibBuiltin.cpp:25-30 | a record has a type in the table exactly when the table holds an entry for it |
| OclBuiltin.GetType | utils/OCLGen/OCLLibBuiltin.cpp:25-74 | a record already in the table gives its cached type and leaves the table alone; otherwise the built type is added and the table only grows |
| OclBuiltin.GetTypeCached | utils/OCLGen/OCLLibBuiltin.cpp:25-30 | asking again for a record just built returns the same type and changes nothing |
| OclBuiltin.FirstBuiltIsLast | utils/OCLGen/OCLLibBuiltin.cpp:25-30 | after building a new record the table maps it to the type returned |
| OclBuiltin.TableKeysUnique | utils/OCLGen/OCLLibBuiltin.cpp:25-30 | a record the table holds is never rebuilt |
| OclBuiltin.FindByName | utils/OCLGen/OCLLibBuiltin.cpp:32-42 | the lookup by name succeeds exactly when some type in the table has that name, returns such a type, and otherwise throws `Type not found: <name>` |
| OclBuiltin.BuiltinName | utils/OCLGen/OCLLibBuiltin.cpp:142-147 | a builtin's record name must start with `blt_`; the builtin's name is the rest |
| OclBuiltin.GetTypes | utils/OCLGen/OCLLibBuiltin.cpp:153-156 | one type per parameter record, each recorded in the table |
| OclBuiltin.Bound | utils/OCLGen/OCLLibBuiltin.cpp:160-177 | the positions of the non-empty mapping lists, increasing, and every non-empty list is among them |
| OclBuiltin.GetSubs | utils/OCLGen/OCLLibBuiltin.cpp:158-178 | a non-list element throws; otherwise each non-empty mapping list `I`, in order, binds the type named `gentype<I+1>` to its specializations, one per record, and an empty list binds nothing |
| OclBuiltin.SubsSkip | utils/OCLGen/OCLLibBuiltin.cpp:174-177 | an empty mapping list adds no binding |
| OclBuiltin.SubsCons | utils/OCLGen/OCLLibBuiltin.cpp:168-177 | a non-empty mapping list's binding goes in front of the later lists' bindings |
| OclBuiltin.BindingsDistinct | utils/OCLGen/OCLLibBuiltin.cpp:168-176 | two bindings of a builtin never share a type, since their names differ |
| OclBuiltin.EmptyListUnbound | utils/OCLGen/OCLLibBuiltin.cpp:174-177 | no binding carries the name of the generic type of an empty mapping list |
| OclBuiltin.NewBuiltin | utils/OCLGen/OCLLibBuiltin.cpp:142-187 | the builtin keeps the name after `blt_`, one type per parameter, the bindings of its non-empty mapping lists in order, the attributes and the base implementation; a name without `blt_` throws |
| OclBuiltin.LoadBuiltins | utils/OCLGen/OCLLibBuiltin.cpp:208-216 | one builtin per record, in order, each named after its record |
| OclBuiltin.SpecializationsCount | utils/OCLGen/OCLLibBuiltin.h:122-131 | zero without bindings, otherwise the number of specializations of the first binding, which comes from a non-empty list |
| OclBuiltin.Specialize | utils/OCLGen/OCLLibBuiltin.cpp:189-202 | a concrete type is itself; a generic type without substitutions throws `Type is not specialized`; otherwise the `SpecID`-th specialization, or `Not enough specializations` past the end |
| OclBuiltin.SpecializeGeneric | utils/OCLGen/OCLLibBuiltin.cpp:189-202 | in a builtin as constructed, a bound generic type specializes to entry `SpecID` of its own list, or `Not enough specializations` past its end |
| OclBuiltin.EmptyListNotSpecialized | utils/OCLGen/OCLLibBuiltin.cpp:174-192 | in a builtin as constructed, the generic type of an empty mapping list throws `Type is not specialized: gentype<m+1>` |
| OclBuiltin.UnboundNotSpecialized | utils/OCLGen/OCLLibBuiltin.cpp:189-192 | a generic type that no binding of the builtin names throws `Type is not specialized` with its name, whatever the specialisation index |
| OclBuiltin.LookupFirst | utils/OCLGen/OCLLibBuiltin.cpp:191-194 | an entry whose key no earlier entry has is the one a lookup of that key finds |
| OclBuiltin.ParameterType | utils/OCLGen/OCLLibBuiltin.h:148-153 | parameter `I` when it exists, otherwise the out-of-range message with the index |
| OclBuiltin.SpecializedParameterType | utils/OCLGen/OCLLibBuiltin.h:155-157 | the range check first, then the specialization of that parameter |
| OclBuiltin.Attribute | utils/OCLGen/OCLLibBuiltin.h:159-164 | attribute `I` when it exists, otherwise the out-of-range message with the index |
| OclEmitter.ParamDecls | utils/OCLGen/OCLLibEmitter.cpp:29-34 | entry `k` is the specialized type of parameter `k` and `x<k>`; it fails exactly when some parameter does not specialize |
| OclEmitter.Header | utils/OCLGen/OCLLibEmitter.cpp:12-36 | the attributes joined by `,` in `__attribute__((...))`, the specialized return type, the name and the parameters joined by `, `; it fails exactly when a type does not specialize |
| OclEmitter.Implementation | utils/OCLGen/OCLLibEmitter.cpp:56-125 | specialization 0 is the header with the base implementation; any other exists exactly when the return type is a vector, and is the per-lane body |
| OclEmitter.LaneCallShape | utils/OCLGen/OCLLibEmitter.cpp:80-100 | lane `I` calls the builtin into `RawRetValue[I]`; parameter `J` is passed as `xJ[I]` exactly when it is generic |
| OclEmitter.GatheredDistinct | utils/OCLGen/OCLLibEmitter.cpp:109-116 | distinct positions of the vector initializer name distinct array elements, so every element `RawRetValue[0]` to `RawRetValue[width-1]` is gathered exactly once |
| OclEmitter.LaneCallsDistinct | utils/OCLGen/OCLLibEmitter.cpp:80-100 | the calls of distinct lanes write distinct array elements, so each element is written by exactly one call |
| OclEmitter.ElementNamesLane | utils/OCLGen/OCLLibEmitter.cpp:83 | an array element as printed, `RawRetValue[I]` followed by anything, determines the lane `I` |
| OclEmitter.DigitsThenBracket | utils/OCLGen/OCLLibEmitter.cpp:83 | a printed index followed by `]` is read back unambiguously, whatever follows |
| OclEmitter.Specs | utils/OCLGen/OCLLibEmitter.cpp:49-53 | one implementation per specialization, in order |
| OclEmitter.SpecsFail | utils/OCLGen/OCLLibEmitter.cpp:49-53 | the specializations of one builtin are emitted exactly when each of them is |
| OclEmitter.SpecsJoined | utils/OCLGen/OCLLibEmitter.cpp:49-53 | the loop's output for one builtin is its implementations joined by a newline; since each ends with one, consecutive specializations are separated by a blank line |
| OclEmitter.ConcatIsJoinFrom | utils/OCLGen/OCLLibEmitter.cpp:50-52 | writing a newline before every item but the first is the same as joining the items by a newline |
| OclEmitter.AllSpecs | utils/OCLGen/OCLLibEmitter.cpp:49-53 | a builtin emits as many specializations as its binding lists have entries |
| OclEmitter.EmitAll | utils/OCLGen/OCLLibEmitter.cpp:47-53 | emission succeeds exactly when every builtin's specializations do |
| OclEmitter.EmitAllSucceeds | utils/OCLGen/OCLLibEmitter.cpp:47-53 | emission succeeds exactly when every specialization of every builtin does |
| OclEmitter.EmitAllPlaces | utils/OCLGen/OCLLibEmitter.cpp:47-53 | the output is the builtins' specialization lists flattened in order, and specialization `k` of builtin `i` sits right after the specializations of every earlier builtin |
| OclEmitter.SpecLists | utils/OCLGen/OCLLibEmitter.cpp:47-53 | one specialization list per builtin, each as long as that builtin's specialization count |
| Text.FlattenPlaces | utils/OCLGen/OCLLibEmitter.cpp:47-53 | in a flattened sequence of lists, position `k` of list `i` comes after the lengths of all earlier lists |
| Text.FlattenAppend | utils/OCLGen/OCLLibEmitter.cpp:47-53 | flattening distributes over concatenation |
| OclEmitter.Run | utils/OCLGen/OCLLibEmitter.cpp:42-54 | a loading error is thrown before anything is written; otherwise the output exists exactly when emission succeeds, and it is the file banner followed by the emitted specializations in order; an emission error is passed on |
| DimensionInfo.NewDimensionInfo | include/opencrun/Util/DimensionInfo.h:58-70 | as many dimensions as the shortest of the three lists, dimension `i` holding entry `i` of each |
| DimensionInfo.TotalsAreProducts | include/opencrun/Util/DimensionInfo.h:77-101 | the global and local totals are the products of the sizes, reduced modulo 2^32 (`unsigned`), and 0 with no dimensions |
| DimensionInfo.WrappingProductIsProduct | include/opencrun/Util/DimensionInfo.h:83-87 | the loop's wrapping multiplication gives the true product reduced modulo 2^32 |
| DimensionInfo.WorkGroupsCount | include/opencrun/Util/DimensionInfo.h:73-75 | the integer quotient of the global total by a nonzero local total |
| DimensionInfo.NoDimensionsNoLocalSize | include/opencrun/Util/DimensionInfo.h:77-104 | with no dimensions the local size is unspecified and there are no global work items |
| DimensionInfo.AddWithCarry | lib/Util/DimensionInfo.cpp:73-91 | adding a carry to mixed-radix digits keeps the value: the new digits plus the carry left out times the full weight equal the old value plus the carry; no carry changes nothing and in-range digits stay in range |
| DimensionInfo.Advance | lib/Util/DimensionInfo.cpp:69-102 | advancing a position inside the iteration space by `N` moves it exactly `N` places in local-then-group order while it stays inside; past the end every local index is 0 and the group indices are the end marker |
| DimensionInfo.GlobalIdInjective | lib/Util/DimensionInfo.cpp:40-44 | with local ids below the local size, the global id `group * size + local` determines both the group and the local id |
| DimensionInfo.GlobalOffset | lib/Util/DimensionInfo.cpp:56-59 | always 0 |
| DimensionInfo.GroupIndex | lib/Util/DimensionInfo.cpp:10-19 | the intended work-group number, the group indices read as a mixed-radix number over the group counts, is below the total number of groups |
| DimensionInfo.GroupIndexInjective | lib/Util/DimensionInfo.cpp:10-19 | distinct groups inside the launch get distinct intended numbers |
| DimensionInfo.ValueInjective | lib/Util/DimensionInfo.cpp:10-19 | digits below their radices are determined by their mixed-radix value |
| DimensionInfo.WorkGroupNumberCollides | lib/Util/DimensionInfo.cpp:10-19 | as written, groups (1, 0) and (0, 1) of a 2 x 2 launch with local sizes 1 x 1 are both numbered 1, while the intended numbers are 1 and 2 |
| DimensionInfo.WorkGroupNumberOneDimension | lib/Util/DimensionInfo.cpp:10-19 | in one dimension the number as written equals the intended one, the group index itself |
| Command.AllCompleted | lib/Core/Command.cpp:25-33 | a command can run exactly when every event it waits for has completed |
| Command.HasErrored | lib/Core/Command.cpp:157-166 | the wait list is inconsistent exactly when one of its events ended in error |
| Command.KeepsSticky | lib/Core/Command.cpp:168-173 | diagnostics are only ever appended and an error code, once set, is never reset to success across any chain of builder calls |
| Command.LastWinsTwo | lib/Core/Command.cpp:189-196 | of two checks in a constructor, the later failing one sets the code |
| Command.LastWinsSuccess | lib/Core/Command.cpp:168-173 | the code stays success exactly when no check failed |
| Command.AddEvents | lib/Core/Command.cpp:147-152 | the events are appended in order up to the first null one, which reports `invalid event` with `CL_INVALID_EVENT_WAIT_LIST` |
| Command.SetWaitList | lib/Core/Command.cpp:139-155 | a count without a list, a list with count 0, or a null event is rejected with `CL_INVALID_EVENT_WAIT_LIST` and a diagnostic exactly in those cases; otherwise the events are appended to the wait list in order |
| Command.SetWaitListPresent | lib/Core/Command.cpp:139-155 | a list of non-null events is accepted and appended as given |
| Command.NewCopyBuilder | lib/Core/Command.cpp:179-197 | a fresh read/write builder: empty wait list, not blocking, zero area; the buffer is kept exactly when the memory object is a buffer; the code is that of the last failing check among the memory object and the host pointer |
| Command.SetBlocking | lib/Core/Command.cpp:199-208 | blocking on a wait list holding an errored event reports `CL_EXEC_STATUS_ERROR_FOR_EVENTS_IN_WAIT_LIST` and keeps the old flag; otherwise the flag is set; nothing else changes |
| Command.SetCopyArea | lib/Core/Command.cpp:210-224 | without a buffer nothing happens; an area past the buffer's end is rejected with `CL_INVALID_VALUE`, exactly then; otherwise offset and size are recorded and stay inside the buffer (corrected: the sum does not wrap) |
| Command.SetCopyAreaAsWritten | lib/Core/Command.cpp:210-224 | the setter as written rejects with `CL_INVALID_VALUE` exactly when the `size_t` sum of offset and size, wrapped modulo 2^64, passes the buffer's end, and otherwise records the area as given |
| Command.CopyAreaWrapsAsWritten | lib/Core/Command.cpp:215 | offset 2^64-1 and size 2 on a 16-byte buffer pass the check as written and leave an area outside the buffer, which the corrected check refuses |
| Command.CopySetWaitList | lib/Core/Command.cpp:226-236 | the shared wait-list setter, then the inconsistency check when the builder is blocking |
| Command.CreateCopy | lib/Core/Command.cpp:238-246 | a command exactly when no error was reported, with the builder's code; the command is a read exactly when the builder was a read builder, and keeps the wait list, blocking flag, buffer and an area inside the buffer |
| Command.BlockingOrderIrrelevant | lib/Core/Command.cpp:199-236 | blocking then setting a wait list with an errored event, or the other way round, both refuse the command with `CL_EXEC_STATUS_ERROR_FOR_EVENTS_IN_WAIT_LIST` |
| Command.CopyCommandAccepted | lib/Core/Command.cpp:179-246 | through the usual call chain with the corrected bound check, a copy command is created exactly when the object is a buffer, the host pointer is given, the area fits, the wait list is well formed and no blocking call waits on an errored event |
| Command.CopyCommandAcceptedAsWritten | lib/Core/Command.cpp:179-246 | through the same chain with the bound check as written, no error is recorded exactly when the same conditions hold with the area's end wrapped modulo 2^64, and the area is then recorded as given |
| NDRange.NotifyAllReports | lib/Core/Command.cpp:339-366 | running the constructor's checks in order leaves the code of the last failing one, and diagnostics that only grew |
| NDRange.GlobalsRejectedIff | lib/Core/Command.cpp:358-369 | the global sizes are rejected exactly when one of the first `WorkDimensions` is 0 or above the device's `size_t` maximum |
| NDRange.New | lib/Core/Command.cpp:325-370 | the work dimensions are kept only when between 1 and the device maximum; the global sizes kept are those before the first bad one; the code is the last failing check's among built-for-device, context, arguments set, dimensions and global sizes |
| NDRange.SetGlobalWorkOffset | lib/Core/Command.cpp:372-392 | nothing happens without dimensions or global sizes; a null list gives zero offsets; otherwise offsets are appended until one shifts its dimension past the `size_t` maximum, which reports `CL_INVALID_GLOBAL_OFFSET` exactly then |
| NDRange.SetGlobalWorkOffsetAsWritten | lib/Core/Command.cpp:372-392 | the setter as written reports `CL_INVALID_GLOBAL_OFFSET` exactly when some readable offset plus its global size, wrapped modulo 2^64, exceeds the maximum, and every offset it keeps passes that wrapped check |
| NDRange.FirstBadOffsetAsWritten | lib/Core/Command.cpp:381-389 | the scan stops at the first offset whose wrapped sum with its global size exceeds the maximum; all before it pass |
| NDRange.OffsetAgreesWithoutWrap | lib/Core/Command.cpp:381-389 | while no sum reaches 2^64 the wrapped and the exact scans stop at the same offset |
| NDRange.SetGlobalWorkOffsetAgrees | lib/Core/Command.cpp:372-392 | without a sum reaching 2^64 the setter as written gives the corrected setter's builder |
| NDRange.OffsetWrapsAsWritten | lib/Core/Command.cpp:382 | for any one-dimensional builder, the offset `2^64 - g` wraps to an end of 0 and is kept as written, while the corrected setter refuses it |
| NDRange.LocalsFromAccepts | lib/Core/Command.cpp:406-428 | the loop and the final group-size check accept exactly when every dimension fits the device, divides its global size and matches a required size, and the product stays within the device's group size |
| NDRange.LocalsFromRecords | lib/Core/Command.cpp:406-424 | when accepted, one entry is recorded per dimension: the local size, or as written the dimension index |
| NDRange.SetLocalWorkSize | lib/Core/Command.cpp:394-431 | a null list is an error exactly for a kernel requiring a group size; otherwise the sizes are accepted exactly when every check passes, and (corrected) the accepted sizes themselves are recorded |
| NDRange.SetLocalWorkSizeAsWritten | lib/Core/Command.cpp:406-424 | as written the same sizes are accepted but the recorded entries are the indices `0, 1, ...` |
| NDRange.LocalSizeLostAsWritten | lib/Core/Command.cpp:422 | as written every accepted launch records local size 0 in dimension 0, so its local total is 0 and it counts as having no local size |
| NDRange.LocalSizeKept | lib/Core/Command.cpp:394-431 | with the correction each dimension's local size reaches the launch, which counts as having a local size |
| NDRange.LocalSizeExample | lib/Core/Command.cpp:394-449 | worked instance of `LocalSizeLostAsWritten` and `LocalSizeKept`: a one-dimensional launch of 8 items in groups of 4 gets local size 4 corrected and 0 as written |
| NDRange.SetWaitList | lib/Core/Command.cpp:433-438 | the shared wait-list setter, nothing more |
| NDRange.Create | lib/Core/Command.cpp:440-450 | a launch exactly when no error was reported, with the builder's code, kernel and wait list, and dimension `j` built from offset, global and local size `j` |
| NativeKernel.New | lib/Core/Command.cpp:456-471 | the builder succeeds exactly when a function is given and the argument pointer is given exactly when the size is nonzero; every failure is `CL_INVALID_VALUE` with one diagnostic per failed check |
| NativeKernel.Put | lib/Core/Command.cpp:483-489 | every object listed gets a mapping, a later entry for the same object wins, and other objects keep theirs |
| NativeKernel.Rebase | lib/Core/Command.cpp:97-106 | rebasing keeps exactly the mapped objects: no object gains or loses a location |
| NativeKernel.SetMemoryMappings | lib/Core/Command.cpp:473-492 | mappings without an argument block, or pointers without a count, are unexpected; a count without both lists is an error; otherwise the objects before the first null one are mapped, and the null one reports `CL_INVALID_MEM_OBJECT` exactly when there is one |
| NativeKernel.SetWaitList | lib/Core/Command.cpp:494-500 | the shared wait-list setter, nothing more |
| NativeKernel.RebaseKeepsLayout | lib/Core/Command.cpp:97-106 | rebasing keeps each mapped location's offset from the block start and the distances between locations, so a location inside the old block lands inside the copy |
| NativeKernel.Remap | lib/Core/Command.cpp:115-126 | each mapped slot receives the object's global address when the object has one, otherwise null |
| NativeKernel.Create | lib/Core/Command.cpp:502-510 | a command exactly when no error was reported, with the builder's code, the copied argument block of the same size and the same mapped objects |
| MemoryObj.ExceedsSome | lib/Core/MemoryObj.cpp:41-48 | the size is refused exactly when it exceeds some device's maximum allocation |
| MemoryObj.New | lib/Core/MemoryObj.cpp:27-49 | a fresh buffer builder with no storage flag and no protection; `CL_INVALID_BUFFER_SIZE`, with one diagnostic, exactly when the size is 0 or exceeds some device's maximum allocation |
| MemoryObj.SetUseHostMemory | lib/Core/MemoryObj.cpp:51-65 | disabled changes nothing; a null pointer is `CL_INVALID_HOST_PTR`; combined with host allocation or copy is `CL_INVALID_VALUE`; otherwise the pointer is used |
| MemoryObj.SetAllocHostMemory | lib/Core/MemoryObj.cpp:67-77 | disabled changes nothing; combined with host memory in use is `CL_INVALID_VALUE`; otherwise host allocation is set |
| MemoryObj.SetCopyHostMemory | lib/Core/MemoryObj.cpp:79-94 | disabled changes nothing; a null source is `CL_INVALID_HOST_PTR`; combined with host memory in use is `CL_INVALID_VALUE`; otherwise the source is recorded |
| MemoryObj.SetProtection | lib/Core/MemoryObj.cpp:96-130 | disabled changes nothing; a different protection already set is `CL_INVALID_VALUE`; otherwise the protection is set |
| MemoryObj.Create | lib/Core/MemoryObj.cpp:132-142 | refused with the builder's code after any error; otherwise host memory in use picks the host buffer, then host allocation the host-accessible buffer, else a device buffer, with the size, pointer and protection |
| MemoryObj.ChecksPassIff | tools/libOpenCRun/MemoryObject.cpp:34-43 | no check fails exactly when the size fits every device, a pointer accompanies use or copy of host memory, host memory in use is combined with no other storage flag, and at most one protection is asked |
| MemoryObj.CreateBufferFollowsFlags | tools/libOpenCRun/MemoryObject.cpp:34-43 | the call chain creates a buffer exactly when the flags obey those rules, and otherwise reports the last failing check's code |
| MemoryObj.CreateBufferRequest | tools/libOpenCRun/MemoryObject.cpp:34-43 | accepted flags give the storage kind chosen by use-host then alloc-host, the host pointer only when host memory is used or copied, and the protection asked |
| MemoryObj.StorageConflictEitherOrder | lib/Core/MemoryObj.cpp:51-77 | using and allocating host memory conflict whichever is set first |
| MemoryObj.ErrorPersists | lib/Core/MemoryObj.cpp:132-149 | once an error is reported no later setter can make `Create` succeed |
| Program.InfoKernel | include/opencrun/Core/Program.h:81-88 | a kernel is found only in a build that has bit-code, and is a function of that module with the name asked |
| Program.DefineKernelIff | include/opencrun/Core/Program.h:81-100 | a build defines a kernel exactly when it has bit-code holding a function of that name which the module's metadata lists as a kernel |
| Program.Ascending | lib/Core/Program.cpp:80-83 | the builds in the map's key order: every device once, strictly increasing |
| Program.BuildOn | lib/Core/Program.cpp:132-193 | building for one device always leaves a build record for it and touches no other; it succeeds exactly when the device is in the context and either sources exist and no build is in progress and compilation succeeds, or only bit-code exists; the failures are `CL_INVALID_DEVICE`, `CL_INVALID_BINARY`, `CL_INVALID_OPERATION` and `CL_BUILD_PROGRAM_FAILURE`; a finished build records success or error and keeps its bit-code only on success |
| Program.BuildAll | lib/Core/Program.cpp:49-52 | the devices in order until one fails; only the build records change and records are only added |
| Program.BuildAllSucceeds | lib/Core/Program.cpp:49-52 | the loop succeeds exactly when every listed device builds |
| Program.BuildAllRecords | lib/Core/Program.cpp:49-52 | after a successful loop every listed device has a build record |
| Program.Build | lib/Core/Program.cpp:32-58 | with kernels attached the build is refused with `CL_INVALID_OPERATION` and the callback is not run; otherwise the listed devices, or the context's when none are listed, are built and the callback runs; no build is left in progress |
| Program.NoPendingBuild | lib/Core/Program.cpp:154-185 | with no build in progress, a build never reports a build in progress and leaves none |
| Program.FailedBuildCountsAsBuilt | include/opencrun/Core/Program.h:148-152 | a failed compilation, or even a device outside the context, still counts as "built for" because a record is created before the checks |
| Program.FirstDefining | lib/Core/Program.cpp:83-88 | the first build, in key order, that defines the kernel |
| Program.Gather | lib/Core/Program.cpp:98-111 | the later builds that finished successfully each add their function, provided its type equals the first's |
| Program.CreateKernel | lib/Core/Program.cpp:72-120 | no build at all is `CL_INVALID_PROGRAM_EXECUTABLE`, no defining build is `CL_INVALID_KERNEL_NAME`, each with one diagnostic and nothing changed; a created kernel is registered with the program, belongs to its context and has every argument unset |
| Program.CreatedKernelCodes | lib/Core/Program.cpp:83-111 | the kernel's first code comes from the first defining build; every code is the named function of its device's build with one shared type; every later successful build agrees on the type |
| Program.MismatchRefused | lib/Core/Program.cpp:98-108 | a later successful build whose kernel type differs from the first defining build's refuses creation with `CL_INVALID_KERNEL_DEFINITION` |
| Program.Unregister | include/opencrun/Core/Program.h:133-137 | only the kernel released leaves the attached set |
| Program.ReleaseAllowsRebuild | lib/Core/Program.cpp:35-37 | an attached kernel blocks rebuilding; releasing it gives back exactly the build of the program before the kernel existed |
| Program.SetSources | lib/Core/Program.cpp:213-239 | no count or no list is `no program given`; a null entry is `null program given`; otherwise the sources are concatenated, each cut to its length when one is given and nonzero, and each followed by a newline |
| Program.Create | lib/Core/Program.cpp:241-249 | a program exactly when no error was reported, with the builder's context, devices and sources and no builds or kernels |
| Program.FreshProgramBuilds | lib/Core/Program.cpp:241-249 | a fresh program builds for any device of its context exactly when compilation succeeds |
| Kernel.New | include/opencrun/Core/Kernel.h:76-78 | a kernel has one argument slot per parameter of its type, all unset |
| Kernel.CodeFor | include/opencrun/Core/Kernel.h:86-88 | the function for a device, exactly when the kernel has code for it |
| Kernel.SetBufferArg | lib/Core/Kernel.cpp:43-68 | accepted exactly when the size is a handle's and a non-null buffer shares the kernel's context and the slot is not local; the slot then records the buffer and its address space and nothing else changes; the size, context and local failures report `CL_INVALID_ARG_SIZE`, `CL_INVALID_MEM_OBJECT`, `CL_INVALID_ARG_VALUE` in that order |
| Kernel.SetArg | lib/Core/Kernel.cpp:30-41 | an index past the parameters is `CL_INVALID_ARG_INDEX`; a buffer parameter goes to the buffer setter; any other parameter kind is unreachable in the source |
| Kernel.SetArgKeepsSlots | lib/Core/Kernel.cpp:30-67 | setting one argument leaves the other slots, the codes and the context as they were |
| Kernel.SetArgIdempotent | lib/Core/Kernel.cpp:30-67 | setting the same argument twice gives the same kernel and the same code as setting it once |
| Kernel.SetArgsCommute | lib/Core/Kernel.cpp:30-67 | two accepted settings of different arguments commute |
| Kernel.RecordedSpaceFromMetadata | lib/Core/Kernel.cpp:49-60 | the address space checked comes from the kernel's metadata: a local slot refuses a buffer, and a slot the metadata does not describe records the fallback space |
| Context.GetQueueForDevice | lib/Core/Context.cpp:40-56 | a queue is created exactly when the device belongs to the context; it is bound to that device, profiles as asked and is out-of-order exactly when asked; a foreign device gives `CL_INVALID_DEVICE` and one diagnostic |
| Context.CreateDeviceBuffer | lib/Core/Context.cpp:73-104 | the buffer is created exactly when every device of the context can allocate it; then each device maps it and its available memory shrinks by the buffer's size; otherwise no device keeps a mapping, devices that never held it are left as they were, and the code is `CL_OUT_OF_RESOURCES`; devices whose accounts balanced still balance |
| Context.FirstRefusal | lib/Core/Context.cpp:81-86 | the device the allocation loop stops at: every device before it holds the buffer, it does not, and it is past the end exactly when every device holds the buffer |
| Context.RefusalCopiesToNullAsWritten | lib/Core/Context.cpp:81-86 | as written, when some device cannot hold a buffer with initialisation data, the first such device copies the data to the null address before the rollback |
| Context.CreateBuffer | lib/Core/MemoryObj.cpp:132-142 | a builder that recorded an error returns its code and no buffer; host and host-accessible storage yield no buffer; device storage yields a buffer of the requested size exactly when every device fits it, with `CL_SUCCESS` or `CL_OUT_OF_RESOURCES` |
| CommandQueue.RunScheduler | lib/Core/CommandQueue.cpp:121-133 | an out-of-order queue never schedules; an in-order queue submits its front command exactly when the command can run and the device accepts it, and asks to be run again exactly when commands remain |
| CommandQueue.RunMany | lib/Core/CommandQueue.cpp:79-81 | repeated scheduling changes only the pending commands of the queue |
| CommandQueue.SubmitsInOrder | lib/Core/CommandQueue.cpp:121-133 | the commands an in-order queue submits, followed by those still pending, are exactly the commands enqueued, in order |
| CommandQueue.BlockedFrontHoldsQueue | lib/Core/CommandQueue.cpp:127-130 | when the front command cannot run, however often the scheduler runs nothing is submitted and the queue is unchanged |
| CommandQueue.ForeignEvent | lib/Core/CommandQueue.cpp:23-29 | the scan stops at the first waited event of another context, and every event before it belongs to the queue's context |
| CommandQueue.Enqueue | lib/Core/CommandQueue.cpp:22-67 | waiting on an event of another context gives `CL_INVALID_CONTEXT`; a native kernel on a device without native kernels gives `CL_INVALID_OPERATION`; otherwise an event is returned exactly then, queued, profiled exactly when the queue or the environment asks, and the command is appended and scheduled |
| CommandQueue.Append | lib/Core/CommandQueue.cpp:45-50 | the command is added at the back, the earlier commands keep their order, its event is tracked, and nothing else in the queue changes |
| CommandQueue.TrackedKept | lib/Core/CommandQueue.cpp:45-50 | every pending command's event stays tracked by the queue after an append and after scheduling |
| CommandQueue.EnqueueSubmitsOnlyAlone | lib/Core/CommandQueue.cpp:54 | on an in-order queue, the scheduling that follows an enqueue submits the new command exactly when no command was pending before it, it can run and the device accepts it |
| CommandQueue.CommandDone | lib/Core/CommandQueue.cpp:69-77 | the finished command's event stops being tracked, other events stay, and the pending commands are those scheduling leaves |
| Event.Signal | lib/Core/Event.cpp:21-36 | a status greater than the current one is ignored as delayed; otherwise it becomes the status, and waiters are woken exactly when the new status is complete or an error |
| Event.MinStatus | lib/Core/Event.cpp:24-29 | the minimum of a status and a sequence of statuses: no greater than any of them, and one of them |
| Event.SignalsTakeMinimum | lib/Core/Event.cpp:24-32 | after any sequence of signals the event's status is the least of its first status and every signalled one, and its trace is untouched |
| Event.CompletionIsSticky | include/opencrun/Core/Event.h:38-39 | an event has completed exactly when its status is at most `CL_COMPLETE`; once completed, or once an error, no later signal undoes it |
| Event.NewInternal | lib/Core/Event.cpp:48-56 | a new command event is queued, profiles exactly when a sample is given, and holds that sample alone |
| Event.MarkSubmitted | lib/Core/Event.cpp:68-71 | a queued event becomes submitted, an event already running, complete or failed keeps its status, and no waiter is woken |
| Event.MarkRunning | lib/Core/Event.cpp:73-76 | a queued or submitted event becomes running, an event already complete or failed keeps its status, and no waiter is woken |
| Event.MarkSubCompleted | lib/Core/Event.cpp:78-80 | recording a sub-completion never changes the event's status |
| Event.MarkCompleted | lib/Core/Event.cpp:82-90 | a status that is neither complete nor an error is reported as an invalid event status and changes nothing; otherwise the event completes, its queue is told, and waiters are woken exactly when the status does not go backwards |
| Event.RecordKeepsSorted | include/opencrun/Core/Profiler.h:73-82 | adding a sample to an event's trace keeps the samples ordered by label |
| Event.NormalLifecycle | lib/Core/Event.cpp:68-90 | submitted, running, completed in turn: each step takes its status, only completion wakes waiters and tells the queue, and the trace stays ordered |
| Event.DelayedSubmissionIgnored | lib/Core/Event.cpp:68-71 | a submission notice arriving after the command started running only records its sample and wakes nobody |
| Profiler.InsertPointFrom | include/opencrun/Core/Profiler.h:89-97 | the insertion point is just past every sample whose label is not later than the new one, scanning from the front |
| Profiler.Add | include/opencrun/Core/Profiler.h:73-82 | a disabled trace or a missing sample leaves the trace as it was; otherwise the sample is placed at the insertion point and the other samples keep their order |
| Profiler.AddKeepsSorted | include/opencrun/Core/Profiler.h:73-97 | a trace ordered by label stays ordered after a sample is added, and the samples before the new one are exactly those whose label is not later than its own |
| Profiler.AddIsStable | include/opencrun/Core/Profiler.h:89-97 | among samples of one label the new sample goes after all earlier ones, so each label's samples stay in arrival order |
| Profiler.GetSampleSpec | include/opencrun/Core/Profiler.h:119-138 | no sample is taken exactly when neither the caller nor the environment asks for a counter; a sample carries the label and sub-label asked for, and reads the clock only when the time counter is on |
| Profiler.Fields | lib/Core/Profiler.cpp:19-23 | splitting the environment value at colons gives at least one field, and no field holds a colon |
| Profiler.FieldsJoin | lib/Core/Profiler.cpp:19-23 | joining the fields with colons gives back the value |
| Profiler.Tokens | lib/Core/Profiler.cpp:23 | every token is a non-empty field |
| Profiler.TokensKeep | lib/Core/Profiler.cpp:23 | a non-empty string is a token exactly when it is a field |
| Profiler.OrCountersSpec | lib/Core/Profiler.cpp:25-31 | or-ing the counters named by the tokens gives the time counter exactly when some token is `time`, and no counter otherwise; unknown names add nothing |
| Profiler.ParseCountersSpec | lib/Core/Profiler.cpp:17-32 | the profiled counters read from the environment are the time counter exactly when one colon-separated field is `time` |
| Profiler.FormatLabelInjective | lib/Core/Profiler.cpp:68-100 | two samples formatted to the same text have the same label, and either both lack a sub-label id or both have the same one |
| Profiler.TraceRows | lib/Core/Profiler.cpp:45-59 | one row per sample in trace order: its formatted label, its time (`N\A` when invalid), and `Now - Last` with `operator-` as written, measured from the previous sample or, for the first, from the given start time |
| Profiler.TraceTable | lib/Core/Profiler.cpp:42-60 | three columns of `1 + n` cells: each column is its header word followed by that column of the trace rows, measured from the default time |
| Profiler.DumpTraceShape | lib/Core/Profiler.cpp:42-45 | the dumped table has the header `Label`, `Time`, `Delta` above one row per sample, three columns throughout |
| Profiler.DumpTrace | lib/Core/Profiler.cpp:34-66 | nothing is written exactly when profiling is neither forced by the environment nor by the caller; otherwise one line per table row between a title line naming the command and a closing line |
| Profiler.TraceCell | lib/Core/Profiler.cpp:45-60 | below the header, row `k + 1` of the dumped table is sample `k`'s trace row |
| Profiler.DeltaColumn | lib/Core/Profiler.cpp:52-59 | the Delta cell of a later sample is the previous sample's time subtracted from its own |
| Profiler.FirstDeltaColumn | lib/Core/Profiler.cpp:47-59 | the Delta cell of the first sample subtracts the default time, as `Last` starts default-constructed |
| Profiler.BorrowDeltaNotAvailable | lib/Core/Profiler.cpp:52-59 | a later valid sample whose nanoseconds are below its predecessor's prints `N\A` as its delta |
| Profiler.DeltaElapsedWithoutBorrow | lib/Core/Profiler.cpp:52-59 | when no borrow is needed the delta cell prints the elapsed time, a valid time |
| Profiler.FirstDeltaNotAvailable | lib/Core/Profiler.cpp:47-59 | a valid first sample prints `N\A` as its delta unless its nanoseconds are exactly 854775808 |
| SysTime.Wrap64 | include/opencrun/System/Time.h:39-40 | the result is a signed 64-bit value congruent to the input, and equal to it when the input already fits |
| SysTime.Rem | include/opencrun/System/Time.h:28-29 | the remainder truncates toward zero: quotient times a billion plus remainder gives the input, its magnitude is below a billion, and it has the input's sign |
| SysTime.MakeTime | include/opencrun/System/Time.h:27-29 | the constructor keeps the nanosecond part below a second in magnitude with the sign of the given nanoseconds, and denotes the same instant when the seconds do not overflow |
| SysTime.MakeTimeKeepsInstant | include/opencrun/System/Time.h:27-32 | a constructed time denotes the given instant; from non-negative parts it is valid, and from negative nanoseconds that are not whole seconds it is not |
| SysTime.SubAsWritten | include/opencrun/System/Time.h:45-47 | the subtraction as written stays within 64-bit fields |
| SysTime.Sub | include/opencrun/System/Time.h:45-47 | the intended subtraction borrows a second so the nanosecond part lies in `[0, 1e9)` |
| SysTime.DefaultIsInvalid | include/opencrun/System/Time.h:26 | a default time is invalid and prints as `N\A` |
| SysTime.BorrowIsInvalidAsWritten | include/opencrun/System/Time.h:45-47 | for two valid times where the later one has fewer nanoseconds, the difference as written is invalid although the first time is later |
| SysTime.BorrowExample | include/opencrun/System/Time.h:45-47 | 2.1 s minus 1.9 s is the invalid `(1, -800000000)` as written and 0.2 s as intended |
| SysTime.SubElapsed | include/opencrun/System/Time.h:45-47 | for valid normal times the intended difference of a later time and an earlier one is valid, normal and equals the elapsed nanoseconds |
| SysTime.SubAsWrittenWithoutBorrow | include/opencrun/System/Time.h:45-47 | when the later valid time also has at least as many nanoseconds, the subtraction as written agrees with the intended one and gives the elapsed time |
| SysTime.MinusDefaultInvalid | include/opencrun/System/Time.h:26-47 | a valid time minus the default time has nanoseconds equal to its own minus 854775808, less a second when above that, so it is invalid unless its nanoseconds are exactly 854775808 |
| Table.Push | include/opencrun/Util/Table.h:43-47 | a cell is appended to the column's rows and the width still covers every row |
| Table.Insert | include/opencrun/Util/Table.h:92-98 | the cell goes into the current column, a new column is opened when the cursor is past the last, the cursor advances and other columns are untouched |
| Table.InsertNA | include/opencrun/Util/Table.h:102 | a missing value is the cell `N/A` in the current column |
| Table.InsertAllFills | include/opencrun/Util/Table.h:92-98 | inserting a row's cells fills consecutive columns from the cursor, opening columns as needed, and leaves the others alone |
| Table.AddRowAppends | include/opencrun/Util/Table.h:92-103 | on a rectangular table a full row followed by end-of-line adds one row, keeps it rectangular and returns the cursor to the first column |
| Table.AddRowsAppends | include/opencrun/Util/Table.h:82-103 | adding rows of one width to a rectangular table appends each column's cells in order and keeps it rectangular |
| Table.HeaderThenRows | include/opencrun/Util/Table.h:82-103 | a header followed by rows of its width gives a table with one more row than the rows, each column holding the header cell and then that column of the rows |
| Table.HeaderThenRowsCell | include/opencrun/Util/Table.h:82-103 | in a table built from a header row and rows of its width, row `k + 1` of column `j` is cell `j` of row `k` |
| Table.PadRightJustified | include/opencrun/Util/Table.h:64 | every padded cell has the column's width and ends with the cell's text, preceded only by spaces |
| Table.ShortColumnPadsBlank | include/opencrun/Util/Table.h:49-54 | a row past a short column's end prints as blanks of the column's width |
| Table.RowFromIsJoin | lib/Util/Table.cpp:16-21 | a printed row is its padded cells joined by single spaces |
| Table.RowFromLength | lib/Util/Table.cpp:16-21 | a printed row is as long as the sum of the widths plus one space between columns |
| Table.DumpLayout | lib/Util/Table.cpp:9-24 | the dump has one line per row; each is the prefix and `: ` when a prefix is given, the joined cells and a newline, and all lines have the same length |
| SysTime.Normalise | include/opencrun/System/Time.h:27-29 | the intended constructor keeps the nanosecond part in `[0, 1e9)` and denotes the same instant when the seconds do not overflow |
| InfoQuery.Fill | tools/libOpenCRun/Utils.h:61-79 | the size is reported whenever it is asked for; the call fails with `CL_INVALID_VALUE` exactly when a destination is given that is smaller than the value, and the value is written exactly when a destination is given that is large enough |
| InfoQuery.StrNCopy | tools/libOpenCRun/Utils.h:95 | copying a string into `n` bytes always writes exactly `n` characters |
| InfoQuery.StrNCopyTerminates | tools/libOpenCRun/Utils.h:81-99 | a string without NUL characters, copied into its length plus one bytes, arrives whole and NUL-terminated |
| InfoQuery.StrNCopyCutsAtNul | tools/libOpenCRun/Utils.h:95 | copying stops at the first NUL of the source and fills the rest of the destination with NULs |
| InfoQuery.Nuls | tools/libOpenCRun/Utils.h:95 | the padding is `n` NUL characters |
| InfoQuery.NulsCopy | tools/libOpenCRun/Utils.h:95 | copying an empty source writes only NULs |
| InfoQuery.QueryThenFill | tools/libOpenCRun/Utils.h:122-142 | asking for the size alone succeeds and writes nothing; a second call with a destination of that size succeeds and writes every value in order |
| InfoQuery.QueryThenFillString | tools/libOpenCRun/Utils.h:81-99 | a string's reported size counts its terminator; a destination of that size receives the string and the NUL, and one byte less is refused with `CL_INVALID_VALUE` while the size is still reported |
| InfoQuery.ReturnWithEvent | tools/libOpenCRun/Utils.h:28-35 | the call succeeds; the event is handed to the caller exactly when a slot is given, and otherwise the caller's reference is dropped |
| ApiContext.ValidDeviceTypeIff | tools/libOpenCRun/Context.cpp:17-25 | a device type is valid exactly when it is `ALL` or uses only the CPU, GPU, accelerator and default bits |
| ApiContext.ParseProperties | tools/libOpenCRun/Context.cpp:202-235 | an accepted property list maps the platform property and nothing else; a refused one fails with `CL_INVALID_PLATFORM` or `CL_INVALID_PROPERTY` |
| ApiContext.ParseFromPairs | tools/libOpenCRun/Context.cpp:206-229 | from any point of the list: the end succeeds exactly when the platform was already given; a pair after the platform is a repeated or unknown property; a lone remaining platform pair is recorded, a null value standing for the default platform |
| ApiContext.ParsePropertiesIff | tools/libOpenCRun/Context.cpp:202-235 | the list is accepted exactly when it holds one pair and that pair names the platform; an empty list is `CL_INVALID_PLATFORM` and every other list `CL_INVALID_PROPERTY` |
| ApiContext.FirstNull | tools/libOpenCRun/Context.cpp:59-64 | the scan stops at the first null device handle, and every handle before it is non-null |
| ApiContext.Handles | tools/libOpenCRun/Context.cpp:58-64 | the context's devices are the given handles, one for one and in order |
| ApiContext.CreateContext | tools/libOpenCRun/Context.cpp:32-73 | no property list is `CL_INVALID_PLATFORM`; a refused list passes its code on; no devices, a zero count or user data without a callback is `CL_INVALID_VALUE`; a null handle is `CL_INVALID_DEVICE`; otherwise the context is made on the listed platform with exactly the given devices, and a context is returned exactly on success |
| ApiContext.SelectByType | tools/libOpenCRun/Context.cpp:104-111 | a CPU or default bit selects the CPUs; otherwise a GPU bit the GPUs; otherwise an accelerator bit the accelerators; otherwise nothing |
| ApiContext.CreateContextFromType | tools/libOpenCRun/Context.cpp:75-123 | the property checks come first as in `clCreateContext`; then the context is made exactly when the type is valid, user data comes with a callback and the type selects at least one device |
| ApiContext.FromTypeParsed | tools/libOpenCRun/Context.cpp:96-122 | an invalid type is `CL_INVALID_DEVICE_TYPE`, user data without a callback `CL_INVALID_VALUE`; success means a context on the parsed platform holding the selected devices |
| ApiContext.FromReportedType | tools/libOpenCRun/Context.cpp:106-111 | the type a device reports is valid and selects its own kind, while `ALL` selects only the CPUs, unlike device enumeration, which lists every kind |
| ApiDevice.Select | tools/libOpenCRun/Device.cpp:23-69 | exactly the five single device-type values select devices; any other value, combined bits included, is refused |
| ApiDevice.GetDeviceIDs | tools/libOpenCRun/Device.cpp:8-82 | a null platform is `CL_INVALID_PLATFORM`; a destination with no entries, or neither output, is `CL_INVALID_VALUE`; success needs a selecting type and at least one device, and then reports the full count when asked and writes at most the requested number of handles, a prefix of the selected devices; failures write nothing |
| ApiDevice.CopyDevices | tools/libOpenCRun/Device.cpp:77-79 | the copy loop writes the first devices up to the requested number, exactly what the call reports written |
| ApiDevice.CountThenList | tools/libOpenCRun/Device.cpp:71-79 | asking first for the count and then for that many handles returns every selected device |
| ApiDevice.AllListsEveryKind | tools/libOpenCRun/Device.cpp:49-65 | `ALL` lists the CPUs, then the GPUs, then the accelerators, each kind in the platform's order |
| ApiDevice.ReportedType | tools/libOpenCRun/Device.cpp:106-116 | a device reports the CPU bit and the default bit exactly when it is a CPU, and the GPU or accelerator bit exactly when it is of that kind |
| ApiDevice.ListByReportedType | tools/libOpenCRun/Device.cpp:23-69 | listing by a GPU's or accelerator's reported type finds that kind's devices, while the CPU's combined type is refused as `CL_INVALID_DEVICE_TYPE` |
| SimpleParser.GetAsInteger | lib/System/Hardware.cpp:56 | a number read from text is below the type's limit and fits in 64 bits |
| SimpleParser.GetAsIntegerShowNat | lib/System/Hardware.cpp:56 | the decimal text of a number below the limit reads back as that number |
| SimpleParser.LeadingZeroIsOctal | lib/System/Hardware.cpp:127 | the radix is guessed from the text, so `010` reads as 8 and `08` is refused |
| SimpleParser.NoNewlineInNumber | lib/System/Hardware.cpp:94-97 | text holding a newline never reads as a number |
| SimpleParser.SkipSpaces | lib/System/Hardware.cpp:173 | the scan stops at the first non-space character, and everything skipped is space |
| SimpleParser.TrailingStart | lib/System/Hardware.cpp:174 | the backwards scan stops just after the last non-space character, and everything after it is space |
| SimpleParser.TrimSpaces | lib/System/Hardware.cpp:170-177 | the trimmed text is a slice of the input with only spaces cut on either side, and it neither starts nor ends with a space |
| SimpleParser.TrimIdempotent | lib/System/Hardware.cpp:170-177 | trimming twice is trimming once |
| SimpleParser.TrimTrimmed | lib/System/Hardware.cpp:170-177 | text that neither starts nor ends with a space is left as it is |
| SimpleParser.DigitsEnd | lib/System/Hardware.cpp:120 | the scan stops at the first non-digit, and everything skipped is a digit |
| SimpleParser.ParseSize | lib/System/Hardware.cpp:115-135 | a size is accepted only when it is nonzero, and it fits in 64 bits |
| SimpleParser.SizeOf | lib/System/Hardware.cpp:126-134 | the digits times the unit's multiplier, accepted only when nonzero and within 64 bits |
| SimpleParser.WrapKiB | lib/System/Hardware.cpp:130-132 | the product wraps to 64 bits like the `unsigned long long` it is computed in |
| SimpleParser.ParseSizeParts | lib/System/Hardware.cpp:115-135 | digits, then spaces, then a unit that starts with neither a space nor a digit: the size is the digits read with that unit |
| SimpleParser.SizeOfKiB | lib/System/Hardware.cpp:130-132 | `kB` and `K` both mean kibibytes |
| SimpleParser.ParseSizeKiB | lib/System/Hardware.cpp:115-135 | `N kB` and `NK` both read as `N` times 1024 |
| SimpleParser.ParseSizeNeedsUnit | lib/System/Hardware.cpp:130-134 | any other unit, `MB` among them, gives the multiplier 0 and the size is refused |
| SimpleParser.ListRoundTrip | lib/System/Hardware.cpp:40-65 | a comma-separated list ending in a newline reads back as its numbers in order, the discarded value left out, from any starting point |
| SimpleParser.ListElement | lib/System/Hardware.cpp:46-64 | each number ended by a comma or a newline is read and kept unless it is the discarded value |
| SimpleParser.ParseListRoundTrip | lib/System/Hardware.cpp:31-68 | a rendered list of 32-bit numbers reads back as those numbers, without the largest value, which is the default discard |
| SimpleParser.ParseListRefusesRange | lib/System/Hardware.cpp:50-51 | a range such as `0-3` is not a list |
| SimpleParser.ParseNumberRoundTrip | lib/System/Hardware.cpp:72-102 | a number followed by a newline reads back, narrowed to the target type; without a newline the parse succeeds and stores nothing |
| SimpleParser.ParseNumberOneLine | lib/System/Hardware.cpp:79-98 | the start of the number is never moved past the first newline, so a file with two numbers is refused |
| SimpleParser.Split | lib/System/Hardware.cpp:146 | splitting at the first separator: the text is the head, the separator and the tail, and the head holds no separator; without a separator the tail is empty |
| SimpleParser.KeyValueRoundTrip | lib/System/Hardware.cpp:149-164 | lines of `key: value` read back as the entries, a later key overwriting an earlier one |
| SimpleParser.ParseKeyValueRoundTrip | lib/System/Hardware.cpp:138-167 | a rendered dictionary read back gives the entries it was rendered from |
| SimpleParser.KeyWithoutValueFails | lib/System/Hardware.cpp:160-161 | a line without a value makes the whole file unreadable |
| SimpleParser.ParseKind | lib/System/Hardware.cpp:527-542 | the file's text without its last character names the cache kind; anything else is refused |
| SimpleParser.ParseKindRoundTrip | lib/System/Hardware.cpp:534-541 | each kind's name followed by any final character reads back as that kind |
| HardwareGraph.NodeMemory | lib/System/Hardware.cpp:578-585 | a node memory size is found only in a readable meminfo that has a `MemTotal` entry |
| HardwareGraph.NodeMemoryFromEntries | lib/System/Hardware.cpp:573-588 | a meminfo whose `MemTotal` is `N kB` gives a node of `N` kibibytes |
| HardwareGraph.AncestorOf | lib/System/Hardware.cpp:604-610 | the top of a component's hierarchy has no parent |
| HardwareGraph.AncestorShallower | lib/System/Hardware.cpp:604-610 | the top is never deeper than the component it was reached from |
| HardwareGraph.AncestorShared | lib/System/Hardware.cpp:604-610 | a component is its own top exactly when it has no parent, a component shares its top with its parent, and the top of the top is itself |
| HardwareGraph.GetAncestor | lib/System/Hardware.cpp:604-610 | the loop that walks up the parents returns the top of the hierarchy |
| HardwareGraph.LlcBackAsWritten | lib/System/Hardware.cpp:655-663 | as written, the back of the last-level caches is the front |
| HardwareGraph.ScanKeepingFirst | lib/System/Hardware.cpp:656-662 | a scan that never moves its kept position returns the element it started with |
| HardwareGraph.LlcBack | lib/System/Hardware.cpp:655-663 | as intended, the back is the last cache listed |
| HardwareGraph.ScanKeepingLast | lib/System/Hardware.cpp:656-662 | a scan whose kept position trails its cursor by one returns the last element |
| HardwareGraph.LlcBackDiverges | lib/System/Hardware.cpp:655-663 | with caches 1 and 2 the version as written returns 1 where 2 is meant |
| HardwareGraph.LlcBackFrontAgree | lib/System/Hardware.cpp:651-663 | front and back agree exactly when the first and last caches are the same, and only then does the version as written return the right cache |
| Metadata.AnyNamesFrom | lib/Util/OpenCLMetadataHandler.cpp:158-164 | the scan finds the function exactly when some remaining kernel node names it first |
| Metadata.GetKernel | lib/Util/OpenCLMetadataHandler.cpp:146-167 | a kernel is returned exactly when the module defines a function of that name and some node of `opencl.kernels` names it, and it is that function |
| Metadata.KernelFunctions | include/opencrun/Util/OpenCLMetadataHandler.h:108-114 | the kernel iteration yields exactly the module's functions that a kernel node names |
| Metadata.KernelsFrom | include/opencrun/Util/OpenCLMetadataHandler.h:56-102 | from any node on, the kernels yielded are exactly the module's functions named by the remaining nodes |
| Metadata.SelectKernels | lib/Passes/FootprintEstimator.cpp:24-31 | a named kernel the module has is the only root; an empty or unknown name selects every kernel; every root is a listed kernel of the module |
| Metadata.AddrSpacesFrom | lib/Util/OpenCLMetadataHandler.cpp:177-192 | the address spaces found come from a node with at least two operands that names the kernel; when no such node remains none are found |
| Metadata.GetArgAddressSpace | lib/Util/OpenCLMetadataHandler.cpp:169-202 | without kernel metadata, or without a node for the kernel, the answer is the `Last` marker; when the kernel's address-space node has an integer constant at the argument's position the answer is that constant, and otherwise (too few entries, or not a constant) it is `Last`; any answer other than `Last` is such a constant |
| Metadata.FirstDescriptionDecides | lib/Util/OpenCLMetadataHandler.cpp:185-190 | the first node naming the kernel decides: when its address-space operand is not a node, a later well-formed node is never consulted |
| Metadata.TypeDone | lib/Util/OpenCLMetadataHandler.cpp:38-55 | `Ui` is the unsigned int, `ULi` the unsigned long, `z` the size type and `v` void, whatever the prefixes of the last two; a plain `i` is refused as a type not specified, any other letter as an unknown type |
| Metadata.ScanType | lib/Util/OpenCLMetadataHandler.cpp:246-281 | one type code takes one to three characters of the signature |
| Metadata.ScanCode | lib/Util/OpenCLMetadataHandler.cpp:246-281 | a type's canonical code, wherever it stands, scans back to that type and ends where the code ends |
| Metadata.ScanRoundTrip | lib/Util/OpenCLMetadataHandler.cpp:242-284 | a signature rendered from types scans back to those types |
| Metadata.OtherSpellings | lib/Util/OpenCLMetadataHandler.cpp:249-276 | prefixes before `z` and `v` are ignored, while `i` without `U`, or a prefix with no letter after it, is refused |
| Metadata.ScanTwoSteps | lib/Util/OpenCLMetadataHandler.cpp:246-282 | a signature that is one type code scans to that one type |
| Metadata.CreateFunction | lib/Util/OpenCLMetadataHandler.cpp:57-73 | without types there is no function; otherwise an external declaration of that name whose return type is the first type and whose parameters are the rest, in order, at the target's widths |
| Metadata.BuildBuiltin | lib/Util/OpenCLMetadataHandler.cpp:239-285 | a builtin is built exactly when its signature scans to at least one type; the module gains exactly that declaration |
| Metadata.GetBuiltin | lib/Util/OpenCLMetadataHandler.cpp:204-230 | an unknown name is refused with `Unknown builtin:` and the name; a declaration already in the module is reused as it is; otherwise it is built from its signature; the result is in the module under that name |
| Metadata.GetBuiltinIdempotent | lib/Util/OpenCLMetadataHandler.cpp:213-227 | asking for a builtin a second time returns the same declaration and adds nothing to the module |
| GlobalMemory.New | lib/Device/CPU/Memory.cpp:11 | a new memory of a given size has nothing mapped and all of it available |
| GlobalMemory.Alloc | lib/Device/CPU/Memory.cpp:21-37 | too little available memory or a failed allocation maps nothing and changes nothing; otherwise the object is mapped to the address and the available memory shrinks by its size; the books still balance for an object not yet mapped |
| GlobalMemory.Free | lib/Device/CPU/Memory.cpp:56-67 | freeing an unmapped object changes nothing; otherwise its mapping goes and its size is available again; balanced books stay balanced |
| GlobalMemory.FreeUndoesAlloc | lib/Device/CPU/Memory.cpp:21-67 | freeing an object just allocated gives back the memory as it was |
| GlobalMemory.DoubleAllocLosesMemory | lib/Device/CPU/Memory.cpp:26-34 | allocating an object that is already mapped replaces its address and charges its size again, so the books no longer balance |
| GlobalMemory.UsedRemove | lib/Device/CPU/Memory.cpp:63-66 | the memory used by mapped objects is one object's size plus that of the others |
| GlobalMemory.AllocDeviceBufferAsWritten | lib/Device/CPU/Memory.cpp:47-54 | as written: the allocation is the plain one, the initialisation data is copied exactly when the buffer has some, and it goes to the null address exactly when the buffer has data and the allocation is refused |
| GlobalMemory.AllocDeviceBuffer | lib/Device/CPU/Memory.cpp:47-54 | the intended allocation: the data is copied exactly when the buffer has some and the allocation succeeds, and only to the address returned |
| GlobalMemory.DeviceAllocAgrees | lib/Device/CPU/Memory.cpp:47-54 | the two agree exactly when the buffer has no initialisation data or the allocation succeeds |
| Footprint.IntBytes | lib/Passes/FootprintEstimator.cpp:153-160 | an integer's width rounded up to whole bytes: enough bytes for its bits, and one fewer would not be |
| Footprint.SizeLowerBound | lib/Passes/FootprintEstimator.cpp:138-196 | an unsized type counts no bytes |
| Footprint.SumBytesAppend | lib/Passes/FootprintEstimator.cpp:165-173 | the bytes of two lists of types add up |
| Footprint.SumBytesRepeat | lib/Passes/FootprintEstimator.cpp:176-187 | `n` copies of a list of types take `n` times its bytes |
| Footprint.SizeIsSumOfLeaves | lib/Passes/FootprintEstimator.cpp:138-196 | the size estimate of a sized type is the sum of the sizes of the primitive, integer and pointer types it is made of, each array and vector element counted as often as it repeats |
| Footprint.FieldsAreSumOfLeaves | lib/Passes/FootprintEstimator.cpp:163-174 | a structure's estimate is the sum over the leaves of its fields |
| Footprint.MaxWorkGroupSize | include/opencrun/Passes/FootprintEstimate.h:21-35 | without private memory use every byte counts as a work-item; otherwise as many work-items as fit in the available private memory and no more |
| Footprint.EstimatorStep | lib/Passes/FootprintEstimator.cpp:98-136 | an indirect or non-external call, or an alloca of unknown count, is refused and adds nothing; an alloca adds its count times its type's size to private memory; any other instruction adds its value's size to temporary memory |
| Footprint.AnalyzeKernel | lib/Passes/FootprintEstimator.cpp:80-96 | the footprint is kept exactly when no instruction is refused, and it is then the private and temporary sums over the body |
| Footprint.SumsStep | lib/Passes/FootprintEstimator.cpp:85-89 | one more instruction adds its own private and temporary sizes to the sums |
| Footprint.RunOnModule | lib/Passes/FootprintEstimator.cpp:19-34 | footprints are kept for exactly the selected kernels whose bodies are well formed, and each is the expected footprint of its kernel |
| Footprint.EstimateStep | lib/Passes/FootprintEstimate.cpp:61-92 | the function pass counts each instruction as the module pass does, local memory never changes, and a refused instruction is skipped rather than ending the walk |
| Footprint.EstimateBodySums | lib/Passes/FootprintEstimate.cpp:20-21 | the function pass adds the body's private and temporary sums to its counters |
| Footprint.SumsFront | lib/Passes/FootprintEstimate.cpp:20-21 | the sums over a body are the first instruction's share plus the sums over the rest |
| Footprint.RunOnFunction | lib/Passes/FootprintEstimate.cpp:16-25 | functions that are not kernels, or not the kernel asked for, leave the counters alone; otherwise the counters only grow and local memory never changes |
| Footprint.RunOnFunctions | lib/Passes/FootprintEstimate.cpp:16-25 | running over every function leaves local memory as it was |
| Footprint.LocalAlwaysZero | include/opencrun/Passes/FootprintEstimate.h:16-18 | the local memory usage a run reports is always zero |
| Footprint.PassesAgree | lib/Passes/FootprintEstimate.cpp:16-25 | on a listed kernel the function pass counts the body's private and temporary sums, and when the kernel is well formed that is the module pass's footprint |
| Inliner.CalleesOf | lib/Passes/AggressiveInliner.cpp:49-56 | the call-graph edges out of a node: the external calling node (the null function's) calls exactly the functions with external linkage; a declaration that is not an intrinsic calls only the calls-external node, an intrinsic nothing; every named callee is a function of the module |
| Inliner.Exported | lib/Passes/AggressiveInliner.cpp:49-56 | the external calling node's edges lead exactly to the functions with external linkage |
| Inliner.CallEdges | lib/Passes/AggressiveInliner.cpp:49-56 | the edges of a body name functions of the module that are not intrinsics, and lead to the calls-external node exactly when the body has an indirect call |
| Inliner.RootReachable | lib/Passes/AggressiveInliner.cpp:37-44 | every root is reachable |
| Inliner.CalleeReachable | lib/Passes/AggressiveInliner.cpp:47-59 | a callee of a reachable function is reachable |
| Inliner.ClosedHoldsReachable | lib/Passes/AggressiveInliner.cpp:47-59 | a set of functions holding the roots and closed under calls holds every reachable function |
| Inliner.PushUnvisited | lib/Passes/AggressiveInliner.cpp:51-56 | the pushed functions go on top of the stack, are callees not yet visited, and every callee ends up visited or on the stack |
| Inliner.Explore | lib/Passes/AggressiveInliner.cpp:46-59 | the worklist walk visits exactly the functions reachable from the roots |
| Inliner.DoInitialization | lib/Passes/AggressiveInliner.cpp:28-67 | the visited nodes are exactly those reachable from the selected kernels, and the functions not to visit are the defined functions outside them |
| Inliner.Nodes | lib/Passes/AggressiveInliner.cpp:47-59 | the nodes the walk can meet: the null function's and one per function, closed under call edges |
| Inliner.Roots | lib/Passes/AggressiveInliner.cpp:37-44 | the roots are the nodes of the selected kernels, in order |
| Inliner.ExternalReachesExported | lib/Passes/AggressiveInliner.cpp:47-59 | once the walk reaches the null function's node, every function with external linkage is reachable, whoever calls it |
| Inliner.DeclarationReachesExternal | lib/Passes/AggressiveInliner.cpp:49-56 | reaching a declaration that is not an intrinsic reaches the null function's node |
| Inliner.IndirectCallReachesExternal | lib/Passes/AggressiveInliner.cpp:49-56 | reaching a function with an indirect call reaches the null function's node |
| Inliner.Unvisited | lib/Passes/AggressiveInliner.cpp:61-64 | a function is not to be visited exactly when the module defines it and the walk did not reach it |
| Inliner.InlineCost | include/opencrun/Passes/AggressiveInliner.h:32-38 | a call is never inlined exactly when its caller or its callee is not to be visited, and always inlined otherwise |
| Inliner.ReachableCallsInlined | include/opencrun/Passes/AggressiveInliner.h:32-38 | after initialisation every call between functions reachable from the kernels is always inlined |
| Inliner.NoSelfCall | lib/Passes/AggressiveInliner.cpp:18-19 | the flag survives the scan exactly when it was set and the node does not call itself |
| Inliner.RunOnSCC | lib/Passes/AggressiveInliner.cpp:10-26 | a component is inlined exactly when everything so far was, it has one function and that function does not call itself; the flag keeps the answer |
| Inliner.RunOnSCCs | lib/Passes/AggressiveInliner.cpp:10-26 | one answer per component |
| Inliner.InlinedIffNoRecursionSoFar | lib/Passes/AggressiveInliner.cpp:10-26 | a component is inlined exactly when neither it nor any component before it is recursive |
| Inliner.NothingAfterClear | lib/Passes/AggressiveInliner.cpp:22-23 | once the flag is cleared no later component is inlined |
| ManagedMatrix.New1 | utils/OCLBench/include/oclbench/DataTypes.h:21-23 | a one-dimensional matrix has one size and a block of that many elements |
| ManagedMatrix.New2 | utils/OCLBench/include/oclbench/DataTypes.h:25-28 | a two-dimensional matrix has its two sizes and a block of their product |
| ManagedMatrix.GetNVolume | utils/OCLBench/include/oclbench/DataTypes.h:114-121 | the volume loop returns the product of all the sizes |
| ManagedMatrix.GetMemSize | utils/OCLBench/include/oclbench/DataTypes.h:110-112 | the memory size is the number of elements in the block times the element size |
| ManagedMatrix.GetSize | utils/OCLBench/include/oclbench/DataTypes.h:103-108 | the size of a dimension the matrix has; any other index throws `out_of_range` with `ManagedMatrix` and the index |
| ManagedMatrix.FirstSizeMismatch | utils/OCLBench/include/oclbench/DataTypes.h:55-57 | the comparison stops at the first dimension whose sizes differ, and all earlier ones agree |
| ManagedMatrix.EqualIff | utils/OCLBench/include/oclbench/DataTypes.h:51-60 | two matrices compare equal exactly when they have the same sizes and the same elements |
| ManagedMatrix.Copy | utils/OCLBench/include/oclbench/DataTypes.h:30-35 | the copy of a well-formed matrix is well formed |
| ManagedMatrix.Assign | utils/OCLBench/include/oclbench/DataTypes.h:37-47 | after an assignment the target is well formed, has the source's sizes and holds every one of the source's elements, also when the two are the same object |
| ManagedMatrix.CopyIsDeep | utils/OCLBench/include/oclbench/DataTypes.h:30-48 | a copy equals its source and compares equal to it, and an assignment leaves the target equal to the source, also when the two are the same object |
| ManagedMatrix.ConstOffsetAsWritten | utils/OCLBench/include/oclbench/DataTypes.h:139-141 | as written, the const accessor uses the size of dimension `I` as the stride and throws for any row past the second |
| ManagedMatrix.ConstOffset | utils/OCLBench/include/oclbench/DataTypes.h:139-145 | as intended, the const accessor reads the same element as the mutable one |
| ManagedMatrix.MutableOffsetsRowMajor | utils/OCLBench/include/oclbench/DataTypes.h:143-145 | on a square matrix each index pair reads inside the block and no two pairs read the same element |
| ManagedMatrix.RowBelow | utils/OCLBench/include/oclbench/DataTypes.h:143-145 | every position of a row lies before the start of any later row |
| ManagedMatrix.ConstAccessorThrows | utils/OCLBench/include/oclbench/DataTypes.h:139-145 | on a 3 x 3 matrix the const accessor as written throws `ManagedMatrix 2` for the third row, where the mutable one reads element 6 |
| ManagedMatrix.ConstAgreesOnFirstRows | utils/OCLBench/include/oclbench/DataTypes.h:139-145 | on the first two rows of a square matrix the two accessors agree |

## Left out

- The command-line front end of `create_gen_lib.py` (argument parsing and file handling). It is I/O around the generator, which is modelled. `Math.py` is modelled only as the source of its `acos` vector prototypes.
- Threads, locks and blocking. `Wait`, `Finish` and `Flush` are not modelled, and neither are the worker threads of the CPU device. A queue is a value, and the scheduler is a function of it.
- LLVM and clang: JIT compilation, the module linker and the pass managers. The compiler is a parameter of `Program.BuildOn`. The IR is a small datatype holding the parts the passes inspect.
- Program.BuildOn: the compiler's diagnostics and the build log text are not modelled. Only whether compilation produced a module is.
- Floating point: `Time::AsDouble`, `ftostr`, the printed accuracy of the footprint estimate, and the arithmetic bodies of the generated builtins. The generated text is modelled; what the generated code computes is not.
- SysTime: the rendering of a time as text takes the shown string as a parameter, because it formats a double.
- Profiler: the clock and the environment lookup are parameters. The sampling spec is the environment variable's text.
- The discovery of the hardware topology from sysfs, and the operating system's memory allocator. The parsers receive file contents as strings. `GlobalMemory` allocation takes the address the system would hand back as a parameter.
- The thin API entry points that only forward to the core: the `clRetain*`/`clRelease*` calls, `clGetPlatformIDs` and `clGetPlatformInfo`.
- Context: `CreateHostBuffer` and `CreateHostAccessibleBuffer` return a null buffer in the source, so the model produces none for those kinds.
- GenTypes.Vectors: the optional list of widths of `vectors` is not modelled; every call in the math catalogue uses the default widths 2, 3, 4, 8 and 16.
- NDRange.New: the null-kernel check is not modelled, because the source dereferences the kernel before it could report one.
- NDRange.SetLocalWorkSize requires nonzero local sizes, because the source divides the global sizes by them without a check.
- NDRange.SetLocalWorkSizeAsWritten requires nonzero local sizes for the same reason.
- NDRange.Readable: after the constructor stops at a bad global size, the source's offset and local-size setters still loop to the recorded dimension count and read global sizes past the end of the list, which is undefined behaviour; the model reads only the dimensions that have a global size.
- Kernel.SetArg: an argument that is not a buffer reaches `llvm_unreachable` in the source. Here it is a failure.
- Kernel: `RequireWorkGroupSizes` and `AreAllArgsSpecified` are stubs in the source. Here they are fields of the kernel.
- Metadata.TypeDone: the source's `llvm_unreachable` cases ("Type not specified", "Unknown type") are failures here.
- Metadata.GetBuiltin: "Unknown builtin" is `llvm_unreachable` in the source and a failure here. The source's signature check is a stub that always accepts, so it is not modelled.
- OclEmitter.Implementation: a builtin whose return type is not a vector, but whose specifier asks for one, reaches `llvm_unreachable` in the source. Here it is an `Unreachable` error.
- DimensionInfo: the iterator in the implementation calls accessors that the header does not declare, because the two files come from different versions. The iterator therefore takes the per-dimension sizes as sequences.
- Metadata.KernelsFrom: the header's kernel iterator and the implementation come from different versions. The iterator is modelled over the named metadata as the header walks it.
- ManagedMatrix.MutableOffsetsRowMajor requires a square matrix. The mutable accessor strides by the size of the first dimension, which is row-major only when both sizes agree.
- Integer widths in general: counts, sizes and identifiers are unbounded naturals. `size_t` wrap-around is written out only in the bound checks where it changes the outcome (`Command.SetCopyAreaAsWritten`, `NDRange.SetGlobalWorkOffsetAsWritten`) and in the 64-bit size parsing of `SimpleParser`. The builders used by the rest of the model (`Command.SetCopyArea`, `NDRange.SetGlobalWorkOffset`) compare exact sums.
- OclBuiltin.FindByName: the source walks a `std::map` keyed by record pointers, so which of several same-named types it finds depends on allocation addresses. The model walks the table in build order.
- OclBuiltin.SpecializationsCount: the source reads the first entry of a `std::map` keyed by type pointers, whose order depends on allocation addresses. The model takes the first binding in mapping-list order; the two agree whenever all non-empty lists have the same length, as the source's comment assumes.
- Metadata.KernelsFrom: an `opencl.kernels` entry whose first operand is not a function fails a checked cast in the source (an assertion in debug builds). The model skips such an entry.
- SimpleParser: the system files are read through a buffer capped at 2 KiB (`lib/System/Hardware.cpp:142`). The parsers receive the whole text, so content past that size is not cut off here.
- Inliner: the IR records one linkage bit per function. The external calling node therefore calls the functions with external linkage only, not every function without local linkage, and address-taken functions are not tracked.
- Inliner: `doFinalization` hands the functions not to visit to LLVM's `removeDeadFunctions`, which is code outside this model.
- Inliner.RunOnSCCs: the scan flag the source uses is not declared by the class (see Findings), so the starting value is a parameter. `InlinedIffNoRecursionSoFar` states the answer from a set flag and `NothingAfterClear` from a cleared one.
- Context.CreateDeviceBuffer: follows the intended device allocation. When a device refuses a buffer with initialisation data, the source first copies the data to the null address, which is undefined behaviour (see Findings). The model reports `CL_OUT_OF_RESOURCES` as the rollback would. Buffer contents are not modelled.

## Findings

| source | as written | input that shows it | evidently intended | confidence | as-written member | corrected member |
|---|---|---|---|---|---|---|
| utils/oclgen/create_gen_lib.py:31-35 | the error message puts the `@` marker at the start of the line when nothing of the line is left after the failure point | the stream `gentype f(` with the whole line consumed gives `@gentype f(` | the marker sits where parsing stopped | not executed | GenErrors.ParseMessageAsWrittenMisplacesMarker | GenErrors.ParseMessageMarksFailurePoint |
| lib/Core/Command.cpp:422 | the local work size recorded for dimension `I` is the index `I` itself | any launch given local sizes records `0` as the local size of dimension 0, so the command counts as having no local size | the recorded size is `LocalWorkSizes[I]` | not executed | NDRange.LocalSizeLostAsWritten | NDRange.LocalSizeKept |
| lib/System/Hardware.cpp:655-663 | `llc_back` keeps the first position while the loop walks to the end, so it returns the front | a node with last-level caches `[1, 2]` gives `1` | the last cache, `2` | not executed | HardwareGraph.LlcBackDiverges | HardwareGraph.LlcBack |
| utils/OCLBench/include/oclbench/DataTypes.h:139-141 | the const `operator()(I, J)` strides by `GetSize(I)` | a 3 x 3 matrix read at row 2 throws `out_of_range` | the stride of the mutable accessor, `GetSize(0)` | not executed | ManagedMatrix.ConstAccessorThrows | ManagedMatrix.ConstOffset |
| include/opencrun/System/Time.h:45-47 | subtraction takes seconds and nanoseconds apart with no borrow | 2.1 s minus 1.9 s gives 1 s and -800000000 ns, which is not a valid time | 0 s and 200000000 ns | not executed | SysTime.BorrowExample | SysTime.SubElapsed |
| lib/Core/Command.cpp:215 | the bounds check adds `Offset + Size` in `size_t`, which wraps | offset 2^64 - 1 and size 2 against a 16-byte buffer pass the check | the area is refused, since it extends past the buffer | not executed | Command.CopyAreaWrapsAsWritten | Command.SetCopyArea |
| lib/Core/Command.cpp:382 | the offset check adds `GlobalWorkOffsets[I] + GlobalWorkSizes[I]` in `size_t`, which wraps | a one-dimensional launch of global size `g` with offset `2^64 - g` passes the check, since the sum wraps to 0 | the offset is refused with `CL_INVALID_GLOBAL_OFFSET`, since the work items would lie past the `size_t` range | not executed | NDRange.OffsetWrapsAsWritten | NDRange.SetGlobalWorkOffset |
| include/opencrun/Passes/AggressiveInliner.h:20-23 | `runOnSCC` reads and writes a flag `AllInlined` that the class does not declare; the flag it declares, `NotAForest`, starts false, is never updated, and is what `IsAllInlined` returns | read as `NotAForest`, any module: the flag is already clear at the first component, so no component is inlined and `IsAllInlined` reports false | the flag starts set and is cleared at the first recursive component | not executed | Inliner.NothingAfterClear | Inliner.InlinedIffNoRecursionSoFar |
| lib/Device/CPU/Memory.cpp:47-54 | allocating a device buffer copies its initialisation data to the address the allocation returned without checking it, and a refused allocation returns null | `clCreateBuffer` with `CL_MEM_COPY_HOST_PTR` and a size larger than the memory still available on the CPU device copies the host data to address 0 before `Context::CreateDeviceBuffer` rolls back | the data is copied only after a successful allocation, and the call fails with `CL_OUT_OF_RESOURCES` | not executed | Context.RefusalCopiesToNullAsWritten | GlobalMemory.AllocDeviceBuffer |
| lib/Util/DimensionInfo.cpp:10-19 | the work-group number counts the last dimension's group index in units and weighs every other dimension's group index by that dimension's local size | a launch of 2 x 2 work-items in groups of 1 x 1: groups (1, 0) and (0, 1) both get number 1, and that number is the identifier of the CPU command running the group | each group gets its own number, the group indices read in mixed radix over the group counts | not executed | DimensionInfo.WorkGroupNumberCollides | DimensionInfo.GroupIndex |
