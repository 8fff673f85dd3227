# ModernOPC: a verified model of its type generator, node ids and server bookkeeping

ModernOPC wraps the C library open62541. This project models the parts of the repository that hold algorithms or state of their own, and proves what they promise over all inputs and all runs.

* **Type generator** (`TypeModel`, `TypeTable`, `DependencyGraph`, `Ordering`, `Termination`, `Emission`, `CodeText`, `HeaderCode`, `ConversionCode`, `Nesting`, `TextNesting`, `Output`, `RunText`, `TypeGenerator`). A map of OPC UA data types is turned into C++ text. The generator orders a type's dependencies with a post-order walk that remembers nothing, then replays that order through a set of written types that lives as long as the generator. The class `TypeGenerator.TypeGenerator` keeps the order, the written set and the two streams as fields and appends in place; its invariant ties them to the whole history of calls. A stream is the sequence of pieces inserted into it; `Nesting.Characters` gives its text. What the text means is stated apart from how it is written: the header's members and ordinals are read back by parsers, the conversion code is the text of a small program whose execution is defined, and the bodies of a whole run are read off both streams.
* **Node ids** (`Decimal`, `NodeIdText`, `GuidHash`, `OpcNodeId`, `NodeIdExchange`). The text form and its parser, the Guid hash on 64-bit words, the printer for four identifier kinds, and the conversion to and from the C structure. The text form `ns=<index>;<type>=<value>` is that of OPC 10000-6, section 5.3.1.10; Guids are printed by this code as eleven decimal numbers instead.
* **Server bookkeeping** (`HandleRegistry`, `Server`). Three caches of node handles in front of the C server's address space, and the raw pointers the C server keeps into objects that the handles own.
* **Events** (`Events`). A field list that only grows and is replayed into a fresh event node.
* **Manual memory** (`CustomTypes`, `VariantCells`). The destructor walk over custom data types, and the owned or borrowed cells behind `Variant` with what they hold.
* **Method calls** (`MethodCall`). Reading typed arguments from variants, applying the function, writing the results, and the declared argument descriptors.

Calls into open62541 are contracts: adding a node fails on an id that exists and may fail for any other reason; nodes are never removed and keep their class; setting the context of an unknown node does nothing; a numeric identifier 0 asks the server to choose the id; `UA_STRING` and `UA_BYTESTRING` measure a C string. Which other requests the server accepts, the id it chooses, whether it creates an event node, the time, allocation addresses, path resolution and write acceptance are parameters.

Results that say where the code does *not* keep a promise, with the exact condition under which it does:

* The ordering walk has no cycle check. It ends exactly when it enters no cycle of structs, where a field is entered when everything below the fields before it is in order (`Termination.EndsIffNoEnteredCycle`); it ends with success exactly when neither a cycle nor an absent type is reachable (`Termination.EndsWellIffOrderable`).
* The order can be exponentially longer than the list of written types: for every n there is a type for which 2^n - 1 entries are ordered and n types written (`Emission.ChainWritesEachOnce`). A first call writes its order as it is exactly when no struct or enum is reached along two different field paths (`Emission.OrderIsWrittenIff`).
* The Guid hash is not injective. It tells apart all byte strings that differ only inside n consecutive positions exactly when n is at most six (`GuidHash.SixIsTheLimit`).
* The generated class and the generated conversion of a struct fit together exactly when no field has rank 0: such a field is declared as a vector and converted as a single value (`ConversionCode.StructFunctionsConvert`).
* The generated conversion of an enum to its C type compiles exactly when no literal has a known type, and then returns a variable that was never set (`ConversionCode.EnumFunctionsConvert`).
* Single members and array elements of one type are converted alike exactly when it is not a struct with a numeric id up to 11, in whatever namespace (`ConversionCode.ConvertedAlikeIff`).
* The short text form `s=<v>` is read like `ns=0;s=<v>` exactly when `v` is not empty and has no `;` (`NodeIdText.ShortTextForm`).
* A text id survives the trip through the C form exactly when it has no NUL (`OpcNodeId.ToUaAndBack`).
* Creating a node with the id that leaves the choice to the server registers the handle under an id no node has; the caches agree with the address space exactly for the other ids (`HandleRegistry.CreateAgreesIff`).
* Rebinding a method frees the old callable before the server is told; that moment is safe exactly when the node did not point to the old callable (`HandleRegistry.RebindingCallableGap`), which, unless two registered ids name the same node, is when the handle had not bound anything (`HandleRegistry.RebindingIsSafeIffUnbound`). Data sources have no such gap.
* Setting an event triggers something even when the event node could not be created; what is triggered is sure to name the object as its source when the node was created and has a source property that takes the id, and in general only then (`Events.SourceIsCurrentObject`).
* Copy-assigning to a `Variant` keeps single ownership exactly when the target owns its cell (`VariantCells.StepKeepsDisciplineIff`). An owner then holds what the source held exactly when they are different objects or the source is empty (`VariantCells.CopyAssignGivesIff`).
* An object created with the id that leaves the choice to the server never gets its context (`HandleRegistry.CreateChosenEffect`).
* Method inputs are always declared scalar, which fits exactly the parameters that are not vectors (`MethodCall.InputIsAsDeclaredIff`).

`dafny verify dfyconfig.toml` checks the whole project.

## Model

| member | source | states |
|---|---|---|
| TypeTable.FirstDefinitionWins | TypeGenerator/backend.cpp:17-54 | over any sequence of loaded nodes the first definition of an id is the one kept |
| TypeTable.InsertionsKeep | TypeGenerator/backend.cpp:38-51 | every entry sits under its own id, old entries stay, nothing else is added |
| TypeTable.TypeTable.constructor | TypeGenerator/main.cpp:33-80 | the first table has exactly the sixteen built-in types, each under the number and with the C++ name that belong together |
| TypeTable.TypeTable.AddNode | TypeGenerator/backend.cpp:17-54 | a data type node whose id is free adds exactly its description: name, id, enum or struct, and name, rank, type and value of each field in order; other nodes add nothing |
| DependencyGraph.EnteredPathLength | TypeGenerator/TypeGenerator.h:234-255 | pigeonhole: where no cycle is entered, a path of entered structs is at most as long as there are structs |
| DependencyGraph.RankDrops | TypeGenerator/TypeGenerator.h:234-255 | entering a field lowers the rank that bounds the recursion, and enters no cycle |
| DependencyGraph.OrderableStep | TypeGenerator/TypeGenerator.h:234-255 | neither a cycle nor an absent type is reachable from a type exactly when that holds for all types its fields name |
| DependencyGraph.ReachesStep | TypeGenerator/TypeGenerator.h:236-246 | reachability, defined by paths, unfolds at the first field |
| DependencyGraph.NotItsOwnDependency | TypeGenerator/TypeGenerator.h:234-255 | a struct from which no cycle is reachable is not reachable from its own fields |
| Ordering.OkIffNothingMissing | TypeGenerator/TypeGenerator.h:234-255 | ordering fails exactly when some reachable struct has a field whose type is absent |
| Ordering.ListsExactlyReachable | TypeGenerator/TypeGenerator.h:228-255 | a successful order lists exactly the reachable structs and enums |
| Ordering.WalkDefinesBeforeUse | TypeGenerator/TypeGenerator.h:228-255 | in the order every type comes after all types its fields name |
| Ordering.FieldPathsComplete | TypeGenerator/TypeGenerator.h:234-255 | below a type that can be ordered, the enumeration of field paths has no repetition and misses none that ends in a struct or enum |
| Ordering.OrderFollowsFieldPaths | TypeGenerator/TypeGenerator.h:228-255 | the order has exactly one entry per field path ending in a struct or enum, and the entry is the type that the path leads to |
| Ordering.OrderIsDistinctIff | TypeGenerator/TypeGenerator.h:228-255 | the order repeats nothing exactly when no struct or enum is reached along two different field paths |
| Ordering.ChainExists | TypeGenerator/TypeGenerator.h:234-255 | there is a chain of n structs with two fields of the next, for every n |
| Ordering.ChainOrderIsExponential | TypeGenerator/TypeGenerator.h:234-255 | on a chain of n structs with two fields of the next the order has 2^n - 1 entries |
| Termination.RankSuffices | TypeGenerator/TypeGenerator.h:234-255 | the walk bounded in the structs it may have open, early exits included, is the walk as soon as the bound is the rank, which is at most the number of structs |
| Termination.EndsIffNoEnteredCycle | TypeGenerator/TypeGenerator.h:234-255 | for every type of the map the walk ends, by success or failure, exactly when it enters no cycle |
| Termination.EndsWellIffOrderable | TypeGenerator/TypeGenerator.h:234-255 | it ends with success exactly when neither a cycle nor an absent type is reachable |
| Termination.SelfReferenceNeverEnds | TypeGenerator/TypeGenerator.h:234-255 | a struct with a field of its own type is ordered within no number of open structs |
| Termination.AbsentTypeShieldsCycle | TypeGenerator/TypeGenerator.h:242-252 | with a field of an absent type before that one it fails at once, although the cycle is reachable |
| Emission.FreshMembers | TypeGenerator/TypeGenerator.h:342-351 | the replay keeps each new entry once and drops what is written |
| Emission.FreshKeepsDefinedBeforeUse | TypeGenerator/TypeGenerator.h:342-351 | dropping repeats and written types keeps definitions before uses |
| Emission.WalkRefinesSearch | TypeGenerator/TypeGenerator.h:228-255 | the unmemoised walk filtered by the written set equals a depth-first search with a visited set |
| Emission.WritesKeepsSound | TypeGenerator/TypeGenerator.h:330-352 | one call writes what that search finds and keeps the written list sound |
| Emission.RunIsOneSearch | TypeGenerator/TypeGenerator.h:330-352 | over any calls: each type at most once, after its dependencies, a closed set, exactly what good roots reach, in the order of one search whose visited set spans all calls |
| Emission.WrittenSetIgnoresCallOrder | TypeGenerator/TypeGenerator.h:330-352 | the written set depends only on which roots were asked for |
| Emission.FailedCallsLeaveNoTrace | TypeGenerator/TypeGenerator.h:333-339 | removing the failing calls from a run changes nothing that is written |
| Emission.ChainWritesEachOnce | TypeGenerator/TypeGenerator.h:342-351 | for every n there is a type for which 2^n - 1 entries are ordered and n types written |
| Emission.OrderIsWrittenIff | TypeGenerator/TypeGenerator.h:330-352 | a first call writes as many types as it orders, and then in that order, exactly when there is one field path to each |
| Output.OrderedIsWritable | TypeGenerator/TypeGenerator.h:87-115 | after a successful ordering every lookup made while writing a struct finds its type |
| Output.NoUnknownMember | TypeGenerator/TypeGenerator.h:189-215 | no struct written in any run gets the unknown-type member |
| Output.FailedCallsWriteNothing | TypeGenerator/TypeGenerator.h:333-339 | over any run both streams are those of the successful calls alone |
| Output.DepthOneBetweenTypes | TypeGenerator/TypeGenerator.h:342-351 | between any two written types exactly the namespace brace is open in both streams |
| Output.FinishedTextIsWellNested | TypeGenerator/TypeGenerator.h:257-267 | the finished header and implementation texts are well nested over all three bracket kinds when the names in the text of the written types carry no bracket |
| HeaderCode.ReadMembersOf | TypeGenerator/TypeGenerator.h:189-215 | the member text of a struct is read back as its fields in order, a vector exactly for rank 0 and above; it can be read exactly when all types are known |
| HeaderCode.ReadOrdinalsOf | TypeGenerator/TypeGenerator.h:217-226 | the body of an enum is read back as its literals in order, in upper case, with their values |
| HeaderCode.StructLayout | TypeGenerator/types/EnumDataType.cpp:17-25 | a struct becomes a class with its two functions as friends and its members inside, followed by its entry of the type table |
| HeaderCode.EnumLayout | TypeGenerator/types/EnumDataType.cpp:7-15 | an enum becomes an enum class with its ordinals inside, followed by the declarations of its two functions |
| HeaderCode.UpperIsUpper | TypeGenerator/ConversionFrom.h:9-18 | upper case changes nothing but the case of letters and leaves none small |
| HeaderCode.FirstToLowIsLow | TypeGenerator/ConversionFrom.h:20-24 | a member name differs from the field name in the case of its first letter only |
| ConversionCode.FieldsText | TypeGenerator/TypeGenerator.h:85-115 | the statements written for the fields are the text of the fields' programs in order |
| ConversionCode.BodiesText | TypeGenerator/TypeGenerator.h:117-187 | both function bodies of a type are the text of their programs |
| ConversionCode.ImplLayout | TypeGenerator/TypeGenerator.h:117-187 | the implementation of a type is its two functions, as the header declares them, with these bodies |
| ConversionCode.DeclaredVectorIff | TypeGenerator/TypeGenerator.h:198-208 | the generated class declares a member as a vector exactly for rank 0 and above |
| ConversionCode.FieldProgramConverts | TypeGenerator/TypeGenerator.h:85-115 | running a field's program on an object of the generated class converts exactly its member, all elements and the size of an array included, unless the field has rank 0 |
| ConversionCode.ProgramConvertsIff | TypeGenerator/TypeGenerator.h:147-150 | the program of all fields runs, and converts every member, exactly when no field has rank 0 |
| ConversionCode.StructFunctionsConvert | TypeGenerator/TypeGenerator.h:137-175 | the variant function of a struct stores under the struct's table entry what the other function returns, every member converted, exactly when no field has rank 0 |
| ConversionCode.EnumFunctionsConvert | TypeGenerator/TypeGenerator.h:117-187 | the variant function of an enum stores the cast value; the other one returns a variable of which nothing is set |
| ConversionCode.ConvertedAlikeIff | TypeGenerator/types/EnumDataType.cpp:51-72 | single members and array elements are converted alike except for structs with a numeric id up to 11 |
| RunText.BodiesOfRun | TypeGenerator/TypeGenerator.h:330-354 | the bodies in both streams of a run are, in order, that of the namespace and those of the types written, and no others |
| Nesting.CharactersConcat | TypeGenerator/TypeGenerator.h:269 | the text of a stream is that of its pieces one after the other |
| Nesting.ScanConcat | TypeGenerator/TypeGenerator.h:269 | reading text inserted piece after piece is reading the whole text |
| Nesting.ScanPiecesIsScan | TypeGenerator/TypeGenerator.h:29-187 | bracket reading of the inserted pieces is bracket reading of the characters |
| TextNesting.HeaderTextBalanced | TypeGenerator/types/EnumDataType.cpp:7-25 | a type's header text, with its body opened and closed by separate calls, closes what it opens |
| TextNesting.ImplTextBalanced | TypeGenerator/TypeGenerator.h:117-187 | a type's two conversion functions close what they open, whatever the fields |
| TextNesting.ArrayFieldBalanced | TypeGenerator/TypeGenerator.h:92-109 | the generated array loop closes what it opens, for base, enum and struct elements |
| TypeGenerator.TypeGenerator.constructor | TypeGenerator/TypeGenerator.h:18-27 | a new generator has written nothing but its namespace opening |
| TypeGenerator.TypeGenerator.BuildOrder | TypeGenerator/TypeGenerator.h:228-232 | appends what the walk lists, its verdict likewise, within the given number of nested calls |
| TypeGenerator.TypeGenerator.BuildStructOrder | TypeGenerator/TypeGenerator.h:234-255 | the field loop with its early exits appends exactly the walk's list, a partial one on failure |
| TypeGenerator.TypeGenerator.AddPrivateMember | TypeGenerator/TypeGenerator.h:189-215 | one member per field in order |
| TypeGenerator.TypeGenerator.AddStructConversions | TypeGenerator/TypeGenerator.h:147-150 | one conversion per field in order |
| TypeGenerator.TypeGenerator.AddEnumConversions | TypeGenerator/TypeGenerator.h:126-129 | one conversion per literal whose type is known |
| TypeGenerator.TypeGenerator.AddToVariantImpl | TypeGenerator/TypeGenerator.h:159-187 | writes the variant conversion function of a struct or enum |
| TypeGenerator.TypeGenerator.AddFromConversionImpl | TypeGenerator/TypeGenerator.h:117-157 | writes the C conversion function of a struct or enum |
| TypeGenerator.TypeGenerator.AddHeaderText | TypeGenerator/types/EnumDataType.cpp:7-25 | open, fill, close and follow-up of the header part |
| TypeGenerator.TypeGenerator.Generate | TypeGenerator/types/EnumDataType.cpp:7-25 | a struct or enum adds its header and implementation text, a base type nothing |
| TypeGenerator.TypeGenerator.WriteOrdered | TypeGenerator/TypeGenerator.h:342-351 | the replay writes exactly the new types of the order and records them |
| TypeGenerator.TypeGenerator.GenerateClass | TypeGenerator/TypeGenerator.h:330-352 | appends the include lines and the text of the new types; keeps the streams and the written set equal to those of the whole call history, sound, and untouched by a failing call |
| TypeGenerator.TypeGenerator.Finish | TypeGenerator/TypeGenerator.h:354 | closes the namespace and leaves well-nested texts when names carry no bracket |
| TypeGenerator.RankBelowStructCount | TypeGenerator/TypeGenerator.h:234-255 | the number of structs plus one nested calls always suffice |
| TypeGenerator.FailureStops | TypeGenerator/TypeGenerator.h:242-251 | after the first failing field nothing more is appended |
| Decimal.ValueOfPrint | TypeGenerator/NodeId.cpp:12-17 | a printed number read as decimal gives the number back |
| Decimal.PrintDecodes | modernopc/src/types/NodeId.cpp:113-119 | a printed number followed by a non-digit is uniquely decodable |
| Decimal.PrintIntDecodes | modernopc/src/types/NodeId.cpp:102-104 | the same for signed numbers |
| NodeIdText.ExtractLongForm | TypeGenerator/conversion.h:25-43 | the long form is read field by field, for any value, also one with `;` in it |
| NodeIdText.AtoiOfPrinted | TypeGenerator/conversion.h:32 | `atoi` on a printed 32-bit number with a non-digit behind it gives the number, the minimum included |
| NodeIdText.AtoiReads | TypeGenerator/conversion.h:16-41 | `atoi` skips white space, takes one sign and digits, and ignores the rest |
| NodeIdText.NamespaceWraps | TypeGenerator/conversion.h:30-42 | a namespace index beyond 16 bits wraps |
| NodeIdText.NullAndShortText | TypeGenerator/conversion.h:6-13 | the null pointer and text shorter than three characters give the null id |
| NodeIdText.TextThatEndsEarly | TypeGenerator/conversion.h:25-43 | text that ends at its first semicolon gives the null id; one letter later it is read past its end when the letter announces a value |
| NodeIdText.ExtractOfPrint | TypeGenerator/conversion.h:6-45 | parsing a printed id gives the id, for every namespace, 32-bit number and NUL-free text |
| NodeIdText.ShortNumericForm | TypeGenerator/conversion.h:14-20 | `i=<v>` is read like `ns=0;i=<v>` for every `v` without `;` |
| NodeIdText.ShortTextForm | TypeGenerator/conversion.h:21-23 | `s=<v>` is read like `ns=0;s=<v>` exactly when `v` is not empty and has no `;` |
| NodeIdText.SemicolonBreaksShortForm | TypeGenerator/conversion.h:25-43 | a value for which the two text forms are read differently |
| GuidHash.ByteStringHash | modernopc/src/types/NodeId.cpp:166-175 | the loop computes the fold of one step per byte |
| GuidHash.XorUndoes | modernopc/src/types/NodeId.cpp:171 | exclusive or with the same byte twice is the identity |
| GuidHash.PrimeIsInvertible | modernopc/src/types/NodeId.cpp:165-172 | a multiple of the prime vanishes modulo 2^64 only when the factor does |
| GuidHash.StepIsInjective | modernopc/src/types/NodeId.cpp:171-172 | one step with the same byte keeps different words different |
| GuidHash.StepScales | modernopc/src/types/NodeId.cpp:171-172 | one step with any two bytes scales the distance of two words by the prime, give or take two bytes |
| GuidHash.NoSmallRelation | modernopc/src/types/NodeId.cpp:165-172 | no polynomial of degree five in the prime with coefficients of magnitude up to 510, the first not zero, vanishes modulo 2^64 |
| GuidHash.NoCollisionInsideWindow | modernopc/src/types/NodeId.cpp:166-175 | byte strings that differ only inside six consecutive positions never hash alike |
| GuidHash.SevenBytesCollide | modernopc/src/types/NodeId.cpp:166-175 | two strings of seven bytes that hash alike |
| GuidHash.SixIsTheLimit | modernopc/src/types/NodeId.cpp:166-175 | differences inside n consecutive positions never collide exactly when n is at most six |
| GuidHash.BytesDetermineGuid | modernopc/src/types/NodeId.cpp:182-186 | comparing the sixteen bytes is comparing the Guids |
| GuidHash.BytesOfGuidOf | modernopc/src/types/NodeId.cpp:177-180 | every sixteen bytes are those of a Guid |
| GuidHash.GuidsInWindowNeverCollide | modernopc/src/types/NodeId.cpp:177-180 | different Guids that differ only inside six consecutive bytes never hash alike |
| GuidHash.GuidsBeyondWindowCollide | modernopc/src/types/NodeId.cpp:177-180 | two Guids that differ only in their first seven bytes and hash alike |
| GuidHash.FieldsChangeHash | modernopc/src/types/NodeId.cpp:177-180 | changing the first two of the three leading fields, or the last two, always changes the hash |
| OpcNodeId.EqualIsSame | modernopc/src/types/NodeId.cpp:127-152 | `operator==` holds exactly for ids with the same namespace, kind and value |
| OpcNodeId.DashedDecodes | modernopc/src/types/NodeId.cpp:111-120 | the dash-separated numbers of a Guid are uniquely decodable |
| OpcNodeId.PrintIsInjective | modernopc/src/types/NodeId.cpp:96-125 | two ids print alike exactly when `operator==` holds |
| OpcNodeId.NumbersInDashed | modernopc/src/types/NodeId.cpp:111-120 | the numbers of a Guid are read back in order from between the dashes |
| OpcNodeId.PrintForm | modernopc/src/types/NodeId.cpp:96-125 | namespace, letter of the kind and value; a Guid shows its three leading fields and its eight bytes |
| NodeIdExchange.ExtractOfLibraryPrint | modernopc/src/types/NodeId.cpp:96-125 | the generator's parser reads what the library prints: numeric and text ids exactly, Guids and byte strings as the null id |
| OpcNodeId.ToUaKeepsKind | modernopc/src/types/NodeId.cpp:46-82 | the C form has the same namespace and kind, the number modulo 2^32, a prefix of the text |
| OpcNodeId.ToUaAndBack | modernopc/src/types/NodeId.cpp:46-82 | to the C form and back cuts text at its first NUL, and is the identity exactly on ids without one |
| OpcNodeId.FromUaAndBack | modernopc/src/types/NodeId.cpp:13-44 | from the C form and back is the identity on all numbers and Guids, and on text exactly when it has no NUL |
| OpcNodeId.FromUaIsInjective | modernopc/src/types/NodeId.cpp:13-44 | no two C ids of known kinds are read alike; unknown kinds are read as the null id |
| OpcNodeId.ToUaAgreesIff | modernopc/src/types/NodeId.cpp:46-82 | two ids name the same C node exactly when they agree up to the first NUL |
| HandleRegistry.InvariantGivesLiveness | modernopc/src/Server.cpp:383-394 | under the invariant no node keeps a pointer to freed memory |
| HandleRegistry.CallbackCastIsSafe | modernopc/src/Server.cpp:118-176 | what a callback casts its context from is null or a live object of that type |
| HandleRegistry.CreateKeeps | modernopc/src/Server.cpp:217-240 | creating with an ordinary id keeps the invariant and inserts the handle |
| HandleRegistry.GetKeeps | modernopc/src/Server.cpp:242-294 | looking up keeps the invariant |
| HandleRegistry.BindKeeps | modernopc/include/modernopc/nodes/MethodNode.h:17-23 | binding and rebinding a callable keeps the invariant |
| HandleRegistry.ConnectKeeps | modernopc/src/nodes/VariableNode.cpp:7-11 | connecting and replacing a data source keeps the invariant |
| HandleRegistry.RunKeepsInvariant | modernopc/src/Server.cpp:217-394 | every state of every run has the invariant and no dangling context |
| HandleRegistry.RunGrowsCaches | modernopc/src/Server.cpp:217-381 | a registered handle stays registered for the rest of the run |
| HandleRegistry.SameIdSameHandle | modernopc/src/Server.cpp:242-294 | once a creation or a lookup has given out a handle for an id, every later lookup of an equal id in the run gives the same one |
| HandleRegistry.CacheIsTransparent | modernopc/src/Server.cpp:242-381 | a lookup answers what the address space says, cached or not; an id is in at most one cache |
| HandleRegistry.CreatedIsRegistered | modernopc/src/Server.cpp:237-239 | the handle returned is the registered one |
| HandleRegistry.CreateEffect | modernopc/src/Server.cpp:217-240 | creation with an id of one's own succeeds exactly when the server accepts it and the node is new; it adds that node and one handle, and an object has the context it was created with |
| HandleRegistry.CreateChosenEffect | modernopc/src/Server.cpp:217-240 | with an id left to the server the node chosen is added, without a context |
| HandleRegistry.GetEffect | modernopc/src/Server.cpp:242-294 | a lookup changes nothing but its cache, and that only by a new handle |
| HandleRegistry.CreateAgreesIff | modernopc/src/Server.cpp:217-240 | after creating, the caches agree with the address space exactly when the requested id was not the one that leaves the choice to the server |
| HandleRegistry.ChosenIdIsNotRegistered | modernopc/src/Server.cpp:217-240 | a creation after which a handle is registered under an id no node has |
| HandleRegistry.RebindingSourceIsAlwaysLive | modernopc/src/nodes/VariableNode.cpp:9-10 | no node points to freed memory in any of the states that replacing a data source passes through |
| HandleRegistry.RebindingCallableGap | modernopc/include/modernopc/nodes/MethodNode.h:21-22 | of the three states that binding passes through, the first and the last are live, the second, when the old callable is freed and the server not yet told, exactly when the node did not point to the old one |
| HandleRegistry.RebindingIsSafeIffUnbound | modernopc/include/modernopc/nodes/MethodNode.h:21-22 | when no other registered id names the node, all is live at that moment exactly when the handle had bound nothing |
| HandleRegistry.StepKeepsConnected | modernopc/include/modernopc/nodes/MethodNode.h:17-23 | every operation but a binding under another id of the same node leaves the node pointing to what its handle owns |
| HandleRegistry.SecondBindingHasGap | modernopc/include/modernopc/nodes/MethodNode.h:21-22 | in any run, binding a method again, at any later moment, passes through a state with a dangling context, unless another id of the same node was bound in between |
| HandleRegistry.SecondBindingHappens | modernopc/include/modernopc/nodes/MethodNode.h:17-23 | a run from an empty server with such a second binding |
| Server.Server.constructor | modernopc/include/modernopc/Server.h:104-106 | a new server has empty caches |
| Server.Server.CreateObject | modernopc/src/Server.cpp:217-240 | succeeds exactly when accepted and new, and then adds the node with the given context; null on failure |
| Server.Server.CreateMethod | modernopc/src/Server.cpp:296-327 | likewise for methods, which get no context |
| Server.Server.CreateVariable | modernopc/src/Server.cpp:334-354 | likewise for variables |
| Server.Server.GetObject | modernopc/src/Server.cpp:242-267 | keeps the invariant and finds a handle exactly when the node exists with its class |
| Server.Server.GetMethod | modernopc/src/Server.cpp:269-294 | likewise for methods |
| Server.Server.GetVariable | modernopc/src/Server.cpp:356-381 | likewise for variables |
| Server.Server.BindCallable | modernopc/include/modernopc/nodes/MethodNode.h:17-23 | the node alone is changed to point to the new callable, which the handle owns; the old one is freed before the server is told |
| Server.Server.ConnectCallback | modernopc/src/nodes/VariableNode.cpp:7-11 | the node alone is changed to point to the new data source, which the handle owns; the old one is freed last and all is live throughout |
| Events.LastWriterWins | modernopc/src/nodes/ObjectNode.cpp:57-77 | each property ends with the last field that resolves to it and is accepted, or keeps its default |
| Events.DefaultsHold | modernopc/src/nodes/ObjectNode.cpp:45-71 | a new event has the given time, severity 100, the default message and the source name of the server, the rest as created |
| Events.InertFieldsDoNotMatter | modernopc/src/nodes/ObjectNode.cpp:61-67 | a field that does not resolve or is refused changes no property |
| Events.SourceIsCurrentObject | modernopc/src/nodes/ObjectNode.cpp:82-103 | after any history, what is triggered is sure to name the object the event is set on, by the C form of its id, when the event node was created and its source property takes that value; and only then, if initial values are ones their properties accept |
| Events.ReuseOnlyTouchesSource | modernopc/include/modernopc/events/BaseEventType.h:22-50 | setting an event on other objects before disturbs no property but the source |
| Events.ObjectNode.SetUpEvent | modernopc/src/nodes/ObjectNode.cpp:34-79 | fails without writing when the node is not created; otherwise defaults, then the fields in order, failing ones skipped |
| Events.ObjectNode.SetEvent | modernopc/src/nodes/ObjectNode.cpp:82-103 | records the source field in either case and triggers something in either case, sure to name this object when a node was created that takes the source, and in general only then |
| Events.Event.SetTransition | modernopc/include/modernopc/events/BaseEventType.h:64-74 | appends the transition and its id |
| CustomTypes.Memory.CleanupCustomTypes | modernopc/src/Server.cpp:22-51 | frees exactly the owned blocks, each once, in order, reading nothing freed |
| CustomTypes.Memory.FreeTypes | modernopc/src/Server.cpp:29-45 | frees what the types of one array own |
| CustomTypes.Memory.ClearNames | modernopc/src/Server.cpp:38-43 | frees and clears the owned member names, not the last one of a union |
| CustomTypes.OwnedByListExactly | modernopc/src/Server.cpp:22-51 | the freed blocks are exactly the nodes, type arrays, type names, member arrays and owned member names |
| CustomTypes.NodeAt | modernopc/src/Server.cpp:26-49 | freeing the earlier nodes leaves the next one as it was |
| VariantCells.StepKeepsDisciplineIff | modernopc/src/Variant.cpp:7-65 | every operation keeps single ownership, copy assignment exactly when its target owns its cell |
| VariantCells.BorrowerFreesServersCell | modernopc/src/Variant.cpp:34-44 | a borrowing object that is copy-assigned frees the cell it borrowed |
| VariantCells.RunIsDisciplined | modernopc/src/Variant.cpp:7-65 | runs that copy-assign only to owners never free twice and leave no cell behind |
| VariantCells.DestructorFreesOnce | modernopc/src/Variant.cpp:19-25 | a destructor frees a live cell that nothing else refers to |
| VariantCells.OwnersAfterMove | modernopc/src/Variant.cpp:46-65 | a move hands over the cell and changes no other owner |
| VariantCells.SlotsAfterMove | modernopc/src/Variant.cpp:46-65 | a move hands over the cell, owned or borrowed, leaves null behind and changes no other object |
| VariantCells.OperationsGive | modernopc/src/Variant.cpp:7-65 | a new object holds what it was made from, a moved one gives its content away |
| VariantCells.OthersKeep | modernopc/src/Variant.cpp:7-65 | no operation changes what another object holds, unless both borrow the cell that is written |
| VariantCells.CopyAssignGivesIff | modernopc/src/Variant.cpp:34-44 | copy assignment to an owner gives it the source's content exactly when they differ or the source is empty |
| VariantCells.Variants.CopyConstruct | modernopc/src/Variant.cpp:27-32 | the new object owns a new cell with the source's content, which stays |
| VariantCells.Variants.MoveAssign | modernopc/src/Variant.cpp:54-65 | releases the target's cell, takes over the source's, self-assignment included |
| VariantCells.Variants.CopyAssign | modernopc/src/Variant.cpp:34-44 | marks the target as owner; single ownership survives exactly when it already was |
| MethodCall.Call.Invoke | modernopc/include/modernopc/methods/MethodWrapper.h:25-65 | the function is called on the given object with input i read from variant i, result i is written to output i, the other outputs are untouched, for every signature |
| MethodCall.MethodCallback | modernopc/src/Server.cpp:118-145 | without a context nothing is written and the call is invalid, with one it is the call |
| MethodCall.ArgumentsArrive | modernopc/include/modernopc/methods/MethodWrapper.h:79-87 | typed arguments sent as variants arrive unchanged, with anything after them |
| MethodCall.CallRefinesApplication | modernopc/include/modernopc/methods/MethodWrapper.h:76-112 | calling through variants and reading the outputs at the declared types is calling the function, a member function on the object passed on |
| MethodCall.GetOutputArguments | modernopc/include/modernopc/methods/Method.h:41-84 | one descriptor per result component, in order |
| MethodCall.OutputsAreAsDeclared | modernopc/include/modernopc/methods/Method.h:65-84 | count, type and rank of the outputs written are those declared |
| MethodCall.InputIsAsDeclaredIff | modernopc/include/modernopc/methods/Method.h:28-39 | the declared input fits every argument exactly when the parameter is not a vector |

## Left out

- BuildOrder: is stated for the roots from which no cycle is entered, which are exactly those for which the code returns; the size of the call stack is not modelled.
- GenerateClass: is asked for a type that is an entry of the map, as the main program does; the code would follow an end iterator for another one.
- AddNode: requires id text for which the parser is defined and a definition on every data type node, as the code dereferences both.
- Extract: is undefined where C is, that is for a string that ends right after the kind letter following its first `;` and for numbers outside `int`; whitespace is that of the C locale.
- Loading nodeset XML, command line handling, files and console messages are not modelled.
- Server: shared pointers to handles are numbers and the objects they own are addresses in one heap, so a handle kept alive outside the registry, destruction of the server and threads are not modelled; nodes that come with others (method arguments, instantiated children) are additions that a run may make at any time.
- Create: parent, type, browse name and attributes only influence whether the C server accepts, which is a parameter.
- Print: stream locale and formatting flags are the defaults.
- ToUa: the C string points into the id it was made from; that lifetime is not modelled.
- Hash: the layout of a Guid is that of a little-endian machine; `std::hash` on node ids is not modelled.
- SetEvent: whether the event node is created is a parameter; what triggering an id that was never set does is not modelled. Trigger failures are only logged by the code.
- StepKeepsDisciplineIff: the content of a cell is one number, so leaks inside a cell that is overwritten are not modelled; nor are null targets of copy assignment and `Variant(var, true)`.
- Exec: models the statements the generator writes, with the conversion of one value as a parameter; C++ scoping, headers that the generated code needs and duplicate member names are not modelled.
- Invoke: the element types are a finite list and template resolution is not modelled; calling with the wrong variant types is undefined in the code and excluded. The overload taking a raw function is not modelled.
- `Variant::operator==`, the client, JSON, logging, timestamps, benchmarks and tutorials are not modelled.
