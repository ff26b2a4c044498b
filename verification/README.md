# Verified model of the generators

The repository extracts protocol facts from a JavaScript bundle and turns them into Rust.
This project models its small compilers and its checker in Dafny and proves what they promise.
`dafny verify dfyconfig.toml` checks everything.

**The app-state validator compiler** (`Values`, `Script`, `Ir`, `Lowering`, `LowerClass`, `Rust`, `Codegen`, `Generator`, `CallArity`, `Pipeline`, `Validators`, `Qualification`, and the proofs beside them).
`Lower` accepts a JavaScript subset and produces slot programs; the generator turns those into Rust control flow.
Each of the three languages has its own big-step semantics: scripts run over a chain of named scopes with hoisting (ECMA-262, sections 10.2.11, 13.13, 13.14, 13.16 and 14.3.2), programs over a slot store, the emitted Rust over lexically declared locals, `?` and closures.
They share one value type and one oracle that answers calls to other validators and to transforms; the log of those calls is part of every result.
Behaviour the script semantics says nothing about (coercions, foreign globals) is a failure of its own, and accepted programs are proved never to reach it.
Both compilers are proved to preserve meaning, separately and together, for single validators and for whole suites of validators that call each other.
What each of them accepts is decided exactly: `Qualification` judges the script's syntax alone, and `Acceptance` and `TransformArity` prove that the compilers take the validators so judged and no others.
The mutable compiler object is a class whose every method is tied to a state-passing specification, which the proofs are about.

**The response-struct generator** (`FieldTree`, `Flattening`, `ResponseStruct`, `ResponseAgreement`, `ResponseCoverage`, `ItemStructs`, `ResponseWalks`, `IntegerBand`).
Flattening is characterised as the one flat tree that keeps every field that is no wrapper, and both walks are measured against the tree as it was before. One walk declares a struct and another initialises it. They are proved to name the same fields on every field tree, except for one family of children, for which the exact condition and a failing tree are given. Which item literals fit the one struct of a name that the file keeps is decided exactly, for both rules of keeping.
Integer widths and bands are proved exact.

**The WAM wire codec** (`Doubles`, `Wam`, `WamShortest`, `WamEvents`, `WamBuffer`, `Base64`).
The encoder is an appending buffer; a decoder is written for it and proved to recover every entry and every event from the bytes alone, and no fewer bytes decode to the same. Doubles are IEEE 754 binary64 bit patterns, and conversion from integers rounds to nearest, ties to even.

**The mex type interner** (`MexTypes`, `MexUnfold`, `MexTable`, `MexMeaning`, `MexNames`, `MexBuilder`). Unfolding a returned name through the struct table gives back the normalised shape exactly when no struct was shared by two different field lists of one signature text; keys without separators that are not turned into `String` never lead there. Every field is called by its key, every struct by the key it stands behind.

**The recogniser of renamed modules** (`Renaming`, `Spacing`, `SpacingFacts`, `CanonicalText`, `CanonicalModules`). First-use numbering decides one-to-one renaming; stripping space keeps every lexeme; modules of equal normal form are renamings of each other, lexeme by lexeme, exactly when bound names stand at the same places.

**Extractor algorithms** (`EnumFields`, `EnumOrder`, `SlotNames`). A memoised, depth-limited, cycle-guarded walk against the plain recursion, the exact condition under which the order of its calls does not show, and a propagation loop against its fixpoint.

**The linter** (`Json`, `PresenceLint`, `PresencePaths`, `PresencePlaces`, `JsonPointers`, `WalkCoverage`, `StablePaths`, `StableLabels`, `StableReorder`). Parity of shapes and verdicts, place by place; resolution and completeness of walked paths (RFC 6901, sections 3 and 4); and paths that survive reordering.

**Identifiers and messages** (`Naming`, `Suffixes`, `Decimals`, `Sequences`, `FiniteSets`).

Where the code and its documentation part, the model follows the code:

- `emit_struct_reads` says it initialises exactly the fields `collect_response_fields` derives. It does not for a repeated child made only of unsupported unions (`ResponseAgreement.StrayChildrenDisagree`).
- The comment on space stripping says only space between tokens is removed. Space between a word and a string literal, and at the end of the text, is kept (`SpacingFacts.SpaceBeforeLiteralStays`).
- `intern` calls structs of one signature text identical. They need not be: with a struct called `String` two different shapes share a text (`MexMeaning.StringKeyIsConfused`).
- Item struct names are said to be unique per spec, so that equal names mean equal structs. Two repeated children of one tag under different items have one name and may differ (`ItemStructs.TwinsDiffer`, `ItemStructs.FirstIsTooNarrow`). The tie-break by field count is called a heuristic; it covers every struct whenever any choice does (`ItemStructs.WidestCovers`).
- Memoising a walk that was cut off, by the cycle guard or by the depth limit, makes enum fields depend on call order (`EnumFields.CyclesDependOnOrder`, `EnumOrder.ChainsDependOnOrder`); `EnumOrder.OrderShowsExactly` says exactly when. The outer loop runs over a hash map, so that order is not fixed.
- Lowering alone accepts more than three parameters and then means something else; the generator refuses (`Pipeline.FourParametersGoWrong`).
- Stable paths are said to name array entries by their identity. A value that prints a semicolon can pass for a longer identity (`StableLabels.SeparatorsConfuse`).
- The recogniser takes equal normal forms for one-to-one renamings. A free name spelled `local0` is taken for the first bound one (`Renaming.FreeLocalIsConfused`).

## Model

| member | source | states |
|---|---|---|
| `LoweringMeaning.LoweringPreserves` | crates/wa-appstate/src/validation.rs:178-701 | For every accepted validator of at most three parameters, every conforming argument list and every world: the script run over named scopes and the slot program give the same result or failure and the same ordered log of validator and transform calls; and the script never leaves the modelled language, so every `map` and every compared `.length` really had an array or raised |
| `LoweringMeaning.ExprSame` | crates/wa-appstate/src/validation.rs:390-701 | The same for any expression in any agreeing state: same value or failure, same calls, and scopes and slots agree again afterwards, with only slots marked mutable changed |
| `LoweringMeaning.StmtsSame` | crates/wa-appstate/src/validation.rs:297-389 | The same for statement lists, early `return` and `throw` included, whatever hoisted slots are still unset |
| `LoweringMeaning.MapSame` | crates/wa-appstate/src/validation.rs:583-637 | A lowered `map` runs its callback per element, left to right, exactly as the script does, captured reads and per-element hoisting included |
| `LoweringMeaning.ItemsSame` | crates/wa-appstate/src/validation.rs:618-637 | Over any number of elements the callback's own variables are fresh each time and the enclosing ones keep what earlier elements left |
| `LoweringMeaning.OrdinaryArrayIsArray` | crates/wa-appstate/src/validation.rs:222-233 | What the flow-insensitive analysis calls an ordinary array evaluates, in every state the invariant allows, to an array or to a nullish value that raises |
| `LoweringMeaning.NumericIsNumber` | crates/wa-appstate/src/validation.rs:516-530 | Operands accepted for `>` evaluate to numbers or raise: no coercion is ever involved |
| `LoweringMeaning.AssignmentSame` | crates/wa-appstate/src/validation.rs:536-553 | Assignment as an expression yields the assigned value and updates exactly the variable the slot stands for |
| `LoweringMeaning.CommaSame` | crates/wa-appstate/src/validation.rs:554-560 | A comma expression keeps every effect in order and yields the last value |
| `LoweringMeaning.ThrowSame` | crates/wa-appstate/src/validation.rs:345-387 | A recognised throw is the fatal report with the same metric, the collection context and the message, after the same calls |
| `LoweringMeaning.DeclareStarts` | crates/wa-appstate/src/validation.rs:178-220 | Declaring starts a body with a distinct fresh slot per hoisted name and every assigned or redeclared one marked mutable |
| `LoweringMeaning.PutFresh` | crates/wa-appstate/src/validation.rs:574-579 | Refusing repeated keys is what makes appending fields the same as defining them |
| `LoweringFacts.DeclareNamesSpec` | crates/wa-appstate/src/validation.rs:200-213 | Each newly declared name gets a slot no other name has, names met twice are all found, and no parameter is redeclared |
| `LoweringFacts.OwnedAreDeclared` | crates/wa-appstate/src/validation.rs:178-220 | The slots a body binds are exactly those of the names it declares: every declared name is bound somewhere in the same body |
| `LoweringFacts.ExprExtends` | crates/wa-appstate/src/validation.rs:390-701 | Lowering an expression only uses up slots: names, analyses and depth come back as they were |
| `LoweringFacts.StmtsGrow` | crates/wa-appstate/src/validation.rs:297-344 | A body's array analysis only grows, and only by slots the body itself binds |
| `LoweringScope.LoweringWellScoped` | crates/wa-appstate/src/validation.rs:178-701 | Every accepted program of at most three parameters is well scoped: each slot read is owned by its body or an enclosing one, each slot written by its own body, callback slots are disjoint from the enclosing ones, and the element is only used inside a callback |
| `LoweringScope.CallbackScoped` | crates/wa-appstate/src/validation.rs:536-553 | A callback assigns only slots it declares itself, because captured writes were refused |
| `LoweringNames.LoweringIgnoresNames` | crates/wa-appstate/src/validation.rs:178-701 | For every one-to-one respelling of identifiers (loaders and class renamed along, or left fixed) a validator lowers to the very same program or is refused both times |
| `LoweringRespelt.LoweringIgnoresTables` | crates/wa-appstate/src/validation.rs:178-701 | For every finite one-to-one table that gives declared names new ones, none of them a name that stays in use, and leaves loaders and the class alone: the renamed validator lowers to the very same program or both are refused |
| `LoweringRespelt.DeclareScopeRefuses` | crates/wa-appstate/src/validation.rs:200-210 | A body's declarations are refused exactly when one is spelled like a parameter in sight, mentioned or not |
| `LoweringRespelt.LocalLikeParameterIsRefused` | crates/wa-appstate/src/validation.rs:207-209 | So renaming a callback's local alone does show: on one validator all spellings of it give one program, except those of the three parameters, which are refused |
| `LoweringNames.DeclareScopeSame` | crates/wa-appstate/src/validation.rs:178-220 | Slot numbers, redeclarations and the mutable set do not depend on spelling |
| `LoweringNames.CallbackSame` | crates/wa-appstate/src/validation.rs:583-637 | Shadowing in callbacks is decided by which names are equal, not by what they are |
| `LowerClass.Lower.DeclareScope` | crates/wa-appstate/src/validation.rs:178-220 | The updating declaration walk leaves exactly the state the specification says, or refuses with the same reason |
| `LowerClass.Lower.Statements` | crates/wa-appstate/src/validation.rs:297-303 | The statement loop emits what the specification says, in order, and leaves the enclosing names untouched even when refused |
| `LowerClass.Lower.Expression` | crates/wa-appstate/src/validation.rs:390-701 | The updating compiler's expression walk equals the specification in result, reason and state; names, mutable set and depth are restored whatever happens |
| `LowerClass.Lower.Callback` | crates/wa-appstate/src/validation.rs:616-637 | Entering and leaving a callback restores names and analyses and keeps only the slot count and floor, also after a refusal inside |
| `LowerClass.Lower.CallExpression` | crates/wa-appstate/src/validation.rs:581-701 | Calls are dispatched to `map`, the decoder, a sibling validator or a transform exactly as specified |
| `LowerClass.Lower.ThrowStatement` | crates/wa-appstate/src/validation.rs:345-387 | Only the two-part fatal throw is accepted; its report is compiled before its second part is looked at, and the first thing wrong is the reason given |
| `LowerClass.Compile` | crates/wa-appstate/src/validation.rs:112-150 | A fresh compiler object compiles one validator to exactly the specified program, or refuses it for the specified reason; it compiles the qualified validators and no others |
| `Acceptance.LowersExactly` | crates/wa-appstate/src/validation.rs:112-701 | A validator is lowered if and only if the script is qualified: each expression form with visible names, own variables on the left of assignments, distinct keys, known receivers and vocabulary, comparisons of numbers, plain callbacks of depth one, and fatal throws |
| `Acceptance.ExprTaken` | crates/wa-appstate/src/validation.rs:390-701 | The same for any expression, judged by what its names stand for in the body it stands in |
| `Acceptance.StmtsTaken` | crates/wa-appstate/src/validation.rs:297-344 | The same for statement lists, with the array analysis read off the declarators met so far |
| `Acceptance.CallbackTaken` | crates/wa-appstate/src/validation.rs:583-637 | A callback is taken exactly when it is plain, binds no name it must not and its body qualifies with the enclosing variables as captured ones |
| `Acceptance.ThrowTaken` | crates/wa-appstate/src/validation.rs:345-387 | The throws taken are exactly those of the fatal shape, on the collection of the first parameter |
| `Acceptance.ArrayIsArray` | crates/wa-appstate/src/validation.rs:222-233 | The analysis on slots calls a receiver an ordinary array exactly when the script shows it to be one: the designated argument or field, a variable its one declarator gave an array, or what `map` returns |
| `Acceptance.DeclareAgrees` | crates/wa-appstate/src/validation.rs:178-220 | After the declarations the slot tables say of every name what the script says: whose it is, whether it may change and whether it holds an array |
| `CodegenMeaning.GeneratedPreserves` | crates/wa-codegen/src/appstate_validation.rs:8-180 | For every well-scoped program whose bodies all return, the emitted function computes the same result, the same observable error and the same call log as the program, with closures per map element and early exit through `?` |
| `CodegenMeaning.ExprSame` | crates/wa-codegen/src/appstate_validation.rs:68-180 | Any emitted expression, in any environment that holds the slots, behaves as the slot expression and leaves the environment as deep as it found it |
| `CodegenMeaning.NamesApart` | crates/wa-codegen/src/appstate_validation.rs:70-72 | None of `left`, `right`, `input`, `mapped`, `item` can be a slot or an argument name, so the introduced locals capture nothing |
| `CodegenMeaning.MapSame` | crates/wa-codegen/src/appstate_validation.rs:148-160 | The emitted loop collects one closure result per element; the closure's declarations vanish with it and a failing element ends the function |
| `CodegenMeaning.CollectSame` | crates/wa-codegen/src/appstate_validation.rs:148-160 | Element by element the closure and the slot callback do the same, slots declared inside forgotten after each |
| `CodegenMeaning.LogicalStep` | crates/wa-codegen/src/appstate_validation.rs:94-103 | The `let left` block short-circuits as the operator does, the right side never seeing the introduced name |
| `CodegenMeaning.DeclarationsRun` | crates/wa-codegen/src/appstate_validation.rs:20-25 | Declaring the owned slots in increasing order starts each at undefined |
| `CodegenMeaning.DivergesReturns` | crates/wa-codegen/src/appstate_validation.rs:46-66 | A body every path of which returns never falls off its end |
| `Generator.OwnedSlots` | crates/wa-codegen/src/appstate_validation.rs:30-45 | The accumulating loop gathers exactly the slots a body binds, nested branches included and callbacks excluded |
| `Generator.Statements` | crates/wa-codegen/src/appstate_validation.rs:46-67 | The pushing loop produces the specified statements behind what was already there, or the specified error |
| `Generator.Function` | crates/wa-codegen/src/appstate_validation.rs:8-29 | One function is its declarations in slot order, then its body; code comes out exactly for at most three parameters and one argument to every transform, callbacks included |
| `TransformArity.GeneratesExactly` | crates/wa-codegen/src/appstate_validation.rs:8-180 | Code is produced if and only if there are at most three parameters and every transform, those in callbacks included, is given one argument |
| `Acceptance.GeneratesExactly` | crates/wa-codegen/src/appstate_validation.rs:8-180 | A function is generated for exactly the qualified scripts of at most three parameters whose transforms are called with one argument |
| `Acceptance.CompilesExactly` | crates/wa-codegen/src/appstate_validation.rs:8-66 | The whole pipeline takes exactly those of them that return on every path, callbacks too, as read off the script |
| `Acceptance.TypeChecksExactly` | crates/wa-codegen/src/appstate_validation.rs:136-147 | Beside a suite it takes exactly those that also call the suite's validators with as many arguments as these have parameters |
| `Pipeline.PipelinePreserves` | crates/wa-appstate/src/validation.rs:178-701 | Script to Rust in one step: for every validator both compilers take, the generated function answers every conforming call as the script does |
| `CallArity.CallAlike` | crates/wa-codegen/src/appstate_validation.rs:136-147 | A program whose every call of a known validator has as many arguments as that has parameters runs alike in any two worlds that differ only in their answers to calls of another length |
| `Pipeline.FittingPreserves` | crates/wa-codegen/src/appstate_validation.rs:8-180 | Script against generated Rust where the script's world answers calls of any length and the Rust world only those of the right length |
| `Pipeline.WorldsAgree` | crates/wa-codegen/src/appstate_validation.rs:136-147 | Validators that call one another agree as a whole suite to every call depth, by induction on the depth, no argument being filled in on the Rust side |
| `Pipeline.SuitePreserves` | crates/wa-appstate/src/validation.rs:664-669 | A whole run, an entry validator and everything it calls, gives the same answer and log in script and generated module, for every module that compiles: its bodies return and its calls have as many arguments as their callees have parameters |
| `Pipeline.FourParametersGoWrong` | crates/wa-codegen/src/appstate_validation.rs:15-17 | A validator of four parameters is lowered to a program that no longer means it (index 3 is the map element); the generator is what refuses it |
| `Validators.GeneratedFilePreserves` | crates/wa-appstate/src/validation.rs:27-79 | When all six exported validators compile, each entry point of the generated file behaves as its script for every world and call depth, given only that the designated `records` or `mutations` field is an array or absent |
| `Validators.ExtractedExactly` | crates/wa-appstate/src/validation.rs:27-79 | Extraction succeeds exactly when the six exported validators are there, no more and no fewer, and each is qualified |
| `Validators.GeneratedExactly` | crates/wa-appstate/src/validation.rs:27-79 | The generated file exists and type-checks exactly when each of the six is moreover generable, returns and calls the others with the right number of arguments |
| `FieldTree.FlattenFlat` | crates/wa-codegen/src/fields.rs:340-367 | After flattening no field anywhere below reads off its parent's node |
| `FieldTree.FlattenIdempotent` | crates/wa-codegen/src/fields.rs:340-367 | Flattening again changes nothing, so both generators may flatten at every level |
| `FieldTree.LiftedAreOptional` | crates/wa-codegen/src/fields.rs:369-393 | Everything hoisted out of an optional wrapper is optional, through any nesting of wrappers |
| `FieldTree.ChildIsNotLeaf` | crates/wa-ir/src/wap.rs:55-100 | No accessor name is both a child accessor and an attribute or content accessor, so the two generators may ask in different orders |
| `FieldTree.FlattenSameNode` | crates/wa-codegen/src/fields.rs:344-367 | The pushing loop computes the specified flattening |
| `Flattening.FlattenExactly` | crates/wa-codegen/src/fields.rs:340-393 | The result is the one tree without wrappers in which the fields that are no wrappers stand in the same order at the same depth, each as it was but required only if every wrapper around it was, and else read by the lenient spelling of its accessor |
| `Flattening.FlattenLifts` | crates/wa-codegen/src/fields.rs:344-393 | So it is from any state of the walk: no field is lost, doubled or moved below another one |
| `ResponseAgreement.StructAgreesWithParser` | crates/wa-codegen/src/emit.rs:785-1300 | For every field tree: nothing is declared or initialised twice, everything declared is initialised, the two name the same fields exactly when the tag of each repeated child made only of unsupported unions is declared by some other field, and with no such child one list is a permutation of the other |
| `ResponseCoverage.StructHoldsTree` | crates/wa-codegen/src/fields.rs:399-596 | Measured against the tree before flattening: the declared names are exactly the wanted ones (leaves, supported unions, content and items reached through wrappers and single children), all of them are initialised, and nothing else is where no child is stray |
| `ResponseCoverage.LeavesKept` | crates/wa-codegen/src/emit.rs:785-1300 | Every leaf reached through wrappers and single children is a field of the struct and is filled in |
| `ResponseCoverage.ColumnsWanted` | crates/wa-codegen/src/fields.rs:463-527 | The columns of an item struct are exactly the leaves, supported unions and repeated children with leaves that the item holds, wrappers looked through |
| `ResponseCoverage.LiteralHoldsItem` | crates/wa-codegen/src/emit.rs:1061-1176 | Each repeated child with a column is read into literals of its own struct that fill in exactly these columns |
| `ResponseAgreement.NamesAgree` | crates/wa-codegen/src/emit.rs:785-1300 | On a flattened tree the initialised names are the declared ones plus the tags of those stray children, despite the different traversal order |
| `ResponseAgreement.SameColumns` | crates/wa-codegen/src/fields.rs:463-527 | An item literal fills exactly the columns its struct declares, though one side drops repeated names and the other does not |
| `ItemStructs.ItemsAgreeWithParser` | crates/wa-codegen/src/emit.rs:1061-1176 | Every item literal has a declared struct of its name with exactly its columns, nested items included, if and only if no child is stray |
| `ItemStructs.LiteralsFitKept` | crates/wa-codegen/src/emit.rs:1158-1177 | A literal fits a struct that has its columns, the rest being defaulted. Whichever structs the file keeps: all literals fit exactly when the kept ones cover every declared struct and hold the name of every stray one; those emitted, repeated fields dropped, exactly when the kept ones cover the structs behind the emitted reads |
| `ItemStructs.FirstCovers` | crates/wa-codegen/src/spec.rs:901-915 | Keeping the first struct of each name covers all declared ones exactly when the first of each name has the columns of all of that name |
| `ItemStructs.WidestCovers` | crates/wa-codegen/src/lib.rs:193-203 | Counting fields is as good as comparing them: keeping the widest struct covers all declared ones whenever any choice of one struct of each name does |
| `ItemStructs.KeptItemsAgree` | crates/wa-codegen/src/lib.rs:193-203 | Where declared structs of one name have one set of columns and no child is stray, all that is emitted fits under both rules of keeping |
| `ItemStructs.TwinsDiffer` | crates/wa-codegen/src/lib.rs:175-203 | On a tree with two repeated items that each hold a repeated child of one tag and a column of its own, some emitted literal fits no struct that could be kept |
| `ItemStructs.FirstIsTooNarrow` | crates/wa-codegen/src/spec.rs:901-915 | With a column more in the second of them, all that is emitted fits the widest struct and some of it does not fit the first |
| `ResponseAgreement.StrayChildrenDisagree` | crates/wa-codegen/src/emit.rs:1064-1071 | A concrete tree, for every generator that does not support the one union in it: its tag is initialised, with a literal of a struct, and neither was declared, so the condition for agreement fails on it |
| `ResponseWalks.CollectResponseFields` | crates/wa-codegen/src/fields.rs:399-596 | The declaring walk, with a fresh `seen` per level and merging, yields exactly the specified names and structs in order |
| `ResponseWalks.Reader.EmitStructReads` | crates/wa-codegen/src/emit.rs:785-1300 | The reading walk, with one shared `seen`, pushes exactly the reads whose names are new, in order |
| `ResponseWalks.Reader.EmitSingle` | crates/wa-codegen/src/emit.rs:1177-1297 | Trying a single child on a scratch copy, skipping it when it reads nothing, and reading optional ones into a buffer of their own all come to reading it in place |
| `ResponseWalks.NothingFresh` | crates/wa-codegen/src/emit.rs:1186-1203 | A subtree whose scratch run adds no initialiser would not have changed `seen` either, so skipping it loses nothing |
| `ResponseWalks.EmitResponseParser` | crates/wa-codegen/src/emit.rs:630-700 | The struct literal's initialisers are the specified ones |
| `IntegerBand.BandIsExact` | crates/wa-codegen/src/fields.rs:89-173 | Decoded at the emitted width, a value passes the emitted check exactly when the accessor takes it; the check is `false` exactly when no value of that width can pass; its bounds are literals of that width; a doubly bounded attribute loses no value to its width |
| `Doubles.FromIntDenotes` | crates/wa-codegen/src/wam.rs:535 | Converting an integer gives the bit pattern of the nearest double, ties to even |
| `Doubles.RoundedExactly` | crates/wa-codegen/src/wam.rs:535 | The conversion keeps an integer exactly when its significand fits 53 bits, in particular up to 2^53 |
| `Doubles.RoundedNearby` | crates/wa-codegen/src/wam.rs:535 | No integer is moved by more than half a unit in the last place |
| `Wam.EntryRoundTrip` | crates/wa-codegen/src/wam.rs:495-553 | The first entry and its length are recovered from the bytes whatever follows it: marker, terminal bit, id of either width, and value through every size class |
| `Wam.CarriedIsNeeded` | crates/wa-codegen/src/wam.rs:543-548 | A string of 2^32 bytes or more is never recovered, because its length is cut to 32 bits; together with the round trip this decides exactly which values survive |
| `Wam.EntriesRoundTrip` | crates/wa-codegen/src/wam.rs:482-592 | Every entry of a buffer is recovered in order from the bytes alone |
| `Wam.NumRoundTrip` | crates/wa-codegen/src/wam.rs:507-530 | Each integer class and the eight-byte form give back the number, negative zero as zero |
| `WamShortest.NumShortest` | crates/wa-codegen/src/wam.rs:507-530 | Whatever else the decoder reads as the number has no shorter payload, and for integers of 32 bits none other of that length |
| `WamShortest.TextShortest` | crates/wa-codegen/src/wam.rs:532-553 | Whatever else the decoder reads as the same text has no shorter length prefix, and of that length it is the same |
| `WamShortest.EntryShortest` | crates/wa-codegen/src/wam.rs:495-553 | An entry of one marker, id and value is written in the fewest bytes that decode to it, tag included; for all values but eight-byte numbers it is the only one so short |
| `WamShortest.EntriesShortest` | crates/wa-codegen/src/wam.rs:482-592 | So is a whole buffer of entries |
| `WamEvents.RegroupAll` | crates/wa-codegen/src/wam.rs:578-589 | Fields are regrouped into their events by the terminal bit alone |
| `WamEvents.BufferRoundTrip` | crates/wa-codegen/src/wam.rs:482-592 | A whole buffer read back is what was written: attributes and events in order, each with its fields, each number by its value |
| `WamEvents.UploadRoundTrip` | crates/wa-codegen/src/wam.rs:482-592 | Channel, stream, sequence number and items are all recovered from the whole upload |
| `WamEvents.UniquelyDecodable` | crates/wa-codegen/src/wam.rs:482-592 | No two lists of attributes and events that differ to a reader share their bytes |
| `WamBuffer.Buffer.WriteNum` | crates/wa-codegen/src/wam.rs:507-530 | Appends the tag and payload of the specified class, the smallest that holds the number (`WamShortest.NumShortest`) |
| `WamBuffer.Buffer.WriteValue` | crates/wa-codegen/src/wam.rs:532-553 | Appends exactly one encoded value |
| `WamBuffer.Buffer.Emit` | crates/wa-codegen/src/wam.rs:616-629 | Appends the event record with the negated weight and then its fields, the terminal bit on the last entry only |
| `WamBuffer.Buffer.EmitAll` | crates/wa-codegen/src/wam.rs:482-629 | A session's writes leave exactly the entries of its items behind what was there |
| `Base64.RoundTrip` | crates/wa-codegen/src/wam.rs:595-612 | The uploaded text gives back the buffer, for every length modulo three |
| `Base64.ToBase64` | crates/wa-codegen/src/wam.rs:596-612 | The chunking loop computes that text |
| `MexTypes.SignatureInjective` | crates/wa-codegen/src/mex_export.rs:99-105 | Structs with equal signature text have equal fields: keys, names, types and which are always written; no separator can be forged |
| `MexTypes.TextInjective` | crates/wa-codegen/src/mex_export.rs:175-186 | Different types are spelled differently |
| `MexUnfold.UnfoldExtends` | crates/wa-codegen/src/mex_export.rs:201-224 | Because the table only grows at its end, what a type unfolds to never changes |
| `MexUnfold.NothingDangles` | crates/wa-codegen/src/mex_export.rs:201-224 | In a sound table every struct and every field type unfolds completely |
| `MexTable.FreeFromSpec` | crates/wa-codegen/src/mex_export.rs:206-218 | The suffix search ends at the first candidate that no struct of another signature has; candidates differ and the table is finite |
| `MexMeaning.InternedMeans` | crates/wa-codegen/src/mex_export.rs:201-224 | An interned name stands for the fields asked for, or for another struct whose signature is the same text; the table stays sound and earlier structs are untouched |
| `MexMeaning.TypeMadeMeans` | crates/wa-codegen/src/mex_export.rs:166-197 | For every shape, whatever its keys: the type made unfolds through the table to the normalised tree of the node, always/optional marks included, exactly when no struct was returned on the way for other fields than its own |
| `MexMeaning.RegisteredMeans` | crates/wa-codegen/src/mex_export.rs:146-161 | The same for a top-level struct, whatever name it ends up with |
| `MexMeaning.OtherFieldsAreWrong` | crates/wa-codegen/src/mex_export.rs:99-105 | Fields of the same signature text that are not the fields made never mean the shape: a confusion is always visible in the result |
| `MexMeaning.OperationMeans` | crates/wa-codegen/src/mex_export.rs:28-37 | Request and response of one operation share a table; each still stands for its shape exactly when its own registration confused nothing |
| `MexMeaning.RegisteredClean` | crates/wa-codegen/src/mex_export.rs:146-224 | Keys free of separators and not turned into `String` never confuse anything, so every struct registered under them stands for its shape |
| `MexMeaning.StringKeyIsConfused` | crates/wa-codegen/src/mex_export.rs:99-105 | A concrete request: a text and an object behind the key `string` of two items make both items one struct, and the request no longer stands for its shape |
| `MexNames.TypeNamed` | crates/wa-codegen/src/mex_export.rs:166-239 | For every shape: each field of each struct in the table is called by the spelling of its key, each new struct is the hint or the key it was made for, or a numbered variant, and list elements and options take the name of their list |
| `MexNames.MembersNamed` | crates/wa-codegen/src/mex_export.rs:166-239 | The fields made for an object stand for its keys in order, required exactly where the client always writes them, each called by its key and each struct behind one named for it |
| `MexNames.RegisteredNamed` | crates/wa-codegen/src/mex_export.rs:146-161 | The same for a top-level struct, which carries the name wanted or a variant of it |
| `MexNames.OperationNamed` | crates/wa-codegen/src/mex_export.rs:28-37 | In the table of one operation every struct is `Variables`, `Response`, `Item`, the key it was made for, or a variant of these |
| `MexBuilder.Builder.Intern` | crates/wa-codegen/src/mex_export.rs:201-224 | The name returned and the table left are the specified ones, for every struct and every table |
| `MexBuilder.Builder.FreeName` | crates/wa-codegen/src/mex_export.rs:206-218 | The search over the index finds the specified name and ends |
| `MexBuilder.Builder.FieldType` | crates/wa-codegen/src/mex_export.rs:166-197 | The recursive registration computes the specified type and table, for every shape |
| `MexBuilder.Builder.Register` | crates/wa-codegen/src/mex_export.rs:146-161 | So does the top-level one |
| `MexBuilder.GenerateOperation` | crates/wa-codegen/src/mex_export.rs:28-37 | One builder serves request and response in that order |
| `Renaming.RenamingDecides` | crates/wa-appstate/src/validation_batch.rs:99-115 | One token stream is another with its bound names renamed one-to-one and free names fixed exactly when their renamed forms are equal and bound names stand at the same places |
| `Renaming.EqualDecides` | crates/wa-appstate/src/validation_batch.rs:99-115 | Equal renamed forms alone decide it where no free identifier is spelled `local<k>` |
| `Renaming.FreeLocalIsConfused` | crates/wa-appstate/src/validation_batch.rs:99-115 | In general they do not: a free `local0` passes for the first bound name, at a place where the other stream has a bound one |
| `Renaming.OrderSpec` | crates/wa-appstate/src/validation_batch.rs:106-113 | Names are numbered by first use: the order holds exactly the bound names used, each once |
| `CanonicalText.RewriteNames` | crates/wa-appstate/src/validation_batch.rs:99-115 | The cursor loop over occurrences writes exactly the renamed token stream, free names left in the copied text |
| `CanonicalText.NumberedIsFinal` | crates/wa-appstate/src/validation_batch.rs:110-112 | A name's number is settled when it is first met |
| `CanonicalText.Canonicalise` | crates/wa-appstate/src/validation_batch.rs:93-169 | The whole normal form is renaming, stripping and the appended shape |
| `CanonicalText.RenamedModulesAgree` | crates/wa-appstate/src/validation_batch.rs:93-169 | A module and any one-to-one renaming of its bound names have the same normal form |
| `CanonicalText.EqualFormsHaveEqualLexemes` | crates/wa-appstate/src/validation_batch.rs:93-169 | Normal forms are equal with shapes of one length exactly when the shapes are equal and the texts have the same words, literals and other characters in the same order |
| `CanonicalText.CallsPartFromShapes` | crates/wa-appstate/src/validation_batch.rs:145-168 | Where each text is one call, as module definitions are, equal normal forms have shapes of one length although nothing separates text and shape |
| `CanonicalModules.EqualFormsAreRenamings` | crates/wa-appstate/src/validation_batch.rs:93-169 | Two modules of equal normal form, each one call whose occurrences are whole words: their shapes are equal, and lexeme by lexeme one is the other with its bound names renamed one-to-one and everything else the same, exactly when bound names stand at the same places; they do where no kept word is spelled `local<k>` |
| `CanonicalModules.LexSpell` | crates/wa-appstate/src/validation_batch.rs:99-147 | A module whose occurrences are whole words outside literals is lexed occurrence by occurrence, whatever the names are |
| `CanonicalText.TokensSpellSource` | crates/wa-appstate/src/validation_batch.rs:103-115 | Occurrences and the text between them spell the source |
| `Spacing.StripSpaces` | crates/wa-appstate/src/validation_batch.rs:116-147 | The stripping loop with its quoting and escaping flags computes the specified text |
| `Spacing.StripIsRender` | crates/wa-appstate/src/validation_batch.rs:116-147 | Stripping is splitting into words, literals and marks and printing them with only the spaces kept between words, before a literal and at the end |
| `SpacingFacts.StripKeepsLexemes` | crates/wa-appstate/src/validation_batch.rs:116-147 | Stripping alters no literal, joins no two words, splits none and loses no other character |
| `SpacingFacts.StripIdempotent` | crates/wa-appstate/src/validation_batch.rs:116-147 | Stripping twice is stripping once |
| `SpacingFacts.StripDecides` | crates/wa-appstate/src/validation_batch.rs:116-147 | Two texts strip alike exactly when they have the same lexemes and kept spaces |
| `SpacingFacts.SpaceBeforeLiteralStays` | crates/wa-appstate/src/validation_batch.rs:130-139 | Space between a word and a literal stays, so the same tokens can strip differently |
| `EnumFields.WalkIsPlain` | crates/wa-appstate/src/extract.rs:617-659 | On graphs whose chains fit the depth limit, whatever the cache holds from earlier calls and whatever is being visited above, the memoised walk gives the plain recursion's map and keeps the cache so |
| `EnumFields.PassIsPlain` | crates/wa-appstate/src/extract.rs:599-607 | One pass over any messages in any order finds exactly those with enum fields, each with its plain result |
| `EnumFields.CyclesDependOnOrder` | crates/wa-appstate/src/extract.rs:617-659 | On any two messages that hold each other the result depends on the order of the calls: a cut-off result is remembered |
| `EnumOrder.ChainsDependOnOrder` | crates/wa-appstate/src/extract.rs:628-630 | So it does on any acyclic chain of six messages: walked from the first one, the second keeps a result the depth limit cut short; walked from the second one first, both see the enum field |
| `EnumOrder.OrderShowsExactly` | crates/wa-appstate/src/extract.rs:599-659 | On every set of messages closed under nesting, all orders of the outer loop find the same fields exactly when no message, walked with an empty cache, cuts off another one (other than itself directly inside itself) that has an enum field in reach |
| `EnumOrder.NothingHiddenOrderFree` | crates/wa-appstate/src/extract.rs:599-659 | In that case every order finds the complete result of every message: no depth of nesting would show more |
| `EnumOrder.WalkComplete` | crates/wa-appstate/src/extract.rs:617-659 | Under any cache such walks leave behind, a walk cuts off nothing that matters either and gives the complete result |
| `EnumOrder.ShortenedSpoils` | crates/wa-appstate/src/extract.rs:617-659 | A result that lost an enum field to a cut-off means that some message, walked first, leaves another one with a result that is not its own |
| `EnumFields.Walker.CollectEnumFields` | crates/wa-appstate/src/extract.rs:617-659 | The stateful walk computes the specified result and cache, pops what it pushed, and ends on every graph, cycles included |
| `EnumFields.Walker.CollectAll` | crates/wa-appstate/src/extract.rs:599-607 | The outer loop threads one cache through all messages |
| `SlotNames.Propagate` | crates/wa-appstate/src/extract.rs:921-975 | At the end no bound variable has an assignment behind its binding to an unbound one, each bound variable carries the slot of a seed it is reached from, no name is bound twice and seeds are untouched; the passes end |
| `SlotNames.Pass` | crates/wa-appstate/src/extract.rs:924-975 | Each pass that binds something leaves strictly fewer names unbound; one that binds nothing proves the fixpoint |
| `SlotNames.Expand` | crates/wa-appstate/src/extract.rs:929-974 | Within one variable the first assignment to bind a name keeps it, and all are considered |
| `PresenceLint.Linter.CheckPresenceLevel` | scripts/lint-ir.py:1384-1444 | Completes without a new error exactly when the verdict tree mirrors the shape tree at every level, and then adds exactly the number of undetermined nodes to the count |
| `PresenceLint.Linter.CheckKey` | scripts/lint-ir.py:1388-1444 | The same for one key of either side, missing and surplus keys included |
| `PresenceLint.Linter.CheckItems` | scripts/lint-ir.py:1417-1444 | Element verdicts are accepted exactly on lists of objects or lists, at every layer, and only as `always` |
| `PresenceLint.ConformsByKey` | scripts/lint-ir.py:1384-1396 | Conformance is decided key by key, so the order of the keys is immaterial |
| `PresencePlaces.ConformsEverywhere` | scripts/lint-ir.py:1384-1444 | Conforming means no more and no less than: at every place that keys and elements lead to there is a node exactly where there is a value, it carries a known verdict, field verdicts exactly on objects, and elements are always there |
| `PresencePlaces.NodeEverywhere` | scripts/lint-ir.py:1397-1444 | The same below any single key |
| `PresencePaths.SameKeys` | scripts/lint-ir.py:1347-1356 | Conforming trees name exactly the same keys at every depth, so no verdict is missing and none is about a key that is not there |
| `JsonPointers.EscapeRoundTrip` | scripts/lint-ir.py:413-422 | Escaping a key loses nothing and leaves no separator in it |
| `JsonPointers.SplitJoin` | scripts/lint-ir.py:397-398 | Joined steps come apart again |
| `JsonPointers.WalkedPathsResolve` | scripts/lint-ir.py:413-422 | Following any path the walk hands out reaches the object it was handed out with |
| `WalkCoverage.WalkVisits` | scripts/lint-ir.py:413-422 | Every object at any depth, through keys and lists, is visited under the path of the steps that lead to it |
| `WalkCoverage.WalkCounts` | scripts/lint-ir.py:413-422 | There are as many visits as objects, so none is visited twice |
| `StablePaths.StableIdentityPath` | scripts/lint-ir.py:393-410 | The loop computes the specified stable form for every path, array steps read as Python reads integers (signs, underscores, surrounding space, counting from the end), or raises where a step leads nowhere |
| `StablePaths.StableOfWalked` | scripts/lint-ir.py:393-422 | Along the walk, in its order, the stable forms are those collected directly from the document |
| `StablePaths.SignedReads` | scripts/lint-ir.py:398-399 | A step of digits with either sign or none, whatever blanks are around it, is read as that integer |
| `StableLabels.FirstFamily` | scripts/lint-ir.py:402-405 | The keys that identify an entry are those of the first family whose distinguishing keys it has |
| `StableLabels.LabelsTell` | scripts/lint-ir.py:400-407 | Two entries get one name exactly when they show the same identity, or show none and stand at the same position, provided none of the values that identify them prints a semicolon |
| `StableLabels.SeparatorsConfuse` | scripts/lint-ir.py:405 | Where values may print one, names can be equal although the identifying keys differ |
| `StableReorder.ReorderingMovesNoPath` | scripts/lint-ir.py:393-422 | Permuting any arrays all of whose entries carry an identity, at any depth but within the identifying values themselves, leaves the multiset of stable paths unchanged |
| `StableReorder.SameLabel` | scripts/lint-ir.py:400-407 | Reordering below an entry does not change its identity |
| `Naming.FmtRoundTrip` | crates/wa-codegen/src/naming.rs:75-102 | For every text the lexer and the format machinery give the text back with no placeholder of its own |
| `Naming.LitRoundTrip` | crates/wa-codegen/src/naming.rs:66-78 | The lexer undoes the escapes of every text, control characters included |
| `Naming.PlainStays` | crates/wa-codegen/src/naming.rs:66-78 | Text that needs no escape is left alone |
| `Naming.OtherOrderBreaks` | crates/wa-codegen/src/naming.rs:91-99 | Escaping first and doubling braces afterwards breaks every character that needs a numeric escape |
| `Naming.EnsureIdentSpec` | crates/wa-codegen/src/naming.rs:24-41 | The result is non-empty, not digit-led and no keyword; usable names are left alone; applying it twice is applying it once |
| `Naming.EnsureIdentMeans` | crates/wa-codegen/src/naming.rs:24-41 | What Rust reads is the text asked for: behind `_` when empty or digit-led, with `_` behind it for the four words that cannot be raw, and itself otherwise, raw exactly for the other keywords |
| `Naming.UniqueIdent` | crates/wa-codegen/src/naming.rs:109-128 | The name is new and usable, the first variant not taken, and the search ends |
| `Suffixes.TakenBound` | crates/wa-codegen/src/naming.rs:109-128 | A finite set of names takes only so many numbered variants, so both suffix searches end |

## Left out

- LoweringMeaning.LoweringPreserves: needs at most three parameters, the limit the generator enforces (a fourth one that the body never mentions would do no harm, but is refused there too), and compares failures by kind; the engine's own `TypeError` texts are not modelled.
- LoweringRespelt.LoweringIgnoresTables: one table serves the whole validator. Renaming each callback by a table of its own, as minifiers may, can be refused (`LoweringRespelt.DeclareScopeRefuses` says when the declarations are); that nothing else can then go wrong is not proved.
- CodegenMeaning.GeneratedPreserves: one program in any world; that every body returns on every path, a typing rule of Rust, is a hypothesis, decided on the script by `Acceptance.CompilesExactly`. Borrow checking and text layout are not modelled.
- Pipeline.SuitePreserves: stated for every call depth, at which both sides raise; the two entry points with a designated array argument are not called by others.
- ResponseAgreement.StructAgreesWithParser: names, not types, are compared, since the first of two equal names wins in different orders; unions are one abstract support test with no accessor of their own, and their enums and variant structs are not listed.
- ResponseWalks.Reader.EmitStructReads: emitted lines and the cache of wrapper variables are not modelled, nor are the decoders, pins and length checks inside one read.
- ItemStructs.LiteralsFitKept: columns are compared by name, not by type.
- IntegerBand.BandIsExact: a byte fold and a half-open band may still hold more than 64 bits can.
- Wam.EntryRoundTrip: numbers come back by value, so negative zero is zero, all NaN patterns are one, and an integer past 2^53 is the nearest double.
- WamShortest.EntryShortest: of eight-byte numbers only the length is settled, since one value can have several patterns.
- Acceptance.LowersExactly: decides success; which reason a refusal gives is stated on the compiler's own steps (`LowerClass.Lower.Expression` and the methods beside it).
- StableLabels.LabelsTell: identifying values that print a semicolon are left out; `StableLabels.SeparatorsConfuse` shows that they must be.
- WamBuffer.Buffer.Emit: the smallest 64-bit weight is its own negative, as in a build without overflow checks.
- MexMeaning.TypeMadeMeans: `pascal_case` and `rust_ident` are functions that yield no separator and no lower-case type name; that a struct called `String`, `Option` or `Vec` also shadows Rust's own type of that name is not modelled.
- Renaming.RenamingDecides: about token streams with disjoint occurrences; the parser that finds them is not modelled.
- Spacing.StripSpaces: which characters are words or space is a parameter; template literals, regular expressions and comments are characters like any other, as in the code.
- EnumFields.WalkIsPlain: spec entries are an abstract graph; the regular expressions that find them are not modelled, and results are kept under the variable rather than its exported path.
- EnumOrder.OrderShowsExactly: takes the field names of a message to be distinct; a repeated name could overwrite what a cut-off hid.
- CanonicalModules.EqualFormsAreRenamings: leaves open what a kept word is (property, keyword or free name), which the shape settles, and what a renamed one is: a shorthand property `{a}` is written `{local0}`, so modules with different keys can share a form.
- SlotNames.Propagate: assignments using a variable are an abstract relation in place of the two regular expressions.
- PresenceLint.Linter.CheckPresenceLevel: keys are visited in no particular order and error texts are shortened; the count of operations with no established presence is not modelled.
- StablePaths.StableIdentityPath: digits and spaces of other scripts in array steps, and the interpreter's limit on the number of digits, are not modelled.
- StableReorder.ReorderingMovesNoPath: nothing is reordered within a value that identifies an object, because a printed list or object shows its own order.
- Naming.UniqueIdent: distinct as text only; a raw identifier and its plain spelling are one identifier to Rust.
- Parsing, module-wrapper qualification and enum initialisation checks: long pattern matches over foreign syntax trees.
- The second decoder branch of call lowering: it cannot be reached, since the first one returns.
- Coercing comparisons of the runtime view: the comparison is only generated for operands proved to be numbers.
- Request builders and variant groups of the stanza generator, catalog exporters, fetching and caching: formatting or one-branch members only.
- Lint baselines and single-key document checks: one comparison each.
