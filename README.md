# Sorbet: editor queries and call intrinsics, modelled in Dafny

This project models two pieces of the Sorbet type checker for Ruby.

**The editor-query layer** (`main/lsp/LSPQuery.cc`, module `LSPQuery`).
- `byLoc` turns a document URI and a cursor position into a location query.
- `bySymbol` and `bySymbolInFiles` turn a symbol into a symbol query. `bySymbol`
  picks the candidate files by scanning the file table for files that use the
  symbol's short name.
- `filterAndDedup` post-processes the raw answers of a query:
  - it drops answers whose location or file does not exist;
  - it drops answers in untyped files, except constants, fields and method definitions;
  - it sorts the rest by (file, begin offset, end offset);
  - it keeps only the first answer at each location.

**Call-site helpers and intrinsics** (`core/types/calls.cc`). An intrinsic computes
the result type of a call to a built-in method from the receiver type and the
argument types.
- Dispatch helpers:
  - `allComponentsPresent` (module `Dispatch`);
  - `getArity`, `arityComponents` and `prettyArity` (module `Arity`);
  - overload selection by `guessOverload` (module `Overloads`).
- The desugarer's hash, array and splat intrinsics (module `MagicIntrinsics`).
- The tuple intrinsics `[]`, `first`, `last`, `min`/`max`, `sum`, `sample`, `to_a`
  and `concat` (module `TupleIntrinsics`).
- `Shape#merge` on shape types, that is, hashes with literal keys (module `ShapeMerge`).
- The element type computed by `Array#flatten` (module `ArrayFlatten`).

**How types are represented** (module `Types`).
- Types are a datatype with only the constructors the intrinsics test for.
- The type algebra is a parameter, `TypeOps`, of every intrinsic that uses it:
  union (`any`), subtyping, full definedness, a tuple's element type, "derives
  from Array", and dispatching `to_ary`. So every property proved holds for any
  algebra.
- An intrinsic's result is an `Option<Type>`. `Some(t)` sets the call's result
  type to `t`. `None` sets nothing, so the method's declared signature applies.

**How the code maps to Dafny.**
- Loops that build a value become methods with loop invariants. Each is proved
  equal to a specification function, and the source's promises are lemmas about
  that function. These loops are the filter loop of `filterAndDedup`, the
  file-table scan of `bySymbol`, the erase-while-iterating passes of
  `guessOverload`, the counting loop of `arityComponents`, the two passes of
  `<build-hash>`, the loops of `<build-array>` and `Tuple#concat`, and the two
  `addShapeEntry` loops of `Shape#merge`.
- Code made of branches and recursion becomes functions: `byLoc`, the tuple
  intrinsics, `<expand-splat>` and `Array#flatten`.
- Both sorts (answers by location, overloads by arity and id) are the stable
  insertion sort of module `Sequences`.

## Model

| member | source | states |
|---|---|---|
| LSPQuery.Keep | main/lsp/LSPQuery.cc:18-27 | an answer is kept exactly when it is in the input and passes the filter (its location and file exist, and its file is typed or it is a constant, field or method definition); the output is no longer than the input |
| LSPQuery.Passes | main/lsp/LSPQuery.cc:20-25 | in a typed file an answer passes exactly when its location exists; in an untyped file exactly when its location exists and it is a constant, field or method definition |
| LSPQuery.KeepOfPassingIsIdentity | main/lsp/LSPQuery.cc:18-27 | filtering answers that all pass returns them unchanged |
| LSPQuery.Unique | main/lsp/LSPQuery.cc:44-51 | collapsing runs of equal locations keeps only input answers, keeps the first answer and never lengthens the sequence |
| LSPQuery.UniqueCoversOne | main/lsp/LSPQuery.cc:44-51 | every location of the input is still the location of some answer after collapsing |
| LSPQuery.UniqueCovers | main/lsp/LSPQuery.cc:44-51 | the same, for all input answers at once |
| LSPQuery.SameKeySameLoc | main/lsp/LSPQuery.cc:30-51 | for existing locations, equal sort keys (file, begin, end) mean equal locations and back, so the sort order and the dedup equality agree |
| LSPQuery.UniqueStrictlySorted | main/lsp/LSPQuery.cc:44-51 | collapsing a sequence sorted by location leaves the locations strictly increasing |
| LSPQuery.UniqueOfStrictlySortedIsIdentity | main/lsp/LSPQuery.cc:44-51 | collapsing a sequence whose locations strictly increase changes nothing |
| LSPQuery.UniqueIsRunHeads | main/lsp/LSPQuery.cc:44-51 | collapsing keeps exactly the answers that start a run of equal locations: of consecutive answers at one location only the first survives |
| LSPQuery.FilterAndDedupSpecProperties | main/lsp/LSPQuery.cc:11-53 | every output answer is an input answer that passes the filter; the outputs are strictly increasing by location; every location of a passing input answer is the location of some output answer |
| LSPQuery.FilterAndDedupIdempotent | main/lsp/LSPQuery.cc:11-53 | running filterAndDedup on its own output changes nothing |
| LSPQuery.FilterAndDedup | main/lsp/LSPQuery.cc:11-53 | the filter loop, the sort and the collapse compute the specification; the output holds only existing locations in typed files or definition-like answers, no two outputs share a location, outputs are sorted strictly, and no passing location is lost |
| LSPQuery.ByLoc | main/lsp/LSPQuery.cc:55-97 | an unknown file is an InvalidParams error (ignored file, or not found); an untyped file with errorIfFileIsUntyped gives no results and no error; a position with no location gives no results when the state is stale and an InvalidParams error otherwise; every other case issues the location query over exactly that file, each as an if-and-only-if |
| LSPQuery.BySymbolInFiles | main/lsp/LSPQuery.cc:99-104 | a symbol query for the given symbol, over exactly the given files |
| LSPQuery.BySymbol | main/lsp/LSPQuery.cc:106-133 | the symbol query is issued over exactly the files that are present, exist, are Normal and use the symbol's short-name hash, with file ids strictly increasing |
| Sequences.SortBy | main/lsp/LSPQuery.cc:30-43 | the result is sorted by the key and is a permutation of the input (same multiset, same length) |
| Sequences.SortBySortedIsIdentity | main/lsp/LSPQuery.cc:30-43 | sorting an already sorted sequence changes nothing |
| Sequences.SortByMembers | core/types/calls.cc:352-361 | sorting keeps exactly the same elements |
| Dispatch.AllComponentsPresent | core/types/calls.cc:29-37 | true implies the main method exists; an existing main method with no secondary, or an AND secondary, gives true |
| Dispatch.AllComponentsPresentIsOrChain | core/types/calls.cc:29-37 | the check is true exactly when the main method of every dispatch result on the chain of OR links exists (results behind an AND link are not consulted) |
| Arity.ClassesPartition | core/types/calls.cc:529-550 | every parameter is counted in exactly one class: required, optional, repeated or ignored (keyword or block) |
| Arity.CountClassPositive | core/types/calls.cc:529-550 | a class is counted exactly when some parameter falls in it |
| Arity.RepeatedMeansSomeRestArg | core/types/calls.cc:529-550 | the repeated flag is set exactly when some parameter is repeated and not keyword, block or default |
| Arity.ArityComponentsOf | core/types/calls.cc:529-550 | the counting loop yields the components of the parameter list, and required plus optional never exceeds the parameter count |
| Arity.GetArity | core/types/calls.cc:318-324 | the arity is the parameter count minus the trailing block parameter, and it bounds required plus optional |
| Arity.DecimalRoundTrip | core/types/calls.cc:552-561 | the decimal text of a count parses back to the count |
| Arity.DecimalInjective | core/types/calls.cc:552-561 | distinct counts print differently |
| Arity.PrettyArityOf | core/types/calls.cc:552-561 | the text ends in '+' exactly when there is a repeated parameter, and contains '.' exactly when there is none but there are optional parameters |
| Arity.PrettyArity | core/types/calls.cc:552-561 | the printed arity of a method ends in '+' exactly when some positional (non-keyword, non-block) parameter is a rest parameter, and shows a range exactly when none is and some positional parameter has a default; keyword and block parameters never show |
| Arity.PrettyArityRangeInjective | core/types/calls.cc:552-561 | two "R..R+O" texts are equal only when both counts are equal |
| Arity.PrettyArityInjective | core/types/calls.cc:552-561 | the printed arity determines the required count and the repeated flag, and without a repeated parameter also the optional count |
| Overloads.PruneMembers | core/types/calls.cc:366-412 | a pruning pass keeps exactly the candidates that survive its check |
| Overloads.PruneSorted | core/types/calls.cc:366-412 | a pruning pass keeps candidates sorted by (arity, id) |
| Overloads.EraseFailing | core/types/calls.cc:384-412 | one erase-while-iterating pass computes the pruning of the candidate list |
| Overloads.PositionalPruned | core/types/calls.cc:384-387 | the candidates left after the positional checks are members of the input, still sorted when the input is |
| Overloads.PositionalPrunedMembers | core/types/calls.cc:366-387 | a candidate survives the positional checks exactly when it survives the check of every positional argument: the method has a parameter there whose type is undetermined or a supertype of the argument's |
| Overloads.TypePruned | core/types/calls.cc:384-392 | after the keyword-hash check the candidates are still members of the input, still sorted when the input is |
| Overloads.SortedCandidates | core/types/calls.cc:352-361 | the candidates are the primary method and its overloads, sorted by (arity, id) |
| Overloads.BlockPool | core/types/calls.cc:394-398 | when the argument checks leave no candidate, the block check runs over all candidates, otherwise over the survivors of the argument checks; a candidate is in the pool exactly when it is the primary method or an overload and either none survived or it did; the pool is sorted |
| Overloads.BlockMatched | core/types/calls.cc:400-412 | a candidate is left exactly when it is in the block-check pool and names its block parameter exactly when the call passes a block; the result stays sorted |
| Overloads.LowerBound | core/types/calls.cc:414-432 | the cut point has every earlier candidate's arity below the argument count and the candidate at the cut at or above it |
| Overloads.LowerBoundIsClosest | core/types/calls.cc:414-432 | on sorted candidates, a candidate covering every argument exists exactly when the cut is inside the sequence, and then the candidate at the cut has the least (arity, id) among them |
| Overloads.SortedFirstIsLeast | core/types/calls.cc:352-361 | the first sorted candidate has the least (arity, id) |
| Overloads.GuessOverloadChoice | core/types/calls.cc:326-439 | the result is the primary method or one of its overloads. If a block-matching candidate covers every argument, the result is the one with the fewest parameters among those, lowest id first. If none covers them, the result is the block-matching one with the fewest parameters. If no candidate matches the block, the result is the first candidate surviving the argument checks, or the primary method |
| Overloads.GuessOverloadSpec | core/types/calls.cc:326-439 | the overload chosen is always the primary method or one of its overloads |
| Overloads.PruneByArguments | core/types/calls.cc:384-392 | the passes over positional arguments and the keyword hash compute the type pruning |
| Overloads.GuessOverload | core/types/calls.cc:326-439 | the method's result is the specified choice |
| MagicIntrinsics.HashValues | core/types/calls.cc:2087-2110 | there are as many values as there are keys |
| MagicIntrinsics.Interleave | core/types/calls.cc:2087-2110 | laying out pairs gives twice as many arguments as keys |
| MagicIntrinsics.HashPairsAppend | core/types/calls.cc:2087-2110 | splitting an argument list of whole pairs into keys and values splits over concatenation |
| MagicIntrinsics.InterleaveSplit | core/types/calls.cc:2087-2110 | splitting an even argument list into keys and values and laying them out again gives the arguments back |
| MagicIntrinsics.SplitInterleave | core/types/calls.cc:2087-2110 | laying keys and values out as arguments and splitting them gives the keys and values back |
| MagicIntrinsics.BuildHashOrKeywordArgs | core/types/calls.cc:2087-2110 | when every key is a literal type the result is the shape of the keys and values, in order; otherwise it is the untyped hash |
| MagicIntrinsics.BuildArray | core/types/calls.cc:2112-2123 | the result is the tuple of the argument types, in order |
| MagicIntrinsics.Int32 | core/types/calls.cc:2177-2192 | conversion to a C++ int lands in the 32-bit range, agrees with the input modulo 2^32 and leaves in-range values alone |
| MagicIntrinsics.PadWithNil | core/types/calls.cc:2151-2175 | resizing to n keeps the elements, grows to n with nil, and never shrinks |
| MagicIntrinsics.ExpandArray | core/types/calls.cc:2151-2175 | the expansion fails (the resize to a negative target, about 2^64 elements) exactly when the target is negative and some branch of the value is a tuple or does not derive from Array; array values that are not tuples pass through whatever the target |
| MagicIntrinsics.ExpandArrayShape | core/types/calls.cc:2151-2175 | outside unions, a successful expansion is the unchanged value when it derives from Array and is not a tuple, and otherwise a tuple of at least the target length that starts with the tuple's elements, or with the value itself |
| MagicIntrinsics.ExpandArrayIdempotent | core/types/calls.cc:2151-2175 | outside unions, expanding a successful expansion again to the same target changes nothing |
| MagicIntrinsics.ExpandSplat | core/types/calls.cc:2150-2193 | other than three arguments gives the untyped array; non-literal counts give untyped; otherwise the value is expanded to before + after elements, evaluated in 32-bit int, and there is no result exactly when that target is negative and the expansion reaches a resize |
| MagicIntrinsics.ExpandSplatSmallCounts | core/types/calls.cc:2177-2192 | for the small non-negative counts the desugarer emits, the target is their plain sum and a result is always set |
| MagicIntrinsics.ExpandSplatArrayPassesThrough | core/types/calls.cc:2156-2162 | an array value that is not a tuple is the result whatever the counts, even when their sum is negative |
| TupleIntrinsics.SquareBrackets | core/types/calls.cc:3003-3028 | a result exactly for one integer literal; it is the element at that index, counting from the end for a negative index, and nil outside the tuple |
| TupleIntrinsics.SquareBracketsNegative | core/types/calls.cc:3003-3028 | index -i and index n - i give the same type |
| TupleIntrinsics.First | core/types/calls.cc:3047-3062 | a result exactly without arguments: the first element, or nil for the empty tuple |
| TupleIntrinsics.Last | core/types/calls.cc:3030-3045 | a result exactly without arguments: the last element, or nil for the empty tuple |
| TupleIntrinsics.FirstLastAreIndexing | core/types/calls.cc:3003-3062 | first is [0] and last is [-1] |
| TupleIntrinsics.MinMax | core/types/calls.cc:3064-3079 | a result exactly without arguments: the element type, or nil for the empty tuple |
| TupleIntrinsics.Sum | core/types/calls.cc:3081-3099 | a result exactly without arguments and without a block; the empty tuple sums to Integer |
| TupleIntrinsics.SumOfNonEmptyIsMinMax | core/types/calls.cc:3064-3099 | on a non-empty tuple, sum and min/max give the same type |
| TupleIntrinsics.Sample | core/types/calls.cc:3101-3127 | a result exactly with at most one argument and no block; with a count it is an array of the element type, or the empty tuple for the empty tuple |
| TupleIntrinsics.SampleOfNoArgsIsMinMax | core/types/calls.cc:3064-3127 | sample without arguments gives the same type as min |
| TupleIntrinsics.ToA | core/types/calls.cc:3129-3134 | the result is always set, to the receiver's type as written |
| TupleIntrinsics.FlattenAppend | core/types/calls.cc:3136-3152 | the elements of two sequences of tuples, concatenated, are the elements of their concatenation |
| TupleIntrinsics.ConcatSplit | core/types/calls.cc:3136-3152 | concatenating in two calls is concatenating in one, failure included |
| TupleIntrinsics.Concat | core/types/calls.cc:3136-3152 | a result exactly when every argument is a tuple; it starts with the receiver's elements and equals the receiver's elements followed by every argument's |
| ShapeMerge.IndexForKey | core/types/calls.cc:3293-3300 | no index exactly when the key is absent; otherwise the first position of the key |
| ShapeMerge.AddEntry | core/types/calls.cc:3293-3300 | adding a pair keeps keys and values the same length |
| ShapeMerge.AddEntryLookup | core/types/calls.cc:3293-3300 | after adding a pair its key maps to its value and every other key keeps its value |
| ShapeMerge.AddEntryKeys | core/types/calls.cc:3293-3300 | adding a pair leaves the key sequence unchanged when its key is present and otherwise appends its key once at the end, so keys that were distinct stay distinct |
| ShapeMerge.AddAllLookup | core/types/calls.cc:3302-3325 | adding pairs in order is a right-biased merge: a key takes the value of its last pair, and other keys keep theirs |
| ShapeMerge.AddAllKeys | core/types/calls.cc:3302-3325 | adding pairs keeps the existing keys in place, adds exactly the new keys, and never makes a key occur twice, even when a key recurs among the pairs |
| ShapeMerge.NumKwargs | core/types/calls.cc:3277-3279 | the inline keyword arguments are an even count, at most the non-positional count, and leave at most one argument over |
| ShapeMerge.MergeAsWrittenSpec | core/types/calls.cc:3267-3330 | a result exactly when there are arguments and no block, every inline keyword key is a symbol literal, and, when the last argument is taken as a hash, it is a shape whose keys are all literal types; a result is a well-formed shape |
| ShapeMerge.MergeSpec | core/types/calls.cc:3267-3330 | the corrected merge agrees with the source whenever it gives a result, and gives none exactly when the source gives none or there are positional arguments other than a sole hash |
| ShapeMerge.AddShapeEntry | core/types/calls.cc:3293-3300 | one call of addShapeEntry adds the pair |
| ShapeMerge.AddInlineKwargs | core/types/calls.cc:3302-3315 | the loop succeeds exactly when every inline key is a symbol literal, and then adds every inline pair in order |
| ShapeMerge.AddKwsplat | core/types/calls.cc:3317-3325 | the loop succeeds exactly when every key of the trailing hash is a literal type, and then adds every pair in order |
| ShapeMerge.MergeKeys | core/types/calls.cc:3267-3330 | the merged shape keeps the receiver's keys as a prefix, contains every inline key and every key of the trailing hash, contains nothing else, and has no key twice when the receiver has none twice |
| ShapeMerge.MergeLookup | core/types/calls.cc:3267-3330 | a key takes its value from the trailing hash, else from its last inline pair, else from the receiver |
| ShapeMerge.MergeAsWritten | core/types/calls.cc:3267-3330 | the method computes Shape#merge as the source does |
| ShapeMerge.MergeAsWrittenDropsPositionalHashes | core/types/calls.cc:3277-3315 | with two positional hash arguments and no keyword arguments the source returns the receiver's shape unchanged, dropping their keys, where the corrected definition gives no result |
| ShapeMerge.MergeAsWrittenKwsplatAfterPositional | core/types/calls.cc:3277-3325 | with two positional hashes and a trailing `**kwsplat` the source adds the kwsplat's keys only, still dropping the positional hashes' keys |
| ShapeMerge.MergeAsWrittenInlineAfterPositional | core/types/calls.cc:3277-3315 | with two positional hashes and an inline keyword pair the inline loop starts at the first argument, reads a positional hash as a key and gives no result |
| ShapeMerge.MergeCoversArguments | core/types/calls.cc:3267-3330 | with the corrected guard, every key of the receiver, of each positional hash and of the keyword pairs after the positional arguments is a key of the result |
| ShapeMerge.Merge | core/types/calls.cc:3267-3330 | the method computes the corrected Shape#merge |
| ArrayFlatten.FlattenArrayLevel | core/types/calls.cc:3532-3539 | each level of array nesting costs one level of depth |
| ArrayFlatten.RecursivelyFlatten | core/types/calls.cc:3511-3546 | flattening zero levels changes nothing; untyped, literal, shape and other types that are not unions, classes, applied classes or tuples are their own element type at every depth |
| ArrayFlatten.TypeToAry | core/types/calls.cc:3469-3507 | an untyped type, a type whose to_ary dispatch reports errors and a type whose to_ary returns nil are their own element type; running out of fuel happens only after a successful to_ary dispatch |
| ArrayFlatten.FlattenNested | core/types/calls.cc:3511-3546 | flattening k more levels than there are arrays reaches the type inside them |
| ArrayFlatten.FlattenFuelMonotone | core/types/calls.cc:3469-3546 | once flattening finishes within a to_ary bound, a larger bound gives the same type |
| ArrayFlatten.TypeToAryFuelMonotone | core/types/calls.cc:3469-3507 | the same for the to_ary step |
| ArrayFlatten.DepthOf | core/types/calls.cc:3557-3582 | no argument or a negative literal means depth 100, a non-negative literal is the depth, and there is no depth exactly with a non-literal argument or more than one argument |
| ArrayFlatten.Flatten | core/types/calls.cc:3549-3588 | no result exactly when there is no depth, with the literal error reported exactly for a single argument; otherwise the array of the receiver's element flattened by that depth, or FuelExhausted exactly when that flattening runs out of to_ary fuel |
| ArrayFlatten.FlattenNestedLiteral | core/types/calls.cc:3532-3588 | flatten(k + d) on k nested arrays equals flatten(d) on what they hold, and flatten(k) unwraps exactly those k levels |
| ArrayFlatten.ToArySelfLoopNeverFinishes | core/types/calls.cc:3469-3507 | a class whose to_ary returns the class itself never reaches an element type at a positive depth, whatever the fuel, so flatten without a depth runs out of fuel |
| ArrayFlatten.FlattenNegativeDepthIsDefault | core/types/calls.cc:3571-3578 | a negative depth flattens like no depth |
| ArrayFlatten.FlattenZeroIsIdentity | core/types/calls.cc:3549-3588 | flatten(0) returns the array of the receiver's element type |

## Left out

- I/O, the logger, timers and error message texts. The model states only the error code and which error is reported.
- The typechecker's query engine. `ByLoc`, `BySymbolInFiles` and `BySymbol` return a description of the query and the files it covers, not its answers.
- Mapping a URI to a file, the ignore list, converting a position to a location, the staleness flag and short-name hashing. Their results are parameters.
- `FileRef::exists`, `Loc::exists` and `ShapeType::indexForKey` are not part of this model. A file handle exists when it is nonzero. A location exists when its file exists and its offsets are set. Key lookup finds the first equal key.
- LSPQuery.LocKey: the source compares by subtracting unsigned ids and offsets into an `int`. The model compares the mathematical values lexicographically; the two agree while differences stay below 2^31.
- Sequences.SortBy: `fast_sort` promises nothing about the order of equal keys. The model fixes a stable insertion sort, so the order of answers (or overloads) with equal keys is the model's, not the library's.
- Name lookup of overloads and the `asSeenFrom` translation of parameter types are parameters of `GuessOverload`.
- The type algebra (union, subtyping, full definedness, tuple element type, approximation, dispatching `to_ary`) is the uninterpreted `TypeOps`.
- Integer literal values are unbounded integers; the source stores them as `int64_t`.
- MagicIntrinsics.ExpandSplat: in C++, `before + after` on `int` that overflows is undefined behaviour. The model reads it as a 32-bit two's-complement wrap (`Int32`), which is what common compilers produce but not what the language promises.
- MagicIntrinsics.ExpandArray: when the 32-bit target is negative and some branch of the value is a tuple or does not derive from Array, the source compares the size with the target converted to an unsigned size and asks `vector::resize` for about 2^64 elements, which fails. The model returns None for the whole expansion there instead of describing that failure. Array values that are not tuples still pass through.
- ArrayFlatten.RecursivelyFlatten: nothing in the source bounds how often `to_ary` leads to another type, so the model takes a fuel bound and reports `FuelExhausted` when it runs out. Beyond fuel monotonicity, the only property about that outcome is `ToArySelfLoopNeverFinishes`: a `to_ary` that returns its own class makes the source recurse without end.
- ArrayFlatten.RecursivelyFlatten: an applied Array type with no type arguments is excluded by an ENFORCE in the source. The model returns it unchanged.
- ArrayFlatten.Flatten: the receiver may be any applied class deriving from Array with at least one type argument. The model takes its first type argument as the source does and does not check the Array ancestry.
- The origins and locations carried with argument types.

## Findings

| source | as written | input that shows it | evidently intended | confidence | as-written member | corrected member |
|---|---|---|---|---|---|---|
| core/types/calls.cc:3277-3315 | With more than one positional argument the inline-keyword loop reads pairs from index 0 and no positional hash is taken as the trailing hash, so the positional hashes are never merged. Without keyword arguments the call gets the receiver's shape unchanged; with a trailing `**kwsplat` only the kwsplat's keys are added; with inline keyword pairs a positional hash is read as a key and there is no result | `{a: Integer}.merge({b: nil}, {c: nil})`: two positional shape arguments, no keyword arguments | add every hash argument's keys, or give no result so the declared `Hash` signature applies | medium, not executed | ShapeMerge.MergeAsWrittenDropsPositionalHashes | ShapeMerge.MergeCoversArguments |
