# Typelib in Dafny

Typelib describes C and C++ types, compiles each type into a small program of words, and interprets that program to
dump, load, copy, compare, initialise and destroy values in raw memory. This project models that compiler, its
optimisers and its interpreters, together with the byte-order swap that is compiled in the same way, the algorithms on
the graph of types, the exporter, the element lifecycle of vectors and the memory table of the Ruby bindings.

`dafny verify dfyconfig.toml` verifies all of it.

## How it is modelled

- **Programs.** A layout is a sequence of words (`Layouts.MemoryLayout`). The structured form is a `Code` with operations
  and nested blocks (`Bytecode`); `Reads` says that the words at a position spell a given `Code`. Methods work on words as
  the C++ code does, with iterators, counters and truncation, and their contracts speak of the `Code`.
- **Visits.** What a program does to memory is its trace (`Tracing`): bytes at offsets, and containers with the trace of one
  element. `Types.Visits` gives the visits of a type directly, from its fields and sizes, without a program.
- **Places and parts.** What the interpreters do to a value is also said without programs or visits: of the flat list of its numbers,
  enumerations and containers with their addresses (`Places`), or by recursion over the type alone (`Sameness`).
- **Memory** is a sequence of cells: a raw byte, or the head of a container object with the memories of its elements
  (`Memory`). Container classes are vectors, given by stride and blank element (`Vectors`) and by element type (`Kinds`).
- **Container handles** stand for the addresses of container types. They are above the opcodes where the code relies on it.
- **Nesting** of containers has no bound: the ghost parameter `n` of the interpreters is any number not below the depth of the type.
- **The registry** appears in four modules, each with the part that the operations there read and write: dependencies
  (`Removal`), sizes and offsets (`Resizing`, `ResizeRegistry`), names (`Namespaces`), derived types (`TypeBuilder`).
- **Types that may refer to themselves** are nodes of a graph (`TypeEquality`, `Dependencies`).

## Findings

Where the code does not have a property that it seems meant to have, the project states an input that shows it and the
exact condition under which the property holds.

- **Vanishing array bodies.** Four words are dropped when the body of an array simplifies to nothing, although only two have
  been written when nothing was pending (`typelib/memory_layout.cc:312-316`, `typelib/memory_layout.cc:194-198`).
  `Optimizer.SimplifyFrom` and `InitOptimizer.SimplifyInitFrom` fail exactly in that case (`Stumbles`), `Optimizer.SquashArray` shows
  the loss, `Optimizer.UnluckyStumbles` and `UnluckyIsDestroyed` an input, `Optimizer.VanishesExactly` when a body vanishes. For the init
  program these are `InitOptimizer.SquashRepeat`, `UnluckyStumbles` and `UnluckyIsLost`: a container is never initialised.
- **Bulk vectors and layouts that are not merged.** A vector whose merged element layout is one copy reads the second word of
  whatever block it is given (`lang/csupport/containers.cc:308-313`). Through raw and unmerged layouts this goes wrong.
  `Unmerged.ShortcutExactly`, `RawFitsExactly` and `UnmergedFitsExactly` say exactly when it does not; `RawVectorFails` and
  `UnmergedVectorFails` are inputs. Merged layouts are always fit (`Marshalling.MergedFits`).
- **Copies that stay apart.** Without merging, a skip of 0 bytes between two copies still separates them (`Leftovers.PairTouches`, a
  structure of two numbers). `Leftovers.UnmergedApart` says exactly when copies are left side by side; merged layouts
  never have any (`Simplification.MergedIsNormal`).
- **Trailing skips.** Plain padding at the end is dropped at top level whatever the flag says (`typelib/memory_layout.cc:360-364`). The
  flag makes a difference to arrays of padding only, and only without merging (`Leftovers.FlagMatters`). `Leftovers.SimplifiedSpan` gives the
  bytes dropped for each flag. All interpreters but zero do the same with and without them.
- **Zero** acts on padding too, so through the raw and the unmerged layout it leaves different memory if and only if padding is dropped at
  the end (`ZeroingUnmerged.UnmergedZeroes`, with the input `ZeroingUnmerged.PaddingDiffers`).
- **Empty arrays.** zero, init, destroy, copy and compare do not step over the block of an array without elements
  (`typelib/value_ops.cc:310-318`). They complete exactly when there is none, but for arrays whose block has no operation
  (`Zeroing.ZeroFrom`, `Initializer.InitFrom`, `Comparison.CompareFrom`, `Duplication.CopyFrom`, `Destruction.DestroyFrom`). dump and load do
  step over it. The swap interpreter does not (`EndianExec.SwapFrom`).
- **Loading an empty container** leaves the target's elements in place (`RoundTrip.StaleTarget`). The loaded value equals the
  dumped one exactly when no such target is met (`RoundTrip.LoadDumped`), which holds of every initialised target.
- **Loading the memory of a whole value.** A buffer may be longer than what the layout reads by the padding behind the last field
  (`typelib/value_ops.cc:878-879`), but padding at the end of that field's own type is dropped from the layout too and not allowed for
  (`Images.WholeIsRefused`). For types without containers `Images.LoadImage` says exactly which buffers are taken, `Images.LoadWhole` when the
  memory of the value is.
- **Validation of constant data** admits a length that is one word too long (`typelib/memory_layout.cc:414`); its
  iterator then runs past the end (`Validation.ValidateInit`).
- **Byte swap of padded structures.** Padding at the end of a structure does not advance the output
  (`typelib/endianness.cc:113-115`). The compiled swap is right exactly on tight types (`EndianTheorems.RightExactlyWhenTight`);
  `EndianExec.PaddedIsLoose` is an input.
- **Type equality is not symmetric** (`TypeEquality.NotSymmetric`): a left type may meet one right type only, but not the other way round.
  It is symmetric exactly where an injective bisimulation exists (`TypeEquality.SymmetricExactlyWhenInjective`), and the
  recorded pairs tell (`TypeEquality.IsSame`).
- **Resizing a structure whose changes cancel out** moves its fields once for every visit, since it is not entered in the memo
  (`typelib/typemodel.cc:418-423`). `ResizeRegistry.Resize` gives the exact condition, `ResizeRegistry.Misplaced` an input,
  `ResizeRegistry.GrowthNeverCancels` a condition on the request alone.
- **A registration that is refused** has already changed the table (`MemoryZones.MemoryTable.Wrap`).
- **Wrapping a pointer whose object was collected** while other entries held the pointer returns that object
  (`MemoryZones.StaleWrapper`); `Wrap` says exactly when the result is live.
- **The order of names** is described as putting deeper namespaces first. It does not (`NameOrder.DeeperNotFirst`).
- **Reading a type name** inverts writing it exactly for bases of two characters or more that do not themselves end like a derived
  name (`TypeNames.RoundTrip`).

## Model

| member | source | states |
|---|---|---|
| `Bytecode.SkipBlock` | typelib/memory_layout.cc:515-544 | from the start of a block, or from a container handle that is no opcode, the position returned is the END that running the block reaches |
| `Bytecode.ReadsUnique` | typelib/memory_layout.cc:515-544 | a position in a word sequence is the start of at most one structured program |
| `Layouts.MemoryLayout.PushMemcpy` | typelib/memory_layout.cc:15-32 | words and init words appended; refused exactly when init data is given and has another length, with the copy words already appended |
| `Layouts.MemoryLayout.PushArray` | typelib/memory_layout.cc:52-65 | both programs get the element program between a header and an END |
| `Layouts.MemoryLayout.PushContainer` | typelib/memory_layout.cc:67-75 | the element program goes to the copy program only, the init program gets one operation |
| `Compiler.EnumInitData` | typelib/memory_layout.cc:552-570 | no bytes when there is no entry; otherwise byte i is digit i, to the base 256, of the value of the first entry of the value map, negative values included |
| `Octets.EncodedByte` | typelib/memory_layout.cc:557-565 | the bytes of a number are its digits to the base 256, the lowest first |
| `Compiler.FirstValue` | typelib/memory_layout.cc:557-565 | converting the value to an unsigned one of 64 bits does not change the bytes taken from it |
| `Compiler.Visit` | typelib/memory_layout.cc:546-622 | throws exactly when some leaf of the type is a pointer or an opaque that is not accepted or that lies inside an array or a container, or an enumeration of more than 8 bytes; otherwise appends the two programs of the type |
| `Compiler.AcceptsExactly` | typelib/memory_layout.cc:571-622 | for every type and both flags, the recursion of the visitor accepts the type if and only if every leaf in the flat list of its leaves is permitted |
| `Types.RawIsExact` | typelib/memory_layout.cc:546-622 | for every type, the copy program advances exactly the size of the type and visits exactly its data bytes and containers, in order |
| `Compiler.RawInitIsExact` | typelib/memory_layout.cc:546-622 | for every type, the init program advances exactly the size of the type and writes exactly the enumerations and containers |
| `Builder.RawIsBalanced` | typelib/memory_layout.cc:546-622 | both raw programs of every type pass validation |
| `Validation.Validate` | typelib/memory_layout.cc:369-401 | accepts exactly the balanced words |
| `Validation.ValidateExact` | typelib/memory_layout.cc:369-401 | words are balanced if and only if they spell some structured program, from first word to last |
| `Validation.ValidateInit` | typelib/memory_layout.cc:403-441 | accepts exactly the words in which every block is closed and every operation complete; data one word short is not refused as too short but runs the iterator past the end |
| `Validation.InitWordsAreBalanced` | typelib/memory_layout.cc:403-441 | the words of every init program are accepted |
| `Optimizer.SimplifyFrom` | typelib/memory_layout.cc:256-367 | the in-place pass over words, with truncation and recursion, appends the words of the structured simplification; it fails exactly when an array body vanishes while nothing is pending |
| `Optimizer.SquashArray` | typelib/memory_layout.cc:278-334 | each of the four ways an array block is folded into what is pending; on the failing one, the words written before are lost |
| `Optimizer.SimplifyArray` | typelib/memory_layout.cc:272-334 | an array block, with its recursion: what is written, what is left pending, and what a failure destroys |
| `Optimizer.SolidNeverStumbles` | typelib/memory_layout.cc:312-316 | programs whose array bodies cover at least one byte never meet the failing branch |
| `Optimizer.VanishesExactly` | typelib/memory_layout.cc:312-316 | under merging a block simplifies to nothing if and only if it has no container and no bytes |
| `Optimizer.UnluckyStumbles` | typelib/memory_layout.cc:312-316 | a container followed by an array of empty structures meets the failing branch |
| `Optimizer.UnluckyIsDestroyed` | typelib/memory_layout.cc:312-316 | what is left of its output is not a program |
| `Simplification.UnmergedTrace` | typelib/memory_layout.cc:256-367 | without merging, for every program, the visits (bytes and containers, with offsets and order) are unchanged, whatever the trailing-skip flag |
| `Simplification.MergedTrace` | typelib/memory_layout.cc:335-364 | with merging, for every program, the visits are those of the program in which every skip but the trailing ones has become a copy |
| `Simplification.MergedCovers` | typelib/memory_layout.cc:335-364 | with merging, every byte and container of the program is still visited at its offset and nothing at or past the end of its last data |
| `Simplification.MergedIsNormal` | typelib/memory_layout.cc:335-364 | the merged program has no skip and no two adjacent copies, at any depth |
| `Simplification.PlainMerges` | typelib/memory_layout.cc:323-334 | a container-free program merges into one copy over exactly its bytes |
| `Leftovers.SimplifiedSpan` | typelib/memory_layout.cc:360-364 | for both values of both flags, the program loses exactly the padding at its end, so it keeps its span if and only if there is none; without merging, arrays of padding count only when the flag is set |
| `Leftovers.LayoutSpan` | typelib/memory_layout.cc:360-364 | the layout of a type is as long as the type, but for the padding dropped at its end |
| `Leftovers.FlagMatters` | typelib/memory_layout.cc:360-364 | an array of padding at the end stays or goes with the flag, plain padding always goes |
| `Leftovers.UnmergedApart` | typelib/memory_layout.cc:335-355 | without merging, two copies are left side by side, at any depth, if and only if two non-empty copies had padding of total length 0 between them, and an operation for it |
| `Leftovers.PairTouches` | typelib/memory_layout.cc:335-355 | a structure of two numbers without padding is left as two copies |
| `Simplification.IsMemcpyExact` | typelib/memory_layout.cc:11-14 | a merged layout is a single copy if and only if the program has no container and at least one byte |
| `Types.UnmergedLayoutIsExact` | typelib/memory_layout.cc:233-245 | the unmerged layout of every type visits exactly the data of the type |
| `Types.MergedLayoutCovers` | typelib/memory_layout.cc:233-245 | the merged layout of every type visits all of its data and nothing in its trailing padding |
| `Types.LayoutNeverStumbles` | typelib/memory_layout.cc:233-245 | types without arrays of empty elements are always simplified |
| `InitCode.SimplifiedEffect` | typelib/memory_layout.cc:111-231 | for every init program, the simplified program has the same writes as the raw one |
| `InitOptimizer.SimplifyInitFrom` | typelib/memory_layout.cc:134-231 | the in-place pass over init words appends the words of the structured simplification; its failing case is exact |
| `InitOptimizer.SquashRepeat` | typelib/memory_layout.cc:177-204 | each of the ways a repeated block is folded into what is pending; on the failing one, the words written before are lost |
| `InitOptimizer.UnluckyStumbles` | typelib/memory_layout.cc:194-198 | a container followed by an array of empty structures meets the failing branch |
| `InitOptimizer.UnluckyIsLost` | typelib/memory_layout.cc:194-198 | what is left of its output does not initialise the container |
| `Builder.SimplifyInit` | typelib/memory_layout.cc:111-122 | a result that is one skip is cleared; fails exactly in the failing case of the pass |
| `Compiler.InitLayoutIsExact` | typelib/memory_layout.cc:111-231 | the simplified init program of every type writes exactly the enumerations and containers of the type |
| `Builder.LayoutOf` | typelib/memory_layout.hh:155-184 | the layout of a type: produced exactly when every leaf of the type is permitted and the passes never meet a failing branch, and then both programs are the specified ones and pass validation |
| `Builder.LayoutIsSafe` | typelib/memory_layout.hh:180-184 | types without arrays of empty elements never meet a failing branch |
| `Marshal.OutputStream.Write` | typelib/value_ops.cc:739-754 | all of the data is appended, or none when it does not fit in the caller's buffer |
| `Marshal.Dump` | typelib/value_ops.cc:58-122 | the bytes written are those of the visits of the program, container counts and elements included; fails exactly when they do not fit |
| `Marshal.DumpContainer` | lang/csupport/containers.cc:300-327 | one count of eight bytes, then the elements, by one bulk write or one by one; both write the same |
| `Memory.CountByte` | typelib/value_ops.cc:104-105 | the count written in front of the elements has eight bytes, the lowest first |
| `Marshal.BulkExact` | lang/csupport/containers.cc:308-313 | the bulk write has the length of the element-wise dump if and only if the block is one copy of the element size |
| `Marshal.DumpBuffer` | typelib/value_ops.cc:756-781 | into a buffer of given size: all of the bytes and their number, or 0 |
| `Images.DumpIsImage` | typelib/value_ops.cc:58-122 | for every type without containers, the dump is the memory of the value, without the padding at its very end |
| `Unmarshal.InputStream.Read` | typelib/value_ops.cc:839-859 | hands out the next bytes or, when there are too few, none |
| `Unmarshal.LoadContainer` | lang/csupport/containers.cc:329-360 | reads a count, resizes, then loads the elements in bulk or one by one with the same result; a count of 0 leaves the target alone |
| `Unmarshal.LoadFrom` | typelib/value_ops.cc:124-190 | memory and remaining input after a load are those of loading the visits one by one; fails exactly when the input is too short |
| `Unmarshal.LoadBuffer` | typelib/value_ops.cc:861-884 | succeeds exactly when the program finds its bytes and what is left over is nothing or as much as the trailing padding |
| `Images.LoadImage` | typelib/value_ops.cc:861-884 | for every type without containers and every buffer: taken exactly when its length is that of the value up to the padding at its very end, or longer by the padding behind the last field; the memory then holds the buffer and is otherwise unchanged |
| `Images.LoadWhole` | typelib/value_ops.cc:876-883 | a buffer of the size of the value is taken if and only if there is no padding at the very end, or all of it is behind the last field of the outermost structure |
| `Images.WholeIsRefused` | typelib/value_ops.cc:876-883 | the memory of a structure whose last field is a padded structure is refused |
| `Images.PaddingExactly` | typelib/typemodel.cc:321-337 | the trailing padding reaches from the end of the last field to the end of the structure |
| `RoundTrip.LoadDumped` | typelib/value_ops.cc:58-190 | loading a dump consumes exactly the dumped bytes, whatever follows; the value then equals the dumped one if and only if no non-empty container of the target met an empty one |
| `RoundTrip.FreshReceives` | typelib/value_ops.cc:124-190 | a target whose containers are empty always qualifies |
| `RoundTrip.StaleTarget` | lang/csupport/containers.cc:329-360 | a vector of one element that receives an empty vector keeps its element |
| `Marshalling.MergedFits` | lang/csupport/containers.cc:300-360 | in a merged program every bulk container has the block its shortcut expects |
| `Marshalling.LayoutRuns` | typelib/value_ops.cc:58-190 | the merged layout of every type can be run on every value of the type |
| `Marshalling.RoundTripOfType` | typelib/value_ops.cc:58-190 | for every type and value: the dump through the merged layout, loaded into an initialised value, consumes exactly its bytes and gives an equal value |
| `Marshalling.BlankIsEmpty` | typelib/value_ops.cc:341-396 | what init leaves in raw memory is a value of the type with empty containers |
| `EndToEnd.DumpLoadCompare` | typelib/value_ops.cc:58-208 | layout, init of raw memory, dump, load and compare one after the other, for every supported type and value: all succeed, compare answers true, and the two values are equal part by part of their type |
| `EndToEnd.DumpLoadInto` | typelib/value_ops.cc:58-190 | the same into any value without elements |
| `EndToEnd.LoadShaped` | typelib/value_ops.cc:124-190 | whatever the bytes, a load that succeeds leaves a value of the layout |
| `Comparison.CompareFrom` | typelib/value_ops.cc:503-569 | answers equal or different as the values are, fails only at an array without elements whose block is not empty, and reaches the end of the program when equal |
| `Comparison.CompareVectors` | lang/csupport/containers.cc:196-222 | equal counts, and equal elements one by one |
| `Comparison.Compare` | typelib/value_ops.cc:277-288 | fails where the type has no layout with pointers accepted, or at an empty array; otherwise true if and only if the values are equal part by part: numbers, enumerations and pointers by their bytes, containers by their counts and elements; padding and opaques do not count |
| `Sameness.SameExactly` | typelib/value_ops.cc:503-569 | agreeing on all the visits of a type is the same as having equal parts, by recursion over the type alone |
| `Zeroing.ZeroFrom` | typelib/value_ops.cc:290-339 | over words: padding is cleared along with data and containers are emptied; completes if and only if no array without elements has operations in its block |
| `Zeroing.ZeroIsExact` | typelib/value_ops.cc:290-339 | for every value, the merged layout leaves every data byte 0 and every container empty, which is a value again, and the trailing padding as it was |
| `Zeroing.ZeroValue` | typelib/value_ops.cc:210-225 | fails exactly where the type has no layout or the walk does not complete; otherwise every byte of every number and enumeration is 0, every container is empty, and the result is a value |
| `Zeroing.ZeroExactly` | typelib/value_ops.cc:290-339 | the visits of a type are cleared if and only if every place in the flat list of its places is |
| `Duplication.CopyFrom` | typelib/value_ops.cc:446-501 | the walk of copy over words, each container copied by its own class; completes if and only if no array without elements has operations in its block |
| `Duplication.CopyObject` | lang/csupport/containers.cc:224-258 | resize, then a bulk copy or one copy per element through the element layout |
| `Duplication.CopyValue` | typelib/value_ops.cc:244-267 | fails exactly where the type has no layout or the walk does not complete; otherwise, for every pair of values, the copy equals the source part by part |
| `Duplication.CopyCompares` | typelib/value_ops.cc:446-501 | for every type, values and depth of nesting, the copied value equals the source, and the trailing padding keeps its old bytes |
| `Destruction.DestroyFrom` | typelib/value_ops.cc:398-444 | the walk of destroy over words logs the container objects it destroys; completes if and only if no array without elements has operations in its block |
| `Destruction.DestroyObject` | lang/csupport/containers.cc:56-62 | clearing a vector destroys the containers in its elements before the vector itself |
| `Destruction.DestroyValue` | typelib/value_ops.cc:227-242 | fails exactly where the type has no layout or the walk does not complete; otherwise exactly the container objects that the type has in the value are destroyed, each once, those in its elements before the container |
| `Destruction.DestroyIsComplete` | typelib/value_ops.cc:398-444 | the merged layout misses no container object, although bulk vectors are not walked |
| `Destruction.ObjectsExactly` | typelib/value_ops.cc:398-444 | the container objects along the visits of a type are those found by recursion over the type alone |
| `Initializer.InitFrom` | typelib/value_ops.cc:341-396 | memory after the init program is memory with its writes applied; completes if and only if no block repeated 0 times has operations in it |
| `Defaults.InitIsExact` | typelib/value_ops.cc:341-396 | the writes of the init layout of a type leave every enumeration with its first value, every container outside containers empty, and no other byte changed |
| `Initialization.InitLayoutRuns` | typelib/value_ops.cc:341-396 | the init layout of every type without empty arrays completes |
| `Initialization.InitValue` | typelib/value_ops.cc:193-208 | fails exactly where the type has no layout or the program does not complete; otherwise byte i of every enumeration with entries is digit i of its first value to the base 256, every container object is empty, every other byte is as it was, and raw memory has become a value |
| `InitPlaces.InitialisedPlaces` | typelib/value_ops.cc:341-396 | an initialised value has every enumeration and container in the flat list of its places set up, and no byte outside them changed |
| `Values.InitialisedIsEmpty` | typelib/value_ops.cc:341-396 | initialised raw memory is a value of the type |
| `Unmerged.UnmergedCopies` | typelib/memory_layout.cc:256-367 | copy leaves the same through the raw and through the unmerged program |
| `Unmerged.UnmergedDestroys` | typelib/memory_layout.cc:256-367 | destroy destroys the same objects in the same order through both |
| `ZeroingUnmerged.UnmergedReaches` | typelib/memory_layout.cc:256-367 | what zero clears through the raw program is what it clears through the unmerged one, and then the bytes dropped at the end |
| `ZeroingUnmerged.UnmergedZeroes` | typelib/memory_layout.cc:256-367 | zero leaves the same through both, on every memory, if and only if nothing is dropped at the end |
| `ZeroingUnmerged.ZeroDiffers` | typelib/memory_layout.cc:360-364 | otherwise memory full of ones shows the difference, in its last byte |
| `ZeroingUnmerged.PaddingDiffers` | typelib/memory_layout.cc:360-364 | a structure of two numbers with padding behind them is such a program |
| `Unmerged.UnmergedCompares` | typelib/memory_layout.cc:256-367 | compare answers the same through the raw and through the unmerged program |
| `Unmerged.UnmergedMarshals` | typelib/memory_layout.cc:256-367 | where dump and load apply, they give the same bytes and values through both |
| `Unmerged.ShortcutExactly` | lang/csupport/containers.cc:308-313 | the bulk shortcut works for a block if and only if the block is one copy of the element size |
| `Unmerged.FitsExactly` | lang/csupport/containers.cc:300-360 | a program can be dumped and loaded if and only if every block of a bulk vector is one copy of the element size |
| `Unmerged.RawFitsExactly` | lang/csupport/containers.cc:300-360 | the raw program of a type can be dumped if and only if vectors of container-free elements are vectors of numbers, enumerations or pointers |
| `Unmerged.UnmergedFitsExactly` | lang/csupport/containers.cc:300-360 | the unmerged layout of a type can be dumped if and only if vectors of container-free elements have elements that amount to one run of copied bytes: no block that stays, no padding, and none of length 0 between two copies |
| `Unmerged.SoloIsLone` | lang/csupport/containers.cc:300-360 | where everything takes space, those are the types with one number at the bottom, under arrays and structures of one field that fills them |
| `Unmerged.RawVectorFails` | lang/csupport/containers.cc:308-313 | vectors of a structure with one field cannot be dumped through the raw program, but can be through the unmerged layout |
| `Unmerged.UnmergedVectorFails` | lang/csupport/containers.cc:308-313 | vectors of a structure of two fields cannot be dumped through the unmerged layout either, but can be through the merged one |
| `Lifecycle.Vector.Resize` | lang/csupport/containers.cc:93-142 | for every old size, new size and capacity: only unbuilt slots are initialised, only built ones destroyed, the first min(old, new) values stay, exactly the slots below the new size are built, and a buffer that is given up holds none |
| `Lifecycle.Vector.MoveTo` | lang/csupport/containers.cc:122-134 | on reallocation every element is moved, and the old buffer is left without built slots |
| `Lifecycle.Vector.Push` | lang/csupport/containers.cc:144-157 | one element more, the others as before |
| `Lifecycle.Vector.EraseAt` | lang/csupport/containers.cc:185-194 | the element is gone, the later ones move down, in the same buffer |
| `Lifecycle.Vector.Erase` | lang/csupport/containers.cc:159-183 | the first element that compares equal to the value goes; answers whether there was one |
| `Lifecycle.Vector.DeleteIf` | lang/csupport/containers.cc:276-298 | exactly the elements that the predicate does not hold of stay, in order |
| `EndianSwap.SwapCompiler.EmitSkip` | typelib/endianness.cc:15-25 | adjacent skips become one |
| `EndianSwap.SwapCompiler.Visit` | typelib/endianness.cc:27-118 | the words emitted for a type, array squashing and patching included; refuses exactly pointers, opaques, containers and unusual widths |
| `EndianSwap.SwapCompiler.VisitArray` | typelib/endianness.cc:63-93 | arrays of arrays are multiplied out, arrays of bytes become skips |
| `EndianExec.SwapFrom` | typelib/endianness.cc:127-196 | the interpreter over words fills the output as the structured program says; it completes if and only if no array has a count of 0 |
| `EndianExec.CompiledStaysInside` | typelib/endianness.cc:127-196 | every index read or written lies before the end of the last field |
| `EndianExec.SwapValue` | typelib/endianness.cc:120-196 | compile, then swap: refused exactly when the type has a pointer, an opaque, a container or a number of an unusual width as a part; on tight types every number and enumeration of the output is that of the input back to front, in its place, the bytes between are copied, and nothing after the last field changes |
| `SwapPlaces.SupportedExactly` | typelib/endianness.cc:27-118 | the recursion of the visitor accepts a type if and only if every part of it is usual |
| `SwapPlaces.SettledTurns` | typelib/endianness.cc:127-196 | what the in-place visitor leaves has every place of the type turned round and every other byte as it was |
| `EndianTheorems.CompiledIsRight` | typelib/endianness.cc:15-196 | for every tight type and every input the compiled swap agrees with the in-place visitor |
| `EndianTheorems.RightExactlyWhenTight` | typelib/endianness.cc:97-118 | the compiled swap is right on all inputs and outputs if and only if padding at the end of a structure is only found where nothing follows it |
| `EndianTheorems.LooseFallsShort` | typelib/endianness.cc:97-118 | otherwise the last byte of the last field is never written |
| `EndianTheorems.CompiledTwice` | typelib/endianness.cc:15-196 | swapping twice restores every byte up to the end of the last field |
| `EndianExec.PaddedIsLoose` | typelib/endianness.cc:97-118 | two structures of four bytes and one: a byte of the second comes out wrong |
| `EndianBits.Swap2Reverses` | typelib/endian_swap.hh:26-27 | swapping two bytes reverses them |
| `EndianBits.Swap4Reverses` | typelib/endian_swap.hh:28-29 | swapping four bytes reverses them |
| `EndianBits.Swap8Reverses` | typelib/endian_swap.hh:30-42 | swapping eight bytes swaps the halves and reverses each |
| `TypeEquality.RecCompare` | typelib/typemodel.cc:76-100 | on any graph, cycles included: a pair answered true is backed by the recorded pairs, and a pair that some bisimulation relates is answered true |
| `TypeEquality.IsSame` | typelib/typemodel.cc:54-62 | terminates on every graph; true if and only if a bisimulation relates the two types, and then the recorded pairs are one; never true of types that differ in category, size, numeric category, values, opaque name, dimension, factory, or the number, names or offsets of fields, and always of types that differ in none of these and refer to the same types |
| `TypeEquality.BisimulationExactly` | typelib/typemodel.cc:240-257 | a set of pairs is a bisimulation if and only if the two types of each pair agree in every attribute, and what they refer to, field by field, is one type or again a pair |
| `TypeEquality.EqualUnfolds` | typelib/typemodel.cc:338-365 | equal types have the same paths of fields and indirections, and the types at the end of each agree in every attribute |
| `TypeEquality.NotSymmetric` | typelib/typemodel.cc:81-90 | two types equal one way round and not the other |
| `TypeEquality.SymmetricExactlyWhenInjective` | typelib/typemodel.cc:81-90 | equality holds the other way round if and only if an injective bisimulation relates the types |
| `Resizing.Registry.Resize` | typelib/typemodel.cc:140-152 | a type is resized at most once; the answer is whether it had to be |
| `Resizing.Registry.ResizeFields` | typelib/typemodel.cc:404-424 | fields move by what has changed in front of them |
| `ResizeRegistry.Resize` | typelib/registry.cc:561-582 | a type that is asked for has the size of the last request; of the others, plain types and pointers keep theirs, structures grow by what their fields grow by, and arrays that were as long as their elements still are; a structure keeps its first offset, every gap and its trailing padding if and only if its changes do not cancel out, or no other type that is not itself resized holds it |
| `ResizeRegistry.ArraysFollow` | typelib/typemodel.cc:552-559 | every array is its dimension times the size of its element |
| `ResizeRegistry.GrowthNeverCancels` | typelib/typemodel.cc:418-423 | when no size shrinks, changes never cancel out |
| `ResizeRegistry.UnaffectedKeeps` | typelib/typemodel.cc:404-424 | types that no request reaches keep size and offsets |
| `ResizeRegistry.Misplaced` | typelib/typemodel.cc:418-423 | two fields of 4 and 8 bytes that exchange sizes, in a structure inside another: the second field ends up in the wrong place |
| `Removal.ReverseDepends` | typelib/registry.cc:584-615 | exactly the type itself and the registered types from which a chain of dependencies leads to it |
| `Removal.Registry.Remove` | typelib/registry.cc:630-651 | exactly those types go, under all names; no name that is left stands for one of them or for a type that needs one, and the registry stays closed under dependencies |
| `NameOrder.NameSort` | typelib/registry.cc:25-44 | before means: equal up to some place, and there the name ends or has the earlier character, the namespace mark being the earliest |
| `NameOrder.Transitive` | typelib/registry.cc:25-44 | the order is transitive |
| `NameOrder.Total` | typelib/registry.cc:25-44 | two different names are ordered one way or the other |
| `NameOrder.Irreflexive` | typelib/registry.cc:25-44 | no name comes before itself |
| `NameOrder.Contiguous` | typelib/registry.cc:25-44 | names with a common beginning lie together, from that beginning on |
| `NameOrder.DeeperNotFirst` | typelib/registry.cc:21-24 | a name in a deeper namespace need not come first |
| `Namespaces.Registry.ImportNamespace` | typelib/registry.cc:91-106 | the names of the namespace, all of them and no others, can be used without it; existing names give way exactly when asked to |
| `Namespaces.Registry.UpdateCurrentNames` | typelib/registry.cc:62-78 | the names in use are rebuilt: full names as registered, relative names by the deepest namespace |
| `Namespaces.Registry.SetDefaultNamespace` | typelib/registry.cc:81-89 | on success every relative name stands for the type of the deepest enclosing namespace that defines it, and for nothing if none does; every full name stands for its own type |
| `Namespaces.WholeNamespace` | typelib/registry.cc:69-77 | the namespaces entered one by one add up to the namespace asked for |
| `Exporter.Scan` | typelib/exporter.cc:59-78 | entries whose dependencies are saved are set free, no others |
| `Exporter.Save` | typelib/exporter.cc:33-132 | terminates on every dependency-closed registry; throws if and only if there is a dependency cycle; otherwise every persistent entry is written, in order, and the order is fixed: rounds of entries that can be saved, a round of persistent ones starting in the namespace last written to if it can and ending before another namespace, then what is left in name order |
| `Exporter.RunStays` | typelib/exporter.cc:88-118 | of any entry that could be saved when a run starts: it is persistent; if it is in the namespace last written to, the run is in it too and starts no later; the run starts later than it only for that namespace; and if the run starts before it and leaves it out, an entry of another namespace lies between |
| `Exporter.WrittenOnce` | typelib/exporter.cc:33-132 | every persistent entry is written exactly once and no other entry is |
| `Exporter.WrittenAfterReached` | typelib/exporter.cc:33-132 | an entry is written after every persistent type that a chain of dependencies leads to, an alias after its target |
| `Exporter.StuckIsCyclic` | typelib/exporter.cc:80-86 | when nothing can be set free, there is a cycle |
| `MemoryZones.MemoryTable.Unref` | bindings/ruby/ext/memory.cc:126-160 | one holder less, and everything that goes with the last one: the free, the root, the layout |
| `MemoryZones.MemoryTable.Wrap` | bindings/ruby/ext/memory.cc:267-288 | when a registration is refused, and that refusal leaves the table out of order; whether the object returned is live |
| `MemoryZones.MemoryTable.Register` | bindings/ruby/ext/memory.cc:197-219 | the table stays in order exactly when the registration is accepted |
| `MemoryZones.MemoryTable.Allocate` | bindings/ruby/ext/memory.cc:221-234 | a new owned entry without a root |
| `MemoryZones.MemoryTable.Init` | bindings/ruby/ext/memory.cc:236-265 | refused exactly when the zone already has a value; the layout is shared and counted |
| `MemoryZones.MemoryTable.Invalidate` | bindings/ruby/ext/memory.cc:331-342 | every count stays the number of holders, and every owned registration is freed or still in the table |
| `MemoryZones.MemoryTable.Collect` | bindings/ruby/ext/memory.cc:117-124 | the same when the garbage collector takes the object |
| `MemoryZones.Drained` | bindings/ruby/ext/memory.cc:126-160 | when no object has a pointer any more, the table is empty and each owned registration has been freed exactly once |
| `MemoryZones.StaleWrapper` | bindings/ruby/ext/memory.cc:184-195 | a run in which wrapping a pointer returns an object that has been collected |
| `TypeNames.ParseTypename` | typelib/typebuilder.cc:119-153 | base and modifiers, read from the back; fails exactly where reading the name does |
| `TypeNames.RoundTrip` | typelib/typebuilder.cc:119-153 | for every base and any pointers and dimensions, reading the written name gives them back if and only if the base has two characters or more and does not end in a bracket, a star or a space |
| `TypeNames.ReprintsSame` | typelib/typebuilder.cc:119-153 | whatever was read, its written form reads the same |
| `TypeNames.WrittenOut` | typelib/typebuilder.cc:119-153 | a name written out |
| `TypeBuilder.Registry.Add` | typelib/typebuilder.cc:38-84 | the type of that name if there is one, else a new one under its own name |
| `TypeBuilder.Registry.Build` | typelib/typebuilder.cc:91-111 | the name built is the base name with the modifiers, each type on the way is registered once, and nothing changes if all are there |
| `TypeBuilder.Registry.BuildName` | typelib/typebuilder.cc:178-186 | malformed, unknown or built, exactly; a built type has the written name of what was read |
| `TypeBuilder.Registry.BuildTwice` | typelib/typebuilder.cc:178-186 | building a name twice gives one type, of that very name |
| `TypeBuilder.Registry.AddArrayMinor` | typelib/typebuilder.cc:55-71 | the new dimension goes below all those that the type has |

## Left out

- XML and IDL import and export, the clang and gccxml importers, plugin loading: foreign libraries, processes and files.
- The stream classes over file descriptors, `FILE*` and `std::ostream`; only the vector and byte-array streams are modelled.
- Ruby value wrappers, conversions, pretty printing and display code.
- `Registry::isSame`: its loop advances an end iterator, so it states no useful equality.
- `canCastTo`: only strict equality is modelled.
- `Registry::add` and the upkeep of relative names in it; validation of type names, which `add` performs. Derived types are added without it in `TypeBuilder`.
- `Registry::merge` and `minimal`, metadata, source ids.
- Wrap-around of `size_t`: sizes, offsets and counts are unbounded, except for the eight-byte element count of a dumped container. Products of an array dimension and a size are exact.
- Vectors whose element type has a layout that the passes spoil: the handles of a type stand for vectors whose elements have a layout (`Modelled`, `Coherent`).
- Zeroing.ZeroFrom: what becomes of the elements of a container that is emptied is that of `Lifecycle.Vector.Resize` to size 0, and is not shown again.
- Arrays and containers of pointers or opaques with the accept flags set: the visitors of elements do not inherit the flags, which `Compiler.Visit` models as refusal.
- Types whose fields are not sorted or overlap: the visitor demands sorted, disjoint fields (`Ordered`).
- Structures with recursive types in `Resizing`: the search does not terminate on them, and types are numbered after those they are built from.
- Resizing.Registry.Resize: the second half of a memo entry, the new size, is not kept, because nothing reads it back.
- EndianExec.SwapValue: enumerations smaller than an `int` and empty arrays are excluded. The swap of the first reaches beyond the value, and the interpreter does not complete on the second (`EndianExec.SwapFrom`). Input and output are distinct buffers.
- Duplication.CopyFrom: reads outside the source memory give no cell. For values of the type there are none.
- Lifecycle.Vector.Resize: elements are values in slots; the bytes of an element and vectors with bulk elements, which are resized as bytes, are not shown there.
- TypeNames.RoundTrip: dimensions are non-negative `int` values, because a larger one is not read back by `atoi`.
- TypeBuilder.Registry.Build: the size argument that overrides the size of the built type is not modelled.
- Namespaces.Registry.SetDefaultNamespace: characters are compared as unsigned, which agrees with `char` for the characters of valid names.
- Exporter.Save: what is written for an entry is the exporter's own; an entry counts as written when it is handed over.
