# dexvm, verified

dexvm is a virtual machine for Dalvik bytecode. This project models its engine in Dafny and
proves what the engine is for. It follows the code: where the code does not do what its
comments or the standards suggest, the model keeps the behaviour of the code and a lemma
says exactly when the natural claim holds.

## What is modelled

* **The interpreter** (`Decoder`, `Assembler`, `Programs`, `CodeIndex`, `Arithmetic`,
  `Interpreter`, `Instructions`, `Calls`, `Unwinding`, `BigStep`, `Samples`, `Discipline`,
  `Boundaries`, `Machine`). Code units are
  decoded into an index of instructions; a transition system executes them over an explicit
  stack of frames, a heap and a budget; exceptions unwind the stack through the try tables.
  The main results: the machine computes what a recursive evaluator computes, for every
  program, heap and budget; every pc of every reachable state is an instruction boundary;
  an instruction is decoded exactly where one of its forms stands, and the sweep recovers
  every program in any of its forms, wherever its inline data stand behind the instructions
  that own them; unwinding reaches exactly the innermost frame that handles what arrives at
  it, and a program shows that this need not be the exception that was thrown; a call hands
  over exactly the registers that it names, where the callee expects them. `Samples` follows a
  loop and a recursive method from their code units to the outcome of every run.
  `Machine.Vm` has the interpreter's methods over mutable fields, each proved against the
  transition system or the evaluator.
* **The heap and its collector** (`Heap`, `Collector`). An arena of objects with a free list,
  and mark-sweep collection as a worklist traversal. Marking is exactly reachability. The
  free list may hold a slot twice after two collections; when it does not, allocation is
  safe and the live count right, and the lemmas say when that is. What is live and reachable
  survives in any case. Six kinds of payload hold values that the scan passes over; a lemma
  says of every object graph whether one of them is left dangling.
* **JSON natives** (`Json`). A tree becomes a heap graph and is read back unchanged, also after
  a collection and further allocations.
* **The class table** (`ClassTable`, `Resolution`, `Subtyping`). Recursive loading with a real
  termination measure, field layout, method resolution and assignability.
  `Linking` connects it to the interpreter: the field slots of new objects, the exceptions a
  handler catches, and the method that each kind of call enters, with which registers.
* **Encodings** (`Cursors`, `EncodedValues`, `Signatures`). LEB128 (section 7.6 of DWARF
  Version 3), dex encoded values and method signatures, each with a proved inverse.
* **AES-GCM** (`Gf128`, `Squares`, `Words`, `Iterates`, `Orbits`, `Spans`, `Fields`, `Bytes`,
  `Hashing`, `Counters`, `Nonces`, `AesGcm`, `Conformance`). The mode layer over an arbitrary block function,
  against sections 5.2.1.1, 6.2 to 6.5, 7.1 and 7.2 of NIST SP 800-38D. The words are proved
  to be a field, with the orbit of one element as the certificate; from that follow exactly
  which nonces the code treats as the standard does, and which changes of the data the tag
  always shows. What `seal` returns is described bit by bit in the terms of the standard.

`Seqs`, `Wrappers`, `Runs` and `Values` hold shared definitions.

Things outside the engine are parameters: AES is any function on blocks; host methods,
resolution (which may run class initializers) and the instructions that are not spelled out
are any functions that may change the heap and the machine's tables (static fields, monitors,
string pools, class states) and use up budget; the shim table, the native
tables and the dex files are values. A panic of the host language is the failure `Panic`, or
no result.

## Model

| member | source | states |
|---|---|---|
| `Gf128.Mul` | src/vm/crypto.rs:17-33 | the 128 rounds leave the product of the two words in GF(2^128) |
| `Gf128.ProductLinear` | src/vm/crypto.rs:17-33 | multiplication distributes over xor, in either argument |
| `Gf128.ProductComm` | src/vm/crypto.rs:17-33 | the product does not depend on which word supplies the bits and which is turned |
| `Gf128.ProductAssoc` | src/vm/crypto.rs:17-33 | the product is associative |
| `Gf128.ProductUnit` | src/vm/crypto.rs:17-33 | the word with only the first bit set is a unit on both sides |
| `Gf128.Reduction` | src/vm/crypto.rs:18-31 | one more turn of x^127 gives exactly x^7 + x^2 + x + 1, the polynomial named in the source |
| `Squares.SquareHalves` | src/vm/crypto.rs:17-33 | the square of a word: exponents double, those from 128 on are reduced by the polynomial |
| `Words.SquareBlock` | src/vm/crypto.rs:17-33 | squaring by shifts and xors on 128-bit words is the square in the field |
| `Orbits.BlockOrbit` | src/vm/crypto.rs:17-33 | 127 steps of v -> v^2 + v lead from x^127 to 1 |
| `Spans.Dependent` | src/vm/crypto.rs:17-33 | m + 1 bit vectors of m places have a sum of some of them that is zero |
| `Fields.OwnSquare` | src/vm/crypto.rs:17-33 | only 0 and 1 are their own squares, so the polynomial is irreducible |
| `Fields.NoZeroDivisors` | src/vm/crypto.rs:17-33 | the words form a field: a product is zero if and only if a factor is |
| `Hashing.Ghash` | src/vm/crypto.rs:36-44 | the chunk loop computes GHASH of the bits padded with zeros to whole blocks |
| `Hashing.HashLinear` | src/vm/crypto.rs:36-44 | the hash of the xor of two inputs of one length is the xor of their hashes |
| `Hashing.HashZeroPadded` | src/vm/crypto.rs:36-44 | padding with zero bytes to a block boundary does not change the hash |
| `Hashing.HashIsPolynomial` | src/vm/crypto.rs:36-44 | the hash is the value at the key of the polynomial whose coefficients are the blocks |
| `Hashing.GhashInjective` | src/vm/crypto.rs:36-44 | two different sums, followed by the same blocks, lead to different hashes if and only if the key is not zero or nothing follows |
| `Hashing.ErrorSeen` | src/vm/crypto.rs:36-44 | changing one block changes the hash, wherever it stands, if and only if the key is not zero |
| `Counters.CounterLow` | src/vm/crypto.rs:51-54 | the n-th counter block has the low word of J0 plus n, modulo 2^32 |
| `Counters.CounterHigh` | src/vm/crypto.rs:51-54 | incrementing never touches the upper 96 bits |
| `Counters.CountersRepeat` | src/vm/crypto.rs:51-54 | counter blocks m and n are equal if and only if m - n is a multiple of 2^32 |
| `Counters.CountersDistinct` | src/vm/crypto.rs:106-119 | within 2^32 - 2 blocks no counter block repeats and none is J0 |
| `AesGcm.J0` | src/vm/crypto.rs:68-82 | the initial counter block, as coded |
| `Nonces.J0Conforms` | src/vm/crypto.rs:68-82 | J0 is the one of NIST SP 800-38D if and only if the nonce has 12 bytes or the key annihilates the difference of the last blocks |
| `Nonces.J0Exact` | src/vm/crypto.rs:68-82 | and so if and only if the nonce has 12 bytes, its bit length is a multiple of 2^64, or the hash key is zero: otherwise the code departs from the standard |
| `Conformance.StreamBit` | src/vm/crypto.rs:106-116 | bit k of what the chunk loop gives is bit k of the data, changed by bit k modulo 128 of the encryption of the counter block number k div 128, counted from 1 |
| `Conformance.SealConforms` | src/vm/crypto.rs:91-119 | data is what `seal` returns if and only if, bit by bit, it is the ciphertext under the blocks after J0 and the hash of the bit string of section 7.1 changed by the encryption of J0 itself; with the J0 of NIST SP 800-38D whenever the code has that one |
| `AesGcm.TagBuffer` | src/vm/crypto.rs:91-101 | the buffer that is hashed is, block by block, the string of section 7.1 step 5 of NIST SP 800-38D |
| `AesGcm.Tag` | src/vm/crypto.rs:91-103 | the tag is GHASH of that string masked with the encryption of J0 |
| `AesGcm.Mask` | src/vm/crypto.rs:111-114 | the byte loop xors a chunk, also a partial one, with the key stream |
| `AesGcm.Ctr` | src/vm/crypto.rs:106-116 | the chunk loop applies the key stream of counter blocks 1, 2, ... |
| `AesGcm.StreamInvolution` | src/vm/crypto.rs:127-136 | the key stream applied twice gives the data back, for every length |
| `AesGcm.Seal` | src/vm/crypto.rs:106-119 | ciphertext followed by its tag |
| `AesGcm.Open` | src/vm/crypto.rs:122-142 | too short, tag mismatch, or the plaintext |
| `AesGcm.RoundTrip` | src/vm/crypto.rs:106-142 | opening what was sealed gives the plaintext, for every nonce, associated data, length and block function |
| `AesGcm.OpenedWasSealed` | src/vm/crypto.rs:122-142 | open accepts exactly the outputs of seal: each error means that no plaintext seals to the data |
| `AesGcm.ErrorRejected` | src/vm/crypto.rs:122-142 | data with one block of the tag input changed and the old tag is accepted if and only if the change is none or the hash key is zero |
| `Cursors.Cursor.Seek` | src/dex/read.rs:43-49 | moves within the data, refuses beyond it |
| `Cursors.Cursor.U8` | src/dex/read.rs:51-58 | reads a byte and advances, or reports the position |
| `Cursors.Cursor.Uleb128` | src/dex/read.rs:130-145 | the shifting loop reads exactly the numbers that LEB128 strings of at most five bytes denote modulo 2^32 |
| `Cursors.Cursor.Sleb128` | src/dex/read.rs:148-166 | the same with sign extension of short strings |
| `Cursors.UlebExact` | src/dex/read.rs:130-145 | a read succeeds with v and stops at `next` if and only if the bytes up to there are a terminated LEB128 string of v |
| `Cursors.LebFails` | src/dex/read.rs:130-166 | without an end among five bytes, both readers fail at the fifth, or at the end of the data |
| `Cursors.UlebRoundTrip` | src/dex/read.rs:130-145 | reading inverts the encoder for every 32-bit number |
| `Cursors.UlebShort` | src/dex/read.rs:130-145 | of one and of two bytes: the low group comes first |
| `Cursors.SlebRoundTrip` | src/dex/read.rs:148-166 | reading inverts the encoder for every signed 32-bit number |
| `Cursors.Cursor.Le` | src/dex/mod.rs:52-67 | the byte loops read little-endian numbers of any width |
| `Cursors.LeShort` | src/dex/mod.rs:52-67 | of one and of two bytes: the low byte comes first |
| `EncodedValues.DecodeValue` | src/dex/mod.rs:47-147 | the recursive decoder over the cursor computes the decoding function and leaves the cursor where it says |
| `EncodedValues.ReadItems` | src/dex/mod.rs:113-120 | the loop over array items |
| `EncodedValues.ReadElements` | src/dex/mod.rs:121-131 | the loop over annotation elements |
| `EncodedValues.DecodeLegal` | src/dex/mod.rs:47-147 | every legal encoding, nested to any depth, decodes to its meaning; the reader stops just past it |
| `EncodedValues.DecodedIsLegal` | src/dex/mod.rs:47-147 | whatever decodes is a legal encoding of the result |
| `EncodedValues.NumbersExact` | src/dex/mod.rs:47-107 | a number of a kind is decoded if and only if the header has the code of the kind and a width it allows, and the payload stands for it: two's complement, the high bytes of a floating-point pattern, or plainly |
| `EncodedValues.HeadersExact` | src/dex/mod.rs:108-147 | null, the booleans, arrays and annotations, by their header bytes |
| `EncodedValues.ContainersRead` | src/dex/mod.rs:108-131 | byte by byte: the count before the items, the type before the count, a name before its value |
| `EncodedValues.NumRoundTrip` | src/dex/mod.rs:52-60 | sign extension recovers every number of a kind from its full-width bytes |
| `EncodedValues.EncodeLegal` | src/dex/mod.rs:16-45 | every value the type can hold has a legal encoding that means it |
| `EncodedValues.RoundTrip` | src/dex/mod.rs:47-147 | decoding is a left inverse of the encoding for every value tree, whatever surrounds the bytes |
| `Signatures.ProtoSig` | src/vm/mod.rs:1346-1355 | the loop prints the parameters in parentheses, then the return descriptor |
| `Signatures.ParseSig` | src/vm/mod.rs:1977-2008 | the parser computes the parsing function; none where the source panics |
| `Signatures.SplitArgs` | src/vm/mod.rs:1981-2006 | the index loop splits the parameter list |
| `Signatures.ParsePrint` | src/vm/mod.rs:1977-2008 | for descriptors, parsing the print gives back exactly the parameters and the return if and only if no class name holds a closing parenthesis |
| `Signatures.PrintParse` | src/vm/mod.rs:1977-2008 | what parses is the print of its parts, nothing is lost |
| `Heap.CollectRefs` | src/vm/object.rs:876-890 | appends exactly the ids in the fields, then those in the payload, in order |
| `Heap.CollectNative` | src/vm/object.rs:892-1180 | appends exactly the ids that the scan of a payload looks at, for every shape of payload; `Heap.CarriedSplit` says for each shape what those are |
| `Heap.CollectHost` | src/vm/object.rs:892-1180 | the same for the payloads of shim classes: lists, maps, options, operators, registrations |
| `Heap.PushPolys` | src/vm/object.rs:1025-1035 | the loop over serializer registrations, which passes over the subclass objects |
| `Heap.PushCallbacks` | src/vm/object.rs:925-936 | the loop over observable operators |
| `Heap.CarriedSplit` | src/vm/object.rs:892-1180 | a value is stored in a payload, told shape by shape, if and only if the scan looks at it or passes it over |
| `Heap.PushAll` | src/vm/object.rs:899-905 | appends the ids among a list of values |
| `Heap.PushEntries` | src/vm/object.rs:892-1180 | keys and values of map entries, in order |
| `Heap.PushPairs` | src/vm/object.rs:892-1180 | values of JSON members, in order |
| `Heap.Arena.Alloc` | src/vm/object.rs:1193-1209 | takes the last free slot, otherwise a new one |
| `Heap.AllocTakes` | src/vm/object.rs:1193-1209 | only the slot that was freed last changes and leaves the free list; without one a slot is made at the end |
| `Heap.Arena.Reclaim` | src/vm/object.rs:1220-1222 | pushes a slot on the free list, whether or not it is already there |
| `Heap.Arena.LiveCount` | src/vm/object.rs:1224-1226 | slots less free entries, none where the unsigned subtraction underflows; the number of slots in use when no slot is free twice |
| `Heap.CountExact` | src/vm/object.rs:1224-1226 | the count never exceeds the number of slots in use, and is that number if and only if no slot is on the free list twice |
| `Heap.AllocRun` | src/vm/object.rs:1193-1226 | a run of allocations raises the live count by its length and changes only the slots it took |
| `Heap.SlotsDistinct` | src/vm/object.rs:1193-1222 | no slot is handed out twice if and only if the free list has no duplicate |
| `Heap.LiveKept` | src/vm/object.rs:1193-1209 | a live object is never handed out and never changes |
| `Heap.AllocExtends` | src/vm/object.rs:1193-1209 | one allocation keeps all live objects and the soundness of the free list |
| `Collector.Vm.AllocString` | src/vm/mod.rs:1662-1673 | interning: equal strings share one object, and nothing live changes |
| `Collector.Vm.AllocObject` | src/vm/object.rs:1193-1209 | a new object in a slot that was not live |
| `Collector.Vm.ThrowableOf` | src/vm/mod.rs:1720-1730 | a new throwable, of class 0 when its class is missing |
| `Collector.Seed` | src/vm/mod.rs:1035-1040 | marks a slot once and puts it on the worklist |
| `Collector.SeedAll` | src/vm/mod.rs:1057-1059 | seeding a list of ids keeps the worklist invariant |
| `Collector.SeedMap` | src/vm/mod.rs:1041-1046 | seeding from a hash map, in any order |
| `Collector.SeedStatics` | src/vm/mod.rs:1047-1053 | seeding from the static fields of all classes |
| `Collector.Vm.SeedRoots` | src/vm/mod.rs:1041-1059 | afterwards every root is marked |
| `Collector.Mark` | src/vm/mod.rs:1060-1070 | the worklist loop ends, on the sum of unmarked slots and worklist length, with everything marked scanned |
| `Collector.MarksExact` | src/vm/mod.rs:1034-1070 | the marked set is exactly the set of slots reachable from the roots through references, cycles included |
| `Collector.RefsExact` | src/vm/object.rs:876-890 | an object refers to the objects in its fields and those among what its payload holds |
| `Collector.Vm.RootsExact` | src/vm/mod.rs:1041-1059 | the roots are the strings of both tables, the objects in static fields of any class, the held monitors and what the caller adds; nothing else |
| `Collector.Vm.Sweep` | src/vm/mod.rs:1071-1077 | the unmarked slots, in ascending order, are appended to the free list |
| `Collector.Vm.Gc` | src/vm/mod.rs:1027-1080 | the free list grows by exactly the unreachable slots; objects and monitors stay as they are; interned strings stay valid; the machine stays sound if and only if every slot that was free is named by something reachable |
| `Collector.CollectedValid` | src/vm/mod.rs:1027-1080 | a collection frees no interned string; whether the free list stays free of duplicates depends on its old entries alone |
| `Collector.DanglesExactly` | src/vm/mod.rs:1060-1077 | no survivor stores a value whose slot is freed, in a field or anywhere in its payload, if and only if every live object that a passed-over value of a reachable object names is reachable itself |
| `Collector.PriorDangles` | src/vm/object.rs:1007-1007 | the earlier response of a redirect is freed while the later one, which is reachable, names it; the next allocation takes its slot |
| `Collector.DeadMember` | src/vm/mod.rs:1071-1077 | a slot is freed if and only if it exists and is not reachable |
| `Collector.MonitorsMarked` | src/vm/mod.rs:1078-1078 | a held monitor is always marked, so the retain drops nothing |
| `Collector.CollectedNoDup` | src/vm/mod.rs:1071-1077 | after a collection the free list has no duplicate if and only if it had none and every free slot was reachable |
| `Collector.CollectAgain` | src/vm/mod.rs:1072-1077 | when the free slots are garbage, collecting again keeps the free list free of duplicates if and only if it was used up |
| `Collector.CountDrops` | src/vm/mod.rs:1072-1077 | every collection subtracts the garbage from the live count again: from an empty free list the count is right after n collections if and only if n is at most 1 or there is no garbage, and with garbage it falls below zero |
| `Collector.SlotTwice` | src/vm/mod.rs:1072-1077 | two collections in a row of one dead object: the next two allocations get the same slot |
| `Collector.AllocationSafe` | src/vm/mod.rs:1071-1077 | after a collection that began with an empty free list all later allocations get distinct slots and the live count stays exact |
| `Collector.ReachableKept` | src/vm/mod.rs:1027-1080 | after any collection, whatever the free list held, an object that was live and reachable is live and unchanged after any run of allocations |
| `Json.JsonToJvalue` | src/vm/native/json.rs:17-51 | fails exactly when a container class is missing, with the first such class; otherwise the graph is the tree, its nodes objects of the classes of their kinds, with null for booleans when their class is missing; nothing live changes |
| `Json.ItemsToJvalue` | src/vm/native/json.rs:34-37 | the loop over array items, with the first error |
| `Json.PairsToJvalue` | src/vm/native/json.rs:42-46 | the loop over members |
| `Json.Alloc` | src/vm/native/mod.rs:705-708 | a new object of the class, or an error when it cannot be resolved |
| `Json.JvalueToJson` | src/vm/native/json.rs:138-172 | reads the tree a live graph stands for, or throws the NullPointerException object it allocated |
| `Json.ItemsToJson` | src/vm/native/json.rs:160-167 | the loop over array items |
| `Json.PairsToJson` | src/vm/native/json.rs:152-159 | the loop over members, inserting by key |
| `Json.ReadRepresented` | src/vm/native/json.rs:138-172 | a graph that represents a tree with distinct keys is read back as that tree, in the same key order |
| `Json.LeavesRead` | src/vm/native/json.rs:138-152 | what boxed numbers, strings and booleans are read as; other objects, and missing ones, are no JSON |
| `Json.InsertKnown` | src/vm/native/json.rs:152-159 | a key that comes again keeps its first place and gets the new value |
| `Json.ReadKept` | src/vm/native/json.rs:138-172 | allocation elsewhere changes nothing that is read |
| `Json.RepresentsKept` | src/vm/native/json.rs:17-51 | allocation elsewhere does not change what a graph represents |
| `Json.BuildAndRead` | src/vm/native/json.rs:17-172 | building a tree and reading it back gives the tree, with null for booleans without a class, or the missing class; nothing live changes |
| `Json.BuildCollectRead` | src/vm/native/json.rs:17-172 | building a tree, collecting with its root held and reading it back gives the tree that was built, whatever was on the free list before |
| `Json.TreeSurvives` | src/vm/native/json.rs:17-51 | a tree held by a root survives every collection, also one that puts slots on the free list twice, and every allocation after it |
| `Json.FindIn` | src/vm/native/json.rs:114-121 | the first member with the key |
| `Json.JsonFind` | src/vm/native/json.rs:114-121 | lookup in an object, or the exception |
| `Json.PutInPlace` | src/vm/native/json.rs:316-320 | the edit in place, or the push |
| `Json.JsonPutObj` | src/vm/native/json.rs:313-322 | only the object itself changes, by exactly that edit; the exception when it is no JSON object or the key is not a string object, the only key that `jstr` (src/vm/native/mod.rs:671-679) accepts |
| `Json.FindPut` | src/vm/native/json.rs:313-322 | an update is found again, changes no other key and keeps the key order |
| `Decoder.PackedEntry` | src/dex/insn.rs:318-354 | target i of a packed switch is the i-th offset of its table, relative to the switch |
| `Decoder.SparseEntry` | src/dex/insn.rs:355-393 | key i goes with target i |
| `Decoder.DecodePacked` | src/dex/insn.rs:318-354 | the loop of the packed-switch arm, with its bounds errors |
| `Decoder.DecodeSparse` | src/dex/insn.rs:355-393 | the loop of the sparse-switch arm |
| `Decoder.SparseTables` | src/dex/insn.rs:367-388 | its loop over keys and targets |
| `Decoder.DecodeFillArrayData` | src/dex/insn.rs:723-797 | the byte loop and the regrouping by element width |
| `Decoder.Regroup` | src/dex/insn.rs:751-789 | bytes to little-endian elements |
| `Decoder.DecodeAt` | src/dex/insn.rs:211-684 | one instruction, payloads included: the decoding that `Programs.DecodeWritten` describes exactly |
| `Decoder.SpanInBounds` | src/dex/insn.rs:802-821 | a payload span is never empty and lies within the code |
| `Decoder.FindSkip` | src/dex/insn.rs:843-843 | the first recorded span that starts at the address |
| `Decoder.DecodeAll` | src/dex/insn.rs:836-862 | the sweep loop computes the recursive sweep |
| `Assembler.FormDecodes` | src/dex/insn.rs:211-684 | every form of an instruction, register by register and literal by literal, decodes to it, wherever it stands; the opcodes without a meaning of their own included |
| `Assembler.DecodedForm` | src/dex/insn.rs:211-684 | whatever decodes, unless it owns inline data, stands there in one of its forms |
| `Assembler.DecodeExact` | src/dex/insn.rs:211-684 | so an instruction is decoded if and only if one of its forms stands there |
| `Assembler.Move16Exchanged` | src/dex/insn.rs:240-246 | move/16 takes its registers the wrong way round and cuts one to eight bits: it is the move of the instruction set if and only if both registers are the same and below 256 |
| `Assembler.ConstWide32Unsigned` | src/dex/insn.rs:264-267 | const-wide/32 does not extend the sign: it loads its literal if and only if that is not negative |
| `Programs.OwnerDecodes` | src/dex/insn.rs:211-684 | the same for switches and array data, with every form of their inline data |
| `Programs.OwnerDecoded` | src/dex/insn.rs:211-684 | and conversely: the words and the data that stand there |
| `Programs.DecodeWritten` | src/dex/insn.rs:211-684 | decoding is exact for all instructions: it gives one if and only if its words stand there and its data, if it owns some, in one of their forms |
| `Decoder.Refusals` | src/dex/insn.rs:211-236 | past the end, at a reserved opcode, in an instruction that is cut off: each error if and only if |
| `Decoder.DataRefusals` | src/dex/insn.rs:318-393 | the errors of inline data: a wrong tag, a table or array that is cut off, a width that there is not |
| `Programs.SweepAssembled` | src/dex/insn.rs:836-862 | for every program, its instructions and inline data each in any form, the data anywhere behind their instructions, in any order, with padding or code between and after them, the sweep recovers exactly the instructions, with their addresses and sizes |
| `CodeIndex.SweepFaithful` | src/dex/insn.rs:836-862 | every entry of the index is the instruction that decodes at its address, with its size; entries are in order, disjoint and in bounds |
| `CodeIndex.SweepCovers` | src/dex/insn.rs:836-862 | every code unit lies in an instruction or in the payload of an instruction before it |
| `CodeIndex.SweepFails` | src/dex/insn.rs:847-847 | the sweep fails only where decoding fails, with that error |
| `CodeIndex.Search` | src/vm/interpret.rs:732-735 | the binary search finds the entry at an address, otherwise the last one before it |
| `CodeIndex.IndexExact` | src/vm/interpret.rs:732-735 | at the address of an instruction the search is exact |
| `CodeIndex.SearchCovers` | src/vm/interpret.rs:645-652 | inside an instruction of a faithful index the search finds that instruction |
| `Arithmetic.Divided` | src/vm/interpret.rs:1502-1515 | quotient and remainder satisfy the division law; the remainder has the sign of the dividend |
| `Arithmetic.DivisionExact` | src/vm/interpret.rs:1502-1515 | div and rem of ints in the registers: quotient and remainder, the latter smaller than the divisor and with the sign of the dividend |
| `Arithmetic.LongDivisionExact` | src/vm/interpret.rs:1532-1545 | so of longs |
| `Arithmetic.OperandsExact` | src/vm/interpret.rs:1497-1572 | operands of two kinds are refused, a long shifted by an int among them, which is what the instruction set shifts; division by zero if and only if the divisor is zero |
| `Arithmetic.SumsWrap` | src/vm/interpret.rs:1499-1501 | sum, difference and product of ints: the one int congruent to the exact result |
| `Arithmetic.LongSumsWrap` | src/vm/interpret.rs:1529-1531 | so of longs |
| `Arithmetic.ShiftBits` | src/vm/interpret.rs:1519-1527 | every bit of a shifted int, the amount taken modulo 32; the sign or zero comes in from above |
| `Arithmetic.LongShiftBits` | src/vm/interpret.rs:1549-1557 | every bit of a shifted long, the amount modulo 64 |
| `Arithmetic.MinByMinusOne` | src/vm/interpret.rs:1502-1515 | the one quotient out of range wraps to itself, with remainder zero |
| `Arithmetic.WrapUnique` | src/vm/interpret.rs:1499-1501 | a wrapped result is the representative of its residue class |
| `Arithmetic.BitwiseAt` | src/vm/interpret.rs:1516-1518 | bit i of a combination is the operation on bits i of the operands, for numbers of any sign |
| `Arithmetic.BitsCombine` | src/vm/interpret.rs:1516-1518 | so it is for ints, the sign bit included: a bit of the result is set if both, one, or exactly one of the operand bits is |
| `Arithmetic.LongBitsCombine` | src/vm/interpret.rs:1516-1518 | and for longs |
| `Interpreter.ConstHigh16Loads` | src/vm/interpret.rs:783-786 | const/high16 loads zero; that is its literal only for the literal zero |
| `Instructions.OthersKept` | src/vm/interpret.rs:756-1346 | an instruction writes only its destination registers |
| `Instructions.MovesCopy` | src/vm/interpret.rs:762-770 | a move copies; a wide move copies its second half if and only if the first write has not replaced it by another value |
| `Instructions.Loads` | src/vm/interpret.rs:771-816 | const, const-wide, move-result and move-exception: what is written where, the exception only once; every other register and the heap stay |
| `Instructions.BinOpDoes` | src/vm/interpret.rs:1322-1331 | the result of an operation is written; a refused one raises a new ArithmeticException with its text |
| `Instructions.LiteralDoes` | src/vm/interpret.rs:1332-1346 | a literal is the second operand, in a reversed subtraction the first |
| `Instructions.IntBranch` | src/vm/interpret.rs:999-1034 | each of the six tests of two ints, from the numbers themselves: the jump is taken if and only if the numbers are so related |
| `Instructions.IntBranchZero` | src/vm/interpret.rs:1035-1072 | each of the six tests of an int against zero |
| `Instructions.ObjectBranch` | src/vm/interpret.rs:999-1072 | on references equality is identity and only null is zero; ordered tests fail |
| `Instructions.SwitchGoes` | src/vm/interpret.rs:970-985 | a switch goes to the target of its entry, otherwise on; a negative target is an address far too large |
| `Instructions.TestsComplement` | src/vm/interpret.rs:999-1072 | the conditional tests come in complementary pairs |
| `Instructions.PackedHits` | src/vm/interpret.rs:970-978 | a packed switch takes entry i exactly for the key i after the first, wrapping |
| `Instructions.SparseReaches` | src/vm/interpret.rs:979-985 | every key of a sparse switch leads to its own entry if and only if the keys are strictly ascending |
| `Instructions.SparseHits` | src/vm/interpret.rs:979-985 | then entry i is taken exactly for key i |
| `Instructions.SparseMisses` | src/vm/interpret.rs:979-985 | with keys 5 and 3, in this order, 5 is missed |
| `Instructions.InstanceIsNew` | src/vm/interpret.rs:878-884 | new-instance makes an object with null fields in a slot that was not live; nothing live changes |
| `Instructions.NullAccess` | src/vm/interpret.rs:1101-1147 | a field access without an object raises a new NullPointerException and changes nothing live |
| `Instructions.FieldRead` | src/vm/interpret.rs:1101-1136 | iget on an object: the slot of the field; unresolved if and only if the class of the object has no such field, a panic if the object, the slot or the register is missing |
| `Instructions.NullRaises` | src/vm/interpret.rs:962-968 | throwing null and calling on null raise the same as a field access on null; anything else that is thrown is raised itself |
| `Instructions.PutThenGet` | src/vm/interpret.rs:1101-1222 | iget after iput finds what was put; all other fields and objects are as before |
| `Instructions.PutNull` | src/vm/interpret.rs:1171-1173 | a null reference is stored as null, also from an integer zero |
| `Instructions.BoxedPut` | src/vm/interpret.rs:1171-1222 | a primitive put in an object field of its wrapper class: a new object of that class with the value in the width of the wrapper, and nothing else changes |
| `Calls.MakeRegsAt` | src/vm/interpret.rs:47-56 | argument k is in the k-th of the last registers, the others are null |
| `Calls.CodeArgsAt` | src/vm/interpret.rs:437-454 | argument word for parameter j is the caller word at the widths before j; wide ones twice |
| `Calls.HostArgsAt` | src/vm/interpret.rs:343-356 | a host method gets the same word, once, at position j |
| `Calls.SameWords` | src/vm/interpret.rs:346-454 | both kinds of call accept the same argument registers |
| `Calls.HostSeesSame` | src/vm/interpret.rs:343-454 | host and bytecode callee see the same values in the same order |
| `Calls.ParameterLands` | src/vm/interpret.rs:47-56 | the place of parameter j exists if and only if the method declares that many incoming words, and then it holds the caller word at that offset |
| `Calls.CodeCalled` | src/vm/interpret.rs:427-478 | a bytecode call, from the caller registers and the instruction alone: the receiver at the base of the incoming registers, each parameter behind it at the widths before it, twice if wide, all other registers null; the caller waits after the call; it fails if and only if the method, a named register or room is missing |
| `Calls.HostCalled` | src/vm/interpret.rs:330-426 | a host call the same way: the host gets the receiver and the named values; its value reaches the result register, its exception the pending one; a constructor lends its payload to the receiver |
| `Calls.HostEntryLands` | src/vm/interpret.rs:196-208 | a method called from the host finds argument j where it looks for it, whatever the arguments, if and only if no parameter before it is wide |
| `Calls.HostEntrySees` | src/vm/interpret.rs:196-208 | what it finds there is the argument numbered by the widths before j |
| `Unwinding.HandlersExact` | src/vm/interpret.rs:669-685 | a typed handler is found if and only if it is the first that catches the exception |
| `Unwinding.CatchesExact` | src/vm/interpret.rs:669-685 | whether a handler catches: its class is looked up first, whatever was thrown; then the class of the object decides, and each error |
| `Unwinding.HandlersStuck` | src/vm/interpret.rs:669-685 | the search of the typed handlers fails if and only if one cannot be decided and all before it pass |
| `Unwinding.TryExact` | src/vm/interpret.rs:663-693 | one try: found, none and failed, each told by the typed handlers and the catch-all |
| `Unwinding.TriesExact` | src/vm/interpret.rs:663-693 | a handler is found if and only if the first covering try that does not decline offers it: its first typed handler that catches, or its catch-all when every typed handler passes; none if and only if all decline; and exactly when the search fails |
| `Unwinding.RaisedAtExact` | src/vm/interpret.rs:645-652 | the table is searched for the address of the instruction that was being executed |
| `Unwinding.HandlerExact` | src/vm/interpret.rs:633-693 | so for a frame |
| `Unwinding.CaughtExact` | src/vm/interpret.rs:633-718 | for every stack: the innermost frame whose try table handles what arrives at it, in the words of `Unwinding.TriesExact`, catches; exactly the frames above are popped, and what arrived there is delivered |
| `Unwinding.EscapedExact` | src/vm/interpret.rs:633-718 | for every stack: unwinding escapes if and only if no frame handles what arrives at it, and fails exactly where nothing arrives or a class cannot be resolved |
| `Unwinding.ArrivesFrom` | src/vm/interpret.rs:641-644 | what arrives at a frame is what the nearest frame from there upward holds |
| `Unwinding.DeliveredExact` | src/vm/interpret.rs:633-718 | the exception that was thrown is delivered if and only if it is what arrives at the frame that handles it |
| `Unwinding.SecondCaught` | src/vm/interpret.rs:641-644 | a caller whose handler has not fetched its exception is entered with that one when a callee throws another |
| `Unwinding.StaleDecodes` | src/dex/insn.rs:836-862 | the methods of the program below are what the sweep makes of their code units |
| `Unwinding.StaleRun` | src/vm/interpret.rs:229-718 | a whole run of such a program: it returns the first exception, and the one the call threw is lost |
| `BigStep.Refines` | src/vm/interpret.rs:229-628 | the explicit-stack machine on a frame with callers equals the recursive evaluator on the frame followed by resuming the callers |
| `BigStep.RunIsEval` | src/vm/interpret.rs:229-628 | for every program and budget: same value, uncaught exception or failure, same heap, same budget left |
| `BigStep.RunSpends` | src/vm/interpret.rs:234-241 | a run never executes more instructions than its budget, and spends exactly one unit for each when nothing outside spends any |
| `Samples.SumRuns` | src/vm/interpret.rs:229-1358 | a loop, from its code units: for every program, heap, budget and int n it returns n (n + 1) / 2 modulo 2^32 and leaves the heap alone, if and only if the budget allows 4 n + 4 instructions |
| `Samples.TwiceTriangle` | src/vm/interpret.rs:229-1358 | the closed form of that sum |
| `Samples.FactRuns` | src/vm/interpret.rs:229-1358 | a method that calls itself, from its code units: for every n it returns the factorial modulo 2^32 if and only if the budget allows 6 n + 3 instructions, whatever the heap |
| `Discipline.EvalSame` | src/vm/interpret.rs:641-644 | when handlers begin with move-exception, pending exceptions of callers never matter |
| `Discipline.RunIsStrict` | src/vm/interpret.rs:229-718 | such programs run as the evaluator that always delivers the thrown exception |
| `Discipline.UncaughtIsThrown` | src/vm/interpret.rs:609-622 | and report the exception that left the outermost method |
| `Discipline.RunClean` | src/vm/interpret.rs:633-718 | in every state of every run of such a program no suspended frame holds an exception |
| `Boundaries.SweptShape` | src/dex/insn.rs:836-862 | a swept code item gives an ordered index within the code |
| `Boundaries.ExecFlows` | src/vm/interpret.rs:756-1358 | an instruction goes only to the next one or to its declared targets, and touches the pending exception only if it is move-exception |
| `Boundaries.ExactStep` | src/vm/interpret.rs:723-737 | on a boundary the search of a step is exact and not past the end |
| `Boundaries.UnwindOn` | src/vm/interpret.rs:633-718 | unwinding leaves the innermost frame at a declared handler |
| `Boundaries.AdvanceOn` | src/vm/interpret.rs:229-628 | one turn keeps every frame on an instruction boundary |
| `Boundaries.RunOn` | src/vm/interpret.rs:229-628 | so does every state of every run of a closed program |
| `Boundaries.NeverPastEnd` | src/vm/interpret.rs:724-730 | no run of a closed program falls off the end of its code |
| `Machine.FillRegs` | src/vm/interpret.rs:47-56 | the loop that places the arguments |
| `Machine.GatherHost` | src/vm/interpret.rs:343-356 | the argument loop of a host call |
| `Machine.GatherCode` | src/vm/interpret.rs:437-454 | the argument loop of a bytecode call |
| `Machine.SearchKeys` | src/vm/interpret.rs:979-985 | the binary search of a sparse switch |
| `Machine.FindHandler` | src/vm/interpret.rs:669-685 | the loop over typed handlers |
| `Machine.FindTry` | src/vm/interpret.rs:663-693 | the loop over the try table: the search that `Unwinding.TriesExact` describes exactly |
| `Machine.Vm.Step` | src/vm/interpret.rs:720-1358 | bounds check, search, execution; `Instructions` says what each instruction does |
| `Machine.Vm.Unwind` | src/vm/interpret.rs:633-718 | the loop over the frame stack |
| `Machine.Vm.RaiseFrom` | src/vm/interpret.rs:600-623 | the frame goes back on the stack, then the handler frame runs or the run ends |
| `Machine.Vm.InvokeHost` | src/vm/interpret.rs:330-426 | the host arm of a call: the result, exception or failure of `Calls.HostCalled` |
| `Machine.Vm.InvokeCode` | src/vm/interpret.rs:427-478 | the bytecode arm of a call: the caller is suspended, and the callee starts with the registers of `Calls.CodeCalled` |
| `Machine.Vm.Turn` | src/vm/interpret.rs:234-627 | one iteration of the loop is one turn of the transition system |
| `Machine.Vm.RunLoop` | src/vm/interpret.rs:229-628 | the loop computes the whole run |
| `Machine.Vm.PushFrame` | src/vm/interpret.rs:122-213 | a fresh frame, unless the stack is at its limit |
| `Machine.Vm.RunMethod` | src/vm/interpret.rs:61-120 | a host call ends as the evaluator says; the interrupted frames come back; the depth comes back on the bytecode path only |
| `ClassTable.LastIndexSound` | src/vm/mod.rs:574-583 | a key leads to its last declaration |
| `ClassTable.Inherited` | src/vm/mod.rs:546-583 | inherited fields keep their offsets unless declared again |
| `ClassTable.NewInstanceFits` | src/vm/interpret.rs:878-884 | one slot for each distinct key is enough if and only if no field is declared again |
| `ClassTable.NativesFill` | src/vm/mod.rs:653-716 | declared methods keep their slots and every native entry has one |
| `ClassTable.AddFields` | src/vm/mod.rs:574-583 | the field loop |
| `ClassTable.AddMethods` | src/vm/mod.rs:592-716 | the method loops |
| `ClassTable.LoadedGrounded` | src/vm/mod.rs:498-542 | a loaded class has a fully known hierarchy without cycles, no deeper than its id |
| `ClassTable.LoadedAsDeclared` | src/vm/mod.rs:498-905 | every loaded class is as its definition says: a dex definition before a shim, the superclass it names or Object, its interfaces in order, the superclass fields before its own, a slot for each of its methods and each native entry; an array class is below Object, Cloneable and Serializable |
| `ClassTable.Loader.Ensure` | src/vm/mod.rs:469-496 | the class of a descriptor; in every history that began with an empty table it succeeds if and only if the hierarchy above is known and without cycles; a dex class whose loading failed fails for good; the error names a class that nothing defines, or one that is being loaded |
| `ClassTable.Loader.EnsureAll` | src/vm/mod.rs:527-530 | the interface loop |
| `ClassTable.Loader.LoadParents` | src/vm/mod.rs:517-530 | superclass, then interfaces |
| `ClassTable.Loader.LoadDex` | src/vm/mod.rs:498-728 | guarded against cycles; the new class mirrors its definition and the table stays well formed |
| `ClassTable.Loader.DefineDex` | src/vm/mod.rs:532-728 | the class is defined and no longer being loaded |
| `ClassTable.Loader.LoadShim` | src/vm/mod.rs:744-858 | the same for host-provided classes, which terminates because the shim table is layered |
| `ClassTable.Loader.LoadArray` | src/vm/mod.rs:861-905 | an array class over Object, Cloneable and Serializable |
| `ClassTable.Loader.SynthArray` | src/vm/mod.rs:861-905 | the array class is pushed above its three parents |
| `ClassTable.Loader.Define` | src/vm/mod.rs:532-725 | the class is pushed with an id above its parents and then filled in |
| `Resolution.FindOffset` | src/vm/mod.rs:933-942 | the walk up the superclass chain |
| `Resolution.OffsetNearest` | src/vm/mod.rs:933-942 | the offset is that of the nearest superclass that has the field; none if and only if no superclass has it |
| `Resolution.FieldsInherited` | src/vm/mod.rs:546-583 | the superclass field list is a prefix; fields not declared again keep their offsets |
| `Resolution.OneLookup` | src/vm/mod.rs:933-942 | the walk equals one lookup in the class |
| `Resolution.OffsetInBounds` | src/vm/mod.rs:1651-1660 | every offset found lies within an object made by alloc_instance, at the last declaration of the key |
| `Resolution.FirstOfNearest` | src/vm/mod.rs:1431-1453 | the first declaration on the chain, with nothing before it; none if and only if no class there declares it |
| `Resolution.ChainExact` | src/vm/mod.rs:1429-1453 | the chain that is searched: the class, each time the superclass, Object after an interface without one, and then the end |
| `Resolution.ReachByPath` | src/vm/mod.rs:1526-1540 | a reachable interface is one at the end of a path of interfaces, each named by the one before it |
| `Resolution.WalkChain` | src/vm/mod.rs:1429-1453 | the loop up the chain, with the hop from an interface to Object, ends |
| `Resolution.SearchInterfaces` | src/vm/mod.rs:1526-1540 | finds a declaration in a reachable interface if there is one, and ends |
| `Resolution.Resolve` | src/vm/mod.rs:1429-1469 | nearest on the chain, otherwise a reachable interface; fails if and only if there is neither |
| `Resolution.ResolveTarget` | src/vm/mod.rs:1396-1524 | reports an unusable start; otherwise finds no method if and only if nothing answers the call, and what it returns is made of a selected declaration, or the reason why that cannot run |
| `Resolution.UseMethod` | src/vm/mod.rs:1470-1523 | refused without a bridge, a host method before code, code decoded or its error |
| `Resolution.OverrideWins` | src/vm/mod.rs:1429-1453 | an own declaration comes before every inherited one; otherwise the choice of the superclass on the chain is taken over |
| `Resolution.SuperAbove` | src/vm/mod.rs:1414-1427 | a super call ends, on the chain or in an interface, in a class loaded before the one that makes it, or in Object or an interface of Object |
| `Resolution.DefaultsLost` | src/vm/mod.rs:1454-1460 | a method that a class inherits is not found if and only if no class on its chain declares it, no interface reachable from itself does, and one reachable from a class further up does |
| `Resolution.SuperInterfaceMissed` | src/vm/mod.rs:1454-1460 | a table where that happens |
| `Subtyping.Check` | src/vm/mod.rs:1790-1875 | the loop up the superclass chain, with its two limits |
| `Subtyping.CheckInterfaces` | src/vm/mod.rs:1858-1871 | the interface loop |
| `Subtyping.CheckArray` | src/vm/mod.rs:1819-1857 | the array arm |
| `Subtyping.ClassesExact` | src/vm/mod.rs:1786-1875 | every answer for a class is reachability over superclass and interface edges |
| `Subtyping.ReachesByPath` | src/vm/mod.rs:1786-1875 | and that is a path over these edges |
| `Subtyping.AssignableOrder` | src/vm/mod.rs:1786-1875 | the answers are reflexive and transitive |
| `Subtyping.AnswersTo` | src/vm/mod.rs:1786-1875 | in a hierarchy of at most 64 levels there always is an answer, and it is reachability |
| `Subtyping.LineExact` | src/vm/mod.rs:1795-1810 | on a chain without interfaces a check against a class not on it answers if and only if there are at most 64 superclasses |
| `Subtyping.AnswersExact` | src/vm/mod.rs:1790-1875 | every answer, arrays of any dimension included, is covariance of element types down to reachability |
| `Subtyping.ElementsDecide` | src/vm/mod.rs:1819-1849 | equal element types answer yes, a primitive one no, and two that cannot both be resolved leave no answer |
| `Subtyping.ArrayAgainstClass` | src/vm/mod.rs:1850-1856 | against a class that is no array, an array answers whether it names that class as an interface |
| `Subtyping.ArrayNotObject` | src/vm/mod.rs:1850-1856 | an array is not assignable to Object, although Object is its superclass |
| `Subtyping.OnlyObjectLost` | src/vm/mod.rs:1850-1856 | in a loaded table where only Object is above Cloneable and Serializable, Object is the only class that an array reaches and is denied |
| `Subtyping.LoadedTable` | src/vm/mod.rs:498-905 | what loading leaves satisfies the conditions of these results |
| `Linking.InstanceHoldsFields` | src/vm/interpret.rs:878-884 | every field found in a class has a slot in the objects new-instance makes if and only if no field is declared again |
| `Linking.NewObjectSafe` | src/vm/interpret.rs:1101-1147 | then a field access on such an object never reads out of range |
| `Linking.CatchesSubclasses` | src/vm/interpret.rs:669-680 | a typed handler catches exactly the exceptions whose class reaches its own, whenever there is an answer, and so always in a hierarchy of at most 64 levels |
| `Linking.VirtualEnters` | src/vm/interpret.rs:330-478 | a virtual or interface call goes to a declaration selected from the receiver's own class, whatever class it names, and enters its body at the beginning with the receiver and the arguments in place |
| `Linking.DirectEnters` | src/vm/interpret.rs:330-478 | a direct call goes to one selected from the class it names, whatever the receiver is |
| `Linking.StaticEnters` | src/vm/interpret.rs:330-478 | so does a static call, without a receiver |
| `Linking.SuperEnters` | src/vm/interpret.rs:330-478 | a super call goes to one selected from the superclass of the calling code, or Object: never one of the calling class, unless that is Object |
| `Linking.NearestSelected` | src/vm/mod.rs:1429-1453 | what is selected is the nearest declaration on the chain, where there is one |

## Left out

- Floating-point registers, arithmetic, comparisons and JSON numbers; monitors beyond being roots.
- Array, static-field, type-test, conversion and constant-pool instructions have no meaning of
  their own: they are one arbitrary function of the instruction, the registers and the heap.
- Instructions that execute identically share a constructor: the forms of const, move-result,
  return and iget; the operations on floating-point registers share those of the integers. const-wide/high16 is among the instructions without a meaning of their own.
- Decoding errors carry their kind, not the offset and the message.
- `Args::reg_at` and `err_pc` are unbounded: overflow of their machine words is not modelled.
- The binary search among keys that are out of order is the one of the current host library,
  which leaves the result of such a search open.
- Resolution.ResolveTarget: takes the class that the reference names and Object as already
  looked up; the loading that the lookup may start is `ClassTable.Loader.Ensure`.
- Class loading during a step, an unwinding or an assignability check does not change the table
  of the model: the class of a type is a function of the type, or an error.
- Tracing, the trace ring and the debug output of the interpreter.
- Native-declared methods without a host method, which are refused before they run.
- The caches by dex and type id, the arrays that `new-array` creates past them, static fields
  and encoded static values of classes, and `<clinit>`.
- The order of hash-map iteration: the collector's results hold for every order.
- Heap.CollectNative: payloads that are lists or a few fields of values, all pushed in order,
  share the variant `Values`, those with one handle share `Reference`, and those without
  values share `Opaque`; which shim class they belong to is not kept.
- `class_obj`, the class object that a class caches, is not a root in the source and has no
  place in the model.
- Payloads that `payload_mut` installs on first use: an object without a payload is not JSON.
- JSON text: trees are built from parsed values and not printed.
- The arena's length is unbounded; truncation of ids to 32 bits is not modelled.
- Strings are sequences of characters; positions within them are not UTF-8 offsets.
- The capacity requested in advance by `with_capacity`, which a huge count can exhaust.
- Discipline.RunIsStrict: asks handlers to begin with move-exception; without it
  `BigStep.RunIsEval` holds, `Unwinding.DeliveredExact` says for each stack whether the thrown
  exception is delivered, and `Unwinding.StaleRun` is a run where it is not.
- Shim natives, HTTP, QuickJS, HTML, file and archive access, permissions, manifests and settings.
