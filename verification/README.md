# Mihini verification model

Mihini is an assembler, a virtual machine, a disassembler, and the allocator and containers
underneath them. This project models their behaviour in Dafny and proves how the parts agree
with each other and what each of them keeps. Check it with `dafny verify dfyconfig.toml`.

Where the program updates things in place the model does too, in classes and methods, and each
method is proved against a function on values. The results below are about those functions.

| files | what they hold |
|---|---|
| `Words`, `Isa` | little-endian numbers; instructions, their encoding by the assembler and their fetching by the machine |
| `Assembly`, `Backpatch`, `Holes`, `Assembler`, `Tables` | the one-pass assembler as a function on states, the two-pass reference it is compared with, what the fix-ups fill, the assembler as a class, and its table of forward references as a tree |
| `Machine`, `Vm` | the machine as a function on states, and as a class with arrays for registers and memory |
| `Landing`, `Loops` | assembled code on the machine: where branches land, how often counted loops run |
| `Access`, `Effects`, `Rotate` | what each addressing mode reads and stores, what the data instructions leave, comparisons and the branches behind them, rotations |
| `Stack`, `Calls` | push against pop, return against call |
| `HeapSpec`, `HeapProofs`, `HeapUndo`, `Pmalloc` | the allocator on lists of blocks, what every run of it keeps, what releases undo, and the allocator as a class over headers in memory |
| `STree`, `BTree`, `Dll`, `Balance` | ternary search tree, binary search tree and list, each as values and as linked nodes; how balancing balances |
| `RegSet`, `Immediate`, `Lexer` | register sets, operands, immediates and source lines as text |
| `Disasm`, `Names`, `Relist`, `Recapture` | the two passes of the disassembler, their labels for assembled files, the listing assembled again, and when that fails |
| `Opcodes`, `Notation`, `Source`, `Toolchain` | the opcode table, the assembler's notation, lines of a listing as text, and the way once around: program, file, text, program, file |

## Main results

* **One pass is two passes.** For every program whose referenced labels are each defined once,
  the file the one-pass assembler leaves equals, byte for byte, the file of an assembler that
  knows every label position first, if and only if no reference is *captured* by the symbol
  tables. A reference is captured when its label is not defined yet and is `-` or a proper prefix
  of a longer name already in the label table (or, while it is not itself waiting, of one in the
  table of forward references); such a name reaches an inner node of the ternary tree, and the
  assembler takes any node for a defined label. Programs in which no name is a prefix of another
  and none is `-` are free of this. The order of the fix-ups does not matter; the program's own is
  that in which it walks the tree of forward references.
* **Code lands anywhere.** With the assembled code at any address, every branch, jump and call
  that is taken continues at the line of its label, and `refer` stores that address.
* **Encodings decode back**, and consume exactly their bytes, if and only if the code has no shift
  or rotate by an immediate at a width other than `.b`.
* **Instructions do what they say.** Each addressing mode reads the number in the bytes it means and
  stores the bytes of one there, all others staying as they are; data instructions leave the sums,
  differences, quotients, remainders and rotated words in their operands, with the zero flag set if
  and only if the result is 0. A comparison followed by a branch, anywhere in memory, goes on at the
  branch's label if and only if the numbers stand as the branch asks.
* **The heap.** An allocation keeps the heap sound (the blocks tile the arena, both lists are
  sorted and doubly linked, no two free blocks touch, the counters are right) if and only if there
  is no block for it or the block found is exact or has room for a header; every release keeps it
  sound. So it is in every state that any run of such steps reaches, the links in memory included
  (`RunAll`), and when everything has been released, in any order, the heap is in its initial state
  again. A sound heap is determined by the blocks allocated in it, so a release undoes an allocation
  and releases commute.
* **The stack.** Push then pop restores every register of a set, and the pointer itself if and
  only if the value pushed for it fits the width. Over every run of calls, returns, pushes and pops
  the memory from A7 to the top holds the words stacked and not yet taken; a pop of a set with A7
  in it keeps to that if and only if the first word it takes is the address of the second, as it is
  after a push of the same set. A return that matches a call resumes behind the call with A7 and
  the memory above it as they were.
* **Rotations**, in either direction, are as many one-bit rotations, add up modulo the width and
  undo each other.
* **Loops** closed by `dec`/`bcb`/`bra` run their body once more than the counter says, and loops
  closed by `dec`/`bne` exactly as often as a counter above zero says (with 0, the whole way round).
* **Containers.** The ternary tree answers as a map plus exactly the prefixes described above;
  balancing a binary tree follows no missing child for any tree, and keeps order and searches when
  keys are distinct. With equal keys it can lose one: each shuffle of a search tree keeps the order,
  and the result of every search, if and only if it goes left or the key of the root does not occur
  to the right of it. Balancing makes the node half the difference of the spines down the longer one
  the root, for every tree, and gives a chain the least height there is. The list is a deque.
* **Text.** Register sets, operands, immediates and source lines are read back as they were
  written, with the exact limits given in the table. Every line in the assembler's notation,
  whatever its label, white space, comment, letter case and way of writing numbers, is read as the
  instruction it denotes.
* **Once around.** Disassembling an assembled file to text, reading that text and assembling it
  gives the file again, byte for byte, if and only if no label of the listing is captured in the
  sense above. With at most eighteen references it always does; with nineteen it can fail, `label2`
  being captured by `label20` (`NineteenReferencesFail`). This is for programs both passes of the
  disassembler size alike, with non-empty register sets, and no division in a place that gets a
  label.
* **The disassembler** gives each reference the number of the label it prints in front of the
  target, on code whose instructions both passes take to be of the same size.

## Conventions

* A file is a sequence of bytes: a header of 10 bytes, then the code. Files, like the machine's
  memory, stay below 4 GiB. Little-endian hosts only.
* `None` from a machine function stands for what the machine leaves undefined (memory out of
  bounds, division by zero, shifts by a negative amount or by a whole 64-bit word) or what is not
  modelled. The class `Vm` requires that the operation it is asked for is defined.
* Characters are compared with small letters, as the lexer delivers them.

## Where the code departs from what it seems to mean

* `src/pmalloc.c:68,83,97,108,111` add byte counts to typed pointers, which scales them. Heap
  addresses here are byte offsets.
* `src/pmalloc.c:66-69` underflows when the block found is larger than the request by less than a
  header. The model keeps the underflow, and `SplitIff` says exactly when the heap stays sound.
* `src/pmalloc.c:68-72` inserts a header whose links have not been initialised. Its old contents
  are a parameter of `Malloc`, and the free list is still a list afterwards if and only if they
  satisfy `StaleLinksOk`: no old `prev` in front of the list, no old `next` behind it.
* `src/pmalloc.c:43` adds all free memory, right for one arena, which is what there is here.
* `src/vm.c:505` counts down an unsigned number to -1. Here it is 15 down to 0.
* `src/vm.c:102-108`: a byte store runs on into a word store. The model does the same;
  `ByteStoreClobbers` says when it shows.
* `src/mhasm.c:420-427` writes an immediate of the operand width for shifts and rotates by an
  immediate, `src/vm.c:309-327` read one byte, as `VM_LAYOUT.md:158` has it. Kept on both sides.
* `src/vm.c:246` and similar lines leave the order of two operand reads to the compiler. Here it
  is left to right.
* `src/stree.c:108-110` leaves the fields of a new node unset. Here they are null.
* `src/stree.c:39` returns inner nodes, and `src/mhasm.c:606-607` trusts them. Kept.
* `src/parser.c:101,107,112,115` return 255 for a register that does not exist; that is also the
  mask of d0-d7 (`ErrorIsASet`).
* `src/parser.c:151` looks for a small d twice, so `#0D12` is 0 (`CapitalDIsZero`). The assembler
  does not show it, because its lexer makes letters small first; for the same reason a quoted
  capital is read as the small letter (`CapitalQuoted`).
* `src/vm.c:102-108` also shows in `move.b` to memory, which clears the byte behind (`MoveCopies`).
* `src/parser.c:30-32` uses a digit above 7 after reporting it: `d8` is `a0` (`TooLarge`).
* `src/vm.c:844-855`: behind anything but a comparison `ble` and `bge` ask for zero only, and `blt`
  and `bgt` are never taken (`LeftThenBranch`).
* `src/mhasm.c:333-341` takes any node of the opcode table: a proper beginning of an opcode's name
  is assembled as opcode 0, `nop` (`BeginningIsFound`, `BeginningReadsAsNop`).
* `src/btree.c:82-94`: a shuffle to the right with a key that occurs twice puts the left subtree
  where searches do not look (`TiedLoses`, `KeyLost`).
* `src/mhasm.c:274-286` keeps a position in eight bits and does not end inside a word of 256
  characters (`ScanEndless`).
* `src/mhasm.c:241-271` keeps two arguments behind a label, so a labelled division loses its last
  operand (`ThirdArgumentLost`, `LabelledDivisionLost`).
* `src/btree.c:66-71` and `src/stree.c:127-132`: a callback that asks to stop ends the visit of
  its own subtree only. Kept.
* Opcode numbers follow `src/opcodes.h`, not `VM_LAYOUT.md`, where the two differ.

## Model

| member | source | states |
|---|---|---|
| `Words.LoadStore` | src/vm.c:77-118 | Storing a number in n bytes and loading it gives the number modulo 256^n |
| `Words.StoreLoad` | src/vm.c:77-118 | Loading bytes and storing the number gives the same bytes |
| `Words.SameBytes` | src/mhasm.c:639-677 | Two numbers are written as the same bytes if and only if they agree modulo the width |
| `Isa.LoadW` | src/vm.c:31-96 | A number read from memory is below the modulus of its width |
| `Isa.OpcodeWidth` | src/vm.c:230-238 | Width bits can be separated again from every opcode that carries them |
| `Isa.DecodeEncode` | src/mhasm.c:343-516 | One encoded instruction, anywhere in memory, is fetched as itself, and exactly its bytes are consumed |
| `Isa.DecodeSize` | src/vm.c:240-468 | What the dispatcher consumes for an instruction depends on the instruction alone |
| `Isa.EncodeSize` | src/mhasm.c:412-429 | The assembler writes as many bytes as the machine consumes, except for shifts and rotates by a wide immediate, where it writes more |
| `Isa.DecodeAllEncodeAll` | src/vm.c:215-228 | A straight run of fetches over a list of encodings yields that list |
| `Isa.RoundTripIff` | src/vm.c:230-468 | For every instruction list: fetching its encoding gives the list back if and only if it has no shift or rotate by an immediate wider than a byte |
| `Isa.WideShiftMisread` | src/mhasm.c:420-427 | A concrete `roli.w` that the machine reads as something else |
| `Assembly.RunExtends` | src/mhasm.c:302-530 | Assembling a line appends to the file; bytes already written, label positions already entered and holes already recorded stay |
| `Assembly.PatchAllFrame` | src/mhasm.c:100-111 | Fixing one label changes no byte outside its holes |
| `Assembly.FixUpFrame` | src/mhasm.c:113-132 | The fix-ups change no byte outside the holes |
| `Backpatch.OnePassIsTwoPass` | src/mhasm.c:64-84 | The file of the one-pass assembler is that of the two-pass reference if and only if no reference is captured, whatever the order of the fix-ups |
| `Backpatch.PrefixFreeIsClean` | src/mhasm.c:602-637 | If no name used is a proper prefix of another, unless it is defined on the first line or before, and none is "-", no reference is captured |
| `Backpatch.CaptureHappens` | src/stree.c:32-43 | A concrete program with a captured reference: the file the assembler leaves is not that of the two-pass reference |
| `Backpatch.HaltsIff` | src/mhasm.c:306-339 | Unless it dereferences null, the assembler stops early if and only if a label is defined twice or an opcode is unknown |
| `Backpatch.EmitLabelAgrees` | src/mhasm.c:602-637 | An offset written for a defined label is the reference's; for one to come it is a hole recorded at its position |
| `Backpatch.RunClean` | src/mhasm.c:302-530 | Without captures every byte outside the holes is the reference's after every line |
| `Backpatch.RunCaptured` | src/mhasm.c:602-637 | With a capture some byte outside all holes is wrong, and stays wrong |
| `Backpatch.FixUpAgrees` | src/mhasm.c:100-132 | Filling the holes makes them the reference's bytes |
| `Holes.RunTidy` | src/mhasm.c:602-637 | After every run of lines the holes are pairwise disjoint, inside the file, and hold A5A5A5A5 |
| `Holes.HolesFilledOnce` | src/mhasm.c:84-132 | Each hole ends up with the offset of its label, or untouched if the label is never defined, and nothing else changes |
| `OnePass.Assembler.WriteBytes` | src/mhasm.c:639-683 | Appends the bytes and advances the position by their number |
| `OnePass.Assembler.WriteUint32` | src/mhasm.c:650-654 | Appends the four bytes of the value |
| `OnePass.Assembler.ParseLabel` | src/mhasm.c:602-637 | Returns the offset or the placeholder and records the hole, so that writing the value completes `EmitLabel` |
| `OnePass.Assembler.AssembleStmt` | src/mhasm.c:328-527 | Brings the state to that of the specification for the statement |
| `OnePass.Assembler.AssembleLine` | src/mhasm.c:302-530 | Enters the label, reports a redefinition, and assembles the statement as the specification does |
| `OnePass.Assembler.FixOne` | src/mhasm.c:100-111 | Overwrites every hole of one label with its offset |
| `OnePass.Assembler.FixFwdLabels` | src/mhasm.c:113-132 | Fixes every label once, in some order, and reaches the specification's file for it |
| `OnePass.Assemble` | src/mhasm.c:61-84 | The whole program: the resulting file is the specification's, and the two-pass reference's if and only if no reference is captured |
| `Tables.RunEntries` | src/mhasm.c:610-618 | The keys of the forward table after a run are the labels that lines entered into it |
| `Tables.TreeOrder` | src/stree.c:127-132 | A walk over a tree whose values are not null takes the keys of the map it stands for, each once |
| `Tables.WalkEnumerates` | src/mhasm.c:84 | The walk over the tree of forward references takes each waiting label once, wherever their lists are in memory |
| `Tables.WalkIsTwoPass` | src/mhasm.c:84 | With the fix-ups in that order, the file is that of the two-pass reference if and only if no reference is captured |
| `Machine.StepsAdd` | src/vm.c:215-228 | Running m + n instructions is running n after m |
| `Access.ReadDirect` | src/vm.c:126-128 | A register on its own is read whole |
| `Access.ReadReference` | src/vm.c:129-131 | `(r)` gives the number in the bytes at the address, modulo the width, and changes nothing |
| `Access.ReadPreDec` | src/vm.c:132-135 | `-(r)` gives the number in the bytes below the address, which the register then holds |
| `Access.ReadPostInc` | src/vm.c:136-140 | `(r)+` gives the number at the address and adds the width in bytes |
| `Access.ReadFailsIff` | src/vm.c:77-96 | A read through memory fails if and only if some of its bytes are outside |
| `Access.WriteDirect` | src/vm.c:152-158 | A register on its own is replaced whole |
| `Access.WriteReference` | src/vm.c:159-162 | After a store through `(r)` the bytes of the number are at the address, two at `.b`; all other bytes and the registers are as before |
| `Access.WritePreDec` | src/vm.c:163-167 | The same below the address, which the register then holds |
| `Access.WritePostInc` | src/vm.c:168-172 | The same at the address, to which the width in bytes is added |
| `Access.StoredIsRead` | src/vm.c:120-176 | What is stored through `(r)` is read through it, modulo the width |
| `Access.OtherMode` | src/vm.c:141-144 | An operand in none of the four modes reads as 0 and takes nothing |
| `Access.MoveCopies` | src/vm.c:486-492 | `move` from memory to memory copies the bytes, and at `.b` clears the next one |
| `Access.StopStops` | src/vm.c:215-228 | `stop` stops the machine and does nothing else |
| `Access.JumpAlways` | src/vm.c:824-826 | `bra` and `jmp` are taken whatever the flags are |
| `Access.JumpIndirect` | src/vm.c:860-862 | `jmpm (r)` goes to the number in the bytes at the address |
| `Access.CallOffset` | src/vm.c:147-176 | A `call` leaves the return address below A7, keeps all other bytes and goes to its target |
| `Access.CallIndirect` | src/vm.c:120-145 | `callm (r)` does so too, and goes to the number its operand holds after the push, whatever that is |
| `Effects.DirectImmediate` | src/vm.c:478-563 | `load`, `addi`, `subi` on a register leave the value, sum or difference modulo 2^64, zero flag accordingly |
| `Effects.DirectRegisters` | src/vm.c:486-571 | `move`, `add`, `sub` on two registers |
| `Effects.DirectSingle` | src/vm.c:512-539 | `inc` carries if and only if the low part becomes 0, `dec` works on the low part and borrows if and only if it is 0, `clr` clears |
| `Effects.AddedTakenBack` | src/vm.c:541-563 | `subi` takes back what `addi` has added |
| `Effects.CountedBack` | src/vm.c:512-533 | `dec`, at its width, takes back what `inc` has |
| `Effects.AnyImmediate` | src/vm.c:478-563 | The same instructions on operands in any mode |
| `Effects.AnyRegisters` | src/vm.c:486-571 | The same for two operands in any mode |
| `Effects.AnySingle` | src/vm.c:512-539 | The same for one |
| `Effects.InMemory` | src/vm.c:541-563 | `addi` and `subi` on a number in memory leave the bytes of the result there and all other bytes as they are |
| `Effects.LeftThenBranch` | src/vm.c:824-855 | Which branches are taken behind a data instruction, by zero and carry |
| `Effects.DirectDivide` | src/vm.c:599-607 | `div` leaves q and r with a = q * b + r and r < b in its second and third register, and fails if and only if b is 0 |
| `Effects.DirectDivideBy` | src/vm.c:589-597 | The same for `divi`, in the register divided and the next operand |
| `Effects.CompareThenBranch` | src/vm.c:757-773 | Behind a comparison of a with b each branch is taken if and only if b stands to a as it asks; memory and registers stay |
| `Effects.CompareLands` | src/vm.c:828-855 | The same for two lines of an assembled program, anywhere in memory, with the branch landing at the line of its label |
| `Landing.DefAt` | src/mhasm.c:306-319 | The position entered for a label is where its line begins |
| `Landing.LoadedStmt` | src/mhasm.c:328-527 | Each line's bytes, with the final offset, are in memory where the line begins |
| `Landing.DataLoaded` | src/mhasm.c:518-525 | Data is in memory as it was written, and its line takes as many bytes |
| `Landing.OffsetArithmetic` | src/mhasm.c:104 | The -8 of the assembler and the +4 of the machine cancel at every load address, forwards and backwards |
| `Landing.JumpLands` | src/vm.c:824-883 | A branch, jump or call that is taken continues at the line of its label, one that is not continues behind itself, and only a call touches anything else |
| `Landing.ReferStores` | src/vm.c:897-901 | `refer` stores the address of the line of its label |
| `Landing.CodeFetched` | src/vm.c:230-468 | Every other assembled instruction is fetched as written, and the machine then stands at the next line |
| `Vm.Vm.constructor` | src/vm.c:12-25 | A new machine has all registers zero but A7, which is the size of the memory; the memory holds whatever was there |
| `Vm.Vm.ReadMem` | src/vm.c:77-96 | Reads the number at an address |
| `Vm.Vm.WriteMem` | src/vm.c:98-118 | Stores the low bytes of a value; a byte store also stores the byte behind |
| `Vm.Vm.ReadOp` | src/vm.c:120-145 | The four addressing modes of a read, with their changes of the register |
| `Vm.Vm.WriteOp` | src/vm.c:147-177 | The four addressing modes of a write |
| `Vm.Vm.ReadNext` | src/vm.c:31-75 | Reads the operand at the instruction pointer and moves it behind |
| `Vm.Vm.Fetch` | src/vm.c:230-468 | Reads opcode and operands one after the other, and has then fetched what `Decode` finds |
| `Vm.Vm.DoPush` | src/vm.c:494-501 | The loop over the register set reaches the state of `Push` |
| `Vm.Vm.DoPop` | src/vm.c:503-510 | The loop over the register set reaches the state of `Pop` |
| `Vm.Vm.DoInc` | src/vm.c:512-522 | Increment with zero and carry flags |
| `Vm.Vm.DoDec` | src/vm.c:524-533 | Decrement of the value at the width, with zero and borrow flags |
| `Vm.Vm.DoImmediate` | src/vm.c:478-484 | `load`, `addi`, `subi`, `cmpi` |
| `Vm.Vm.DoRegister` | src/vm.c:486-492 | `move`, `add`, `sub`, `cmp`, `rol`, `ror`, operands read left to right |
| `Vm.Vm.DoRotation` | src/vm.c:689-734 | The rotate instructions |
| `Vm.Vm.DoDivide` | src/vm.c:589-607 | Quotient and remainder written to two operands |
| `Vm.Vm.DoBranch` | src/vm.c:824-854 | The conditional branches, `jmp` and `call` |
| `Vm.Vm.DoCallTo` | src/vm.c:868-872 | Stacks the instruction pointer and goes to the target |
| `Vm.Vm.DoCallM` | src/vm.c:873-877 | Stacks the instruction pointer, then reads the target |
| `Vm.Vm.DoRet` | src/vm.c:884-888 | Goes to the address popped |
| `Vm.Vm.Execute` | src/vm.c:215-468 | One instruction takes the machine to the state of `Step` |
| `Vm.Vm.Run` | src/vm.c:215-228 | Runs until the machine stops, and has then made exactly the steps of `Steps` |
| `Loops.CloseRound` | src/vm.c:524-533 | One pass through `dec` and its branches: out with the last counter value, back to the body with any other |
| `Loops.LoopCounts` | src/vm.c:824-839 | For every body that keeps the counter: the loop runs it counter + 1 times with `bcb`, counter times with `bne` (all values of the width from 0), and is then left with the counter run out |
| `Loops.AssembledLoop` | example/xmas.mhasm:14-30 | The lines of such a loop, assembled and loaded anywhere, are the code that `LoopCounts` is about |
| `Loops.DelayLoop` | example/xmas.mhasm:22-24 | A loop without a body needs no assumption but its own code |
| `Stack.ByteStoreClobbers` | src/vm.c:98-118 | A byte store also changes the next byte, to the second byte of the value, unless that is there already |
| `Stack.PushEffect` | src/vm.c:494-501 | Pushing a set moves the pointer by the bytes of the set and changes only those bytes below it |
| `Stack.PushedAt` | src/vm.c:494-501 | Where each register of the set is after the push: the lowest number on top |
| `Stack.FlagsCleared` | src/vm.c:494-510 | Push and pop clear the flags |
| `Stack.PushPopRoundTrip` | src/vm.c:494-510 | For every set, at .w, .l and .x: after `push -(r)` and `pop (r)+` each register of the set has its value modulo the width, `r` has its own, and only the bytes pushed have changed |
| `Stack.PointerRestoredIff` | src/vm.c:494-510 | The pointer is given back if and only if it is not in the set or the value pushed for it fits the width |
| `Stack.PointerLostHappens` | src/vm.c:494-510 | A concrete loss: a pointer of 65536 pushed and popped as a word is 0 afterwards |
| `Calls.PushWord` | src/vm.c:868-883 | One push adds its word to the words stacked above the top; it cannot run below address 0 |
| `Calls.PopWord` | src/vm.c:884-888 | One pop takes the last word stacked |
| `Calls.PushAll` | src/vm.c:494-501 | `push.l -(a7)` stacks the registers of the set, A7 itself as it stands at its turn |
| `Calls.PopAll` | src/vm.c:503-510 | `pop.l (a7)+` takes as many words as the set has registers and gives the highest register the last one; if that is A7, it must be given the address of the next word |
| `Calls.PopKeepsIff` | src/vm.c:503-510 | A pop of a set with A7 in it leaves A7 at the words not taken if and only if the word for A7 is the address of the next one |
| `Calls.SavedIsPoppable` | src/vm.c:494-510 | After a push of any set a pop of the same set is one, A7 or not |
| `Calls.StepStacks` | src/vm.c:868-888 | After every step the memory from A7 to the top holds the words stacked and not yet taken, pops into A7 included; memory above the old A7 is unchanged |
| `Calls.RunHolds` | src/vm.c:868-888 | The invariant over every run: after any number of steps the memory from A7 to the top holds the words stacked and not yet taken |
| `Calls.RunStacks` | src/vm.c:868-888 | Words that a run does not take stay where they are, with the memory above them |
| `Calls.NestedKeeps` | src/vm.c:868-888 | A run that takes all the words it stacks and no others leaves A7, the words below and the memory above them as they were |
| `Calls.ReturnMatchesCall` | src/vm.c:868-888 | Over every such run between a call and its return, the return resumes at the byte behind the call, with A7 and the memory from it up as before |
| `Calls.ReturnMatchesCallInRun` | src/vm.c:868-888 | The same for every call that a run comes to, whatever it has stacked by then |
| `Rotate.LeftBit` | src/vm.c:689-711 | The shifts and the or move bit j to j + k around the word, and the result fits the width |
| `Rotate.RightBit` | src/vm.c:713-734 | The same to the right |
| `Rotate.RightUndoesLeft` | src/vm.c:689-734 | Rotating right undoes rotating left by the same amount, and the other way round |
| `Rotate.RightIsLeft` | src/vm.c:689-734 | Rotating right by k is rotating left by the rest of the turn |
| `Rotate.LeftAdds` | src/vm.c:689-711 | Rotations add up modulo the width |
| `Rotate.LeftIsSteps` | src/vm.c:689-711 | k single rotations are one rotation by k modulo the width |
| `Rotate.RightAdds` | src/vm.c:713-734 | Rotations to the right add up modulo the width |
| `Rotate.RightIsSteps` | src/vm.c:713-734 | k single rotations to the right are one by k modulo the width |
| `RotateOps.TurnBack` | src/vm.c:689-734 | `rori #b` after `roli #b` (and the reverse) gives a register its value at the width back and touches nothing else but the flags |
| `RotateOps.TurnByImmediate` | src/vm.c:689-722 | After `roli #b`, bit j of the register is at j + b modulo the width, after `rori #b` at j - b; zero flag accordingly; defined if and only if no shift is by 64 or by more than the width |
| `RotateOps.TurnByRegister` | src/vm.c:701-734 | The same for `rol` and `ror` by a register |
| `RotateOps.TurnByOperand` | src/vm.c:701-734 | The same by an operand in any mode, read as a byte if it is in memory |
| `RotateOps.TurnsAdd` | src/vm.c:689-734 | Two `roli` (or two `rori`) of a register move the bits by the sum of their amounts modulo the width |
| `HeapSpec.Conservation` | src/pmalloc.c:66-80 | Free bytes, assigned bytes and one header a block make up the arena |
| `HeapProofs.MallocKeeps` | src/pmalloc.c:50-84 | An allocation whose block is exact or has room for a header keeps the heap sound; without a block nothing changes |
| `HeapProofs.UnderflowUnsound` | src/pmalloc.c:66-69 | A block larger by less than a header leaves an unsound heap |
| `HeapProofs.UnderflowHappens` | src/pmalloc.c:66-69 | It happens in a fresh arena of 124 bytes at a request of 90 |
| `HeapProofs.SplitIff` | src/pmalloc.c:50-84 | An allocation keeps the heap sound if and only if there is no block or the block found is exact or has room for a header |
| `HeapProofs.FreeKeeps` | src/pmalloc.c:94-118 | Releasing any assigned block keeps the heap sound, in particular fully coalesced |
| `HeapProofs.FreeBoth` | src/pmalloc.c:107-117 | Between two free blocks the backward scan and the forward merge join all three |
| `HeapProofs.RunSound` | src/pmalloc.c:50-118 | Every run of allocations and releases whose splits have room for a header keeps the heap sound |
| `HeapProofs.InitialSound` | src/pmalloc.c:36-48 | The heap of one fresh arena is sound |
| `HeapProofs.EmptyIsInitial` | src/pmalloc.c:94-118 | A sound heap without assigned blocks is the initial heap |
| `HeapProofs.HeapTheorem` | src/pmalloc.c:36-118 | After any such run from a fresh arena: sorted, tiled, coalesced, counters right; and if everything is released again, the initial heap |
| `HeapUndo.UsedDetermines` | src/pmalloc.c:50-118 | Two sound heaps in one arena with the same blocks allocated are the same, free list and counters included |
| `HeapUndo.UsersApart` | src/pmalloc.c:50-84 | Allocated blocks are inside the arena and overlap neither each other nor a free block |
| `HeapUndo.FreeUndoesMalloc` | src/pmalloc.c:50-118 | After a successful request there is a block of its size at the address returned, and releasing it gives the heap back as it was |
| `HeapUndo.FreesCommute` | src/pmalloc.c:94-118 | Two blocks may be released in either order |
| `Pmalloc.Heap.constructor` | src/pmalloc.c:36-48 | One free block with its header at the start of the arena |
| `Pmalloc.Heap.LlRemove` | src/pmalloc.c:128-145 | Unlinks a node: the list is the old one without it, links stay mutual inverses |
| `Pmalloc.Heap.LlInsertSorted` | src/pmalloc.c:147-188 | Links a node in by address: the list is the old one with it at its place, linked if and only if the links the code does not set were null |
| `Pmalloc.StaleFront` | src/pmalloc.c:158-164 | In front of a list an old `prev` that is not null stays, and no list starts at the node |
| `Pmalloc.StaleBack` | src/pmalloc.c:174-177 | Behind a list an old `next` that is not null stays, and the list does not end at the node |
| `Pmalloc.Heap.FindFit` | src/pmalloc.c:53-57 | Finds the first block that is large enough |
| `Pmalloc.Heap.Malloc` | src/pmalloc.c:50-84 | Blocks, counters and the address returned are those of the specification; the free list is linked if and only if the old links of the new header satisfy `StaleLinksOk` |
| `Pmalloc.StaleLinksHappen` | src/pmalloc.c:66-73 | After two allocations and a release in a fresh arena, a third allocation keeps the free list if and only if the old `prev` is null |
| `Pmalloc.Heap.ScanBackward` | src/pmalloc.c:107-108 | Stops at the first of the contiguous blocks |
| `Pmalloc.Heap.MergeAfter` | src/pmalloc.c:110-117 | Merges all blocks that follow without a gap |
| `Pmalloc.Heap.Release` | src/pmalloc.c:94-118 | Lists, sizes and counters afterwards are those of the specification |
| `Pmalloc.Heap.RunAll` | src/pmalloc.c:50-118 | After every run of allocations and releases the lists are linked, the heap is sound, and its state is that of `RunOps` |
| `Pmalloc.RunFromStart` | src/pmalloc.c:36-118 | The same from a first arena; when nothing is allocated the state is the initial one |
| `Pmalloc.InsertSizes` | src/pmalloc.c:147-188 | Inserting an address in the linked list is inserting its block in the specification |
| `Ternary.SetAnswer` | src/stree.c:6-43 | Setting a key gives it the value, makes inner nodes of its prefixes that led nowhere, and changes no other lookup |
| `Ternary.SetOrdered` | src/stree.c:71-85 | Every level stays a strict search tree |
| `Ternary.TreeIsMap` | src/stree.c:6-43 | After any sequence of settings, lookups answer as the map does, and with an inner node exactly for "-" and for proper prefixes of keys |
| `Ternary.VisitIsMap` | src/stree.c:127-132 | A visit that is never stopped sees exactly the keys with a value other than null, with their last values |
| `Ternary.VisitedOnce` | src/stree.c:127-132 | No key is visited twice, whatever the callback asks |
| `Ternary.StoppedVisit` | src/stree.c:127-132 | A visit sees exactly the entries that are not to the right of or below one at which the callback asked to stop |
| `STree.EditSets` | src/stree.c:6-30 | Changing one link, or the contents of one node, makes the linked tree the one with the key set |
| `STree.NewChain` | src/stree.c:13-20 | The shortcut: new nodes linked forward for the rest of the key |
| `STree.Table.Put` | src/stree.c:6-30 | The linked tree afterwards is the old one with the key set |
| `STree.Table.Get` | src/stree.c:32-43 | Returns the node that the walk along the key reaches, or null |
| `STree.Table.Exists` | src/stree.c:45-50 | True if and only if the key has a value other than null |
| `STree.FindOnLevel` | src/stree.c:113-125 | Finds the node for a character on its level |
| `STree.Iterate` | src/stree.c:127-132 | Calls back on the entries in the order of `Visited` |
| `Trees.AddKeeps` | src/btree.c:8-47 | Adding a node keeps the order, and searches find what they found before, or the new node where they found nothing |
| `Trees.FindSome` | src/btree.c:36-47 | A search finds a node with the key if and only if there is one |
| `Trees.ShuffleLeaves` | src/btree.c:82-94 | While shuffles remain the child they need exists, for every tree |
| `Trees.TiltFits` | src/btree.c:78 | Both spines are at least twice as long as the shuffles towards them |
| `Trees.BalancedNodes` | src/btree.c:73-97 | Balancing terminates and keeps the nodes of every tree |
| `Trees.BalancedKeeps` | src/btree.c:73-97 | With distinct keys it keeps the tree a search tree and its nodes in the same order |
| `Trees.BalancedFinds` | src/btree.c:36-47 | With distinct keys it changes the result of no search |
| `Balance.BalancedRoot` | src/btree.c:73-94 | For every tree, the new root is the node half as many steps down the longer spine as it is longer |
| `Balance.VeeEven` | src/btree.c:73-97 | A node with outward chains on both sides comes out with subtrees that differ by one node at most, everywhere |
| `Balance.ChainBalanced` | src/btree.c:73-97 | A chain of distinct keys in either direction comes out so too, with the least height: k for 2^k - 1 nodes |
| `Balance.EvenHeight` | src/btree.c:73-97 | Trees that are even in that sense are as low as they can be |
| `Trees.EqualKeysReordered` | src/btree.c:82-94 | With equal keys it can: three nodes added with one key come out in another order |
| `Trees.KeyLost` | src/btree.c:73-97 | With equal keys balancing can lose a key: six nodes are added, and a search for one of them finds nothing afterwards |
| `Trees.ShuffledInorderIff` | src/btree.c:17-34 | A shuffle of a search tree keeps the order of its nodes if and only if it goes left or the key of the root does not occur to the right of it |
| `Trees.ShuffledFindsIff` | src/btree.c:82-94 | It keeps the result of every search if and only if the same holds |
| `Trees.TiedLoses` | src/btree.c:82-94 | Where it does not hold, every key below that of the root is lost |
| `Trees.VisitedAll` | src/btree.c:66-71 | A callback that never asks to stop sees every node in order |
| `Trees.VisitedIff` | src/btree.c:66-71 | A visit sees exactly the nodes that are not to the right of one at which the callback asked to stop |
| `Trees.InorderSorted` | src/btree.c:66-71 | With distinct keys that order is strictly ascending |
| `BTree.HungHolds` | src/btree.c:17-34 | Setting the one link where the walk ends makes the linked tree the one with the node inserted |
| `BTree.Hang` | src/btree.c:17-34 | Inserts a node, with what hangs from it, in place |
| `BTree.Add` | src/btree.c:8-15 | Adds a new node, to an empty tree too |
| `BTree.Get` | src/btree.c:36-47 | Returns the node that `Find` does |
| `BTree.Iterate` | src/btree.c:66-71 | Calls back in the order of `Visited` |
| `BTree.CountSpine` | src/btree.c:99-106 | Counts the steps down a spine |
| `BTree.ShuffleRoot` | src/btree.c:82-94 | Relinks a child as the root and the old root under it |
| `BTree.Balance` | src/btree.c:73-97 | Relinks the tree in place to the balanced one |
| `Dll.List.Push` | src/dll.c:7-22 | Appends to the sequence; links stay mutual inverses |
| `Dll.List.Pop` | src/dll.c:24-39 | Takes the last value; null from an empty list |
| `Dll.List.Unshift` | src/dll.c:41-55 | Prepends to the sequence |
| `Dll.List.Shift` | src/dll.c:57-72 | Takes the first value; null from an empty list |
| `Dll.List.Iterate` | src/dll.c:80-87 | Visits the sequence in order up to the value on which the callback asks to stop |
| `Dll.UptoAll` | src/dll.c:80-87 | Without such a value that is the whole sequence |
| `Dll.UptoStops` | src/dll.c:80-87 | With such a value it is the sequence up to and including the first |
| `RegSet.ParseIsUnion` | src/parser.c:90-129 | For items and separators in any order, overlapping or not, ranges in either direction: exactly the registers some item denotes |
| `RegSet.PrintParses` | src/printer.c:54-127 | Every 16-bit mask is read back from what is printed for it |
| `RegSet.PrintsRuns` | src/printer.c:60-120 | One item is printed for each run of registers of a bank |
| `RegSet.PrintsSlash` | src/printer.c:54-127 | A slash stands between the banks if and only if both have registers |
| `RegSet.ErrorIsASet` | src/parser.c:99-109 | A register that does not exist gives the same result as d0-d7 |
| `RegSet.BadItem` | src/parser.c:90-129 | Behind any good items, a character that begins none gives 65535 and a register that does not exist 255 |
| `RegSet.InSetIsBit` | src/vm.c:494-510 | The bits parsed and printed are the registers pushed and popped |
| `RegSet.ParseSet` | src/parser.c:90-129 | The loop over the text returns `Parse` |
| `RegSet.PrintOneBank` | src/printer.c:60-87 | The loop over one bank prints `PrintBank` |
| `RegSet.PrintSet` | src/printer.c:54-127 | Both banks and the separator |
| `Operands.RoundTripIff` | src/printer.c:19-52 | A printed operand reads back as the same byte if and only if it is below 64, one of the four addressing modes |
| `Operands.Spelled` | src/parser.c:22-88 | The numbers of the eight spellings of operands |
| `Operands.TooLarge` | src/parser.c:29-40 | `d8` and `d9` are `a0` and `a1`; other letters give 255 |
| `Immediate.PrintParses` | src/printer.c:129-131 | Every 64-bit value is read back from what is printed for it |
| `Immediate.PrefixedValue` | src/parser.c:146-152 | `#0x`, `#0X`, `#0b`, `#0B` and `#0d` numerals of any length give their positional value, up to 2^64 - 1 |
| `Immediate.PlainValue` | src/parser.c:153-168 | A plain numeral gives its value up to 2^63 - 1, or up to 2^64 - 1 if it begins with a zero |
| `Immediate.SpellingsAgree` | src/parser.c:131-169 | The spellings of one number agree, the plain one if and only if the number is below 2^63 |
| `Immediate.QuotedValue` | src/parser.c:155-164 | A quoted character is its code, sign-extended |
| `Immediate.EscapedValue` | src/parser.c:156-163 | The four escapes, and 255 for others |
| `Immediate.NegativeValue` | src/parser.c:165-167 | A negative numeral is its two's complement at every width, down to -2^63 |
| `Immediate.RestIgnored` | src/parser.c:165-167 | What is behind a numeral is ignored, and so is a plus sign |
| `Immediate.PrintsHex` | src/printer.c:129-131 | What is printed is a hexadecimal numeral without zeros in front |
| `Immediate.CapitalDIsZero` | src/parser.c:151 | `#0D` followed by anything is 0 |
| `Lexer.ParseRecovers` | src/mhasm.c:146-272 | Every line of label, opcode, width, arguments and comment, with any white space between: the pieces are those parts in small letters, in order, without overlap and inside the line |
| `Lexer.ThirdArgumentLost` | src/mhasm.c:241-271 | Behind a label a third argument is dropped, and with it a comment; all else is recovered |
| `Lexer.TakeWord` | src/mhasm.c:274-286 | The scanner finds the next word, whatever gap is in front of it, and stops at its end |
| `Lexer.ScanSegment` | src/mhasm.c:274-286 | The two loops, with the position in eight bits, give what `Scan` does whenever they end |
| `Lexer.ScanIff` | src/mhasm.c:274-286 | That is the next word if and only if the word ends within 255 characters |
| `Lexer.ScanEndless` | src/mhasm.c:274-286 | On a line that begins with 256 characters of text the loops do not end |
| `Lexer.ParseLine` | src/mhasm.c:146-272 | The five stages compute `Parse` on every line whose words end within 255 characters, the part behind `//` apart |
| `Lexer.ShortLineInReach` | src/mhasm.c:146-286 | That is so on every line of at most 255 characters |
| `Lexer.CopySegment` | src/mhasm.c:288-300 | Copies a piece in small letters |
| `Disasm.AlikeIff` | src/mhdasm.c:119-257 | Both passes size an instruction alike if and only if it is not `jmp` and has no immediate of the load group |
| `Disasm.TwoSizeIsFetched` | src/mhdasm.c:293-466 | The second pass consumes what the machine does, except for immediates of the load group wider than a byte |
| `Disasm.OneSizeIsFetched` | src/mhdasm.c:106-260 | So does the first, except for `jmp`, shifts and rotates by an immediate and load-group immediates narrower than 64 bits |
| `Disasm.NumbersDistinct` | src/mhdasm.c:145-163 | Two positions have the same number only if they are the same |
| `Disasm.TargetsEntered` | src/mhdasm.c:301-342 | On code sized alike, the target looked up for a reference was entered by the first pass, though the counts start at 4 and at 0 |
| `Disasm.ReferencesNamed` | src/mhdasm.c:262-342 | Each reference is printed with the number of the label printed in front of its target |
| `Disasm.JmpNotNamed` | src/mhdasm.c:144-157 | The target of a lone `jmp` is never entered |
| `Disassembler.AddNumbered` | src/mhdasm.c:154-157 | The tree answers with the number of the first entry for a position, after each entry |
| `Disassembler.State.FirstPass` | src/mhdasm.c:106-260 | One instruction of the first pass: position, keys and tree |
| `Disassembler.State.FirstPasses` | src/mhdasm.c:82-85 | The loop enters exactly `Keys` |
| `Disassembler.State.SecondPass` | src/mhdasm.c:262-469 | One instruction of the second pass |
| `Disassembler.Disassemble` | src/mhdasm.c:82-99 | Both passes together give `Listing` |
| `Names.WalksLines` | src/mhdasm.c:82-99 | On an assembled file of plain lines the passes go from line to line |
| `Names.LabelsAgree` | src/mhdasm.c:301-342 | In the listing of an assembled file a reference carries the number printed in front of the line that defines its label |
| `Relist.LineForListed` | src/mhdasm.c:301-342 | The labels in the lines of a listing are those that the second pass prints |
| `Relist.ListingsMatch` | src/mhdasm.c:262-469 | The listing read as source and the one the second pass prints have the same length, and entry by entry the same position and labels |
| `Relist.ListedIsTail` | src/mhdasm.c:262-469 | The listing of an assembled program is the program, line by line, with other names for its labels |
| `Relist.TailNames` | src/mhdasm.c:267-273 | No label is defined twice in a listing |
| `Relist.KeepsTarget` | src/mhdasm.c:301-342 | Every reference of the listing is to a label at the place of the original one |
| `Relist.ListingMeansTheSame` | src/mhdasm.c:262-469 | The listing of an assembled file is a well-defined program, and the two-pass reference for it is that file |
| `Relist.Reassembles` | src/mhasm.c:602-637 | The one-pass assembler gives that file again if and only if no label of the listing is captured |
| `Relist.FewReferencesClean` | src/mhdasm.c:145-163 | With at most eighteen references no label of the listing is captured, whatever the file |
| `Relist.FewReferencesReassemble` | src/mhdasm.c:145-163 | So the listing then always assembles to the same file |
| `Recapture.KeysArePlaces` | src/mhdasm.c:144-157 | The first pass over an assembled file enters the places of its references, in order |
| `Recapture.NineteenReferencesFail` | src/mhdasm.c:145-163 | A concrete program with nineteen references whose listing does not assemble to the same file, whatever the order of the fix-ups |
| `Opcodes.MnemonicFound` | src/opcodes.c:4-173 | The assembler's table finds every opcode under the disassembler's name for it; `data` has none |
| `Opcodes.WordsFound` | src/opcodes.c:4-173 | `beq` stands for the opcode the machine takes as `BEQ`, and so on for every opcode the machine names |
| `Opcodes.BeginningIsFound` | src/mhasm.c:332-341 | A word is found as an inner node if and only if it is no name and is "-" or a proper beginning of a name |
| `Opcodes.NamesDiffer` | src/opcodes.h:89-167 | No two opcodes have the same name |
| `SourceText.PiecesOfText` | src/mhdasm.c:293-466 | The lexer takes a printed line apart into the words that were printed |
| `SourceText.ReadsBack` | src/mhasm.c:302-530 | Every printable line, printed and read, is the line again |
| `Notation.NotationReads` | src/mhasm.c:302-530 | A line whose words denote a statement, of any shape, is read as it, whatever the label, comment, white space and letter case |
| `Notation.ImmediateReads` | src/mhasm.c:401-429 | The load group and shifts by an immediate, with the number in any spelling |
| `Notation.SpelledValue` | src/parser.c:131-169 | Which spellings of a number there are, behind the lexer |
| `Notation.CapitalQuoted` | src/mhasm.c:288-300 | A quoted capital is read as the small letter |
| `SourceText.BeginningReadsAsNop` | src/mhasm.c:332-348 | A word found as an inner node, without a width, is read as `nop`, whatever its arguments |
| `SourceText.LoReadsAsNop` | src/mhasm.c:332-348 | `lo` is such a word |
| `SourceText.LabelledDivisionLost` | src/mhasm.c:500-516 | A division with a label reads back with 255 for its last operand |
| `SourceText.AllReadBack` | src/mhasm.c:65-80 | A listing of printable lines is read back as it was |
| `Toolchain.OnceAround` | src/mhasm.c:18-97 | Program, file, text, program, file: the text reads back as the listing, and the second file is the first if and only if no label of the listing is captured |
| `Toolchain.OnceAroundFails` | src/mhasm.c:18-97 | A concrete program whose text reads back as its listing and assembles to another file |

## Left out

- Vm.Vm.Run: makes at most a given number of steps, and asks that their effects be defined, because a run need not end.
- Stack.PushPopRoundTrip: leaves out `.b`, where each push also overwrites the byte above the one it stores.
- Calls.ReturnMatchesCall: a `callm` whose operand uses A7 is not a stack operation in the sense of the theorem; instructions other than calls, returns, `push.l -(a7)` and `pop.l (a7)+` may do anything that leaves A7 and the memory above it alone.
- Pmalloc.Heap.Malloc: asks for a block that is exact or has room for a header; otherwise the new header overlaps the next one, which a memory made of whole headers does not show. That the heap is then unsound is `UnderflowUnsound`.
- Vm.Vm.constructor: does not hand the memory to the allocator, which is modelled on its own.
- Lexer.ParseLine: words that end behind the first 255 characters, where the eight-bit position wraps around and the scanner does not find the word (`ScanIff`); the same for `Lexer.CopySegment`.
- Lexer.ParseRecovers: white space at the end of a line, which is cut off before, and words behind the last argument.
- SourceText.ReadsBack: does not bound the length of printed lines; the scanner's reach is a matter of `Lexer.ParseLine`.
- Toolchain.OnceAround: leaves out `jmp`, the load group, empty register sets, floating-point immediates and data, which the disassembler does not print as they are, and labels at the end of the file.
- Disasm.ReferencesNamed: files that end inside an instruction, and opcodes missing from the opcode table, for which the program dereferences null.
- Disassembler.State.SecondPass: delivers labels and references; the words of a line are in `SourceText`.
- Immediate.PrintParses: `strtoul` and `strtol` are modelled for the C locale.
- Files, arguments, header checks and messages: input is a list of lines or bytes, output a list of bytes, an error a result.
- The assembler as a class starts from lines whose operands are values; `SourceText.Read` is how text becomes such lines.
- `check_args`: a missing or superfluous width or argument is only reported; a width on an opcode without one, which changes the opcode written, is not modelled. Nor is `write_data`, beyond the bytes it writes.
- Floating point: instructions are encoded and fetched, their effects and their text are not modelled.
- `syscall`, and `alloc` and `free` inside the machine: output, and host pointers cut to 32 bits.
- Most one-line arithmetic and logic instructions (`mul`, `and`, `or`, `xor`, shifts, `tst`): one of each operand shape is modelled. `not` is logical in the code, and `tsti` is not in the assembler's table.
- `stree_balance`, `stree_insert`: not called, and ordered by key pointers. `stree_free`, `btree_free`, `dll_free`: releasing host memory.
- Backward `dll_iterate`, which begins at the first node; `pcalloc`, which clears `size` bytes rather than `num * size`; `psizeof`.
- A second arena, big-endian hosts, failing host allocation, `feof` after the last byte, unaligned access.
- Chains of new nodes in `stree_set` are linked before rather than after they are hung into the tree; the result is the same.
