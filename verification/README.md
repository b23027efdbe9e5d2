# RISC-V workbench: proofs about its lowering, arithmetic, page tables, debugger and console

This project models the parts of the repository whose correctness does not show in any single body, and proves it for
all inputs, all runs or all interleavings. `dafny verify dfyconfig.toml` checks everything.

**Instruction lowering** (`abstract-machine/tools/rvmini`). Assembler macros rewrite RV32I programs to eight base
instructions, with the help of generated tables, 28 scratch bytes below `sp` and the registers `tp` and `gp`.
`Machine` is a machine that knows only the base instructions, `Macros` gives the expansion of every macro, `Rv32i` the
meaning of the source instructions, `Lowering` and `Simulation` put programs together. `Simulation.LoweringSimulates`
is the main result: the linked expansion of a whole program, with its jumps and branches, runs in lockstep with the
program. `Tables`, `ShiftTables`, `BasicMacros`, `CompareMacros`, `ShiftMacros`, `LogicMacros`, `Environment` and
`LoweringProof` build up to it; `Isa` says what the instructions compute as relations on numbers and bits, and that the
expansions compute it; `Destinations` says exactly what happens for the four destination registers the theorem leaves
out.

**64-bit arithmetic on 32-bit words** (`abstract-machine/klib/src/int64.c` and `libgcc`). Branch-free bit counting
(`CountZeros`), shift-subtract division with its special cases (`WideShifts`, `DivisionLoop`, `UnsignedDivision`,
`SignedDivision`), shift-and-add multiplication (`Multiplication`) and schoolbook digits (`LongLong`), with every
wrap-around written out.

**Page tables** (`abstract-machine/am/src/x86/qemu/vme.c`). The class `Vme.PageManager` keeps a memory of table pages
and changes it in place. `Mmu` has the addresses and entries, `Translation` the processor's walk with the rights that
all levels grant together, `PageTables` to `Initialization` the invariants and their preservation, `Footprint` how many
tables start-up takes, `Runs` whole runs of requests against a partial map that knows no tables, and `X86` and `Boot`
the 32-bit layout from start-up on. The number of levels, the masks and the areas are parameters.

**The debugger's expressions** (`core/csrc/infrastructure/expr.c`). `Evaluator` has the scanning evaluator on an array
of tokens, `Grammar` a conventional precedence grammar with the values of its trees, as relations on numbers, and
`Parsing` the theorem that the two agree in what they accept and in the value.

**The console, watchpoints and formatted output**. `Htif` is the console protocol as steps of any number of harts and
a host, `HtifWords` the words in which its messages travel, and `Console` what the calls come to in the words that the
host takes; `Watchpoints.Pool` is the pool of linked nodes; `Printf`
says what a format renders to and `Stdio` is the bounded writer that produces it. `Directives` gives the spelling of a
conversion specification and what it asks for, `Standard` the integer fields of section 7.21.6.1 of ISO C11.

## Model

| member | source | states |
|---|---|---|
| Simulation.LoweringSimulates | abstract-machine/tools/rvmini/inst-replace.h:2-722 | for every covered program, every number of source steps and every state in simulation whose run does not read or write scratch memory, the linked base code reaches a state with the same registers except `tp` and `gp`, the same memory outside scratch and the check array, and the matching program counter |
| Simulation.StepSim | abstract-machine/tools/rvmini/inst-replace.h:2-722 | one source instruction, jump or branch of any kind is simulated by the base steps of its expansion |
| Isa.ResultExactly | abstract-machine/tools/rvmini/inst-replace.h:2-722 | a value is what an instruction puts into its destination if and only if it stands in the relation of the RV32I specification to the operands: sums and differences modulo 2^32, comparisons of the numbers that the words stand for, bits one by one, multiples and quotients for shifts, sign extension by two's complement, bytes in little-endian order |
| Isa.LoweredResult | abstract-machine/tools/rvmini/inst-replace.h:2-722 | the expansion of every covered instruction that computes leaves such a value in the destination, and changes nothing else that can be seen |
| Isa.AluExactly | abstract-machine/tools/rvmini/inst-replace.h:51-511 | the same for register operations alone: for `and`, `or` and `xor` each bit of the result is set if and only if both, one or exactly one of the operands' bits are |
| Isa.TakenExactly | abstract-machine/tools/rvmini/inst-replace.h:297-380 | when a branch is taken, by the numbers that the operands stand for |
| Isa.StoreMeans | abstract-machine/tools/rvmini/inst-replace.h:595-599 | a store of one, two or four bytes leaves the low bytes of the register at the address, the lowest first, and all else as before |
| LoweringProof.BodyOk | abstract-machine/tools/rvmini/inst-replace.h:108-654 | the straight-line part of every covered expansion leaves the registers and memory that the RV32I instruction asks for |
| LoweringProof.BranchOk | abstract-machine/tools/rvmini/inst-replace.h:273-380 | after the condition and `branch_resolve`, `tp` holds the target exactly when the RV32I condition holds, and the fall-through address otherwise |
| LoweringProof.CondOk | abstract-machine/tools/rvmini/inst-replace.h:297-380 | for all operands and all six conditions, including the forms against `x0`, the 0/1 value in `tp` decides the branch |
| Tables.GenLut | abstract-machine/tools/rvmini/gen-lut.c:10-24 | the generated file has exactly the length of the six tables; in the first three, bit by bit, each byte is the conjunction, disjunction or difference of row and column; in the others each little-endian word is the column, or the column as top byte, shifted by the row: multiplied modulo 2^32, or divided rounding down |
| Tables.GenTable | abstract-machine/tools/rvmini/gen-lut.c:10-17 | the two nested loops append the entries in row-major order, each lowest byte first |
| Bits.JoinsExactly | abstract-machine/tools/rvmini/gen-lut.c:19-21 | a number is the bitwise result on n bits if and only if its bits are those that the operator makes of the operands' bits |
| Bits.BitwiseSums | abstract-machine/tools/rvmini/gen-lut.c:19-21 | conjunction and disjunction of two numbers add up to their sum, and so do the exclusive disjunction and twice the conjunction |
| BasicMacros.MsbOk | abstract-machine/tools/rvmini/inst-replace.h:115-124 | `msb` computes the sign bit and touches one scratch word, for every destination but `sp` |
| BasicMacros.NotOk | abstract-machine/tools/rvmini/inst-replace.h:626-654 | `not` computes the complement, restores `gp`, and changes only `tp` and scratch words besides |
| BasicMacros.SubOk | abstract-machine/tools/rvmini/inst-replace.h:108-113 | `sub` computes the difference modulo 2^32, also when source and destination coincide |
| CompareMacros.SltTables | abstract-machine/tools/rvmini/inst-replace.h:51-65 | the two eight-entry tables, indexed by the signs of the operands and of their difference, are signed and unsigned less-than for all words |
| CompareMacros.SltTemplateOk | abstract-machine/tools/rvmini/inst-replace.h:126-161 | `slt` and `sltu` load the table entry of the three signs and restore `s0` and `s1` |
| CompareMacros.SeqOk | abstract-machine/tools/rvmini/inst-replace.h:211-245 | `seq` gives 1 exactly for equal operands, whatever the check array holds before, and restores `s0` and `s1`, which also wins when one of them is the destination |
| CompareMacros.SeqzOk | abstract-machine/tools/rvmini/inst-replace.h:247-271 | `seqz` gives 1 exactly for zero, for every destination but `sp`; with `s0` as the destination the restore wins instead |
| CompareMacros.ResolveOk | abstract-machine/tools/rvmini/inst-replace.h:275-294 | `branch_resolve` leaves in `tp` the address that its 0/1 value selects |
| CompareMacros.NotPositiveOk | abstract-machine/tools/rvmini/inst-replace.h:334-342 | the two sign bits and the or-table decide whether a word is not positive |
| LogicMacros.LogicOk | abstract-machine/tools/rvmini/inst-replace.h:163-208 | the bytewise look-ups of `and`, `or` and `xor` give the table's bytes for all four positions |
| Environment.BytewiseIsBitwise | abstract-machine/tools/rvmini/inst-replace.h:163-208 | the four table bytes together are the 32-bit bitwise result: each bit is set if and only if both, one or exactly one of the operands' bits are |
| ShiftTables.SllSumOk | abstract-machine/tools/rvmini/inst-replace.h:397-428 | the sum of the four table words, moved to their byte positions, is the word shifted left, for every word and amount |
| ShiftTables.RightSumLogical | abstract-machine/tools/rvmini/inst-replace.h:430-511 | the byte sums of `srl` never carry and give the word shifted right |
| ShiftTables.RightSumArithmetic | abstract-machine/tools/rvmini/inst-replace.h:430-511 | the same for `sra` with the arithmetic table for the top byte |
| ShiftMacros.SllMacroOk | abstract-machine/tools/rvmini/inst-replace.h:382-428 | `sll` computes that sum for the amount modulo 32 and restores `s0` |
| LoweringProof.ShiftRegOk | abstract-machine/tools/rvmini/inst-replace.h:382-522 | `sll`, `srl` and `sra` by a register shift by the amount modulo 32, in every destination register |
| LoweringProof.ShiftImmRightOk | abstract-machine/tools/rvmini/inst-replace.h:430-566 | `srli` and `srai` shift by every immediate below 32, the fast paths included |
| ShiftMacros.SlliOk | abstract-machine/tools/rvmini/inst-replace.h:524-550 | `slli` shifts by every immediate below 32, on its three paths |
| LoweringProof.LbOk | abstract-machine/tools/rvmini/inst-replace.h:568-574 | `lb` sign-extends the addressed byte, for every destination but `sp` |
| LoweringProof.LhOk | abstract-machine/tools/rvmini/inst-replace.h:585-593 | `lh` joins and sign-extends two bytes |
| LoweringProof.LhuOk | abstract-machine/tools/rvmini/inst-replace.h:576-583 | `lhu` joins two bytes |
| Destinations.SeqzS0Exactly | abstract-machine/tools/rvmini/inst-replace.h:253-271 | `seqz s0` does what it should if and only if `s0` held the result before |
| Destinations.SeqzSpExactly | abstract-machine/tools/rvmini/inst-replace.h:253-271 | `seqz sp` does what it should if and only if the word popped through the new `sp` is the old `s0` |
| Destinations.SltzSpExactly | abstract-machine/tools/rvmini/inst-replace.h:664-666 | `sltz sp` does what it should if and only if storing twice the operand's top byte through the new `sp` changes nothing that can be seen |
| Destinations.LbSpExactly | abstract-machine/tools/rvmini/inst-replace.h:568-574 | `lb sp` does what it should if and only if its byte store and its word store through the moved `sp` change nothing that can be seen |
| Destinations.DestinationsFail | abstract-machine/tools/rvmini/inst-replace.h:253-574 | one machine state that meets every assumption of the macros, on which all four fail |
| CountZeros.ClzSi2 | abstract-machine/klib/src/int64.c:626-655 | the branch-free search returns the number of zero bits above the highest set bit, and 32 for zero |
| CountZeros.CtzSi2 | abstract-machine/klib/src/int64.c:661-695 | the same for the zero bits below the lowest set bit |
| CountZeros.ClzDi2 | abstract-machine/klib/src/int64.c:711-717 | the double-word version, by masks instead of branches, also when the high word is zero |
| CountZeros.CtzDi2 | abstract-machine/klib/src/int64.c:703-709 | the same for trailing zeros |
| UnsignedDivision.UDivModDi4 | abstract-machine/klib/src/int64.c:412-620 | on every special path and through the loop, a is q times b plus r with r below b, for every 64-bit a and non-zero b |
| DivisionLoop.DividingStep | abstract-machine/klib/src/int64.c:591-616 | one turn of the shift-subtract loop keeps the partial quotient and remainder of the bits seen so far |
| DivisionLoop.SignDecides | abstract-machine/klib/src/int64.c:605-615 | the sign of the difference of divisor and remainder, minus one, modulo 2^64, is set exactly when the remainder is not below the divisor |
| DivisionLoop.DividesUnique | abstract-machine/klib/src/int64.c:412-620 | quotient and remainder with these properties are `/` and `%` |
| UnsignedDivision.UDivDi3 | abstract-machine/klib/src/int64.c:394-398 | the quotient |
| UnsignedDivision.UModDi3 | abstract-machine/klib/src/int64.c:402-408 | the remainder |
| SignedDivision.DivDi3 | abstract-machine/klib/src/int64.c:355-365 | the quotient truncated toward zero, and the dividend itself in the one case whose quotient does not fit |
| SignedDivision.ModDi3 | abstract-machine/klib/src/int64.c:379-390 | the remainder with the sign of the dividend, in every case |
| SignedDivision.DivModDi4 | abstract-machine/klib/src/int64.c:369-375 | quotient and back-multiplied remainder agree with both, the overflowing case included |
| SignedDivision.TruncatesExactly | abstract-machine/klib/src/int64.c:355-390 | the conditions of section 6.5.5 of ISO C11 determine the quotient and the remainder |
| Multiplication.MulSi3 | abstract-machine/am/src/riscv/npc/libgcc/muldi3.S:36-48 | the add-and-shift loop gives the product modulo 2^32 |
| Multiplication.LowProduct | abstract-machine/am/src/riscv/npc/libgcc/multi3.c:56-77 | the loop gives the exact double-word product of two words |
| Multiplication.Multi3 | abstract-machine/am/src/riscv/npc/libgcc/multi3.c:56-85 | the product modulo 2^64 for all operands |
| Multiplication.ShiftMultiplies | abstract-machine/am/src/riscv/npc/libgcc/ashldi3.c:4-27 | shifting left by b is multiplication by 2^b modulo 2^64, for every b below 64 |
| LongLong.UMulPpmm | abstract-machine/am/src/riscv/npc/libgcc/longlong.h:1080-1102 | the four half-word products, with the one possible carry, give the exact product |
| LongLong.QuotientDigit | abstract-machine/am/src/riscv/npc/libgcc/longlong.h:1681-1716 | a quotient digit after at most two corrections is exact; the estimate is never more than 2 too large |
| LongLong.UDivQrnndC | abstract-machine/am/src/riscv/npc/libgcc/longlong.h:1681-1716 | two digits make the exact quotient and remainder of a double word by a normalized divisor |
| Vme.PageManager.PgAllocZ | abstract-machine/am/src/x86/qemu/vme.c:40-47 | a page of the pool, all zeros, or nothing when the pool is empty |
| Vme.PageManager.PtWalk | abstract-machine/am/src/x86/qemu/vme.c:57-75 | the walk reaches the entry the hardware uses, links the tables that it adds with the write bit and, outside the kernel, the user bit, adds tables only on the way of the address, changes no translation, conserves pages, allocates nothing when the tables are complete, and fails exactly when more tables are missing than there are free pages |
| Vme.PageManager.VmeInit | abstract-machine/am/src/x86/qemu/vme.c:89-115 | start-up succeeds if and only if there are as many pages as there are different tables on the way to the pages of the kernel; then the processor finds in the kernel's tree exactly those pages, mapped to themselves, writable and not for user mode, the area that ends at 2^32 included; no address space exists; all pages are accounted for |
| Vme.PageManager.Protect | abstract-machine/am/src/x86/qemu/vme.c:117-135 | a new address space with exactly the kernel's identity mapping; nothing else changes |
| Vme.PageManager.Map | abstract-machine/am/src/x86/qemu/vme.c:141-156 | exactly when it panics and for which of five reasons; otherwise the processor's translation in all spaces, with its write and user rights, changes at that one page and nowhere else: to nothing when `prot` is zero, and else to the physical page for user mode, writable if and only if bit 1 of `prot` is set; no kernel table is written |
| Vme.PageManager.Unprotect | abstract-machine/am/src/x86/qemu/vme.c:137-139 | exactly the table pages of this address space are freed, each once; the other spaces keep their mappings |
| Vme.PageManager.Teardown | abstract-machine/am/src/x86/qemu/vme.c:77-87 | the recursion frees the pages below a table and no other |
| Mmu.SameIndices | abstract-machine/am/src/x86/qemu/vme.c:49-51 | different pages have different index vectors |
| Mmu.EntryFormat | abstract-machine/am/src/x86/qemu/vme.c:53-71 | present, writable and user are bits 0, 1 and 2 of an entry, and the page is the rest from bit 12 on |
| Translation.TranslateLast | abstract-machine/am/src/x86/qemu/vme.c:57-75 | in every state that occurs, the page and the rights that the processor finds over all levels are those that the last-level entry shows |
| Translation.KernelTree | abstract-machine/am/src/x86/qemu/vme.c:89-115 | the processor finds in the kernel's own tree exactly the kernel's pages, mapped to themselves, writable and not for user mode |
| Mappings.ViewsAgree | abstract-machine/am/src/x86/qemu/vme.c:117-156 | the partial map that all results speak of is at once the processor's translation and the one read from the last level |
| Mappings.KernelEverywhere | abstract-machine/am/src/x86/qemu/vme.c:117-135 | every address space translates each kernel page to itself, writable and not for user mode, and nothing else there |
| Runs.Serve | abstract-machine/am/src/x86/qemu/vme.c:117-156 | one request does to the tables what it does to the partial map, and panics for an invalid address if and only if it maps one outside the user's area |
| Runs.ApplyPages | abstract-machine/am/src/x86/qemu/vme.c:117-156 | what a request does to the partial map, page by page: one user page with the rights asked for, the kernel's pages of a new space, or all pages of a space |
| Runs.Run | abstract-machine/am/src/x86/qemu/vme.c:117-156 | after any run of requests the tables stand for the map that the run describes; pages are conserved and kernel tables unchanged; the run stops for an invalid address exactly at the first request outside the user's area, if no other panic comes first |
| Runs.KernelIdentity | abstract-machine/am/src/x86/qemu/vme.c:117-156 | in every state that a run reaches, every address space maps every kernel page to itself, writable and not for user mode |
| X86.PagingLayout | abstract-machine/am/src/x86/qemu/vme.c:15-34 | the constants of the 32-bit configuration meet all demands of the page manager |
| X86.PagingIndices | abstract-machine/am/src/x86/qemu/vme.c:15-26 | the two indices are bits 22 to 31 and 12 to 21 of an address |
| X86.UserArea | abstract-machine/am/src/x86/qemu/vme.c:28-29 | the user's addresses are those from 0x40000000 up to 0x80000000 |
| X86.KernelPages | abstract-machine/am/src/x86/qemu/vme.c:28-34 | the kernel's pages are the aligned addresses below 0x40000000 and from 0xFD000000 up to 2^32 |
| X86.KernelEntries | abstract-machine/am/src/x86/qemu/vme.c:15-34 | the shared level-1 entries are 0 to 255 and 1012 to 1023 |
| X86.KernelTables | abstract-machine/am/src/x86/qemu/vme.c:15-34 | the kernel's tree of the 32-bit configuration has 269 tables |
| Boot.BootAndRun | abstract-machine/am/src/x86/qemu/vme.c:89-156 | start-up and then any run of requests on the 32-bit layout: start-up succeeds if and only if 269 pages are handed over, the tables stand for the predicted map, every space has the kernel's identity mapping, writable and not for user mode, only requests from 0x40000000 up to 0x80000000 are served, and free and table pages are together the pages handed over |
| Evaluator.CheckParenthesis | core/csrc/infrastructure/expr.c:136-157 | the scan decides invalid, enclosing and other ranges by the parenthesis depth |
| Evaluator.FindMainOp | core/csrc/infrastructure/expr.c:158-221 | the scan finds the last operator of the loosest level outside parentheses, and aborts exactly when some prefix closes too many; the inner loop stays in range |
| Evaluator.EvalRange | core/csrc/infrastructure/expr.c:270-401 | the recursion on ranges of the array computes the evaluator's function |
| Grammar.EvalDerivation | core/csrc/infrastructure/expr.c:270-401 | the evaluator returns the meaning of every expression of the grammar |
| Grammar.EvalDenotes | core/csrc/infrastructure/expr.c:270-401 | the value that it returns is the one that the expression denotes by relations on numbers, and it crashes if and only if the expression denotes none |
| Grammar.Unambiguous | core/csrc/infrastructure/expr.c:158-221 | no sequence of tokens has two derivations |
| Parsing.UnaryFirst | core/csrc/infrastructure/expr.c:158-221 | a unary main operator is the first token of its range |
| Parsing.EvalAgrees | core/csrc/infrastructure/expr.c:270-401 | the evaluator returns v exactly when the tokens derive from the grammar and the derivation denotes v |
| Parsing.ExprAgrees | core/csrc/infrastructure/expr.c:404-430 | the same for the tokens as written, before the retyping of unary operators |
| Parsing.EvaluateTokens | core/csrc/infrastructure/expr.c:404-430 | the same for the two loops on the array, retyping in place and then evaluating |
| Parsing.TwoOperands | core/csrc/infrastructure/expr.c:352-394 | one operator between two words: sum, difference and product modulo 2^32, the quotient by x = q y + r with r below y, comparisons as 0 or 1, and a crash for a division by zero only |
| Parsing.OneOperand | core/csrc/infrastructure/expr.c:335-350 | `-` gives the additive inverse modulo 2^32 and `*` the word in memory |
| Parsing.ThreeOperands | core/csrc/infrastructure/expr.c:158-221 | for all pairs of operators, `x p y q z` is `x p (y q z)` if q is in a tighter group than p, and `(x p y) q z` otherwise |
| Parsing.MixedOperands | core/csrc/infrastructure/expr.c:158-221 | unary operators apply before binary ones, and parentheses before both |
| Parsing.SumOfProduct | core/csrc/infrastructure/expr.c:158-221 | `x + y * z` is the sum of x and the product, modulo 2^32 |
| Parsing.AbortExactly | core/csrc/infrastructure/expr.c:158-182 | the assertion on a closing parenthesis fails exactly when the sums agree but some prefix closes too many |
| Parsing.AbortHappens | core/csrc/infrastructure/expr.c:158-182 | it fails for `)(` and for `())(` |
| Parsing.ParenErrExactly | core/csrc/infrastructure/expr.c:306-311 | the parenthesis error is reported if and only if there is more than one token and the parentheses do not add up |
| Parsing.ErrorCases | core/csrc/infrastructure/expr.c:275-326 | which error nothing, a lone operator, a missing operand and a missing operator give |
| Parsing.RightFirst | core/csrc/infrastructure/expr.c:332-354 | the right side is evaluated first, so its error hides a division by zero on the left |
| Parsing.RetypeTokens | core/csrc/infrastructure/expr.c:411-425 | the in-place loop retypes exactly the unary `*` and `-` |
| Htif.Safety | abstract-machine/am/src/riscv/spike/htif.c:19-103 | over all interleavings of any number of harts and the host: one hart inside the lock, no failing assertion, no command overwritten, one console read outstanding, and input returned in order without loss or duplication |
| Htif.InvStep | abstract-machine/am/src/riscv/spike/htif.c:19-103 | every step of every hart and of the host keeps the invariant |
| Console.Output | abstract-machine/am/src/riscv/spike/htif.c:39-103 | over all interleavings: the words written to `tohost`, by device, command and payload, carry the calls one by one in the order of the stores; the host prints exactly the characters of the output calls; each call that has ended has written exactly one word, in the same order, unless it is a read that found no character |
| Htif.ExclusionNeedsSwap | abstract-machine/am/src/riscv/spike/atomic.h:20-63 | the lock excludes in every run exactly when the swap is one step or there is only one hart |
| Htif.TornSwap | abstract-machine/am/src/riscv/spike/atomic.h:20-63 | a run with two harts inside when the swap is a read and a write |
| Htif.WordsCarry | abstract-machine/am/src/riscv/spike/htif.c:39-44 | in every run the two words, as 64 bits, hold just the messages of the model |
| HtifWords.PackRoundTrip | abstract-machine/am/src/riscv/spike/htif.h:8-18 | device, command and a payload below 2^48 are read back from the word, and only the all-zero message gives zero |
| HtifWords.PackIsSum | abstract-machine/am/src/riscv/spike/htif.h:8-10 | device, command and payload stand at bits 56, 48 and 0 of the word |
| HtifWords.ArrivesExactly | abstract-machine/am/src/riscv/spike/htif.h:8-18 | a message arrives as it was sent if and only if its payload is below 2^48 and it is not all zero |
| Watchpoints.Pool.NewWp | core/csrc/infrastructure/watchpoint.c:22-40 | the first free node becomes the first active one, or the pool is empty |
| Watchpoints.Pool.FreeWp | core/csrc/infrastructure/watchpoint.c:42-54 | the node moves to the front of the free list, or the call crashes, exactly when it follows a null pointer |
| Watchpoints.Pool.DeleteWp | core/csrc/infrastructure/watchpoint.c:78-88 | the node with that number, and no other, leaves the active list; missing numbers change nothing |
| Watchpoints.Run | core/csrc/infrastructure/watchpoint.c:22-88 | any sequence of commands survives exactly when it meets the dereference conditions, and then ends in the lists it describes, still a partition of the 32 nodes with inverse links |
| Watchpoints.OlderCrashes | core/csrc/infrastructure/watchpoint.c:22-88 | from the initial pool, setting two watchpoints and deleting the older one does not survive |
| Stdio.VSNPrintf | abstract-machine/klib/src/stdio.c:287-334 | the count is the length of the whole rendering, its first characters are stored, and the terminator is behind them: inside the `size` bytes exactly when the rendering is shorter |
| Directives.DirectiveParses | abstract-machine/klib/src/stdio.c:88-165 | `parse_format` on the text of a conversion specification: a flag is set if and only if its character is among the flags, width and precision are the numbers that the figures or the arguments of `*` give or -1, length and conversion are as written, and the rest of format and arguments is what follows; nothing when an argument of a `*` is missing |
| Directives.ParseSpells | abstract-machine/klib/src/stdio.c:88-165 | the converse: what `parse_format` accepts is the text of a conversion specification, and it takes the text to ask for just that |
| Directives.FiguresParse | abstract-machine/klib/src/stdio.c:88-165 | any flags, a width above zero and a precision in decimal figures, a length modifier and a known conversion are read as these very values, whatever follows |
| Directives.RenderDirective | abstract-machine/klib/src/stdio.c:88-334 | from the text of an integer directive to its field: the number is the one that the low 8, 16, 32, `long` or 64 bits of the argument stand for, by the text of the length modifier, in two's complement or unsigned by the conversion; the field is blanks, sign, zeros, its digits and blanks, as long as width and precision ask for and padded on the side that the flags ask for; the rendering of the rest follows |
| Directives.RenderString | abstract-machine/klib/src/stdio.c:266-285 | `%s` shows the first characters of the string, as many as the precision allows, padded to the width on the side that `-` asks for; a null pointer shows `(null)` |
| Directives.RenderChar | abstract-machine/klib/src/stdio.c:318-322 | `%c` shows the low byte of its argument, without padding |
| Directives.RenderPlain | abstract-machine/klib/src/stdio.c:323-328 | `%%` shows one percent sign and other conversions nothing; neither takes an argument |
| Directives.RenderText | abstract-machine/klib/src/stdio.c:292-296 | text without a percent sign stands for itself |
| Stdio.ParseFormat | abstract-machine/klib/src/stdio.c:88-165 | the loops in the source's form: where a value is returned, the text at that position is a conversion specification, and the value is what it asks for, the position behind it and the arguments that are left |
| Stdio.ConvertDigits | abstract-machine/klib/src/stdio.c:181-185 | the digits of every 64-bit number fit the 32-character buffer, last first |
| Stdio.Writer.FormatInteger | abstract-machine/klib/src/stdio.c:167-226 | the bounded writer appends exactly the rendered field |
| Printf.IntegerFieldLength | abstract-machine/klib/src/stdio.c:187-225 | a field is as long as the width or the sign and the longer of precision and digits |
| Printf.IntegerFieldShows | abstract-machine/klib/src/stdio.c:181-225 | for every combination of flags a field is blanks, the sign, digits that read back to the number, and blanks |
| Printf.DigitsReadBack | abstract-machine/klib/src/stdio.c:181-185 | the digits of a number read back to it |
| Printf.HexExactly | abstract-machine/klib/src/stdio.c:173-179 | a `%x` or `%X` field shows its number to base 16 if and only if the number is below 10, for every flag, width and precision |
| Standard.StandardExactly | abstract-machine/klib/src/stdio.c:167-226 | for `d`, `i`, `u`, `o`, `x` and `X` and every combination of flags, width and precision, the field is the one that section 7.21.6.1 of ISO C11 asks for if and only if specification and number meet the condition `Conforms` |
| Standard.Departures | abstract-machine/klib/src/stdio.c:167-226 | six specifications and numbers for which it is not: `%.0d` of 0, `%05.3d` and `%+u` of 7, a width argument of -3, `%x` of 10 and `%#o` of 8 |

## Where the code and its promises part

- `seqz` with `s0` as its destination, and `seqz`, `sltz` and `lb` with `sp`: the exact conditions under which they
  work, and an input on which they do not, are in module `Destinations`; `Simulation.LoweringSimulates` is about all
  other destinations.
- `%x` and `%X` print base 10 (`stdio.c:175-176`); `Printf.HexExactly`, `Printf.HexFails`.
- Other fields that section 7.21.6.1 of ISO C11 asks for differently: a zero with precision zero, a zero flag beside a
  precision, a sign for an unsigned conversion, a negative argument for the width, and `#` (`stdio.c:187-225`).
  `Standard.StandardExactly` has the exact condition and `Standard.Departures` the inputs.
- `vsnprintf` puts the terminator at index `size` when the rendering does not fit (`stdio.c:332`), so the buffer of
  `Stdio.VSNPrintf` has one byte more than `size`. Sections 7.21.6.5 and 7.21.6.12 of ISO C11 count it inside `size`.
- `free_wp` follows a null pointer for a last node that is not also the first, and when no node is free
  (`watchpoint.c:48`, `watchpoint.c:52`); the contracts of `Watchpoints.Pool.FreeWp` and `Watchpoints.Run` say when, and
  `Watchpoints.OlderCrashes` has a run.
- `eval` aborts instead of reporting an error on some malformed inputs (`expr.c:181`); `Parsing.AbortExactly`,
  `Parsing.AbortHappens`.
- Without the atomic extension, the swap of the console's lock is a read and a write (`atomic.h:25-33`). With more than
  one hart the lock then does not exclude; `Htif.ExclusionNeedsSwap`, and the run of `Htif.TornSwap`.
- A console word has 48 bits for the payload (`htif.h:8-18`), and the all-zero word means that there is no message. A
  longer payload, or the message that is all zero, does not arrive; `HtifWords.ArrivesExactly`.

## Left out

- Lowering: operands that make the assembler `.abort` (`inst-replace.h:178-186`), offsets whose second byte has no
  12-bit encoding, and source programs that use `tp` or `gp` themselves.
- Lowering: `sp` as the destination of `lb`, `seqz` and `sltz`, and `s0` as that of `seqz`, are not part of
  `Simulation.LoweringSimulates`, since the macros fail on them; module `Destinations` has the conditions.
- BasicMacros.MsbOk: not for the destination `sp`, which `Destinations.SltzSpExactly` treats.
- CompareMacros.SeqOk: not for the destination `sp`; the branches use `tp`, and no other instruction expands to `seq`.
- CompareMacros.SeqzOk: not for the destination `sp`, which `Destinations.SeqzSpExactly` treats.
- LoweringProof.LbOk: not for the destination `sp`, which `Destinations.LbSpExactly` treats.
- Lowering: label generation and the linker's `%hi` and `%lo`; addresses of tables and code are given.
- Lowering: pseudo-instructions that only rename another macro (`neg`, `snez`, `sgt`, `beqz` and the like), `call` and
  `tail`.
- 64-bit arithmetic: division by zero, which C leaves undefined, and the 128-bit versions.
- Page tables: the x86-64 layout, whose kernel tables come from outside (`vme.c:95`); `CR3` and `CR0`; `ucontext`.
- Page tables: a `panic_on` does not return in the code; in the model the call ends with its reason, and tables that
  the walk had allocated by then stay.
- Expressions: splitting text into tokens by regular expressions, register names and memory accesses; tokens come as a
  sequence, registers as values, and memory is a function.
- Expressions: division by zero is a result of its own, not a value.
- Console: the RV32 build without devices, and `htif_poweroff` (`htif.c:105-111`), which writes both words without the
  lock and never returns. Arguments of `htif_syscall` that are zero or longer than 48 bits never reach the host as
  they are (`HtifWords.ArrivesExactly`), so calls with them are not steps of `Htif`.
- Console: the memory order below one access at a time, and progress; the theorems are about safety.
- Watchpoints: the watched expressions, their values and the printing.
- Formatted output: directives cut off by the end of the format, more directives than arguments, integer overflow of
  width and precision, and the functions around `vsnprintf`.
- Devices, the processor model, the vendored disassembler, loaders, logging and waveform code.
