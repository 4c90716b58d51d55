# A model of Katana's patching core

Katana patches a running process.  It turns differences between types into call frame
bytecode, stores that in a patch object, and later decodes the bytecode and runs it against
the memory of the target: objects are copied to new places, field by field, and pointers are
followed through the old heap.  It also takes `.eh_frame` and `.gcc_except_table` apart and
builds them again.  This project models these parts and proves what they keep.

The modules follow the program, from the bottom up.

- `Bytes`, `Leb`, `LebWords`, `Registers`: byte strings and machine words, the LEB128 codec as
  loops over byte and bit cursors, its integer wrappers, and the register operands.
- `Expressions`, `Cfa`, `Opcodes`: printer and parser of DWARF expressions and call frame
  instructions, and their formats with the numbers of the standard.
- `TableSpec`, `Dictionary`, `ListSort`: the threaded hash table, first as the sequence of its
  entries and then as nodes in memory, and the in-place merge sort.
- `Target`, `Breakpoints`, `FreeSpace`: the traced process with word peeks and pokes, breakpoints,
  calls of malloc in the target, and the allocator on top of it.
- `RuleVm`, `RuleMeaning`: instructions to register rules, and what each instruction does to them.
- `PatchVm`, `RuleWrites`, `Migration`, `HeapImage`, `Patcher`: rules to patches, what a migrated
  heap looks like, and the machine as it runs.
- `HeapTyping`: when patch generation succeeds, and what it takes the objects it meets for.
- `OwnTargets`, `Collision`: when every pointer is led to its own target, and an input where not.
- `PatchRun`: a whole patch, variable after variable, while dataMoved is kept and memory changes.
- `Compiler`, `PatchWriter`, `EndToEnd`, `Whole`, `WholeTyped`: type transforms to FDEs, their
  bytes, and the whole way from type transforms and a sound old heap to the patched heap
  (`WholeTyped.PatchWorks`).
- `ActionTable`, `EhPointers`, `TypeBase`, `ExceptTable`, `ExceptTypes`, `ExceptSection`,
  `EhFormats`: `.gcc_except_table` and the encodings of pointers.
- `EhFrame`, `EhFrameReader`, `EhAugmentation`, `EhBuild`, `EhFrameHdr`: `.eh_frame` and its
  search table.

Loops, cursors and objects that the program updates in place are methods and classes here.
Their contracts tie them to functions on values, and the properties are proved of these
functions.  An abort of the program is the result `None` or `ok == false`.

## What the proofs found

Where a property holds only under a condition the condition is exact, as far as stated below.

- A signed LEB is read into an `int` only up to four septets and into a 64-bit variable with up
  to four or exactly nine; five to eight septets reach a shift of an `int` by more than its
  width (`src/util/util.c:104-116`).
- `DW_CFA_offset` survives for operands below 2^31 and, by accident, for one range of larger
  ones.  `set_loc`, `same_value`, `offset_extended` and `offset_extended_sf` never survive.
- Row lookup is right for all programs only with a code alignment factor of one.
- `restore_state` does not remove rules of registers that had none when the state was saved.
- A const type whose transform leads back to itself leaves a fixup with FDE index zero.
- An action that is its own successor is read back as the last of its chain.
- Type tables with pc-relative entries are right only in entry zero (or where the displacement
  wraps around); with two-byte entries the padding, and otherwise actions that no call site
  reaches, can be read as further entries.
- Only the low byte of the operand of `advance_loc2` is read.
- A CIE whose data alignment factor is positive with the top bit of its top septet set is read
  back as negative, and a pc-relative personality is never right.
- `parseAugmentationStringAndData` skips four bytes behind a personality in an eight-byte
  format, and fails its assertion on a CIE with the letter z alone.
- The header table is certain to come out sorted exactly when all start locations are less than
  2 GiB apart.
- `concatLists` without the end of its first list drops all of that list but its first node.
- Overlapping breakpoints are only removed safely last to first, or where the text under the
  overlap already is what a breakpoint puts there; a removed one cannot be set again.
- `dataMoved` takes addresses for one that agree in hash bucket and low 32 bits.  Every pointer
  is led to its own target exactly when no two of the addresses involved do, and whatever the
  hash is there are addresses that do.

## Model

| member | source | states |
|---|---|---|
| `Leb.EncodeNoOptimization` | `src/leb.c:121-215` | For every byte string of length at least one and either signedness the loop over byte and bit offsets returns a well-formed encoding of the same integer, one septet for every seven bits |
| `Leb.Encode` | `src/leb.c:67-118` | The optimised encoder returns an encoding of the same integer from which no septet can be dropped |
| `Leb.MinimalIsShortest` | `src/leb.c:67-118` | No well-formed encoding of the same integer is shorter than one whose top septet carries something |
| `Leb.MinimalUnique` | `src/leb.c:67-118` | That shortest encoding is unique, so the optimised encoder has one possible answer |
| `Leb.Decode` | `src/leb.c:218-304` | The decoder finds the end of the encoding whatever follows it, reports its length, and returns the bytes of its integer, less the one empty byte the padding can leave on top |
| `Leb.RoundTrip` | `src/leb.c:67-304` | Encoding, optimised or not, then decoding with any continuation of the stream gives back the integer, unsigned or two's complement, and consumes exactly the encoding |
| `Leb.NoOptimizationLossless` | `src/leb.c:278-289` | The unoptimised unsigned encoding returns every byte of every string, zero bytes at the top included |
| `LebWords.UIntToLEB128` | `src/leb.c:306-323` | Taking only the bytes a number needs does not change its minimal encoding |
| `LebWords.IntToLEB128` | `src/leb.c:325-339` | The encoding of a 32-bit number: the unsigned one if it is not negative, the signed one otherwise |
| `LebWords.EncodeWord` | `src/leb.c:67-118` | A 64-bit variable is written as the minimal encoding of its number |
| `LebWords.ReadUlebIff` | `src/leb.c:341-386` | An unsigned number comes back, with the right count of septets, exactly when it fits the variable that is read into |
| `LebWords.ReadSlebIff` | `src/leb.c:355-403` | A signed number comes back exactly when its encoding has at most four septets or, for eight-byte variables, exactly nine |
| `LebWords.UnsignedFormReadSigned` | `src/leb.c:325-339` | A non-negative int denotes itself as a signed LEB exactly when its top septet leaves the sign bit free |
| `Registers.BasicRegIff` | `src/register.c:65-139` | An ordinary register comes back exactly when its lowest byte is below the tags of patch registers |
| `Registers.PatchRegRoundTrip` | `src/register.c:65-111` | Patch registers of five and nine bytes come back for every size and offset, and the first byte of the encoding still shows the tag |
| `Expressions.InstrIff` | `src/dwarf_instr.c:482-690` | A DWARF expression instruction, printed and read in front of anything, comes back and takes exactly its bytes, exactly under the stated operand condition |
| `Expressions.ExprIff` | `src/fderead.c:69-317` | A whole expression comes back exactly when each of its instructions does |
| `Expressions.EncodeDwarfExprAsFormBlock` | `src/dwarf_instr.c:692-714` | The block is the length of the printed expression followed by it, with a 32-bit length |
| `Expressions.ParseDwarfExpression` | `src/fderead.c:69-317` | The cursor loop reads the instructions that the specification of the grammar assigns to the bytes |
| `Cfa.InstrIff` | `src/dwarf_instr.c:78-217` | For every call frame instruction and every continuation: printing then parsing returns it and consumes exactly its bytes if and only if the operand condition of its opcode holds (never for set_loc, same_value, offset_extended, offset_extended_sf) |
| `Cfa.ProgramRoundTrip` | `src/fderead.c:319-506` | A program of such instructions, with nested expressions, printed and padded with any number of nops parses to the program without its nops |
| `Cfa.SerializeDwarfRegInstructions` | `src/dwarf_instr.c:716-726` | The loop appends the printed instructions in order, or aborts where one cannot be printed |
| `Cfa.ParseFDEInstructions` | `src/fderead.c:319-506` | The cursor loop returns the instruction list the grammar assigns to the bytes |
| `Opcodes.HighOpcodes` | `src/fderead.c:339-356` | The bytes 0x40, 0x80 and 0xc0 with an operand in their low six bits are read as advance_loc, offset (with an unsigned LEB behind it) and restore, for every operand and continuation |
| `Opcodes.NoOperands` | `src/fderead.c:471-497` | 0x00, 0x0a and 0x0b are read as nop, remember_state and restore_state |
| `Opcodes.Locations` | `src/fderead.c:362-392` | 0x01 is read as set_loc with four bytes, 0x02 and 0x04 as advance_loc1 and 4 with one and four; of the two bytes of advance_loc2 (0x03) only the low one counts |
| `Opcodes.RegisterOperands` | `src/fderead.c:405-459` | 0x07, 0x08, 0x0d and 0x09 are read as undefined, same_value, def_cfa_register and register with the registers behind them |
| `Opcodes.RegisterAndOffset` | `src/fderead.c:393-454` | 0x0c is read as def_cfa; 0x05 as offset_extended, with its second operand read but left in the stream |
| `Opcodes.RegisterAndSignedOffset` | `src/fderead.c:399-404` | 0x11 is read as offset_extended_sf with a signed operand, which is left in the stream |
| `Opcodes.OffsetOperands` | `src/fderead.c:460-470` | 0x0e, 0x2e and 0x13 are read as def_cfa_offset, GNU_args_size and def_cfa_offset_sf with unsigned and signed operands |
| `Opcodes.BlockOperands` | `src/fderead.c:475-494` | 0x0f, 0x10 and 0x16 are read as def_cfa_expression, expression and val_expression: a register where there is one, a length, and what these many bytes are read as |
| `Opcodes.PatchInstructions` | `src/fderead.c:419-446` | 0x21 and 0x22 are read as the two patch instructions with a register of the new object (tag 0xf1), one of the old (0xf2), of all sizes and offsets, and an FDE index |
| `Opcodes.PatchRegisterTags` | `src/register.c:65-139` | The tags 0xf3, 0xf4 and 0xf5 denote expressions and symbols of the old and new binary; 0xf0 and those from 0xf6 on no register |
| `Opcodes.UnknownOpcodes` | `src/fderead.c:498-500` | restore_extended, def_cfa_sf, val_offset, val_offset_sf and all opcodes not named make the parser abort |
| `Opcodes.PrintedOpcode` | `src/dwarf_instr.c:78-217` | The first byte that each instruction is printed with |
| `Opcodes.PrintedOperands` | `src/dwarf_instr.c:78-217` | What is printed of the instructions that do not come back: both bytes of advance_loc2, same_value without its register, offset_extended and offset_extended_sf whole |
| `Opcodes.ProgramPrintsIff` | `src/dwarf_instr.c:716-726` | A program is printed exactly when each of its instructions is one that can be: operands within the limits of their fields, ordinary registers, supported expressions |
| `Opcodes.ExpressionOperands` | `src/fderead.c:69-317` | How many bytes are read behind each opcode of an expression, signed or unsigned, for all operands |
| `Opcodes.UnknownOperations` | `src/fderead.c:309-310` | regx, piece, bregx and everything from call2 on but three opcodes make the reader abort |
| `Opcodes.PrintedExpression` | `src/dwarf_instr.c:482-690` | What is printed behind each opcode of an expression, and which opcodes cannot be printed |
| `TableSpec.InsertView` | `src/util/dictionary.c:175-229` | Inserting an absent key extends the abstract map by it, wherever its bucket puts it in the list, and keys stay distinct |
| `TableSpec.SetView` | `src/util/map.c:241-274` | Setting is a map update, whatever the order of the list |
| `TableSpec.InsertGrouped` | `src/util/map.c:188-239` | Inserting keeps the entries of every bucket contiguous |
| `Dictionary.Dictionary.Insert` | `src/util/dictionary.c:175-229` | The threaded table stays valid (list links agree both ways, buckets contiguous, every head first of its run); a present key is refused and changes nothing, any other is inserted behind its bucket's run |
| `Dictionary.Dictionary.Set` | `src/util/dictionary.c:231-259` | The node of a present key is overwritten in place, otherwise the entry is inserted; the table stays valid |
| `Dictionary.Dictionary.Get` | `src/util/dictionary.c:261-277` | The walk over one bucket finds what the abstract map has for the key |
| `Dictionary.Dictionary.Exists` | `src/util/dictionary.c:156-173` | True exactly when the key is in the abstract map |
| `Dictionary.Dictionary.Entries` | `src/util/dictionary.c:302-331` | Keys and values enumerate every entry once, in list order |
| `Dictionary.Dictionary.Duplicate` | `src/util/dictionary.c:112-133` | The copy is made of new nodes only, is a valid table, and has the same entries in the same order with copied values |
| `Dictionary.DuplicateNodes` | `src/util/dictionary.c:80-110` | The recursion makes one new node for every node of the list, linked in both directions in the same order |
| `Dictionary.SlotIs` | `src/util/dictionary.c:191-229` | The end of the run that the insertion walk finds is the slot the abstract insertion uses |
| `ListSort.SortList` | `src/util/list.c:216-239` | Splitting, sorting and merging in place leaves one null-terminated list whose nodes are, in order, the stable merge sort of the original nodes |
| `ListSort.MergeSortedLists` | `src/util/list.c:155-212` | Relinking the nodes of two disjoint lists gives one list that is their merge |
| `ListSort.SortSorted` | `src/util/list.c:216-239` | For any comparison that is a total preorder the result is sorted |
| `ListSort.SortStable` | `src/util/list.c:216-239` | Equivalent elements keep their order |
| `ListSort.SortElements` | `src/util/list.c:216-239` | The result is a permutation of the same nodes, whatever the comparison is |
| `ListSort.ConcatLists` | `src/util/list.c:90-142` | The result list and its reported end; when the end of the first list is not given only its first node is kept |
| `ListSort.ConcatKeepsIff` | `src/util/list.c:100-107` | Concatenation conserves both sequences exactly when the first end is given or the first list has at most one node |
| `RuleVm.EvaluateInstructionsToRules` | `src/dwarfvm.c:92-278` | The interpreter loop ends in the state of the instruction semantics, or aborts where that does |
| `RuleMeaning.RegisterRules` | `src/dwarfvm.c:217-227` | After a run and DW_CFA_offset the register has an offset rule with the operand times the data alignment factor, exactly when that fits an int; register and undefined give it theirs; no other register changes |
| `RuleMeaning.CfaRules` | `src/dwarfvm.c:228-240` | def_cfa, def_cfa_register and def_cfa_offset each set the register or the offset of the CFA's rule that they name and keep the other one |
| `RuleMeaning.RestoreRule` | `src/dwarfvm.c:241-254` | restore gives its register exactly the rule that the CIE gave it, and aborts exactly where it gave none |
| `RuleMeaning.OtherRules` | `src/dwarfvm.c:255-269` | The patch instructions set kind, right side and FDE index; expressions change no rule |
| `RuleMeaning.Locations` | `src/dwarfvm.c:105-120` | The advance instructions move the location by the factored delta, set_loc to its operand |
| `RuleMeaning.States` | `src/dwarfvm.c:121-169` | remember_state stacks the rules; restore_state, which needs a stacked state, lays them over the present ones |
| `RuleMeaning.FailsIff` | `src/dwarfvm.c:199-275` | One more instruction makes a run abort exactly if it is one that is not supported, restores what is not there, or is about no register |
| `RuleMeaning.LastOffset` | `src/dwarfvm.c:92-278` | Behind the last offset for a register, whatever else a run does without restoring a state, the register has the offset rule with the scaled operand |
| `RuleVm.RowLookupIff` | `src/dwarfvm.c:105-120` | Running any program with non-decreasing locations up to a stop location gives the last row at or below it with that row's rules, for all programs exactly when the code alignment factor is one |
| `RuleVm.RememberRestore` | `src/dwarfvm.c:121-169` | After remember_state, any balanced block and restore_state, run without a stop location, the stack is as before and every register that had a rule has it again; the table is as before exactly when the block is about no other register |
| `Target.Process.MemcpyTo` | `src/patcher/target.c:189-243` | For every alignment and length memory becomes exactly the old memory with the bytes written, using only aligned word pokes; it fails, as the source does, exactly where a word it needs is not mapped |
| `Target.Process.MemcpyFrom` | `src/patcher/target.c:246-271` | The read loop with its overlapping copies returns exactly the bytes of the range, whatever lies behind the peeked value |
| `Target.Process.SetBreakpoint` | `src/patcher/target.c:524-542` | int3 and three nops are written and the four bytes under them are remembered; a second one at the address is refused |
| `Target.Process.RemoveBreakpoint` | `src/patcher/target.c:544-563` | The remembered text is written back and the pc of a stopped process moved onto it; the entry stays in the map |
| `Target.Process.MallocTarget` | `src/patcher/target.c:305-401` | After the call in the target the overwritten text is as it was, and all other bytes are as the call left them; it succeeds exactly when the text can be read and written and malloc does not return null |
| `Target.BreakpointRoundTrip` | `src/patcher/target.c:524-563` | Whatever the process did in between, removal restores the text under the breakpoint, leaves every other byte alone and puts the pc back; setting it again is refused |
| `Target.LastInFirstOut` | `src/patcher/target.c:524-563` | Any number of breakpoints, overlapping ones too, removed last to first leave the memory as it was |
| `Target.ApartAnyOrder` | `src/patcher/target.c:524-563` | Breakpoints that do not overlap can be removed in any order |
| `Breakpoints.FirstInFirstOutFails` | `src/patcher/target.c:524-563` | A witness: breakpoints at an aligned address and the next one, removed first to last over text that is not a nop there, leave a breakpoint byte behind |
| `Breakpoints.RemovalIff` | `src/patcher/target.c:524-563` | For any list of breakpoints and any order of removal: removing succeeds, and the text is as it was exactly when every byte is the one that the last breakpoint removed there had under it when it was set, which the text and the two lists decide beforehand |
| `Breakpoints.FirstInFirstOutIff` | `src/patcher/target.c:524-563` | Two breakpoints removed first to last leave the text as it was exactly when the text under both already was what the first one puts there, so in particular when they do not overlap |
| `Breakpoints.RemovalSucceeds` | `src/patcher/target.c:544-563` | Breakpoints whose text is remembered can be removed in any order |
| `FreeSpace.Space.Reserve` | `src/patcher/hotpatch.c:88-102` | A reservation keeps the invariant (regions handed out pairwise disjoint and inside mapped pages) also when what is left of an old page is discarded, and leaves enough room |
| `FreeSpace.Space.Get` | `src/patcher/hotpatch.c:104-118` | The new region lies in a mapped page and overlaps nothing handed out before |
| `FreeSpace.PagesEnough` | `src/patcher/hotpatch.c:94-96` | The mapping is large enough and less than one page too large |
| `Patcher.Engine.MakePatchData` | `src/dwarfvm.c:306-494` | With dataMoved as a variable, one rule yields the patches and the new map of the recursive specification; terminates on every heap, by old addresses not yet moved and then by nesting depth |
| `Patcher.Engine.GeneratePatches` | `src/dwarfvm.c:496-541` | The same for all rules of an FDE in table order |
| `Patcher.Engine.PatchDataWithFDE` | `src/dwarfvm.c:543-561` | All reads precede all writes, and when the patches are poked memory is the image that the migration theorem describes; it succeeds exactly when the patches can be generated and all of them written |
| `Patcher.Engine.PatchVariables` | `src/patcher/patchapply.c:177-211` | The loop over the variables, with dataMoved and memory as variables, is the run of batches in which each is generated from what the ones before have left; it succeeds exactly when each batch can be generated and written; where new memory lies off the old, all objects are the transforms of what the old memory held |
| `RuleWrites.RegisterRuleWrites` | `src/dwarfvm.c:347-349` | A register rule copies the bytes of the old or the new object at its signed displacement, or the eight bytes of a symbol's value, and aborts exactly where they cannot be read or the register is another one |
| `RuleWrites.OtherRuleWrites` | `src/dwarfvm.c:331-352` | An offset rule copies what is at the address that is its offset, undefined writes nothing, a rule for the CFA aborts |
| `RuleWrites.NoTarget` | `src/register.c:275-336` | A rule whose left side is not a register of the new object, or is at address zero, makes patch generation abort |
| `RuleWrites.RulesAtEnd` | `src/dwarfvm.c:496-503` | With code alignment one the rules that patches are generated from are those of the row at the end of the FDE's range |
| `HeapTyping.FdeSucceeds` | `src/dwarfvm.c:306-541` | Over every old heap, shared and cyclic ones included, and whatever has been moved before: if a typing of the old heap is closed under the pointers that are followed and malloc works, patch generation succeeds, and every object that it moves is moved with the FDE that the typing has for its address |
| `HeapTyping.AllSucceed` | `src/dwarfvm.c:543-561` | The same for any number of variables |
| `Migration.GenFdeExact` | `src/dwarfvm.c:306-541` | The patches of an object are, byte for byte, what that object and the objects newly moved on its behalf prescribe: nothing missing, nothing else |
| `Migration.RulesByteAt` | `src/dwarfvm.c:512-536` | The byte prescribed at an address is decided by the one rule whose range it is in, so the order of the rules does not matter |
| `Migration.BatchIsImage` | `src/dwarfvm.c:543-561` | After the batch every address holds the byte that the one object it belongs to prescribes, and every other address is untouched |
| `HeapImage.GenFdeClosed` | `src/dwarfvm.c:306-494` | After success everything the objects refer to has been moved: no pointer is left without a recorded new address |
| `HeapImage.GenFdeKeeps` | `src/dwarfvm.c:306-541` | Whatever holds of the migration heap and is kept by placing one object holds after every run of patch generation |
| `HeapImage.GenFdeKeepsOk` | `src/dwarfvm.c:306-541` | Over every run the recorded new objects stay pairwise disjoint and inside the address space; what lies in a symbol that moves is recorded where the patch puts the symbol, and exactly what lies in no symbol has a block from malloc |
| `HeapImage.MigrationCorrect` | `src/dwarfvm.c:306-561` | For every old heap, shared and cyclic pointers included, a successful migration leaves the variable and every object moved for it as the transform of its old self, pointers leading to the new place recorded under their key, null to null, a place in a symbol to where the patch puts the symbol, and all other bytes as they were |
| `OwnTargets.OwnTargetsIff` | `src/dwarfvm.c:306-494` | Every pointer followed by the variable and by the objects moved for it, nested objects included, is given the new address of its own target if and only if no two of the addresses recorded before and of the pointers that a memo of whole addresses follows agree in bucket and low 32 bits; a condition on the old heap alone |
| `OwnTargets.SameRun` | `src/util/map.c:101-121` | Under that condition patch generation succeeds whenever the same generator with a memo of whole addresses does, with the same patches and a map that is its image |
| `OwnTargets.OwnMigration` | `src/dwarfvm.c:306-561` | Under that condition the migration theorem with every pointer leading to the new place of its own target, and two pointers to objects of at least one byte equal afterwards exactly when they were equal before |
| `OwnTargets.Shared` | `src/dwarfvm.c:365-470` | New addresses of different targets with at least one byte differ and are not null |
| `PatchRun.FdeMore` | `src/dwarfvm.c:496-541` | Patch generation that succeeds over some memory does the same over every memory that also has other bytes |
| `PatchRun.RunIsGen` | `src/dwarfvm.c:543-561` | Generating and applying batch after batch, each from the memory the ones before have left, gives the same dataMoved and memory as generating all patches from the old memory and applying them at once, provided these do not touch the old memory |
| `PatchRun.RunOwnIff` | `src/dwarfvm.c:306-561` | Over a whole run every pointer of every variable and moved object is given the new address of its own target if and only if no two of the addresses recorded before and of those that all variables together follow agree in bucket and low 32 bits |
| `PatchRun.PatchRunCorrect` | `src/dwarfvm.c:543-561` | If patches can be generated from the old memory and new memory lies off it, the run succeeds, and after any number of batches every variable and every object moved for any of them is the transform of what it was before the first batch, later batches leave the images of earlier objects intact, all other bytes and the old memory are as they were, and under the condition on the old heap pointers of different variables are equal exactly when they were |
| `Collision.CollisionExists` | `src/util/map.c:101-121` | For every hash function there is a variable of two different pointers to which patch generation gives the same new address, so that the second is not led to its own target |
| `Collision.SameKeyIff` | `src/util/map.c:101-121` | Two addresses are taken for one exactly when they are in the same one of 100 buckets and agree in the low 32 bits |
| `Collision.KeysCollide` | `src/util/map.c:101-121` | For every hash function two different addresses share bucket and low 32 bits |
| `Compiler.WriteStructure` | `src/patchwrite/write_to_dwarf.c:279-423` | On every transform graph, cyclic ones included, the compiler makes exactly one FDE for every transform that is not a const wrapper, changes none written before, and its FDEs refer exactly to transforms on disk |
| `Compiler.WriteRight` | `src/patchwrite/write_to_dwarf.c:279-423` | Where no const wrapper reaches itself every fixup operand names an FDE already assigned to the type it is meant for |
| `Compiler.WriteCorrect` | `src/patchwrite/write_to_dwarf.c:279-423` | That stays so over any sequence of calls |
| `Compiler.WrapperCycleFails` | `src/patchwrite/write_to_dwarf.c:286-294` | A const wrapper that reaches itself leaves an FDE with index zero when writing starts there |
| `Compiler.CompilerRightIff` | `src/patchwrite/write_to_dwarf.c:279-423` | The compiler is right from every starting transform if and only if no const wrapper can be reached from itself |
| `Compiler.WriteIff` | `src/patchwrite/write_to_dwarf.c:279-423` | A call succeeds exactly when the transform and all that it refers to, over any number of references, are there and supported |
| `PatchWriter.OpParses` | `src/patchwrite/write_to_dwarf.c:298-411` | The bytes appended for an instruction are parsed, in front of anything, as the instruction that is meant, for all sizes, offsets and 32-bit FDE indices |
| `PatchWriter.FrameParses` | `src/fderead.c:319-506` | The bytes of an FDE with any number of trailing nops parse to its instructions |
| `PatchWriter.Writer.WriteTransformation` | `src/patchwrite/write_to_dwarf.c:279-423` | The recursive procedure over shared, mutated transforms produces the disk state and the FDE bytes of the specification |
| `PatchWriter.Writer.WriteFieldBytes` | `src/patchwrite/write_to_dwarf.c:349-412` | The loop over the fields appends their instruction bytes in order, writing the transforms they refer to first |
| `EndToEnd.PatchIsSound` | `src/dwarfvm.c:92-278` | A compiled patch that is parsed and evaluated meets what the patch machine asks of its rules: no two rules write the same byte, nesting is finite |
| `EndToEnd.CompiledMigration` | `src/dwarfvm.c:543-561` | Transforms compiled to bytes, parsed, evaluated to rules and executed leave the variable and every moved object as the field-by-field transform of its old self; under the condition on the old heap every pointer is led to its own target and sharing is kept |
| `EndToEnd.TypeTransformed` | `src/patchwrite/write_to_dwarf.c:349-412` | In terms of types: a straight copy, a redirected pointer, which holds the new address of the symbol its target lies in if the target's record is its own, or for a struct each kept field's old bytes at its new offset, each nested struct transformed by the FDE of its own type |
| `Whole.ValidFromTypes` | `src/patchwrite/write_to_dwarf.c:279-423` | Transforms whose kept fields lie apart inside the new type, with by-value nesting of finite depth and no const wrapper that reaches itself, compile to a valid patch, whatever is compiled first |
| `Whole.PatchMigrated` | `src/dwarfvm.c:496-561` | The composition for a whole patch: compile such transforms in any order, load the FDE bytes, migrate any number of variables one after the other while memory changes; if patches can be generated from the old memory every variable and every moved object becomes what the transform of its type says of its old self, no other byte changes, and under the condition on the old heap pointers lead to their own targets and sharing between variables is kept |
| `Whole.TypesMigrated` | `src/dwarfvm.c:496-561` | The composition: compile such transforms in any order, load the FDE bytes, migrate a variable; if patch generation succeeds the variable and every moved object become what the transform of their type says field by field, no other byte changes, and under the condition on the old heap pointers lead to their own targets and sharing is kept |
| `WholeTyped.PatchSucceeds` | `src/patcher/patchapply.c:177-211` | If at every place that pointers lead to the old heap holds an object of the type that they say, patches are generated for all variables, and everything is moved as an object of its own type |
| `WholeTyped.PatchWorks` | `src/patcher/patchapply.c:177-211` | The whole patch with nothing assumed of the run: over a sound old heap compiling, loading and migrating all variables succeeds, every object becomes the transform of its old self and all other bytes stay; under the condition on the old heap pointers lead to their own targets, into symbols where the patch puts these, sharing is kept, and what a pointer leads to was moved as an object of its own type |
| `Whole.WriteAllCorrect` | `src/patchwrite/write_to_dwarf.c:279-423` | A sequence of calls of the compiler keeps one right FDE for every transform and gives every transform called for its index |
| `Whole.CompilesIff` | `src/patchwrite/write_to_dwarf.c:279-423` | A sequence of calls from scratch succeeds exactly when all that any of them needs is there and supported |
| `Whole.FewFrames` | `src/patchwrite/write_to_dwarf.c:296-297` | There are no more FDEs than transforms |
| `ActionTable.TableComplete` | `src/exceptTable.c:116-161` | On every nextAction graph, cycles included, the writer ends, writes each record exactly once, at the recorded offset, one behind the other |
| `ActionTable.Fewer` | `src/exceptTable.c:119-160` | Each turn leaves fewer records unwritten, which is why chains with cycles end |
| `ActionTable.NotRightAfterFilter` | `src/exceptTable.c:138-141` | No displacement of a record with a successor is zero |
| `ActionTable.ReadBack` | `src/exceptTable.c:389-474` | Read at its offset a record gives its filter and exactly its successor's offset; only a record that is its own successor is read as the last of its chain |
| `ActionTable.FollowReach` | `src/exceptTable.c:363-479` | Following a chain in the bytes meets the records in the order in which walking the graph does |
| `ActionTable.TableReadBack` | `src/exceptTable.c:363-479` | The table read from the call sites is the graph renumbered in first-reach order, first actions too, whatever follows the table; the reader finds its end when every record is reached |
| `ActionTable.UnchangedIff` | `src/exceptTable.c:363-479` | Nothing changes exactly when the records are already numbered in that order and none is its own successor |
| `ActionTable.WriteActionTable` | `src/exceptTable.c:116-161` | The loops over records and along chains build that table and the offsets |
| `ActionTable.ReadActionTable` | `src/exceptTable.c:363-479` | The loops over call sites and chains read it, with offsets turned into indices |
| `EhPointers.EntryIff` | `src/eh_pe.c:159-304` | A type-table entry of two, four or eight bytes is read back exactly when it is absolute and fits, or is pc-relative, its distance fits, and the displacement by its index times its size is a multiple of what it can tell apart |
| `EhFormats.PointerSizes` | `src/eh_pe.c:124-151` | The size of a pointer for each of the seven fixed formats by number; omitted pointers have none, LEB and unknown formats abort |
| `EhFormats.StoredPointer` | `src/eh_pe.c:159-197` | Absolute pointers are stored as they are, pc-relative ones as their distance, the bit for indirect ones is not looked at, all other applications abort |
| `EhFormats.FixedPointerRead` | `src/eh_pe.c:204-304` | What each fixed format is read as, behind anything: never sign-extended, and of eight-byte formats only four bytes are reported |
| `EhFormats.LebPointerRead` | `src/eh_pe.c:239-258` | Both LEB formats are read as unsigned numbers, relative to their place if they are pc-relative |
| `EhFormats.WideSitesRead` | `src/exceptTable.c:306-361` | A call site table in any format of two or four bytes or of pointers, absolute or pc-relative, is read back, each field at its own address in the order start, length, landing pad, action |
| `EhFormats.StartRead` | `src/exceptTable.c:557-566` | The start of the landing pads is read in these formats too, at its own address behind its encoding |
| `EhFormats.LsdaStart` | `src/exceptTable.c:89-104` | What an LSDA begins with, and all of an LSDA without a type table up to its call sites and actions |
| `EhFormats.SiteNumbers` | `src/exceptTable.c:164-188` | The four numbers written for a call site |
| `EhFormats.EntryFromEnd` | `src/exceptTable.c:284-301` | Type entries are counted from the end of the table: entry j ends j entries before it |
| `TypeBase.RoomIff` | `src/exceptTable.c:215-225` | The wiggle-room test succeeds exactly when sixteen can be added to the guess without a longer LEB |
| `TypeBase.BaseFits` | `src/exceptTable.c:209-263` | For all sizes the padded offset fits the reserved length and leaves at most one byte over, so the assertion holds; the LEB decodes to the exact distance |
| `TypeBase.FindBase` | `src/exceptTable.c:209-263` | The computation with guess, padding and re-encoding yields that LEB and that padding |
| `ExceptSection.SectionIff` | `src/exceptTable.c:66-304` | Every LSDA of a built section starts 4-byte aligned, and the section is parsed back as the canonical forms of all LSDAs if and only if each one comes back: an LSDA without a type table exactly when it has no types, one with a type table exactly when its entries survive and no bytes in front of them are read as further entries |
| `ExceptSection.SectionTight` | `src/exceptTable.c:66-304` | Whatever is built: each LSDA lies at its recorded offset, the first 4-byte aligned one behind the LSDA before it, with zeros in between and nothing behind the last |
| `ExceptTypes.LsdaIff` | `src/exceptTable.c:526-632` | Every LSDA with a type table that the program can store is built, and is parsed back in canonical form if and only if every entry survives and the bytes between the last action reached and the type table are too few for another entry |
| `ExceptTypes.PlainIff` | `src/exceptTable.c:526-632` | An LSDA that says it has no type table is parsed back in canonical form exactly when it has no types |
| `ExceptTypes.ReachedComesBack` | `src/exceptTable.c:481-524` | Where every action is reached from a call site an LSDA with a type table comes back exactly when its entries survive and the padding, which is at most three bytes, is shorter than an entry |
| `ExceptTypes.ReadTableIff` | `src/exceptTable.c:481-524` | Behind any bytes the type table is read as it was written if and only if these are fewer than an entry and every entry survives |
| `ExceptTable.LsdaBuiltIff` | `src/exceptTable.c:82-303` | An LSDA is built exactly when its first actions exist, the encoding of its type table has an entry size, and, if there are entries, it is absolute or pc-relative |
| `ExceptTable.BuildIff` | `src/exceptTable.c:66-304` | The section is built exactly when each LSDA can be |
| `ExceptTable.CanonicalIff` | `src/exceptTable.c:526-632` | The LSDA read is the one written exactly when its actions are already in first-reach order without self-successors |
| `ExceptTable.EntryCountIff` | `src/exceptTable.c:481-524` | Behind alignment padding the type table is read with the right number of entries exactly when the padding is shorter than an entry |
| `ExceptTable.BuildExceptTableRawData` | `src/exceptTable.c:66-304` | The loops produce the section and the LSDA offsets of the specification, and abort exactly when some LSDA has a first action that does not exist or a type table that cannot be stored |
| `ExceptTable.ParseExceptFrame` | `src/exceptTable.c:526-632` | The loops read the LSDAs that the specification assigns to the section, none in an empty one, with call sites in any pointer format |
| `ExceptTable.ReadCallSiteTable` | `src/exceptTable.c:306-361` | The cursor loop reads the call sites in any pointer format, and fails when the records do not end where the table does |
| `EhFrame.BuildCallFrameSectionData` | `src/callFrameInfo.c:505-522` | The loops over CIEs and FDEs append the records, the offset arrays are exactly where a walk over the result stops, and every record is aligned |
| `EhFrame.Walkable` | `src/callFrameInfo.c:505-522` | Stepping by length plus four from zero visits exactly the recorded CIE and FDE starts and ends at the end of the section |
| `EhFrame.RecordAligned` | `src/callFrameInfo.c:260-266` | The length of every record, CIE or FDE, is a multiple of the address size of its CIE; fewer nops than that are added behind its contents, and none where these are already aligned |
| `EhBuild.BuiltIff` | `src/callFrameInfo.c:148-445` | A section is built exactly when sizes fit a byte, the encodings in use have a size and are absolute or pc-relative, and all instructions can be printed |
| `EhFrame.CieIff` | `src/callFrameInfo.c:148-293` | A CIE is read back from the section, program without nops, exactly when the code alignment fits 32 bits and the data alignment is a 32-bit number that is negative or leaves the sign bit of its top septet free |
| `EhFrameReader.PointerIff` | `src/eh_pe.c:159-202` | A pointer is read back at its own address exactly when what is stored fits the signed or unsigned width of its encoding |
| `EhFrameReader.FdeIff` | `src/callFrameInfo.c:295-445` | From its start alone an FDE leads to its own CIE, and its location, range, LSDA pointer and program are read back exactly when both pointers fit their encodings |
| `EhFrameReader.LsdaIff` | `src/callFrameInfo.c:381-404` | The address assumed for the LSDA pointer is always its real one, so it is read back exactly when it fits |
| `EhFrameReader.PersonalityIff` | `src/callFrameInfo.c:214-238` | The personality is read back exactly when it is absolute and fits (a pc-relative one never is); above 32 bits, only if the four bytes that are not copied happen to be right |
| `EhFrameReader.MisplacedNever` | `src/callFrameInfo.c:220-226` | A pc-relative pointer whose distance is taken from a place a few bytes off is never read back |
| `EhAugmentation.ParseAugmentationStringAndData` | `src/callFrameInfo.c:74-112` | The loop over the letters reads what the letter-by-letter specification says, and fails where the assertion does |
| `EhAugmentation.AugmentationRead` | `src/callFrameInfo.c:74-112` | Of the augmentation it writes the program finds both encodings in their places, but fails without any data, and behind a personality in an eight-byte format looks four bytes too early |
| `EhFrameHdr.CompareIff` | `src/callFrameInfo.c:457-462` | The 32-bit difference orders two entries rightly exactly when it does not overflow |
| `EhFrameHdr.CloseSorts` | `src/callFrameInfo.c:593-594` | If all start locations are less than 2 GiB apart the table comes out in their order, whatever sort keeps the promise of qsort |
| `EhFrameHdr.FarApartFails` | `src/callFrameInfo.c:457-462` | If the comparison is a preorder on the entries but two are more than 2 GiB apart no sort puts the table in order |
| `EhFrameHdr.OrderIff` | `src/callFrameInfo.c:457-462` | Every sort that keeps the promise of qsort puts the table in the order of the start locations if and only if all of them are less than 2 GiB apart |
| `EhFrameHdr.TablePairs` | `src/callFrameInfo.c:586-601` | The sorted table is a permutation of one entry for each FDE, pairing its start location with the address of its record, each read back exactly when it is within 2 GiB of the header |
| `EhFrameHdr.BuildTable` | `src/callFrameInfo.c:586-601` | The loop and the sort produce such a permutation, in order when the locations are close |

## Left out

- ptrace, waiting, signals, libunwind, libelf, libdwarf, `/proc`: the target is a map of bytes with word peek and poke, a new FDE is the next number from one on, mmap and malloc results are parameters that are assumed fresh.
- Reading of memory stops the model where a byte is not mapped; that the kernel allows access by pages is not modelled.
- `readDebugFrame`, `dwarftypes.c`, `elfparse.c`, `elfwriter.c`, `typediff.c`, `codediff.c`, `symbol.c`, `relocation.c`: lookups over libraries that are not part of this model; type transforms are an input with a validity predicate.
- `evaluateDwarfExpression`, `getFDEForPC`, `restoreRegsFromRegisterRules`: nothing in the patching path calls them.
- The formats of `.debug_frame` and of 64-bit DWARF in `callFrameInfo.c`: only the `.eh_frame` branch is modelled.
- The reader of `.eh_frame`, which in the program is libdwarf, follows the LSB Core specification; the address range of an FDE is read with four bytes, as it is written, also where the location has eight.
- `mapRemove`, `dictDelete`, reference counts and the freeing of memory; `DW_CFA_restore` looks its register up under a string that has just been freed, which is read as the intended string.
- `map.c` has the structure of `dictionary.c` and is covered by the same class, with the hash and the equality as parameters; its comparison of the low 32 bits of keys appears in `PatchVm.KeyOf`.
- int overflow of buffer lengths: sections, action tables and FDE images are taken to stay below the bounds stated in the contracts.
- Target.Process.MallocTarget: the code run in the target is any function on memory that keeps the mapped pages; registers other than the pc are not modelled.
- The memory that the patches of one variable are generated from does not change while they are generated, although malloc runs code in the target between two reads; from variable to variable it does (`PatchRun`).
- HeapImage.MigrationCorrect: pointers into the middle of an object, and malloc results that overlap objects still to be read, are excluded, because the program has no means to see them.
- WholeTyped.PatchWorks: a sound heap and room for its objects are assumed; what the program does on others is only told step by step.
- HeapImage.MigrationCorrect: FDEs with a rule for the CFA are not covered, because the program aborts on them.
- RuleVm.RememberRestore: is stated for runs without a stop location.
- OwnTargets.OwnMigration: for objects without a byte nothing is said about sharing, since malloc may give two of them one address.
- PatchRun.PatchRunCorrect: new memory lies off the memory that patches are generated from, so a variable that keeps its place, and registers that read the new memory, are outside; so are the relocations that `relocateVar` applies between two variables.
- RuleVm.RowLookupIff: programs with `advance_loc4`, `def_cfa_offset_sf`, `GNU_args_size`, `def_cfa_expression` or nops are outside, because the machine aborts on them; the global state stack starts empty.
- ExceptTable.ReadCallSiteTable: at the end of the section a record in the default pointer format takes no bytes and the program never ends; the model has `None` there.
- ListSort.ConcatLists: with neither end given the program dereferences null, which is excluded; an end that is given is the last node.
- EhFrameHdr.FarApartFails: is about preorders; where the comparison is none, qsort promises no order, and `OrderIff` has the exact condition.
- EhFrameHdr.BuildTable: qsort is represented by a merge sort; `CloseSorts` holds for every sort.
- Bytes are integers below 256; masks and shifts are division and remainder by powers of two.
- The twelve bytes in front of the table of `.eh_frame_hdr`.
- Logging, printing and dump code.
