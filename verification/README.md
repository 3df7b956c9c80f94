# Proofs for the seccomp policy compiler

This project models, in Dafny, how a system-call policy becomes a classic-BPF filter (`filter.go`) and how the
label-resolving assembler behind it works (`assembler.go`), and proves what the resulting filter returns.

    dafny verify dfyconfig.toml

The layers, from the machine up:

| module | what it holds |
|---|---|
| `Words` | 32-bit halves, bit tests and byte strings in either order, on unbounded integers with explicit ranges |
| `Bpf` | the accumulator machine (load, conditional jump, jump, return), the 64-byte record, the word offsets of arguments |
| `Labelled` | the three tables of a `Program`, the list of builder calls that made them, and the meaning of both |
| `Assembler` | one resolution step as a function of the tables, and the class `Program` whose methods perform it in place |
| `Insertion` | what a step does to any program: well-formed tables, exact distances, copies that change no run |
| `Resolution`, `Preservation` | resolution of *tame* programs (far jumps go to the return of their own stretch): the simulation invariant and its consequences |
| `Policies`, `Merge` | what a policy says; merging the names of a group |
| `Numbers`, `Problems` | the number a name is compared with, bit by bit; the problems a group is rejected with |
| `Codegen`, `CodegenMeaning` | the emitting methods, the builder calls they make, and the evaluator they implement |
| `Shapes`, `Tameness` | why the tables of a safe policy are tame, and those of every policy usable |
| `Compiler`, `Correctness`, `Verdicts` | `Policy.Assemble`, the verdict of the filter, and the words it returns |
| `Acceptance` | what every policy gets, however long its conditional system calls are |
| `Failures`, `Idle` | the errors of the compiler: when each arises, for one turn, for a program and for a policy |
| `EmptyLists` | what the filter makes of conditional entries without conditions |
| `Plain`, `Leftovers`, `Independent` | when the verdict is the plain first match, on one record and on all |
| `Sizes` | the exact size of filters made of names |
| `Turns`, `BlockLimit` | single turns of `Assemble`; why 254 instructions is the exact limit for conditional system calls |
| `LongJumps` | inserted long jumps, followed to the end of `Assemble` |
| `Nearby`, `PolicyLimit` | programs with at most one far branch keep their meaning; 258 instructions is the exact limit for whole policies |
| `Limits`, `Uniform`, `Overlong`, `Misjump` | policies for which the filter does not do what a reader expects |

A program is assembled in place: `Program` keeps `instructions`, `jumps` and `labels` as fields, and every method's
contract gives the new tables as a function of the old ones (`Append`, `Insert`, `Resolve`, `ResolveJump`,
`AssembleFrom`). The theorems are about those functions.

## What is proved

1. **The filter of a safe policy** (every group merges, no condition list is empty, no system call takes more than 254
   instructions; no limit on anything else) returns, for every record in either byte order, the verdict of an evaluator
   that threads the accumulator through the comparisons (`CompilerCorrect`). The limit is exact: it makes every filter
   faithful if and only if it is at most 254 (`BlockLimitExact`), and whatever its conditions, a system call of 255
   instructions is compiled wrong behind two plain names of its group (`BlockOf255Fails`). With system calls of any length,
   the filter is right when no branch of the policy's tables is far, or only that of the first number check
   (`FirstFarIsFaithful`); so it is for every policy of at most 258 instructions in all, and that limit is exact too
   (`PolicyLimitExact`).
2. **When the filter is the plain first match.** On a record: as long as no failing conditional entry has left an argument
   half in the accumulator (`FilterIsFirstMatch`). On all records: when every conditional comparison is the last or comes
   behind a plain one with its number (`OrderlyIsFirstMatch`); and, with one conditional comparison, if and only if the
   comparisons behind it return the same for everything its conditions can leave as for its own number (`PlainOnAllIff`),
   where what each operation can leave has a closed form (`CanLeaveIff`, `OneSetLeaves`). With any number of conditional
   comparisons that test different arguments, the exact condition follows the leftovers from one to the next
   (`IndependentPlainIff`). Otherwise an argument passes for a
   system-call number (`ArgumentTakenForNumber`). Policies of names need no hypothesis (`NamesOnlyCorrect`).
3. **Label resolution preserves meaning** for tame programs of every length and with any number of early-return copies
   (`ResolutionKeepsMeaning`), because no stored skip goes stale (`StaysBehind`, `AssembleTame`).
4. **When a policy is rejected.** One turn of `Assemble` fails with a backward jump if and only if a label is not set behind
   the jump, and with a useless jump if and only if both skips come out as 0 (`TurnFailsIff`); `Assemble` returns the error of
   the first turn that fails (`AssembleFailsIff`). A policy is rejected because a group does not merge, with all its problems
   (`FilterReports`, `MergeReports`), or for a useless jump (`FilterErrors`). The latter takes a useless entry: one whose
   condition lists are all empty with more entries behind it, or whose last list is empty with others given and no entry
   behind it. Without one, a filter results if and only if every group merges, whatever the length of the conditional system
   calls (`FilterAccepts`); with one, a policy of at most 257 instructions is rejected (`SmallAcceptsIff`), and any policy
   whose first check is the useless one (`UselessFirst`).
5. **Inserted long jumps** land on their destination in the finished code if and only if they were inserted for the first
   instruction of the program and nothing has been inserted later in between (`LongJumpExactIff`). Read off the tables
   before `Assemble`: when no other branch is far, it lands if and only if the jump is the first instruction
   (`LoneLongJumpIff`). `MisjumpPolicy` is a policy with 65 alternatives for which one lands on the wrong return
   (`LongJumpMisses`); with up to 64 its filter is right (`SixtyFourAlternatives`).
6. **The words at the edges**: a name is compared with the word that has the bits of its table entry and of the mask
   (`NamesIff`, `MergedNumbers`), an action is returned as it is, but for a bare errno, which carries EPERM (`MatchReturns`,
   `NamesReturn`), and exactly the filters for x86_64 return errno ENOSYS from number 0x40000000 on (`HeaderDecides`).

## Disagreements between code and comments

- assembler.go:145 says that long jumps are resolved by early returns or unconditional long jumps. The displacement of
  the latter (assembler.go:195) is wrong except for a jump at index 0, and later insertions do not adjust it. The model
  follows the code; the preservation theorems concern programs whose far labels stand on returns.
- filter.go:282 says that a system call matches if all conditions of any set match. The code compares the next number
  with whatever a failed condition left in the accumulator; the model follows the code. And an empty set, whose conditions
  all match, falls through: the alternatives behind it are tried all the same (`EmptyDoesNotMatch`).

## Model

| member | source | states |
|---|---|---|
| `Words.SharesBitMeansCommonBit` | filter_test.go:100-101 | the bit test used for both bit operations holds iff some bit position is set in both words |
| `Words.HiLoBits` | filter.go:464-474 | a 64-bit bit test is the disjunction of the tests on the two 32-bit halves |
| `Words.WordOfBytes` | assembler.go:37-49 | a word written in either byte order is read back unchanged |
| `Words.HalvesOfBytes` | assembler.go:120-136 | the half at the lower address is the high one in big-endian order and the low one in little-endian order |
| `Words.BitOrBits` | filter.go:310 | the disjunction has exactly the bits that either operand has |
| `Words.BitsDetermine` | filter.go:310 | two numbers with the same bits are the same |
| `Bpf.StepLimit` | filter.go:245-262 | a run cut off after n instructions is over iff n is at least `Steps`, which is at most the program's length, and then has the outcome of the whole run |
| `Bpf.LoadHeader` | filter.go:247-259 | offset 0 holds the system-call number and offset 4 the architecture, in either byte order |
| `Bpf.LoadArgument` | assembler.go:120-136 | for arguments 0 to 5 and either byte order the two loads yield the argument divided by and modulo 2^32 |
| `Bpf.ArgumentOffsets` | assembler.go:121-136 | for arguments 0 to 5 the 32-bit offset arithmetic does not wrap and both words are 4-aligned inside 64 bytes |
| `Labelled.TargetOfBranch` | assembler.go:67-71 | a jump goes to the first position of its label past its own index, which is where the next mark of the label stands |
| `Labelled.TablesMeanItems` | assembler.go:99-110 | running the tables from any point is running the builder calls that made them from that point |
| `Assembler.InsertionPointRange` | assembler.go:247-256 | the jump behind which is inserted is in the table, at or after the jump being resolved and within 254 of it |
| `Assembler.ResolveKeepsReady` | assembler.go:174-203 | resolution keeps tables usable (no index panics) and leaves the jump it resolves at its place |
| `Assembler.ResolveJumpKeepsReady` | assembler.go:147-168 | one turn of the loop, on success and on error, leaves tables on which every later index access is in range |
| `Assembler.Program.constructor` | assembler.go:80-85 | a new program has empty tables and label counter 1 |
| `Assembler.Program.NewLabel` | assembler.go:139-142 | the counter moves on by one and its new value is returned |
| `Assembler.Program.JmpIf` | assembler.go:99-104 | the jump table names the new instruction and both labels |
| `Assembler.Program.JmpIfTrue` | assembler.go:90-94 | the false branch goes to a fresh label set right behind the jump |
| `Assembler.Program.SetLabel` | assembler.go:107-110 | the label's position list is extended by the current index |
| `Assembler.Program.Ret` | assembler.go:113-118 | a return of 0x50001 is appended for the action 0x50000, and of the action itself for any other |
| `Assembler.Program.LdHi` | assembler.go:121-127 | a load of four bytes is appended, at 16 + 8 * arg, and 4 further on in little-endian order, modulo 2^32 |
| `Assembler.Program.LdLo` | assembler.go:130-136 | a load of four bytes is appended, at 16 + 8 * arg, and 4 further on in big-endian order, modulo 2^32 |
| `Assembler.Program.ComputeSkipN` | assembler.go:238-241 | the distance to the label's first position |
| `Assembler.Program.FindInsertAfter` | assembler.go:247-256 | the loop returns the last jump of the table below the current index plus 255, or the current jump |
| `Assembler.Program.UpdateIndices` | assembler.go:220-234 | exactly the indexes at or past the point move up by one, in both tables, whatever order the labels are visited in |
| `Assembler.Program.InsertAfter` | assembler.go:206-216 | the instruction stands right behind the given jump and both tables are shifted |
| `Assembler.Program.ResolveLabel` | assembler.go:174-203 | new tables and 8-bit result, or error, of resolving one label, including the popping loop and the insertion |
| `Assembler.Program.AssembleJump` | assembler.go:147-168 | one turn of the loop: true label, then false label, the useless-jump error, the write-back |
| `Assembler.Program.Assemble` | assembler.go:146-171 | all jumps in order over the tables as they change; the instructions, or the first error |
| `Insertion.BuiltIsSound` | assembler.go:90-136 | any builder calls leave the jump table strictly increasing and listing exactly the conditional jumps, and label positions ascending and in bounds |
| `Insertion.ResolveKeepsSound` | assembler.go:174-234 | every resolution of a label keeps that, whether it pops, inserts or fails |
| `Insertion.AssembleKeepsSound` | assembler.go:146-171 | so does `Assemble`, from any of its turns on, on success and on error |
| `Insertion.PoppedNotNeeded` | assembler.go:178-185 | positions that have been popped are never needed by a later jump |
| `Insertion.ResolveIsExact` | assembler.go:174-203 | it succeeds iff a position lies past the jump; the uint8 is then the untruncated distance to the first such position; an insertion lies within 255 of the jump, before the old destination, and copies a return |
| `Insertion.CopyKeepsMeaning` | assembler.go:187-201 | placing a copy of a return behind a conditional jump, prefixing its index and shifting the rest changes no run from any point |
| `Resolution.FarPointIsJump` | assembler.go:243-256 | the copy goes behind a jump 253 or 254 further on, in the same stretch of code |
| `Resolution.InsertionPlace` | assembler.go:189-198 | on the tables as resolution has changed them, the insertion point found is the present place of that jump |
| `Resolution.StaysBehind` | assembler.go:147-168 | when a copy is inserted, whatever the jumps resolved so far land on lies before the point of insertion |
| `Resolution.InsertionKeeps` | assembler.go:187-201 | an insertion keeps the whole simulation invariant: stored skips, pending labels, slack of short branches |
| `Resolution.ResolveBranch` | assembler.go:174-203 | a branch of a tame program resolves without error to its destination or a copy of it; a copy is made exactly when the return is out of reach and none lies ahead |
| `Resolution.LandsApart` | assembler.go:163-165 | the two skips of a tame jump are never equal, so the useless-jump error cannot arise |
| `Resolution.StoreKeeps` | assembler.go:155-167 | writing both skips back completes the jump and keeps the invariant |
| `Preservation.JumpStep` | assembler.go:147-168 | one turn of the loop on a tame program succeeds, moves the invariant on and makes the predicted number of copies |
| `Preservation.AssembleTame` | assembler.go:146-171 | `Assemble` succeeds and in the end every stored skip still lands on its destination or a copy of it |
| `Preservation.ResolutionKeepsMeaning` | assembler.go:144-171 | for tame programs of any length the resolved code returns what the labelled program returns, from any accumulator and data |
| `Preservation.ResolutionIsValid` | assembler.go:144-171 | the output goes forward and stays inside, holds no long jump, loads aligned words, ends in the same return and has exactly the predicted copies |
| `Preservation.ValidReturns` | filter.go:245-262 | every run of valid code, from any point and on any data, halts at a return |
| `Merge.Validate` | filter.go:137-145 | one problem for every condition whose argument is above 5 |
| `Merge.BadArguments` | filter.go:137-145 | there is no problem iff all arguments are at most 5 |
| `Problems.BadArgumentsAt` | filter.go:137-145 | the list has one problem for every argument above 5, with that argument, in the order of the conditions |
| `Problems.MergeReports` | filter.go:308-350 | merging reports, in order, for each plain name that it is unknown or repeats a number, then for each conditional name that it is unknown, has bad arguments (all of them), or is also plain |
| `Numbers.NamesIff` | filter.go:310 | the number of a known name is the only word whose bits are those below 32 of its table entry or of the mask |
| `Numbers.NamesPlainly` | filter.go:310-323 | when table entry and mask have no common bit and their sum is a word, the number is the sum; so without a mask it is the table entry |
| `Numbers.MergedNumbers` | filter.go:308-341 | every plain and every conditional name has an entry with its number in the merged list, and every entry stems from a name |
| `Numbers.GroupMatchesNumbers` | filter.go:278-352 | a group as written matches a call iff one of its names has the bits of the call's number, and its conditions, if any, hold |
| `Merge.GetSyscall` | filter.go:288-300 | the first entry of the number, or none if the list has none |
| `Merge.ToSyscallsWithConditions` | filter.go:303-352 | the two loops compute the merged list, or all problems in order |
| `Merge.MergeFailsIff` | filter.go:308-351 | merging fails iff a name is unknown, a plain number repeats, a known conditional entry uses an argument above 5, or a number is both plain and conditional |
| `Merge.MergedForm` | filter.go:308-341 | plain names first in order, then conditional numbers by first occurrence, each with all its sets in order |
| `Merge.MergeKeepsMeaning` | filter.go:278-352 | the numbers are distinct and the list matches a call iff the group names it plainly or some conditional entry of that number holds |
| `Codegen.NextLabel` | filter.go:493-498 | a fresh label if more follow, otherwise the given one |
| `Codegen.AssembleCondition` | filter.go:412-475 | the builder calls of one condition, for each of the eight operations |
| `Codegen.AssembleSet` | filter.go:411-480 | the calls of all conditions of a set, each leading on to the next |
| `Codegen.AssembleEntry` | filter.go:391-490 | the calls of one system call, plain or conditional |
| `Codegen.AssembleEntries` | filter.go:366-388 | the calls of a group: its system calls, the action's return between its two labels |
| `CodegenMeaning.HalvesDecide` | filter.go:423-475 | for each operation the test of the high half and, where that leaves it open, of the low half decide the 64-bit comparison |
| `CodegenMeaning.ConditionExec` | filter.go:412-475 | the emitted code goes to the next argument iff the condition holds of the 64-bit argument, else to the next condition |
| `CodegenMeaning.SetExec` | filter.go:411-480 | it reaches the action iff all conditions of the set hold |
| `CodegenMeaning.SetsExec` | filter.go:406-485 | it reaches the action iff some set holds, and otherwise what half the last set leaves in the accumulator |
| `CodegenMeaning.EntryExec` | filter.go:391-490 | a conditional block has exactly two exits: with the right number by its sets, with another number to the next system call with the accumulator unchanged |
| `CodegenMeaning.GroupExec` | filter.go:366-388 | a group returns its action at the first match and otherwise falls through with the accumulator the evaluator predicts |
| `CodegenMeaning.GroupWithin` | filter.go:366-388 | a group sets only labels it has allocated, each at most once |
| `Shapes.ConditionalInFront` | filter.go:402-489 | a conditional block of at most 254 instructions keeps all its branches short or leaving by the action label |
| `Shapes.GroupGood` | filter.go:366-388 | a group of such blocks, of any number, has only short branches and branches to its own return |
| `Tameness.ShapedIsTame` | filter.go:216-229 | tables emitted in that shape are tame |
| `Tameness.ClosedIsReady` | assembler.go:178-185 | tables in which every label used is set later can be assembled without a panic |
| `Compiler.AssembleGroup` | filter.go:354-389 | an empty group emits nothing, a group that does not merge leaves the program untouched and reports its problems, any other emits its code |
| `Compiler.PolicyReady` | filter.go:216-229 | the tables of every policy whose groups merge can be assembled without a panic |
| `Compiler.Policy.Validate` | filter.go:188-198 | the default action is reported iff it is none of the seven words of the named actions; otherwise a policy without groups is, and nothing else |
| `Compiler.Policy.Assemble` | filter.go:202-263 | the default action, one of the seven words, and the groups are validated first; then the architecture is remembered in the policy and the filter or the error returned |
| `Compiler.Policy.Build` | filter.go:216-262 | all groups into one program, the default return, resolution, and the prologue in its short or long form |
| `Correctness.PrologueRuns` | filter.go:236-262 | for every body length both forms send a foreign architecture to the last instruction, x32 numbers to ENOSYS and the rest to the body with the number loaded |
| `Correctness.PrologueForm` | filter.go:245-257 | the prologue takes the long form, one instruction more, iff the body and the x32 check, which only x86_64 has, are longer than 255 |
| `Correctness.GroupsExec` | filter.go:216-229 | the builder calls of all groups and the default return mean what the evaluator says |
| `Correctness.BodyCorrect` | filter.go:216-234 | the resolved body of a safe policy returns the evaluator's verdict from any accumulator |
| `Correctness.FilterParts` | filter.go:229-262 | a safe policy compiles; its body is valid, holds no long jump and still ends in the default return after all insertions |
| `Correctness.CompilerCorrect` | filter.go:202-263 | whole-compiler correctness: the filter of a safe policy returns the evaluator's verdict for every record in either byte order |
| `Correctness.FilterHalts` | filter.go:245-262 | every branch of the filter goes forward and inside; every run halts at a return, and is over when cut off after as many instructions as the filter has |
| `Correctness.FilterFits` | filter.go:250-256 | the filter is at most twice as long as its comparisons and returns, plus 6, which bounds the 32-bit skip |
| `Plain.FilterIsFirstMatch` | filter.go:202-263 | the verdict is the plain first match unless a failing conditional entry for this number was reached before the last comparison |
| `Plain.OrderlyIsFirstMatch` | filter.go:202-263 | when every conditional comparison of the policy is the last or comes behind a plain one with its number, the verdict is the plain first match on every record |
| `Leftovers.CanLeaveIff` | filter.go:420-475 | the argument halves that a failing condition can leave in the accumulator, in closed form for each operation |
| `Leftovers.OneSetLeaves` | filter.go:411-480 | the same for a set of conditions on different arguments |
| `Leftovers.ArgumentTakenForNumber` | filter.go:404-489 | when a reached conditional comparison can leave m and the first later comparison for m is plain, some call of another number gets that comparison's action |
| `Leftovers.PlainOnAllIff` | filter.go:404-489 | with one conditional comparison, the filter is the plain first match on every record iff the later comparisons return the same for every possible leftover as for its number |
| `Independent.AlwaysReturnIff` | filter.go:391-490 | comparisons that test different arguments return v on every record iff, one by one, each that the accumulator can reach does: matching, if it can, or passing on any leftover |
| `Independent.IndependentPlainIff` | filter.go:404-489 | when the conditional comparisons have different numbers and test different arguments, the filter is the plain first match on every record iff whatever a reached one can leave, those behind it always return what they return for its number |
| `Independent.OneSetMatches` | filter.go:411-480 | a set of conditions on different arguments can hold iff each of its conditions can, in closed form |
| `Leftovers.EqualPlainIff` | filter.go:404-428 | for a single test for equality with v: iff every later comparison, where its number stands first, returns the default; only a number that is both halves of v, and not the entry's own, is excused |
| `Verdicts.MatchReturns` | assembler.go:112-118 | on a record that is neither foreign nor x32 and leaves the number undisturbed, the verdict is the action of the first group that matches, or the default: itself, but 0x50001 for 0x50000 |
| `Verdicts.NamesReturn` | filter.go:202-263 | for every policy of names and every record the word returned: the default for a foreign architecture, 0x50026 for x86_64 numbers from 0x40000000 on, else the action of the first group one of whose names has the bits of the number, else the default, and 0x50001 for 0x50000 |
| `Plain.NamesOnlyCorrect` | filter.go:217-262 | policies of names: default for a foreign architecture, ENOSYS for x32 numbers, else the first group containing the number, else the default, EPERM added to a bare errno |
| `Sizes.StretchCopies` | assembler.go:187-200 | from any jump with no copy ahead, the rest of a run of name checks gets the copies of a group as long as the rest |
| `Sizes.NamesOnlySize` | assembler.go:187-256 | a group of n names takes n + 1 instructions and (n - 2) / 255 copies (none for one name); the default return is one more |
| `Acceptance.ResolveOpen` | assembler.go:174-203 | resolving either label of any jump keeps every later jump able to reach one of its ways on |
| `Acceptance.AssembleAccepts` | assembler.go:146-171 | `Assemble` succeeds on every program, tame or not, whose branches each have one way on near enough |
| `Acceptance.GroupSteps` | filter.go:366-388 | whatever its lengths, a group of nonempty sets gives each branch two different ways on, one of them right behind it |
| `Acceptance.FilterAccepts` | filter.go:202-263 | without useless entries a filter results iff every group merges, whatever the number and length of condition lists: neither the backward-jump nor the useless-jump error arises |
| `Failures.TurnFailsIff` | assembler.go:147-168 | one turn of the loop: a backward jump iff a label has no position behind the jump; otherwise a useless jump iff both skips come out as 0, in terms of the two ways before the turn; otherwise no error |
| `Failures.UselessIfNext` | assembler.go:163-165 | for two labels within reach, or with another jump near behind, the useless jump arises iff both stand right behind the jump |
| `Failures.FarAndNextFails` | assembler.go:163-201 | tables with one label right behind the jump and the other at 300, for which it arises all the same |
| `Failures.AssembleFailsIff` | assembler.go:146-171 | `Assemble` returns an error iff it is that of the first turn that fails on the tables the turns before have left |
| `Failures.FilterReports` | filter.go:217-227 | the problems reported are those of the first group that does not merge |
| `Idle.FilterErrors` | assembler.go:163-182 | a policy whose groups merge compiles or is rejected for a useless jump; the backward jump never arises |
| `Idle.NearFailsIff` | assembler.go:146-171 | tables whose ways are all near are rejected, for a useless jump, iff some jump has both ways right behind it |
| `Idle.SmallAcceptsIff` | filter.go:391-490 | a policy of at most 257 instructions compiles iff every group merges and no entry is useless |
| `EmptyLists.SetsTry` | filter.go:406-485 | alternatives are tried in order, an empty one falls through; the code leaves for the action, for the next system call, or runs on behind, with the accumulator the evaluator predicts |
| `EmptyLists.TryGroupsIsThread` | filter.go:366-485 | with no list empty, that evaluator is the one of `CompilerCorrect` |
| `EmptyLists.SmallPolicyReturns` | filter.go:202-263 | a policy of at most 257 instructions without useless entries, with lists of any length down to none, returns the evaluator's verdict on every record |
| `EmptyLists.EmptyDoesNotMatch` | filter.go:278-282 | an entry with an empty list in front of one that fails does not match, although the empty one holds |
| `Idle.UselessFirst` | assembler.go:163-165 | a policy of any length whose first entry has only empty condition lists and is not the last of its group is rejected for a useless jump |
| `Acceptance.AssembleKeepsEnd` | assembler.go:146-171 | in every program the last return stays last and each jump adds at most two instructions |
| `Acceptance.HeaderDecides` | filter.go:236-262 | every filter produced, safe or not, returns the default (0x50001 for 0x50000) on a foreign architecture and, for id 0xc000003e only, 0x50026 from number 0x40000000 on; on every other record it runs the body from the number |
| `Limits.ReadTakenForWrite` | filter.go:404-489 | a policy that allows a read from descriptor 1 compiles to a filter that refuses it as a write |
| `Merge.AlternativesMerge` | filter.go:321-341 | any number of entries for one name that is not plain merge into one entry with all their sets, behind the plain ones |
| `Acceptance.PolicySound` | assembler.go:72-171 | the tables of every policy whose groups merge are well formed before and after `Assemble` |
| `Turns.AssembleInsertsNothing` | assembler.go:146-171 | when all remaining branches are near, the rest of `Assemble` inserts nothing and writes only to the remaining jumps |
| `BlockLimit.BlockOf255Fails` | assembler.go:155-167 | for any conditions that take 255 instructions, any three names and actions: behind two plain names of its group, the first name gets the default instead of the group's action |
| `BlockLimit.BlockLimitExact` | filter.go:391-490 | a limit on the length of system calls makes every policy's filter return the evaluator's verdict on every record iff it is at most 254 |
| `PolicyLimit.FirstFarIsFaithful` | filter.go:202-263 | whatever the length of its system calls, a policy in whose tables no branch is far, or only that of the first number check, has a filter that returns the evaluator's verdict on every record |
| `PolicyLimit.PolicyLimitExact` | filter.go:202-263 | a limit on the number of comparisons and returns of a policy, with system calls of any length, makes every filter return the evaluator's verdict on every record iff it is at most 258 |
| `Nearby.NearKeepsMeaning` | assembler.go:144-171 | tables without far branches assemble without error to code that means what the labels mean |
| `Nearby.LoneLongJumpIff` | assembler.go:187-201 | when the only far branch is the true one of a jump, one instruction is inserted in all; if it is a long jump it lands on its destination in the finished code iff the jump has index 0 |
| `Nearby.LoneFarKeepsMeaning` | assembler.go:144-171 | when the only far branch is the true one of the first jump, the code keeps the meaning of the labels if the branch leads to a return or the jump has index 0 |
| `LongJumps.AssembleCount` | assembler.go:206-216 | the finished code is longer than the tables by the number of insertions made |
| `LongJumps.AssembleMoves` | assembler.go:206-234 | every instruction is found again, when `Assemble` finishes, where the insertions have moved it |
| `LongJumps.LongJumpExactIff` | assembler.go:187-201 | in the finished code an inserted long jump lands on its destination iff it was inserted for index 0 and no later insertion falls between the two |
| `Overlong.OverlongIff` | assembler.go:155-167 | an illustration: with n times the same alternative on the only system call of a policy, the filter does what the policy says for every other call iff n is at most 64 |
| `Misjump.MisjumpPolicy` | assembler.go:193-200 | a policy for which a long jump, right when inserted, ends on the wrong return: every call but one gets the error meant for that one |
| `Misjump.LongJumpMisses` | assembler.go:193-200 | that long jump is made for index 0 and stands at 255; its destination has moved on to 264, and it does not land there |
| `Misjump.SixtyFourAlternatives` | assembler.go:193-200 | with 1 to 65 alternatives the filter of the same policy returns the evaluator's verdict on every record iff there are at most 64 |

## Left out

- Installing a filter (prctl, seccomp and the raw instruction encoding of seccomp_linux.go): foreign calls and a library
  whose code is not part of this model.
- System-call tables, their generators and `arch.GetInfo`: an architecture is an id, a map from names to numbers and a
  mask; the running machine's architecture is a parameter of `Policy.Assemble`.
- The per-group architecture field: groups are assembled for the policy's architecture, as `Policy.Assemble` sets it.
- Detection of the byte order (assembler.go:37-49): the order is a parameter.
- Error texts: problems and errors are data. `getSyscall` yields an index where the original yields a pointer, and the
  caller updates the list at that index.
- Slice storage: assembler.go:199 prefixes `dest`, which shares its storage with the list in `labels` and has therefore
  been shifted by `updateIndices`; the model reads that list again.
- Unknown operation strings, for which the original emits a lone load: the operation is one of the eight by type.
- Empty condition lists, which fall through: `CompilerCorrect` excludes them; merging, emission, acceptance and rejection
  (`FilterAccepts`, `SmallAcceptsIff`) do not, and `SmallPolicyReturns` gives the verdict with them for policies of at most
  257 instructions.
- SmallAcceptsIff: covers useless entries in policies of at most 257 instructions; in longer ones a return copied right
  behind the useless check moves both its ways on, and no condition is given but for the first check (`UselessFirst`).
- CompilerCorrect: does not cover system calls of more than 254 instructions, because with a larger limit it is false
  (`BlockLimitExact`). For policies that contain one, `FirstFarIsFaithful` gives a sufficient condition and
  `PolicyLimitExact` the exact limit on the whole; with several far branches the verdict depends on where each insertion
  falls, and no condition is given.
- IndependentPlainIff: supposes that no argument is tested by two comparisons and no number is compared conditionally twice.
  Otherwise the exact condition would be about arguments that satisfy several lists of conditions at once;
  `OrderlyIsFirstMatch` gives a sufficient condition and `ArgumentTakenForNumber` a way to fail.
- PlainOnAllIff: covers one conditional comparison with plain ones behind it; `IndependentPlainIff` covers more.
- ResolutionKeepsMeaning: does not cover far labels that stand on something other than a return, because an inserted long
  jump is wrong there (`LongJumpExactIff`), but for a lone one at index 0 (`LoneFarKeepsMeaning`).
- PrologueRuns, and with it CompilerCorrect, FilterHalts, FilterIsFirstMatch, NamesOnlyCorrect and HeaderDecides: suppose a
  filter of fewer than 2^32 instructions, the range of the prologue's long skip, as a bound on the size of the policy.
- Names of actions, flags and operations, `Dump`, YAML and JSON tags, the profiler and the sandbox command: lookups and
  input or output.
- The original has no methods of their own for `AssembleJump`, `AssembleCondition`, `AssembleSet`, `AssembleEntries` and
  `Build`: they are parts of longer bodies, cut at the original's own loops.
