# A model of the Perl 5.6 core's arrays, byte-string operators and stacks

The project models, in Dafny, the parts of the Perl 5.6 core in which pointers, counters and flags
carry the meaning, and proves what they are relied on for.

- **Arrays** (`Scalars`, `Growth`, `ArraySpec`, `Memory`, `Av`, `AvRun`, `ArrayTheorems`,
  `ArrayLaws`, `ManyArrays`, `GrowthCost`, `GrowthLaws`). An array is a window into a block of slots. Class `AV` holds the header (block,
  window offset, fill, max, REAL/REIFY flag) and updates it in place; shifting moves the window,
  unshifting reclaims or builds a reserve, growing slides, rounds and reallocates. Each method is
  proved against a specification on plain sequences (`ArraySpec`) and on the place in memory
  (`Growth`). The key invariant is that all usable slots outside the window of a counted array are
  undef, except exactly for the ones that `av_delete` has left stale, because growth often only
  raises a counter. `AvRun` runs any operations on an array object and says exactly when it follows
  the specification; `ArrayTheorems` proves over every run that the specified contents are those of
  a plain sequence and that references are conserved, `ManyArrays` the latter for any number of
  arrays that share their scalars; `GrowthCost` proves the amortised bounds. `ArrayLaws` and
  `GrowthLaws` say index by index and number by number what the specification of a step means. Reference counts are
  kept as a ledger of increments and decrements, so that a count that would go below zero is seen as
  such.
- **Leaving subroutines** (`PopSub`): recycling or abandoning the argument array.
- **Blocks and run levels** (`Blocks`, `RunLevels`): block push and pop with stacks that move, and
  the doubly linked chain of stackinfos.
- **Byte strings** (`Bits`, `Bytes`, `Trans`, `TransTheorems`, `Vec`, `Vop`): transliteration in
  place, `vec` fields, and the bitwise operators with their word-at-a-time loop.
- **Printing and splitting** (`Display`, `ExecSplit`, `ExecScan`): the escaping printer with a
  decoder, the command splitter, and the scan that decides whether a command needs a shell.

## What the code does not do

The model follows the code. Where an evident intent fails, the exact condition is proved:

- `av_delete` of a defined last element lowers the fill and leaves the scalar in its slot, so a
  later store beyond the end brings it back (`PerlArray.AV.Delete`, `Memory.DeleteLastMem`,
  `Memory.DeletedReturns`). The stale slots are tracked through every operation: a run follows the
  specification if and only if no store or fill raises the fill over one of them
  (`ArrayRun.Execute`), and pushing right after the deletion reuses the slot
  (`ArraySpec.DeleteThenPush`).
- `av_delete` with `G_DISCARD` on an array that does not count its elements drops a reference that
  the array never held (`ArrayTheorems.DiscardConservesIff`).
- `av_clear` returns early when shifting has used up the whole block and then leaves the window
  where it is, which `CLEAR_ARGARRAY`, described as a fast `av_clear`, does not
  (`SubExit.ClearArgIsClear`).
- A 64-bit `vec` field of which exactly five bytes are left is read with one byte sign-extended when
  that byte is 128 or more; every other read agrees with the zero-extended string
  (`Vec.ReadIsField`). An `int` of 32 bits that wraps is assumed for that shift.
- `vec` fields wider than 64 bits can be assigned but always read as 0 (`Vec.SetThenGet`).
- A bitwise AND into its own left operand does not NUL-terminate the shortened string
  (`Vop.DoVop`).
- The simple and the complex forms of transliteration agree only on strings of which nothing is
  deleted (`TransTheorems.TextsAgree`, `TransTheorems.CountsAgree`).
- Sliding a window back to the start of its block is not amortised. Pushing onto a window at the end
  of its block slides without reallocating if and only if at least eleven slots are free before it
  (`GrowthCost.PushSlidesIff`); a queue of constant length in a block with a gap of that size never
  reallocates, but slides all of its elements once in as many rounds as the gap has slots
  (`GrowthCost.QueueSlides`). What av_extend copies when it reallocates is amortised over every run
  (`GrowthCost.AmortisedGrowth`).
- The slots before the window of an array that is neither counted nor reifiable are not reset, so
  unshifting shows undefs there if and only if they happen to be undef (`PerlArray.AV.Unshift`,
  `Memory.FrontIsUndef`); after a shift they are not (`Memory.ShiftedReturns`).

## Model

| member | source | states |
|---|---|---|
| PerlArray.AV.Reify | perl/av.c:20-42 | the elements stay, each counted one gains one reference, and all slots before and after the window become undef |
| PerlArray.AV.Extend | perl/av.c:57-155 | contents are kept, the place in memory is that of `ExtendShape`, the slack is known as before, sliding resets the stale slots it covers, slots up to the old maximum survive if the window starts at its block, and the stack pointers follow the current stack to its new block at the same index |
| Growth.ExtendShape | perl/av.c:75-152 | the new maximum covers the key, the usable end never moves down, the fill stays |
| Growth.NewMax | perl/av.c:108-124 | the rounded maximum covers the request, on both paths that reach the rounding |
| Growth.RoundUp | perl/av.c:110-122 | the doubling loop terminates with the specified maximum, and the assertion after it holds |
| GrowthLaws.NewMaxIs | perl/av.c:108-124 | the block is 16 bytes times a power of two less the overhead, filled with slots exactly, and half of it would be too small |
| GrowthLaws.ExtendIs | perl/av.c:75-152 | what each branch does to offset, maximum, fill and the slots moved, with its threshold of ten slots, its fifth and its least first block |
| GrowthLaws.UnshiftIs | perl/av.c:571-603 | how many slots before the window are taken, and how large a reserve is left |
| GrowthLaws.PlaceIs | perl/av.c:383-652 | where popping, shifting, clearing and undefining leave the window |
| GrowthLaws.CapacityKept | perl/av.c:57-778 | only undefining makes a block smaller, and only operations that ask for slots make it larger |
| PerlArray.AV.Enlarge | perl/av.c:108-152 | reallocation keeps every slot up to the old maximum and the elements, resets the new ones of a counted array, never shrinks, and relocates the stack pointers |
| Memory.SlideMem | perl/av.c:82-90 | sliding the window to the start of the block keeps the elements and the undef slack |
| Memory.GrowMem | perl/av.c:123-152 | copying into a larger block keeps the elements and the undef slack |
| Memory.ReifyMem | perl/av.c:31-42 | resetting the slots around the window establishes the slack invariant from any block |
| PerlArray.AV.Fetch | perl/av.c:174-219 | the state is the specified one, with a new scalar stored at a modifiable vacant index, if and only if no stale slot is shown; the pointer returned is null exactly when the specification finds nothing, and otherwise that of the resolved index in the present block, and shows what the specification says |
| PerlArray.AV.Store | perl/av.c:237-290 | the state is that of the specified store (negative indices, null as undef, reification, growth, release of the overwritten element) if and only if no stale slot is shown, and all but the elements is in any case; the pointer returned is that of the resolved index in the present block, or null, and shows the stored value; the stack pointers follow if the array is the current stack, and are left alone otherwise |
| PerlArray.AV.Append | perl/av.c:267-277 | raising the fill alone exposes exactly the slots that lie there; these are holes if and only if none of them is stale; the current stack's pointer is raised |
| Memory.AppendMem | perl/av.c:269-281 | what a raised fill exposes, and the exact condition under which it looks like holes |
| Memory.StaleExposed | perl/av.c:269-281 | a stale slot that is exposed does not look like a hole |
| PerlArray.AV.New | perl/av.c:301-312 | a new array is empty, counted and has no block |
| PerlArray.AV.Make | perl/av.c:325-348 | the array holds the first reference to each of its new scalars, which have the values of the given ones, in order; no older scalar changes its value; every count grows by the number of times the array holds the scalar |
| PerlArray.AV.Fake | perl/av.c:351-373 | the array shows the given pointers uncounted, to be reified later |
| PerlArray.AV.Clear | perl/av.c:383-421 | each element of a counted array is released once, from the last to the first; the window returns to the start of the block unless the block is used up |
| PerlArray.AV.Undefine | perl/av.c:432-457 | each element of a counted array is released once and the block is given up |
| PerlArray.AV.Push | perl/av.c:469-492 | pushing is storing one past the end |
| PerlArray.AV.Pop | perl/av.c:504-535 | the last element is handed over without releasing it and its slot is reset |
| PerlArray.AV.Shift | perl/av.c:616-652 | the first element is handed over, the window starts one slot later, and a counted array resets the slot before it |
| PerlArray.AV.Unshift | perl/av.c:547-605 | the old elements are preceded by undefs, except that the slots reclaimed before the window of an array never counted show what lies there; the state is that of the specification if and only if those slots are undef |
| Memory.FrontIsUndef | perl/av.c:578-587 | unshifting shows undefs if and only if every slot reclaimed is undef |
| Memory.ShiftedReturns | perl/av.c:578-647 | what is shifted off an array never counted comes back when one element is unshifted |
| Memory.ReclaimMem | perl/av.c:578-587 | lowering the window start shows undefs when the slack is clean |
| Memory.RoomMem | perl/av.c:588-603 | moving the window up shows undefs in front and leaves a clean reserve |
| PerlArray.AV.Fill | perl/av.c:676-720 | cutting releases and resets what is cut off; extending, by a counter, by padding or by a store beyond the maximum, shows undefs if and only if no stale slot is among them |
| PerlArray.AV.Delete | perl/av.c:731-778 | the specified deletion, with trailing undefs; a slot becomes stale if and only if the array is counted and the element is a defined last one, and then exactly its slot does |
| Memory.DeleteLastMem | perl/av.c:762-766 | after lowering the fill nothing more is stale if and only if the deleted last element was undef; otherwise exactly its slot is |
| Memory.DeletedReturns | perl/av.c:762-766 | a later store beyond the end shows the deleted scalar where the sequence has a hole |
| PerlArray.AV.Exists | perl/av.c:790-820 | true exactly for indices in range whose element is neither undef nor null |
| ArrayRun.Execute | perl/av.c:20-820 | any run of operations on a counted or reifiable array object keeps the invariants, and passes through the specified states, with the specified replies, if and only if no operation shows a stale slot |
| ArrayRun.Perform | perl/av.c:20-820 | each operation gives the specified reply, and the specified state if and only if it shows no stale slot |
| ArraySpec.CleanRunsExposeNothing | perl/av.c:762-766 | runs in which no defined last element is deleted leave no stale slot and show none |
| ArraySpec.DeleteThenPush | perl/av.c:469-492 | pushing right after deleting a defined last element shows nothing stale, and leaves nothing more stale than before if and only if no undefs went with it |
| ArrayTheorems.StepRefines | perl/av.c:57-820 | each operation acts on the contents as on a plain sequence, whatever the flag, the capacity and the pointer size |
| ArrayLaws.FromTheEnd | perl/av.c:181-185 | storing, fetching, deleting and testing at -j is doing so at the length less j |
| ArrayLaws.BeforeTheFirst | perl/av.c:739-743 | at an index before the first element these find nothing and change nothing |
| ArrayLaws.StoreMeans | perl/av.c:237-290 | after a store the value is at its index, the other elements are where they were, and what lies between is undef |
| ArrayLaws.FetchMeans | perl/av.c:174-219 | a fetch answers the element unless it is undef or beyond the end; for modification it stores the next new scalar there |
| ArrayLaws.EndsMean | perl/av.c:469-652 | pushing appends, popping and shifting answer and remove the last and the first element, or undef when there is none |
| ArrayLaws.UnshiftMeans | perl/av.c:547-605 | the elements move up by the number of undefs put in front |
| ArrayLaws.FillMeans | perl/av.c:676-720 | the length is one more than the index given; elements below it stay and the rest is undef |
| ArrayLaws.DeleteMeans | perl/av.c:731-778 | inside the array undef takes the place of the element answered; at the end exactly the undefs before it go with it |
| ArrayLaws.ExistsMeans | perl/av.c:790-820 | true exactly below the length where neither undef nor null is |
| ArrayLaws.StepCounts | perl/av.c:34-778 | by how much each operation changes the count of each scalar |
| ArrayLaws.FlagMeans | perl/av.c:264-265 | only a reifiable array changes its flag, to counted, and storing, pushing and unshifting do that |
| ArrayTheorems.RunRefines | perl/av.c:57-820 | contents and replies of every run are those of the plain sequence |
| ArrayTheorems.StepConserves | perl/av.c:34-39 | each operation keeps every scalar counted once per outside owner plus once per live slot of a counted array |
| ArrayTheorems.PutConserves | perl/av.c:264-281 | a store takes over the caller's reference and releases the overwritten element, also when it reifies |
| ArrayTheorems.RunConserves | perl/av.c:34-820 | references are conserved over every run on one array in which callers own what they store |
| ManyArrays.PerformConserves | perl/av.c:34-820 | an operation on one of several arrays keeps every scalar counted once per outside owner plus once per live slot of each counted array |
| ManyArrays.ManyConserve | perl/av.c:34-820 | the same over every run that interleaves operations on any number of arrays sharing their scalars |
| ManyArrays.MakeConserves | perl/av.c:325-348 | making an array of new scalars keeps references conserved for the same outside owners, and each new scalar ends with one reference |
| Scalars.MintCounts | perl/av.c:341-345 | the first references to new scalars, as counts |
| ManyArrays.SharedElementsAreCounted | perl/av.h:24-40 | no element that any counted array shows has been freed |
| ArrayTheorems.LiveElementsAreCounted | perl/av.h:24-40 | no element that a counted array shows has been freed |
| ArrayTheorems.DiscardConservesIff | perl/av.c:773-776 | a discarding delete conserves references if and only if the array counts the element |
| GrowthCost.AmortisedGrowth | perl/av.c:75-147 | over every run of any operations from an empty array, av_extend copies fewer than two slots for each slot asked for beyond the elements and each element that av_unshift moved, for both pointer sizes |
| GrowthCost.AmortisedPush | perl/av.c:97-135 | hence over any run that adds elements only by pushing, however it removes them (shift, pop, delete, clear, undef, cutting), av_extend copies fewer than two slots per push |
| GrowthCost.ExtendCost | perl/av.c:75-147 | making an index available, by sliding, allocating or reallocating, keeps the potential that pays for the copies |
| GrowthCost.UnshiftPays | perl/av.c:578-604 | the reserve that unshifting leaves is paid for by the elements it moves |
| GrowthCost.PushSlidesIff | perl/av.c:78-95 | a push at the end of the block slides without copying if and only if at least eleven slots are free before the window |
| GrowthCost.QueueSlides | perl/av.c:78-95 | a queue of constant length with a gap of eleven slots or more in its block never reallocates, but slides all of its elements once in as many rounds as the gap has slots |
| GrowthCost.NewMaxDoubles | perl/av.c:110-122 | a block that an earlier rounding filled is at least doubled |
| GrowthCost.RoundBlockLeast | perl/av.c:111-114 | the rounding loop finds the least block size that is large enough |
| GrowthCost.AmortisedUnshift | perl/av.c:578-604 | over any run from an empty array that grows only by unshifting, mixed with shifts and other removals, the Move transfers fewer than two slots per element unshifted |
| GrowthCost.UnshiftStep | perl/av.c:578-604 | one operation keeps the potential that pays for the moves |
| SubExit.SubContext.PopArgs | perl/cop.h:119-139 | afterwards the pad's argument array is empty, not counted and starts at its block; a reified one is abandoned and its elements go only with its last reference, another one is recycled without releasing anything; either way the array left is reifiable, unless it was never counted before |
| SubExit.ClearArgIsClear | perl/cop.h:110-117 | the fast clearing macro agrees with av_clear if and only if the block is not used up by shifting |
| SubExit.NextStoreCounts | perl/cop.h:119-139 | the next store into what a subroutine leaves makes it counted and takes over the caller's reference |
| Blocks.Context.PushBlock | perl/cop.h:265-276 | the block pushed records the stack positions as offsets, and the blocks below stay |
| Blocks.Context.PopBlock | perl/cop.h:278-288 | the last block is removed and what it recorded is restored, relative to where the stacks are now |
| Blocks.Context.TopBlock | perl/cop.h:290-295 | as popping, but the block stays and the stack pointer itself is set |
| Blocks.Context.NextSlot | perl/cop.h:386 | the context stack grows when it is full and keeps its blocks |
| Blocks.Context.XPush | perl/av.c:136-140 | pushing past the end of the stack moves it and keeps everything below |
| Blocks.Bracket | perl/cop.h:265-288 | over every well-nested run with moving stacks, leaving a block yields the stack position it was entered at, with the elements below, the marks, scopes, returns and outer blocks as they were, and the pattern match and the context wanted |
| RunLevels.Runtime.PushStack | perl/cop.h:480-494 | the next level is reused or made, reset, and entered; the chain stays linked; nothing else about existing levels is written |
| RunLevels.Runtime.NextLevel | perl/cop.h:482-487 | a level is made only past the end of the chain and is linked both ways |
| RunLevels.Runtime.PopStack | perl/cop.h:500-511 | the previous level is entered at the position where it was left; at the outermost level it fails |
| RunLevels.Runtime.PopStackTo | perl/cop.h:513-519 | it terminates at the target if and only if that is a stack on the prev chain, having unwound exactly the levels left |
| RunLevels.Bracket | perl/cop.h:480-511 | over every nested run that sets context indices, pushes values, moves stack pointers and grows stacks, a balanced bracket leaves the level's and every outer level's context index, stack position and slots unchanged |
| Trans.TransSimple | perl/doop.c:42-53 | in place, every byte with a replacement is replaced; the count is that of the replaced bytes |
| Trans.TransCount | perl/doop.c:110-115 | the count of the bytes that have a replacement |
| Trans.TransSquash | perl/doop.c:151-184 | in place, the text is the left fold over the original string, never read after being overwritten; length, terminator and count are right |
| Trans.TransDelete | perl/doop.c:169-184 | the same without squashing |
| TransTheorems.SquashCollapses | perl/doop.c:155-167 | the squashed text is that of the replacement tokens without the ones that directly repeat; deleted bytes do not come between, copied ones do |
| TransTheorems.DeleteFilters | perl/doop.c:170-181 | without squashing every token is written |
| TransTheorems.SimpleMeans | perl/doop.c:43-50 | the byte at each index |
| TransTheorems.DeleteMeans | perl/doop.c:170-181 | what each byte adds to the output without squashing |
| TransTheorems.SquashMeans | perl/doop.c:153-168 | a byte is squeezed if and only if it and the last byte before it that is not dropped are replaced by the same byte |
| TransTheorems.SquashFirst | perl/doop.c:152-167 | the first byte that is not dropped is never squeezed |
| TransTheorems.CountsMean | perl/doop.c:43-181 | each count is the number of indices whose entries are as required |
| TransTheorems.BytesAccounted | perl/doop.c:151-184 | written, deleted and squeezed bytes add up to the input |
| TransTheorems.CountsAgree | perl/doop.c:43-181 | the count-only, simple and complex forms report the same number if and only if no byte has a delete entry |
| TransTheorems.TextsAgree | perl/doop.c:43-181 | simple and complex forms write the same string if and only if nothing is deleted |
| TransTheorems.SquashIdempotent | perl/doop.c:155-167 | squashing again changes nothing, for every table whose replacements map to themselves |
| Vec.ReadIsField | perl/doop.c:655-777 | every read agrees with the zero-extended string if and only if it is not the one that sign-extends a byte |
| Vec.PartialIsField | perl/doop.c:669-740 | the same for reads that run past the end |
| Vec.ReadErrors | perl/doop.c:655-658 | a negative offset reads 0 whatever the size; otherwise reading croaks exactly on sizes that are no power of two |
| Vec.NarrowReadBits | perl/doop.c:742-747 | a field of up to 8 bits holds exactly the bits of the endless string from its offset times its size on |
| Vec.SignExtendedRead | perl/doop.c:723 | that read gives the field less 2^32, modulo 2^64 |
| Vec.WideReadsAgree | perl/doop.c:669-775 | reads of 16 and 32 bits are big-endian combinations of narrower reads everywhere, straddling and past the end included; reads of 64 bits if and only if no byte is sign-extended |
| Vec.NarrowReadsAgree | perl/doop.c:665-747 | reads of 8, 4 and 2 bits are low-first combinations of narrower reads, everywhere |
| Vec.PowerTest | perl/doop.c:657-658 | the size test accepts exactly the powers of two |
| Vec.Target.VecSet | perl/doop.c:787-864 | croaks exactly on negative offsets and bad sizes; otherwise the string is that of `SetField` |
| Vec.SetField | perl/doop.c:818-823 | the length is the maximum of the old one and the bytes required |
| Vec.SetLength | perl/doop.c:818-823 | in bits: the string holds the field and is no longer than it needs to be |
| Vec.SetKeepsOthers | perl/doop.c:825-863 | no bit outside the field changes |
| Vec.SetThenGet | perl/doop.c:818-863 | reading back gives the value modulo 2^size for widths up to 64, and beyond that only for values that are 0 |
| Vec.MergeBit | perl/doop.c:825-832 | masking and or-ing changes exactly the bits of the field within its byte |
| Vop.DoVop | perl/doop.c:1008-1195 | for every word size, byte order and alignment, with the destination fresh or an operand, the string is the combined one; when it is terminated (what it is: `CombineDetermined`) |
| Vop.WordLoop | perl/doop.c:1124-1165 | the unrolled word loop computes each byte as the byte loop would |
| Vop.WordwiseIsBytewise | perl/doop.c:1137-1165 | operating on a word is operating on its bytes |
| Vop.CombineBits | perl/doop.c:1170-1193 | the result is the operator on the endless zero-extended bit strings |
| Vop.CombineLength | perl/doop.c:1170-1193 | AND has the shorter length, OR and XOR the longer |
| Vop.CombineDetermined | perl/doop.c:1170-1193 | the result is the one string with that length and these bits |
| Vop.Commutes | perl/doop.c:1170-1193 | operand order does not matter, tails included |
| Vop.XorTwice | perl/doop.c:1176-1190 | exclusive or twice gives back the first operand if and only if the second is not longer |
| Display.Output.PvDisplay | perl/dump.c:107-143 | the loop writes the specified output (what it is: `ShownByByte` and `CutOutput`) |
| Display.ReadEscapes | perl/dump.c:113-135 | the printed text decodes to exactly the bytes it shows, whatever follows |
| Display.ShownByByte | perl/dump.c:118-134 | without a limit the output is, byte by byte, the byte itself, one of six two-character forms, or octal digits: three before a digit, else without leading zeros |
| Display.LooksUnique | perl/dump.c:118-134 | that form is unique, so the output is determined |
| Display.PlainText | perl/dump.c:126 | printable text without the six special bytes prints as itself in quotes |
| Display.CutExactly | perl/dump.c:114-117 | with a limit bytes are printed exactly as long as the output is shorter than it |
| Display.CutOutput | perl/dump.c:114-140 | the output with a limit begins as the one without, and what follows the cut |
| Display.ParseShown | perl/dump.c:107-143 | the output determines its bytes, whether they are a proper prefix, and the NUL mark, for every printability predicate and limit |
| Display.Injective | perl/dump.c:107-143 | without a limit different strings print differently, even under different predicates |
| Display.LimitHolds | perl/dump.c:114-140 | with a limit the output is at most nine characters longer |
| Display.LimitTight | perl/dump.c:114-140 | and can be that long |
| ExecSplit.Split | perl/doio.c:1398-1409 | for any bytes copied, a NUL among them included, the vector gets a pointer to each word of the C string they begin with, NUL-terminated in place, and a final null, within the slots allocated for all of them |
| ExecSplit.WordsAreMaximalRuns | perl/doio.c:1401-1408 | the words are exactly the maximal runs of non-space bytes, in order |
| ExecScan.Scan | perl/doio.c:1372-1394 | in place, the scan sends to the shell exactly the commands with a metacharacter other than a final newline or a closing 2>&1 that dup2 carries out, and otherwise leaves the bytes to copy |
| ExecScan.AtRedirect | perl/doio.c:1379-1386 | the lookaround recognises exactly a closing 2>&1 that is a word of its own |
| ExecScan.SpecialIs | perl/doio.c:1373 | which characters are special |
| ExecScan.PlanIs | perl/doio.c:1372-1399 | exactly when a command goes to the shell, and the bytes copied otherwise |
| ExecScan.DirectWords | perl/doio.c:1372-1408 | a command executed directly gets exactly the words of the command as given, except a closing 2>&1, and none holds a metacharacter |

## Left out

- Tied and magical arrays, pseudo-hashes, read-only checks and null array pointers: all arrays are plain and writable.
- The half-reified branch of `av_fetch`: elements of uncounted arrays are taken to be neither null nor freed.
- The `$#array` scalar that `av_undef` drops, and `av_len`.
- Destructors that run when a count reaches zero, and reuse of freed scalars: numbers of new scalars are always new.
- Blocks are values with an address: an old block is not seen after it has been given up, and the nice-chunk reuse of freed blocks is not modelled.
- Machine-integer overflow of indices, fills, bit offsets and byte counts.
- ArrayTheorems.StepConserves: excludes the deletion that drops a reference the array never held; `ArrayTheorems.DiscardConservesIff` states exactly which.
- Saving and restoring `@_` itself, the call depth and the parts of a block that depend on its kind.
- RunLevels.Runtime.PopStackTo: unwinding a level resets its context index; what the contexts themselves release is not modelled.
- The UTF-8 branches of transliteration and of the bitwise operators, undefined left operands of the latter, and the rest of doop.c: joining, formatting, chopping and hash listing.
- What do_exec3 does before its scan (leading white space, csh, a leading dot, exec or assignment) and after the splitter (running the command), the rest of doio.c, and the rest of dump.c. What isSPACE, isALPHA and dup2 answer are parameters.
