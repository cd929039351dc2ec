# A verified model of the Orion library and firmware algorithms

The repository holds the kernel, C libraries and peripheral firmware of a 68000 computer. This project models its
self-contained algorithms and proves what they promise. Code that changes state in place is a method over arrays or
object fields, and its contract ties the new state to a specification function. The promises are then proved about
those functions, and about whole runs of the state machines.

| component | files | main result |
|---|---|---|
| regular expressions | `RegexSyntax.dfy`, `RegexCode.dfy`, `RegexMachine.dfy`, `RegexTexts.dfy` | `re_comp` accepts exactly the patterns that parse and fit, and reports exactly the errors it reaches; `re_exec` answers 1 exactly when the pattern matches by the written rules; what each form of pattern text matches |
| sorting | `Quicksort.dfy` | for any comparison it ends with a permutation and recursion no deeper than log2 n; for a consistent one, sorted |
| random numbers | `Rand.dfy` | period exactly 2^32 from every seed; partial products are the product; the range and the values of `nrand` |
| kernel heap | `HeapBlocks.dfy`, `KernelHeap.dfy` | blocks tile the heap, bytes in use never change, first fit is complete, over whole runs, requests that fit together are all served and last-in-first-out runs restore the fresh heap |
| scheduler | `ReadyRing.dfy`, `Scheduler.dfy`, `SchedulerRuns.dfy` | over every run of calls the ring is exactly the ready or running tasks, one task runs, and each is served by one of the next eight dispatches |
| DES | `DesTables.dfy`, `DesSpec.dfy`, `Des.dfy`, `DesAnswer.dfy`, `DesKnown.dfy` | decryption undoes encryption for any key schedule and selection table; complementation; the answer at a well-known key and block, key by key and round by round |
| byte ring | `RingBuffer.dfy` | over every interleaving of loads and stores, the bytes put and not refused come out first in, first out |
| mutex | `Mutex.dfy` | the tasks own it in the order of their lock calls, at most one at a time, and when a stray unlock breaks it |
| CRC-32 | `Crc32.dfy`, `CrcBursts.dfy`, `CrcValues.dfy` | the table form is eight bit steps; chunking does not matter; a message with its CRC behind it leaves one residue; any error within 32 consecutive bits is detected, and of those within 33 exactly the polynomial is not |
| overlapping copy | `DmaCopy.dfy` | `dma_memcpy` is memmove exactly where the in-order copy is; the scroll moves every row |
| keyboard parser | `KeyboardFrames.dfy`, `Keyboard.dfy` | the keys delivered are those of the frames on the wire, however the bytes are split over polls |
| line and square root | `Line.dfy` | every pixel within half a pixel of the ideal line; exact floor of the root |
| numbers as text | `Numerals.dfy`, `PutNum.dfy` | print and parse are inverse, with the exact exceptions |

`Arithmetic.dfy`, `Sequences.dfy` and `Values.dfy` hold what several of these share.

Where the code and its own documentation disagree, the model follows the code:

- `software/libs/libm68/rand.c:29-31` says `nrand` forms the integer part of (N+1)*x/2^32. It first drops the low
  bits of x. `Rand.ScaledIsDocumented` and `Rand.ScaledCovers` say for which N this matters.
- `software/libs/liborion_em_assembler/qprintf.c:264-269` says `right` justifies to the right. A `right` other than zero
  puts spaces behind the number. With zero fill the zeros also come before the minus sign (`Numerals.ZeroFillDecimal`).
- `putnum` prints -2^31 as -0 (`Numerals.MinusZero`).
- `software/dev/kernel/scheduler.c:223-233` does not look at the current task: starting twice can leave two tasks
  running (`Scheduler.Kernel.Start` states when, `Scheduler.StartedLate` gets there).
- `software/dev/kernel/mutex.c:116-139` does not check who unlocks: `MutexSteps.StrayUnlock` states, for every state of
  an owned mutex, when that lets a second task in. `MutexSteps.StrayReached` gets there with the owner inside,
  `MutexSteps.StrayReachedBetween` while the new owner has not returned from its lock yet.
- `peripheral/pico2W/kbd_usb/kbd_usb.c:279-280`: after 0x57 another 0x57 is taken for a broken header, so the frame it
  begins is lost (`KeyboardFrames.ReportLost` states when, `KeyboardFrames.LetterLost` gives such a stream).
- `peripheral/pico2W/kbd_usb/kbd_usb.c:251-254` says a report without a modifier is decoded with 0x00. It is decoded with
  the modifier of an earlier report until an empty report clears that (`KeyboardFrames.ModifierInForce`;
  `KeyboardFrames.NoneInForce` states when there is none, `KeyboardFrames.ShiftStays` gives a shifted letter).

Constants the repository takes from files it does not hold (the values of `KEY_CTRL` and its like) appear as
constructors.

## Model

| member | source | states |
|---|---|---|
| RegexMachine.Regex.ReComp | software/libs/liborion_em_assembler/regex.c:92-211 | a pattern compiles if and only if it parses by the written grammar, its class counts fit a char and its code fits the 512-byte buffer; then the buffer holds that pattern's program; an error of the grammar is reported if and only if the code of what comes before it leaves room, and then it is the error the grammar has there; a failure leaves an empty program, and an empty pattern keeps the previous one |
| RegexMachine.Regex.ReExec | software/libs/liborion_em_assembler/regex.c:216-251 | after a compiled pattern: 1 if and only if some start position (only the first under a caret) has a match by the declarative meaning, else 0; -1 when nothing is compiled; the scan for a literal first character agrees with the general scan |
| RegexMachine.Regex.Advance | software/libs/liborion_em_assembler/regex.c:256-362 | 1 if and only if the items whose code starts at ep match the string from lp on |
| RegexMachine.Regex.Starred | software/libs/liborion_em_assembler/regex.c:300-360 | a starred code matches if and only if its items do: trying the longest run first and giving back loses no match |
| RegexMachine.Regex.TryBack | software/libs/liborion_em_assembler/regex.c:343-360 | 1 if and only if the rest matches from some position of the run |
| RegexMachine.Regex.Simple | software/libs/liborion_em_assembler/regex.c:262-299 | one code that is not starred passes, and goes on, exactly as its item does |
| RegexMachine.Regex.ClassTest | software/libs/liborion_em_assembler/regex.c:377-391 | the scan of the stored members, with its sense, decides whether the class accepts the character |
| RegexMachine.Regex.PutItems | software/libs/liborion_em_assembler/regex.c:107-209 | the loop stores the code of exactly the items the grammar gives the pattern |
| RegexMachine.Regex.PutClass | software/libs/liborion_em_assembler/regex.c:155-197 | a bracketed class is stored as the grammar reads it, with its sense and its count |
| RegexMachine.ClassFails | software/libs/liborion_em_assembler/regex.c:155-183 | a class that is given up spoils the pattern: with the missing bracket if its members fit up to the end of the pattern, else for lack of room |
| RegexMachine.CodeIsProgram | software/libs/liborion_em_assembler/regex.c:256-362 | wherever the code of an item list stands with the end mark behind it, it is read back as those items, one by one |
| RegexMachine.StarredEnd | software/libs/liborion_em_assembler/regex.c:127-131 | setting the low bit of the last opcode turns the code into that of the same items with the last one starred |
| RegexSyntax.MeetsIsMatch | software/libs/liborion_em_assembler/regex.c:33-66 | matching one item at a time from the left is the declarative meaning: a split of the string whose pieces match the items |
| RegexSyntax.StarWithinRun | software/libs/liborion_em_assembler/regex.c:45-47 | a starred item matches from i if and only if the rest matches somewhere in the longest run from i |
| RegexCode.ClassCodeHolds | software/libs/liborion_em_assembler/regex.c:155-197 | the members stored for a class, ranges spelled out, are exactly the characters in it |
| RegexCode.ParseFromSound | software/libs/liborion_em_assembler/regex.c:107-209 | no literal of a parsed pattern is the terminator, and every range starts from the member before it |
| RegexCode.NoRoomFor | software/libs/liborion_em_assembler/regex.c:107-209 | where the next item does not fit, nothing that follows makes the pattern compile or its error be reached |
| RegexTexts.TextMatches | software/libs/liborion_em_assembler/regex.c:33-66 | a text of parts (glyphs, starred ones, group marks that pair up), perhaps after a caret and perhaps before a dollar, matches if and only if the parts spell a stretch of the subject, from its beginning on after the caret and up to its end before the dollar |
| RegexTexts.ClassText | software/libs/liborion_em_assembler/regex.c:147-178 | `[w]` matches if and only if some character of the subject is in w |
| RegexTexts.LetterClassText | software/libs/liborion_em_assembler/regex.c:147-178 | `[x]` matches if and only if x is in the subject |
| RegexTexts.NotClassText | software/libs/liborion_em_assembler/regex.c:147-178 | `[^w]` matches if and only if some character of the subject is not in w |
| RegexTexts.RangeText | software/libs/liborion_em_assembler/regex.c:155-177 | `[x-y]` matches if and only if some character is from x to y, or is x or y, in whatever order these stand |
| RegexTexts.BracketMemberText | software/libs/liborion_em_assembler/regex.c:147-178 | a closing bracket that comes first is a member |
| RegexTexts.DashMemberText | software/libs/liborion_em_assembler/regex.c:158-163 | a dash that comes last is a member |
| RegexTexts.DotText | software/libs/liborion_em_assembler/regex.c:131-133 | `.` matches every subject but the empty one |
| RegexTexts.EscapedText | software/libs/liborion_em_assembler/regex.c:180-208 | a backslash and one of `$*.[\^` matches if and only if that character is in the subject |
| RegexTexts.WordText | software/libs/liborion_em_assembler/regex.c:33-66 | a text without special characters matches if and only if it occurs in the subject |
| RegexTexts.FrontText | software/libs/liborion_em_assembler/regex.c:216-251 | behind a caret, if and only if the subject begins with it |
| RegexTexts.BackText | software/libs/liborion_em_assembler/regex.c:141-145 | before a dollar, if and only if the subject ends with it |
| RegexTexts.WholeText | software/libs/liborion_em_assembler/regex.c:33-66 | between both, if and only if it is the subject |
| RegexTexts.StarText | software/libs/liborion_em_assembler/regex.c:300-360 | `ux*w` matches if and only if u stands somewhere (at the beginning after a caret), behind it any number of x, and behind these w |
| RegexTexts.DotStarText | software/libs/liborion_em_assembler/regex.c:300-360 | `u.*w` matches if and only if w stands somewhere behind u |
| RegexTexts.GroupText | software/libs/liborion_em_assembler/regex.c:180-195 | a text between `\(` and `\)` matches as it does alone |
| RegexTexts.LoneStarText | software/libs/liborion_em_assembler/regex.c:127-139 | a star with nothing before it matches a star |
| RegexTexts.InnerDollarText | software/libs/liborion_em_assembler/regex.c:141-145 | a dollar that is not the last character matches a dollar |
| RegexTexts.InnerCaretText | software/libs/liborion_em_assembler/regex.c:111-116 | a caret that is not the first character matches a caret |
| RegexTexts.WrongTexts | software/libs/liborion_em_assembler/regex.c:120-195 | an opening mark alone, a closing one alone and a class without its end are three different errors |
| Quicksort.Qsort | software/libs/liborion_em_assembler/qsort.c:5-14 | for every input and every comparison it ends, leaves a permutation, and 2^depth of the recursion is at most n; if the comparison is a total preorder, the array is sorted |
| Quicksort.Qs1 | software/libs/liborion_em_assembler/qsort.c:16-85 | for every comparison only the cells of the range move and the recursive calls nest at most floor(log2 n) deep; the range ends sorted for a total preorder |
| Quicksort.Partition | software/libs/liborion_em_assembler/qsort.c:29-66 | both nested loops end, for every comparison, with no unknown cell between the three regions; they hold the less, equal and greater cells for a total preorder |
| Quicksort.LeftStep | software/libs/liborion_em_assembler/qsort.c:29-43 | a step on the left unknown region keeps the five regions and shrinks it, unless its first cell is greater |
| Quicksort.RightStep | software/libs/liborion_em_assembler/qsort.c:44-66 | a step on the right unknown region keeps the five regions through either exchange and makes progress, or both regions are used up |
| Quicksort.Round | software/libs/liborion_em_assembler/qsort.c:67-84 | the recursive call takes the smaller part, and what is left to sort stands where it will stay |
| Quicksort.CameFrom | software/libs/liborion_em_assembler/qsort.c:87-120 | a cell of a permuted range holds what a cell of that range held before |
| Quicksort.Narrow | software/libs/liborion_em_assembler/qsort.c:67-84 | after partitioning, once one side is sorted only the other is left to sort |
| Quicksort.Exchange3 | software/libs/liborion_em_assembler/qsort.c:103-120 | the three-way exchange rotates three cells, also where two of them are the same |
| Quicksort.Exchange3Bytes | software/libs/liborion_em_assembler/qsort.c:103-120 | byte by byte, elements of any size rotate as cells do and no other byte changes |
| Quicksort.ExchangeBytes | software/libs/liborion_em_assembler/qsort.c:87-101 | byte by byte, two elements of any size are exchanged and no other byte changes |
| Rand.FullPeriod | software/libs/libm68/rand.c:26-27 | from any seed the state returns after n steps if and only if n is a multiple of 2^32 |
| Rand.EveryState | software/libs/libm68/rand.c:26-27 | within one period every 32-bit state occurs |
| Rand.GeoDivides | software/libs/libm68/rand.c:12-21 | for a multiplier 1 mod 4, the geometric sum of n terms has exactly the powers of two that n has |
| Rand.Constants | software/libs/libm68/rand.c:12-21 | the multiplier has the bits that were chosen and ends with 101; the increment is the odd number nearest to M * (1 - 1/sqrt 3) / 2 |
| Rand.Lmul | software/libs/libm68/rand.c:119-168 | the four 16-bit partial products and their additions make the exact 64-bit product, so the low word is the product mod 2^32 |
| Rand.SetRng | software/libs/libm68/rand.c:79-92 | the loop counts the significant bits of N + 1 |
| Rand.Generator.Rand32 | software/libs/libm68/rand.c:110-115 | the new state is A * x + C mod 2^32 |
| Rand.Generator.Srand | software/libs/libm68/rand.c:56-61 | the state becomes the successor of the seed's 32-bit pattern, and its upper 31 bits are returned |
| Rand.Generator.Nrand | software/libs/libm68/rand.c:65-106 | the result lies in 0..N for 0 <= N <= 2^31 - 2 and is the scaled high part of the new state |
| Rand.ScaledInRange | software/libs/libm68/rand.c:95-106 | the product of the scaling stays within 32 bits and the scaled value below N + 1 |
| Rand.ScaledIsDocumented | software/libs/libm68/rand.c:29-31 | the result is the documented (N+1)*x/2^32 for every state if and only if N + 1 divides 2^(32-s), where s is the number of bits of N + 1 |
| Rand.ScaledCovers | software/libs/libm68/rand.c:95-106 | every value of 0..N comes out for some state if and only if N + 1 < 2^16 |
| KernelHeap.Heap.Init | software/dev/kernel/kmalloc.c:56-63 | the heap is one free block |
| KernelHeap.Heap.Kmalloc | software/dev/kernel/kmalloc.c:65-102 | fails if and only if the request is 0 or no single free block holds it, aligned; else takes the first that does; if that has 20 bytes more than the aligned request, the block has exactly the aligned request and a free block of the rest, less a header of 4, stands behind it, otherwise it keeps its size, and every other block stays; the block has room for the request if and only if that is at most 0xfffffffc; no byte of a block in use changes |
| KernelHeap.Heap.Kfree | software/dev/kernel/kmalloc.c:104-131 | the block is free, and if the next one is free they are one block of both sizes and the header between; every other block stays, and no payload byte changes |
| KernelHeap.Heap.Kcalloc | software/dev/kernel/kmalloc.c:133-140 | as kmalloc of the 32-bit product, and all those bytes are zero; the block holds the whole product if and only if that did not overflow |
| KernelHeap.Heap.Krealloc | software/dev/kernel/kmalloc.c:142-169 | keeps the block where it is big enough, else moves its bytes to the first block that fits and gives it back; where nothing fits, nothing changes |
| HeapBlocks.EveryRun | software/dev/kernel/kmalloc.c:44-169 | over every run of calls the blocks cover the heap exactly, and a block in use stays until it is freed |
| KernelHeap.BytesStay | software/dev/kernel/kmalloc.c:44-169 | over every run of calls and writes, the bytes of a block in use that is neither freed nor written to are as they were |
| HeapBlocks.TakeTiles | software/dev/kernel/kmalloc.c:82-95 | splitting a block keeps the blocks aligned, disjoint and covering |
| HeapBlocks.AllServed | software/dev/kernel/kmalloc.c:65-102 | on a fresh heap, any number of requests that fit with their headers and 20 bytes to spare are all served, one behind the other |
| HeapBlocks.GiveTiles | software/dev/kernel/kmalloc.c:113-127 | the forward merge keeps the blocks aligned, disjoint and covering |
| HeapBlocks.LastInFirstOut | software/dev/kernel/kmalloc.c:56-131 | any last-in-first-out run of requests and frees leaves the blocks as they were, when only the last block was free |
| HeapBlocks.FreshAgain | software/dev/kernel/kmalloc.c:56-131 | from a fresh heap such a run ends with the single free block |
| KernelHeap.PayloadApart | software/dev/kernel/kmalloc.c:44-53 | no other block reaches over the payload of a block in use |
| HeapBlocks.Align | software/dev/kernel/kmalloc.c:44-53 | rounds up to a multiple of 4, and wraps to 0 exactly for the last three 32-bit sizes |
| ReadyRing.ServedWithin | software/dev/kernel/scheduler.c:26-65 | a task among the first d + 1 of the queue is dispatched within d + 1 dispatches, whatever other tasks are inserted or removed in between |
| SchedulerRuns.EveryRun | software/dev/kernel/scheduler.c:116-260 | over every run of create, start, schedule, block, wake and exit the ring is exactly the ready or running tasks, each once, eight at most; only the current task runs while every start is orderly |
| SchedulerRuns.DoOneRunning | software/dev/kernel/scheduler.c:116-260 | a call keeps at most the current task running if and only if it is not a start over a running task other than the head |
| SchedulerRuns.ServedInEveryRun | software/dev/kernel/scheduler.c:116-260 | after every run from a new kernel, a ready or running task that is not blocked and does not exit is made the running one by one of the next eight dispatches, whatever else is called |
| SchedulerRuns.ServedFrom | software/dev/kernel/scheduler.c:205-233 | from any state, a task among the first d + 1 of the queue by one of the next d + 1 |
| ReadyRing.StepWithin | software/dev/kernel/scheduler.c:26-65 | a dispatch of another task brings a task one place nearer, and nothing but its own removal takes it further away |
| SchedulerRuns.PerformAll | software/dev/kernel/scheduler.c:26-260 | any sequence of calls on the circular list leaves what the run on values says: pool, ring, states and current task |
| SchedulerRuns.RunFromNew | software/dev/kernel/scheduler.c:26-260 | the same from a new kernel |
| Scheduler.Kernel.ReadyInsert | software/dev/kernel/scheduler.c:26-38 | on the circular list, the task goes to the tail |
| Scheduler.Kernel.ReadyRemove | software/dev/kernel/scheduler.c:41-65 | on the circular list, the task leaves and the others keep their order; a task that is not there changes nothing |
| Scheduler.Kernel.TaskCreate | software/dev/kernel/scheduler.c:116-145 | fails if and only if the pool is full or an argument is missing; else the next entry is ready at the tail |
| Scheduler.Kernel.Schedule | software/dev/kernel/scheduler.c:205-221 | the head runs, goes to the tail, and is the only running task; the ring stays exactly the ready or running tasks |
| Scheduler.Kernel.Start | software/dev/kernel/scheduler.c:223-233 | the head runs; where one task at most was running, it is the only one now if and only if none was, or the head itself |
| Scheduler.StartedLate | software/dev/kernel/scheduler.c:205-233 | two tasks created, one scheduled and then a start: two tasks are running |
| Scheduler.Kernel.TaskBlock | software/dev/kernel/scheduler.c:235-251 | a ready or running task leaves the ring and is blocked; any other stays as it is |
| Scheduler.Kernel.TaskWake | software/dev/kernel/scheduler.c:253-260 | a blocked task is ready at the tail; any other stays as it is |
| Scheduler.Kernel.TaskExit | software/dev/kernel/scheduler.c:195-203 | the current task leaves the ring for good |
| DesSpec.CryptUndo | software/libs/liborion_em_assembler/crypt.c:235-321 | for every key schedule, block and selection table, encrypting with one flag and then the other restores the block, in either order |
| DesSpec.CryptNot | software/libs/liborion_em_assembler/crypt.c:97-140 | complementing every key bit and every block bit complements every output bit |
| DesSpec.CryptUndoSalted | software/libs/liborion_em_assembler/crypt.c:324-360 | both laws hold for the table that crypt() selects with, under any salt |
| DesSpec.ScheduleNot | software/libs/liborion_em_assembler/crypt.c:97-140 | the keys of the complemented key are the complements of the keys |
| DesSpec.RoundUndo | software/libs/liborion_em_assembler/crypt.c:250-305 | a round with the halves exchanged undoes itself, whatever the selection yields |
| DesSpec.RoundsUndo | software/libs/liborion_em_assembler/crypt.c:250-312 | the rounds with the keys reversed undo the rounds |
| DesSpec.RoundNot | software/libs/liborion_em_assembler/crypt.c:265-300 | the complement of key and half cancels in the exclusive-or before selection |
| DesTables.Inverse | software/libs/liborion_em_assembler/crypt.c:11-34 | the final permutation undoes the initial one and the other way round |
| DesKnown.KnownAnswer | software/libs/liborion_em_assembler/crypt.c:97-321 | with key 133457799BBCDFF1, block 0123456789ABCDEF becomes 85E813540F0AB405, and with the flag set that comes back |
| DesKnown.KeysAre | software/libs/liborion_em_assembler/crypt.c:97-140 | the sixteen keys of that key, bit by bit |
| DesKnown.RoundsAre | software/libs/liborion_em_assembler/crypt.c:249-306 | the halves of that block after any number of the sixteen rounds |
| DesAnswer.RoundDigits | software/libs/liborion_em_assembler/crypt.c:250-306 | a round on hexadecimal digits: given the entries that the digits of R and the key groups pick and what the selection functions hold there, the new digits are those of L with the bits that P brings to them |
| DesAnswer.SelectionIs | software/libs/liborion_em_assembler/crypt.c:280-288 | selection function i takes the row 2*b0 + b5 and the column 8*b1 + 4*b2 + 2*b3 + b4 of its six bits |
| DesAnswer.RowsPermute | software/libs/liborion_em_assembler/crypt.c:162-202 | each row of each selection function is a permutation of 0 to 15 |
| DesAnswer.SelectionSpread | software/libs/liborion_em_assembler/crypt.c:208-217 | the four bits of one selection go to four places, written out as numbers |
| DesAnswer.FullTurn | software/libs/liborion_em_assembler/crypt.c:59-61 | after the sixteen keys each half of the key has turned 28 times and is what it was |
| DesAnswer.GroupsAre | software/libs/liborion_em_assembler/crypt.c:63-79 | key groups from the digits of the two halves of the key |
| Des.Machine.Setkey | software/libs/liborion_em_assembler/crypt.c:97-140 | the static arrays end with the sixteen keys of the schedule in KS |
| Des.Machine.Encrypt | software/libs/liborion_em_assembler/crypt.c:235-321 | over the static arrays, the block becomes the cipher of it under the keys in KS, the last one first with the flag set |
| Des.Machine.LoadSelector | software/libs/liborion_em_assembler/crypt.c:344-360 | for any two salt characters the loops leave the standard table with the entries exchanged that the salt's bits name, and every entry in range |
| RingBuffer.EveryRun | peripheral/pico2W/ringbuffer.c:20-49 | over every interleaving of the loads and stores of both sides, the bytes delivered are a prefix of the bytes accepted and at most 255 are held |
| RingBuffer.EveryByte | peripheral/pico2W/ringbuffer.c:20-49 | over every interleaving, the bytes accepted are those that kb_put was called with, in order, without the ones refused and without that of the call in progress, which carries the last byte offered; the bytes delivered are a prefix of them |
| RingBuffer.StepAccepts | peripheral/pico2W/ringbuffer.c:21-32 | a call ends with a verdict, refused exactly with 255 bytes held at its test, or goes on with the same byte; a good verdict accepts the byte it was called with |
| RingBuffer.PutEnds | peripheral/pico2W/ringbuffer.c:21-32 | whatever the main side does meanwhile, a call of kb_put ends within five of its accesses |
| RingBuffer.RunDelivers | peripheral/pico2W/ringbuffer.c:35-44 | over every run, each call of kb_get that is not refused delivers one byte, and no other access does |
| RingBuffer.GetEnds | peripheral/pico2W/ringbuffer.c:35-44 | whatever the interrupt side does meanwhile, a call of kb_get ends within six of its accesses |
| RingBuffer.RunInv | peripheral/pico2W/ringbuffer.c:20-49 | every run keeps the cells, indices and both sides' registers consistent with the stream |
| RingBuffer.PutKeeps | peripheral/pico2W/ringbuffer.c:21-32 | every single access of the interrupt side keeps that invariant |
| RingBuffer.GetKeeps | peripheral/pico2W/ringbuffer.c:35-49 | every single access of the main side keeps that invariant |
| RingBuffer.RefusesFull | peripheral/pico2W/ringbuffer.c:21-26 | kb_put refuses if and only if 255 bytes are held at its test |
| RingBuffer.RefusesEmpty | peripheral/pico2W/ringbuffer.c:35-49 | kb_get refuses, and kb_available denies, if and only if the ring was empty when it loaded the head |
| MutexSteps.EveryRun | software/dev/kernel/mutex.c:79-139 | in every run of well-formed calls ownership passes in the order of the lock calls, at most one task is inside, the blocked tasks are exactly those in the queue, each once, and no one waits for a free mutex |
| MutexSteps.EveryRunFromNew | software/dev/kernel/mutex.c:79-139 | the same in every run from a new mutex |
| MutexSteps.FirstComeFirstServed | software/dev/kernel/mutex.c:85-139 | in every run from a new mutex the tasks of the lock calls, in the order of these calls, are the owners it has had, in the order they have had it, and then those that wait |
| MutexSteps.RunRecorded | software/dev/kernel/mutex.c:85-139 | from any good state a run adds to the requests exactly the tasks of its lock calls, and to the grants exactly the tasks that become owner, in order |
| MutexSteps.AcquireFair | software/dev/kernel/mutex.c:85-114 | a lock call keeps the order of requests and the other laws |
| MutexSteps.ReleaseFair | software/dev/kernel/mutex.c:116-139 | an unlock hands the mutex to the longest waiting task and keeps the laws |
| MutexSteps.StrayUnlock | software/dev/kernel/mutex.c:116-139 | in every good state of an owned mutex, after any task's unlock and the entry it allows, and once the owner has returned from its lock, at most one task is inside if and only if the unlocking task was |
| MutexSteps.StrayUnlockFree | software/dev/kernel/mutex.c:116-139 | an unlock of a free mutex changes nothing, whoever calls |
| MutexSteps.StrayReached | software/dev/kernel/mutex.c:79-139 | one lock, an unlock by another task and a third task's lock: two tasks inside |
| MutexSteps.StrayReachedBetween | software/dev/kernel/mutex.c:79-139 | a lock, a second one that waits, an unlock; then a stray unlock before the second task returns, and a third task's lock: two tasks inside |
| Mutex.Mutex.constructor | software/dev/kernel/mutex.c:79-83 | a new mutex is free and no one waits |
| Mutex.Mutex.Lock | software/dev/kernel/mutex.c:85-114 | over the linked queue: of a free mutex the caller is the owner; else it is blocked behind those that wait, and owner and grants stay |
| Mutex.Mutex.Unlock | software/dev/kernel/mutex.c:116-139 | over the linked queue: the head of the queue owns the mutex and is ready and the others wait as they did, or the mutex is free |
| CrcBursts.BurstDetected | tools/sender/crc32.c:28-67 | two messages that differ, but only within four consecutive bytes, have different CRCs |
| CrcBursts.BurstOf32Bits | tools/sender/crc32.c:28-67 | two messages whose bits differ, but only within 32 consecutive places counted from the low bit, have different CRCs, wherever these places begin |
| CrcBursts.Window33 | tools/sender/crc32.c:10-37 | two windows of 33 bits leave the same register if and only if they are the same or differ by the polynomial |
| CrcBursts.WindowBits | tools/sender/crc32.c:28-37 | two different windows of up to 32 bits leave different registers |
| CrcBursts.MessageIsBits | tools/sender/crc32.c:28-37 | the register after a message is the register after its bits, each byte from its low bit on |
| CrcValues.Residue | tools/sender/crc32.c:10-67 | behind a message and its CRC, low byte first, the register is 0xDEBB20E3 for every message |
| CrcValues.NineDigits | tools/sender/crc32.c:18-67 | the CRC of the digits 1 to 9 is 0xCBF43926 |
| Crc32.UpdateConcat | tools/sender/crc32.c:28-37 | updating in pieces is updating with the whole |
| Crc32.UpdateInjective | tools/sender/crc32.c:28-37 | after the same message, registers that were different still are |
| CrcBursts.WordBits | tools/sender/crc32.c:18-37 | the n lowest bits of any word, taken in one by one, are n bit steps on its sum with the register, up to what is left of the word |
| Crc32.BitsLinear | tools/sender/crc32.c:18-26 | any number of bit steps distributes over the sum of registers |
| Crc32.BitsInjective | tools/sender/crc32.c:18-26 | and keeps different registers different |
| Crc32.TableStep | tools/sender/crc32.c:18-37 | one step through the table is eight bit steps |
| Crc32.Calculator.Init | tools/sender/crc32.c:18-26 | every table entry is eight bit steps of its index |
| Crc32.Calculator.Lookup | tools/sender/crc32.c:32-37 | one byte through the table is the bitwise register update |
| Crc32.Calculator.UpdateBuffer | tools/sender/crc32.c:32-37 | the table loop is the bitwise update with the whole buffer |
| Crc32.Calculator.Calculate | tools/sender/crc32.c:64-67 | the CRC of the buffer |
| Crc32.Calculator.FromChunks | tools/sender/crc32.c:40-59 | the CRC of the whole file, whatever chunks it is read in |
| DmaCopy.DmaMemcpy | peripheral/pico2VGA/vga.c:236-303 | on every path the memory is that of the in-order copy, or of memmove for a short copy; it is memmove whenever the destination is not above the source or the regions are apart |
| DmaCopy.ScrollUpGraphics | peripheral/pico2VGA/vga.c:215-233 | the frame moves up by one text row, the last row is zero, nothing outside the frame changes |
| DmaCopy.ForwardIsMoved | peripheral/pico2VGA/vga.c:236-303 | the in-order byte copy is memmove where the destination is not above the source or the regions are apart |
| DmaCopy.ForwardExactly | peripheral/pico2VGA/vga.c:236-303 | and only there: the two agree on every memory if and only if that holds |
| DmaCopy.OneWordIsForward | peripheral/pico2VGA/vga.c:270-290 | between equally aligned addresses a 32-bit unit is as good as its four bytes in order |
| DmaCopy.ForwardAdd | peripheral/pico2VGA/vga.c:270-303 | a copy made in two parts is the copy made in one |
| DmaCopy.LongCopy | peripheral/pico2VGA/vga.c:245-303 | byte mode, head, words and tail together are the in-order copy |
| DmaCopy.CopyWords | peripheral/pico2VGA/vga.c:281-298 | a word transfer between aligned addresses is the in-order copy of its bytes, overlapping or not |
| KeyboardFrames.StreamParsed | peripheral/pico2W/kbd_usb/kbd_usb.c:266-356 | a stream of frames and skipped bytes is parsed to the keys and flags that the frames mean |
| KeyboardFrames.EveryStreamParsed | peripheral/pico2W/kbd_usb/kbd_usb.c:266-356 | every byte stream is such a stream followed by an unfinished frame, and its keys are those of its frames |
| KeyboardFrames.ReportParsed | peripheral/pico2W/kbd_usb/kbd_usb.c:327-346 | a keyboard frame of any length gives the key of its second and fourth byte, taken as zero past its end |
| KeyboardFrames.Swallowed | peripheral/pico2W/kbd_usb/kbd_usb.c:273-281 | a 0x57 before another takes it along: what follows is parsed as if neither had been there |
| KeyboardFrames.ReportLost | peripheral/pico2W/kbd_usb/kbd_usb.c:273-346 | the key of a report comes through after one more byte if and only if that byte is not 0x57, unless behind its first byte the frame holds the opening of another one with five bytes to follow |
| KeyboardFrames.ShortReportFree | peripheral/pico2W/kbd_usb/kbd_usb.c:273-346 | no report of up to seven bytes holds such an opening, whatever its bytes |
| KeyboardFrames.FrameFreeSilent | peripheral/pico2W/kbd_usb/kbd_usb.c:266-356 | a stream without such an opening gives no key |
| KeyboardFrames.ReportSwallowed | peripheral/pico2W/kbd_usb/kbd_usb.c:273-346 | after 0x57 a report without that byte gives no key and changes nothing |
| KeyboardFrames.LetterLost | peripheral/pico2W/kbd_usb/kbd_usb.c:273-346 | a stream with the letter a that gives no key |
| KeyboardFrames.ModifierInForce | peripheral/pico2W/kbd_usb/kbd_usb.c:206-259 | over every stream the modifier in force is that of the last report with one, unless an empty report has come since; no other report touches it |
| KeyboardFrames.NoneInForce | peripheral/pico2W/kbd_usb/kbd_usb.c:206-259 | there is none in force if and only if the last such report is an empty one, or there was none |
| KeyboardFrames.PlainReportDecoded | peripheral/pico2W/kbd_usb/kbd_usb.c:250-258 | after any stream, a report without a modifier is decoded with the one in force |
| KeyboardFrames.ShiftStays | peripheral/pico2W/kbd_usb/kbd_usb.c:250-258 | a letter with shift and one without: both come out shifted |
| KeyboardFrames.CapsAlternates | peripheral/pico2W/kbd_usb/kbd_usb.c:236-244 | over every stream the caps commands alternate between on and off, and the caps state is the last one sent |
| KeyboardFrames.CapsOnce | peripheral/pico2W/kbd_usb/kbd_usb.c:236-244 | however often a held caps lock key is reported, it toggles once |
| KeyboardFrames.CapsKey | peripheral/pico2W/kbd_usb/kbd_usb.c:236-245 | from the bytes of its frame: a caps lock key that is not held turns the caps state from 0 to 2 and from any other to 0, with one command of that value; one that is held changes nothing, and neither gives a key |
| KeyboardFrames.ModifierBytes | peripheral/pico2W/kbd_usb/kbd_usb.c:224-258 | from the bytes of a frame: the modifier that each of the six modifier bytes decodes a key with |
| Keyboard.EveryRun | peripheral/pico2W/kbd_usb/kbd_usb.c:266-367 | in every run of arrivals and poll-then-take turns the keys delivered are those of the bytes consumed, parsed one at a time |
| Keyboard.Drained | peripheral/pico2W/kbd_usb/kbd_usb.c:266-367 | enough turns after the last byte, every key of the stream has been delivered once and in order, however it was split |
| Keyboard.FramesDelivered | peripheral/pico2W/kbd_usb/kbd_usb.c:266-367 | from the frames on the wire to the keys of the main loop |
| Keyboard.PollKeeps | peripheral/pico2W/kbd_usb/kbd_usb.c:266-356 | a poll loses no key if and only if none waits, no byte is there, or the next byte completes none |
| Keyboard.PollLoses | peripheral/pico2W/kbd_usb/kbd_usb.c:266-356 | a poll with a key waiting that loses it |
| Keyboard.Keyboard.Finish88 | peripheral/pico2W/kbd_usb/kbd_usb.c:206-259 | the flags and the pending key are those of the report in the buffer |
| Keyboard.Keyboard.KbdPoll | peripheral/pico2W/kbd_usb/kbd_usb.c:266-356 | parser state, pending key and remaining bytes are those of the poll on values |
| Keyboard.Keyboard.MainTurn | peripheral/pico2W/pds200.c:122-124 | a turn takes exactly the key of the bytes it consumes, and one that takes none has emptied the UART |
| Line.LineLaws | peripheral/pico2VGA/vga_graphos.c:52-101 | one pixel for each step of the major axis, both endpoints, each pixel within half a pixel of the ideal line and inside the box of the endpoints |
| Line.LineConnected | peripheral/pico2VGA/vga_graphos.c:84-100 | each pixel is one step of the major axis and at most one of the minor axis from the one before |
| Line.LineSymmetric | peripheral/pico2VGA/vga_graphos.c:65-73 | exchanging the endpoints draws the same pixels |
| Line.MinorIs | peripheral/pico2VGA/vga_graphos.c:78-99 | as long as the error term is in range, the moves made are the rounded quotient |
| Line.MinorNear | peripheral/pico2VGA/vga_graphos.c:78-99 | that quotient is within one half of the exact one |
| Line.DrawLine | peripheral/pico2VGA/vga_graphos.c:52-101 | the drawPixel calls are exactly those pixels in order, and no 16-bit variable overflows |
| Line.SqrtI32 | peripheral/pico2VGA/vga_graphos.c:182-196 | the floor of the square root of the argument's 32-bit pattern, without overflow |
| Numerals.SignedRoundTrip | software/libs/liborion_em_assembler/qprintf.c:272-348 | signed decimal with space fill, any width and either justification: atoi gives the number back if and only if it is not -2^31 |
| Numerals.UnsignedRoundTrip | software/libs/liborion_em_assembler/qprintf.c:272-348 | unsigned decimal: atoi wraps around to the number printed, for every 32-bit number |
| Numerals.HexRoundTrip | software/libs/liborion_em_assembler/atox.c:1-41 | hexadecimal with space fill: atox gives back every 32-bit number |
| Numerals.FieldLength | software/libs/liborion_em_assembler/qprintf.c:323-346 | the field is as long as its width or its digits with sign, whichever is longer |
| Numerals.ZeroFillHex | software/libs/liborion_em_assembler/atox.c:22-39 | hexadecimal with zero fill comes back if and only if the field has at most eight places or the number is zero |
| Numerals.ZeroFillDecimal | software/libs/liborion_em_assembler/qprintf.c:323-336 | signed decimal with zero fill comes back if and only if the number is not negative, or is not -2^31 and needs no fill |
| Numerals.MinusZero | software/libs/liborion_em_assembler/qprintf.c:289-293 | -2^31 prints as -0 and reads back as 0 |
| Numerals.NumeralReads | software/libs/liborion_em_assembler/qprintf.c:330-340 | a printed numeral consists of digits and stands for its number |
| Numerals.NumeralAt | software/libs/liborion_em_assembler/qprintf.c:330-340 | the character k places from the end of a numeral is that of `0123456789ABCDEF` for digit k of the number |
| Numerals.WrapEarly | software/libs/liborion_em_assembler/atoi.c:17-18 | wrapping at every digit gives the same as wrapping once at the end |
| PutNum.PutNum | software/libs/liborion_em_assembler/qprintf.c:272-348 | the field is written at the output pointer, which ends behind it, and nothing else changes; 32 digits are enough |
| PutNum.PutN2 | software/libs/liborion_em_assembler/qprintf.c:362-403 | by subtracting powers of ten, the decimal digits of every 32-bit number, least significant first |
| PutNum.SplitDigits | software/libs/liborion_em_assembler/qprintf.c:299-321 | the shift loops give the digits in radix 16, 8 and 2 |
| PutNum.RdArg | software/libs/liborion_em_assembler/qprintf.c:248-261 | the value, in 32 bits, and the end of the digits at a position |
| PutNum.WidthRead | software/libs/liborion_em_assembler/qprintf.c:248-261 | a width printed in decimal is the width read |
| PutNum.Atoi | software/libs/liborion_em_assembler/atoi.c:1-23 | the number that follows the blanks and one minus sign, wrapped once |
| PutNum.Atox | software/libs/liborion_em_assembler/atox.c:1-41 | the number of up to eight hexadecimal digits behind blanks and an optional 0x |

## Left out

- Regular-expression back-references: the code's treatment of empty groups and of a starred back-reference does not follow its own rules. A pattern with one has the outcome `Outside`, as has one that ends in a backslash or inside a range, one with a class count above 127, and one whose end mark would not fit the buffer.
- The tables `braslist` and `braelist`, which only back-references read.
- RegexMachine.Regex.ReExec: says nothing of a buffer left behind by an `Outside` outcome.
- Quicksort.Qsort: elements are array cells; that exchanging bytes exchanges elements is proved separately.
- Rand.Lmul: the signed correction of the high word, which the generator does not use, is not part of the model.
- KernelHeap.Heap.Kcalloc: asks that the 32-bit product is at most 0xfffffffc; above that the aligned request wraps to 0, and the source then clears bytes outside the block.
- KernelHeap.Heap.Kmalloc: a request above 0xfffffffc aligns to 0 and is served as such, as in the source; the block is then too small, as the contract states.
- KernelHeap.Heap.Kfree: only for null and pointers in use; the source does not detect others.
- Interrupt masking: each heap, scheduler and mutex call is one atomic step.
- Stacks, start frames, task arguments and identifiers, the context switch, `OS_TaskCreatePIC` and `OS_Init`: no effect on the ready ring beyond that of `OS_TaskCreate`.
- The endless loop at the end of `OS_TaskExit`, and the yield inside `Mutex_Lock`.
- `crypt()`: its packing of password and result into characters. `encrypt` is modelled for every selection table with entries in 1..32.
- Opening and reading the file in `crc32_from_file`, and its result when the file cannot be opened; chunks are a parameter.
- DMA, UART and pixel output: a transfer is the in-order copy of its units and is finished before the next access, the UART is a queue, and a drawn line is the sequence of its drawPixel calls.
- `get_kbd_key` and the keymaps: an arbitrary function of code, modifier and caps state. Codes above 127 index past the tables in the source.
- Keyboard.Keyboard.KbdPoll: bytes that arrive during a poll count as there before it or as arriving after it.
- Line.DrawLine: differences of coordinates that do not fit 16 bits, and coordinates at the very end of the 16-bit range, where the loop counter of the source wraps around and the loop need not end.
- Circles, rectangles and triangles, cursor and fonts: no further algorithm.
- PutNum.PutNum: the signed shifts and masks of the radix 16, 8 and 2 loops are division and remainder of the unsigned pattern.
- The rest of `_Qprintf` (format scanning, strings, characters).
- Floating point, `lsqrt.c`, network, file system and interactive helpers.
