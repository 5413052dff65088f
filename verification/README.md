# A Dafny model of the systems labs

This project models the algorithmic cores of a collection of systems-programming labs and
proves what they promise. Each lab has its own modules; code that changes state step by step
is modelled by methods and classes, concurrent code by state machines whose runs are all the
interleavings of its steps, and each is proved against a specification of its own.

**Hexadecimal digits of pi** (`Bits`, `Words`, `Wide`, `Newton`, `ModPow`, `Bbp`). 64-bit and
128-bit arithmetic out of 32-bit words with hand-made carries; division by a Newton-Raphson
reciprocal; Montgomery powers of two; and the distributed evaluation of the BBP series. The
reciprocal is exact for every divisor from 2 to 2^64 - 1, whatever the single-precision first
guess rounds to. Division is right for every dividend exactly for the divisors d with
d + (2^128 mod d) <= 2^64; for moduli up to 2^63, modPow2 is right except on the arguments
listed at `ModPow2Right`. The distributed sum equals the sequential reference for every chunk
size and every order of arrival as long as no term is lost to modPow2, which is for digits
below 2^59; the next fifteen digits come out wrong.

**An allocator** (`HeapModel` in `Heap.dfy`, `Alloc`, `AllocHeap`). First fit over two doubly
linked lists in one address space, with splitting and coalescing. Headers are a map from
addresses; `blocks` and `frees` are the two lists as sequences. A block reused without being
split is cut to the size asked for, so its slack drops out of the accounting: the sum of all
blocks and headers, plus `lost`, is what sbrk has given. From 2^63 - 56 bytes on the sum that
malloc passes to sbrk no longer covers the new block, and the heap does not survive.

**Parallel make** (`MakeGraph`, `MakePlan`, `MakeRule`, `MakeRun`, `MakeOutcome`, `MakeResult`). Cycle
detection and pruning of the dependency graph, then a coordinator and any number of workers over
two queues, as a state machine over atomic steps with every command outcome possible. When a failure
reaches the sentinel rule "" the coordinator stops at once, so nothing is claimed about rules
not yet queued then.

**A reusable barrier and a bounded queue** (`Barrier`, `BoundedQueue`). Lock regions are
atomic steps, each thread is awake or asleep at a place in the code, and sleepers may wake
spuriously. The barrier's broadcast is a step of its own, after the mutex is released; the
queue's is part of the lock region.

**A MapReduce pipeline** (`TextLines`, `Splitter`, `Decimal`, `WordCount`, `Reducing`).
Splitting a file at line boundaries, counting words by lines, and folding the printed
pairs back together. The portions make up every file, and the counts are those of one
sequential pass over it, exactly as long as length * (count - 1) stays below 2^64; past that
some bytes are in two portions. The head comment of `mapreduce/splitter.c` (line 26) says that
all chunks except the last end with a newline; the code does not always do this, and
`EndsWithNewline` says when it does.

**Three smaller machines.** `MiniFs`: reading a file through direct and indirect blocks.
`Upload`: a PUT request resumed as its bytes arrive. `Scheduler`: six scheduling schemes over
a sorted queue, with times as real numbers; the response time runs to the first dispatch unless
a job is dispatched, evicted before it has used any time, and dispatched again later.

`Basics` and `Seqs` hold what several modules need. A `char` of a text is one byte. Memory is
never short except where sbrk fails.

## Model

| member | source | states |
|---|---|---|
| Words.JoinIsBitwise | mapreduce/pi/pidigits.h:91-98 | shifting the high word up by 32 and or-ing in the low one gives `hi * 2^32 + lo`: no bits meet |
| Words.Split64 | mapreduce/pi/pidigits.h:100-108 | the two words join back to the original |
| Words.AddCarryOut | mapreduce/pi/pidigits.h:111-117 | sum and carry together are the exact sum of two 32-bit words; the carry is a single bit |
| Words.AddCarryInOut | mapreduce/pi/pidigits.h:118-127 | the same with a carry coming in, although the carry is recovered from two separate comparisons |
| Words.AddCarryOut64 | mapreduce/pi/pidigits.h:133-139 | sum and carry are the exact sum of two 64-bit words |
| Words.AddCarryInOut64 | mapreduce/pi/pidigits.h:140-149 | the same with a carry coming in |
| Words.SubBorrowOut | mapreduce/pi/pidigits.h:155-161 | difference and borrow together are the exact difference |
| Words.SubBorrowInOut | mapreduce/pi/pidigits.h:162-171 | the same with a borrow coming in |
| Words.MultFull64 | mapreduce/pi/pidigits.h:219-262 | high and low word are together the exact 128-bit product, for all factors |
| Words.SumPartials | mapreduce/pi/pidigits.h:245-255 | the four hand-carried result words are the weighted sum of the eight partial-product words; no carry is lost |
| Words.MultHi64 | mapreduce/pi/pidigits.h:187-215 | the high word of the product is its quotient by 2^64 |
| Words.CountLeadingZeros64 | mapreduce/pi/pidigits.h:276-321 | the binary search returns z with 2^(63-z) <= x < 2^(64-z), and 64 exactly for 0 |
| Words.HighestSetBit64 | mapreduce/pi/pidigits.h:323-331 | the result is the power of two 2^k with 2^k <= x < 2^(k+1) |
| Wide.Less | mapreduce/pi/pidigits.h:454-481 | comparing word by word orders the numbers the words stand for |
| Wide.WordsDetermineValue | mapreduce/pi/pidigits.h:436-440 | equal numbers have equal words, so word-wise equality is numeric equality |
| Wide.Add | mapreduce/pi/pidigits.h:552-579 | 128-bit addition is addition modulo 2^128 |
| Wide.Add32 | mapreduce/pi/pidigits.h:524-551 | adding a 32-bit value is addition modulo 2^128 |
| Wide.Sub | mapreduce/pi/pidigits.h:588-601 | 128-bit subtraction is subtraction modulo 2^128 |
| Wide.ShiftLeft | mapreduce/pi/pidigits.h:484-498 | left shift multiplies by 2^(s mod 128), modulo 2^128 |
| Wide.ShiftRight | mapreduce/pi/pidigits.h:499-513 | right shift divides by 2^(s mod 128), rounding down |
| Wide.Mult64 | mapreduce/pi/pidigits.h:606-611 | the product of two 64-bit words is exact in 128 bits |
| Wide.Mult128 | mapreduce/pi/pidigits.h:868-901 | the pair of results is the exact 256-bit product |
| Wide.Mult128Hi | mapreduce/pi/pidigits.h:903-912 | the upper half of the 256-bit product |
| Wide.Mult128Lo | mapreduce/pi/pidigits.h:914-925 | the product modulo 2^128, from three of the four partial products |
| Wide.Times64 | mapreduce/pi/pidigits.h:928-933 | multiplication by a 64-bit word modulo 2^128 |
| Newton.FirstGuess | mapreduce/pi/pidigits.h:974-984 | however the single-precision conversion and division round (relative error at most 2^-24 each), the first guess x0 has 0 < d*x0 <= 2^128 and 2^128 - d*x0 <= 2^108 |
| Newton.FloatQuotient | mapreduce/pi/pidigits.h:981-982 | for a numerator of (2^23 - 1)*k and a divisor from k to 2k, rounding the divisor and then the quotient, each within a relative 2^-24, gives an f with (2^23 - 2)*k <= f*divisor <= 2^23*k, before any floor is taken |
| Newton.StepResidual | mapreduce/pi/pidigits.h:985-987 | the residual recurrence E1 * 2^128 = E*E + d*t with 0 <= t < 2^128: a step never overshoots and squares the relative error |
| Newton.NewtonStep | mapreduce/pi/pidigits.h:985-987 | one 128-bit Newton step on words is one step of the recurrence |
| Newton.ResidualAfterThree | mapreduce/pi/pidigits.h:985-987 | after three steps the residual is at most d + 1 and below 2^64, for every divisor from 2 to 2^64 - 1 |
| Newton.RecipNewton | mapreduce/pi/pidigits.h:972-1005 | the corrected reciprocal is exactly floor(2^128 / d) for every 64-bit divisor d >= 2 |
| Newton.UncorrectedBounds | mapreduce/pi/pidigits.h:1007-1021 | the remainder before the correction is n mod d or n mod d + d, so one correction is enough |
| Newton.Divide | mapreduce/pi/pidigits.h:1007-1021 | quotient and remainder are right exactly when the remainder before the correction fits in 64 bits; otherwise the correction is missed, and the quotient is one short |
| Newton.DivMod | mapreduce/pi/pidigits.h:953-970 | division by 0 returns all ones, division by 1 is exact, any other division is right, or one short, under the conditions of Divide |
| Newton.DivisionExactness | mapreduce/pi/pidigits.h:1007-1021 | division by d is right for every 128-bit dividend exactly when d + (2^128 mod d) <= 2^64, which holds for all d <= 2^63; otherwise 2^128 - 1 is a failing dividend |
| Newton.LargestDividend | mapreduce/pi/pidigits.h:1007-1021 | the uncorrected remainder of 2^128 - 1 is d + (2^128 mod d) - 1 |
| ModPow.ErrorSquares | mapreduce/pi/pidigits.h:1030-1035 | a pass of the loop doubles the number of low bits on which x agrees with -1/m, up to the width of R |
| ModPow.FirstBits | mapreduce/pi/pidigits.h:1028-1029 | the starting value, which need not be below R, has three correct bits, since odd squares are 1 modulo 8 |
| ModPow.FixedPoint | mapreduce/pi/pidigits.h:1030-1035 | a pass leaves x unchanged exactly when all its bits are correct: the loop stops at the answer and nowhere else |
| ModPow.Inverse | mapreduce/pi/pidigits.h:1027-1036 | for odd m and R = 2^s, 1 <= s <= 63, the loop ends within six passes with x < R and m*x = -1 modulo R |
| ModPow.InverseUnique | mapreduce/pi/pidigits.h:1027-1036 | there is only one such x below R |
| ModPow.Reduction | mapreduce/pi/pidigits.h:1044-1081 | x + m*(x*minv mod R) is divisible by R, the quotient is below 2m and congruent to x / R |
| ModPow.MontgomeryMult | mapreduce/pi/pidigits.h:1044-1081 | the result is below m and, times R, congruent to the product of the factors |
| ModPow.ProductRepresents | mapreduce/pi/pidigits.h:1110-1118 | a Montgomery product stands for the product of what its factors stand for |
| ModPow.MontgomeryBit | mapreduce/pi/pidigits.h:1136-1144 | each round of the loop squares, and doubles when the bit is set, keeping the total below m |
| ModPow.FactorForm | mapreduce/pi/pidigits.h:1129-1133 | the Montgomery form of 2 is right while 2R fits in 64 bits, and 0 as soon as it does not |
| ModPow.MontgomeryModPow2 | mapreduce/pi/pidigits.h:1119-1149 | 2^p mod m for odd m < 2^62; 0 for odd m between 2^62 and 2^63, where (u64)2 << s overflows |
| ModPow.SquareAndShift | mapreduce/pi/pidigits.h:1093-1105 | the 128-bit words carry out one bit of the exponent on the number they stand for: square, remainder as the division leaves it, double, subtract |
| ModPow.CodePowRight | mapreduce/pi/pidigits.h:1093-1105 | when no division on the way misses its correction, the loop has 2^e mod m |
| ModPow.FirstMiss | mapreduce/pi/pidigits.h:1093-1105 | when no division for the exponent without its last bit misses, the result is right exactly when the last division does not miss either |
| ModPow.ExactNoMiss | mapreduce/pi/pidigits.h:1093-1105 | no division misses for a modulus by which division is exact |
| ModPow.EvenModulusFails | mapreduce/pi/pidigits.h:1083-1108 | 2^132 modulo the even number 0xcfffffffffffffee comes out wrong |
| ModPow.ModPow2 | mapreduce/pi/pidigits.h:1083-1108 | for moduli up to 2^63 the result is 2^p mod m exactly on the arguments ModPow2Right describes: not odd m > 2^62 with p >= 1, where it is 0, not p = 0 with m = 1, not p = 1 with m = 2; for all even moduli it is what the loop computes, and right when no division misses |
| ModPow.Fraction | mapreduce/pi/pidigits.h:1160-1170 | the result is the top 64 bits of the fractional part, floor(numerator * 2^64 / divisor) mod 2^64, exactly when the division does not miss its correction, as for every divisor by which division is exact |
| Bbp.SeriesInt | mapreduce/pi/BBP.py:71-101 | series_int for 64 bits is the series modulo 2^64: all terms of non-negative exponent, then the tail of vanishing quotients |
| Bbp.PlouffeInt | mapreduce/pi/BBP.py:103-114 | plouffe_int(digit, 64) combines the four series |
| Bbp.TermIsQuotient | mapreduce/pi/BBP.py:71-83 | a term, whose power is reduced modulo its base first, is floor(2^(64 + p) / base) modulo 2^64 |
| Bbp.SeriesIsQuotients | mapreduce/pi/BBP.py:71-101 | a series is the sum of floor(2^(64 + scalePow - 4 i) / (offset + 8 i)) over all i with a non-negative exponent, modulo 2^64 |
| Bbp.DigitsAreQuotients | mapreduce/pi/BBP.py:103-114 | the digits are the BBP sum 2^64 * 16^digit * (4/(8 i + 1) - 2/(8 i + 4) - 1/(8 i + 5) - 1/(8 i + 6)) / 16^i over i, each quotient rounded down, less the digit, modulo 2^64 |
| Bbp.IntTail | mapreduce/pi/BBP.py:84-97 | the reference tail loop, which compares before it advances the base, adds the whole tail |
| Bbp.TailLoop | mapreduce/pi/mapper_pi.cpp:45-56 | the 64-bit tail loop, which compares after it advances the divisor, adds the same tail |
| Bbp.ComputeTail | mapreduce/pi/mapper_pi.cpp:39-58 | the tail of a series from its scale and offset alone |
| Bbp.ComputeTerms | mapreduce/pi/mapper_pi.cpp:13-37 | for moduli up to 2^63: a chunk of terms, each 2^p mod base as a 64-bit fraction, summed modulo 2^64, where a term whose base is odd and beyond 2^62 counts only if p = 0 |
| Bbp.CodeSumSplit | mapreduce/pi/create_pi_input.py:37-51 | the terms of two consecutive chunks sum to the terms of their union, lost terms included |
| Bbp.Mapper | mapreduce/pi/mapper_pi.cpp:60-90 | the printed value of a line parses back to the signed contribution of the line modulo 2^64, the last line carrying the tail and the round-off term |
| Bbp.TermChunks | mapreduce/pi/create_pi_input.py:37-51 | for every positive chunk size the lines printed for one series add up to the signed series less the terms that modPow2 loses |
| Bbp.CreateInput | mapreduce/pi/create_pi_input.py:20-35 | the lines of all four series add up to the digits less the lost terms, and each line fits the 64-bit arithmetic |
| Bbp.DigitFits | mapreduce/pi/create_pi_input.py:20-35 | every modulus of every term stays in the range of the 64-bit code exactly for digits below 2^60 |
| Bbp.LosesFrom | mapreduce/pi/mapper_pi.cpp:13-37 | below that, the first series loses the terms from index 2^59 on and the third those from 2^59 on but the last; no others |
| Bbp.LosesNoTerm | mapreduce/pi/mapper_pi.cpp:13-37 | a digit loses no term exactly when it is below 2^59 |
| Bbp.FirstLosses | mapreduce/pi/mapper_pi.cpp:13-37 | the digits 2^59 + j with j up to 14 lose (4 * 16^(j+1) + 11) / 5 in all, 15 for 2^59 itself |
| Bbp.AnyOrder | mapreduce/pi/reducer_pi.cpp:24-34 | the sum of the parsed values does not depend on the order in which they arrive |
| Bbp.ReduceAll | mapreduce/core/reducer.c:30-49 | folding the values two at a time, each intermediate sum printed and parsed again, gives the sum modulo 2^64 |
| Bbp.PiJob | mapreduce/pi/BBP.py:103-114 | for every digit below 2^60, every positive chunk size whose chunks have fewer than 2^31 terms, and every order of arrival, the MapReduce result is plouffe_int(digit, 64) less the lost terms, modulo 2^64; below 2^59 it is plouffe_int(digit, 64), and beyond exactly when the lost terms vanish modulo 2^64 |
| Bbp.FirstWrongDigits | mapreduce/pi/mapper_pi.cpp:13-37 | for the fifteen digits from 2^59 on and every chunk size the result is below plouffe_int(digit, 64) by that much modulo 2^64, and so is wrong |
| HeapModel.LivePayloadsDisjoint | malloc/alloc.c:104-159 | the payloads of two different blocks in use do not overlap |
| HeapModel.WrittenApart | malloc/alloc.c:104-300 | a call that writes headers of blocks only, those listed before or after it, writes into no payload that is in use both before and after; Malloc, Free and Realloc each ensure this of themselves (HeadersApart) |
| HeapModel.FirstFit | malloc/alloc.c:122-131 | the position of the first free block that is large enough |
| AllocHeap.NewBlockFits | malloc/alloc.c:142-157 | what malloc passes to sbrk is a size_t sum read as an intptr_t; a block at the old break lies below the new one exactly when its header and payload have less than 2^63 bytes |
| AllocHeap.LargestRequest | malloc/alloc.c:142 | for malloc(2^64 - 1) sbrk is asked for 55 bytes, one less than a header |
| AllocHeap.NothingFits | malloc/alloc.c:122-131 | no free block of a good heap fits a request of 2^63 - 56 bytes or more |
| Alloc.InsertFree | malloc/alloc.c:31-37 | the block becomes the head of a doubly linked free list that is otherwise the same, and no other field of any header changes |
| Alloc.RemoveFree | malloc/alloc.c:38-56 | the free list is the old one without the block, in both directions |
| Alloc.Split | malloc/alloc.c:336-353 | nothing happens up to three headers of slack; otherwise a free block with the rest of the space follows the shortened block in both lists |
| Alloc.FindFit | malloc/alloc.c:122-131 | the walk stops at the first fitting block, or at the end when none fits |
| Alloc.TakeFit | malloc/alloc.c:132-140 | a fitting block is reused: the heap stays consistent, exactly one payload is added, and `lost` grows by what the unsplit block drops |
| Alloc.Extend | malloc/alloc.c:141-159 | a block at the old break is appended after the last one |
| Alloc.AbsorbNext | malloc/alloc.c:185-200 | the free right neighbour leaves both lists and its space and header go to the block |
| Alloc.AbsorbIntoPrev | malloc/alloc.c:201-213 | the block being freed goes to its free left neighbour |
| Alloc.Release | malloc/alloc.c:177-221 | freeing merges with free neighbours on both sides, keeps the heap consistent and removes exactly one payload |
| AllocHeap.Heap.Malloc | malloc/alloc.c:104-159 | for every size_t: the heap stays consistent unless header and payload together reach 2^63 bytes and sbrk grants what is left of the sum, when the returned block lies past the break; otherwise NULL only for size 0 or when sbrk refuses, changing nothing, or a payload of exactly the asked size at an address not in use: in the first free block that fits, else at the old break; `lost` grows by at most three headers, as Dropped says; no header is written inside a payload in use |
| AllocHeap.Heap.Free | malloc/alloc.c:177-221 | the heap stays consistent, exactly this payload disappears, memory and break stay, no header is written inside a payload that stays in use, and freeing NULL or a block already free changes nothing |
| AllocHeap.Heap.Realloc | malloc/alloc.c:272-300 | for every size_t, under the same condition as malloc: like malloc on NULL, like free on size 0; the same pointer comes back exactly when the old payload, or it and a free right neighbour, reach the size, whatever sbrk would say, with memory, break and `lost` unchanged and the payload as it was or grown by the neighbour and its header; otherwise the block is where malloc finds room, with the old contents copied, or NULL comes back and the old block stays; every other payload keeps its contents, and no header is written inside it |
| AllocHeap.NextIsRight | malloc/alloc.c:281-285 | in a consistent heap the `next` of a block is the block right after it in memory, NULL for the last |
| AllocHeap.CopyBytes | malloc/alloc.c:291-296 | memcpy between ranges that do not overlap copies the bytes and changes no others |
| AllocHeap.Run | malloc/alloc.c:104-300 | after any sequence of malloc, free and realloc calls and stores, the heap is consistent unless a request reached 2^63 bytes with its header; then each pointer held is a different payload of at least the asked size, no payload is leaked, every byte the client stored and has not freed or cut off is there, and at most three headers per call have dropped out of the accounting |
| AllocHeap.Perform | malloc/alloc.c:104-300 | one call of such a sequence keeps these properties, and every other payload held stays where it is with all its bytes |
| AllocHeap.StaysKnown | malloc/alloc.c:259-300 | a byte the client stored counts as known until its slot is freed or made smaller, or the byte is stored again |
| AllocHeap.StoreIsKnown | malloc/alloc.c:259-300 | a stored byte counts as known from the store on |
| MakeGraph.CheckCyclic | parallel_make/parmake.c:43-62 | true exactly when some walk from v ends in the visited set or in an earlier vertex of the walk; when false the visited set is restored |
| MakeGraph.TrappedIsCycle | parallel_make/parmake.c:64-72 | with an empty visited set that means a cycle is reachable |
| MakeGraph.DetectCycle | parallel_make/parmake.c:64-72 | true exactly when a cycle can be reached from the target |
| MakeGraph.MarkUseful | parallel_make/parmake.c:75-86 | marks the vertex and only vertices reachable from it, and leaves no newly marked vertex with an unmarked neighbour |
| MakeGraph.FindUsefulNodes | parallel_make/parmake.c:88-103 | what is left is exactly the part reachable from "", with all its edges |
| MakeGraph.DropUnmarked | parallel_make/parmake.c:96-102 | removing the unmarked vertices one by one leaves the marked ones with their edges untouched |
| MakeGraph.DropCyclicGoals | parallel_make/parmake.c:164-172 | exactly the goals that reach a cycle lose their edge from "" and are reported, though the graph changes between one search and the next |
| MakeGraph.Prepare | parallel_make/parmake.c:160-174 | the kept graph holds exactly what is reachable from the goals without a cycle, with its edges, and has no cycle |
| MakePlan.PreparedIsRunnable | parallel_make/parmake.c:174-192 | the kept graph, with antineighbours in any order, is a well-formed acyclic plan, so the results on runs apply to it |
| MakePlan.LevelsDrop | parallel_make/parmake.c:160-174 | a dependency reaches strictly fewer vertices than the rule itself: the levels that bound the runs |
| MakeRule.RuleValidToRun | parallel_make/parmake.c:106-121 | a rule has to run exactly when its target or a dependency is missing as a file, or a dependency is newer than the target |
| MakeRule.ExecRule | parallel_make/parmake.c:123-138 | commands run in order up to the first that fails; state 0 exactly when all succeed |
| MakeRule.CheckSatisfied | parallel_make/parmake.c:140-148 | state -1 exactly when the rule has to run and a command fails; no command runs when the rule is up to date |
| MakeOutcome.InitInv | parallel_make/parmake.c:174-207 | the state in which the threads start satisfies the invariant |
| MakeOutcome.AfterKeepsInv | parallel_make/parmake.c:150-251 | so does every state that a run of any length reaches from one that satisfies it |
| MakeRun.KeepsTake | parallel_make/parmake.c:150-157 | a worker pulling from `jobs` keeps the invariant |
| MakeRun.KeepsFinish | parallel_make/parmake.c:123-158 | a worker finishing a rule, with either outcome, keeps the invariant; which state the outcome gives is said by MakeResult.StepChecks |
| MakeRun.KeepsPassOn | parallel_make/parmake.c:156 | a worker passing NULL on keeps the invariant |
| MakeRun.KeepsListen | parallel_make/parmake.c:209-245 | the coordinator pulling from `checked` keeps the invariant |
| MakeRun.KeepsTell | parallel_make/parmake.c:219-244 | telling one parent of a success or a failure keeps the invariant: dependencies are counted once each, and a failed rule is never queued |
| MakeRun.KeepsShut | parallel_make/parmake.c:248 | pushing NULL after the break keeps the invariant |
| MakeRun.KeepsInv | parallel_make/parmake.c:150-251 | every step of every thread keeps the invariant |
| MakeRun.CountedTellSuccess | parallel_make/parmake.c:230-243 | satisfied_dependencies is the number of dependencies reported so far, so it reaches the total exactly when all of them have been heard with state 0 |
| MakeOutcome.QueuedAfterDependencies | parallel_make/parmake.c:123-158 | once a rule has entered `jobs`, every direct or transitive dependency was queued, ran and was heard with state 0 |
| MakeOutcome.RunningWasQueued | parallel_make/parmake.c:150-158 | a rule enters `jobs` at most once and is run by at most one worker |
| MakeOutcome.StepCost | parallel_make/parmake.c:150-251 | every step lowers the bound Cost |
| MakeOutcome.RunsAreBounded | parallel_make/parmake.c:150-251 | no run is longer than Cost of its first state, whatever the interleaving and the outcomes |
| MakeOutcome.Progress | parallel_make/parmake.c:150-251 | until parmake can return some thread can take a step: no deadlock, in the work or in the shutdown |
| MakeOutcome.FailureHasCause | parallel_make/parmake.c:219-229 | a rule marked as failed goes back to a rule that was queued, ran and failed |
| MakeOutcome.SuccessIsTotal | parallel_make/parmake.c:209-216 | when "" succeeded every rule of the kept graph was queued and succeeded |
| MakeOutcome.EveryRunEnds | parallel_make/parmake.c:209-251 | a run that cannot go on has the coordinator joining and every worker gone, every rule ever queued run to its end, and state 0 at "" exactly when all rules have state 0, otherwise -1 there and at some rule that ran |
| MakeResult.StepChecks | parallel_make/parmake.c:123-158 | a step leaves the state of every checked rule as it is; Finish gives its rule 0 when the commands succeeded and -1 when one failed, and no other step checks a rule |
| MakeResult.LoggedOnce | parallel_make/parmake.c:150-158 | along a run no rule finishes twice, nor one that was checked before |
| MakeResult.OutcomesDecide | parallel_make/parmake.c:123-158 | along every run from the start: a queued rule that has been checked has state 0 exactly when its Finish reported success, and -1 exactly when it reported failure |
| MakeResult.DependenciesSucceeded | parallel_make/parmake.c:230-243 | once a rule has entered `jobs`, the commands of every direct or transitive dependency have run and succeeded |
| MakeResult.LogIsActions | parallel_make/parmake.c:150-158 | a failure is logged exactly when the run has a Finish that reports one |
| MakeResult.SucceedsExactly | parallel_make/parmake.c:209-251 | a run that cannot go on has 0 at "" exactly when every Finish of the run reports success, and then the commands of every rule have run; otherwise it has -1 |
| Barrier.Fields.GateRegion | critical_concurrency/barrier.c:33-42 | the stretch from taking the mutex to the next wait or to the end is AtGate |
| Barrier.Fields.InnerRegion | critical_concurrency/barrier.c:44-47 | the stretch from waking at the inner loop is AtInner |
| Barrier.LeaversLeftValue | critical_concurrency/barrier.c:41 | the count that lets n threads leave is 2n - 1 exactly when n is positive and at most 2^31 |
| Barrier.InitInv | critical_concurrency/barrier.c:19-28 | barrier_init establishes the invariant |
| Barrier.KeepsPhase | critical_concurrency/barrier.c:30-53 | while a round gathers, count is n minus those waiting; while it empties, n plus those still to leave; arrivals and departures are counted exactly |
| Barrier.KeepsWakeups | critical_concurrency/barrier.c:35-51 | a sleeper whose condition holds always has a broadcast pending, although the broadcast comes after the unlock |
| Barrier.KeepsInv | critical_concurrency/barrier.c:30-53 | every step of any number of threads, spurious wake-ups included, keeps the invariant |
| Barrier.RoundsOfN | critical_concurrency/barrier.c:39-42 | times_used is the number of arrivals divided by n: exactly n arrivals lie between two increments |
| Barrier.ArrivalAfterAllLeft | critical_concurrency/barrier.c:35-38 | a thread passes the gate only when everyone of all earlier rounds has left |
| Barrier.DepartureAfterAllArrived | critical_concurrency/barrier.c:39-48 | a thread leaves only when all n of its own round have arrived |
| Barrier.SettledMeansRoundOpen | critical_concurrency/barrier.c:30-53 | when nothing but new calls can happen, of the calls made so far exactly the largest multiple of n has returned and the rest wait in the open round |
| Barrier.RunsSettle | critical_concurrency/barrier.c:30-53 | without new calls and spurious wake-ups the threads reach that state in a bounded number of steps: the barrier is reusable for ever |
| BoundedQueue.Queue.PushRegion | critical_concurrency/queue.c:62-85 | blocks exactly when the queue is full, otherwise appends the element to the linked list; broadcasts exactly when the queue was empty |
| BoundedQueue.Queue.PullRegion | critical_concurrency/queue.c:88-106 | blocks exactly when the queue is empty, otherwise takes the first element of the linked list; broadcasts exactly when the queue was full |
| BoundedQueue.Queue.constructor | critical_concurrency/queue.c:37-47 | a new queue is empty |
| BoundedQueue.InitInv | critical_concurrency/queue.c:37-47 | a new queue with no call under way satisfies the invariant |
| BoundedQueue.KeepsFifo | critical_concurrency/queue.c:62-106 | at every moment the elements that have entered are those pulled followed by those held, in order, and never more than max_size are held |
| BoundedQueue.KeepsSleepers | critical_concurrency/queue.c:62-106 | a sleeping consumer implies an empty queue and a sleeping producer a full one, although broadcasts come only on 0 to 1 and max to max - 1 |
| BoundedQueue.KeepsInv | critical_concurrency/queue.c:62-106 | every step of any number of threads keeps both, and the count of calls |
| BoundedQueue.PushStep | critical_concurrency/queue.c:62-85 | the machine takes for queue_push exactly the step of the linked list: same elements, asleep or returned, and everybody else woken exactly with the broadcast |
| BoundedQueue.PullStep | critical_concurrency/queue.c:88-106 | the same for queue_pull, with the element taken from the list |
| BoundedQueue.NothingMadeUp | critical_concurrency/queue.c:62-85 | over every run, each element has entered the queue or is in hand exactly as often as calls of queue_push were made with it |
| BoundedQueue.HoldsItsCall | critical_concurrency/queue.c:62-71 | a pushing thread has in hand the element of its own last call |
| BoundedQueue.EntersAndLeaves | critical_concurrency/queue.c:62-106 | in every run a push that does not block appends the element its thread called with, a pull that does not block takes the first element, and one that blocks changes nothing but its thread |
| BoundedQueue.SettledMeansServed | critical_concurrency/queue.c:62-106 | when nothing but new calls can happen, min(pushes, pulls) pulls have returned and only pushes beyond max_size wait |
| BoundedQueue.RunsSettle | critical_concurrency/queue.c:62-106 | without new calls and spurious wake-ups that state is reached in a bounded number of steps, with as many pulls and pushes returned as it says |
| Splitter.FindNextLine | mapreduce/splitter.c:107-115 | the scan stops just after the first newline, or at the end |
| Splitter.NextLine | mapreduce/splitter.c:107-115 | the position after the first newline at or after p: no newline lies between except the one just before it |
| Splitter.OffsetAtMost | mapreduce/splitter.c:99-105 | wrapped or not, an offset is at most the length, so the comparison with the length never acts |
| Splitter.OffsetsExact | mapreduce/splitter.c:99-105 | all offsets are the true quotients length * i / count exactly when length * (count - 1) < 2^64 |
| Splitter.WritePortion | mapreduce/splitter.c:117-153 | exactly the portion of this index is written, for every length and count |
| Splitter.PortionsAreTheFile | mapreduce/splitter.c:14-29 | while length * (count - 1) < 2^64 the portions of all indices, in order, are exactly the file |
| Splitter.PortionsExact | mapreduce/splitter.c:14-29 | for every length below 2^63 and count below 2^31: the portions of every file of that length make up the file exactly when length * (count - 1) < 2^64 |
| Splitter.CutsAtLines | mapreduce/splitter.c:124-136 | a portion starts at the start of a line or at the end of the file |
| Splitter.EndsWithNewline | mapreduce/splitter.c:26-28 | a non-empty portion other than the last ends with a newline exactly when the file has one at or after the nominal end; otherwise it is the rest of the file |
| Splitter.NewlinePromiseFails | mapreduce/splitter.c:26-28 | "abc" in two portions: the first portion does not end with a newline, against the comment |
| Splitter.OffsetsWrap | mapreduce/splitter.c:99-105 | the largest file there can be, of 2^63 - 1 bytes, in four portions: the third offset is behind the second |
| Splitter.PortionsKeepLines | mapreduce/splitter.c:117-153 | while the products do not wrap, the lines of the portions, in order, are the lines of the file: no line is broken |
| WordCount.ReplaceChars | mapreduce/mappers/wordcount.c:13-22 | in place, every character up to the NUL is replaced as Cleaned says and nothing behind it changes |
| WordCount.Strtok | mapreduce/mappers/wordcount.c:28-32 | the first word and the rest have together the words of the string; TokensAreRuns says what those are |
| WordCount.TokensAreRuns | mapreduce/mappers/wordcount.c:28-32 | the words of a string are exactly its maximal runs of characters other than spaces: there are increasing places where they stand, each between spaces or ends, and every other character is a space |
| WordCount.LineWordsAreRuns | mapreduce/mappers/wordcount.c:13-36 | the words of a line are the maximal runs between spaces and newlines of the line without its end, up to the first NUL, with a semicolon for each colon |
| WordCount.Mapper | mapreduce/mappers/wordcount.c:24-36 | one output line for each word of the C string |
| WordCount.RunMapper | mapreduce/core/mapper.c:13-34 | the output is that of the words of every line, newline and carriage return stripped, NUL ending a line early |
| WordCount.WordsLineByLine | mapreduce/core/mapper.c:18-30 | the words of the input are those of its lines, line after line |
| TextLines.LinesMakeText | mapreduce/core/mapper.c:18 | the lines joined are the text; each is non-empty and has no newline but at its end, where only the last may lack one |
| WordCount.WordsAreWords | mapreduce/mappers/wordcount.c:13-36 | a word is never empty and holds no space, colon, newline or NUL |
| Reducing.SplitKeyValue | mapreduce/core/utils.c:75-91 | key and value are the C strings that remain once the first ": " and the first newline are overwritten in place; without both marks the line is untouched |
| Reducing.ColonSpaceIsFirst | mapreduce/core/utils.c:75-81 | the key ends at the first ": " of the line |
| Reducing.SplitOutLine | mapreduce/core/utils.c:75-91 | what the mapper prints for a word parses back to the word and "1" |
| Decimal.RoundTrip | mapreduce/reducers/sum.c:11-18 | atoi reads back every integer that "%d" prints |
| Decimal.DigitsAreDecimal | mapreduce/reducers/sum.c:11-18 | what "%d" prints of a natural number is its decimal form: the places add up to the number, and only 0 starts with a zero |
| Reducing.Reducer | mapreduce/reducers/sum.c:11-18 | the printed result has the sum of the two values, within int |
| Reducing.FeedLine | mapreduce/core/reducer.c:34-49 | one line: malformed input changes nothing, a new key is stored, an old one is combined by the reducer |
| Reducing.RunReducer | mapreduce/core/reducer.c:23-49 | the datastore ends as the fold over all lines of the input |
| Reducing.LinesOfOutput | mapreduce/core/reducer.c:30 | getline gives back the lines the mappers wrote |
| Reducing.FoldCounts | mapreduce/core/reducer.c:30-49 | after any sequence of mapper lines the datastore holds exactly the words seen, each with its number of lines in decimal |
| Reducing.CountsNoOverflow | mapreduce/reducers/sum.c:11-18 | over any mapper lines, no addition leaves int exactly when no line comes 2^31 times or more |
| Reducing.DistributedIsSequential | mapreduce/core/reducer.c:23-49 | while length * (count - 1) < 2^64: for every interleaving of the output lines of all mappers the reducer reads them back and folds them to the word counts of one sequential pass; no addition leaves int exactly when every count is below 2^31 |
| Reducing.DistributedExact | mapreduce/core/reducer.c:23-49 | for every length below 2^63 and count below 2^31: the distributed counts are the sequential ones for every file of that length exactly when length * (count - 1) < 2^64 |
| MiniFs.BlockIsContents | finding_filesystems/minixfs.c:334-343 | a part of block i, wherever it is stored, is the corresponding part of the file |
| MiniFs.ByteOfContents | finding_filesystems/minixfs.c:323-343 | byte i * block + k of the file is byte k of the disk block that the inode, or its indirect block from the length of the inode table on, names for block i |
| MiniFs.ReadPlan | finding_filesystems/minixfs.c:366-368 | whole blocks and remaining bytes after the first block add up, and stay inside the two tables |
| MiniFs.ClipExact | finding_filesystems/minixfs.c:349-352 | the count is cut at the end of the file exactly when offset plus count does not wrap around 2^64; when it does, nothing is cut |
| MiniFs.RestFromIndirect | finding_filesystems/minixfs.c:369-384 | the rest of a read that starts in an indirect block |
| MiniFs.RestFromDirect | finding_filesystems/minixfs.c:385-400 | the rest of a read that stays in direct blocks |
| MiniFs.RestCrossing | finding_filesystems/minixfs.c:401-422 | the rest of a read that crosses from direct into indirect blocks |
| MiniFs.Read | finding_filesystems/minixfs.c:323-428 | the buffer receives exactly bytes off .. off + min(count, size - off) of the file and is otherwise unchanged, the offset advances by as many, and at or past the end nothing happens |
| Upload.Reader | nonstop_networking/common.c:76-98 | the bytes of the stream that arrived are stored in order from the given position, and nothing else changes; 1 only when the stream stalls, 0 when the buffer is full or the stream has ended |
| Upload.Job.TakeSize | nonstop_networking/server.c:227-240 | the size field fills across any number of calls |
| Upload.Job.FillChunk | nonstop_networking/server.c:243-246 | a chunk fills across any number of calls |
| Upload.Job.TakeFirst | nonstop_networking/server.c:242-272 | the first chunk creates the file or decides the upload |
| Upload.Job.TakeMore | nonstop_networking/server.c:274-303 | each further chunk is appended and may decide the upload |
| Upload.Job.Put | nonstop_networking/server.c:222-317 | a call either ends with everything consumed so far where it belongs, or decides the upload as the whole stream requires |
| Upload.Serve | nonstop_networking/server.c:222-317 | over any number of calls, with read failing, stalling and delivering short in any way, the decision and the file depend on the stream alone |
| Upload.AcceptedExactly | nonstop_networking/server.c:253-268 | judging by chunks accepts a body exactly when its length is the declared n, or n is a positive multiple of 1024 and the body is longer |
| Upload.DeclaredInBytes | nonstop_networking/server.c:227-236 | the declared size is the first eight bytes of the stream read as a little-endian number, missing ones as zeros |
| Upload.FinishedMeans | nonstop_networking/server.c:253-317 | success exactly under that condition, with the first n bytes stored; otherwise a size error and no file |
| Scheduler.CompareIsPreorder | savvy_scheduler/libscheduler.c:72-122 | each of the six comparers is antisymmetric in sign and chains |
| Scheduler.CompareDecides | savvy_scheduler/libscheduler.c:72-122 | a comparer does not put b before a exactly when, by scheme: a arrived no later; has no larger priority number; no more running time left; no later last dispatch; no longer running time; with equal keys, but for RR, a arrived no later |
| Scheduler.OfferSorted | savvy_scheduler/libscheduler.c:142 | offering a job keeps the queue sorted and every job in it once |
| Scheduler.Sched.NewJob | savvy_scheduler/libscheduler.c:126-143 | at any time, a new job is recorded with its priority, running time and arrival and zeros elsewhere, and queued; nothing else changes |
| Scheduler.Sched.QuantumExpired | savvy_scheduler/libscheduler.c:145-216 | at any time: under FCFS, PRI and SJF the evicted job goes on; otherwise a job is dispatched to which no other of queue and evicted job is to be preferred: earliest arrival, smallest priority number, least running time left or in all, or earliest last dispatch, with the earlier arrival among equals except under RR; the others stay queued and no other record changes; under RR the queue rotates exactly when nobody in it was dispatched after the evicted job, as is so while times go forward; start_time stays that of the first dispatch exactly when the job dispatched has not had the processor at another time without using any |
| Scheduler.Sched.JobFinished | savvy_scheduler/libscheduler.c:218-230 | turnaround grows by the time used plus the time queued, waiting by the time queued when the job used its running time, and response by start_time minus arrival, which runs to the first dispatch while start times are kept |
| Scheduler.RoundRobinLast | savvy_scheduler/libscheduler.c:108-114 | under RR an evicted job goes behind every queued one exactly when none of them was dispatched after it |
| Scheduler.FullRound | savvy_scheduler/libscheduler.c:180-199 | RR without arrivals, times not going back: whether or not a job is running at first, the i-th quantum goes to the job at place i modulo their number, the queue first and the running job behind it |
| Scheduler.IdleEviction | savvy_scheduler/libscheduler.c:187-190 | while times go forward, an eviction leaves a job without time used exactly when it had none and is evicted at the time of its dispatch |
| Scheduler.StartMoves | savvy_scheduler/libscheduler.c:187-197 | a job dispatched and evicted at once has its start_time moved by its next dispatch, whenever that is |
| Scheduler.ResponseMissesFirstDispatch | savvy_scheduler/libscheduler.c:194-196 | a job dispatched and evicted at 0 and dispatched again at 5 is counted with a response time of 5, although it was dispatched on arrival |

## Left out

- ModPow.ModPow2: odd moduli of 2^63 and above are excluded, because the code then shifts a 64-bit word by 64, which C leaves undefined; modulus 0 divides by zero. For even moduli beyond 2^63 nothing is claimed about results after an earlier miss, which later squarings may undo.
- ModPow.MontgomeryModPow2: the same moduli; a zero exponent, which modPow2 never passes on, has no highest bit.
- ModPow.Inverse: the number of passes is a ghost result, since the code does not count them.
- Newton.FirstGuess: rounding is any rounding with relative error 2^-24; denormal, infinite and signed-zero cases of single precision cannot arise in its range and are not represented.
- Bbp.PiJob: digits from 2^60 on are excluded, because their odd moduli reach 2^63, where a shift by 64 is undefined in C, and so are chunks of 2^31 terms and more, whose count the mapper reads into an int. Which digits between 2^59 + 15 and 2^60 lose terms that cancel modulo 2^64 is open. The text of sscanf and sprintf is represented by a sign and a magnitude. Division of integers is Python 2's, as the script is written for it.
- AllocHeap.Heap.Malloc: what C does once a header is written past the break is undefined and not modelled; that includes the final split, whose sum wraps too for the largest sizes. The break stays between its start and 2^63 and is moved by nobody else; the header is taken to have 56 bytes, and alignment is not modelled.
- AllocHeap.Heap.Free: the pointer is NULL or belongs to a block the list knows; the code has no check for others.
- AllocHeap.Run: headers live in a map and not in the bytes `mem`; HeadersApart says that the addresses of written headers are outside the payloads in use, but a program that overwrites a header is not represented: a store stays within the size asked for. calloc, whose product can overflow, is not part of the runs.
- MakeGraph.Prepare: the parser is represented by what it guarantees, a graph in which each neighbour is a vertex listed once and nothing depends on "".
- MakeOutcome.EveryRunEnds: system, stat and access are nondeterministic outcomes; the two queues are taken as the FIFO sequences that BoundedQueue proves them to be; there is at least one worker.
- Barrier.KeepsInv: n is from 1 to 2^31, beyond which LeaversLeftValue shows the count to be wrong; times_used is unbounded; the value barrier_wait returns, which is read after the unlock, is not modelled, and neither are the NULL checks.
- Splitter.WritePortion: mmap, fwrite and argument parsing are left out.
- Reducing.Reducer: sums outside int, undefined in C, are excluded; CountsNoOverflow says when they arise.
- Reducing.DistributedIsSequential: the pipes deliver whole output lines; the sorted printing of the datastore and the processes of mapreduce.c are left out.
- WordCount.Strtok: strtok, strstr, getline and the search tree of the C library are taken by their contracts.
- MiniFs.Read: off + count is below 2^64; beyond it nothing is cut (ClipExact) and the copy leaves the file, which C leaves undefined; a block number that was never assigned may be looked up, as the code does for a read that ends exactly with the direct blocks, but nothing is copied from it. minixfs.h is not part of this model, so block size and table lengths are parameters; paths, virtual files and access times are left out.
- Upload.Reader: hard read errors are left out, and so are the header line, the response, and the other verbs, whose resumption depends on socket timing.
- Upload.Serve: the file system holds one file per job; two uploads to one name at a time, and calls after the decision, are not modelled.
- Scheduler.Sched.QuantumExpired: the evicted job is the one dispatched last; libpriqueue is taken as a stable sorted queue. Floating-point rounding of times is left out.
- Scheduler.Sched.JobFinished: the finished job is the running one; finishing a queued job frees a record that the queue goes on reading.
- The CUDA, PTX and native 128-bit variants of pidigits.h, and the floating-point series of BBP.py: platform code and floating point.
- The averages of the scheduler: they would only add easy members.
- minixfs_write, chmod and chown, the virtual-memory simulation, the shell, chat, RPC and the remaining labs: their decisive helpers are not in the repository, or they would only add easy members.
