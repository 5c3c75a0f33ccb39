# A verified model of the course systems repository

This project models, in Dafny, the parts of the repository whose behaviour is hard to see from the code:
a lock-free queue, a Forth compiler with its machine, its numbers and its dictionary, a heap manager, a demand
pager and two barriers. `dafny verify dfyconfig.toml` checks it.

| files | what they model |
|---|---|
| `Queue`, `QueueInvariant`, `QueueSteps`, `QueueRuns`, `QueueLinearizable`, `QueueProgress`, `QueueCompletes` | the Michael-Scott queue of `AtomicInstructions/queue.c` as a step system of any number of threads |
| `QueueAlone` | the same queue as a class, run by one thread, with `destroy` |
| `ForthMachine`, `ForthCorrect` | the threaded-code machine of `myjf.S`, structured source programs, and the correctness of their code |
| `ForthCompiler`, `ForthHost` | the one-pass compiling words of `jonesforth.f`, as functions and as a class that patches memory in place |
| `ForthPrograms` | what some compiled words do, on a machine with the stack words of `myjf.S` |
| `ForthNumber` | printing and parsing of 64-bit numbers |
| `ForthDictionary` | dictionary headers in memory, CREATE, `:` `;` HIDDEN, FIND and >CFA |
| `HeapBlocks`, `Heap` | the laws of the block list, and `dmm.c` over one array of words with the headers inside it |
| `Fifo`, `Pager`, `PagerRun` | first-in first-out replacement, the fault handler of `paged_forth_lib.c`, and whole runs of loads and stores through it |
| `Barrier`, `BarrierRuns` | the barrier of `barrier_condition.c` as a step system |
| `BarrierFutex`, `BarrierFutexRounds`, `BarrierFutexReturns` | the barrier of `barrier_futex.c` with the futex calls as a step system, when its rounds are safe, and what holds for any number of threads |
| `Wrappers`, `Bytes`, `Sets` | an option type, the type of bytes, and two facts about finite sets |

## How the models read the source

**Queue.** Each shared read, each store, each compare-and-swap, each malloc and each free is one step of one thread
(`Queue.LocalStep`); threads interleave in any order. Memory is sequentially consistent. Nodes live in a type-stable
pool: a freed node stays readable, malloc may return it again, and line 177 then leaves its `next.counter` at the
value of its previous life. That is the setting in which the counters matter. A copy of a whole `pointer_t`, which the
code makes on lines 180, 182, 235, 237 and 239, is one read. The value a failed dequeue returns is `None` rather than
-99. The simulation runs backwards, because whether a dequeue that has read a NULL next will answer "empty" is only
decided by the checks that follow. The atomic run names, for each step of the run, what it stands for, so the places
where operations take effect are part of `Linearizable`. `EnqueueCompletes` and `DequeueCompletes` say what one call
does to the queue when the others stand still. `LockFree` is about two rounds of the loop because one round may be
lost to the thread's own swing of a lagging tail.

**Forth.** Memory is a map from byte addresses to 8-byte cells, the machine has the instruction pointer, the parameter
stack and the return stack, and one step is one NEXT (`ForthMachine.Step`). A primitive word is any partial function
on the parameter stack. Source programs are nests of words, literals, IF, ELSE, BEGIN/UNTIL, BEGIN/WHILE/REPEAT,
BEGIN/AGAIN and EXIT, with colon definitions that may call each other and themselves (`ForthMachine.Eval`). The
compiler theorem holds for programs that fail or never end too: `CompilerCorrect`, `SticksWhenFailing` and
`RunsWhenEndless` are equivalences. `ForthPrograms` fixes the primitives to eleven stack words of `myjf.S`, with
64-bit wrap-around, and says what compiled words leave for every argument. `DOCOL`, `BRANCH` and the others are told
apart by what their codeword holds.

**Numbers.** Words are integers from 0 to 2^64 - 1 with explicit wrap-around; `/MOD` is the signed `idivq` with a
cleared upper half, and its faults are modelled. `DotRLength` gives the exact condition under which `.R` prints the
width asked for, and `DotRWraps` a width for which it does not.

**Dictionary.** Memory is an array of bytes, addresses are indices into it and 0 is NULL. Names have 1 to 32
characters, which is what WORD delivers. With 32 characters the length byte is the hidden bit itself: FIND still
works, since `:` and `;` toggle it twice, but >CFA then takes the length for 0. `CodewordBehindHeader` says exactly
when it is right.

**Heap.** One array of 8-byte words with the headers in it: size in bytes, next, prev, fille, one word each. Addresses
are byte addresses with 0 for NULL. The ghost field `blocks` is the list of blocks that the headers spell out. The fit
test asks for a second header even when the block is then taken whole, so a block that fits exactly is passed over;
`NullInBytes` states what this means for the caller.

**Pager.** The page size and the number of pages allowed are parameters. A mapped page is its file, as with
MAP_SHARED, so the contents of a page (`Pager.Page`) are its file once it was loaded, and before that what the first
load will make of a file left over from before. `PagerRun` joins the pages to one array by address. Line 30 cuts the
distance of the fault to an `int`, so an address a multiple of 4 GiB away from the region is served as if it were in
it (`LetThrough`). `Read` and `Write` are the instruction that faults, the handler, and the instruction again. The
ghost field `peak` is the largest number of pages ever mapped at once, inside the handler included.

**Barriers.** `Barrier.ThreadStep` and `BarrierFutex.ThreadStep` have one step per line that touches shared state;
every thread calls `wait_at_barrier` with 0, 1, 2 and so on. Waking up for no reason is an action of its own. In
`barrier_futex.c` the add on line 82 and the load on line 83 are two steps, a failed assertion stops the whole
process, and the kernel may pick any of the queued threads to wake. The comment on line 76 of that file says that the
barrier cannot have opened when a thread is about to wait; that fails once two threads use it (`TwiceOpen`,
`ThenStops`). `SafeOnlyAlone` and `NeverStopsOnlyAlone` give the exact condition.

## Model

| member | source | states |
|---|---|---|
| QueueLinearizable.Linearizable | AtomicInstructions/queue.c:173-326 | for every run of any number of threads, with nodes freed and recycled, some run of an atomic FIFO queue started empty has the same calls, returns and answers in the same order, and in it every operation takes effect by a step of its own thread: an enqueue by its successful CAS on line 192, a dequeue by its successful CAS on line 274, an empty answer by its read on line 239 of a NULL next while head is still its snapshot |
| QueueLinearizable.BackwardRun | AtomicInstructions/queue.c:173-326 | every atomic state the simulation allows at the end of a run is reached by an atomic run that stands for it action by action, with the same history and the same places of effect |
| QueueLinearizable.BackwardStep | AtomicInstructions/queue.c:173-326 | one action of the system is matched, going backwards, by at most one atomic action that shows the same call or return; an operation takes effect only by a step of its own thread, at line 192, 274 or 239 as above |
| QueueLinearizable.LinkItems | AtomicInstructions/queue.c:192 | the linking CAS appends exactly the new value to the queue the memory holds |
| QueueLinearizable.UnlinkItems | AtomicInstructions/queue.c:272-274 | the unlinking CAS removes exactly the first value |
| QueueLinearizable.QuietFollows | AtomicInstructions/queue.c:239-247 | every other step leaves the queue as it is, and an empty answer is given for a queue that was empty when next was read |
| QueueProgress.NoAba | AtomicInstructions/queue.c:61-82 | if the target of a thread's CAS holds the expected pointer and counter, it has held them continuously since the thread's own read, however often nodes were freed and recycled meanwhile |
| QueueProgress.ReadBefore | AtomicInstructions/queue.c:180-239 | a snapshot a thread may still use in a CAS was read by an earlier step of its own |
| QueueProgress.NextEvolves | AtomicInstructions/queue.c:61-82 | a shared pointer keeps its value or its counter rises; a recycled node may lose its pointer but not its counter |
| QueueProgress.SuccessfulCas | AtomicInstructions/queue.c:192-274 | a CAS that succeeds acts in the right place: line 192 on the last node of the list, 202, 206 and 261 from the second-last node to the last, 274 on the dummy with tail past it and the value of line 272 still that of the second node |
| QueueProgress.OnlyCasChanges | AtomicInstructions/queue.c:174-324 | no other step changes head, tail or a node of the list |
| QueueProgress.RetryNeedsProgress | AtomicInstructions/queue.c:179-262 | a thread that comes back to the top of its loop within one call has seen another thread's CAS succeed since it left it, or its own swing of a lagging tail on line 202 or 261 |
| QueueProgress.LockFree | AtomicInstructions/queue.c:179-277 | lock-freedom: while a thread goes round its loop twice within one call, some enqueue or dequeue takes effect (a successful CAS on line 192 or 274) |
| QueueProgress.EffectBetweenSwings | AtomicInstructions/queue.c:192-274 | between two successful swings of tail, by whatever threads, some enqueue or dequeue takes effect |
| QueueCompletes.EnqueueCompletes | AtomicInstructions/queue.c:173-207 | total correctness of enqueue: from every reachable state, with the other threads anywhere in their calls, an idle thread that calls enqueue and is left alone is idle again after at most fourteen actions, whatever address malloc picks; it has returned, and the queue in memory is the old one with the value at its end |
| QueueCompletes.DequeueCompletes | AtomicInstructions/queue.c:231-326 | total correctness of dequeue, likewise: at most eighteen actions, the first value answered and gone, or empty exactly when there was none |
| QueueCompletes.FinishesAlone | AtomicInstructions/queue.c:173-326 | from any position inside a call, past malloc, whatever the thread has read before, it is idle again after at most twenty-seven steps alone |
| QueueCompletes.SetUpRun | AtomicInstructions/queue.c:174-180 | from malloc two steps lead to the top of the loop, with value and next pointer of the node set |
| QueueProgress.EnqueueAlone | AtomicInstructions/queue.c:179-206 | alone, enqueue needs one round of five steps, or two rounds (nine steps) when tail lags |
| QueueProgress.DequeueAlone | AtomicInstructions/queue.c:234-325 | alone, dequeue needs at most two rounds and answers the first item, or empty exactly when there is none |
| QueueRuns.Reachable | AtomicInstructions/queue.c:92-326 | every reachable state satisfies the invariant |
| QueueRuns.NextKeeps | AtomicInstructions/queue.c:173-326 | every step of every thread keeps the invariant |
| QueueRuns.InitialInv | AtomicInstructions/queue.c:92-100 | initialize establishes the invariant |
| QueueRuns.CanStart | AtomicInstructions/queue.c:92-100 | there is such a start for any threads and any address of the dummy |
| QueueRuns.HeadNeverOvertakesTail | AtomicInstructions/queue.c:240-277 | in every reachable state an acyclic NULL-terminated list starts at head and tail is its last or second-last node |
| QueueRuns.NodeConservation | AtomicInstructions/queue.c:173-326 | every node is in exactly one of: the list, the freed nodes, owned by one thread; a freed dummy is freed once |
| QueueRuns.QuiescentNodes | AtomicInstructions/queue.c:328-336 | with no thread inside a call every node is in the list or freed, and not both: the state destroy may be called in, and the invariant of the one-thread queue |
| QueueRuns.NoFault | AtomicInstructions/queue.c:173-326 | in every reachable state every thread has an action: an idle one may call either operation, malloc may give any address but NULL that is new or freed (and there is one), and inside a call no thread follows a pointer outside the pool or fails the assertions of lines 181 and 190 |
| QueueSteps.EnqueueRead | AtomicInstructions/queue.c:180-184 | what an enqueuer knows after each of its reads stays true: after line 183 its CAS can only succeed on the last node |
| QueueSteps.DequeueRead | AtomicInstructions/queue.c:235-240 | what a dequeuer knows after each of its reads |
| QueueSteps.CompareRead | AtomicInstructions/queue.c:145-169 | equalchecker may answer false for equal pointers; then next was NULL, or head has moved and the CAS of line 274 must fail |
| QueueSteps.CompareAnswers | AtomicInstructions/queue.c:145-169 | equalchecker answers true exactly when the two values and the two next pointers it reads agree, NULL counting as equal to NULL |
| QueueSteps.SetupStep | AtomicInstructions/queue.c:176-177 | setting up a node keeps the invariant although next.counter keeps its old value |
| QueueSteps.SwingTail | AtomicInstructions/queue.c:202-206 | a tail swing that succeeds moves tail from the second-last node to the last |
| QueueSteps.TailStep | AtomicInstructions/queue.c:202-261 | the three tail swings keep the invariant |
| QueueSteps.Link | AtomicInstructions/queue.c:190-192 | the linking CAS appends the node or changes nothing |
| QueueSteps.LinkStep | AtomicInstructions/queue.c:190-196 | after the linking CAS the node belongs to the list and no longer to its enqueuer |
| QueueSteps.Unlink | AtomicInstructions/queue.c:271-274 | the unlinking CAS drops the dummy and leaves tail inside the list |
| QueueSteps.UnlinkStep | AtomicInstructions/queue.c:271-277 | after the unlinking CAS the dummy belongs to the dequeuer alone |
| QueueSteps.FreeStep | AtomicInstructions/queue.c:324 | free hands over a node nobody else owns |
| QueueSteps.MallocKeeps | AtomicInstructions/queue.c:174 | a fresh or a recycled node keeps the invariant |
| QueueInvariant.StableEnqueue | AtomicInstructions/queue.c:179-206 | what an enqueuer knows survives the steps of the others |
| QueueInvariant.StableDequeue | AtomicInstructions/queue.c:234-277 | what a dequeuer knows survives the steps of the others |
| QueueAlone.LockFreeQueue.Initialize | AtomicInstructions/queue.c:92-100 | one dummy node, an empty queue |
| QueueAlone.LockFreeQueue.NewNode | AtomicInstructions/queue.c:174-177 | malloc and set-up change no other node |
| QueueAlone.LockFreeQueue.Enqueue | AtomicInstructions/queue.c:173-212 | run by one thread, enqueue appends the value, the loop ends, and the node used is the one malloc gave |
| QueueAlone.LockFreeQueue.EqualChecker | AtomicInstructions/queue.c:145-169 | with nobody else running equalchecker is pointer equality |
| QueueAlone.LockFreeQueue.Dequeue | AtomicInstructions/queue.c:231-326 | run by one thread, dequeue answers and removes the first value and frees the old dummy, or reports empty and changes nothing |
| QueueAlone.LockFreeQueue.Destroy | AtomicInstructions/queue.c:330-336 | destroy ends, frees each node of the list once and no node that was freed before, and leaves no node unfreed |
| ForthCorrect.CompilerCorrect | VirtualMemoryAllocator/forth/jonesforth.f:135-208 | for every structured program and every stack: the compiled cells first leave their own range at the cell behind it with stack d exactly when the source ends with d, and by EXIT exactly when the source returns with d; the return stack is as before |
| ForthCorrect.SticksWhenFailing | VirtualMemoryAllocator/forth/jonesforth.f:135-208 | the machine comes to a state inside the code from which it has no step exactly when the source fails |
| ForthCorrect.RunsWhenEndless | VirtualMemoryAllocator/forth/jonesforth.f:135-208 | the machine is inside the code after any number of steps exactly when no bound on rounds and calls is enough for the source |
| ForthCorrect.LeavesMeansEnds | VirtualMemoryAllocator/forth/jonesforth.f:135-208 | a machine that has left the code did so as the source says, and nowhere else |
| ForthCorrect.Simulate | VirtualMemoryAllocator/forth/jonesforth.f:135-208 | the machine follows the source step by step, also when the source fails or runs on |
| ForthCorrect.SimulateIf | VirtualMemoryAllocator/forth/jonesforth.f:145-155 | IF ... THEN |
| ForthCorrect.SimulateIfElse | VirtualMemoryAllocator/forth/jonesforth.f:145-165 | IF ... ELSE ... THEN |
| ForthCorrect.SimulateUntil | VirtualMemoryAllocator/forth/jonesforth.f:171-179 | BEGIN ... UNTIL, for any number of rounds |
| ForthCorrect.SimulateAgain | VirtualMemoryAllocator/forth/jonesforth.f:185-189 | BEGIN ... AGAIN, left only by EXIT |
| ForthCorrect.SimulateWhile | VirtualMemoryAllocator/forth/jonesforth.f:171-208 | BEGIN ... WHILE ... REPEAT, for any number of rounds |
| ForthCorrect.SimulateWord | VirtualMemoryAllocator/forth/myjf.S:36-56 | a call runs through DOCOL, the body and EXIT and comes back to the next cell |
| ForthCorrect.SimulateSmall | VirtualMemoryAllocator/forth/myjf.S:456-512 | LIT and EXIT |
| ForthCorrect.BranchStep | VirtualMemoryAllocator/forth/myjf.S:422-431 | BRANCH adds the offset found at its own cell; 0BRANCH pops a flag and branches on zero, or skips the offset |
| ForthCorrect.OnePath | VirtualMemoryAllocator/forth/myjf.S:36-56 | the machine has one behaviour: no path is longer than one that has left the code or is stuck |
| ForthCorrect.CallCorrect | VirtualMemoryAllocator/forth/myjf.S:52-56 | a defined word called from a cell returns to the next cell with the stack its body ends or leaves with, and only so |
| ForthPrograms.PrimitiveStep | VirtualMemoryAllocator/forth/myjf.S:36-39 | at a cell whose codeword is none of DOCOL, EXIT, LIT, BRANCH and 0BRANCH the machine goes to the next cell with exactly the stack the primitive gives, or not at all when it gives none |
| ForthPrograms.CallStep | VirtualMemoryAllocator/forth/myjf.S:52-56 | a defined word: its body comes next and the return stack holds the cell behind the call |
| ForthPrograms.Abs | VirtualMemoryAllocator/forth/jonesforth.f:268 | the cells of ABS, with NEGATE as its own definition, leave the magnitude of every 64-bit number |
| ForthPrograms.MagnitudeIsAbsolute | VirtualMemoryAllocator/forth/jonesforth.f:268 | that is the absolute value exactly when the number is not -2^63 |
| ForthPrograms.Count | VirtualMemoryAllocator/forth/jonesforth.f:272-280 | the cells of the loop of SPACES, counting in a stack cell instead of printing, make n rounds for n > 0 and none otherwise |
| ForthPrograms.Until0 | VirtualMemoryAllocator/forth/jonesforth.f:175-179 | a compiled BEGIN 1- DUP 0= UNTIL ends with 0 from every 64-bit number |
| ForthPrograms.AgainUntil0 | VirtualMemoryAllocator/forth/jonesforth.f:185-189 | a compiled endless loop is left by EXIT, to the return address, with 0 |
| ForthPrograms.Width | VirtualMemoryAllocator/forth/jonesforth.f:350-357 | the cells of the recursive UWIDTH, with a base from 2 to 36 in place of BASE @, leave the number of digits of every unsigned 64-bit number |
| ForthPrograms.AbsCompiled | VirtualMemoryAllocator/forth/jonesforth.f:145-155 | the compiler makes exactly those cells of the words of ABS |
| ForthPrograms.CountCompiled | VirtualMemoryAllocator/forth/jonesforth.f:171-208 | and of the WHILE loop |
| ForthPrograms.WidthCompiled | VirtualMemoryAllocator/forth/jonesforth.f:145-165 | and of UWIDTH |
| ForthCompiler.OnePass | VirtualMemoryAllocator/forth/jonesforth.f:145-208 | one pass of back-patching lays down exactly the structured code of every program, whatever was compiled before, and leaves the parameter stack as it was |
| ForthCompiler.OnePassIf | VirtualMemoryAllocator/forth/jonesforth.f:145-155 | IF ... THEN patches its 0BRANCH |
| ForthCompiler.OnePassIfElse | VirtualMemoryAllocator/forth/jonesforth.f:145-165 | ELSE patches the IF, THEN patches the ELSE |
| ForthCompiler.OnePassLoop | VirtualMemoryAllocator/forth/jonesforth.f:171-189 | UNTIL and AGAIN branch back to BEGIN |
| ForthCompiler.OnePassWhile | VirtualMemoryAllocator/forth/jonesforth.f:171-208 | REPEAT branches back to BEGIN and patches the WHILE |
| ForthCompiler.ThenLaid | VirtualMemoryAllocator/forth/jonesforth.f:151-155 | THEN stores the distance from the offset cell to HERE in that cell |
| ForthCompiler.ElseLaid | VirtualMemoryAllocator/forth/jonesforth.f:157-165 | ELSE compiles a BRANCH and patches the cell of IF |
| ForthCompiler.RepeatLaid | VirtualMemoryAllocator/forth/jonesforth.f:201-208 | REPEAT compiles the BRANCH back and patches the cell of WHILE |
| ForthCompiler.SourceToMachine | VirtualMemoryAllocator/forth/jonesforth.f:135-208 | what the one pass lays down, anywhere in memory, runs to exactly the stacks of the source |
| ForthHost.Host.If | VirtualMemoryAllocator/forth/jonesforth.f:145-149 | the word IF, run in place, does what the pure compiler says; WHILE (195-199) is the same code |
| ForthHost.Host.Then | VirtualMemoryAllocator/forth/jonesforth.f:151-155 | the word THEN |
| ForthHost.Host.Else | VirtualMemoryAllocator/forth/jonesforth.f:157-165 | the word ELSE |
| ForthHost.Host.Until | VirtualMemoryAllocator/forth/jonesforth.f:175-179 | the word UNTIL |
| ForthHost.Host.Again | VirtualMemoryAllocator/forth/jonesforth.f:185-189 | the word AGAIN |
| ForthHost.Host.Repeat | VirtualMemoryAllocator/forth/jonesforth.f:201-208 | the word REPEAT |
| ForthHost.Host.Interpret | VirtualMemoryAllocator/forth/myjf.S:984-1004 | in compile mode, with the word already looked up: a word is appended, a number after LIT, and an immediate compiling word runs |
| ForthHost.Host.CompileProgram | VirtualMemoryAllocator/forth/jonesforth.f:135-208 | feeding a program word by word leaves its structured code at the old HERE, all earlier cells and the stack unchanged |
| ForthNumber.RoundTrip | VirtualMemoryAllocator/forth/myjf.S:805-856 | for every 64-bit n, the least one included, and every base from 2 to 36, parsing the sign and digits printed for n gives n with nothing left over |
| ForthNumber.ParseNumber | VirtualMemoryAllocator/forth/myjf.S:805-856 | _NUMBER's loop computes the value of the longest prefix of digits and how many characters are left, with its one extra multiplication before a bad character |
| ForthNumber.ParsesValue | VirtualMemoryAllocator/forth/myjf.S:805-856 | a text that starts with digits, with or without a sign, parses to the value of the digits by their places modulo 2^64, times the base once more when something is left over |
| ForthNumber.DigitsReadBack | VirtualMemoryAllocator/forth/jonesforth.f:316-331 | the digits U. prints are digits of the base and have the value printed |
| ForthNumber.DigitRoundTrip | VirtualMemoryAllocator/forth/myjf.S:834-843 | digit to character and back |
| ForthNumber.DigitsOfBase | VirtualMemoryAllocator/forth/myjf.S:833-843 | the digits of a base are exactly the first so many of 0 to 9 and A to Z, for all bytes below 183; from there on the signed comparison takes every byte for a digit |
| ForthNumber.WidthIsLength | VirtualMemoryAllocator/forth/jonesforth.f:350-357 | UWIDTH is the number of digits U. prints |
| ForthNumber.DotRLength | VirtualMemoryAllocator/forth/jonesforth.f:377-404 | .R prints max(width, digits and sign) characters exactly when width less sign less digits does not wrap |
| ForthNumber.DotRWraps | VirtualMemoryAllocator/forth/jonesforth.f:377-404 | with width -2^63 the subtraction does wrap and .R would print 2^63 characters |
| ForthNumber.DotRReadsBack | VirtualMemoryAllocator/forth/jonesforth.f:377-404 | what .R prints is spaces and then a text that parses to the number |
| ForthNumber.DivModUnsigned | VirtualMemoryAllocator/forth/myjf.S:205-212 | in a base from 2 to 36 the signed division never faults on any 64-bit dividend and gives unsigned quotient and remainder |
| ForthNumber.DivModLaw | VirtualMemoryAllocator/forth/myjf.S:205-212 | for every dividend and divisor, negative ones included: the law of division with a remainder from 0 on, and a fault exactly for the divisor 0 or when no signed 64-bit quotient satisfies it |
| ForthNumber.Terminal.EmitUnsigned | VirtualMemoryAllocator/forth/jonesforth.f:316-331 | the recursive U. prints the digits in order |
| ForthNumber.Terminal.EmitDotR | VirtualMemoryAllocator/forth/jonesforth.f:377-404 | .R prints the pad, then the sign, then the digits |
| ForthDictionary.Dictionary.Find | VirtualMemoryAllocator/forth/myjf.S:866-903 | FIND returns the most recent entry of the name that is not hidden, and 0 if there is none |
| ForthDictionary.LatestWins | VirtualMemoryAllocator/forth/myjf.S:866-903 | a new definition hides the older ones of its name once it is visible, and not before |
| ForthDictionary.ShownAgain | VirtualMemoryAllocator/forth/myjf.S:1121-1137 | between : and ; the name still means the previous definition; after ; it means the new one |
| ForthDictionary.LengthIsRight | VirtualMemoryAllocator/forth/myjf.S:877-881 | the masked length byte lets through only visible entries of the right length |
| ForthDictionary.CodewordBehindHeader | VirtualMemoryAllocator/forth/myjf.S:910-919 | >CFA gives the cell behind the header exactly for names of fewer than 32 characters |
| ForthDictionary.Dictionary.Tcfa | VirtualMemoryAllocator/forth/myjf.S:910-919 | the same of the code, for any entry |
| ForthDictionary.Dictionary.Create | VirtualMemoryAllocator/forth/myjf.S:1028-1053 | CREATE adds one entry at HERE, linked to the old LATEST, and changes nothing below HERE |
| ForthDictionary.Dictionary.Hidden | VirtualMemoryAllocator/forth/myjf.S:1195-1199 | HIDDEN toggles one bit of one entry |
| ForthDictionary.ChainToggled | VirtualMemoryAllocator/forth/myjf.S:1195-1199 | toggling the hidden bit of an entry changes no other entry and no link |
| ForthDictionary.Dictionary.DefineAndLookUp | VirtualMemoryAllocator/forth/myjf.S:866-919 | after any list of definitions, FIND and then >CFA for a name of fewer than 32 characters lead to DOCOL, the body of its last definition and EXIT; a name not in the list is found as before |
| ForthDictionary.Dictionary.DefineAll | VirtualMemoryAllocator/forth/myjf.S:1121-1137 | after any list of definitions each of them has its visible entry in order, every body still reads as it was compiled, and memory below the old HERE is as it was |
| ForthDictionary.LastDefinitionWins | VirtualMemoryAllocator/forth/myjf.S:866-903 | the entry found after any list of definitions is that of the last one with the name |
| ForthDictionary.Dictionary.Colon | VirtualMemoryAllocator/forth/myjf.S:1121-1127 | : makes a hidden entry with DOCOL in its codeword |
| ForthDictionary.Dictionary.Semicolon | VirtualMemoryAllocator/forth/myjf.S:1133-1137 | ; appends EXIT and shows the latest entry |
| ForthDictionary.Dictionary.Define | VirtualMemoryAllocator/forth/myjf.S:1121-1137 | a whole definition adds one visible entry with codeword, body and EXIT behind its header, and leaves all earlier memory, so all earlier bodies, as it was |
| Heap.Heap.Dmalloc | HeapManagerSimulation/dmm.c:36-100 | dmalloc, on headers inside the memory, takes the first block that fits (whole or split); in bytes: NULL exactly when no stretch of the slab free of live blocks has the request, rounded up to a multiple of 8, and 64 bytes more; else the 8-aligned payload of one more live block, of the rounded request or 32 to 56 bytes more; no payload live before and after changes |
| Heap.Heap.TakeFirstFit | HeapManagerSimulation/dmm.c:51-99 | the walk finds the first fit |
| Heap.Heap.Take | HeapManagerSimulation/dmm.c:59-94 | taking a block whole or splitting it |
| Heap.Heap.Split | HeapManagerSimulation/dmm.c:63-80 | the stores of a split |
| Heap.Heap.DmallocInit | HeapManagerSimulation/dmm.c:222-242 | one free block over the whole slab |
| Heap.Heap.Dfree | HeapManagerSimulation/dmm.c:109-217 | dfree frees the block and joins it with its free neighbours, in every case of the source; no payload live before and after changes |
| Heap.Heap.Join | HeapManagerSimulation/dmm.c:118-183 | the case distinction of dfree |
| Heap.Heap.JoinPrev | HeapManagerSimulation/dmm.c:119-125 | only the block before is free |
| Heap.Heap.JoinNext | HeapManagerSimulation/dmm.c:129-172 | only the block behind is free, with or without a block before |
| Heap.Heap.JoinBoth | HeapManagerSimulation/dmm.c:144-156 | both neighbours are free |
| Heap.Heap.JoinLast | HeapManagerSimulation/dmm.c:176-182 | the last block joins the one before |
| Heap.ReplaceHeaders | HeapManagerSimulation/dmm.c:63-180 | replacing a stretch of blocks leaves a doubly linked chain of right headers that tiles the slab |
| Heap.TookBlock | HeapManagerSimulation/dmm.c:59-94 | after dmalloc's stores the memory holds the new block list |
| Heap.JoinedBlocks | HeapManagerSimulation/dmm.c:117-183 | after dfree's stores the memory holds the new block list |
| Heap.PayloadsApart | HeapManagerSimulation/dmm.c:36-217 | payloads are disjoint from each other and from all headers |
| Heap.ClientWritesKeepHeaders | HeapManagerSimulation/dmm.c:36-217 | a program that writes only to payloads of live blocks leaves all headers right |
| HeapBlocks.AllocGood | HeapManagerSimulation/dmm.c:54-94 | dmalloc keeps the slab tiled and coalesced |
| HeapBlocks.FreeGood | HeapManagerSimulation/dmm.c:117-183 | dfree keeps the slab tiled and leaves no two free neighbours |
| HeapBlocks.AllocLive | HeapManagerSimulation/dmm.c:54-94 | dmalloc adds one live block and keeps the others |
| HeapBlocks.FreeLive | HeapManagerSimulation/dmm.c:117-183 | dfree removes the freed block and no other |
| HeapBlocks.AllocThenFree | HeapManagerSimulation/dmm.c:36-217 | freeing what was just allocated restores the blocks exactly |
| HeapBlocks.FreeAllRestores | HeapManagerSimulation/dmm.c:109-217 | freeing all live blocks in any order restores the single initial block |
| HeapBlocks.StretchInBlock | HeapManagerSimulation/dmm.c:109-183 | any stretch free of live blocks lies inside one free block |
| HeapBlocks.NoFitMeansNoStretch | HeapManagerSimulation/dmm.c:53-99 | dmalloc finds no block exactly when no free stretch, headers included, has room for the aligned request and two headers |
| HeapBlocks.NullInBytes | HeapManagerSimulation/dmm.c:53-99 | the same for a request in bytes and free stretches of any alignment |
| HeapBlocks.AlignRounds | HeapManagerSimulation/dmm.h:27 | ALIGN gives the one multiple of 8 from the request up to 7 more, eight times the payload words |
| HeapBlocks.TakenPayload | HeapManagerSimulation/dmm.c:59-94 | the block taken has the rounded request as payload, or, taken whole, 32 to 56 bytes more |
| HeapBlocks.FirstFit | HeapManagerSimulation/dmm.c:53-54 | the first block, from k on, that passes the fit test |
| Pager.Pager.Handler | VirtualMemoryAllocator/paged_forth_lib.c:19-151 | a fault loads its page first in, first out, reports the page evicted, changes what no page holds, and never maps more than max_pages pages; the program ends when the distance from the start of the region, cut to 32 bits on line 30, is outside the region |
| Pager.LetThrough | VirtualMemoryAllocator/paged_forth_lib.c:30-34 | exactly the addresses that lie in the region (its end included) up to a multiple of 4 GiB are let through; so an address outside the region is let through exactly when a non-zero multiple moves it into the region |
| Pager.FarAddressIsServed | VirtualMemoryAllocator/paged_forth_lib.c:30-35 | the address 4 GiB above the start of the region is outside the region and yet is taken for the first byte of page 0 |
| Pager.Pager.VictimSlot | VirtualMemoryAllocator/paged_forth_lib.c:40-48 | the page the next eviction takes, the one loaded earliest, is in slot totcount mod max_pages |
| Pager.Pager.NamesAreMapped | VirtualMemoryAllocator/paged_forth_lib.c:112-133 | namearr names exactly the mapped pages, each once |
| Pager.Pager.FindOldest | VirtualMemoryAllocator/paged_forth_lib.c:43-48 | the scan finds the first slot of the greatest age |
| Pager.OldestIsGreatest | VirtualMemoryAllocator/paged_forth_lib.c:37-48 | the page loaded earliest has the greatest age and no other page has it |
| Pager.AgesAfterEviction | VirtualMemoryAllocator/paged_forth_lib.c:113-115 | the ageing counters after an eviction |
| Pager.AgesAfterFilling | VirtualMemoryAllocator/paged_forth_lib.c:127-142 | the ageing counters after a load into a free slot |
| Pager.EvictionKeeps | VirtualMemoryAllocator/paged_forth_lib.c:40-115 | what is resident after an eviction |
| Pager.FillingKeeps | VirtualMemoryAllocator/paged_forth_lib.c:122-149 | what is resident after a load into a free slot; the page was never loaded before, though line 125 does not ask |
| Pager.LoadKeepsContents | VirtualMemoryAllocator/paged_forth_lib.c:73-149 | the zero byte written on a first load hits no page that was loaded before |
| Pager.FirstContentsZero | VirtualMemoryAllocator/paged_forth_lib.c:91-126 | the region starts as zeros exactly if no page file is left over with a nonzero byte before its last one |
| Pager.Pager.Evict | VirtualMemoryAllocator/paged_forth_lib.c:41-115 | unmap, map, and pass the slot on |
| Pager.Pager.Fill | VirtualMemoryAllocator/paged_forth_lib.c:122-149 | map into the first free slot |
| Pager.Pager.Read | VirtualMemoryAllocator/paged_forth_lib.c:19-151 | a read through the handler returns what flat memory holds there |
| Pager.Pager.Write | VirtualMemoryAllocator/paged_forth_lib.c:19-151 | a write through the handler changes that byte of flat memory and no other |
| Pager.Pager.StoreByte | VirtualMemoryAllocator/paged_forth_lib.c:78-90 | a store to a mapped page changes one byte of its file |
| Pager.Pager.Execute | VirtualMemoryAllocator/paged_forth_lib.c:37-49 | an instruction whose pages fit completes; the handler is called once for each reported fault and for nothing else, on pages the instruction needs, none twice, so at most once per page |
| Fifo.FaultsAreMissing | VirtualMemoryAllocator/paged_forth_lib.c:40-149 | those faults include every needed page that was not there, and one that was there exactly when a needed page is among the oldest that must make way for the missing ones |
| Fifo.ResidentPageFaults | VirtualMemoryAllocator/paged_forth_lib.c:40-115 | a case where a needed page that was there faults although all needed pages fit |
| Pager.Pager.TooManyNeverFit | VirtualMemoryAllocator/paged_forth_lib.c:40-49 | an instruction that needs more than max_pages pages never has them all |
| Pager.Pager.constructor | VirtualMemoryAllocator/paged_forth_lib.c:153-181 | no page mapped, every slot free |
| PagerRun.Session | VirtualMemoryAllocator/paged_forth_lib.c:19-181 | a whole session, from the set-up on: any run of loads and stores answers what one flat array answers, and the pages the handler reports are the faults of first-in first-out replacement from an empty memory; if no more than max_pages pages are touched, none faults twice |
| PagerRun.Run | VirtualMemoryAllocator/paged_forth_lib.c:19-151 | the same for a run from any state of the pager: answers, final contents and the whole list of reports (address, page mapped, page unmapped) |
| PagerRun.ReportsAreFaults | VirtualMemoryAllocator/paged_forth_lib.c:112-149 | the pages reported are the faults of first-in first-out replacement |
| PagerRun.FewFaults | VirtualMemoryAllocator/paged_forth_lib.c:40-149 | a run that touches at most max_pages pages makes at most one report for each of them |
| PagerRun.StartsAsZeros | VirtualMemoryAllocator/paged_forth_lib.c:91-126 | the flat array starts as zeros exactly if no page file is left over with a nonzero byte before its last one |
| Fifo.NoPageFaultsTwice | VirtualMemoryAllocator/paged_forth_lib.c:40-115 | first-in first-out replacement, from any resident pages: no page faults twice in a stretch of accesses that touches at most max_pages pages |
| Fifo.FaultBound | VirtualMemoryAllocator/paged_forth_lib.c:40-115 | under that replacement such a stretch has at most one fault per page touched |
| Fifo.LoadLists | VirtualMemoryAllocator/paged_forth_lib.c:112-149 | the resident pages stay distinct |
| BarrierRuns.AssertionHolds | AtomicInstructions/barrier_condition.c:57 | the unlocked assertion never fails |
| BarrierRuns.NoEarlyReturn | AtomicInstructions/barrier_condition.c:52-87 | nobody returns from wait_at_barrier(i) before everybody has called it and counted itself on line 62 |
| BarrierRuns.RoundsClose | AtomicInstructions/barrier_condition.c:52-87 | any two threads are at most one round apart |
| BarrierRuns.WaitersAreCurrent | AtomicInstructions/barrier_condition.c:66-78 | a thread in the wait set waits for the open round, except between the increment on line 66 and the broadcast on line 68 |
| BarrierRuns.NeverStuck | AtomicInstructions/barrier_condition.c:61-85 | deadlock freedom: while some thread is not through its rounds some thread has a step that is no spurious wake-up |
| BarrierRuns.WhoGoesOn | AtomicInstructions/barrier_condition.c:52-87 | in every reachable state a thread can step exactly when it is not asleep, not through its rounds, and has the mutex free if it needs it; a sleeper can wake early at any time |
| BarrierRuns.RunsEnd | AtomicInstructions/barrier_condition.c:52-87 | a run of n threads over r rounds has at most n(14r + 13) steps and four more for each spurious wake-up |
| BarrierRuns.RunIsBounded | AtomicInstructions/barrier_condition.c:52-87 | the same from any state that satisfies the invariant |
| BarrierRuns.RunKeeps | AtomicInstructions/barrier_condition.c:52-87 | every run keeps the invariant |
| Barrier.StepKeeps | AtomicInstructions/barrier_condition.c:52-87 | every step keeps the invariant |
| Barrier.InitiallyInv | AtomicInstructions/barrier_condition.c:35-42 | initialize_barrier establishes it |
| Barrier.CountingKeeps | AtomicInstructions/barrier_condition.c:62-63 | threads_at_barrier counts the arrived threads |
| Barrier.ResettingKeeps | AtomicInstructions/barrier_condition.c:65 | when the count is reset every thread has arrived |
| Barrier.OpeningKeeps | AtomicInstructions/barrier_condition.c:66 | when the round opens nobody has arrived for the next |
| Barrier.BroadcastingKeeps | AtomicInstructions/barrier_condition.c:68 | the broadcast wakes exactly the threads of the round just opened |
| Barrier.MoveKeeps | AtomicInstructions/barrier_condition.c:57-85 | the other steps, and spurious wake-ups |
| BarrierFutex.NoLostWakeUp | AtomicInstructions/barrier_futex.c:85-104 | after every run, a thread asleep although its round was opened will be woken: some thread is between its increment on line 88 and its wake on line 92 |
| BarrierFutex.StepKeeps | AtomicInstructions/barrier_futex.c:75-111 | every step keeps that |
| BarrierFutex.WakesEverybody | AtomicInstructions/futex.c:55-59 | waking up to threadnum threads wakes all, whichever the kernel picks first |
| BarrierFutex.NobodyAsleep | AtomicInstructions/barrier_futex.c:92-101 | after either call of futex_wake nobody is asleep |
| BarrierFutexReturns.OpenedBeforeReturn | AtomicInstructions/barrier_futex.c:79-111 | in every run of any number of threads nobody has returned from wait_at_barrier(i) unless round i was opened |
| BarrierFutexReturns.FirstRoundWaits | AtomicInstructions/barrier_futex.c:79-111 | in every run of any number of threads nobody returns from wait_at_barrier(0), or opens round 0, before every thread has counted itself on line 82 |
| BarrierFutexReturns.OpenRoundReturns | AtomicInstructions/barrier_futex.c:94-105 | in every reachable state a thread that waits although its round is open can return within six steps, of itself and of the thread that has yet to wake it |
| BarrierFutexReturns.WaiterReturns | AtomicInstructions/barrier_futex.c:94-105 | if it is not asleep, within five steps of itself alone |
| BarrierFutexReturns.ClosedRoundSleeps | AtomicInstructions/barrier_futex.c:97 | a thread whose round is not open goes to sleep, and sleeps until a wake-up |
| BarrierFutexReturns.ThreadnumOpens | AtomicInstructions/barrier_futex.c:83-88 | a thread goes on to open the round exactly when the count it loads is threadnum |
| BarrierFutexReturns.AssertionsStop | AtomicInstructions/barrier_futex.c:79-110 | the assertions of lines 80, 109 and 110 end the process exactly when what was loaded is out of range |
| BarrierFutexRounds.SafeOnlyAlone | AtomicInstructions/barrier_futex.c:82-88 | every round opens at most once in every run exactly if there are fewer than two threads |
| BarrierFutexRounds.NeverStopsOnlyAlone | AtomicInstructions/barrier_futex.c:79-110 | the assertions on lines 80, 109 and 110 hold in every run exactly if there are fewer than two threads |
| BarrierFutexRounds.TwiceOpen | AtomicInstructions/barrier_futex.c:82-88 | for any number of threads from two on, a run in which two threads open round 0 |
| BarrierFutexRounds.ThenStops | AtomicInstructions/barrier_futex.c:79-80 | after which a thread that calls for the next round stops the process |
| BarrierFutexRounds.SoloRun | AtomicInstructions/barrier_futex.c:75-111 | what one thread alone keeps |

## Left out

Queue:
- weak memory ordering, wrap-around of the 64-bit counters, and malloc returning NULL (which aborts on line 175)
- a `pointer_t` copy torn into its two words; a torn `next` with reused nodes is not covered
- an allocator that unmaps or reuses freed nodes for other data

Forth:
- KEY, WORD and EMIT buffering, switching to and from the host, and the commented-out part of `jonesforth.f`
- words that touch the return stack or the instruction pointer themselves (`>R`, `R>`, `RSP!`, LITSTRING, EXECUTE), and UNLESS and RECURSE, which add a NOT and a call
- memory and I/O in the compiler theorem: a primitive there maps parameter stacks to parameter stacks, so every compiled word that reads or writes memory (`@`, `!`, `C@`, `C!`, `,`, HERE and the like) or does I/O (EMIT, KEY) is outside it; stack underflow and reads outside the image stop the machine
- ForthHost.Host.Interpret: takes words already looked up and classified; WORD, FIND, the test of the IMMEDIATE flag and _NUMBER on lines 956-982 are not in it (FIND and _NUMBER are modelled on their own)
- ForthPrograms.Width: has a fixed base where UWIDTH fetches BASE from memory
- addresses and offsets of the compiler model are unbounded integers
- the address arithmetic of dictionary entries above 2^64, and a HIDE of a name that is not there

Heap:
- the mmap call and its failure, `print_freelist`, and the branch on `testit`, which never equals a block
- sizes above 2^64 - 40, for which ALIGN or the fit test would overflow
- freeing a pointer twice, or one that dmalloc did not return

Pager:
- signals and the signal stack, file descriptors, `fdarr`, and exits on failed system calls
- Pager.Pager.Handler: does not serve a fault whose distance, cut to 32 bits, is the first byte behind the region (line 31 lets it through because it compares with `>`) or lies in a page that is mapped (the second fault at an address 4 GiB away); line 35 then names a page that does not exist or is there already
- a second call of `initialize_forth`, which does not reset `totcount`, and more than 2^31 faults

Barriers:
- failures of the pthread calls, and overflow of the counters
- what `barrier_futex.c` guarantees on the runs in which only one thread sees `threadnum`; its rounds are shown unsafe for two threads or more

The rest of the repository (the JOS exercises, the unit-test framework, the examples, the printing and timing drivers) has
no part here: it would add only simple members.
