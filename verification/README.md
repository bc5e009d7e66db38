# Verification model of the Gradido login server

This project models the parts of the login server that carry an algorithm or a protocol, and proves
what they are meant to guarantee. `dafny verify dfyconfig.toml` checks all of it.

- **Random numbers.** `Gf2Ring`, `LaggedFibonacci` and `Seeding` hold Knuth's subtractive generator
  (The Art of Computer Programming, volume 2, section 3.6): the block routine, the stream on top of it, and
  the seeding routine, whose in-place passes are shown to square a polynomial modulo z^100 + z^37 + 1.
  `WholeWords` says what seeding does to whole words, without the routine, and that only one state fits.
  `Separation` says exactly when the streams of two seeds meet: their low bits are one sequence of period
  2^100 - 1, entered at places that are far apart around it. That the period is no shorter is proved in
  `PowersOfZ`, from powers of z that `PeriodCertificates` computes in the words of `WordPolynomials`, and
  from the prime factors in `Primes`.
- **Tasks.** `TaskScheduler` has the scheduler at the level of whole calls, over any acyclic graph of
  tasks that may lead to and fro between the program's two schedulers, with the theorem about which tasks
  remain unrun when all workers are idle, and the one for both schedulers together. `SchedulerSteps` has
  the same scheduler as a protocol in which every lock-protected step of every thread may interleave, and
  `SchedulerQuiescence` carries the theorem about unrun tasks over to overlapping calls.
- **User keys.** `UserKeys` has login, password changes and recovery of the private key from backups.
- **Passphrases.** `Passphrases` reads, prints and translates phrases and feeds the key hash; `Mnemonic`
  takes the text of a word list apart and builds its look-up tables. The rows for these classes cite
  `src/cpp/Crypto/mnemonic.h` and `src/cpp/Crypto/Passphrase.h`, and name the lines of the bodies.
- **Sorted hash list and task observer.** `HashList`, its client `TaskObserver`, and the string hash in
  `StringHash` with which entries are addressed.
- **Memory bins.** `MemoryPool` has the six stacks of reusable bins and the manager above them.
- **Transactions of a session.** `SessionTransactions` has the list from which transactions are offered,
  signed, rejected and dropped.
- **Connection strings.** `ConnectionString` takes them apart, `ConnectionManager` puts them together and
  opens them.
- `Strings`, `Sequences` and `Wrappers` hold what several of these share.

Objects that the program updates in place are classes here, and their methods are proved against
functions on values. Where the program falls short of what one would expect, the model keeps it as it is,
and a lemma gives the exact condition:

- the streams of two seeds are 2^70 - 1 numbers apart at least, and two seeds attain it, where the source
  promises 2^70 (`Separation.StreamsSeparated`, `Separation.SeparationAttained`);
- a task can be submitted twice, because its flag is set after it was handed on
  (`SchedulerSteps.SubmittedOnceExactly`, `SchedulerSteps.TaskSubmittedTwice`);
- a signal that reaches a worker between two waits is lost, and its task with it
  (`SchedulerSteps.StrandedExactly`, `SchedulerSteps.FirstSignalLost`);
- a ready task that is appended between a worker's last look at the list and its joining the free queue is
  forgotten (`SchedulerQuiescence.StepAttends`, `SchedulerQuiescence.ReadyTaskForgotten`);
- a task whose parent finishes on the other scheduler stays pending until the list is checked from outside
  (`TaskScheduler.Quiescence`, `TaskScheduler.WaitsForCheck`), and one check takes one task only
  (`SchedulerQuiescence.StepAttends`);
- a check from outside while no worker is free puts the first ready task behind all others
  (`TaskScheduler.CheckPostpones`); without checks, tasks without parents are run in the order of
  submission (`TaskScheduler.ServeInOrder`);
- a first password whose hash is zero loses the pair that was set before it (`UserKeys.Register`);
- setting a key pair without its private half would break the promise of the decrypt flag
  (`UserKeys.User.SetGradidoKeyPair`); the interface permits it, and no caller of the program does it;
- a new password whose hash equals the old one's, or is zero, does not take effect (`UserKeys.ChangeKeepsExactly`);
- a phrase with an unknown word is refused by one key class and hashed as far as it was read by the other
  (`Passphrases.CreateKeyPairEd25519`, `Passphrases.UnknownWordIgnored`);
- the observer forgets tasks of one type when the last one of another type ends
  (`TaskObserver.ExactUnlessLost`, `TaskObserver.LossHappens`);
- counting the transactions of a session leaves some with errors (`SessionTransactions.AllBadGo`,
  `SessionTransactions.OneBadStays`);
- strings that are no words are found in a word list (`Mnemonic.FoundExactly`);
- values with semicolons or outer white space do not survive the connection string
  (`ConnectionManager.RoundTripExactly`), and values with a zero byte are cut when the session is opened
  (`ConnectionManager.OpensExactly`).

`Task::isAllParentsReady` submits parents that were never submitted, so the theorem about idle workers
needs no case for them at the level of whole calls.

## Model

| member | source | states |
|---|---|---|
| `LaggedFibonacci.Generator.RanArray` | `src/cpp/Crypto/DRRandom.cpp:36-49` | For every n of at least 100, the block begins with the state on entry, and block and new state together are one run in which every number r_k from the 100th on has 0 <= r_k < 2^30 and r_k + r_(k-37) - r_(k-100) divisible by 2^30; nothing behind the block changes. |
| `LaggedFibonacci.Generator.FillBlock` | `src/cpp/Crypto/DRRandom.cpp:45-46` | The two filling loops write numbers 0 to n-1 of the recurrence. |
| `LaggedFibonacci.Generator.RefreshState` | `src/cpp/Crypto/DRRandom.cpp:47-48` | The hand-unrolled refresh leaves numbers n to n+99, although its second half reads cells that the first half has just overwritten. |
| `LaggedFibonacci.NumbersFollow` | `src/cpp/Crypto/DRRandom.cpp:26-49` | On the numbers themselves: X_k is in the range, and X_k + X_(k-37) - X_(k-100) is a multiple of 2^30. |
| `LaggedFibonacci.OnlyContinuation` | `src/cpp/Crypto/DRRandom.cpp:36-49` | Only one run of numbers follows 100 given ones in this way, so the equation determines every number. |
| `LaggedFibonacci.Restart` | `src/cpp/Crypto/DRRandom.cpp:36-49` | A sequence that is started again from the state after n numbers is the rest of the first sequence. |
| `LaggedFibonacci.BlocksCompose` | `src/cpp/Crypto/DRRandom.cpp:36-49` | Blocks of n and then m numbers are one block of n + m numbers, with the same final state. |
| `LaggedFibonacci.ModDiffOdd` | `src/cpp/Crypto/DRRandom.cpp:26` | On lowest bits, subtraction modulo 2^30 is addition in the two-element field. |
| `LaggedFibonacci.Generator.Core2Rand` | `src/cpp/Crypto/DRRandom.cpp:245-255` | If number n of a sequence is next, exactly that number is returned and number n + 1 is next, whether or not the buffer has to be refilled: one of the 100 at the start, and from then on the difference modulo 2^30 of the numbers 100 and 37 places before, which is in the range and unique. |
| `LaggedFibonacci.Generator.Draw` | `src/cpp/Crypto/DRRandom.cpp:245-255` | n calls return the next n numbers of the sequence in order, across any number of refills: the first ones of a state are the state, and all later ones satisfy the equation. |
| `Gf2Ring.DoubleRecurrent` | `src/cpp/Crypto/DRRandom.cpp:77-81` | If y(n+100) = y(n+37) + y(n) for all n, every second element of y satisfies the same equation: why squaring can be done by spreading. |
| `Gf2Ring.DotReduce` | `src/cpp/Crypto/DRRandom.cpp:79-81` | Reducing a polynomial modulo z^100 + z^37 + 1, from the top cell down, does not change its inner product with any such sequence. |
| `Gf2Ring.DotSeparates` | `src/cpp/Crypto/DRRandom.cpp:79-81` | Two ring elements with the same inner products against all such sequences are equal. |
| `Gf2Ring.SpreadAndReduceIsSquare` | `src/cpp/Crypto/DRRandom.cpp:77-81` | Spreading the coefficients to even places and reducing gives p times p in the ring, with multiplication defined on its own as the sum of shifted copies. |
| `Gf2Ring.MulOfPowers` | `src/cpp/Crypto/DRRandom.cpp:77-88` | z^a times z^b is z^(a+b). |
| `Gf2Ring.SquareOfPower` | `src/cpp/Crypto/DRRandom.cpp:77-88` | Squaring z^e, and then multiplying by z or not, gives z^(2e+1) or z^(2e). |
| `Gf2Ring.MulZInjective` | `src/cpp/Crypto/DRRandom.cpp:82-86` | Multiplication by z loses nothing. |
| `Seeding.SpreadInPlace` | `src/cpp/Crypto/DRRandom.cpp:78` | The in-place loop, downwards over one array, moves cell j to cell 2j for every j and clears the odd cells. |
| `Seeding.ReduceInPlace` | `src/cpp/Crypto/DRRandom.cpp:79-81` | The in-place loop performs the 99 reduction steps in order, all indices in bounds. |
| `Seeding.ShiftInPlace` | `src/cpp/Crypto/DRRandom.cpp:82-86` | The in-place cyclic shift with its correction of cell 37. |
| `Seeding.PassSquares` | `src/cpp/Crypto/DRRandom.cpp:77-88` | One pass maps the parity polynomial p of the first 100 cells to p*p, or to z*p*p for an odd seed bit, and keeps every cell of a buffer in [0, 2^30). |
| `Seeding.InnerReduce` | `src/cpp/Crypto/DRRandom.cpp:79-81` | On whole words: the reduction from the top cell down keeps, modulo 2^30, the inner product with every sequence y(n+100) = -y(n+37) - y(n). |
| `Seeding.PassOnWords` | `src/cpp/Crypto/DRRandom.cpp:77-88` | A pass turns the polynomial p of the first 100 words into p(z^2) modulo 2^30 and z^100 = -z^37 - 1, and for an odd seed bit shifts it by one with its correction of cell 37. |
| `WholeWords.OneSquare` | `src/cpp/Crypto/DRRandom.cpp:77-81` | There is only one such square: its inner products with those sequences fix every word. |
| `Seeding.AllPassesInRange` | `src/cpp/Crypto/DRRandom.cpp:77-88` | The main loop keeps every cell in [0, 2^30). |
| `Seeding.RunPasses` | `src/cpp/Crypto/DRRandom.cpp:77-88` | The main loop ends after exactly bitlen(seed mod 2^30) + 69 passes, and does what the passes do one after the other. |
| `Seeding.AllPassesRaise` | `src/cpp/Crypto/DRRandom.cpp:77-88` | If the buffer holds z^e when the loop starts, it holds z raised to e with the seed bits and the zero bits appended when it ends. |
| `Seeding.RaiseClosedForm` | `src/cpp/Crypto/DRRandom.cpp:77-88` | That exponent in closed form: 2^69 times the number that is written as e and the seed bits, lowest first. |
| `Seeding.BootstrapBuffer` | `src/cpp/Crypto/DRRandom.cpp:70-76` | With w = ((seed + 2) mod 2^30) / 2, cell 0 is 2w, and every cell j below 100, less the 1 in cell 1, is twice a 29-bit number that equals w * 2^j modulo 2^29 - 1 and is zero only if w is; the other 99 cells are whatever they were. |
| `WholeWords.OneBootWord` | `src/cpp/Crypto/DRRandom.cpp:71-75` | Only one word is so, whatever the seed and the cell. |
| `Seeding.BootWordIs` | `src/cpp/Crypto/DRRandom.cpp:71-75` | Doubling and wrapping around within 29 bits gives these words. |
| `Seeding.BootElement` | `src/cpp/Crypto/DRRandom.cpp:71-76` | The start buffer is the polynomial z. |
| `Seeding.UninitialisedCellsIrrelevant` | `src/cpp/Crypto/DRRandom.cpp:70-88` | What the uninitialised cells held has no influence on the result of the main loop. |
| `Seeding.PreparedElement` | `src/cpp/Crypto/DRRandom.cpp:71-88` | After the main loop the buffer holds z^E in parity, E = 2^69 * (binary 1 s_0 s_1 ... s_(b-1)), for every seed. |
| `Seeding.AppendReversedBounds` | `src/cpp/Crypto/DRRandom.cpp:77-88` | The exponent without its factor lies between 2^b and 2^(b+1), b the bit length of the seed. |
| `Seeding.SameLengthInjective` | `src/cpp/Crypto/DRRandom.cpp:77-88` | Different seeds of one length give different digit strings. |
| `Seeding.ExponentsFarApart` | `src/cpp/Crypto/DRRandom.cpp:59-88` | Seeds that differ modulo 2^30 have exponents at least 2^70 apart. |
| `Seeding.LoadState` | `src/cpp/Crypto/DRRandom.cpp:90-91` | The two loops that turn the buffer into the generator state put cell j at the place the recurrence needs. |
| `Seeding.WarmUp` | `src/cpp/Crypto/DRRandom.cpp:92` | Ten blocks of 199 numbers move the state on by 1990 numbers. |
| `Seeding.RanStart` | `src/cpp/Crypto/DRRandom.cpp:63-94` | The routine leaves the one state that the seed determines: its run starts with the prepared words from cell 37 on and then those before, satisfies the equation, and is 1990 numbers on; the words come from the start words by bitlen(seed) + 69 passes. |
| `Seeding.SeedStateIsSeeded` | `src/cpp/Crypto/DRRandom.cpp:63-94` | Start words, passes and warm-up fit together to such a state for every seed. |
| `WholeWords.OneSeeded` | `src/cpp/Crypto/DRRandom.cpp:63-94` | No second state is reached from a seed in this way, so all bits of the state are determined, not only the lowest. |
| `Seeding.StepDividesByZ` | `src/cpp/Crypto/DRRandom.cpp:46-92` | Taking one number divides the ring element of the state by z. |
| `Seeding.SeededElement` | `src/cpp/Crypto/DRRandom.cpp:63-94` | After seeding and k more numbers, the low bits of the state are z^(E - 1990 - k). |
| `Seeding.PowersMeet` | `src/cpp/Crypto/DRRandom.cpp:46-92` | A state that holds a higher power of z reaches, number for number, the low bits of a lower one. |
| `Seeding.StreamsShifted` | `src/cpp/Crypto/DRRandom.cpp:59-94` | The low bits of the streams of any two seeds are one sequence, entered E(a) - E(b) places apart. |
| `PowersOfZ.PeriodIsOne` | `src/cpp/Crypto/DRRandom.cpp:59-88` | z^(2^100 - 1) is one. |
| `PowersOfZ.ZIsPrimitive` | `src/cpp/Crypto/DRRandom.cpp:59-88` | z is primitive: no positive power of z below z^(2^100 - 1) is one, so the low bits of the recurrence have the longest period there is. |
| `PowersOfZ.OneExactly` | `src/cpp/Crypto/DRRandom.cpp:59-88` | A power of z is one exactly if its exponent is a multiple of 2^100 - 1. |
| `Separation.SameLowBitsExactly` | `src/cpp/Crypto/DRRandom.cpp:59-94` | Two states give the same low bits from now on if and only if their parity polynomials are equal. |
| `Separation.LaterElement` | `src/cpp/Crypto/DRRandom.cpp:46-92` | The element of a state is that of the state k numbers later times z^k, for every state and every k. |
| `Separation.MeetsExactly` | `src/cpp/Crypto/DRRandom.cpp:59-94` | For all seeds a, b and every d: the stream of a agrees in its low bits with that of b from its d-th number on if and only if E(a) and E(b) + d are equal modulo 2^100 - 1. |
| `Separation.ExponentRange` | `src/cpp/Crypto/DRRandom.cpp:59-88` | Every exponent is between 2^69 and 2^100 - 2^69. |
| `Separation.ExponentsFarApartAround` | `src/cpp/Crypto/DRRandom.cpp:59-88` | For seeds that differ modulo 2^30 and d below 2^70 - 1, the distance between E(a) and E(b) + d is neither zero nor as much as 2^100 - 1. |
| `Separation.StreamsSeparated` | `src/cpp/Crypto/DRRandom.cpp:59-94` | The separation TT between streams: the low bits of two streams whose seeds differ modulo 2^30 do not agree from any place d below 2^70 - 1 on. |
| `Separation.SeparationAttained` | `src/cpp/Crypto/DRRandom.cpp:59-94` | The streams of the seeds 0 and 2^30 - 1 do agree after 2^70 - 1 numbers, one less than the source promises. |
| `Seeding.Seed` | `src/cpp/Crypto/DRRandom.cpp:229-237` | After reseeding, number 0 of the recurrence from the state of the seed is next, whatever was buffered before. |
| `Seeding.SeedAndDraw` | `src/cpp/Crypto/DRRandom.cpp:229-255` | The first 100 numbers after seeding are the state that the seed determines, and all later ones satisfy the equation, for every n. |
| `TaskScheduler.Scheduler.constructor` | `src/cpp/tasks/CPUSheduler.cpp:11-27` | Starting n workers leaves all of them idle and in the free queue. |
| `TaskScheduler.Scheduler.HandOn` | `src/cpp/tasks/CPUSheduler.cpp:46-54` | A ready task goes to the first free worker and its slot, any other to the end of the pending list, and nothing else changes. |
| `TaskScheduler.Scheduler.SheduleTask` | `src/cpp/tasks/CPUSheduler.cpp:42-56` | Keeps the invariant with the task in exactly one place; when its parents were submitted before, the new state is known exactly. Terminates on every acyclic graph although it submits parents recursively. |
| `TaskScheduler.Scheduler.GetNextUndoneTask` | `src/cpp/tasks/CPUSheduler.cpp:57-77` | Removes the first ready task of the list if there is one; otherwise changes nothing but the free queue, which the asking worker joins. |
| `TaskScheduler.Scheduler.CheckPendingTasks` | `src/cpp/tasks/CPUSheduler.cpp:78-84` | The first ready pending task is taken out and handed on anew, and others remain to be looked at; if there is none nothing changes. |
| `TaskScheduler.Scheduler.IsAllParentsReady` | `src/cpp/tasks/Task.cpp:36-50` | True exactly if all non-null parents have finished; afterwards all of them have been submitted; changes nothing if they had been. |
| `TaskScheduler.ReadyExactly` | `src/cpp/tasks/Task.cpp:36-50` | Ready means that every parent has finished, null pointers aside. |
| `TaskScheduler.Scheduler.ScheduleTask` | `src/cpp/tasks/CPUTask.cpp:30-37` | The task has been submitted afterwards, and nothing that was known about other tasks is lost; a second submission changes nothing; if its parents were submitted before, it goes to the first free worker or to the end of the list. |
| `TaskScheduler.Scheduler.AskForTask` | `src/cpp/tasks/CPUShedulerThread.cpp:16-27` | A worker takes the first ready pending task, or parks at the end of the free queue when there is none; the other workers keep what they have. |
| `TaskScheduler.Scheduler.TakeTurn` | `src/cpp/tasks/CPUShedulerThread.cpp:33-56` | The task in the slot is ready and was never run before; it is marked finished exactly if it returned zero; then the worker takes the first ready pending task or joins the free queue at its end. |
| `TaskScheduler.Quiescence` | `src/cpp/tasks/CPUSheduler.cpp:42-84` | In a state with idle workers, every submitted task that was not run has an ancestor that returned non-zero, or one on the other scheduler that is unfinished or finished after the list was last gone through; the chain of parents is constructed, over any acyclic graph. |
| `TaskScheduler.BelowUnfinishedNeverRuns` | `src/cpp/tasks/CPUSheduler.cpp:57-77` | A task with an unfinished ancestor, on whichever scheduler, was never run. |
| `TaskScheduler.QuietExactly` | `src/cpp/tasks/CPUSheduler.cpp:42-84` | With idle workers that went through the list since a task last finished elsewhere, not run is the same as below a task that failed, or that the other scheduler has not finished. |
| `TaskScheduler.IsQuiet` | `src/cpp/tasks/CPUSheduler.cpp:42-84` | Both statements for all tasks of a state. |
| `TaskScheduler.BothQuiet` | `src/cpp/ServerConfig.cpp:40-41` | The two schedulers of the program together: when both are idle and have gone through their lists, every submitted task of either that was not run has an ancestor that returned non-zero on one of them, through any number of changes between the two. |
| `TaskScheduler.Scheduler.SetFinishedElsewhere` | `src/cpp/model/Session.cpp:301-309` | A task of the other scheduler finishes; nothing else changes, so that tasks which wait for it are overlooked until somebody looks (the call is in `src/cpp/model/User.cpp`, line 50). |
| `TaskScheduler.WaitsForCheck` | `src/cpp/model/Session.cpp:301-309` | A task with a parent on the other scheduler: the parent has finished, the task is ready, the worker is idle, and the task stays pending. |
| `TaskScheduler.CheckHelps` | `src/cpp/tasks/CPUSheduler.cpp:78-84` | The call of `checkPendingTasks` from outside gives it to the worker (the call is in `src/cpp/model/User.cpp`, line 52). |
| `TaskScheduler.Extended` | `src/cpp/tasks/CPUSheduler.cpp:42-84` | A turn, or a task that finishes elsewhere, extends the record of runs so that still every task ran at most once and after its parents. |
| `TaskScheduler.Perform` | `src/cpp/tasks/CPUSheduler.cpp:42-84` | Every call keeps the invariant and the order of runs. |
| `TaskScheduler.Drive` | `src/cpp/tasks/CPUSheduler.cpp:42-84` | Any sequence of calls on any number of workers, with tasks finishing elsewhere in between: every task runs at most once, after all its parents ended without error; whenever all workers are idle after it, the two theorems above hold. |
| `TaskScheduler.ServeInOrder` | `src/cpp/tasks/CPUSheduler.cpp:42-77` | First in, first run: any tasks without parents are given to the workers in the order of submission, whichever workers take their turns, and none waits beside a free worker. |
| `TaskScheduler.CheckPostpones` | `src/cpp/tasks/CPUSheduler.cpp:78-84` | A check from outside while no worker is free moves the first ready task behind all others. |
| `SchedulerSteps.StepKeepsInv` | `src/cpp/tasks/CPUSheduler.cpp:42-84` | Every lock-protected step of any thread keeps the conservation of tasks, of workers and of signals. |
| `SchedulerSteps.RunKeepsInv` | `src/cpp/tasks/CPUSheduler.cpp:42-84` | So does every interleaving of any number of threads. |
| `SchedulerSteps.Ownership` | `src/cpp/tasks/CPUSheduler.cpp:42-84` | In every interleaving each submission, counted from the steps, is in exactly one place (a caller's hand, the pending list, one worker, done), the runs of a task do not exceed its submissions, no worker is twice in the free queue, and whenever a worker can end a task, each parent of that task was finished by an earlier step. |
| `SchedulerSteps.FinishedExactly` | `src/cpp/tasks/CPUShedulerThread.cpp:43-48` | From the steps alone: a task is finished after a run if and only if a worker that held it ended it with zero, or it belongs to the other scheduler and finished there when its parents had. |
| `SchedulerSteps.CountedExactly` | `src/cpp/tasks/CPUShedulerThread.cpp:33-56` | Likewise the records of submissions and runs are the numbers of such steps. |
| `SchedulerSteps.TakenInOrder` | `src/cpp/tasks/CPUSheduler.cpp:42-77` | In every interleaving the workers that joined the free queue are those taken from it, in the order of joining, followed by those in it. |
| `SchedulerSteps.PendingInOrder` | `src/cpp/tasks/CPUSheduler.cpp:46-64` | In every interleaving the pending tasks stand in the order in which they were appended. |
| `SchedulerSteps.OneScanner` | `src/cpp/tasks/CPUSheduler.cpp:57-71` | While one thread goes through the pending list nobody else begins, what it has seen stays in place, it passes no ready task by, and it stops at the first ready one or at the end. |
| `SchedulerSteps.SlotKept` | `src/cpp/tasks/CPUShedulerThread.cpp:33-64` | A task that was put into a worker's slot is never overwritten before that worker has run it. |
| `SchedulerSteps.SecondSubmission` | `src/cpp/tasks/CPUTask.cpp:30-37` | One step submits a task a second time exactly if it passes the guard while another thread is between guard and flag for the same task. |
| `SchedulerSteps.SubmittedOnceExactly` | `src/cpp/tasks/CPUTask.cpp:30-37` | In a run, every task is submitted at most once if and only if no such overlap happens: the flag is set only after the task was handed on. |
| `SchedulerSteps.TaskSubmittedTwice` | `src/cpp/tasks/CPUTask.cpp:30-37` | A run in which it happens: two threads pass the guard for one task. |
| `SchedulerSteps.RunAtMostOnce` | `src/cpp/tasks/CPUTask.cpp:30-37` | Without such overlaps every task is run at most once, in every interleaving. |
| `SchedulerSteps.StrandedExactly` | `src/cpp/tasks/Thread.cpp:56-76` | A worker is left with a task that nobody will wake it for exactly if it is signalled between two waits, after it has unlocked its mutex. |
| `SchedulerSteps.StrandedForever` | `src/cpp/tasks/Thread.cpp:56-76` | Such a worker keeps the task unrun in every continuation. |
| `SchedulerSteps.FirstSignalLost` | `src/cpp/tasks/Thread.cpp:56-76` | A run in which that happens: the task is submitted before the worker's first wait. |
| `SchedulerQuiescence.StepAttends` | `src/cpp/tasks/CPUSheduler.cpp:42-84` | If every ready pending task will still be looked at, a step that loses no signal breaks this if and only if it appends a ready task while nobody is going to look, or a parent finishes elsewhere unseen, or a check from outside takes one of two ready tasks while no worker is free. |
| `SchedulerQuiescence.LookAttends` | `src/cpp/tasks/CPUSheduler.cpp:78-84` | When a check from outside begins, every ready pending task will be looked at, whatever was missed before. |
| `SchedulerQuiescence.RunAttends` | `src/cpp/tasks/CPUSheduler.cpp:42-84` | After every interleaving that lost no signal and took no such step since the last check from outside began, every ready pending task will still be looked at. |
| `SchedulerQuiescence.RestAt` | `src/cpp/tasks/CPUSheduler.cpp:42-84` | When all threads are at rest then, a pending task has an ancestor that returned non-zero, was never submitted, or belongs to the other scheduler and has not finished. |
| `SchedulerQuiescence.RestExactly` | `src/cpp/tasks/CPUSheduler.cpp:42-84` | At rest, every pending task has such an ancestor if and only if no ready one was missed. |
| `SchedulerQuiescence.RestAfterRun` | `src/cpp/tasks/CPUSheduler.cpp:42-84` | The same for every submitted task that was not run, after every such run of any number of workers and submitting threads, over any acyclic graph across both schedulers. |
| `SchedulerQuiescence.ReadyTaskForgotten` | `src/cpp/tasks/CPUSheduler.cpp:57-76` | The late append happens: a task submitted after the worker has looked at the list and before it has joined the free queue stays pending with all threads at rest. |
| `UserKeys.User.Login` | `src/cpp/controller/User.cpp:131-204` | The full table of answers 2, 1, 0, -1, -2, -3, each with the exact condition on record and password; on 1 the held pair is the one in the record, and a missing public key is filled in. |
| `UserKeys.User.SetGradidoKeyPair` | `src/cpp/controller/User.cpp:206-220` | The new pair is held and encrypted under the current password; the promise of the decrypt flag survives if and only if the pair has its private half or no password is set. |
| `UserKeys.User.SetNewPasswordKey` | `src/cpp/controller/User.cpp:237-292` | The exact new memory and stored record for each of its answers 0, -1, 1, 2; the pair to encrypt anew is read before the password is replaced. |
| `UserKeys.User.SetNewPassword` | `src/cpp/controller/User.cpp:221-234` | The same, from the clear password. |
| `UserKeys.User.UpdatePrivateKeyAndPasswordHash` | `src/cpp/model/table/User.cpp:168-193` | Writes both columns, or nothing if the key, the hash or the id is missing. |
| `UserKeys.User.UpdatePublicKeyAndPrivateKey` | `src/cpp/model/table/User.cpp:195-217` | Writes both keys, or nothing if one of them or the id is missing. |
| `UserKeys.GenerateKeys` | `src/cpp/model/Session.cpp:1255-1265` | A new pair is held, and saved exactly for a user with an id: both halves if there is a password, else the public one. |
| `UserKeys.User.RecoverFromBackups` | `src/cpp/model/Session.cpp:857-881` | The first backup with the stored public key replaces the private key, in memory and in the table; the public key and the password hash stay; without such a backup nothing changes. |
| `UserKeys.Run` | `src/cpp/controller/User.cpp:131-292` | After any sequence of logins, password changes, new complete pairs and recoveries a held pair matches the record's public key, the decrypt flag implies that the ciphertext opens under the current password to that pair, id and e-mail are what they were, and nothing is written for a user without an id. |
| `UserKeys.Register` | `src/cpp/model/Session.cpp:416-420` | Registration, the pair first and the first password after it: the password encrypts the pair and is answered with 1, and a new object logs in with 1 and holds the pair; exactly if the hash of the password is not zero. |
| `UserKeys.KeysAfterPassword` | `src/cpp/model/Session.cpp:1255-1265` | The other order: a user who has logged in without keys gets a pair, which is encrypted at once, and the next login holds it. |
| `UserKeys.ChangePasswords` | `src/cpp/controller/User.cpp:131-292` | From a logged-in user, any sequence of password changes keeps the key: a new object that logs in with the last password answers 1 and holds the same pair. |
| `UserKeys.ChangeKeepsExactly` | `src/cpp/controller/User.cpp:237-292` | One change keeps the key and lets the new password in if and only if the password is the old one or its hash is neither the old one's nor zero. |
| `UserKeys.MismatchRefused` | `src/cpp/controller/User.cpp:237-275` | A stored public key that does not belong to the private one: login and the following change of the password both answer -1, and nothing is changed. |
| `UserKeys.ResetAndRecover` | `src/cpp/model/Session.cpp:857-881` | A password set without the old one makes the next login answer -2; after recovery the login answers 1 with the backup's pair if some backup has the stored public key, and -2 if none has. |
| `Passphrases.CreateWordIndices` | `src/cpp/Crypto/KeyPair.cpp:170-226` | The character loop over its 25-byte buffer gives, for every phrase that does not overrun the buffer, the indices of the recursive reader, with short words glued to the next one and an unknown last word ignored. |
| `Passphrases.ReadWordIndices` | `src/cpp/Crypto/Passphrase.h:44-45` | The same loop in the other class, which keeps what it has filled in when a word is unknown or there are too many: the indices of the known words before the first unknown one, at most 24, then zeros (`Passphrase.cpp`, lines 253-322). |
| `Passphrases.CreateClearPassphrase` | `src/cpp/Crypto/KeyPair.cpp:228-241` | Prints at most 24 words, each followed by a blank; indices for which the list answers with null are left out. |
| `Passphrases.PassphraseTransform` | `src/cpp/Crypto/KeyPair.cpp:47-61` | Empty for a missing list or an unreadable phrase, the phrase itself for one and the same list, else read and printed. |
| `Passphrases.PrintThenParse` | `src/cpp/Crypto/KeyPair.cpp:170-241` | Printing any 24 indices and reading the phrase gives the indices back. |
| `Passphrases.ThereAndBack` | `src/cpp/Crypto/KeyPair.cpp:47-61` | Translating any readable phrase into another list and back gives its canonical form, also for phrases of fewer than 24 words. |
| `Passphrases.CanonicalIdempotent` | `src/cpp/Crypto/KeyPair.cpp:47-61` | The canonical form means the same words and is its own canonical form. |
| `Passphrases.CanonicalExactly` | `src/cpp/Crypto/KeyPair.cpp:47-61` | Two phrases have one canonical form exactly if they are read as the same indices. |
| `Passphrases.FailureReadsAsFirstWords` | `src/cpp/Crypto/KeyPair.cpp:47-61` | The empty phrase, which stands for a failed translation, is itself readable: as 24 times the first word. |
| `Passphrases.ValidatePassphrase` | `src/cpp/Crypto/KeyPair.cpp:310-339` | Names the first list in which every word of three or more characters exists, if there is one. |
| `Passphrases.SplitTakes` | `src/cpp/Crypto/KeyPair.cpp:310-320` | Whatever white space stands around a word, stream extraction takes it out as it is and goes on behind it. |
| `Passphrases.ShortWordsPass` | `src/cpp/Crypto/KeyPair.cpp:321-339` | One more word changes the answer for a list only if it has three or more characters and is not in the list. |
| `Passphrases.TokensAreWords` | `src/cpp/Crypto/KeyPair.cpp:170-226` | On well-spaced phrases the reader and stream extraction see the same words. |
| `Passphrases.ValidatedParses` | `src/cpp/Crypto/KeyPair.cpp:170-226` | A well-spaced phrase of at most 24 words that validation accepts is read without error, as the indices of its words in order followed by zeros. |
| `Passphrases.ParsesExactly` | `src/cpp/Crypto/KeyPair.cpp:170-226` | The exact converse: a well-spaced phrase is readable if and only if its words before the last are at most 24 and known. |
| `Passphrases.ShortWordGlued` | `src/cpp/Crypto/KeyPair.cpp:170-226` | Any word of one or two characters is read together with the word after it. |
| `Passphrases.FeedKeyPair` | `src/cpp/Crypto/KeyPair.cpp:63-90` | Refused exactly if the phrase cannot be read. Otherwise 192 bytes and one for each character are hashed: byte 8i and the seven after it are index i, lowest byte first; byte 192 + k is the code of the k-th character of the phrase in English; and that phrase consists of the 24 words, each with one blank, and is read with the English list as the same indices. |
| `Passphrases.FeedKeyPairEd25519` | `src/cpp/Crypto/KeyPairEd25519.cpp:40-71` | The loop of 24 eight-byte updates feeds what the one 192-byte update of the other class feeds, and the English phrase after it, byte by byte as in the row before; refused exactly if the first four indices are all zero. |
| `Passphrases.Passphrase.constructor` | `src/cpp/Crypto/Passphrase.h:50-55` | A new phrase holds the indices that the loop fills in, also after an error; without a word list, zeros (`Passphrase.cpp`, lines 24-29). |
| `Passphrases.Passphrase.GetWordIndices` | `src/cpp/Crypto/Passphrase.h:41` | Asking for the indices, which reads again while the first four are zero, gives the same indices every time (`Passphrase.cpp`, lines 253-322). |
| `Passphrases.CreateKeyPairEd25519` | `src/cpp/Crypto/KeyPairEd25519.cpp:40-71` | From a phrase to the hash: refused exactly if the first four indices filled in are zero, otherwise the bytes of all 24 and of their English words are hashed, even if the phrase cannot be read to its end. |
| `Passphrases.UnknownWordIgnored` | `src/cpp/Crypto/Passphrase.h:44-45` | A phrase with an unknown second word is refused by the first class and gives the indices of its first word in the second (`Passphrase.cpp`, lines 253-322). |
| `Passphrases.LongPhrase` | `src/cpp/Crypto/Passphrase.h:44-45` | Of any printed phrase of more than 24 words the first class reads none and the second the first 24 (`Passphrase.cpp`, lines 253-322). |
| `Passphrases.SameKeyFromTranslation` | `src/cpp/Crypto/KeyPair.cpp:47-90` | Both key classes hash the same bytes for a phrase and for its translation into any list; the second class does so unless the first four words are all the first of their list. |
| `Passphrases.DecodeLittleEndian` | `src/cpp/Crypto/KeyPair.cpp:86-88` | The eight bytes of an index determine it. |
| `Passphrases.RawMemoryInjective` | `src/cpp/Crypto/KeyPair.cpp:86-88` | The index memory determines the indices. |
| `Passphrases.KeyInputExactly` | `src/cpp/Crypto/KeyPair.cpp:75-90` | Two phrases hash the same bytes if and only if they are read as the same indices. |
| `Passphrases.KeyInputHashed` | `src/cpp/Crypto/KeyPair.cpp:75-90` | For every 24 indices, the index memory and the printed phrase have these bytes at these places. |
| `Mnemonic.AddUnshared` | `src/cpp/Crypto/mnemonic.h:57-62` | A word with a new hash goes into the first table only (body in `mnemonic.cpp`, lines 117-119). |
| `Mnemonic.AddShared` | `src/cpp/Crypto/mnemonic.h:57-62` | A word with a taken hash joins the names of that hash, behind the word that took it (`mnemonic.cpp`, lines 120-137). |
| `Mnemonic.NamesComplete` | `src/cpp/Crypto/mnemonic.h:57-62` | Insertion into the names of a hash fails exactly for a word that is listed already (`mnemonic.cpp`, lines 122-142). |
| `Mnemonic.Words.AddWord` | `src/cpp/Crypto/mnemonic.h:31-62` | Fails exactly for a word that is listed already; otherwise the tables list it too (`mnemonic.cpp`, lines 113-152). |
| `Mnemonic.LoopFinds` | `src/cpp/Crypto/mnemonic.h:31-62` | The character loop has found all words of the text when it ends, and fewer before, and a repeated word only if the text has one (`mnemonic.cpp`, lines 74-153). |
| `Mnemonic.ListingOfText` | `src/cpp/Crypto/mnemonic.h:31-62` | Any words without commas and zeros, written with a comma after each but perhaps the last, are the words of that text (`mnemonic.cpp`, lines 74-153). |
| `Mnemonic.ListedNulFree` | `src/cpp/Crypto/mnemonic.h:31-62` | No listed word contains a zero, whatever the text: words are cut there (`mnemonic.cpp`, lines 97-112). |
| `Mnemonic.Words.Init` | `src/cpp/Crypto/mnemonic.h:31-62` | On the uncompressed text: succeeds exactly if it has at most 2048 words and no word twice, -3 only for more, -7 only for a repeated one; then the list is the words of the text, and any string is looked up as stated in the next row (`mnemonic.cpp`, lines 33-37 and 74-160). |
| `Mnemonic.FoundExactly` | `src/cpp/Crypto/mnemonic.h:33-38` | After the shared hashes are erased from the first table, every word is found at its own index; another string is found if and only if it shares the hash of a word that no second word shares (`mnemonic.cpp`, lines 156-183). |
| `Mnemonic.Load` | `src/cpp/Crypto/mnemonic.h:31-38` | A text of 2048 different plain words gives a list that phrases can be read and printed with, exactly if the empty string is not found in it (`mnemonic.cpp`, lines 74-183). |
| `HashList.List.FindIndexForHash` | `src/cpp/lib/DRHashList.cpp:128-158` | Returns the insertion point: smaller hashes before it, none smaller from it on; also on the empty list. |
| `HashList.List.ItemExists` | `src/cpp/lib/DRHashList.cpp:26-58` | True exactly if the hash is in the map, with its place. |
| `HashList.List.FindByHash` | `src/cpp/lib/DRHashList.cpp:64-92` | The data that the map has for the hash, or null. |
| `HashList.List.FindByIndex` | `src/cpp/lib/DRHashList.cpp:98-103` | The data of the index-th smallest hash, null from the size of the map on. |
| `HashList.List.FindHashByIndex` | `src/cpp/lib/DRHashList.cpp:109-114` | The index-th smallest hash, zero from the size of the map on. |
| `HashList.List.AddByHash` | `src/cpp/lib/DRHashList.cpp:212-245` | False and no change if the hash is listed; otherwise the map with the new entry; 32 more places exactly when the array was full. |
| `HashList.List.RemoveByHash` | `src/cpp/lib/DRHashList.cpp:264-282` | False exactly if the hash was missing; the map without it; the capacity stays. |
| `HashList.List.Resize` | `src/cpp/lib/DRHashList.cpp:247-258` | Only ever enlarges the array; the map stays. |
| `HashList.List.Clear` | `src/cpp/lib/DRHashList.cpp:195-204` | The empty map; the array goes only if asked to. |
| `HashList.FoundMeans` | `src/cpp/lib/DRHashList.cpp:128-158` | A hash is in the map exactly if it stands at its insertion point. |
| `HashList.InsertedSorted` | `src/cpp/lib/DRHashList.cpp:212-245` | Insertion at the insertion point keeps the array strictly sorted. |
| `HashList.DeletedLists` | `src/cpp/lib/DRHashList.cpp:264-282` | Closing the hole leaves exactly the other entries. |
| `HashList.ListedCount` | `src/cpp/lib/DRHashList.cpp:98-114` | The array has as many items as the map has entries. |
| `HashList.OneListing` | `src/cpp/lib/DRHashList.cpp:98-114` | There is only one sorted array for a map, so enumeration by index depends on the map alone. |
| `HashList.Run` | `src/cpp/lib/DRHashList.cpp:195-282` | After any sequence of add, remove, resize and clear the array is strictly sorted, within its capacity, and lists exactly the plain map on which the same was done. |
| `TaskObserver.Observer.AddTask` | `src/cpp/SingletonManager/SingletonTaskObserver.cpp:32-54` | The counters by entry after an add by e-mail; a collision is reported exactly if the entry belongs to another e-mail. |
| `TaskObserver.Observer.AddTaskById` | `src/cpp/SingletonManager/SingletonTaskObserver.cpp:56-69` | The counters by entry after an add by hash. |
| `TaskObserver.Observer.AnyCountLeft` | `src/cpp/SingletonManager/SingletonTaskObserver.cpp:87-93` | The loop over all types asks about one type only. |
| `TaskObserver.Observer.RemoveTask` | `src/cpp/SingletonManager/SingletonTaskObserver.cpp:71-104` | The counters after a remove by e-mail; an excess remove is reported exactly if the counter was zero or missing. |
| `TaskObserver.Observer.RemoveTaskById` | `src/cpp/SingletonManager/SingletonTaskObserver.cpp:107-142` | The same by hash; the entry goes when this one counter is zero, whatever its others are. |
| `TaskObserver.Observer.GetTaskCount` | `src/cpp/SingletonManager/SingletonTaskObserver.cpp:165-179` | The counter, or -1 for a missing entry or one of another e-mail. |
| `TaskObserver.Observer.GetTaskCountById` | `src/cpp/SingletonManager/SingletonTaskObserver.cpp:181-193` | The counter, or -1 for a missing entry. |
| `TaskObserver.Observer.GetTasksCount` | `src/cpp/SingletonManager/SingletonTaskObserver.cpp:215-225` | The sum of the counters of a type over all entries, each entry once. |
| `TaskObserver.ShownIsTotal` | `src/cpp/SingletonManager/SingletonTaskObserver.cpp:215-225` | Adding up along the sorted list is the sum over the map of entries. |
| `TaskObserver.SoundRemoved` | `src/cpp/SingletonManager/SingletonTaskObserver.cpp:71-142` | Every entry that is left has a positive counter and no negative one. |
| `TaskObserver.CountAfter` | `src/cpp/SingletonManager/SingletonTaskObserver.cpp:32-142` | One call changes one counter by one, except that a remove which brings its counter to zero clears all counters of the hash. |
| `TaskObserver.NameExactly` | `src/cpp/SingletonManager/SingletonTaskObserver.cpp:32-69` | After any calls an entry goes by the first e-mail with which a task was added since the entry was made, and by none if all were added by hash. |
| `TaskObserver.PresentExactly` | `src/cpp/SingletonManager/SingletonTaskObserver.cpp:32-142` | After any calls there is an entry for a hash exactly while one of its counters is positive. |
| `TaskObserver.AskAfterAddById` | `src/cpp/SingletonManager/SingletonTaskObserver.cpp:56-69` | The count asked for by e-mail rises by one, from nothing to one, when a task is added under the hash of the e-mail, unless the entry goes by another e-mail; then it is -1 before and after. |
| `TaskObserver.Play` | `src/cpp/SingletonManager/SingletonTaskObserver.cpp:32-142` | After any sequence of calls the entries on the heap are those of the specification. |
| `TaskObserver.NeverExceeds` | `src/cpp/SingletonManager/SingletonTaskObserver.cpp:32-142` | If every remove matches an add, no counter exceeds the tasks outstanding. |
| `TaskObserver.ExactUnlessLost` | `src/cpp/SingletonManager/SingletonTaskObserver.cpp:71-142` | The counters of a hash are exact if and only if no last task of one type was removed while another type was outstanding, since the hash last had nothing outstanding. |
| `TaskObserver.LossHappens` | `src/cpp/SingletonManager/SingletonTaskObserver.cpp:107-142` | Calls that lose one: a task of each of two types is added and the first is removed; the other one counts zero and is outstanding. |
| `TaskObserver.ExactWhileOneType` | `src/cpp/SingletonManager/SingletonTaskObserver.cpp:32-142` | They are exact while only one type at a time is outstanding for the hash. |
| `StringHash.MakeStringHash` | `src/cpp/lib/DRHash.h:52-63` | Hashes the characters before the first zero. |
| `StringHash.MakeSizedStringHash` | `src/cpp/lib/DRHash.h:66-77` | Hashes the given number of characters. |
| `StringHash.BothHashes` | `src/cpp/lib/DRHash.h:52-77` | The two agree on every text without zeros; otherwise the first is the hash of the beginning. |
| `StringHash.MixedIsArithmetic` | `src/cpp/lib/DRHash.h:42-63` | In integer arithmetic modulo 2^32: a character c makes h into 128 h + floor(h / 2^25) + c, c between -128 and 127. |
| `StringHash.TwoCharacters` | `src/cpp/lib/DRHash.h:42-63` | Two characters below 128 hash to 128 times the first plus the second. |
| `TaskObserver.AddByTerminatedHash` | `src/cpp/model/Session.cpp:684-690` | Adding under the terminated hash of an e-mail without zeros is adding under the hash that the observer takes of it. |
| `TaskObserver.AddBothWays` | `src/cpp/lib/DRHash.h:52-77` | Adding by that hash and adding by e-mail reach one entry: its counter rises by two and no other entry changes. |
| `StringHash.RotateSeparates` | `src/cpp/lib/DRHash.h:44-47` | Rotation by seven bits loses nothing. |
| `StringHash.SuffixKeeps` | `src/cpp/lib/DRHash.h:52-77` | Appending one text to two others neither creates nor removes a collision. |
| `StringHash.OneCharacterMatters` | `src/cpp/lib/DRHash.h:52-77` | Changing one character of a text changes its hash. |
| `MemoryPool.StackIndexSeparates` | `src/cpp/SingletonManager/MemoryManager.cpp:131-143` | Different sizes never share a stack. |
| `MemoryPool.PooledSizes` | `src/cpp/SingletonManager/MemoryManager.cpp:131-143` | The sizes with a stack are 32, 48, 64, 65, 96 and 161. |
| `MemoryPool.MemoryPageStack.GetFreeMemory` | `src/cpp/SingletonManager/MemoryManager.cpp:77-92` | The last bin given back, or a new one of the stack's size. |
| `MemoryPool.MemoryPageStack.ReleaseMemory` | `src/cpp/SingletonManager/MemoryManager.cpp:93-103` | Throws exactly for a bin of another size, and then keeps the stack as it was. |
| `MemoryPool.MemoryManager.constructor` | `src/cpp/SingletonManager/MemoryManager.cpp:114-122` | Six stacks with one bin each. |
| `MemoryPool.MemoryManager.GetFreeMemory` | `src/cpp/SingletonManager/MemoryManager.cpp:148-161` | For every size below 2^16 a bin of that size that is not held; larger sizes throw; keeps the live bins the disjoint union of held and stacked ones. |
| `MemoryPool.MemoryManager.ReleaseMemory` | `src/cpp/SingletonManager/MemoryManager.cpp:163-173` | A held bin goes back to the stack of its size or is deleted; never throws for a held bin. |
| `MemoryPool.Serve` | `src/cpp/SingletonManager/MemoryManager.cpp:148-173` | Any sequence of requests of a client that gives back only what it holds: the bins it holds are pairwise different and have the sizes asked for, and of each pooled size exactly as many bins exist as were ever held at once, or one. |
| `MemoryPool.SizedGet` | `src/cpp/SingletonManager/MemoryManager.cpp:148-161` | A new bin of a pooled size is allocated only when the peak demand grows. |
| `MemoryPool.SizedRelease` | `src/cpp/SingletonManager/MemoryManager.cpp:163-173` | A bin given back is kept for the next request. |
| `MemoryPool.GiveBackAndTake` | `src/cpp/SingletonManager/MemoryManager.cpp:148-173` | A bin that is given back is the next one of its size to be handed out, exactly if the size is one of the six. |
| `MemoryPool.ReleasedTwice` | `src/cpp/SingletonManager/MemoryManager.cpp:77-103` | A bin that is given back twice is handed out twice. |
| `SessionTransactions.Session.StartProcessingTransaction` | `src/cpp/model/Session.cpp:662-695` | Succeeds exactly if there is a user and no listed transaction has the hash; then the new one is listed last. |
| `SessionTransactions.Session.GetNextReadyTransaction` | `src/cpp/model/Session.cpp:697-727` | The transaction on offer stays; without one the first finished one of the list is offered, before which all are unfinished, or none if all are; with counting, the number of unfinished ones of the list. |
| `SessionTransactions.CountWorkingIs` | `src/cpp/model/Session.cpp:707-722` | What the loop counts is the size of the set of unfinished transactions. |
| `SessionTransactions.Session.FinalizeTransaction` | `src/cpp/model/Session.cpp:729-746` | The transaction on offer leaves the list, and is scheduled for signing exactly if signed and not rejected. |
| `SessionTransactions.Session.DropErrors` | `src/cpp/model/Session.cpp:753-766` | The loop that erases while iterating leaves what the specification leaves, and clears the errors of what it erased only. |
| `SessionTransactions.Session.GetProcessingTransactionCount` | `src/cpp/model/Session.cpp:748-770` | Counts what is left: all transactions without errors, not the first one if it has errors, and none with errors if no two with errors stand next to each other; the transaction on offer stays the same even if it was dropped. |
| `SessionTransactions.Session.Reset` | `src/cpp/model/Session.cpp:107-131` | No transaction is listed or on offer. |
| `SessionTransactions.PurgedKeepsOthers` | `src/cpp/model/Session.cpp:753-766` | One count call keeps all transactions without errors, in order. |
| `SessionTransactions.PurgedHalvesBad` | `src/cpp/model/Session.cpp:753-766` | It leaves at most half of those with errors. |
| `SessionTransactions.AllBadGo` | `src/cpp/model/Session.cpp:753-766` | It leaves none of them if and only if no two stand next to each other. |
| `SessionTransactions.OneBadStays` | `src/cpp/model/Session.cpp:753-766` | Of two neighbours with errors the second stays. |
| `SessionTransactions.AllGoInTheEnd` | `src/cpp/model/Session.cpp:753-766` | Repeated calls leave exactly those without errors, after as many calls as their number can be halved. |
| `SessionTransactions.SignAll` | `src/cpp/model/Session.cpp:697-746` | When all work is done, asking and signing until nothing is offered signs every listed transaction once, in the order of submission. |
| `SessionTransactions.SubmitAndSign` | `src/cpp/model/Session.cpp:662-746` | From the messages to the signatures: any messages with different hashes, once the workers are through, are signed one by one in the order in which they came in. |
| `SessionTransactions.Run` | `src/cpp/model/Session.cpp:662-770` | In any sequence of calls, with workers finishing in between, listed transactions have different hashes, none is offered twice, none is signed twice, and only what was offered is signed. |
| `ConnectionString.CopyStripped` | `src/cpp/MySQL/SessionImpl.cpp:24-32` | The two iterator loops remove the white space at both ends of the range. |
| `ConnectionString.StrippedEnds` | `src/cpp/MySQL/SessionImpl.cpp:24-32` | What is left is the stretch between white space, with none at its ends. |
| `ConnectionString.ParseOptions` | `src/cpp/MySQL/SessionImpl.cpp:91-104` | The iterator loop ends on every string and fills the options as the specification does, or fails. |
| `ConnectionString.PiecesParsed` | `src/cpp/MySQL/SessionImpl.cpp:91-104` | Any pieces without semicolons, joined by semicolons with or without one at the end, are assigned one after the other, the last for a key counting. |
| `ConnectionString.EveryStringJoins` | `src/cpp/MySQL/SessionImpl.cpp:91-104` | Every string is such a join. |
| `ConnectionString.FormatExactly` | `src/cpp/MySQL/SessionImpl.cpp:91-104` | Parsing fails if and only if some piece of the string has no equals sign. |
| `ConnectionString.ReadField` | `src/cpp/MySQL/SessionImpl.cpp:93-99` | A key without equals sign and a clean value come back from their field, also if the value contains equals signs. |
| `ConnectionString.ReadSpacedField` | `src/cpp/MySQL/SessionImpl.cpp:93-99` | The same with any white space before and after the key and the value. |
| `ConnectionString.ParsedFit` | `src/cpp/MySQL/SessionImpl.cpp:91-104` | No parsed value has a semicolon or white space at an end. |
| `ConnectionString.ParsedNulFree` | `src/cpp/MySQL/SessionImpl.cpp:91-104` | A string without zero bytes gives values without any. |
| `ConnectionManager.Open` | `src/cpp/MySQL/SessionImpl.cpp:90-146` | Opening fails on the format, or answers as the checks of the parsed options do. |
| `ConnectionManager.EveryOptionCounts` | `src/cpp/MySQL/SessionImpl.cpp:90-146` | Any connection with a port from 1 to 65535, a user and clean values without zero bytes, with or without database, character set and flags, is opened by the string that names all nine options. |
| `ConnectionManager.OthersAreDefault` | `src/cpp/MySQL/SessionImpl.cpp:78-104` | A string with a user alone connects to localhost at port 3306 without password, database and flags, with UTF-8. |
| `ConnectionManager.FlagsRead` | `src/cpp/MySQL/SessionImpl.cpp:119-146` | A flag is set by "true", cleared by "false" and left alone by the empty string. |
| `ConnectionManager.PrintedParses` | `src/cpp/SingletonManager/ConnectionManager.cpp:50` | A printed port is clean and is read back as the number, unless it is negative. |
| `ConnectionManager.DescribesLogin` | `src/cpp/SingletonManager/ConnectionManager.cpp:21-47` | The login server's values are those of the keys loginServer.db.host, .port, .name, .user and .password, by default localhost, 3306, nothing, root and nothing. |
| `ConnectionManager.Manager.SetConnectionsFromConfig` | `src/cpp/SingletonManager/ConnectionManager.cpp:21-65` | Fails exactly for an invalid type or a missing database name; stores the string with the six fields, for the login server only. |
| `ConnectionManager.RoundTripExactly` | `src/cpp/SingletonManager/ConnectionManager.cpp:48-61` | The parsed options hold the configured host, port, database, user and password, and the defaults otherwise, if and only if the values have no semicolon and no white space at an end. |
| `ConnectionManager.OpensExactly` | `src/cpp/MySQL/SessionImpl.cpp:90-146` | The session connects to the configured database if and only if those values are such, none has a zero byte, at which the connection would cut it, the user is not empty and the port is between 1 and 65535. |
| `ConnectionManager.OpenLoginServer` | `src/cpp/SingletonManager/ConnectionManager.cpp:21-65` | The same from the configuration to the connection, for the values of the five keys. |

## Left out

- SchedulerSteps.Ownership: a parent submitted by `isAllParentsReady` is modelled as one more submitting thread instead of a call nested under the task's lock or the pending lock; every interleaving of the nested call is one of such a thread. So tasks may be appended while the list is gone through, by any thread.
- TaskScheduler.Drive: calls do not overlap; overlapping calls are in `SchedulerSteps` and `SchedulerQuiescence`. The other scheduler is represented by what it does to the shared flags: it finishes a submitted task of its own whose parents have finished.
- TaskScheduler.Scheduler.TakeTurn: a worker's first call of `getNextUndoneTask` and its loop are taken one turn at a time; the value returned by a task is a parameter.
- Thread termination, finish commands, reference counts, mutex timeouts and exceptions of `Thread::run`.
- Seeding.Seed: the xorshift and floating-point generators that are reseeded with it, `ran_arr_cycle`, and the macros that only confuse disassemblers. `long` is taken as unbounded: seed + 2 does not overflow for any seed but the two greatest, and all other intermediate values stay below 2^32.
- UserKeys.User.Login: encryption is ideal, password hashing is a function, deriving the key never fails, and the question to the task observer whether a password is being created is a parameter. Its calls `addTask` and `removeTask` are not repeated here.
- UserKeys.Register: the e-mails, the backup of the passphrase and the rows of other tables that registration writes are left out, and so is the delay between its tasks.
- UserKeys.User.UpdatePrivateKeyAndPasswordHash: every statement that is sent to the database succeeds, and finds its row.
- UserKeys.Run: only complete new pairs, as all callers of the program pass; what an incomplete one does is in `UserKeys.User.SetGradidoKeyPair`.
- UserKeys.User.RecoverFromBackups: every backup yields a complete key pair; a null pointer from an unreadable backup is not modelled.
- Passphrases.CreateWordIndices: phrases in which a word of 25 or more characters would run over the 25-byte buffer are outside of the precondition `Fits`.
- Passphrases.FeedKeyPairEd25519: takes the 24 indices; `Passphrases.CreateKeyPairEd25519` takes the phrase. `Passphrase::filter` is left out.
- Passphrases.ValidatePassphrase: stream extraction is modelled as splitting at white space; the test for empty words is vacuous then.
- SHA-512 and ed25519: a hash state is the list of bytes that were fed into it.
- Mnemonic.Words.Init: takes the uncompressed text; decompression with its codes -1 and -2, the temporary file and the seeding of the random numbers are left out. The hash is a parameter. When a printed word has other characters than words have, the list is loaded again from the same text, which does not change it.
- TaskObserver.Play: the hash of an e-mail is a parameter; `TaskObserver.AddBothWays` puts the one in use in its place. `removeTasksCount` and the vector form of `getTasksCount` are easy members. Counters are unbounded.
- HashList.List.AddByHash: sizes are unbounded integers, and sorting of unsorted blocks (`sortItems`) is left out, as is `setDataByIndex`.
- StringHash.MakeStringHash: null pointers, file names and type names have hashes of their own, which are left out. Characters are signed, as on the compilers the server is built with.
- MemoryPool.Serve: one client, as all of them share the manager; the contents of bins, locks, hexadecimal conversion and the destructors (the manager's deletes five of its six stacks) are left out.
- MemoryPool.MemoryManager.ReleaseMemory: the caller holds the bin. Without that, `MemoryPool.ReleasedTwice` shows what happens.
- SessionTransactions.Session.StartProcessingTransaction: the list holds no null pointers, as nothing puts any there; the hash of a message is a parameter, scheduling of the task is not repeated here.
- SessionTransactions.Run: workers are represented by a call that finishes a transaction and adds errors.
- ConnectionManager.Open: ports are read as plain decimal digits; thousand separators and blanks that Poco's number parser may accept are left out, as are the effects on the MySQL handle before a later check fails.
- ConnectionManager.Manager.SetConnectionsFromConfig: the session pool is represented by the connection string stored for its type; a configured port that is not a number, for which Poco throws, is left out.
- Pages, JSON requests, e-mails, logging, error lists, SQL and the tables themselves, hexadecimal and Base64 conversion, and the floating-point and obfuscation code.
