# Verified model of the ECMNet server core

ECMNet hands out elliptic-curve, P-1 and P+1 factoring work to clients and keeps the counts of curves done on a master
server and its slave servers in step. This project models four parts of it in Dafny and proves what they are for:

- **the prime sieve** (`source/getprime.c`): a window of odd numbers that slides, doubles, and carries for every table
  prime the distance to its next multiple;
- **the expression evaluator** (`source/eval.c`): a recursive three-slot operator machine, factorials, primorials, and
  cyclotomic values computed by a Moebius product over bit masks and one exact division;
- **the synchronisation of curve counts** (`source/IAmASlave.cpp`, `source/IAmAMaster.cpp`,
  `source/MasterComposite.cpp`, `source/WorkReceiver.cpp`): two databases whose commits are staggered, with losses and
  refusals at any point;
- **the assignment of work** (`source/WorkSender.cpp`, `source/KeepAliveThread.cpp`, `source/SharedMemoryItem.cpp`):
  shares of strategies, the choice of the next unit, the search for a candidate, and the handshake that ends the
  keepalive thread.

## How the files hang together

| file | content |
|---|---|
| `Arithmetic.dfy`, `Primes.dfy` | divisibility; primes, tables of the first odd primes, the assumption on prime gaps |
| `Sieve.dfy` | the class `PrimeSieve` over its arrays, and the bounds that make one table doubling enough |
| `PrimeProducts.dfy`, `Primorials.dfy` | products of primes and factorials; successive primes, `n#` and `n#m` on top of the sieve |
| `Bezout.dfy`, `CyclotomicValues.dfy` | greatest common divisors; Moebius inversion over sets of primes; cyclotomic values |
| `PhiValues.dfy`, `PhiEvaluator.dfy` | the answers of `eval_Phi`; its factor loop, mask loop and exact division |
| `OperatorMeaning.dfy` | the operators of the power level and phi in mathematics, and exactly when machine words give them |
| `ExpressionMachine.dfy` | the register machine of `eval_2` as a function of text and cursor |
| `ExpressionGrammar.dfy`, `ExpressionMeaning.dfy`, `HeardExpressions.dfy`, `DiscardedOperators.dfy`, `ExpressionTrees.dfy` | grammar and what the machine computes, what is meant and what is heard, which shapes fail, printing and reading back |
| `ExpressionErrors.dfy`, `RefusalPlaces.dfy`, `ReadingOn.dfy`, `RefusedPhi.dfy`, `UndecidedPlaces.dfy`, `NoticedRefusals.dfy` | when an expression stops the program; what becomes of a text in which phi refuses its parameters |
| `Evaluator.dfy` | the imperative evaluator over its buffer, cursor and slot arrays, proved against the machine |
| `CurveTables.dfy`, `WorkDatabase.dfy` | work rows as values; a composite in a database with its transaction, and the send and receive loops |
| `SyncProtocol.dfy`, `SyncCoherence.dfy`, `SyncLedger.dfy`, `SyncSessions.dfy`, `SyncFailures.dfy`, `SyncRefinement.dfy` | master and slaves as a state machine over committed states: balance, coherence and locks, what is lost and resent, whole sessions, runs that end badly; the phases on the databases against it |
| `WorkReceiver.dfy`, `ReceiverCrashes.dfy` | the message loop for returned work, and which streams crash it |
| `KeepAlive.dfy`, `Scheduler.dfy`, `EcmAllocator.dfy`, `EcmRuns.dfy`, `CandidateLoop.dfy` | the parts of work assignment |
| `OwedDepths.dfy`, `CandidateComposites.dfy` | when P-1 and P+1 come first as promised; the search over composites that the allocator serves |
| `Wrappers.dfy` | a value that may be missing |

## Assumptions

There is one mathematical hypothesis, `ShortGapsBelow(limit)` (for all limits: `ShortGaps()`): for odd `x >= 11` and
`len * len >= x` with `x + 2 * len <= limit`, an odd prime lies in `[x, x + 2 * len)`. It is the code's own ASSERT at
`source/getprime.c:221` and has the strength of a well-known open conjecture. Everything else about the sieve follows
from it, also that the search for further table primes ends and that all table primes stay below the window
(`Sieve.PrimesForTable`). The cyclotomic evaluation needs no hypothesis of its own, only the primes of the sieve.

The shares of the strategies are assumed to add up to one hundred, which the scaling at `source/ecmserver.cpp:562-581`
(`Scheduler.ScaleToHundred`) sees to.

`MasterComposite::Lock` (`source/MasterComposite.cpp:86-93`) creates a new mutex for each object, so in the code as it
stands two holders do not exclude each other, whatever the comments of `source/IAmAMaster.cpp:262-264` intend. Giving
all objects of a composite one mutex would not be enough: in phase 1 the master releases it at
`source/IAmAMaster.cpp:285` and commits at line 288, the slave releases it at `source/IAmASlave.cpp:250` and commits
at line 105. The state machine of the synchronisation therefore has release and commit as two steps, and the lock as a
parameter: `Absent`, `UntilRelease`, or `UntilCommit`. What it proves for which:

- Conservation holds without any lock. So does coherence, but for one kind of step, a total that moves while a refresh
  is in flight (`SyncCoherence.HarmlessRunsAreCoherent`, `SyncCoherence.HarmfulStepsBreakCoherence`, with a run in
  `SyncFailures.UnlockedMasterLosesCoherence`).
- A lock held until the release leaves one way for that: a master that has released it commits its report while the
  refresh of another slave is in flight (`SyncCoherence.ReleasedRunIsHarmless`, with a run in
  `SyncFailures.ReleaseBeforeCommitLosesCoherence`).
- A lock held until the commit rules it out (`SyncCoherence.LockedRunIsHarmless`;
  `SyncCoherence.CoherenceAndConservation` puts the parts together). `SyncLedger.LostExactly` is about this lock too.

## Where the code and its documentation disagree

The model follows the code.

- `n#m` is documented as the product of the primes from m to n. The first result of the sieve is 3, so 2 is never
  included: right exactly when `m >= 3` or `n < 2` (`PrimeProducts.ReducedPrimorialMeetsItsName`).
- A bare `!` or `#` behind anything but the first operand discards what stands before its own operand: `2^3!` is 6
  (`HeardExpressions.PowerIsDiscarded`). What the machine computes instead is stated for every expression that has a
  value (`HeardExpressions.SumValueIsHeard`), and every such shape is wrong for some numbers
  (`DiscardedOperators.EveryOtherShapeFails`).
- A minus sign before `phi` is read and lost: wrong for all parameters but index 0 and argument 1, and there too
  unless the prime test takes 0 for a prime (`HeardExpressions.MinusBeforePhi`, `HeardExpressions.MinusIsLost`).
- Exponents and factorials lose their sign, `2^-3` is 8 and `-5!` is 120 (`OperatorMeaning.SignsAreDropped`), and
  operands are cut to machine words (`OperatorMeaning.WordsExactly`).
- `phi(b,1)` answers b for a prime b and 1 otherwise; right exactly when b is prime, or b is neither 1 nor a prime power
  (`CyclotomicValues.PhiAtOne`).
- A `phi` that refuses its parameters goes unnoticed within brackets and second parameters: `(phi(0,5))` is 5
  (`ExpressionErrors.RefusedPhiInBrackets`, `UndecidedPlaces.BracketHasSecondParameter`). Reading goes on behind the
  call, one closing bracket too early. Unless it stops the program, a text with one call that refuses is refused when
  the call stands on the level of the text, in a first parameter there, or in a first parameter inside one bracket or
  second parameter, and accepted when it stands in a second parameter or in brackets (`RefusedPhi.PlaceDecides`). At
  the places left, as in a bracket within a second parameter, the numbers decide
  (`UndecidedPlaces.BracketInParameterDecidesByValue`, `UndecidedPlaces.CallInParameterDecidesBySign`). Whatever else
  a text holds, it is refused when reading reaches a call that refuses outside all brackets and second parameters
  (`NoticedRefusals.RefusalIsNoticed`).
- `n!m` wraps around when m exceeds n by more than 2^63 (`OperatorMeaning.WordsGiveMultiFactorial`). The loop of `n!0`
  with n above 1 never ends, that of every other step does (`Evaluator.LoopEndsExactly`).
- A text of exactly 5000 characters does not fit its buffer (`Evaluator.BufferHoldsText`).
- The comment above `SendWork` promises P-1 and P+1 up to the depth of each; the loop stops at the smaller depth
  (`OwedDepths.DeeperMethodIgnored`, and exactly when the promise is kept in `OwedDepths.PromiseExactly`).
- `GetECMIndexAndCurves` returns an index past the table when every bound is below the minimum and none above the
  maximum (`EcmAllocator.RunsPastTableExactly`).
- The search for a candidate never ends when rows are fetched but none has work (`CandidateLoop.IdleRowsNeverEnd`;
  exactly when it does not end in `CandidateLoop.SearchesForever`, and for all random numbers in
  `CandidateLoop.EndsForAllRandoms`).
- The threshold of a strategy is documented in hours (`server/readme.txt:118-122`). It is multiplied by 3600 when it
  is read (`source/ecmserver.cpp:709`) and again when it is used (`source/WorkSender.cpp:125`), so it is that many
  hours only when it is zero (`CandidateLoop.ThresholdInHours`), and the bound of the search is as large. `hourBreak`
  in `CandidateLoop` is the stored number.
- The example that follows there (`server/readme.txt:124-135`) multiplies the hours below the threshold by the fifth
  setting and those above by the sixth. The code, and the description before the example, have it the other way round.
- A factor message can be looked up in an object that is not there (`ReceiverCrashes.CrashesExactly`).
- Curves that a client returns to a slave between the two phases are overwritten
  (`SyncFailures.ReturnBetweenPhasesIsLost`, and exactly when in `SyncLedger.LostExactly`).
- The comment of `source/IAmAMaster.cpp:262-264` keeps other slaves and clients waiting until the synchronisation is
  complete; the lock is released before the commit (`SyncFailures.ReleaseBeforeCommitLosesCoherence`).

## Model

| member | source | states |
|---|---|---|
| Sieve.WindowGrowth | source/getprime.c:129-143 | moving the window on and doubling its length at most once keeps offset <= len^2 < 4*offset |
| Sieve.OneExtensionSuffices | source/getprime.c:145-198 | the end of the next window stays below (p+2)^2 for the old last table prime p, so the next prime's square reaches it |
| Sieve.ShapeAdvances | source/getprime.c:128-198 | from each reachable combination of table length, offset and window length the next window is again a reachable one |
| Sieve.PrimesForTable | source/getprime.c:185-190 | when the table doubles, as many further odd primes lie above its last entry and below the window |
| Sieve.FirstMultipleIndex | source/getprime.c:191-196 | the new entry's modulus is below p and p divides offset + 2*modulus |
| Sieve.IsPrimeByTable | source/getprime.c:97-107 | trial division by the filled part of the table decides primality and never leaves that part |
| Sieve.NextTablePrime | source/getprime.c:188-190 | the search ends at the least odd prime above the last table entry |
| Sieve.StrikeMultiples | source/getprime.c:211-214 | exactly the multiples of p in the window are cleared, the sentinel stays, and the carried index divides again |
| Sieve.SievedIsMarked | source/getprime.c:67-77 | with a table that fits, an entry is set if and only if its number is prime |
| Sieve.WindowNotEmpty | source/getprime.c:218-221 | under the gap hypothesis the window just sieved holds a prime, in every reachable shape |
| Sieve.ScanSkipsNoPrime | source/getprime.c:112-126 | from one set entry to the next no odd prime is passed over |
| Sieve.PrimeSieve.Clear | source/getprime.c:79-92 | the state from which the sequence starts again at 3 |
| Sieve.PrimeSieve.SieveWindow | source/getprime.c:201-216 | an entry survives if and only if no table prime divides it, and every modulus fits the window that follows |
| Sieve.PrimeSieve.ExtendTable | source/getprime.c:172-198 | the table becomes the first 2n odd primes, all below the window, with fitting moduli, reaching the root of the window's end |
| Sieve.PrimeSieve.Initialize | source/getprime.c:148-171 | the first call leaves the invariant of all later ones |
| Sieve.PrimeSieve.AdvanceWindow | source/getprime.c:128-216 | the next window is marked by primality and the whole state invariant holds again |
| Sieve.PrimeSieve.GetPrime | source/getprime.c:109-223 | from any reachable state the result is the least odd prime above the last result, and the state stays reachable |
| Primes.FirstOddPrimesUnique | source/getprime.c:40-50 | there is one sequence of first odd primes of each length, so the predicate names the k-th odd prime |
| Primorials.OddPrimesInOrder | source/getprime.c:40-50 | for every k, the first k results after a clear are the first k odd primes in order |
| Primorials.Primorial | source/eval.c:161-171 | n# is the product of all primes up to n |
| Primorials.ReducedPrimorial | source/eval.c:172-191 | n#m as the loop computes it: the product of the primes from max(m,3) to n |
| PrimeProducts.ReducedPrimorialMeetsItsName | source/eval.c:172-191 | that is the product of the primes from m to n if and only if m >= 3 or n < 2 |
| PrimeProducts.StepOneIsFactorial | source/eval.c:144-160 | the multi-factorial with step one is the factorial |
| CyclotomicValues.EvenIsQuoTimesOdd | source/eval.c:345-369 | the product over the odd sets of primes is not zero and divides the product over the even sets |
| CyclotomicValues.Inversion | source/eval.c:318-369 | Moebius inversion: for any integers that multiply to f(m) over the divisors, the even product is the value's product times the odd one |
| CyclotomicValues.CyclotomicProduct | source/eval.c:288-369 | the cyclotomic values multiply to n^m - 1 over the divisors of m, for every m and every n other than 1 and -1 |
| CyclotomicValues.MoebiusQuotientIsCyclotomic | source/eval.c:369-369 | numerator = value * denominator with a denominator that is not zero: the final division is exact and yields the value |
| CyclotomicValues.CyclotomicUnique | source/eval.c:288-369 | whatever integers multiply to n^m - 1 over the divisors of every divisor m of b, the one for b is the value returned |
| CyclotomicValues.ValuesAtOneExist | source/eval.c:258-267 | integers that multiply to m over the divisors of m exist, for every number: the values beyond n - 1 at n = 1 |
| CyclotomicValues.ValueAtOne | source/eval.c:260-260 | the value at 1 is the prime for a prime power and 1 for a number with two primes |
| CyclotomicValues.PhiAtOne | source/eval.c:258-267 | at n = 1 the answer is right, for every b from 1 on, if and only if b is prime or b is neither 1 nor a prime power |
| PhiEvaluator.RemoveFactor | source/eval.c:306-307 | a prime is divided out completely and no other prime divisor changes |
| PhiEvaluator.CollectPrimeFactors | source/eval.c:298-310 | exactly the distinct primes dividing b, ascending, although the loop's bound shrinks; they fit the array |
| PhiEvaluator.PowerIsExact | source/eval.c:321-337 | for every mask the exponent times the product of the chosen primes is b |
| PhiEvaluator.MasksGiveMoebiusProducts | source/eval.c:318-368 | multiplying over all masks gives the Moebius products over sets of primes |
| PhiEvaluator.Term | source/eval.c:320-337 | the inner loop computes that exponent and the parity of the chosen set |
| PhiEvaluator.MoebiusProducts | source/eval.c:312-368 | the mask loop computes numerator and denominator |
| PhiEvaluator.EvalPhi | source/eval.c:244-375 | the value returned for every b and n, with every refusal and special case of the code; for 2 <= b < 2^31 the cyclotomic value |
| ExpressionGrammar.RunSum | source/eval.c:378-565 | from any position the machine reads a shown expression to its terminator and returns its value, cursor one past the terminator |
| ExpressionGrammar.SumPrefix | source/eval.c:543-552 | reading a sum leaves slots whose collapse is its value: sums bind weakest and associate to the left |
| ExpressionGrammar.ProductPrefix | source/eval.c:533-540 | the same for products, which leave the sum slot alone |
| ExpressionGrammar.ChainPrefix | source/eval.c:499-530 | the same for powers, factorials and primorials, which leave sum and product slot alone |
| ExpressionGrammar.SignedPrefix | source/eval.c:398-473 | a number, a bracket or a call of phi leaves all slots alone |
| ExpressionGrammar.WholeText | source/eval.c:378-565 | a whole text: value and cursor for every expression that has a value |
| ExpressionErrors.MachineDecides | source/eval.c:209-222 | when no phi is refused, the machine returns the value of an expression that has one, and stops the program for one that has none, wherever in it a division, a product or phi fails |
| RefusedPhi.PlaceDecides | source/eval.c:405-448 | unless it stops the program, a text with at most one call that refuses, at a place that decides, is refused if and only if there is one and it stands on the level of the text, in a first parameter there, or in a first parameter inside one bracket or second parameter; it is accepted if and only if no call refuses, or it stands in a second parameter or in brackets |
| UndecidedPlaces.BracketHasSecondParameter | source/eval.c:405-410 | a bracket around a call that refuses has the value of the call's second parameter |
| UndecidedPlaces.BracketInParameterDecidesByValue | source/eval.c:434-446 | phi(1,(phi(0,x))) is refused if and only if x is -1, and is x - 1 otherwise, although phi(0,x) stands at the same place |
| UndecidedPlaces.CallInParameterDecidesBySign | source/eval.c:424-431 | ((phi(R,x))) with a call R that refuses is refused if and only if x has no minus, and is a sum otherwise |
| NoticedRefusals.RefusalIsNoticed | source/eval.c:417-445 | every text in which reading reaches a call that refuses outside all brackets and second parameters is refused, whatever else is in it; when the only one stands on the level of the text, it is refused exactly then and stops the program otherwise |
| OperatorMeaning.WordsExactly | source/eval.c:142-191 | an operator on machine words gives its mathematical value if and only if the operands stay within the stated words; for the two-place ! and # when the operands fit a long and an unsigned long |
| OperatorMeaning.InWordsIsExact | source/eval.c:142-191 | within the stated words it does so for all operands |
| OperatorMeaning.PhiExactly | source/eval.c:244-375 | phi gives the value of the cyclotomic polynomial if and only if b is below 2^31, or, at n = 1, under the condition above |
| OperatorMeaning.SignsAreDropped | source/eval.c:142-145 | a negative exponent or factorial, which has no such value, is computed with its sign dropped |
| OperatorMeaning.WordsGiveMultiFactorial | source/eval.c:146-160 | n!m on machine words is n(n-m)(n-2m)... if and only if n <= 1 or n - m does not wrap |
| ExpressionMeaning.MachineRefinesMeaning | source/eval.c:378-565 | a plain expression with a mathematical value whose numbers fit their words evaluates to that value: precedence, left association at every level, suffixes on all that precedes them |
| HeardExpressions.SumValueIsHeard | source/eval.c:398-530 | every expression that has a value: it is the intended value of what the machine hears of it, brackets, parameters and minus signs included |
| HeardExpressions.HeardInFull | source/eval.c:398-530 | the plain expressions are exactly those of which nothing is discarded |
| DiscardedOperators.EveryOtherShapeFails | source/eval.c:505-530 | every shape of a chain with a suffix behind anything else than the first operand has numbers for which the value is wrong |
| DiscardedOperators.OtherShapesArePlain | source/eval.c:505-530 | the remaining shapes, with plain operands, are the plain chains |
| HeardExpressions.MinusBeforePhi | source/eval.c:417-448 | a minus before phi gives the right value if and only if there is none, or the parameters are 0 and 1 and the prime test takes 0 for a prime |
| HeardExpressions.PowerIsDiscarded | source/eval.c:505-513 | 2^3! evaluates to 6 |
| HeardExpressions.MinusIsLost | source/eval.c:398-448 | -phi(1,3) evaluates to 2 |
| ExpressionTrees.RoundTrip | source/eval.c:378-565 | any tree printed with explicit brackets evaluates to its value, with the cursor just past the end |
| ExpressionTrees.RoundTripMeans | source/eval.c:378-565 | and to its mathematical value when it has one and the numbers fit their words |
| ExpressionTrees.PowerForm | source/eval.c:47-66 | the text n^m evaluates to n to the size of m, for every n and every m below 2^64 in size |
| ExpressionTrees.FactorialForm | source/eval.c:47-66 | n! evaluates to the factorial of the size of n |
| ExpressionTrees.MultiFactorialForm | source/eval.c:47-66 | n!m evaluates to n(n-m)(n-2m)... down to the last factor above one |
| ExpressionTrees.PrimorialForms | source/eval.c:47-66 | n# evaluates to the product of the primes up to n, and n#m to that of the primes from max(m,3) to n |
| ExpressionTrees.PhiForm | source/eval.c:47-66 | phi(b,n) evaluates to the cyclotomic value for 2 <= b < 2^31 and n other than 1 and -1 |
| ExpressionTrees.DivisionIsExact | source/eval.c:209-220 | division yields q if and only if the divisor is not zero and q times it is the dividend |
| ExpressionTrees.RemainderOfDividend | source/eval.c:221-222 | the remainder is the one that is smaller than the divisor and has the sign of the dividend |
| Evaluator.MultiFactorialLoop | source/eval.c:148-159 | the loop on a long and an unsigned long computes that product, and ends for every step but zero |
| Evaluator.LoopEndsExactly | source/eval.c:146-160 | the counter of the multi-factorial loop comes down to 1 after some number of rounds if and only if it starts there or the step is not zero |
| Evaluator.EndlessExactly | source/eval.c:146-160 | the operator is without a result if and only if that counter stays above 1 after every number of rounds |
| Evaluator.ApplyPower | source/eval.c:130-192 | the operators of the power slot, over the sieve for primorials |
| Evaluator.ApplyProduct | source/eval.c:194-223 | a division returns q if and only if the divisor is not zero and q times it is the dividend; a remainder is the smaller one with the sign of the dividend; everything else ends the program |
| Evaluator.BufferHoldsText | source/eval.c:93-104 | text and NUL fit the buffer if and only if the length is not 5000 |
| Evaluator.Parser.ReadNumber | source/eval.c:457-472 | the number read, and the buffer as it was before the temporary NUL |
| Evaluator.Parser.ReadOperand | source/eval.c:398-473 | reading an operand over the buffer does what the machine does |
| Evaluator.Parser.ReadPhi | source/eval.c:417-448 | the two parameters of phi, with both ways of failing |
| Evaluator.Parser.ReadOperator | source/eval.c:484-562 | reading an operator and working off the slots does what the machine does |
| Evaluator.Parser.Eval2 | source/eval.c:378-565 | one call of the recursive evaluator is one run of the machine, and the buffer is unchanged |
| Evaluator.EvalStr | source/eval.c:87-127 | the length of the decimal value and the probable-prime answer, or 0 when the text is refused |
| Evaluator.IntTextReadsBack | source/eval.c:87-127 | the decimal text of any integer evaluates to that integer |
| CurveTables.AppliedIsMerged | source/IAmAMaster.cpp:391-409 | in whatever order the rows of a report arrive, the upserts merge it row by row |
| CurveTables.InsertedIsInstalled | source/IAmASlave.cpp:738-753 | in whatever order the master's rows arrive, the inserts install them |
| CurveTables.PendingCounts | source/IAmASlave.cpp:264-267 | a report carries what is unreported in every row, except in rows below zero |
| CurveTables.AddWorkTotals | source/MasterComposite.cpp:109-127 | returning n curves raises the stored total by n times the bound for ECM and leaves it for other methods |
| WorkDatabase.MasterComposite.AddWorkDone | source/MasterComposite.cpp:249-307 | update or insert: the row gains n local and n unreported curves, every other row stays |
| WorkDatabase.MasterComposite.InsertWorkDoneFromMaster | source/MasterComposite.cpp:205-224 | a new row with nothing unreported; fails on a row that is there |
| WorkDatabase.MasterComposite.SendUpdatesToAllSlaves | source/MasterComposite.cpp:364-380 | every existing flag is set, no flag appears |
| WorkDatabase.MasterComposite.SentUpdateToSlave | source/MasterComposite.cpp:382-400 | the flag of that slave is cleared if it exists, no other changes |
| WorkDatabase.MasterComposite.SumEcmRows | source/MasterComposite.cpp:109-127 | the loop over the rows, in whatever order, computes the sum of curves times bound of the ECM rows |
| WorkDatabase.MasterComposite.EndSync | source/IAmAMaster.cpp:271-293 | on success every flag is set, the total is recomputed and the transaction committed; otherwise nothing is |
| WorkDatabase.SendWorkToMaster | source/IAmASlave.cpp:260-307 | the messages carry each unreported row once, and the open transaction has exactly those rows at zero |
| WorkDatabase.SendWorkToSlave | source/IAmAMaster.cpp:683-705 | the messages carry every row once |
| WorkDatabase.ReceiveWorkFromSlave | source/IAmAMaster.cpp:299-386 | succeeds if and only if everything before the end of the composite is understood and handled, then all rows are applied; fatal if and only if the end never comes |
| WorkDatabase.ReceiveWorkFromMaster | source/IAmASlave.cpp:592-672 | succeeds if and only if everything up to the end is understood and handled and no row comes twice; then the rows replace all rows |
| WorkDatabase.ReportRound | source/IAmAMaster.cpp:168-187 | phase 1: master merged and committed with every flag set; slave equal to it with nothing unreported and committed, or, when the last answer is lost, as it was |
| WorkDatabase.RefreshRound | source/IAmAMaster.cpp:545-570 | phase 2: slave equal to the master, the master's rows unchanged, and the slave's flag cleared unless the last answer is lost |
| SyncProtocol.StepKeepsBalance | source/IAmAMaster.cpp:131-212 | every step of every session, loss, refusal and client return keeps sessions in order and the curves of each row in balance, without any lock |
| SyncCoherence.StepKeepsInStep | source/IAmAMaster.cpp:545-570 | every step but one kind keeps clean slaves coherent, without any lock |
| SyncProtocol.Conservation | source/IAmAMaster.cpp:131-212 | in every run, with overlapping sessions and returns, no curve of a row is lost or counted twice but what the ledger says |
| SyncCoherence.HarmlessRunsAreCoherent | source/IAmAMaster.cpp:271-293 | in every run in which no total of the master moves while a refresh is in flight, a clean slave has per row what the master has and what it has not reported |
| SyncCoherence.HarmfulStepsBreakCoherence | source/MasterComposite.cpp:86-93 | conversely every step that moves a total while the rows or the answer of a refresh are in flight has a continuation that ends with that slave clean and not coherent |
| SyncCoherence.ReleasedRunIsHarmless | source/IAmAMaster.cpp:284-290 | a lock that excludes but is released before the commit rules those steps out if and only if no commit of a report meets the refresh of another slave in flight |
| SyncFailures.ReleaseBeforeCommitLosesCoherence | source/IAmAMaster.cpp:284-290 | a run of two slaves under that lock that ends with a clean slave that lacks five curves |
| SyncCoherence.LockedRunIsHarmless | source/IAmAMaster.cpp:262-264 | a lock held until the changes are committed rules those steps out |
| SyncLedger.LostExactly | source/IAmASlave.cpp:487-505 | with locks held until the commit, curves are overwritten if and only if phase 2 meets unreported rows, or phase 1 a row below zero |
| SyncLedger.ResentExactly | source/IAmASlave.cpp:98-113 | what master and slaves account for moves by something else than what clients return if and only if a session ends between the master's commit and the slave's |
| SyncLedger.RowAddsUp | source/IAmASlave.cpp:199-253 | over a whole run: nothing is lost when nothing unreported is overwritten, nothing is counted twice when no session is cut between the commits, and the row adds up exactly when neither happens |
| SyncSessions.Phase1Uncut | source/IAmASlave.cpp:144-254 | an uninterrupted phase 1 as a run: what the slave owed has moved to the master |
| SyncSessions.Phase1Cut | source/IAmASlave.cpp:193-212 | phase 1 cut before the master's last answer: the master has the report, the slave still owes it, and the ledger says so |
| SyncSessions.Phase2Uncut | source/IAmAMaster.cpp:601-678 | an uninterrupted phase 2 as a run: the slave has the master's totals and its flag is cleared |
| SyncSessions.Phase2Cut | source/IAmAMaster.cpp:640-655 | phase 2 cut before the slave's last answer: the slave has the master's totals and stays marked |
| SyncSessions.SessionUncut | source/IAmASlave.cpp:45-74 | an uninterrupted session: master and slave agree per row, the slave is clean, nothing is lost or resent |
| SyncSessions.CanRecover | source/IAmAMaster.cpp:526-596 | from every state, however sessions were cut, a run that respects the locks brings a registered dirty slave in line |
| SyncRefinement.Report | source/IAmASlave.cpp:144-254 | phase 1 carried out on the two databases, cut before its last answer or not, leaves in them what the matching run leaves in the state |
| SyncRefinement.Refresh | source/IAmAMaster.cpp:601-678 | the same for phase 2, and both databases are coherent |
| SyncFailures.UnlockedMasterLosesCoherence | source/MasterComposite.cpp:86-93 | a run without exclusion that ends with a clean slave that lacks a curve |
| SyncFailures.ReturnBetweenPhasesIsLost | source/IAmASlave.cpp:682-733 | a run with exclusion that loses five curves returned between the phases |
| WorkReceiver.Receiver.EndWork | source/WorkReceiver.cpp:248-281 | commit with a reply, or roll back; without an open unit nothing happens |
| WorkReceiver.Receiver.ProcessMessages | source/WorkReceiver.cpp:186-246 | the message loop over its mutable state does what the session function says, for every stream |
| WorkReceiver.HandledCommits | source/WorkReceiver.cpp:192-223 | a message commits exactly the unit that was in order up to it and that it closes |
| WorkReceiver.CommittedExactlyAccepted | source/WorkReceiver.cpp:186-281 | at every point of every stream the committed rows are those at the start and the accepted units |
| WorkReceiver.StreamCommitsAccepted | source/WorkReceiver.cpp:186-246 | the same at the end of the loop, however it ends; replies and count are the accepted units, in order |
| WorkReceiver.CurvesAdded | source/WorkReceiver.cpp:473-474 | row by row of a master composite the committed curves grow by the curves of the accepted units for its composites |
| ReceiverCrashes.CrashesExactly | source/WorkReceiver.cpp:186-246 | the receiver uses an object that is not there if and only if it reaches a readable factor message before any unit, after a closed one with nothing but closing messages since, or a detail for the open unit before its event |
| ReceiverCrashes.ThreeKindsOfCrash | source/WorkReceiver.cpp:374-379 | one stream of each kind |
| KeepAlive.StepKeepsInvariant | source/KeepAliveThread.cpp:57-80 | every step of thread and sender keeps lock, cell and program points consistent, and one keepalive per four looks |
| KeepAlive.TerminatedStays | source/WorkSender.cpp:188-206 | TERMINATED is never overwritten before the thread object is deleted |
| KeepAlive.KeepaliveOnlyWhileWaiting | source/KeepAliveThread.cpp:66-71 | a keepalive is sent only at a fourth look that reads WAITING, never once the sender is past its loop |
| KeepAlive.DeletedThreadIsOver | source/WorkSender.cpp:186-206 | in every interleaving, when the sender deletes the thread object the thread has no step left |
| KeepAlive.NobodyBlocks | source/SharedMemoryItem.cpp:96-117 | the holder of the lock can always go on, and somebody always can |
| KeepAlive.ThreadEnds | source/KeepAliveThread.cpp:57-80 | once TERMINATE is stored the thread takes at most seven more steps, whatever the sender does |
| KeepAlive.SenderLeaves | source/WorkSender.cpp:186-206 | once TERMINATED is stored the sender leaves within four of its own steps |
| Scheduler.Strategies.Choose | source/WorkSender.cpp:60-75 | the first strategy behind its share, or the first of all |
| Scheduler.Strategies.Record | source/WorkSender.cpp:157-166 | the unit is added to its strategy and to the total, nothing else changes |
| Scheduler.ChosenNotAhead | source/WorkSender.cpp:60-75 | the chosen strategy has not sent more than its share, even when it is taken for want of another |
| Scheduler.SharesDriftBounded | source/WorkSender.cpp:58-166 | in every run each strategy stays within its share plus K*W and minus (n-1)*K*W, and the amounts add up to the total |
| EcmAllocator.GetEcmIndexAndCurves | source/WorkSender.cpp:267-304 | the loop over the table, with each of its ways out |
| EcmAllocator.FindsLowestOpenLevel | source/WorkSender.cpp:271-298 | a level is chosen if and only if it is the lowest allowed one whose cumulative work is not reached |
| EcmAllocator.RunsPastTableExactly | source/WorkSender.cpp:272-303 | the index runs past the table if and only if every bound is below the minimum and none is above the maximum |
| EcmAllocator.SendWork | source/WorkSender.cpp:213-264 | the unit sent, P-1 and P+1 first |
| EcmAllocator.EcmOnlyWhenNothingOwed | source/WorkSender.cpp:228-263 | ECM curves are sent if and only if nothing is owed up to the smaller of the two depths |
| OwedDepths.PromiseExactly | source/WorkSender.cpp:211-263 | the promise that neither method is owed within its own depth when ECM is sent holds for all tables of rows, with the work they come to, if and only if no level that can be served exposes a level between the two depths that wants more of the deeper method |
| OwedDepths.EqualDepthsKeepPromise | source/WorkSender.cpp:225-228 | equal depths keep the promise |
| OwedDepths.DeeperMethodIgnored | source/WorkSender.cpp:228-263 | a configuration for which an ECM curve is sent while a P-1 curve within its depth is owed |
| EcmRuns.CurvesOvershoot | source/WorkSender.cpp:289-301 | one unit brings the total past the level's sum less one curve and over it by less than one curve |
| EcmRuns.UnitMakesProgress | source/WorkSender.cpp:213-264 | every unit sent and returned lowers the number of units that can still come |
| EcmRuns.TwoUnitsPerLevel | source/WorkSender.cpp:286-301 | no level takes more than two ECM units in any run |
| EcmRuns.RunEnds | source/WorkSender.cpp:213-304 | assigning and completing units ends, after at most four units for each configured level |
| EcmRuns.RunCompletes | source/WorkSender.cpp:213-304 | a composite that starts below ends with its ECM work in [sumWork[L], sumWork[L] + b1[L]) for the last allowed level L |
| CandidateLoop.FindCandidate | source/WorkSender.cpp:135-182 | with work somewhere, the search ends within ceil((99 - select + sub*hourBreak)/10) + 1 passes, at least one, for all random numbers |
| CandidateLoop.SurePassSends | source/WorkSender.cpp:143-155 | from that pass on a pass sends work if and only if some row has any |
| CandidateLoop.SearchesForever | source/WorkSender.cpp:135-182 | the search never ends if and only if rows keep coming and the random numbers pass over every row with work in every pass |
| CandidateLoop.EndsForAllRandoms | source/WorkSender.cpp:135-182 | for given rows and any settings the search ends for all random numbers if and only if some pass fetches nothing or has a row with work that the largest random number lets through |
| CandidateLoop.IdleRowsNeverEnd | source/WorkSender.cpp:135-182 | rows without any work keep the search running after every number of passes |
| CandidateLoop.ThresholdInHours | server/readme.txt:118-122 | the threshold is the configured number of hours if and only if that number is zero |
| CandidateLoop.OldRowHeldBack | server/readme.txt:124-135 | with the strategy of the example a row sent 28 hours ago is held back by 71944 percent |
| CandidateComposites.WorkExactly | source/WorkSender.cpp:213-264 | a composite sends work if and only if the ECM work of some allowed level is not complete |
| CandidateComposites.FindComposite | source/WorkSender.cpp:135-182 | with a composite of that kind in every pass the search sends work within the bound, for all random numbers |
| CandidateComposites.SearchesForeverExactly | source/WorkSender.cpp:135-182 | the search never ends if and only if composites keep coming and every one with such a level is passed over in every pass |
| CandidateComposites.EndsForAllRandomsExactly | source/WorkSender.cpp:135-182 | it ends for all random numbers if and only if some pass fetches nothing or a composite with such a level that the largest random number lets through |

## Left out

- `getprime_seek` (`source/getprime.c:229-305`): not called by the evaluator, and its table does not reach the root of the window's end.
- Doubles: offsets of the sieve and counts of work are integers below 2^53, the rounding of `sqrt` is not modelled; in the scheduler they are reals.
- The width of the sieve's own `int` and `unsigned` variables, and the cast `(unsigned) p` of primes above 2^32 in primorials.
- GMP: integers are unbounded, `mpz_probab_prime_p` is a parameter, running out of memory is not modelled.
- Texts that are not expressions of the grammar: the machine and the evaluator are defined and proved equal for them, but they have no value to refine; reading past the NUL ends the model's run.
- ExpressionErrors.MachineDecides: says nothing of expressions in which phi refuses its parameters; `RefusedPhi`, `UndecidedPlaces` and `NoticedRefusals` do.
- RefusedPhi.PlaceDecides: leaves open what is read when several calls refuse, or when one stands at the places called `Beyond`, where the numbers decide; and which accepted texts stop the program behind the call.
- KeepAlive, SyncProtocol and the open requests of Scheduler are state machines on values, because what is proved of them is about interleavings; the methods beside them change the fields of their objects.
- `mpOne` is taken to be initialised.
- The probable-prime answer of `eval_str` when the caller passes no place for it.
- The rows of composites, factor events and user statistics in the synchronisation, whose messages only succeed or fail; the comparison of values, which `MasterComposite::SetValue` makes against the name (`source/MasterComposite.cpp:97`), is taken to succeed.
- Row locks of the database itself: transactions see what is committed, and a slave's commit replaces rows that a client has changed meanwhile.
- Failing SQL statements, except the insert of a row that is there; composites that have no length, for which `FinalizeChanges` fails; curve counts that exceed the `%d` of the work messages.
- `PopulateMasterSlaveSync`: registering a slave is one step that may happen or not; the rollback that can undo it is covered by its not happening.
- A slave that is itself a master: the flags it keeps for its own slaves are written but not followed further.
- SyncProtocol.Conservation: one composite, and message loss is modelled by dropping a whole batch, because each side sends its rows as one buffered batch.
- OperatorMeaning.WordsExactly: for the two-place `!` and `#` with operands beyond their words only the direction of `OperatorMeaning.InWordsIsExact` is stated, because such products can agree by accident.
- OperatorMeaning.PhiExactly: the value at -1, which the code refuses, is not defined.
- SyncSessions.CanRecover: shows that a run exists, not that a server takes it.
- Scheduler.SharesDriftBounded: the choice of a strategy is one step, although the code reads the total outside the lock that protects its update.
- EcmRuns.RunEnds: units are sent and returned in full one after the other; concurrent assignments of one composite are not modelled.
- EcmAllocator.FindsLowestOpenLevel: bounds and work are integers, the conversion of the number of curves to 32 bits is not modelled.
- CandidateLoop.FindCandidate: percents, hours and times are integers, the settings are not negative and no row was sent in the future.
- WorkReceiver.StreamCommitsAccepted: the comparison with `goodMessage` before any unit was opened reads an uninitialised buffer, which is taken not to match.
- Deleting rows of pending work, marking composites fully factored, replies other than the acceptance of work.
- Sockets, logging, mail, HTML, configuration files, threads other than the keepalive thread, the client.
