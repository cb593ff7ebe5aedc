# Coroutine timer loop and value printer, modelled in Dafny

This project models two parts of a small C++20 utility library.

**The coroutine runtime** (`include/coroutines/coro.cpp`):

- the result slot `Uninitialized<T>`, the `Promise` and the two awaiters (`PreviousAwaiter`, `Task::Awaiter`) that chain coroutines by symmetric transfer;
- the timer set ordered by expiry, with `Loop::addTimer` and `Loop::run`, the single-threaded loop that resumes the root coroutine and then fires expired sleepers front first;
- the `when_all` / `when_any` combinators: their control blocks, the awaiter that starts the helper coroutines, the helpers themselves, and how the parent builds its tuple or variant.

The whole program is an explicit state advanced by pure transitions. The root coroutine is a script of steps: `co_await sleep_for(d)` or `co_await sleep_until(t)`, a bare suspension, or `co_await when_all/when_any(children...)`. Each child is "sleep for `d` or until `t`, then return a value or throw". Durations may be negative and time points may lie in the past. An exception a combinator rethrows into the root is stored by the root's `unhandled_exception`, and the root then finishes. `EventLoop.Run` is `Loop::run` as a method with loops. It is proved to terminate with the root finished, normally or by an exception, with every combinator it reached settled, and with the fired log a permutation of the registration log: every sleeper registered up to that point fired, once per registration. This includes the sleepers of helpers a combinator no longer waits for. The source destroys those frames, and the model assumes their sleepers stay registered and fire harmlessly (see "## Left out"). Sleepers fire in expiry order among those that were waiting together; one registered later, for example with a deadline already past, may fire after a sleeper with a later expiry.

**The pretty-printer** (`include/print/print.h`):

- the type traits and the `_printer` specialisation each type selects (`PrintTraits`);
- a value tree with one constructor per specialisation and its rendering (`Printer.Render`);
- the stream-writing printers with their `once` separator flags;
- the entry points `print`, `printnl`, `eprint`, `eprintnl` and `to_string`.

A character is printed through `std::quoted`. That manipulator is modelled after [quoted.manip] of the C++ standard, together with its extractor, so the quoting can be shown to round-trip.

Files: `basics.dfy`, `promise.dfy`, `timers.dfy`, `combinators.dfy`, `scheduler.dfy`, `scheduler_proofs.dfy`, `loop_proofs.dfy`, `loop.dfy`, `print_traits.dfy`, `printer.dfy`.

## Model

| member | source | states |
|---|---|---|
| Promises.PutValue | include/coroutines/coro.cpp:44-47 | placement-constructing into an empty slot leaves it holding exactly that value |
| Promises.MoveValue | include/coroutines/coro.cpp:38-42 | moving out yields the held value and leaves the slot empty |
| Promises.NewPromise | include/coroutines/coro.cpp:175-177 | a fresh promise has no continuation, no captured exception and an empty slot |
| Promises.ReturnValue | include/coroutines/coro.cpp:156-162 | `return_value` fills the slot with the value and leaves the continuation and exception alone |
| Promises.UnhandledException | include/coroutines/coro.cpp:152-154 | the escaping exception is captured, overwriting any earlier one; nothing else changes |
| Promises.Result | include/coroutines/coro.cpp:164-169 | a captured exception is rethrown and the promise is kept; otherwise the value is moved out and the promise can no longer be consumed |
| Promises.VoidResult | include/coroutines/coro.cpp:199-203 | the void promise throws exactly when an exception was captured, and throws that exception |
| Promises.FinalSuspend | include/coroutines/coro.cpp:123-150 | a finished coroutine continues at its recorded awaiter if there is one, and at `noop_coroutine` otherwise |
| Promises.AwaitSuspend | include/coroutines/coro.cpp:234-238 | awaiting a task records the awaiter as the task's continuation and transfers into the task; the exception and slot are untouched |
| Promises.AwaitReturnsToAwaiter | include/coroutines/coro.cpp:229-242 | await, then return `v`: control comes back to exactly the awaiter, which receives `v`, and the slot is left empty |
| Promises.UnawaitedFinishesIntoNoop | include/coroutines/coro.cpp:130-136 | a task nobody awaits finishes into `noop_coroutine` |
| Promises.ExceptionIsRethrown | include/coroutines/coro.cpp:164-167 | a captured exception takes precedence over a stored value and is rethrown on every call |
| Timers.InsertSorted | include/coroutines/coro.cpp:267-277 | `addTimer` keeps the timer set ordered by expiry, whatever the tie choice |
| Timers.InsertPermutes | include/coroutines/coro.cpp:275-277 | inserting adds exactly the new sleeper: the multiset grows by it and nothing else |
| Timers.EveryPlacementIsAnInsert | include/coroutines/coro.cpp:267-269 | any position consistent with expiry order, including any place among equal expiries, is reached by some tie choice |
| Timers.InsertFresh | include/coroutines/coro.cpp:275-277 | inserting a sleeper of a new owner keeps the set sorted and owners unique, and adds exactly that owner |
| Timers.Front | include/coroutines/coro.cpp:285 | `front()` is a member with the least expiry |
| Timers.EraseFront | include/coroutines/coro.cpp:287 | erasing the front leaves a sorted set that, after the front, is the original |
| Timers.FiveOneThreeFiresOneThreeFive | include/coroutines/coro.cpp:267-277 | sleepers registered with expiries 5, 1, 3 sit in the order 1, 3, 5 |
| Combinators.Decrement | include/coroutines/coro.cpp:433 | prefix `--` on a `size_t` subtracts one, wrapping from 0 to the largest value, as `--control.mCount` does; the `--control.mIndex` at line 499 is overwritten at once, so `when_any` only assigns |
| Combinators.AwaitSuspend | include/coroutines/coro.cpp:405-412 | with no helpers the awaiter resumes at once; otherwise the awaiter becomes the continuation, helpers 0..n-2 are resumed in order and control transfers to helper n-1, so each helper starts exactly once |
| Combinators.AllResume | include/coroutines/coro.cpp:440-449 | `when_all`'s parent rethrows a captured exception; otherwise it returns every slot's value at its own position and empties the slots |
| Combinators.AnyResume | include/coroutines/coro.cpp:503-514 | `when_any`'s parent rethrows a captured exception; otherwise it returns the value of slot `mIndex` as alternative `mIndex` |
| Combinators.ReturnToParent | include/coroutines/coro.cpp:356-366 | a helper returning null resumes nothing; one returning the parent finishes a waiting parent with its assembled result, and counts a transfer to an already finished parent |
| Combinators.CompleteAll | include/coroutines/coro.cpp:425-438 | a failing helper records its exception and resumes the parent; a succeeding one fills its slot and decrements the count, resuming the parent exactly when the count reaches zero, with the full tuple |
| Combinators.CompleteAny | include/coroutines/coro.cpp:491-501 | a helper records its exception or its value and index, then always resumes the parent; the first one to finish decides the parent's result |
| Combinators.Dispatched | include/coroutines/coro.cpp:443-446 | a freshly dispatched combinator has empty slots, a waiting parent, the count set to the number of children (`when_all`) or the null index (`when_any`) |
| Combinators.WhenAllCountsOutstanding | include/coroutines/coro.cpp:433-436 | after any completion order, the count plus the successful completions is the number of children |
| Combinators.WhenAllKeepsDeclarationOrder | include/coroutines/coro.cpp:440-449 | when every child returns, in whatever order they finish, the parent gets all values in declaration order |
| Combinators.WhenAllSurfacesFirstFailure | include/coroutines/coro.cpp:427-431 | the first child to throw decides `when_all`'s result; every later failure only transfers to the finished parent |
| Combinators.WhenAnyFirstCompletionDecides | include/coroutines/coro.cpp:491-514 | the first child to finish decides `when_any`'s result, as its value and index or its exception; the index ends at the last child that returned |
| Combinators.AnyLateStep | include/coroutines/coro.cpp:499-500 | a late `when_any` helper leaves the finished parent's result alone but still overwrites `mIndex` when it returned |
| Combinators.CompletedGroupFinishes | include/coroutines/coro.cpp:425-438 | once every helper has finished, the parent has finished, for both combinators |
| Scheduler.RunFrom | include/coroutines/coro.cpp:305-331 | running the root to its next suspension leaves the clock and the fired log alone, and suspends it in the step it reached, or finishes it past the last step; the timer set grows by the number of sleepers that step registers |
| Scheduler.RunFromRegisters | include/coroutines/coro.cpp:305-331 | the sleepers that step adds are exactly its own: the root's one sleeper expiring at its deadline, or one per helper expiring at that child's deadline; none is removed |
| Scheduler.RunFromLogs | include/coroutines/coro.cpp:310-314 | the registration log grows by exactly the sleepers the step hands to `addTimer` |
| Scheduler.RegisterOwners | include/coroutines/coro.cpp:409-411 | after starting helpers 0..m-1, the sleepers' owners are the old owners plus exactly those helpers |
| Scheduler.RegisterPermutes | include/coroutines/coro.cpp:409-411 | whatever the tie choices, starting helpers 0..m-1 adds one sleeper per helper, expiring at the deadline its child asked for, and nothing else |
| Scheduler.SleepUntilFront | include/coroutines/coro.cpp:289-291 | `sleep_until(front)` moves the clock strictly past the front's expiry and changes nothing else |
| Scheduler.Fire | include/coroutines/coro.cpp:286-288 | firing an expired front appends exactly that sleeper to the log, with the current clock reading and the root's progress, and does not move the clock |
| LoopProofs.FireRootResumes | include/coroutines/coro.cpp:286-288 | the root's own sleeper fires only while the root sleeps, and its firing erases it and runs the root on from the step after the sleep |
| LoopProofs.FireChildIsResume | include/coroutines/coro.cpp:286-288 | a helper's sleeper whose completion finishes the parent the root awaits at step `k` with a value resumes the root, which runs on from step `k + 1` |
| LoopProofs.FireChildWakes | include/coroutines/coro.cpp:286-288 | in that case the root advances past the combinator, keeping the invariant and lowering the work measure |
| LoopProofs.FireChildStays | include/coroutines/coro.cpp:286-288 | a helper's sleeper whose completion does not finish the awaited parent leaves the root where it is, keeping the invariant and lowering the work measure |
| LoopProofs.FireLogged | include/coroutines/coro.cpp:286-288 | firing moves the front from the timer set to the fired log, and whatever the resumed root registers joins the registration log, so each registration is still accounted for exactly once |
| LoopProofs.FireChildFails | include/coroutines/coro.cpp:240-242 | a parent that finishes with an exception rethrows it into the root, which stores it and finishes at that step without running another one, keeping the invariant |
| SchedulerProofs.RunFromInv | include/coroutines/coro.cpp:280-281 | resuming a quiet root re-establishes the scheduler invariant and accounts for the work the step adds |
| LoopProofs.ResumeKeepsInv | include/coroutines/coro.cpp:280-281 | `coroutine.resume()` keeps the invariant, strictly lowers the work measure and advances the root by one resumption |
| LoopProofs.FireKeepsInv | include/coroutines/coro.cpp:286-288 | erasing and resuming the expired front keeps the invariant and strictly lowers the work measure |
| LoopProofs.SleepKeepsInv | include/coroutines/coro.cpp:289-291 | sleeping keeps the invariant and the timer set, after which the front has expired |
| LoopProofs.EmptyMeansCompleted | include/coroutines/coro.cpp:282 | with an empty timer set, every dispatched combinator has seen all its helpers finish |
| LoopProofs.EmptyMeansYielded | include/coroutines/coro.cpp:280-282 | with an empty timer set nothing waits on the root, and a suspended root is in a bare suspension |
| EventLoop.Run | include/coroutines/coro.cpp:279-295 | `Loop::run` terminates with the root finished and no timers left. Up to the step the root finished at, it resumed the root once plus once per bare suspension, the fired log is a permutation of the registration log (each registered sleeper fired exactly once, strictly after its expiry, assuming sleepers of destroyed helpers stay registered), and every combinator settled. Firings are logged at non-decreasing clock readings, and a sleeper that fires while another is still waiting expires no later than that other one. The root finished normally exactly when every combinator handed it a value; otherwise it failed in the combinator that threw, with that exception |
| EventLoop.RunTimers | include/coroutines/coro.cpp:282-293 | the inner loop ends with no timer left, keeping the invariant and the registration log accounted for, without the loop itself resuming the root |
| EventLoop.PastDeadlineFiresWithoutSleeping | include/coroutines/coro.cpp:323-331 | a `sleep_for` with a negative duration or a `sleep_until` a time point before the clock leaves the front expired, so the loop fires at the same clock reading without sleeping; with no other sleeper waiting, the front has expired exactly when the deadline has passed |
| EventLoop.FinalState | include/coroutines/coro.cpp:279-295 | a finished root with no timers left reached the end of the script if it finished normally; the fired log is a permutation of the registration log, whose length is the number of sleepers its steps register, fired in expiry order among the sleepers waiting together, and every combinator it reached settled, with the root failed exactly when one of them threw |
| EventLoop.WhenAnyTakesShortestSleep | include/coroutines/coro.cpp:491-514 | after the loop, `when_any` has handed its parent the outcome of a child whose deadline, counted from when the combinator was dispatched, is earliest |
| EventLoop.WhenAllCollectsInDeclarationOrder | include/coroutines/coro.cpp:440-449 | after the loop, a `when_all` whose children all return has given its parent every value at the child's own position |
| EventLoop.RethrowEndsRoot | include/coroutines/coro.cpp:240-242 | a `when_all` whose only child throws 7, followed by a sleep: the root fails with 7 in the combinator's step, is resumed by the loop once, and only the helper's sleeper is ever registered and fired |
| PrintTraits.Select | include/print/print.h:104-200 | the printer a type selects is the only viable specialisation, and the primary template is used exactly when none is viable |
| Printer.CString | include/print/print.h:114-115 | the quoted text is the buffer up to, and without, its first NUL |
| Printer.QuotedRoundTrip | include/print/print.h:115 | reading back what `std::quoted` wrote yields the original string and leaves the following input untouched |
| Printer.CharRendering | include/print/print.h:111-117 | a character prints between single quotes, with `'` and `\` behind a backslash and NUL as `''`; reading it back recovers every character except NUL, which reads back as the empty string |
| Printer.WriteQuoted | include/print/print.h:115 | the streaming inserter writes exactly the quoted text of the buffer's string |
| Printer.Write | include/print/print.h:104-200 | every printer appends exactly the value's rendering to the stream |
| Printer.WriteSeparated | include/print/print.h:133-141 | the `once` loop writes the elements with `", "` between consecutive ones, none before the first |
| Printer.WriteEntries | include/print/print.h:147-158 | the map loop writes the entries in iteration order with `", "` between consecutive ones |
| Printer.WriteEntry | include/print/print.h:153-155 | one map entry prints as key, `": "`, value, each with its own type's printer |
| Printer.EmptyDelimiters | include/print/print.h:119-159 | an empty tuple, container and map print as `()`, `[]` and `{}` |
| Printer.PairHasOneSeparator | include/print/print.h:119-129 | a pair prints as `(a, b)`: exactly one separator |
| Printer.SingleEntryMap | include/print/print.h:145-159 | a one-entry map prints as `{key: value}` |
| Printer.JoinLength | include/print/print.h:133-141 | joining n parts adds exactly n - 1 separators and nothing else |
| Printer.ListLength | include/print/print.h:131-143 | a container of n elements prints as its elements' texts, n - 1 separators and two brackets |
| Printer.TransparentWrappers | include/print/print.h:161-200 | an empty optional prints as `nullopt`, like a bare `nullopt`; a present optional and a variant print as the value they hold; `nullptr` and `monostate` print their names |
| Printer.TextPrintsVerbatim | include/print/print.h:59-69 | strings, string views, character pointers and character arrays take the `os << val` path: never bracketed, never quoted |
| Printer.StdArrayPrintsAsList | include/print/print.h:19-29 | `std::array` is tuple-like and iterable, and prints as a bracketed list of its N elements |
| Printer.StringKeysPrintUnquoted | include/print/print.h:145-159 | string map keys print with the key type's printer, so without quotes |
| Printer.JoinIsLeadingThenPrefixed | include/print/print.h:204-206 | the first argument followed by `" "` and each further argument is the arguments joined by spaces |
| Printer.WriteArgs | include/print/print.h:204-206 | the shared lambda writes the arguments' renderings joined by single spaces |
| Printer.LineIsJoin | include/print/print.h:202-209 | the printed line is the renderings joined by single spaces |
| Printer.LineOfOne | include/print/print.h:204-205 | a single argument prints alone, with no space |
| Printer.LineGrows | include/print/print.h:204-206 | each further argument adds one space and its rendering |
| Printer.Print | include/print/print.h:202-209 | `print` appends the line and `"\n"` to standard output and leaves standard error alone |
| Printer.PrintNl | include/print/print.h:211-217 | `printnl` appends the same line without the newline |
| Printer.EPrint | include/print/print.h:219-226 | `eprint` appends the line and `"\n"` to standard error and leaves standard output alone |
| Printer.EPrintNl | include/print/print.h:228-234 | `eprintnl` appends the line alone to standard error |
| Printer.ToString | include/print/print.h:236-244 | `to_string` returns exactly the text `printnl` writes |

## Left out

- The wall clock is not modelled. The clock is virtual and moves only when the loop sleeps; `sleep_until(e)` wakes one tick after `e`, so the strict `<` test then passes. Time points and durations are integers of one tick, so `system_clock` precision and overflow of `now() + duration` are not modelled.
- Scheduler.Fire: its own contract states the log and the clock only. What the resumption does is stated by LoopProofs.FireRootResumes, LoopProofs.FireChildIsResume, LoopProofs.FireChildStays and LoopProofs.FireChildFails.
- Scheduler.RunFrom: its own contract counts the sleepers added. Which sleepers they are is stated by Scheduler.RunFromRegisters.
- An exception escaping the root is stored in its promise by `unhandled_exception`, and `Loop::run` does not rethrow it. A later `result()` on the root's promise would, as the program's `main` does after the loop (coro.cpp:548-550); Promises.Result and Promises.ExceptionIsRethrown model that call. The loop model records the exception in the root's `Failed` state.
- The red-black tree is not modelled. The timer set is a sorted sequence. Equal expiries are ordered by a tie oracle, and every order allowed by `operator<` is reachable.
- Timers.Insert: its own contract states only the length of the result. Order, contents and owners are stated by Timers.InsertSorted, Timers.InsertPermutes and Timers.InsertFresh.
- Child coroutines are scripts "sleep, then return or throw". A child that finishes without suspending, which would complete inside `await_suspend`, is not modelled.
- Nested combinators are not modelled, and neither are children that sleep more than once.
- Helpers a combinator no longer waits for: after a `when_all` failure or a `when_any` result, the combinator's body exits. Its local `taskArray` (coro.cpp:445, 508) then destroys every helper frame through `~ReturnPreviousTask` (coro.cpp:387-389), so in the source no late helper runs again. The losing children's sleep frames are temporaries of the root's `co_await when_*(...)`, destroyed by `~Task` (coro.cpp:225-227) once the root resumes. Whether that unlinks their sleepers from the timer set depends on the red-black tree, which is not part of this model; if it does not, firing one is a use-after-free. The model assumes a destroyed sleeper stays registered and fires harmlessly: it is erased at its expiry, and its helper code runs as written on that combinator's control block and slots. A late `when_any` value fills its slot and overwrites `mIndex`. A late `when_all` value fills its slot and decrements `mCount`, and returns to nobody unless the count reaches 0. A late failure overwrites the stored exception. The completion order of that combinator grows in every case. A transfer to the finished parent is counted as a stray. The root and the other combinators are unchanged. The rows for Combinators.ReturnToParent, Combinators.WhenAllSurfacesFirstFailure and Combinators.AnyLateStep describe the helper code as written, which the source reaches only while the helper is alive.
- EventLoop.Run: under that assumption, its log and counts include the sleepers of destroyed helpers, `Settled` counts those helpers as finished, and a later bare suspension waits for their sleepers, so the root can resume at a later clock reading than if they were unlinked.
- EventLoop.FinalState: the same assumption applies to its log, counts and settled combinators.
- Frame lifetime is not modelled: `destroy`, deleted moves and the `Uninitialized` destructor.
- Reference and `const` specialisations of `Uninitialized` are not modelled, and neither is the `void` slot.
- `AwaitableTraits` and `NonVoidHelper` are type-level machinery and are left out. `when_all`/`when_any` require at least one child (coro.cpp:452, 517), which the script validity predicate mirrors.
- `RepeatAwaiter`, `CurrentCoroutineAwaiter` and the demonstration `main` are not used by the loop or the combinators, so they are left out.
- `include/demangle/demangle.h` is not part of this model.
- What `os << val` writes for numbers, pointers and user types is kept as opaque text, so stream flags are not modelled either.
- Wide character types are left out. The quoting is modelled for `char`; for wide types the `std::quoted` inserter would need a wide stream.
- The iteration order of maps and unordered maps is not modelled. It is given as the order of the entries.
- The streams `std::cout` and `std::cerr` are plain strings: buffering, failure bits and interleaving are not modelled.
- Printer.Write: a `std::variant` that is valueless by exception makes `std::visit` throw `std::bad_variant_access` (print.h:172-176). The value tree's variant always holds an alternative, so this throwing path is not modelled, and "appends exactly the rendering" covers only variants that hold a value.
- Printer.JoinLength: lengths count Dafny characters, which are code points, while the C++ streams count `char` bytes. For non-ASCII text the byte length is larger.
- Printer.ListLength: lengths count code points, not the bytes the C++ stream writes, for the same reason.
