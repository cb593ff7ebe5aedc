/** The result slot of a coroutine and the promise that owns it, and the two
    awaiters that link an awaiting coroutine to the task it awaits
    (include/coroutines/coro.cpp). Coroutine handles are frame numbers. */
module Promises {
  import opened Basics

  /** `Uninitialized<T>`: a union that either holds a live `T` or nothing. */
  datatype Slot<T> = Empty | Holding(value: T)

  /** `putValue`: placement-construct a value into a slot that holds none. */
  function PutValue<T>(s: Slot<T>, v: T): (r: Slot<T>)
    requires s.Empty?
    ensures r.Holding? && r.value == v
  {
    Holding(v)
  }

  /** `moveValue`: move the value out and destroy it, leaving the slot empty.
      Moving out of an empty slot is a precondition violation. */
  function MoveValue<T>(s: Slot<T>): (r: (T, Slot<T>))
    requires s.Holding?
    ensures r.0 == s.value && r.1.Empty?
  {
    (s.value, Empty)
  }

  /** A possibly-null `std::coroutine_handle<>`. */
  datatype Handle = Null | Frame(id: nat)

  /** Where a symmetric transfer continues: a frame, or `noop_coroutine()`,
      which hands control back to whoever resumed the chain. */
  datatype Next = NoopCoroutine | ResumeFrame(id: nat)

  /** `Promise<T>`: the continuation link, the captured exception and the slot. */
  datatype Promise<T> = Promise(previous: Handle, exception: Option<Exc>, result: Slot<T>)

  /** A promise as the coroutine frame is created: no link, nothing captured. */
  function NewPromise<T>(): (p: Promise<T>)
    ensures p.previous.Null? && p.exception.None? && p.result.Empty?
  {
    Promise(Null, None, Empty)
  }

  /** `return_value`: store the returned value; nothing else changes. */
  function ReturnValue<T>(p: Promise<T>, v: T): (r: Promise<T>)
    requires p.result.Empty?
    ensures r.result == Holding(v)
    ensures r.previous == p.previous && r.exception == p.exception
  {
    p.(result := PutValue(p.result, v))
  }

  /** `unhandled_exception`: capture the escaping exception (overwriting). */
  function UnhandledException<T>(p: Promise<T>, e: Exc): (r: Promise<T>)
    ensures r.exception == Some(e)
    ensures r.previous == p.previous && r.result == p.result
  {
    p.(exception := Some(e))
  }

  /** The caller of `result()` must not consume a slot that holds nothing. */
  predicate CanConsume<T>(p: Promise<T>) {
    p.exception.Some? || p.result.Holding?
  }

  /** `result()`: rethrow a captured exception; otherwise move the value out,
      after which the slot is empty and cannot be consumed again. */
  function Result<T>(p: Promise<T>): (r: (Outcome<T>, Promise<T>))
    requires CanConsume(p)
    ensures p.exception.Some? ==> r.0 == Threw(p.exception.value) && r.1 == p
    ensures p.exception.None? ==> r.0 == Returned(p.result.value)
                                  && r.1 == p.(result := Empty)
                                  && !CanConsume(r.1)
  {
    match p.exception
    case Some(e) => (Threw(e), p)
    case None =>
      var (v, s) := MoveValue(p.result);
      (Returned(v), p.(result := s))
  }

  /** `Promise<void>::result()`: only rethrows; there is no slot. */
  function VoidResult(exception: Option<Exc>): (r: Outcome<()>)
    ensures r.Threw? <==> exception.Some?
    ensures r.Threw? ==> r.exc == exception.value
  {
    match exception
    case Some(e) => Threw(e)
    case None => Returned(())
  }

  /** `final_suspend` returns `PreviousAwaiter(mPrevious)`, whose
      `await_suspend` continues at `mPrevious` when it is set and at
      `noop_coroutine()` otherwise. */
  function FinalSuspend<T>(p: Promise<T>): (n: Next)
    ensures n.NoopCoroutine? <==> p.previous.Null?
    ensures n.ResumeFrame? ==> n.id == p.previous.id
  {
    match p.previous
    case Null => NoopCoroutine
    case Frame(id) => ResumeFrame(id)
  }

  /** `Task::Awaiter::await_suspend`: frame `awaiter` awaits the task whose
      frame is `task`; the awaiter becomes the task's continuation and control
      transfers straight into the task. */
  function AwaitSuspend<T>(p: Promise<T>, task: nat, awaiter: nat): (r: (Promise<T>, Next))
    ensures r.0.previous == Frame(awaiter)
    ensures r.0.exception == p.exception && r.0.result == p.result
    ensures r.1 == ResumeFrame(task)
  {
    (p.(previous := Frame(awaiter)), ResumeFrame(task))
  }

  /** Awaiting a task and letting it return `v` hands control back to exactly
      the awaiter, which then receives `v`, and the task's slot is empty. */
  lemma AwaitReturnsToAwaiter<T>(task: nat, awaiter: nat, v: T)
    ensures var (p, n) := AwaitSuspend(NewPromise<T>(), task, awaiter);
            var q := ReturnValue(p, v);
            n == ResumeFrame(task)
            && FinalSuspend(q) == ResumeFrame(awaiter)
            && Result(q).0 == Returned(v)
            && !CanConsume(Result(q).1)
  {
  }

  /** A task that nobody awaits finishes into `noop_coroutine()`. */
  lemma UnawaitedFinishesIntoNoop<T>(v: T)
    ensures FinalSuspend(ReturnValue(NewPromise<T>(), v)) == NoopCoroutine
  {
  }

  /** A captured exception wins over a stored value, and is rethrown on every
      call: the exception path does not empty the promise. */
  lemma ExceptionIsRethrown<T>(p: Promise<T>, e: Exc)
    ensures var q := UnhandledException(p, e);
            CanConsume(q) && Result(q).0 == Threw(e) && Result(Result(q).1).0 == Threw(e)
  {
  }
}
