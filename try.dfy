/** The Try<T> success/failure carrier (Kimbus.Helpers.Try) and its LINQ binds. A C# delegate
    that may throw is modelled by what running it does: an `Outcome<T>` for a `Func<T>`, an
    `ActionOutcome` for an `Action`. */
module TryMonad {
  import opened Codes

  datatype SocketError = NotConnected | TimedOut

  /** The exceptions the core raises, by kind. */
  datatype Exc =
    | ArgumentNull          // ArgumentNullException: a required argument or response is null
    | BadArgument           // ArgumentException on a caller's argument or on a malformed frame
    | Mismatch              // ArgumentException raised because a response does not match its request
    | OutOfRange            // First()/ElementAt() past the end of a response
    | MbError(code: byte)   // MbException: the remote device answered with an exception code
    | Socket(error: SocketError)
    | Unexpected            // a plain Exception (user function answered with another code)
    | Aggregate(inner: Exc) // AggregateException thrown by Task.Wait, wrapping the task's exception

  /** What running a `Func<T>` does: it returns a value or throws. */
  datatype Outcome<+T> = Returns(value: T) | Throws(error: Exc)

  /** What running an `Action` does: it completes or throws. */
  datatype ActionOutcome = Completed | Threw(error: Exc)

  /** A computed value or the exception that stopped its computation. */
  datatype Try<+T> = TrySuccess(success: T) | TryFailure(failure: Exc)
  {
    predicate IsFailure()
    {
      TryFailure?
    }

    predicate IsSuccess()
      ensures IsSuccess() <==> !IsFailure()
    {
      TrySuccess?
    }
  }

  /** The catch block of `Try(Func<T>)`: an AggregateException is replaced by its inner exception
      (one level only). */
  function Unaggregate(e: Exc): (r: Exc)
    ensures e.Aggregate? ==> r == e.inner
    ensures !e.Aggregate? ==> r == e
  {
    match e
    case Aggregate(inner) => inner
    case _ => e
  }

  /** `new Try<T>(Func<T>)`: success with the returned value, or failure with the thrown
      exception, unwrapped once if it is an AggregateException. */
  function FromFunc<T>(f: Outcome<T>): (r: Try<T>)
    ensures r.IsSuccess() <==> f.Returns?
    ensures f.Returns? ==> r.success == f.value
    ensures f.Throws? ==> r.failure == Unaggregate(f.error)
  {
    match f
    case Returns(v) => TrySuccess(v)
    case Throws(e) => TryFailure(Unaggregate(e))
  }

  /** `new Try<T>(Action)`: `default` stands for `default(T)`; the thrown exception is kept
      as it is, AggregateException included. */
  function FromAction<T>(a: ActionOutcome, default: T): (r: Try<T>)
    ensures r.IsSuccess() <==> a.Completed?
    ensures a.Completed? ==> r.success == default
    ensures a.Threw? ==> r.failure == a.error
  {
    match a
    case Completed => TrySuccess(default)
    case Threw(e) => TryFailure(e)
  }

  /** `Try.Apply(Func<T>)`. */
  function Apply<T>(f: Outcome<T>): (r: Try<T>)
    ensures r.IsSuccess() <==> f.Returns?
    ensures f.Returns? ==> r.success == f.value
    ensures f.Throws? ==> r.failure == Unaggregate(f.error)
  {
    FromFunc(f)
  }

  /** `Try.Apply(Action)`: the action runs inside a Func that returns `false`. */
  function ApplyAction(a: ActionOutcome): (r: Try<bool>)
    ensures a.Completed? ==> r == TrySuccess(false)
    ensures a.Threw? ==> r == TryFailure(Unaggregate(a.error))
  {
    match a
    case Completed => FromFunc(Returns(false))
    case Threw(e) => FromFunc(Throws(e))
  }

  /** `Try.Success(v)`. */
  function Success<T>(v: T): (r: Try<T>)
    ensures r.IsSuccess() && r.success == v
  {
    FromFunc(Returns(v))
  }

  /** `Try.Failure(ex)`: built by a Func that rethrows `ex`, so `ex` is kept unless it is an
      AggregateException, which is replaced by its inner exception. */
  function Failure<T>(e: Exc): (r: Try<T>)
    ensures r.IsFailure()
    ensures !e.Aggregate? ==> r.failure == e
    ensures e.Aggregate? ==> r.failure == e.inner
  {
    FromFunc(Throws(e))
  }

  /** `Select`: a failure passes through; otherwise the projection is applied to the Try itself. */
  function Select<TIn, TOut>(t: Try<TIn>, projection: Try<TIn> -> Try<TOut>): (r: Try<TOut>)
    ensures t.IsFailure() ==> r.IsFailure() && r.failure == Unaggregate(t.failure)
    ensures t.IsSuccess() ==> r == projection(t)
  {
    if t.IsFailure() then Failure(t.failure) else projection(t)
  }

  /** `SelectMany`: the bind that LINQ query syntax (`from x in t from y in mid(x) select ...`) compiles to. */
  function SelectMany<TIn, TMid, TOut>(t: Try<TIn>, mid: TIn -> Try<TMid>, out: (TIn, TMid) -> Outcome<TOut>): (r: Try<TOut>)
    ensures t.IsFailure() ==> r.IsFailure() && r.failure == Unaggregate(t.failure)
    ensures t.IsSuccess() && mid(t.success).IsFailure() ==>
              r.IsFailure() && r.failure == Unaggregate(mid(t.success).failure)
    ensures t.IsSuccess() && mid(t.success).IsSuccess() ==>
              r.IsSuccess() == out(t.success, mid(t.success).success).Returns?
    ensures r.IsSuccess() ==>
              (t.IsSuccess() && mid(t.success).IsSuccess() && r.success == out(t.success, mid(t.success).success).value)
  {
    if t.IsFailure() then Failure(t.failure)
    else
      var m := mid(t.success);
      if m.IsFailure() then Failure(m.failure)
      else Apply(out(t.success, m.success))
  }

  /** A failed input decides the result on its own: neither projection is ever run. */
  lemma SelectManySkipsProjections<TIn, TMid, TOut>(
    t: Try<TIn>,
    mid1: TIn -> Try<TMid>, out1: (TIn, TMid) -> Outcome<TOut>,
    mid2: TIn -> Try<TMid>, out2: (TIn, TMid) -> Outcome<TOut>)
    requires t.IsFailure()
    ensures SelectMany(t, mid1, out1) == SelectMany(t, mid2, out2) == TryFailure(Unaggregate(t.failure))
  {
  }

  /** A failed middle step decides the result on its own: the output projection is never run. */
  lemma SelectManySkipsOutput<TIn, TMid, TOut>(
    t: Try<TIn>, mid: TIn -> Try<TMid>, out1: (TIn, TMid) -> Outcome<TOut>, out2: (TIn, TMid) -> Outcome<TOut>)
    requires t.IsSuccess() && mid(t.success).IsFailure()
    ensures SelectMany(t, mid, out1) == SelectMany(t, mid, out2) == TryFailure(Unaggregate(mid(t.success).failure))
  {
  }

  /** An exception thrown by the output projection is captured as a failure, not propagated. */
  lemma SelectManyCapturesOutput<TIn, TMid, TOut>(t: Try<TIn>, mid: TIn -> Try<TMid>, out: (TIn, TMid) -> Outcome<TOut>)
    requires t.IsSuccess() && mid(t.success).IsSuccess()
    requires out(t.success, mid(t.success).success).Throws?
    ensures SelectMany(t, mid, out) == TryFailure(Unaggregate(out(t.success, mid(t.success).success).error))
  {
  }
}
