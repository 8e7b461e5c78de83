/** The Request lifecycle and its response-serializer queue.

    Each method body is one step.  What a method hands to a dispatch queue or to the delegate
    becomes part of the state, and runs as a later step of its own, in any order. */
module RequestLifecycle {
  import opened Basics

  datatype State = Initialized | Resumed | Suspended | Cancelled | Finished
  {
    predicate CanTransitionTo(state: State) {
      match (this, state)
      case (Initialized, _) => true
      case (_, Initialized) => false
      case (Cancelled, _) => false
      case (Finished, _) => false
      case (Resumed, Cancelled) => true
      case (Suspended, Cancelled) => true
      case (Resumed, Suspended) => true
      case (Suspended, Resumed) => true
      case (Suspended, Suspended) => false
      case (Resumed, Resumed) => false
      case (_, Finished) => true
    }
  }

  /** Cancelled and finished are final, nothing leads back to initialized, and apart from
      initialized no state leads to itself. */
  lemma {:induction false} TransitionsIff(a: State, b: State)
    ensures a.CanTransitionTo(b) <==>
            a == Initialized || (a != Cancelled && a != Finished && b != Initialized && a != b)
  {
  }

  type Serializer = nat

  /** The run of a serializer that was started after the given number of retries; its
      completion closure goes by the same name. */
  datatype Job = Job(serializer: Serializer, attempt: nat)

  /** A block on the underlying queue that can change the request. */
  datatype Block = FinishBlock | ProcessBlock | StartBlock

  datatype RetryResult = Retry | RetryWithDelay | DoNotRetry | DoNotRetryWithError
  {
    predicate Again() { Retry? || RetryWithDelay? }
  }

  /** MutableState, with what has been handed to others: blocks on the underlying queue,
      serializers that have been started and have not yet reported, questions to the
      retrier, retries the delegate will make, completions called and calls of cleanup. */
  datatype Core = Core(state: State,
                       serializers: seq<Serializer>,
                       completions: seq<Job>,
                       processingFinished: bool,
                       isFinishing: bool,
                       retryCount: nat,
                       blocks: seq<Block>,
                       inFlight: seq<Job>,
                       asked: nat,
                       retries: nat,
                       called: seq<Job>,
                       cleanups: nat)
  {
    function To(to: State): Core {
      if state.CanTransitionTo(to) then this.(state := to) else this
    }

    function Cancel(liveTask: bool): Core {
      if !state.CanTransitionTo(Cancelled) then this
      else if liveTask then this.(state := Cancelled)
      else this.(state := Cancelled, blocks := blocks + [FinishBlock])
    }

    function Append(s: Serializer): Core {
      var now := if state == Finished then Resumed else state;
      this.(serializers := serializers + [s],
            state := now,
            blocks := blocks
              + (if processingFinished then [ProcessBlock] else [])
              + (if now.CanTransitionTo(Resumed) then [StartBlock] else []))
    }

    function Flush(): Core {
      To(Finished).(serializers := [], completions := [], processingFinished := true, isFinishing := false,
                    called := called + completions, cleanups := cleanups + 1)
    }

    function ProcessNext(): Core {
      if |completions| < |serializers|
      then this.(inFlight := inFlight + [Job(serializers[|completions|], retryCount)])
      else Flush()
    }

    function Finish(): Core {
      if isFinishing then this else this.(isFinishing := true).ProcessNext()
    }

    function DidComplete(job: Job): Core {
      this.(completions := completions + [job]).ProcessNext()
    }

    function Reported(k: nat, failed: bool, result: RetryResult): Core
      requires k < |inFlight|
    {
      var rest := this.(inFlight := inFlight[..k] + inFlight[k + 1..]);
      if failed && result.Again() then rest.(retries := retries + 1) else rest.DidComplete(inFlight[k])
    }

    function PrepareForRetry(): Core {
      this.(retryCount := retryCount + 1, isFinishing := false, completions := [])
    }
  }

  class Request {
    var state: State
    var responseSerializers: seq<Serializer>
    var responseSerializerCompletions: seq<Job>
    var responseSerializerProcessingFinished: bool
    var isFinishing: bool
    var retryCount: nat
    var blocks: seq<Block>
    var inFlight: seq<Job>
    var asked: nat
    var retries: nat
    var called: seq<Job>
    var cleanups: nat

    constructor ()
      ensures Abs() == NewRequest()
    {
      state, responseSerializers, responseSerializerCompletions := Initialized, [], [];
      responseSerializerProcessingFinished, isFinishing, retryCount := false, false, 0;
      blocks, inFlight, asked, retries, called, cleanups := [], [], 0, 0, [], 0;
    }

    ghost function Abs(): Core
      reads this
    {
      Core(state, responseSerializers, responseSerializerCompletions, responseSerializerProcessingFinished,
           isFinishing, retryCount, blocks, inFlight, asked, retries, called, cleanups)
    }

    method Resume()
      modifies this
      ensures Abs() == old(Abs()).To(Resumed)
      ensures state == if old(state) == Initialized || old(state) == Suspended then Resumed else old(state)
    {
      if !state.CanTransitionTo(Resumed) { return; }
      state := Resumed;
    }

    method Suspend()
      modifies this
      ensures Abs() == old(Abs()).To(Suspended)
      ensures state == if old(state) == Initialized || old(state) == State.Resumed then Suspended else old(state)
    {
      if !state.CanTransitionTo(Suspended) { return; }
      state := Suspended;
    }

    /** liveTask: the last task exists and has not completed. */
    method Cancel(liveTask: bool)
      modifies this
      ensures Abs() == old(Abs()).Cancel(liveTask)
      ensures state == if old(state) == Finished then Finished else Cancelled
    {
      if !state.CanTransitionTo(Cancelled) { return; }
      state := Cancelled;
      if !liveTask {
        blocks := blocks + [FinishBlock];
      }
    }

    method AppendResponseSerializer(closure: Serializer)
      modifies this
      ensures Abs() == old(Abs()).Append(closure)
    {
      responseSerializers := responseSerializers + [closure];
      if state == Finished {
        state := Resumed;
      }
      if responseSerializerProcessingFinished {
        blocks := blocks + [ProcessBlock];
      }
      if state.CanTransitionTo(Resumed) {
        blocks := blocks + [StartBlock];
      }
    }

    method NextResponseSerializer() returns (next: Option<Serializer>)
      ensures next == if |responseSerializerCompletions| < |responseSerializers|
                      then Some(responseSerializers[|responseSerializerCompletions|]) else None
    {
      next := None;
      var index := |responseSerializerCompletions|;
      if index < |responseSerializers| {
        next := Some(responseSerializers[index]);
      }
    }

    method ProcessNextResponseSerializer()
      modifies this
      ensures Abs() == old(Abs()).ProcessNext()
    {
      hide State.CanTransitionTo;
      var next := NextResponseSerializer();
      if next.None? {
        assert Abs().ProcessNext() == Abs().Flush();
        hide Core.ProcessNext;
        var completions := responseSerializerCompletions;
        responseSerializers := [];
        responseSerializerCompletions := [];
        if state.CanTransitionTo(Finished) {
          state := Finished;
        }
        responseSerializerProcessingFinished := true;
        isFinishing := false;
        CallEach(completions);
        cleanups := cleanups + 1;
        return;
      }
      inFlight := inFlight + [Job(next.value, retryCount)];
    }

    /** completions.forEach { $0() } */
    method CallEach(completions: seq<Job>)
      modifies `called
      ensures called == old(called) + completions
    {
      var i := 0;
      while i < |completions|
        invariant i <= |completions| && called == old(called) + completions[..i]
      {
        called := called + [completions[i]];
        i := i + 1;
      }
      assert completions[..i] == completions;
    }

    method Finish()
      modifies this
      ensures Abs() == old(Abs()).Finish()
    {
      if isFinishing { return; }
      isFinishing := true;
      ProcessNextResponseSerializer();
    }

    method ResponseSerializerDidComplete(completion: Job)
      modifies this
      ensures Abs() == old(Abs()).DidComplete(completion)
    {
      responseSerializerCompletions := responseSerializerCompletions + [completion];
      ProcessNextResponseSerializer();
    }

    /** The end of a serializer started by ProcessNextResponseSerializer: on the underlying
        queue it completes, or, having failed while there is a delegate, is told by the
        retrier what to do. */
    method SerializerReported(k: nat, failed: bool, result: RetryResult)
      requires k < |inFlight|
      modifies this
      ensures Abs() == old(Abs()).Reported(k, failed, result)
    {
      var job := inFlight[k];
      inFlight := inFlight[..k] + inFlight[k + 1..];
      if !failed {
        ResponseSerializerDidComplete(job);
        return;
      }
      match result
      case DoNotRetry => ResponseSerializerDidComplete(job);
      case DoNotRetryWithError => ResponseSerializerDidComplete(job);
      case Retry => retries := retries + 1;
      case RetryWithDelay => retries := retries + 1;
    }

    method RetryOrFinish(error: bool, delegate: bool)
      modifies this
      ensures Abs() == Step(old(Abs()), TaskDone(error, delegate))
    {
      if !error || !delegate {
        Finish();
        return;
      }
      asked := asked + 1;
    }

    /** What RetryOrFinish does with the retrier's answer. */
    method RetryAnswered(result: RetryResult)
      requires asked > 0
      modifies this
      ensures Abs() == Step(old(Abs()), Answered(result))
    {
      asked := asked - 1;
      match result
      case DoNotRetry => Finish();
      case DoNotRetryWithError => Finish();
      case Retry => retries := retries + 1;
      case RetryWithDelay => retries := retries + 1;
    }

    /** The block of Session.retryRequest. */
    method PerformRetry()
      requires retries > 0
      modifies this
      ensures Abs() == Step(old(Abs()), PerformedRetry)
    {
      retries := retries - 1;
      if state == Cancelled { return; }
      PrepareForRetry();
    }

    method PrepareForRetry()
      modifies this
      ensures Abs() == old(Abs()).PrepareForRetry()
    {
      retryCount := retryCount + 1;
      isFinishing := false;
      responseSerializerCompletions := [];
    }
  }

  // ----- Runs -----

  datatype Event =
    | Resume
    | Suspend
    | Cancel(liveTask: bool)
    | Append(serializer: Serializer)
    | Finish
    | TaskDone(error: bool, delegate: bool)
    | Answered(result: RetryResult)
    | PerformedRetry
    | Reported(k: nat, failed: bool, result: RetryResult)
    | RunBlock(k: nat, startImmediately: bool)

  function NewRequest(): Core {
    Core(Initialized, [], [], false, false, 0, [], [], 0, 0, [], 0)
  }

  /** One step.  An event that nothing is pending for does nothing. */
  function Step(c: Core, e: Event): Core {
    match e
    case Resume => c.To(State.Resumed)
    case Suspend => c.To(State.Suspended)
    case Cancel(liveTask) => c.Cancel(liveTask)
    case Append(s) => c.Append(s)
    case Finish => c.Finish()
    case TaskDone(error, delegate) => if !error || !delegate then c.Finish() else c.(asked := c.asked + 1)
    case Answered(result) =>
      if c.asked == 0 then c
      else if result.Again() then c.(asked := c.asked - 1, retries := c.retries + 1)
      else c.(asked := c.asked - 1).Finish()
    case PerformedRetry =>
      if c.retries == 0 then c
      else if c.state == Cancelled then c.(retries := c.retries - 1)
      else c.(retries := c.retries - 1).PrepareForRetry()
    case Reported(k, failed, result) => if k < |c.inFlight| then c.Reported(k, failed, result) else c
    case RunBlock(k, start) =>
      if k >= |c.blocks| then c
      else
        var rest := c.(blocks := c.blocks[..k] + c.blocks[k + 1..]);
        match c.blocks[k]
        case FinishBlock => rest.Finish()
        case ProcessBlock => rest.ProcessNext()
        case StartBlock => if start then rest.To(State.Resumed) else rest
  }

  function Run(c: Core, es: seq<Event>): Core
    decreases es
  {
    if es == [] then c else Run(Step(c, es[0]), es[1..])
  }

  // ----- What single reports and answers lead to -----

  /** From c the response serializers go on: the one after the last completion is started,
      or, when there is none, every completion is called, once, and the request is cleaned
      up. */
  predicate GoesOn(c: Core, d: Core) {
    if |c.completions| < |c.serializers| then
      d == c.(inFlight := c.inFlight + [Job(c.serializers[|c.completions|], c.retryCount)])
    else
      d == c.(state := if c.state == Cancelled then Cancelled else Finished, serializers := [], completions := [],
              processingFinished := true, isFinishing := false, called := c.called + c.completions,
              cleanups := c.cleanups + 1)
  }

  /** Finishing: once, whatever else is under way. */
  predicate Finishes(c: Core, d: Core) {
    if c.isFinishing then d == c else GoesOn(c.(isFinishing := true), d)
  }

  lemma {:induction false} FinishFinishes(c: Core)
    ensures Finishes(c, c.Finish()) && GoesOn(c, c.ProcessNext())
  {
  }

  /** A report without an error, or that nobody can be asked about, finishes the request and
      asks nothing; any other one asks the retrier and does nothing else. */
  lemma {:induction false} ReportActs(c: Core, error: bool, delegate: bool)
    ensures var d := Step(c, TaskDone(error, delegate));
            if error && delegate then d == c.(asked := c.asked + 1) else Finishes(c, d)
  {
    FinishFinishes(c);
    hide Core.Finish, Core.ProcessNext, GoesOn;
  }

  /** The retrier's answer schedules one retry, or finishes the request. */
  lemma {:induction false} AnswerActs(c: Core, result: RetryResult)
    requires c.asked > 0
    ensures var d, rest := Step(c, Answered(result)), c.(asked := c.asked - 1);
            match result
            case Retry => d == rest.(retries := c.retries + 1)
            case RetryWithDelay => d == rest.(retries := c.retries + 1)
            case DoNotRetry => Finishes(rest, d)
            case DoNotRetryWithError => Finishes(rest, d)
  {
    FinishFinishes(c.(asked := c.asked - 1));
    hide Core.Finish, Core.ProcessNext, GoesOn;
  }

  /** A serializer that has ended completes and the next one follows, unless it has failed
      and the retrier wants another attempt. */
  lemma {:induction false} SerializerActs(c: Core, k: nat, failed: bool, result: RetryResult)
    requires k < |c.inFlight|
    ensures var d := Step(c, Event.Reported(k, failed, result));
            var rest := c.(inFlight := c.inFlight[..k] + c.inFlight[k + 1..]);
            if failed && (result == Retry || result == RetryWithDelay) then d == rest.(retries := c.retries + 1)
            else GoesOn(rest.(completions := c.completions + [c.inFlight[k]]), d)
  {
    var rest := c.(inFlight := c.inFlight[..k] + c.inFlight[k + 1..]);
    FinishFinishes(rest.(completions := c.completions + [c.inFlight[k]]));
    hide Core.ProcessNext, GoesOn;
  }

  /** Resuming and suspending change the state where they may, and nothing else; so does the
      block that starts a request, if requests are started at once. */
  lemma {:induction false} ControlActs(c: Core, k: nat, start: bool)
    ensures var resumed := if c.state == Initialized || c.state == Suspended then State.Resumed else c.state;
      && Step(c, Event.Resume) == c.(state := resumed)
      && Step(c, Event.Suspend) ==
         c.(state := if c.state == Initialized || c.state == State.Resumed then Suspended else c.state)
      && (k < |c.blocks| && c.blocks[k] == StartBlock ==>
            Step(c, RunBlock(k, start)) ==
            c.(blocks := c.blocks[..k] + c.blocks[k + 1..], state := if start then resumed else c.state))
  {
  }

  /** A serializer appended to a request that has finished is called too: its block restarts
      processing, and its completion follows when it has reported. */
  lemma {:induction false} LateSerializerCalled(c: Core, s: Serializer)
    requires c.processingFinished && !c.isFinishing && c.inFlight == []
    requires c.serializers == [] && c.completions == []
    ensures var c1 := Step(c, Append(s));
            var c2 := Step(c1, RunBlock(|c.blocks|, false));
            var c3 := Step(c2, Event.Reported(0, false, DoNotRetry));
      && c1.called == c.called && c2.called == c.called && c2.inFlight == [Job(s, c.retryCount)]
      && c3.called == c.called + [Job(s, c.retryCount)]
      && c3.state == (if c.state == Cancelled then Cancelled else Finished)
      && (c.state == Finished ==> c1.state == State.Resumed)
  {
    var c1 := Step(c, Append(s));
    assert c1.blocks[|c.blocks|] == ProcessBlock;
    var rest := c1.(blocks := c1.blocks[..|c.blocks|] + c1.blocks[|c.blocks| + 1..]);
    assert [] + [s] == [s];
    FinishFinishes(rest);
    var c2 := Step(c1, RunBlock(|c.blocks|, false));
    assert c2 == rest.ProcessNext();
    assert c2.inFlight == [] + [Job(s, c.retryCount)] == [Job(s, c.retryCount)];
    assert c2.inFlight[..0] + c2.inFlight[1..] == [];
    SerializerActs(c2, 0, false, DoNotRetry);
  }

  /** The retries performed in a run. */
  function Performed(c: Core, es: seq<Event>): nat
    decreases es
  {
    if es == [] then 0
    else
      (if es[0] == PerformedRetry && c.retries > 0 && c.state != Cancelled then 1 else 0)
      + Performed(Step(c, es[0]), es[1..])
  }

  lemma {:induction false} StepCounts(c: Core, e: Event)
    ensures Step(c, e).retryCount ==
            c.retryCount + if e == PerformedRetry && c.retries > 0 && c.state != Cancelled then 1 else 0
    ensures (c.processingFinished <==> c.cleanups > 0) ==>
              (Step(c, e).processingFinished <==> Step(c, e).cleanups > 0)
  {
    hide Core.Finish, Core.Reported, Core.ProcessNext;
    match e
    case Finish => FinishCounts(c);
    case TaskDone(_, _) => FinishCounts(c);
    case Answered(_) => FinishCounts(c.(asked := if c.asked > 0 then c.asked - 1 else 0));
    case Reported(k, failed, result) => if k < |c.inFlight| { ReportedCounts(c, k, failed, result); }
    case RunBlock(k, _) => if k < |c.blocks| { FinishCounts(c.(blocks := c.blocks[..k] + c.blocks[k + 1..])); }
    case Append(_) =>
    case PerformedRetry =>
    case Resume =>
    case Suspend =>
    case Cancel(_) =>
  }

  lemma {:induction false} FinishCounts(c: Core)
    ensures c.Finish().retryCount == c.retryCount && c.ProcessNext().retryCount == c.retryCount
    ensures (c.processingFinished <==> c.cleanups > 0) ==>
              && (c.Finish().processingFinished <==> c.Finish().cleanups > 0)
              && (c.ProcessNext().processingFinished <==> c.ProcessNext().cleanups > 0)
  {
  }

  lemma {:induction false} ReportedCounts(c: Core, k: nat, failed: bool, result: RetryResult)
    requires k < |c.inFlight|
    ensures c.Reported(k, failed, result).retryCount == c.retryCount
    ensures (c.processingFinished <==> c.cleanups > 0) ==>
              (c.Reported(k, failed, result).processingFinished <==> c.Reported(k, failed, result).cleanups > 0)
  {
    FinishCounts(c.(inFlight := c.inFlight[..k] + c.inFlight[k + 1..], completions := c.completions + [c.inFlight[k]]));
    hide Core.ProcessNext;
  }

  /** Over every run retryCount is the number of retries performed, and a request has been
      cleaned up exactly when it has flushed. */
  lemma {:induction false} RunCounts(c: Core, es: seq<Event>)
    requires c.processingFinished <==> c.cleanups > 0
    ensures Run(c, es).retryCount == c.retryCount + Performed(c, es)
    ensures Run(c, es).processingFinished <==> Run(c, es).cleanups > 0
    decreases es
  {
    if es != [] {
      StepCounts(c, es[0]);
      hide Step;
      RunCounts(Step(c, es[0]), es[1..]);
    }
  }

  // ----- Lifecycle safety, on every run whatsoever -----

  /** What a step from c to d may do to the state. */
  predicate Safe(c: Core, d: Core, append: bool) {
    && (c.state == Cancelled ==> d.state == Cancelled)
    && (c.state != Initialized ==> d.state != Initialized)
    && (c.state == Finished && d.state != Finished ==> append && d.state == State.Resumed)
    && (d.cleanups != c.cleanups ==> d.state == Finished || d.state == Cancelled)
  }

  lemma {:induction false} FinishSafe(c: Core)
    ensures Safe(c, c.Finish(), false) && Safe(c, c.ProcessNext(), false)
  {
  }

  lemma {:induction false} ReportedSafe(c: Core, k: nat, failed: bool, result: RetryResult)
    requires k < |c.inFlight|
    ensures Safe(c, c.Reported(k, failed, result), false)
  {
    FinishSafe(c.(inFlight := c.inFlight[..k] + c.inFlight[k + 1..], completions := c.completions + [c.inFlight[k]]));
    hide Core.ProcessNext;
  }

  /** Every single step; in particular every flush ends in finished or cancelled. */
  lemma {:induction false} StepStates(c: Core, e: Event)
    ensures Safe(c, Step(c, e), e.Append?)
  {
    hide Core.Finish, Core.Reported, Core.ProcessNext;
    match e
    case Finish => FinishSafe(c);
    case TaskDone(_, _) => FinishSafe(c);
    case Answered(_) => FinishSafe(c.(asked := if c.asked > 0 then c.asked - 1 else 0));
    case Reported(k, failed, result) => if k < |c.inFlight| { ReportedSafe(c, k, failed, result); }
    case RunBlock(k, _) => if k < |c.blocks| { FinishSafe(c.(blocks := c.blocks[..k] + c.blocks[k + 1..])); }
    case Append(_) =>
    case PerformedRetry =>
    case Resume =>
    case Suspend =>
    case Cancel(_) =>
  }

  /** Cancelled is never left, initialized never re-entered, finished left only by an
      appended serializer. */
  lemma {:induction false} RunStates(c: Core, es: seq<Event>)
    ensures var d := Run(c, es);
            && (c.state == Cancelled ==> d.state == Cancelled)
            && (c.state != Initialized ==> d.state != Initialized)
            && (c.state == Finished && (forall e <- es :: !e.Append?) ==> d.state == Finished)
    decreases es
  {
    if es != [] {
      StepStates(c, es[0]);
      RunStates(Step(c, es[0]), es[1..]);
    }
  }

  // ----- Delivery -----

  /** The runs of the given serializers in one attempt. */
  function Jobs(serializers: seq<Serializer>, attempt: nat): (js: seq<Job>)
    ensures |js| == |serializers|
    ensures forall i :: 0 <= i < |js| ==> js[i] == Job(serializers[i], attempt)
  {
    seq(|serializers|, i requires 0 <= i < |serializers| => Job(serializers[i], attempt))
  }

  function Appended(es: seq<Event>): seq<Serializer> {
    if es == [] then []
    else (if es[0].Append? then [es[0].serializer] else []) + Appended(es[1..])
  }

  /** Serializers are appended before the first flush, and a retry is performed only while
      no serializer is in flight: before finishing, or by the one that was in flight. */
  predicate Allowed(c: Core, e: Event) {
    && (e.Append? ==> !c.processingFinished)
    && (e.PerformedRetry? && c.retries > 0 && c.state != Cancelled ==> c.inFlight == [])
  }

  predicate WellBehaved(c: Core, es: seq<Event>)
    decreases es
  {
    es != [] ==> Allowed(c, es[0]) && WellBehaved(Step(c, es[0]), es[1..])
  }

  /** Before the first flush: nothing has been called; the completions are those of the
      first serializers in this attempt, and the one serializer in flight, if any, is the
      next. */
  predicate Collecting(c: Core, all: seq<Serializer>) {
    && !c.processingFinished
    && c.serializers == all
    && c.called == []
    && |c.completions| <= |all|
    && c.completions == Jobs(all[..|c.completions|], c.retryCount)
    && (c.inFlight != [] ==>
          c.isFinishing && |c.completions| < |all| && c.inFlight == [Job(all[|c.completions|], c.retryCount)])
    && (!c.isFinishing ==> c.completions == [])
    && (c.isFinishing && c.inFlight == [] && c.state != Cancelled ==> c.retries > 0)
  }

  /** After it: everything has been called, in one attempt and in order. */
  ghost predicate Delivered(c: Core, all: seq<Serializer>) {
    && c.processingFinished
    && c.serializers == [] && c.completions == [] && c.inFlight == [] && !c.isFinishing
    && (c.state == Finished || c.state == Cancelled)
    && (exists attempt: nat :: attempt <= c.retryCount && c.called == Jobs(all, attempt))
  }

  ghost predicate Inv(c: Core, all: seq<Serializer>) {
    ProcessBlock !in c.blocks && (Collecting(c, all) || Delivered(c, all))
  }

  lemma {:induction false} JobsSnoc(all: seq<Serializer>, n: nat, attempt: nat)
    requires n < |all|
    ensures Jobs(all[..n], attempt) + [Job(all[n], attempt)] == Jobs(all[..n + 1], attempt)
  {
  }

  /** Starting the next serializer, or flushing once every one of them has completed. */
  lemma {:induction false} ProcessInv(c: Core, all: seq<Serializer>)
    requires !c.processingFinished && c.isFinishing && c.inFlight == [] && c.called == []
    requires c.serializers == all && |c.completions| <= |all| && ProcessBlock !in c.blocks
    requires c.completions == Jobs(all[..|c.completions|], c.retryCount)
    ensures Inv(c.ProcessNext(), all)
  {
    if |c.completions| == |all| {
      assert all[..|c.completions|] == all;
      assert c.ProcessNext().called == Jobs(all, c.retryCount);
    }
  }

  lemma {:induction false} FinishInv(c: Core, all: seq<Serializer>)
    requires Inv(c, all)
    ensures Inv(c.Finish(), all)
  {
    if !c.isFinishing {
      if Collecting(c, all) {
        ProcessInv(c.(isFinishing := true), all);
      } else {
        assert c.called + [] == c.called;
      }
    }
  }

  lemma {:induction false} ReportedInv(c: Core, k: nat, all: seq<Serializer>, failed: bool, result: RetryResult)
    requires Inv(c, all) && k < |c.inFlight|
    ensures Inv(c.Reported(k, failed, result), all)
  {
    assert k == 0;
    var job := c.inFlight[0];
    assert c.inFlight[..0] + c.inFlight[1..] == [];
    if !(failed && result.Again()) {
      JobsSnoc(all, |c.completions|, c.retryCount);
      ProcessInv(c.(inFlight := [], completions := c.completions + [job]), all);
    }
  }

  lemma {:induction false} StepInv(c: Core, e: Event, all: seq<Serializer>)
    requires Inv(c, all) && Allowed(c, e)
    ensures Inv(Step(c, e), all + Appended([e]))
  {
    hide Core.Finish, Core.Reported, Core.Append, Core.PrepareForRetry, Core.To, Core.Cancel, Inv;
    assert Appended([e]) == if e.Append? then [e.serializer] else [];
    if !e.Append? { assert all + Appended([e]) == all; }
    match e
    case Append(s) => AppendInv(c, s, all);
    case Finish => FinishInv(c, all);
    case TaskDone(_, _) => FinishInv(c, all); AnsweredInv(c, all);
    case Answered(_) => AnsweredInv(c, all);
    case Reported(k, failed, result) => if k < |c.inFlight| { ReportedInv(c, k, all, failed, result); }
    case RunBlock(k, _) => if k < |c.blocks| { BlockInv(c, k, all); }
    case PerformedRetry => if c.retries > 0 { RetryInv(c, all); }
    case Resume => StateInv(c, State.Resumed, all);
    case Suspend => StateInv(c, Suspended, all);
    case Cancel(liveTask) => CancelInv(c, liveTask, all);
  }

  lemma {:induction false} AnsweredInv(c: Core, all: seq<Serializer>)
    requires Inv(c, all)
    ensures c.asked > 0 ==> Inv(c.(asked := c.asked - 1).Finish(), all)
    ensures c.asked > 0 ==> Inv(c.(asked := c.asked - 1, retries := c.retries + 1), all)
    ensures Inv(c.(asked := c.asked + 1), all)
  {
    if c.asked > 0 { FinishInv(c.(asked := c.asked - 1), all); }
    hide Core.Finish;
  }

  lemma {:induction false} StateInv(c: Core, to: State, all: seq<Serializer>)
    requires Inv(c, all) && (to == State.Resumed || to == Suspended)
    ensures Inv(c.To(to), all)
  {
  }

  lemma {:induction false} CancelInv(c: Core, liveTask: bool, all: seq<Serializer>)
    requires Inv(c, all)
    ensures Inv(c.Cancel(liveTask), all)
  {
  }

  lemma {:induction false} RetryInv(c: Core, all: seq<Serializer>)
    requires Inv(c, all) && c.retries > 0 && (c.state != Cancelled ==> c.inFlight == [])
    ensures var d := c.(retries := c.retries - 1);
            Inv(if c.state == Cancelled then d else d.PrepareForRetry(), all)
  {
  }

  lemma {:induction false} BlockInv(c: Core, k: nat, all: seq<Serializer>)
    requires Inv(c, all) && k < |c.blocks|
    ensures c.blocks[k] != ProcessBlock
    ensures var d := c.(blocks := c.blocks[..k] + c.blocks[k + 1..]);
            Inv(d, all) && Inv(d.Finish(), all) && Inv(d.To(State.Resumed), all)
  {
    var d := c.(blocks := c.blocks[..k] + c.blocks[k + 1..]);
    FinishInv(d, all);
    StateInv(d, State.Resumed, all);
  }

  lemma {:induction false} AppendInv(c: Core, s: Serializer, all: seq<Serializer>)
    requires Inv(c, all) && !c.processingFinished
    ensures Inv(c.Append(s), all + [s])
  {
    assert (all + [s])[..|c.completions|] == all[..|c.completions|];
  }

  /** At every moment of every well-behaved run the request is collecting or delivered. */
  lemma {:induction false} RunInv(c: Core, es: seq<Event>, all: seq<Serializer>)
    requires Inv(c, all) && WellBehaved(c, es)
    ensures Inv(Run(c, es), all + Appended(es))
    decreases es
  {
    hide Step, Inv, Allowed;
    if es == [] {
      assert all + Appended(es) == all;
    } else {
      StepInv(c, es[0], all);
      AppendedCons(es);
      hide Appended;
      RunInv(Step(c, es[0]), es[1..], all + Appended([es[0]]));
      assert all + Appended([es[0]]) + Appended(es[1..]) == all + Appended(es);
    }
  }

  lemma {:induction false} AppendedCons(es: seq<Event>)
    requires es != []
    ensures Appended(es) == Appended([es[0]]) + Appended(es[1..])
  {
  }

  /** Serializer delivery: the completion of every appended serializer is called exactly
      once, in the order of appending and all by one attempt, or, before the first flush,
      not at all; never are two serializers in flight. */
  lemma {:induction false} ExactlyOnce(es: seq<Event>)
    requires WellBehaved(NewRequest(), es)
    ensures var c := Run(NewRequest(), es);
            && |c.inFlight| <= 1
            && (c.inFlight != [] ==> |c.completions| < |Appended(es)|
                                     && c.inFlight[0].serializer == Appended(es)[|c.completions|])
            && (!c.processingFinished ==> c.called == [])
            && (c.processingFinished ==> exists attempt: nat :: c.called == Jobs(Appended(es), attempt))
  {
    RunInv(NewRequest(), es, []);
    assert [] + Appended(es) == Appended(es);
  }

  // ----- Progress -----

  function Dones(k: nat, n: nat): seq<Event> {
    if n == 0 then [] else [Event.Reported(k, false, DoNotRetry)] + Dones(k, n - 1)
  }

  lemma {:induction false} RunCons(c: Core, e: Event, es: seq<Event>)
    ensures Run(c, [e] + es) == Run(Step(c, e), es)
  {
    assert ([e] + es)[1..] == es;
  }

  lemma {:induction false} RunNothing(c: Core)
    ensures Run(c, []) == c
  {
  }

  lemma {:induction false} RunAppend(c: Core, es: seq<Event>, fs: seq<Event>)
    ensures Run(c, es + fs) == Run(Run(c, es), fs)
    decreases es
  {
    if es == [] {
      assert es + fs == fs;
    } else {
      assert (es + fs)[1..] == es[1..] + fs;
      RunAppend(Step(c, es[0]), es[1..], fs);
    }
  }

  /** The serializer started last and all after it complete one by one, and the flush calls
      every completion; serializers left over from elsewhere (pre) stay in flight. */
  lemma {:induction false} Drain(c: Core, pre: seq<Job>)
    requires |c.completions| < |c.serializers|
    requires c.completions == Jobs(c.serializers[..|c.completions|], c.retryCount)
    requires c.inFlight == pre + [Job(c.serializers[|c.completions|], c.retryCount)]
    ensures Run(c, Dones(|pre|, |c.serializers| - |c.completions|)) ==
            c.(inFlight := pre, completions := Jobs(c.serializers, c.retryCount)).Flush()
    decreases |c.serializers| - |c.completions|
  {
    hide State.CanTransitionTo, Core.To, Run;
    var n := |c.serializers| - |c.completions|;
    var done := Event.Reported(|pre|, false, DoNotRetry);
    var rest := c.(inFlight := pre, completions := c.completions + [c.inFlight[|pre|]]);
    assert c.inFlight[..|pre|] + c.inFlight[|pre| + 1..] == pre;
    assert Step(c, done) == rest.ProcessNext();
    hide Step;
    JobsSnoc(c.serializers, |c.completions|, c.retryCount);
    RunCons(c, done, Dones(|pre|, n - 1));
    if n == 1 {
      assert c.serializers[..|c.completions| + 1] == c.serializers;
      RunNothing(rest.ProcessNext());
    } else {
      hide Core.Flush;
      Drain(rest.ProcessNext(), pre);
    }
  }

  /** A request that was cancelled after its serializer had asked for a retry and before
      the retry was made. */
  predicate Stuck(c: Core) {
    && c.state == Cancelled && c.isFinishing && c.inFlight == []
    && !c.processingFinished && ProcessBlock !in c.blocks
  }

  /** Whatever happens to it, such a request never calls a completion. */
  lemma {:induction false} StuckForever(c: Core, es: seq<Event>)
    requires Stuck(c)
    ensures Stuck(Run(c, es)) && Run(c, es).called == c.called
    decreases es
  {
    if es != [] {
      StuckForever(Step(c, es[0]), es[1..]);
    }
  }

  /** A run from c to its flush. */
  function WayOut(c: Core): seq<Event>
    requires |c.completions| <= |c.serializers|
  {
    if c.inFlight != [] then Dones(0, |c.serializers| - |c.completions|)
    else if !c.isFinishing then [Event.Finish] + Dones(0, |c.serializers|)
    else [PerformedRetry] + ([Event.Finish] + Dones(0, |c.serializers|))
  }

  lemma {:induction false} DrainsFromFlight(c: Core, all: seq<Serializer>)
    requires Collecting(c, all) && c.inFlight != []
    ensures Run(c, Dones(0, |all| - |c.completions|)).processingFinished
    ensures Run(c, Dones(0, |all| - |c.completions|)).called == Jobs(all, c.retryCount)
  {
    hide Run, Dones, Step;
    assert c.inFlight == [] + [Job(all[|c.completions|], c.retryCount)];
    Drain(c, []);
  }

  lemma {:induction false} DrainsFromFinish(c: Core, all: seq<Serializer>)
    requires Collecting(c, all) && !c.isFinishing && ProcessBlock !in c.blocks
    ensures Run(c, [Event.Finish] + Dones(0, |all|)).processingFinished
    ensures Run(c, [Event.Finish] + Dones(0, |all|)).called == Jobs(all, c.retryCount)
  {
    RunCons(c, Event.Finish, Dones(0, |all|));
    if all != [] {
      FinishInv(c, all);
      DrainsFromFlight(Step(c, Event.Finish), all);
    } else {
      assert Jobs(all, c.retryCount) == [];
    }
  }

  /** A collecting request can still deliver exactly when it is not stuck; the steps that
      remain to be made are those of WayOut. */
  lemma {:induction false} CanDeliverIff(c: Core, all: seq<Serializer>)
    requires Inv(c, all) && Collecting(c, all)
    ensures (exists es :: Run(c, es).processingFinished) <==> !Stuck(c)
    ensures !Stuck(c) ==> Delivered(Run(c, WayOut(c)), all)
  {
    if Stuck(c) {
      forall es ensures !Run(c, es).processingFinished { StuckForever(c, es); }
    } else {
      WayOutDelivers(c, all);
      assert Run(c, WayOut(c)).processingFinished;
    }
  }

  lemma {:induction false} WayOutDelivers(c: Core, all: seq<Serializer>)
    requires Inv(c, all) && Collecting(c, all) && !Stuck(c)
    ensures WellBehaved(c, WayOut(c)) && Delivered(Run(c, WayOut(c)), all)
  {
    WayOutBehaves(c);
    RunInv(c, WayOut(c), all);
    assert all + [] == all;
    hide Run, WellBehaved, Dones;
    if c.inFlight != [] {
      DrainsFromFlight(c, all);
    } else if !c.isFinishing {
      DrainsFromFinish(c, all);
    } else {
      var d := Step(c, PerformedRetry);
      RunCons(c, PerformedRetry, [Event.Finish] + Dones(0, |all|));
      DrainsFromFinish(d, all);
    }
  }

  /** Neither an append nor a retry. */
  predicate Plain(es: seq<Event>) {
    forall e <- es :: !e.Append? && !e.PerformedRetry?
  }

  lemma {:induction false} PlainBehaves(c: Core, es: seq<Event>)
    requires Plain(es)
    ensures WellBehaved(c, es) && Appended(es) == []
    decreases es
  {
    hide Step;
    if es != [] {
      PlainBehaves(Step(c, es[0]), es[1..]);
    }
  }

  lemma {:induction false} DonesPlain(k: nat, n: nat)
    ensures Plain(Dones(k, n))
  {
    if n > 0 {
      DonesPlain(k, n - 1);
    }
  }

  lemma {:induction false} WayOutBehaves(c: Core)
    requires |c.completions| <= |c.serializers|
    ensures WellBehaved(c, WayOut(c)) && Appended(WayOut(c)) == []
  {
    hide Step;
    DonesPlain(0, |c.serializers|);
    DonesPlain(0, |c.serializers| - |c.completions|);
    var finish := [Event.Finish] + Dones(0, |c.serializers|);
    if c.inFlight != [] || !c.isFinishing {
      PlainBehaves(c, WayOut(c));
    } else {
      assert WayOut(c)[1..] == finish;
      PlainBehaves(Step(c, PerformedRetry), finish);
    }
  }

  // ----- Retries while a serializer is in flight -----

  function StrayRun(n: nat): seq<Event> {
    [Event.Finish] + (Dones(1, n) + [Event.Reported(0, false, DoNotRetry)])
  }

  lemma {:induction false} FinishStep(c: Core)
    ensures Step(c, Event.Finish) == c.Finish()
  {
  }

  lemma {:induction false} RunOne(c: Core, e: Event)
    ensures Run(c, [e]) == Step(c, e)
  {
    hide Step;
  }

  lemma {:induction false} StrayCalled(c: Core, stray: Job)
    requires c.serializers == [] && c.completions == [] && c.inFlight == [stray]
    ensures Step(c, Event.Reported(0, false, DoNotRetry)).called == c.called + [stray]
  {
  }

  lemma {:induction false} StrayRetryRepeats(d: Core, all: seq<Serializer>, stray: Job)
    requires d.serializers == all != [] && d.completions == [] && d.called == [] && !d.isFinishing
    requires d.inFlight == [stray]
    ensures Run(d, StrayRun(|all|)).called == Jobs(all, d.retryCount) + [stray]
  {
    hide Step, Run;
    var last := Event.Reported(0, false, DoNotRetry);
    var d1 := d.Finish();
    assert d1.inFlight == [stray] + [Job(all[0], d.retryCount)];
    assert d1.completions == Jobs(d1.serializers[..0], d1.retryCount);
    var d2 := d1.(inFlight := [stray], completions := Jobs(all, d.retryCount)).Flush();
    hide Core.Finish, Core.Flush;
    FinishStep(d);
    StrayCalled(d2, stray);
    RunOne(d2, last);
    Drain(d1, [stray]);
    RunCons(d, Event.Finish, Dones(1, |all|) + [last]);
    RunAppend(d1, Dones(1, |all|), [last]);
  }

  /** Performing a retry is safe exactly when no serializer is in flight: from any other
      collecting request a run follows that calls one completion too many. */
  lemma {:induction false} RetrySafeIff(c: Core, all: seq<Serializer>)
    requires Inv(c, all) && c.retries > 0 && c.state != Cancelled
    ensures c.inFlight == [] <==>
            forall es :: WellBehaved(Step(c, PerformedRetry), es) && Appended(es) == [] ==>
                           |Run(Step(c, PerformedRetry), es).called| <= |all|
  {
    var d := Step(c, PerformedRetry);
    hide Run, WellBehaved;
    if c.inFlight == [] {
      RetryInv(c, all);
      forall es | WellBehaved(d, es) && Appended(es) == [] ensures |Run(d, es).called| <= |all| {
        RunInv(d, es, all);
        assert all + [] == all;
      }
    } else {
      StrayRetryRepeats(d, all, c.inFlight[0]);
      DonesPlain(1, |all|);
      PlainBehaves(d, StrayRun(|all|));
      assert |Run(d, StrayRun(|all|)).called| == |all| + 1;
    }
  }
}
