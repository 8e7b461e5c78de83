/** Delivery of response serializers in the runs that the session and the request itself can
    cause.

    An attempt to perform a request starts on the session's queues and ends in one of three
    ways.  It fails, and reports through retryOrFinish; it creates a task, which reports when
    it has completed and left the task map; or it finds the request cancelled at one of the
    guards on the way to its task, and returns without a word.  While there is a task the
    session may also finish the request directly, on invalidation, after which the attempt
    does not report any more. */
module RequestDelivery {
  import opened RequestLifecycle

  /** Starting: on the way to its task; Live: its task has been created and has not yet
      reported. */
  datatype Attempt = NoAttempt | Starting | Live

  datatype Tracked = Tracked(core: Core, attempt: Attempt)

  datatype Happening =
    | On(event: Event)  // something that changes the request
    | TaskCreated       // the last guard has let the attempt pass
    | Abandoned         // a guard has returned

  /** The happening is possible, and it appends no serializer after the flush.  Cancelling may
      find no live task although there is one, which has just been created or whose
      completion has not been reported yet. */
  predicate Sourced(t: Tracked, h: Happening) {
    match h
    case TaskCreated => t.attempt.Starting? && t.core.state != State.Cancelled
    case Abandoned => t.attempt.Starting? && t.core.state == State.Cancelled
    case On(e) =>
      match e
      case TaskDone(error, _) => t.attempt.Live? || (t.attempt.Starting? && error)
      case Finish => t.attempt.Live?
      case Cancel(liveTask) => liveTask ==> t.attempt.Live?
      case Append(_) => !t.core.processingFinished
      case _ => true
  }

  function AttemptAfter(t: Tracked, e: Event): Attempt {
    match e
    case TaskDone(_, _) => NoAttempt
    case Finish => NoAttempt
    case PerformedRetry => if t.core.retries > 0 && t.core.state != State.Cancelled then Starting else t.attempt
    case _ => t.attempt
  }

  function Next(t: Tracked, h: Happening): Tracked {
    match h
    case TaskCreated => t.(attempt := Live)
    case Abandoned => t.(attempt := NoAttempt)
    case On(e) => Tracked(Step(t.core, e), AttemptAfter(t, e))
  }

  /** Every request is performed once it has been made. */
  function NewTracked(): Tracked { Tracked(NewRequest(), Starting) }

  predicate SourcedRun(t: Tracked, hs: seq<Happening>)
    decreases hs
  {
    hs != [] ==> Sourced(t, hs[0]) && SourcedRun(Next(t, hs[0]), hs[1..])
  }

  function Track(t: Tracked, hs: seq<Happening>): Tracked
    decreases hs
  {
    if hs == [] then t else Track(Next(t, hs[0]), hs[1..])
  }

  /** What happens to the request itself. */
  function Events(hs: seq<Happening>): seq<Event> {
    if hs == [] then [] else (if hs[0].On? then [hs[0].event] else []) + Events(hs[1..])
  }

  // ----- One thing at a time -----

  /** What will still happen by itself. */
  function Pending(t: Tracked): nat {
    (if t.attempt.NoAttempt? then 0 else 1) + t.core.asked + t.core.retries + |t.core.inFlight|
  }

  /** Unless it has been cancelled, a request has exactly one of an attempt, a question to
      the retrier, a scheduled retry and a serializer in flight, until it has flushed.  If it
      was cancelled before its task existed, that has led or will lead to finish(). */
  predicate Token(t: Tracked) {
    if t.core.state != State.Cancelled then
      && FinishBlock !in t.core.blocks
      && Pending(t) == (if t.core.processingFinished then 0 else 1)
      && (t.core.isFinishing ==> t.attempt.NoAttempt? && t.core.asked == 0)
    else
      t.attempt.Starting? && !t.core.processingFinished ==> t.core.isFinishing || FinishBlock in t.core.blocks
  }

  lemma {:induction false} FinishToken(c: Core, all: seq<Serializer>)
    requires Inv(c, all) && c.state != State.Cancelled && FinishBlock !in c.blocks
    requires !c.processingFinished && !c.isFinishing && Pending(Tracked(c, NoAttempt)) == 0
    ensures Token(Tracked(c.Finish(), NoAttempt))
  {
  }

  lemma {:induction false} ReportedToken(c: Core, all: seq<Serializer>, k: nat, failed: bool, result: RetryResult)
    requires Inv(c, all) && Token(Tracked(c, NoAttempt)) && k < |c.inFlight| && c.state != State.Cancelled
    ensures Token(Tracked(c.Reported(k, failed, result), NoAttempt))
  {
  }

  lemma {:induction false} TokenStep(t: Tracked, h: Happening, all: seq<Serializer>)
    requires Inv(t.core, all) && Token(t) && Sourced(t, h)
    ensures Token(Next(t, h))
  {
    if h.On? {
      if t.core.state == State.Cancelled {
        CancelledToken(t, h.event);
      } else {
        EventToken(t, h.event, all);
      }
    }
  }

  lemma {:induction false} EventToken(t: Tracked, e: Event, all: seq<Serializer>)
    requires Inv(t.core, all) && Token(t) && Sourced(t, On(e)) && t.core.state != State.Cancelled
    ensures Token(Next(t, On(e)))
  {
    hide Core.Finish, Core.Reported;
    var c := t.core;
    match e
    case Finish => FinishToken(c, all);
    case TaskDone(error, delegate) => if !error || !delegate { FinishToken(c, all); }
    case Answered(result) =>
      if c.asked > 0 && !result.Again() {
        AnsweredInv(c, all);
        FinishToken(c.(asked := c.asked - 1, retries := 0), all);
      }
    case Reported(k, failed, result) => if k < |c.inFlight| { ReportedToken(c, all, k, failed, result); }
    case RunBlock(k, start) => if k < |c.blocks| { BlockToken(c, k, all); }
    case PerformedRetry =>
    case Append(_) =>
    case Resume =>
    case Suspend =>
    case Cancel(_) =>
  }

  lemma {:induction false} CancelledToken(t: Tracked, e: Event)
    requires Token(t) && t.core.state == State.Cancelled
    ensures Token(Next(t, On(e)))
  {
    StepStates(t.core, e);
    if e.RunBlock? && e.k < |t.core.blocks| && FinishBlock in t.core.blocks && t.core.blocks[e.k] != FinishBlock {
      RemainsIn(t.core.blocks, e.k, FinishBlock);
    }
  }

  lemma {:induction false} RemainsIn(blocks: seq<Block>, k: nat, b: Block)
    requires k < |blocks| && b in blocks && blocks[k] != b
    ensures b in blocks[..k] + blocks[k + 1..]
  {
    var j :| 0 <= j < |blocks| && blocks[j] == b;
    assert (blocks[..k] + blocks[k + 1..])[if j < k then j else j - 1] == b;
  }

  lemma {:induction false} BlockToken(c: Core, k: nat, all: seq<Serializer>)
    requires Inv(c, all) && FinishBlock !in c.blocks && k < |c.blocks|
    ensures c.blocks[k] == StartBlock
    ensures FinishBlock !in c.blocks[..k] + c.blocks[k + 1..]
  {
    BlockInv(c, k, all);
  }

  /** A retry is then never performed with a serializer in flight. */
  lemma {:induction false} SourcedAllowed(t: Tracked, e: Event)
    requires Token(t) && Sourced(t, On(e))
    ensures Allowed(t.core, e)
  {
  }

  /** What one happening does to the request and to what holds of it. */
  lemma {:induction false} NextKeeps(t: Tracked, h: Happening, all: seq<Serializer>)
    requires Inv(t.core, all) && Token(t) && Sourced(t, h)
    ensures Inv(Next(t, h).core, all + Appended(Events([h]))) && Token(Next(t, h))
    ensures h.On? ==> Allowed(t.core, h.event) && Next(t, h).core == Step(t.core, h.event)
    ensures !h.On? ==> Next(t, h).core == t.core
  {
    hide Step, Inv, Token, Allowed, Sourced;
    TokenStep(t, h, all);
    assert Events([h]) == if h.On? then [h.event] else [];
    if h.On? {
      SourcedAllowed(t, h.event);
      StepInv(t.core, h.event, all);
    } else {
      assert all + [] == all;
    }
  }

  lemma {:induction false} EventsCons(h: Happening, hs: seq<Happening>)
    ensures Events([h] + hs) == Events([h]) + Events(hs)
    ensures Events([h]) == if h.On? then [h.event] else []
  {
    assert ([h] + hs)[1..] == hs;
  }

  lemma {:induction false} BehavesCons(c: Core, e: Event, es: seq<Event>)
    ensures Run(c, [e] + es) == Run(Step(c, e), es)
    ensures WellBehaved(c, [e] + es) <==> Allowed(c, e) && WellBehaved(Step(c, e), es)
  {
    hide Step, Allowed;
    assert ([e] + es)[1..] == es;
  }

  /** The runs that the source causes are well-behaved runs of the request. */
  lemma {:induction false} SourcedBehaves(t: Tracked, hs: seq<Happening>, all: seq<Serializer>)
    requires Inv(t.core, all) && Token(t) && SourcedRun(t, hs)
    ensures WellBehaved(t.core, Events(hs)) && Token(Track(t, hs))
    ensures Track(t, hs).core == Run(t.core, Events(hs))
    decreases hs
  {
    hide Step, Inv, Token, Allowed, Sourced, Next;
    if hs != [] {
      var h, rest := hs[0], hs[1..];
      NextKeeps(t, h, all);
      SourcedBehaves(Next(t, h), rest, all + Appended(Events([h])));
      EventsCons(h, rest);
      assert [h] + rest == hs;
      hide Events, WellBehaved, Run;
      if h.On? {
        BehavesCons(t.core, h.event, Events(rest));
      } else {
        assert [] + Events(rest) == Events(rest);
      }
    }
  }

  // ----- Where runs come to rest -----

  /** Nothing will happen any more unless the request is called from outside. */
  predicate AtRest(t: Tracked) {
    Pending(t) == 0 && FinishBlock !in t.core.blocks
  }

  /** The retry is dropped because the request has been cancelled. */
  predicate Drops(t: Tracked, h: Happening) {
    h.On? && h.event.PerformedRetry? && t.core.retries > 0 && t.core.state == State.Cancelled
  }

  predicate DropsRetry(t: Tracked, hs: seq<Happening>)
    decreases hs
  {
    hs != [] && (Drops(t, hs[0]) || DropsRetry(Next(t, hs[0]), hs[1..]))
  }

  /** A cancelled request that has not flushed will still be finished, or go on finishing. */
  predicate Alive(t: Tracked) {
    var c := t.core;
    c.state == State.Cancelled && !c.processingFinished && c.inFlight == [] ==>
      c.retries > 0 || (!c.isFinishing && (FinishBlock in c.blocks || t.attempt.Live? || c.asked > 0))
  }

  lemma {:induction false} FinishAlive(t: Tracked)
    requires Token(t) && Alive(t) && !t.attempt.NoAttempt?
    ensures Alive(Tracked(t.core.Finish(), NoAttempt))
  {
  }

  lemma {:induction false} AliveStep(t: Tracked, h: Happening, all: seq<Serializer>)
    requires Inv(t.core, all) && Token(t) && Sourced(t, h)
    requires Alive(t) && !Drops(t, h)
    ensures Alive(Next(t, h))
  {
    if h.On? { AliveEvent(t, h.event, all); }
  }

  lemma {:induction false} AliveEvent(t: Tracked, e: Event, all: seq<Serializer>)
    requires Inv(t.core, all) && Token(t) && Sourced(t, On(e))
    requires Alive(t) && !Drops(t, On(e))
    ensures Alive(Next(t, On(e)))
  {
    hide Core.Finish, Core.Reported;
    var c := t.core;
    match e
    case Finish => FinishAlive(t);
    case TaskDone(error, delegate) => if !error || !delegate { FinishAlive(t); }
    case Answered(result) => if c.asked > 0 { AnsweredAlive(t, result); }
    case Reported(k, failed, result) => if k < |c.inFlight| { ReportedAlive(t, all, k, failed, result); }
    case RunBlock(k, start) => if k < |c.blocks| { BlockAlive(t, all, k, start); }
    case Cancel(liveTask) => CancelAlive(t, all, liveTask);
    case PerformedRetry =>
    case Append(_) =>
    case Resume =>
    case Suspend =>
  }

  lemma {:induction false} AnsweredAlive(t: Tracked, result: RetryResult)
    requires Alive(t) && t.core.asked > 0
    ensures Alive(Next(t, On(Answered(result))))
  {
  }

  lemma {:induction false} ReportedAlive(t: Tracked, all: seq<Serializer>, k: nat, failed: bool, result: RetryResult)
    requires Inv(t.core, all) && k < |t.core.inFlight|
    ensures Alive(t.(core := t.core.Reported(k, failed, result)))
  {
  }

  lemma {:induction false} BlockAlive(t: Tracked, all: seq<Serializer>, k: nat, start: bool)
    requires Inv(t.core, all) && Alive(t) && k < |t.core.blocks|
    ensures Alive(Next(t, On(RunBlock(k, start))))
  {
    BlockInv(t.core, k, all);
    if t.core.blocks[k] != FinishBlock && FinishBlock in t.core.blocks { RemainsIn(t.core.blocks, k, FinishBlock); }
  }

  lemma {:induction false} CancelAlive(t: Tracked, all: seq<Serializer>, liveTask: bool)
    requires Inv(t.core, all) && Token(t) && Alive(t) && (liveTask ==> t.attempt.Live?)
    ensures Alive(t.(core := t.core.Cancel(liveTask)))
  {
  }

  lemma {:induction false} RunAlive(t: Tracked, hs: seq<Happening>, all: seq<Serializer>)
    requires Inv(t.core, all) && Token(t) && Alive(t)
    requires SourcedRun(t, hs) && !DropsRetry(t, hs)
    ensures Alive(Track(t, hs))
    decreases hs
  {
    hide Step, Inv, Token, Alive, Allowed, Sourced, Drops, Next;
    if hs != [] {
      AliveStep(t, hs[0], all);
      NextKeeps(t, hs[0], all);
      RunAlive(Next(t, hs[0]), hs[1..], all + Appended(Events([hs[0]])));
    }
  }

  lemma {:induction false} NewInv()
    ensures Inv(NewRequest(), []) && Token(NewTracked()) && Alive(NewTracked())
  {
  }

  /** At rest, a request that is alive has delivered. */
  lemma {:induction false} RestDelivers(t: Tracked, all: seq<Serializer>)
    requires Inv(t.core, all) && Token(t) && AtRest(t) && Alive(t)
    ensures Delivered(t.core, all)
  {
  }

  lemma {:induction false} RestOfUncancelled(t: Tracked, all: seq<Serializer>)
    requires Inv(t.core, all) && Token(t) && AtRest(t) && t.core.state != State.Cancelled
    ensures Delivered(t.core, all)
  {
  }

  /** Delivery: in every run that the source can cause, each completion is called at most
      once, in order and by one attempt, and all of them or none; and when the run has come
      to rest they have been called, unless a retry was dropped. */
  lemma {:induction false} Delivery(hs: seq<Happening>)
    requires SourcedRun(NewTracked(), hs)
    ensures var t, all := Track(NewTracked(), hs), Appended(Events(hs));
      && |t.core.inFlight| <= 1
      && (if t.core.processingFinished then Delivered(t.core, all) else t.core.called == [])
      && (AtRest(t) ==> Delivered(t.core, all) || (t.core.state == State.Cancelled && DropsRetry(NewTracked(), hs)))
  {
    var t, all := Track(NewTracked(), hs), Appended(Events(hs));
    NewInv();
    SourcedBehaves(NewTracked(), hs, []);
    RunInv(NewRequest(), Events(hs), []);
    assert [] + all == all;
    if !DropsRetry(NewTracked(), hs) { RunAlive(NewTracked(), hs, []); }
    hide Run, SourcedRun, Track, DropsRetry, Appended, Events, NewTracked, NewRequest, AtRest, Alive, Token;
    if AtRest(t) {
      if t.core.state != State.Cancelled {
        RestOfUncancelled(t, all);
      } else if Alive(t) {
        RestDelivers(t, all);
      }
    }
  }

  // ----- Requests that lose their completions -----

  /** Cancelled, with no serializer in flight, and either finishing already or with nothing
      left that would finish it. */
  predicate Lost(t: Tracked) {
    var c := t.core;
    && c.state == State.Cancelled && !c.processingFinished && c.inFlight == [] && ProcessBlock !in c.blocks
    && (c.isFinishing || (FinishBlock !in c.blocks && t.attempt.NoAttempt? && c.asked == 0))
  }

  lemma {:induction false} LostForever(t: Tracked, hs: seq<Happening>)
    requires Lost(t) && SourcedRun(t, hs)
    ensures Lost(Track(t, hs)) && Track(t, hs).core.called == t.core.called
    decreases hs
  {
    if hs != [] {
      LostStep(t, hs[0]);
      hide Next, Lost, Sourced;
      LostForever(Next(t, hs[0]), hs[1..]);
    }
  }

  lemma {:induction false} LostStep(t: Tracked, h: Happening)
    requires Lost(t) && Sourced(t, h)
    ensures Lost(Next(t, h)) && Next(t, h).core.called == t.core.called
  {
  }

  function IndexOf(blocks: seq<Block>, b: Block): (k: nat)
    requires b in blocks
    ensures k < |blocks| && blocks[k] == b
  {
    if blocks[0] == b then 0 else 1 + IndexOf(blocks[1..], b)
  }

  /** What finishes a request that is not finishing. */
  predicate Finishable(t: Tracked) {
    !t.core.isFinishing && (t.attempt.Live? || t.core.asked > 0 || FinishBlock in t.core.blocks)
  }

  function Finisher(t: Tracked): Event
    requires Finishable(t)
  {
    if t.attempt.Live? then TaskDone(false, false)
    else if t.core.asked > 0 then Answered(DoNotRetry)
    else RunBlock(IndexOf(t.core.blocks, FinishBlock), false)
  }

  /** n serializers report success, one after the other. */
  function AllReport(n: nat): seq<Happening> {
    if n == 0 then [] else [On(Event.Reported(0, false, DoNotRetry))] + AllReport(n - 1)
  }

  function WayHome(t: Tracked): seq<Happening>
    requires |t.core.completions| <= |t.core.serializers|
  {
    var n := |t.core.serializers|;
    if t.core.inFlight != [] then AllReport(n - |t.core.completions|)
    else if Finishable(t) then [On(Finisher(t))] + AllReport(n)
    else if t.attempt.Starting? then [TaskCreated] + ([On(TaskDone(false, false))] + AllReport(n))
    else [On(PerformedRetry)] + ([TaskCreated] + ([On(TaskDone(false, false))] + AllReport(n)))
  }

  lemma {:induction false} TrackCons(t: Tracked, h: Happening, hs: seq<Happening>)
    ensures Track(t, [h] + hs) == Track(Next(t, h), hs)
    ensures SourcedRun(t, [h] + hs) <==> Sourced(t, h) && SourcedRun(Next(t, h), hs)
  {
    hide Next, Sourced;
    assert ([h] + hs)[1..] == hs;
  }

  lemma {:induction false} ReportsSourced(t: Tracked, n: nat)
    ensures SourcedRun(t, AllReport(n)) && Track(t, AllReport(n)).core == Run(t.core, Dones(0, n))
    decreases n
  {
    if n > 0 {
      var e := Event.Reported(0, false, DoNotRetry);
      ReportsSourced(Next(t, On(e)), n - 1);
      TrackCons(t, On(e), AllReport(n - 1));
      RunCons(t.core, e, Dones(0, n - 1));
      hide Step, Track, Run, SourcedRun;
    }
  }

  lemma {:induction false} FinisherFinishes(t: Tracked, all: seq<Serializer>)
    requires Inv(t.core, all) && Collecting(t.core, all) && Finishable(t)
    ensures var hs := [On(Finisher(t))] + AllReport(|all|);
            SourcedRun(t, hs) && Track(t, hs).core.processingFinished
  {
    var c, e := t.core, Finisher(t);
    var before :=
      if e.TaskDone? then c
      else if e.Answered? then c.(asked := c.asked - 1)
      else c.(blocks := c.blocks[..e.k] + c.blocks[e.k + 1..]);
    assert Step(c, e) == Step(before, Event.Finish);
    assert Sourced(t, On(e));
    DrainsFromFinish(before, all);
    hide Run, Dones, Step, AllReport;
    RunCons(before, Event.Finish, Dones(0, |all|));
    TrackCons(t, On(e), AllReport(|all|));
    ReportsSourced(Next(t, On(e)), |all|);
  }

  /** An attempt creates its task and the task completes. */
  lemma {:induction false} AttemptLeads(t: Tracked, all: seq<Serializer>)
    requires Inv(t.core, all) && Collecting(t.core, all) && !t.core.isFinishing
    requires t.attempt.Starting? && t.core.state != State.Cancelled
    ensures var hs := [TaskCreated] + ([On(TaskDone(false, false))] + AllReport(|all|));
            SourcedRun(t, hs) && Track(t, hs).core.processingFinished
  {
    FinisherFinishes(Next(t, TaskCreated), all);
    TrackCons(t, TaskCreated, [On(TaskDone(false, false))] + AllReport(|all|));
  }

  lemma {:induction false} RetryLeads(t: Tracked, all: seq<Serializer>)
    requires Inv(t.core, all) && Collecting(t.core, all) && t.core.inFlight == []
    requires t.core.retries > 0 && t.core.state != State.Cancelled
    ensures var hs := [On(PerformedRetry)] + ([TaskCreated] + ([On(TaskDone(false, false))] + AllReport(|all|)));
            SourcedRun(t, hs) && Track(t, hs).core.processingFinished
  {
    var hs := [TaskCreated] + ([On(TaskDone(false, false))] + AllReport(|all|));
    RetryInv(t.core, all);
    AttemptLeads(Next(t, On(PerformedRetry)), all);
    TrackCons(t, On(PerformedRetry), hs);
  }

  lemma {:induction false} WayHomeLeads(t: Tracked, all: seq<Serializer>)
    requires Inv(t.core, all) && Collecting(t.core, all) && Token(t) && !Lost(t)
    ensures SourcedRun(t, WayHome(t)) && Track(t, WayHome(t)).core.processingFinished
  {
    hide SourcedRun, Track, Next, Step, Sourced, Run, Dones, AllReport;
    if t.core.inFlight != [] {
      ReportsSourced(t, |all| - |t.core.completions|);
      DrainsFromFlight(t.core, all);
    } else if Finishable(t) {
      FinisherFinishes(t, all);
    } else if t.attempt.Starting? {
      AttemptLeads(t, all);
    } else {
      RetryLeads(t, all);
    }
  }

  /** At any moment of such a run before the flush, the completions can still be called if
      and only if the request is not lost. */
  lemma {:induction false} CanStillDeliverIff(t: Tracked, all: seq<Serializer>)
    requires Inv(t.core, all) && Collecting(t.core, all) && Token(t)
    ensures (exists hs :: SourcedRun(t, hs) && Track(t, hs).core.processingFinished) <==> !Lost(t)
  {
    if Lost(t) {
      forall hs | SourcedRun(t, hs) ensures !Track(t, hs).core.processingFinished { LostForever(t, hs); }
    } else {
      WayHomeLeads(t, all);
    }
  }

  // ----- Single runs -----

  /** A new request with serializer 0. */
  function WithSerializer(): Core { NewRequest().(serializers := [0], blocks := [StartBlock]) }

  lemma {:induction false} AppendFirst()
    ensures Step(NewRequest(), Append(0)) == WithSerializer()
  {
    assert [] + [0] == [0] && [] + [] + [StartBlock] == [StartBlock];
  }

  /** The run of the happenings is possible and leads from t to u. */
  predicate Leads(t: Tracked, hs: seq<Happening>, u: Tracked) {
    SourcedRun(t, hs) && Track(t, hs) == u
  }

  lemma {:induction false} LeadsCons(t: Tracked, h: Happening, hs: seq<Happening>, u: Tracked)
    ensures Leads(t, [h] + hs, u) <==> Sourced(t, h) && Leads(Next(t, h), hs, u)
  {
    TrackCons(t, h, hs);
    hide Next, Sourced, Track, SourcedRun;
  }

  lemma {:induction false} LeadsInOne(t: Tracked, h: Happening)
    ensures Leads(t, [h], Next(t, h)) <==> Sourced(t, h)
  {
    hide Next, Sourced;
    TrackCons(t, h, []);
    assert [h] + [] == [h];
  }

  lemma {:induction false} FinishFirst(c: Core)
    requires c.serializers == [0] && c.completions == [] && !c.isFinishing && c.inFlight == []
    ensures c.Finish() == c.(isFinishing := true, inFlight := [Job(0, c.retryCount)])
  {
    assert [] + [Job(0, c.retryCount)] == [Job(0, c.retryCount)];
  }

  /** A request is cancelled before its task exists, its attempt ends at a guard, and the
      block that cancelling has enqueued finishes it. */
  function CancelledEarly(): seq<Happening> {
    [On(Append(0))] + ([On(Event.Cancel(false))] + ([Abandoned] + ([On(RunBlock(1, false))] +
      [On(Event.Reported(0, false, DoNotRetry))])))
  }

  lemma {:induction false} EarlySteps(c2: Core, c3: Core, c4: Core)
    requires c2 == WithSerializer().(state := State.Cancelled, blocks := [StartBlock, FinishBlock])
    requires c3 == c2.(blocks := [StartBlock], isFinishing := true, inFlight := [Job(0, 0)])
    requires c4 == c3.(inFlight := [], completions := [Job(0, 0)]).Flush()
    ensures Step(WithSerializer(), Event.Cancel(false)) == c2
    ensures Step(c2, RunBlock(1, false)) == c3
    ensures Step(c3, Event.Reported(0, false, DoNotRetry)) == c4
    ensures AtRest(Tracked(c4, NoAttempt)) && c4.state == State.Cancelled && c4.called == [Job(0, 0)]
  {
    assert [StartBlock, FinishBlock][..1] + [StartBlock, FinishBlock][2..] == [StartBlock];
    FinishFirst(c2.(blocks := [StartBlock]));
    assert [Job(0, 0)][..0] + [Job(0, 0)][1..] == [];
    assert [] + [Job(0, 0)] == [Job(0, 0)];
  }

  /** Such a request comes to rest with its completion called. */
  lemma {:induction false} CancelledEarlyDelivers()
    ensures SourcedRun(NewTracked(), CancelledEarly())
    ensures var t := Track(NewTracked(), CancelledEarly());
            AtRest(t) && t.core.state == State.Cancelled && t.core.called == [Job(0, 0)]
  {
    var c2 := WithSerializer().(state := State.Cancelled, blocks := [StartBlock, FinishBlock]);
    var c3 := c2.(blocks := [StartBlock], isFinishing := true, inFlight := [Job(0, 0)]);
    var c4 := c3.(inFlight := [], completions := [Job(0, 0)]).Flush();
    AppendFirst();
    EarlySteps(c2, c3, c4);
    hide Step, SourcedRun, Track, Leads, AtRest, Core.Flush;
    var t0, t1, t2 := NewTracked(), Tracked(WithSerializer(), Starting), Tracked(c2, Starting);
    var h1, h2, h3, h4 := On(Event.Cancel(false)), Abandoned, On(RunBlock(1, false)),
                          On(Event.Reported(0, false, DoNotRetry));
    var u := Tracked(c4, NoAttempt);
    LeadsInOne(Tracked(c3, NoAttempt), h4);
    LeadsCons(Tracked(c2, NoAttempt), h3, [h4], u);
    LeadsCons(t2, h2, [h3] + [h4], u);
    LeadsCons(t1, h1, [h2] + ([h3] + [h4]), u);
    LeadsCons(t0, On(Append(0)), [h1] + ([h2] + ([h3] + [h4])), u);
    LeadsIs(t0, CancelledEarly(), u);
  }

  lemma {:induction false} LeadsIs(t: Tracked, hs: seq<Happening>, u: Tracked)
    requires Leads(t, hs, u)
    ensures SourcedRun(t, hs) && Track(t, hs) == u
  {
  }

  // ----- Runs that lose completions -----

  /** The serializer asks for a retry, and the request is cancelled before it is made. */
  function CancelledBeforeRetry(): seq<Happening> {
    [On(Append(0))] + ([TaskCreated] + ([On(TaskDone(false, false))] +
      ([On(Event.Reported(0, true, RetryResult.Retry))] + [On(Event.Cancel(false))])))
  }

  lemma {:induction false} CancelSteps(c2: Core, c3: Core, c4: Core)
    requires c2 == WithSerializer().(isFinishing := true, inFlight := [Job(0, 0)])
    requires c3 == c2.(inFlight := [], retries := 1)
    requires c4 == c3.(state := State.Cancelled, blocks := [StartBlock, FinishBlock])
    ensures Step(WithSerializer(), TaskDone(false, false)) == c2
    ensures Step(c2, Event.Reported(0, true, RetryResult.Retry)) == c3
    ensures Step(c3, Event.Cancel(false)) == c4
    ensures Stuck(c4)
  {
    FinishFirst(WithSerializer());
    assert [Job(0, 0)][..0] + [Job(0, 0)][1..] == [];
  }

  lemma {:induction false} CancelBeforeRetryLoses()
    ensures SourcedRun(NewTracked(), CancelledBeforeRetry())
    ensures Stuck(Track(NewTracked(), CancelledBeforeRetry()).core)
    ensures Track(NewTracked(), CancelledBeforeRetry()).core.serializers == [0]
  {
    var c1 := WithSerializer();
    var c2 := c1.(isFinishing := true, inFlight := [Job(0, 0)]);
    var c3 := c2.(inFlight := [], retries := 1);
    var c4 := c3.(state := State.Cancelled, blocks := [StartBlock, FinishBlock]);
    AppendFirst();
    CancelSteps(c2, c3, c4);
    hide Step, SourcedRun, Track, Leads, Stuck;
    var h2, h3, h4 := On(TaskDone(false, false)), On(Event.Reported(0, true, RetryResult.Retry)),
                      On(Event.Cancel(false));
    var u := Tracked(c4, NoAttempt);
    LeadsInOne(Tracked(c3, NoAttempt), h4);
    LeadsCons(Tracked(c2, NoAttempt), h3, [h4], u);
    LeadsCons(Tracked(c1, Live), h2, [h3] + [h4], u);
    LeadsCons(Tracked(c1, Starting), TaskCreated, [h2] + ([h3] + [h4]), u);
    LeadsCons(NewTracked(), On(Append(0)), [TaskCreated] + ([h2] + ([h3] + [h4])), u);
    LeadsIs(NewTracked(), CancelledBeforeRetry(), u);
  }

  /** The request is cancelled while its task is alive, the retrier wants to retry after the
      task's error, and the retry is skipped: nothing finishes the request. */
  function RetriedAfterCancel(): seq<Happening> {
    [On(Append(0))] + ([TaskCreated] + ([On(Event.Cancel(true))] + ([On(TaskDone(true, true))] +
      ([On(Answered(RetryResult.Retry))] + [On(PerformedRetry)]))))
  }

  lemma {:induction false} LateRetrySteps(c2: Core)
    requires c2 == WithSerializer().(state := State.Cancelled)
    ensures Step(WithSerializer(), Event.Cancel(true)) == c2
    ensures Step(c2, TaskDone(true, true)) == c2.(asked := 1)
    ensures Step(c2.(asked := 1), Answered(RetryResult.Retry)) == c2.(retries := 1)
    ensures Step(c2.(retries := 1), PerformedRetry) == c2
  {
    hide Core.Finish, Core.ProcessNext, Core.Flush, Core.Reported, Core.DidComplete, Core.Append;
  }

  lemma {:induction false} LateRetryRests(c2: Core)
    requires c2 == WithSerializer().(state := State.Cancelled)
    ensures AtRest(Tracked(c2, NoAttempt)) && Lost(Tracked(c2, NoAttempt))
  {
    assert c2.blocks == [StartBlock];
  }

  lemma {:induction false} RetryAfterCancelLoses()
    ensures SourcedRun(NewTracked(), RetriedAfterCancel())
    ensures var t := Track(NewTracked(), RetriedAfterCancel());
            AtRest(t) && Lost(t) && !t.core.isFinishing && t.core.serializers == [0]
  {
    var c1 := WithSerializer();
    var c2 := c1.(state := State.Cancelled);
    AppendFirst();
    LateRetrySteps(c2);
    LateRetryRests(c2);
    hide Step, SourcedRun, Track, Leads, AtRest, Lost;
    var h2, h3 := On(Event.Cancel(true)), On(TaskDone(true, true));
    var h4, h5 := On(Answered(RetryResult.Retry)), On(PerformedRetry);
    var u := Tracked(c2, NoAttempt);
    LeadsInOne(Tracked(c2.(retries := 1), NoAttempt), h5);
    LeadsCons(Tracked(c2.(asked := 1), NoAttempt), h4, [h5], u);
    LeadsCons(Tracked(c2, Live), h3, [h4] + [h5], u);
    LeadsCons(Tracked(c1, Live), h2, [h3] + ([h4] + [h5]), u);
    LeadsCons(Tracked(c1, Starting), TaskCreated, [h2] + ([h3] + ([h4] + [h5])), u);
    LeadsCons(NewTracked(), On(Append(0)), [TaskCreated] + ([h2] + ([h3] + ([h4] + [h5]))), u);
    LeadsIs(NewTracked(), RetriedAfterCancel(), u);
  }

  /** What the assumption on retries rules out: were finish() called while a retry is
      scheduled, a serializer would be in flight when it is made. */
  function BeforeFinish(): seq<Happening> {
    [On(Append(0))] + ([TaskCreated] + ([On(TaskDone(true, true))] + [On(Answered(RetryResult.Retry))]))
  }

  lemma {:induction false} StraySteps(c1: Core)
    requires c1 == WithSerializer()
    ensures Step(c1, TaskDone(true, true)) == c1.(asked := 1)
    ensures Step(c1.(asked := 1), Answered(RetryResult.Retry)) == c1.(retries := 1)
    ensures Step(c1.(retries := 1), Event.Finish) == c1.(retries := 1, isFinishing := true, inFlight := [Job(0, 0)])
  {
    FinishFirst(c1.(retries := 1));
  }

  lemma {:induction false} FinishWhileRetrying()
    ensures SourcedRun(NewTracked(), BeforeFinish())
    ensures var t := Track(NewTracked(), BeforeFinish());
            && !Sourced(t, On(Event.Finish)) && Allowed(t.core, Event.Finish)
            && var c := Step(t.core, Event.Finish);
               c.retries > 0 && c.inFlight != [] && c.state != State.Cancelled
  {
    var c1 := WithSerializer();
    AppendFirst();
    StraySteps(c1);
    hide Step, SourcedRun, Track, Leads;
    var h2, h3 := On(TaskDone(true, true)), On(Answered(RetryResult.Retry));
    var u := Tracked(c1.(retries := 1), NoAttempt);
    LeadsInOne(Tracked(c1.(asked := 1), NoAttempt), h3);
    LeadsCons(Tracked(c1, Live), h2, [h3], u);
    LeadsCons(Tracked(c1, Starting), TaskCreated, [h2] + [h3], u);
    LeadsCons(NewTracked(), On(Append(0)), [TaskCreated] + ([h2] + [h3]), u);
    LeadsIs(NewTracked(), BeforeFinish(), u);
  }
}
