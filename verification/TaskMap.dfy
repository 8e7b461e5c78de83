/** RequestTaskMap.swift: the two-way map between requests and URL session tasks, and the
    session callbacks that empty it after a task's two final events. */
module TaskMap {
  import opened Basics

  /** Requests and tasks are compared by identity; a completion is a closure. */
  type Request = nat
  type Task = nat
  type Completion = nat

  datatype Events = Events(completed: bool, metricsGathered: bool)

  datatype Maps = Maps(tasksToRequests: map<Task, Request>,
                       requestsToTasks: map<Request, Task>,
                       taskEvents: map<Task, Events>)
  {
    /** The two maps are inverse to each other and the events have the same tasks, none of
        them with both events. */
    ghost predicate Consistent() {
      && (forall t <- tasksToRequests :: tasksToRequests[t] in requestsToTasks
                                         && requestsToTasks[tasksToRequests[t]] == t)
      && (forall r <- requestsToTasks :: requestsToTasks[r] in tasksToRequests
                                         && tasksToRequests[requestsToTasks[r]] == r)
      && taskEvents.Keys == tasksToRequests.Keys
      && (forall t <- taskEvents :: !(taskEvents[t].completed && taskEvents[t].metricsGathered))
    }

    function Associate(r: Request, t: Task): Maps {
      Maps(tasksToRequests[t := r], requestsToTasks[r := t], taskEvents[t := Events(false, false)])
    }

    function Without(r: Request, t: Task): Maps {
      Maps(tasksToRequests - {t}, requestsToTasks - {r}, taskEvents - {t})
    }

    predicate AcceptsMetrics(t: Task) {
      t in taskEvents && !taskEvents[t].metricsGathered && (taskEvents[t].completed ==> t in tasksToRequests)
    }

    predicate AcceptsCompletion(t: Task) {
      t in taskEvents && !taskEvents[t].completed && (taskEvents[t].metricsGathered ==> t in tasksToRequests)
    }

    function AfterMetrics(t: Task): Maps
      requires AcceptsMetrics(t)
    {
      if taskEvents[t].completed then Without(tasksToRequests[t], t)
      else this.(taskEvents := taskEvents[t := Events(false, true)])
    }

    function AfterCompletion(t: Task): Maps
      requires AcceptsCompletion(t)
    {
      if taskEvents[t].metricsGathered then Without(tasksToRequests[t], t)
      else this.(taskEvents := taskEvents[t := Events(true, false)])
    }
  }

  // ----- The struct -----

  class RequestTaskMap {
    var tasksToRequests: map<Task, Request>
    var requestsToTasks: map<Request, Task>
    var taskEvents: map<Task, Events>

    constructor ()
      ensures Abs() == Maps(map[], map[], map[]) && Abs().Consistent()
    {
      tasksToRequests, requestsToTasks, taskEvents := map[], map[], map[];
    }

    ghost function Abs(): Maps
      reads this
    {
      Maps(tasksToRequests, requestsToTasks, taskEvents)
    }

    /** subscript(_ request:), set.  Removing needs an association: the source stops the
        program otherwise. */
    method SetForRequest(request: Request, newValue: Option<Task>)
      requires newValue.None? ==> request in requestsToTasks
      modifies this
      ensures Abs() == if newValue.Some? then old(Abs()).Associate(request, newValue.value)
                       else old(Abs()).Without(request, old(requestsToTasks)[request])
    {
      if newValue.None? {
        var task := requestsToTasks[request];
        requestsToTasks := requestsToTasks - {request};
        tasksToRequests := tasksToRequests - {task};
        taskEvents := taskEvents - {task};
        return;
      }
      requestsToTasks := requestsToTasks[request := newValue.value];
      tasksToRequests := tasksToRequests[newValue.value := request];
      taskEvents := taskEvents[newValue.value := Events(false, false)];
    }

    /** subscript(_ task:), set */
    method SetForTask(task: Task, newValue: Option<Request>)
      requires newValue.None? ==> task in tasksToRequests
      modifies this
      ensures Abs() == if newValue.Some? then old(Abs()).Associate(newValue.value, task)
                       else old(Abs()).Without(old(tasksToRequests)[task], task)
    {
      if newValue.None? {
        var request := tasksToRequests[task];
        tasksToRequests := tasksToRequests - {task};
        requestsToTasks := requestsToTasks - {request};
        taskEvents := taskEvents - {task};
        return;
      }
      tasksToRequests := tasksToRequests[task := newValue.value];
      requestsToTasks := requestsToTasks[newValue.value := task];
      taskEvents := taskEvents[task := Events(false, false)];
    }

    /** eventCount, with count inside it: both preconditions hold. */
    method EventCount() returns (n: nat)
      requires Abs().Consistent()
      ensures n == |tasksToRequests| == |requestsToTasks| == |taskEvents|
    {
      CountsAgree(Abs());
      n := |taskEvents|;
    }

    /** disassociateIfNecessaryAfterGatheringMetricsForTask */
    method DisassociateAfterMetrics(task: Task) returns (removed: bool)
      requires Abs().AcceptsMetrics(task)
      modifies this
      ensures Abs() == old(Abs()).AfterMetrics(task)
      ensures removed == old(taskEvents)[task].completed
    {
      var events := taskEvents[task];
      if events.completed {
        SetForTask(task, None);
        return true;
      }
      taskEvents := taskEvents[task := Events(false, true)];
      removed := false;
    }

    /** disassociateIfNecessaryAfterCompletingTask, on a platform that gathers metrics */
    method DisassociateAfterCompletion(task: Task) returns (removed: bool)
      requires Abs().AcceptsCompletion(task)
      modifies this
      ensures Abs() == old(Abs()).AfterCompletion(task)
      ensures removed == old(taskEvents)[task].metricsGathered
    {
      var events := taskEvents[task];
      if events.metricsGathered {
        SetForTask(task, None);
        return true;
      }
      taskEvents := taskEvents[task := Events(true, false)];
      removed := false;
    }
  }

  /** A call of a completion closure. */
  datatype Call = Call(task: Task, completion: Completion)

  datatype SessionState = SessionState(maps: Maps, waiting: map<Task, Completion>, called: seq<Call>)
  {
    /** Exactly the tasks that have completed and still miss their metrics have a completion
        waiting. */
    ghost predicate Consistent() {
      && maps.Consistent()
      && (forall t :: t in waiting <==> t in maps.taskEvents && maps.taskEvents[t].completed)
    }
  }

  /** The callbacks of Session that touch the map.  `called` logs the completions run. */
  class Session {
    const requestTaskMap: RequestTaskMap
    var waitingCompletions: map<Task, Completion>
    var called: seq<Call>

    constructor ()
      ensures Abs() == Empty() && fresh(requestTaskMap)
    {
      requestTaskMap := new RequestTaskMap();
      waitingCompletions, called := map[], [];
    }

    ghost function Abs(): SessionState
      reads this, requestTaskMap
    {
      SessionState(requestTaskMap.Abs(), waitingCompletions, called)
    }

    /** The association made by didCreateURLRequest and didReceiveResumeData. */
    method DidCreateTask(request: Request, task: Task)
      modifies requestTaskMap
      ensures Some(Abs()) == Next(old(Abs()), Create(request, task))
      ensures requestTaskMap.tasksToRequests == old(requestTaskMap.tasksToRequests)[task := request]
      ensures requestTaskMap.requestsToTasks == old(requestTaskMap.requestsToTasks)[request := task]
      ensures requestTaskMap.taskEvents == old(requestTaskMap.taskEvents)[task := Events(false, false)]
    {
      requestTaskMap.SetForRequest(request, Some(task));
    }

    method DidGatherMetricsForTask(task: Task)
      requires requestTaskMap.Abs().AcceptsMetrics(task)
      modifies this, requestTaskMap
      ensures Some(Abs()) == Next(old(Abs()), Metrics(task))
    {
      var didDisassociate := requestTaskMap.DisassociateAfterMetrics(task);
      if didDisassociate {
        if task in waitingCompletions {
          called := called + [Call(task, waitingCompletions[task])];
        }
        waitingCompletions := waitingCompletions - {task};
      }
    }

    method DidCompleteTask(task: Task, completion: Completion)
      requires requestTaskMap.Abs().AcceptsCompletion(task)
      modifies this, requestTaskMap
      ensures Some(Abs()) == Next(old(Abs()), Completed(task, completion))
    {
      var didDisassociate := requestTaskMap.DisassociateAfterCompletion(task);
      if didDisassociate {
        called := called + [Call(task, completion)];
      } else {
        waitingCompletions := waitingCompletions[task := completion];
      }
    }
  }

  // ----- Runs -----

  datatype Event =
    | Create(request: Request, task: Task)
    | Metrics(task: Task)
    | Completed(task: Task, completion: Completion)

  function Empty(): SessionState { SessionState(Maps(map[], map[], map[]), map[], []) }

  /** One callback; None where the source stops the program. */
  function Next(s: SessionState, e: Event): Option<SessionState> {
    match e
    case Create(r, t) => Some(s.(maps := s.maps.Associate(r, t)))
    case Metrics(t) =>
      if !s.maps.AcceptsMetrics(t) then None
      else
        var s' := s.(maps := s.maps.AfterMetrics(t));
        if !s.maps.taskEvents[t].completed then Some(s')
        else Some(s'.(called := if t in s.waiting then s.called + [Call(t, s.waiting[t])] else s.called,
                      waiting := s.waiting - {t}))
    case Completed(t, c) =>
      if !s.maps.AcceptsCompletion(t) then None
      else
        var s' := s.(maps := s.maps.AfterCompletion(t));
        if s.maps.taskEvents[t].metricsGathered then Some(s'.(called := s.called + [Call(t, c)]))
        else Some(s'.(waiting := s.waiting[t := c]))
  }

  function Run(s: SessionState, es: seq<Event>): Option<SessionState> {
    if es == [] then Some(s)
    else
      var s' := Run(s, es[..|es| - 1]);
      if s'.None? then None else Next(s'.value, es[|es| - 1])
  }

  /** Every association of the run is of a request and a task not present at that moment. */
  predicate FreshRun(s: SessionState, es: seq<Event>) {
    es != [] ==>
      && FreshRun(s, es[..|es| - 1])
      && var s' := Run(s, es[..|es| - 1]);
         s'.Some? && es[|es| - 1].Create? ==> Fresh(s'.value.maps, es[|es| - 1].request, es[|es| - 1].task)
  }

  predicate Fresh(m: Maps, r: Request, t: Task) {
    r !in m.requestsToTasks && t !in m.tasksToRequests
  }

  /** Removing both ends of one association. */
  lemma {:induction false} RemoveConsistent(m: Maps, t: Task)
    requires m.Consistent() && t in m.tasksToRequests
    ensures m.Without(m.tasksToRequests[t], t).Consistent()
  {
  }

  /** An association keeps the map one-to-one exactly when neither end is already
      associated, or both are, with each other. */
  lemma {:induction false} AssociateConsistentIff(m: Maps, r: Request, t: Task)
    requires m.Consistent()
    ensures m.Associate(r, t).Consistent() <==>
            Fresh(m, r, t) || (r in m.requestsToTasks && m.requestsToTasks[r] == t)
  {
    var n := m.Associate(r, t);
    if r in m.requestsToTasks && m.requestsToTasks[r] != t {
      assert n.requestsToTasks[n.tasksToRequests[m.requestsToTasks[r]]] == t;
    } else if t in m.tasksToRequests && m.tasksToRequests[t] != r {
      assert n.tasksToRequests[n.requestsToTasks[m.tasksToRequests[t]]] == r;
    }
  }

  lemma {:induction false} StepConsistent(s: SessionState, e: Event)
    requires s.Consistent() && (e.Create? ==> Fresh(s.maps, e.request, e.task))
    ensures Next(s, e).Some? ==> Next(s, e).value.Consistent()
    ensures Next(s, e).None? <==> match e
            case Create(_, _) => false
            case Metrics(t) => t !in s.maps.tasksToRequests || s.maps.taskEvents[t].metricsGathered
            case Completed(t, _) => t !in s.maps.tasksToRequests || s.maps.taskEvents[t].completed
  {
    match e
    case Create(r, t) => AssociateConsistentIff(s.maps, r, t); CreateConsistent(s, r, t);
    case Metrics(t) => MetricsConsistent(s, t);
    case Completed(t, c) => CompletedConsistent(s, t, c);
  }

  lemma {:induction false} CreateConsistent(s: SessionState, r: Request, t: Task)
    requires s.Consistent() && Fresh(s.maps, r, t) && s.maps.Associate(r, t).Consistent()
    ensures s.(maps := s.maps.Associate(r, t)).Consistent()
  {
    hide Maps.Consistent;
    assert s.maps.taskEvents.Keys == s.maps.tasksToRequests.Keys by { KeysAgree(s.maps); }
  }

  lemma {:induction false} KeysAgree(m: Maps)
    requires m.Consistent()
    ensures m.taskEvents.Keys == m.tasksToRequests.Keys
    ensures forall t <- m.taskEvents :: !(m.taskEvents[t].completed && m.taskEvents[t].metricsGathered)
  {
  }

  lemma {:induction false} MetricsConsistent(s: SessionState, t: Task)
    requires s.Consistent()
    ensures Next(s, Metrics(t)).Some? ==> Next(s, Metrics(t)).value.Consistent()
    ensures Next(s, Metrics(t)).None? <==> t !in s.maps.tasksToRequests || s.maps.taskEvents[t].metricsGathered
  {
    if t in s.maps.tasksToRequests { RemoveConsistent(s.maps, t); }
  }

  lemma {:induction false} CompletedConsistent(s: SessionState, t: Task, c: Completion)
    requires s.Consistent()
    ensures Next(s, Completed(t, c)).Some? ==> Next(s, Completed(t, c)).value.Consistent()
    ensures Next(s, Completed(t, c)).None? <==> t !in s.maps.tasksToRequests || s.maps.taskEvents[t].completed
  {
    if t in s.maps.tasksToRequests { RemoveConsistent(s.maps, t); }
  }

  /** Over every run the maps stay inverse to each other and a completion waits exactly for
      the tasks that are between their completion and their metrics. */
  lemma {:induction false} RunConsistent(s: SessionState, es: seq<Event>)
    requires s.Consistent() && FreshRun(s, es)
    ensures Run(s, es).Some? ==> Run(s, es).value.Consistent()
  {
    if es != [] {
      var before := es[..|es| - 1];
      RunConsistent(s, before);
      if Run(s, before).Some? {
        StepConsistent(Run(s, before).value, es[|es| - 1]);
      }
    }
  }

  lemma {:induction false} InjectiveCount(f: map<nat, nat>, g: map<nat, nat>)
    requires forall x <- f :: f[x] in g && g[f[x]] == x
    ensures |f| <= |g|
  {
    if f != map[] {
      var x :| x in f;
      var f', g' := f - {x}, g - {f[x]};
      assert f'.Keys == f.Keys - {x};
      assert g'.Keys == g.Keys - {f[x]};
      assert |f.Keys| == |f| && |g.Keys| == |g| && |f'.Keys| == |f'| && |g'.Keys| == |g'|;
      InjectiveCount(f', g');
    }
  }

  /** The preconditions of count, eventCount, isEmpty and isEventsEmpty. */
  lemma {:induction false} CountsAgree(m: Maps)
    requires m.Consistent()
    ensures |m.tasksToRequests| == |m.requestsToTasks| == |m.taskEvents|
  {
    InjectiveCount(m.tasksToRequests, m.requestsToTasks);
    InjectiveCount(m.requestsToTasks, m.tasksToRequests);
    assert |m.taskEvents| == |m.taskEvents.Keys| == |m.tasksToRequests.Keys|;
  }

  // ----- Which tasks are in the map -----

  /** A new task is associated with its request, both ways, with no event yet; all others
      stay as they were. */
  lemma {:induction false} CreateAssociates(s: SessionState, r: Request, t: Task)
    requires s.Consistent() && Fresh(s.maps, r, t)
    ensures Next(s, Create(r, t)).Some?
    ensures var m, n := s.maps, Next(s, Create(r, t)).value.maps;
      && t in n.tasksToRequests && n.tasksToRequests[t] == r
      && r in n.requestsToTasks && n.requestsToTasks[r] == t
      && t in n.taskEvents && n.taskEvents[t] == Events(false, false)
      && n.tasksToRequests - {t} == m.tasksToRequests && n.requestsToTasks - {r} == m.requestsToTasks
      && n.taskEvents - {t} == m.taskEvents
  {
    KeysAgree(s.maps);
  }

  /** The request that task t was last created for. */
  function CreatedFor(es: seq<Event>, t: Task): Option<Request> {
    if es == [] then None
    else
      var e := es[|es| - 1];
      if e.Create? && e.task == t then Some(e.request) else CreatedFor(es[..|es| - 1], t)
  }

  /** The number of its final events since. */
  function FinalsSince(es: seq<Event>, t: Task): nat {
    if es == [] then 0
    else
      var e := es[|es| - 1];
      if e.task != t then FinalsSince(es[..|es| - 1], t)
      else if e.Create? then 0
      else FinalsSince(es[..|es| - 1], t) + 1
  }

  /** What the map says of task t, in terms of the log. */
  predicate Logged(m: Maps, r: Option<Request>, finals: nat, t: Task) {
    if t in m.taskEvents
    then
      && t in m.tasksToRequests && r == Some(m.tasksToRequests[t])
      && finals == (if m.taskEvents[t].completed then 1 else 0) + (if m.taskEvents[t].metricsGathered then 1 else 0)
    else
      r.None? || finals >= 2
  }

  lemma {:induction false} LoggedStep(s: SessionState, e: Event, r: Option<Request>, finals: nat, t: Task)
    requires s.Consistent() && Next(s, e).Some? && Logged(s.maps, r, finals, t)
    requires e.Create? ==> Fresh(s.maps, e.request, e.task)
    ensures Logged(Next(s, e).value.maps,
                   if e.Create? && e.task == t then Some(e.request) else r,
                   if e.task != t then finals else if e.Create? then 0 else finals + 1, t)
  {
    match e
    case Create(q, u) =>
    case Metrics(u) =>
    case Completed(u, c) =>
  }

  lemma {:induction false} RunLogged(es: seq<Event>, t: Task)
    requires FreshRun(Empty(), es) && Run(Empty(), es).Some?
    ensures Logged(Run(Empty(), es).value.maps, CreatedFor(es, t), FinalsSince(es, t), t)
  {
    if es != [] {
      var before, e := es[..|es| - 1], es[|es| - 1];
      assert Run(Empty(), es) == Next(Run(Empty(), before).value, e);
      RunConsistent(Empty(), before);
      hide Next, Logged, SessionState.Consistent;
      RunLogged(before, t);
      LoggedStep(Run(Empty(), before).value, e, CreatedFor(before, t), FinalsSince(before, t), t);
    }
  }

  /** After every run a task is in the map exactly when it has been created and has had fewer
      than two final events since, and then it is associated with the request it was created
      for. */
  lemma {:induction false} InMapIff(es: seq<Event>, t: Task)
    requires FreshRun(Empty(), es) && Run(Empty(), es).Some?
    ensures var m := Run(Empty(), es).value.maps;
      && (t in m.tasksToRequests <==> CreatedFor(es, t).Some? && FinalsSince(es, t) < 2)
      && (t in m.tasksToRequests ==>
            var r := CreatedFor(es, t).value;
            m.tasksToRequests[t] == r && r in m.requestsToTasks && m.requestsToTasks[r] == t)
  {
    RunConsistent(Empty(), es);
    RunLogged(es, t);
    hide Run, FreshRun, CreatedFor, FinalsSince;
  }

  // ----- The life of one task -----

  /** The final events of task t in a run. */
  function About(es: seq<Event>, t: Task): seq<Event> {
    if es == [] then []
    else
      var e := es[|es| - 1];
      About(es[..|es| - 1], t) + (if !e.Create? && e.task == t then [e] else [])
  }

  /** The completions run for task t. */
  function CallsFor(called: seq<Call>, t: Task): seq<Completion> {
    if called == [] then []
    else
      var c := called[|called| - 1];
      CallsFor(called[..|called| - 1], t) + (if c.task == t then [c.completion] else [])
  }

  lemma {:induction false} CallsForSnoc(called: seq<Call>, c: Call, t: Task)
    ensures CallsFor(called + [c], t) == CallsFor(called, t) + (if c.task == t then [c.completion] else [])
  {
    assert (called + [c])[..|called|] == called;
  }

  /** What the final events seen so far, h, leave of task t. */
  predicate Stage(s: SessionState, t: Task, h: seq<Event>) {
    match |h|
    case 0 => t in s.maps.taskEvents && s.maps.taskEvents[t] == Events(false, false)
    case 1 =>
      && t in s.maps.taskEvents
      && (match h[0]
          case Create(_, _) => false
          case Metrics(_) => s.maps.taskEvents[t] == Events(false, true)
          case Completed(_, c) =>
            s.maps.taskEvents[t] == Events(true, false) && t in s.waiting && s.waiting[t] == c)
    case 2 =>
      && t !in s.maps.taskEvents && t !in s.waiting
      && (h[0].Completed? <==> h[1].Metrics?) && (h[0].Metrics? <==> h[1].Completed?)
    case _ => false
  }

  /** The completion a finished task was given, run once; nothing before that. */
  function Delivered(h: seq<Event>): seq<Completion> {
    if |h| < 2 then []
    else if h[0].Completed? then [h[0].completion]
    else if h[1].Completed? then [h[1].completion]
    else []
  }

  lemma {:induction false} TaskStep(s: SessionState, e: Event, t: Task, h: seq<Event>)
    requires s.Consistent() && Stage(s, t, h) && Next(s, e).Some?
    requires e.Create? ==> Fresh(s.maps, e.request, e.task) && e.task != t
    ensures var h' := h + (if !e.Create? && e.task == t then [e] else []);
            && Stage(Next(s, e).value, t, h')
            && Delivered(h) <= Delivered(h')
            && CallsFor(Next(s, e).value.called, t) == CallsFor(s.called, t) + Delivered(h')[|Delivered(h)|..]
  {
    hide *;
    if e.Create? || e.task != t {
      OtherStage(s, e, t, h);
      OtherCalls(s, e, t);
      assert h + [] == h;
    } else {
      OwnStep(s, e, h);
    }
  }

  lemma {:induction false} OtherStage(s: SessionState, e: Event, t: Task, h: seq<Event>)
    requires s.Consistent() && Stage(s, t, h) && Next(s, e).Some? && e.task != t
    requires e.Create? ==> Fresh(s.maps, e.request, e.task)
    ensures Stage(Next(s, e).value, t, h)
  {
    match e
    case Create(r, u) =>
    case Metrics(u) =>
    case Completed(u, c) =>
  }

  lemma {:induction false} OtherCalls(s: SessionState, e: Event, t: Task)
    requires Next(s, e).Some? && e.task != t
    ensures CallsFor(Next(s, e).value.called, t) == CallsFor(s.called, t)
  {
    if !e.Create? {
      hide CallsFor;
      var c := if e.Completed? then e.completion else if e.task in s.waiting then s.waiting[e.task] else 0;
      CallsForSnoc(s.called, Call(e.task, c), t);
    }
  }

  lemma {:induction false} OwnStep(s: SessionState, e: Event, h: seq<Event>)
    requires s.Consistent() && !e.Create? && Stage(s, e.task, h) && Next(s, e).Some?
    ensures Stage(Next(s, e).value, e.task, h + [e])
    ensures Delivered(h) <= Delivered(h + [e])
    ensures CallsFor(Next(s, e).value.called, e.task) ==
            CallsFor(s.called, e.task) + Delivered(h + [e])[|Delivered(h)|..]
  {
    hide CallsFor;
    var t := e.task;
    var c := if e.Completed? then e.completion else if t in s.waiting then s.waiting[t] else 0;
    CallsForSnoc(s.called, Call(t, c), t);
  }

  /** From its association on, whatever else happens, a task stays in the map until the
      second of its two final events, in either order, and leaves it there; its completion
      is run exactly then and never again. */
  lemma {:induction false} TwoEventRemoval(s: SessionState, es: seq<Event>, t: Task)
    requires s.Consistent() && FreshRun(s, es) && Run(s, es).Some?
    requires t in s.maps.taskEvents && s.maps.taskEvents[t] == Events(false, false)
    requires forall e <- es :: e.Create? ==> e.task != t
    ensures var s', h := Run(s, es).value, About(es, t);
            && Stage(s', t, h)
            && (t in s'.maps.tasksToRequests <==> |h| < 2)
            && CallsFor(s'.called, t) == CallsFor(s.called, t) + Delivered(h)
  {
    RunConsistent(s, es);
    hide Next, Stage, Delivered, CallsFor, SessionState.Consistent, Maps.Consistent;
    if es == [] {
      FirstStage(s, t);
    } else {
      var before, e := es[..|es| - 1], es[|es| - 1];
      assert About(es, t) == About(before, t) + (if !e.Create? && e.task == t then [e] else []);
      assert Run(s, es) == Next(Run(s, before).value, e);
      TwoEventRemoval(s, before, t);
      RunConsistent(s, before);
      hide About, Run;
      TaskStep(Run(s, before).value, es[|es| - 1], t, About(before, t));
      GrowsTo(CallsFor(s.called, t), Delivered(About(before, t)), Delivered(About(es, t)));
    }
    StageMeans(Run(s, es).value, t, About(es, t));
  }

  lemma {:induction false} GrowsTo(before: seq<Completion>, d: seq<Completion>, d': seq<Completion>)
    requires d <= d'
    ensures before + d + d'[|d|..] == before + d'
  {
    assert d + d'[|d|..] == d';
  }

  lemma {:induction false} FirstStage(s: SessionState, t: Task)
    requires t in s.maps.taskEvents && s.maps.taskEvents[t] == Events(false, false)
    ensures Stage(s, t, []) && Delivered([]) == []
  {
  }

  lemma {:induction false} StageMeans(s: SessionState, t: Task, h: seq<Event>)
    requires s.Consistent() && Stage(s, t, h)
    ensures t in s.maps.tasksToRequests <==> |h| < 2
  {
  }
}
