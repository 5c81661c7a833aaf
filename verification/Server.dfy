/**
  The life of a server as a protocol of steps: the close signal, the accept
  loop, connections, requests in both task modes, and the future that tells when
  the server has shut down.

  Reference counts are kept as the program keeps them, one up or down at a time:
  `arcs` counts the handles to the shared state, `workers` counts the clones of
  the wait group's worker, whose first one lives inside the shared state.
 */
module Server {
  import opened Wrappers

  datatype TaskMode = CancelOnDisconnect | Detached

  type ConnectionId = nat
  type RequestId = nat

  /** The server value: with its user, inside `close`, half dropped, or gone. */
  datatype Handle = Open | SignalSent | StateDropped | Gone

  datatype Signal = Unsent | InFlight | Received | Rejected

  datatype AcceptTask = Accepting | Draining | Finished | Failed

  datatype Join = AwaitingAcceptTask | AwaitingHandlers | Resolved(ok: bool)

  /** The future that answers a request. */
  datatype Answer = Routing | RunningInline | AwaitingResult | Ended(end: End)

  datatype End = Completed | Cancelled | Panicked

  /** A handler that runs as a task of its own. */
  datatype HandlerTask = NotSpawned | Running | Returned | Settled | Exited | Crashed

  /** The channel from such a task to the future that awaits its result. */
  datatype Channel = NoChannel | Empty | Full | SenderDropped | Delivered | ReceiverDropped(withResult: bool)

  datatype Record = RequestCompleted | RequestCancelled | CompletedLate | HandlerPanicked

  datatype Request = Request(answer: Answer, task: HandlerTask, channel: Channel, records: seq<Record>)

  datatype State = State(
    mode: TaskMode,
    handle: Handle,
    signal: Signal,
    sends: nat,
    accept: AcceptTask,
    connections: set<ConnectionId>,
    requests: map<RequestId, Request>,
    arcs: int,
    workers: int,
    join: Join)

  /** A started server: the handle and the accept loop share the state. */
  function Started(mode: TaskMode): State {
    State(mode, Open, Unsent, 0, Accepting, {}, map[], 2, 1, AwaitingAcceptTask)
  }

  /** What can happen to one request. */
  datatype Event =
    | Reject
    | RunInline | InlineReturns | InlinePanics
    | Spawn | HandlerReturns | HandlerPanics | SendResult | ReleaseWorker
    | ReceiveResult | ReceiveFails
    | Disconnect

  predicate Possible(mode: TaskMode, q: Request, e: Event) {
    match e
    case Reject => q.answer.Routing?
    case RunInline => q.answer.Routing? && mode.CancelOnDisconnect?
    case InlineReturns => q.answer.RunningInline?
    case InlinePanics => q.answer.RunningInline?
    case Spawn => q.answer.Routing? && mode.Detached?
    case HandlerReturns => q.task.Running?
    case HandlerPanics => q.task.Running?
    case SendResult => q.task.Returned?
    case ReleaseWorker => q.task.Settled?
    case ReceiveResult => q.answer.AwaitingResult? && q.channel.Full?
    case ReceiveFails => q.answer.AwaitingResult? && q.channel.SenderDropped?
    case Disconnect => !q.answer.Ended?
  }

  /** The future of a request ends and leaves its records. */
  function EndAnswer(q: Request, end: End, channel: Channel, records: seq<Record>): Request {
    q.(answer := Ended(end), channel := channel, records := q.records + records)
  }

  function React(q: Request, e: Event): Request {
    match e
    case Reject => EndAnswer(q, Completed, q.channel, [RequestCompleted])
    case RunInline => q.(answer := RunningInline)
    case InlineReturns => EndAnswer(q, Completed, q.channel, [RequestCompleted])
    case InlinePanics => EndAnswer(q, Panicked, q.channel, [RequestCancelled])
    case Spawn => q.(answer := AwaitingResult, task := Running, channel := Empty)
    case HandlerReturns => q.(task := Returned)
    case HandlerPanics => q.(task := Crashed, channel := if q.channel.Empty? then SenderDropped else q.channel)
    case SendResult =>
      if q.channel.Empty? then q.(task := Settled, channel := Full)
      else q.(task := Settled, records := q.records + [CompletedLate])
    case ReleaseWorker => q.(task := Exited)
    case ReceiveResult => EndAnswer(q, Completed, Delivered, [RequestCompleted])
    case ReceiveFails => EndAnswer(q, Panicked, ReceiverDropped(false), [HandlerPanicked, RequestCancelled])
    case Disconnect =>
      var channel := if q.channel.NoChannel? then NoChannel else ReceiverDropped(q.channel.Full?);
      EndAnswer(q, Cancelled, channel, [RequestCancelled])
  }

  datatype Step =
    | CloseSends | CloseFails | CloseDropsState
    | DropState | DropCloser
    | Accept(c: ConnectionId) | ReceiveSignal | FinishDraining | FailAcceptTask
    | EndConnection(c: ConnectionId)
    | StartRequest(c: ConnectionId, r: RequestId)
    | Advance(r: RequestId, e: Event)
    | JoinAcceptTask | JoinHandlers

  predicate Enabled(s: State, step: Step) {
    match step
    case CloseSends => s.handle.Open? && s.accept.Accepting?
    case CloseFails => s.handle.Open? && !s.accept.Accepting?
    case CloseDropsState => s.handle.SignalSent?
    case DropState => s.handle.Open?
    case DropCloser => s.handle.StateDropped?
    case Accept(c) => s.accept.Accepting? && c !in s.connections
    case ReceiveSignal => s.accept.Accepting? && s.signal.InFlight?
    case FinishDraining => s.accept.Draining? && s.connections == {}
    case FailAcceptTask => s.accept.Accepting? || s.accept.Draining?
    case EndConnection(c) => c in s.connections
    case StartRequest(c, r) => c in s.connections && r !in s.requests
    case Advance(r, e) => r in s.requests && Possible(s.mode, s.requests[r], e)
    case JoinAcceptTask => s.join.AwaitingAcceptTask? && (s.accept.Finished? || s.accept.Failed?)
    case JoinHandlers => s.join.AwaitingHandlers? && s.workers == 0
  }

  /** One handle to the shared state goes away; with the last one goes the state, and with it its worker. */
  function DropArc(s: State): State {
    s.(arcs := s.arcs - 1, workers := if s.arcs == 1 then s.workers - 1 else s.workers)
  }

  function CloneArc(s: State): State {
    s.(arcs := s.arcs + 1)
  }

  function AddWorkers(s: State, n: int): State {
    s.(workers := s.workers + n)
  }

  function WithRequest(s: State, r: RequestId, q: Request): State {
    s.(requests := s.requests[r := q])
  }

  /** What an event of a request that was `q` does to the counts. */
  function Recount(s: State, q: Request, e: Event): State {
    match e
    case Reject => DropArc(s)
    case RunInline => CloneArc(s)
    case InlineReturns => DropArc(DropArc(s))
    case InlinePanics => DropArc(DropArc(s))
    case Spawn => AddWorkers(CloneArc(s), 1)
    case HandlerReturns => DropArc(s)
    case HandlerPanics => AddWorkers(DropArc(s), -1)
    case SendResult => s
    case ReleaseWorker => AddWorkers(s, -1)
    case ReceiveResult => DropArc(s)
    case ReceiveFails => DropArc(s)
    case Disconnect => if q.answer.RunningInline? then DropArc(DropArc(s)) else DropArc(s)
  }

  function Take(s: State, step: Step): State
    requires Enabled(s, step)
  {
    match step
    case CloseSends => s.(handle := SignalSent, signal := InFlight, sends := s.sends + 1)
    case CloseFails => DropArc(s.(handle := Gone, signal := Rejected, sends := s.sends + 1))
    case CloseDropsState => DropArc(s.(handle := Gone))
    case DropState => DropArc(s.(handle := StateDropped))
    case DropCloser =>
      s.(handle := Gone, signal := if s.accept.Accepting? then InFlight else Rejected, sends := s.sends + 1)
    case Accept(c) => CloneArc(s.(connections := s.connections + {c}))
    case ReceiveSignal => s.(accept := Draining, signal := Received)
    case FinishDraining => DropArc(s.(accept := Finished))
    case FailAcceptTask => DropArc(s.(accept := Failed))
    case EndConnection(c) => DropArc(s.(connections := s.connections - {c}))
    case StartRequest(_, r) => CloneArc(WithRequest(s, r, Request(Routing, NotSpawned, NoChannel, [])))
    case Advance(r, e) => Recount(WithRequest(s, r, React(s.requests[r], e)), s.requests[r], e)
    case JoinAcceptTask => s.(join := if s.accept.Finished? then AwaitingHandlers else Resolved(false))
    case JoinHandlers => s.(join := Resolved(true))
  }

  /** The state that a run of steps leads to, or none if a step was not possible where it stands. */
  function Exec(s: State, steps: seq<Step>): Option<State> {
    if steps == [] then Some(s)
    else
      var last := |steps| - 1;
      match Exec(s, steps[..last])
      case None => None
      case Some(before) => if Enabled(before, steps[last]) then Some(Take(before, steps[last])) else None
  }

  // ---------------------------------------------------------- who holds what

  datatype Holder =
    | TheHandle
    | TheAcceptTask
    | TheConnection(c: ConnectionId)
    | TheAnswer(r: RequestId)
    | TheHandler(r: RequestId)

  predicate HandlerRuns(q: Request) {
    q.answer.RunningInline? || q.task.Running?
  }

  predicate WorkerHeld(q: Request) {
    q.task.Running? || q.task.Returned? || q.task.Settled?
  }

  predicate HandleHasState(s: State) {
    s.handle.Open? || s.handle.SignalSent?
  }

  predicate AcceptTaskAlive(s: State) {
    s.accept.Accepting? || s.accept.Draining?
  }

  /** Who has a handle to the shared state. */
  predicate Holds(s: State, h: Holder) {
    match h
    case TheHandle => HandleHasState(s)
    case TheAcceptTask => AcceptTaskAlive(s)
    case TheConnection(c) => c in s.connections
    case TheAnswer(r) => r in s.requests && !s.requests[r].answer.Ended?
    case TheHandler(r) => r in s.requests && HandlerRuns(s.requests[r])
  }

  function Holders(s: State): (holders: set<Holder>)
    ensures forall h :: h in holders <==> Holds(s, h)
  {
    (if HandleHasState(s) then {TheHandle} else {}) +
    (if AcceptTaskAlive(s) then {TheAcceptTask} else {}) +
    (set c | c in s.connections :: TheConnection(c)) +
    (set r | r in s.requests && !s.requests[r].answer.Ended? :: TheAnswer(r)) +
    (set r | r in s.requests && HandlerRuns(s.requests[r]) :: TheHandler(r))
  }

  function WorkerHolders(requests: map<RequestId, Request>): set<RequestId> {
    set r | r in requests && WorkerHeld(requests[r])
  }

  /**
    One handle per holder; one worker per detached handler, and one in the shared state as long as anyone holds that.
   */
  ghost predicate CountedAs(s: State, holders: set<Holder>, workers: set<RequestId>) {
    && s.arcs == |holders|
    && s.workers == |workers| + (if holders != {} then 1 else 0)
  }

  ghost predicate Counted(s: State) {
    CountedAs(s, Holders(s), WorkerHolders(s.requests))
  }

  lemma DropCounted(s: State, holders: set<Holder>, workers: set<RequestId>, h: Holder)
    requires CountedAs(s, holders, workers) && h in holders
    ensures CountedAs(DropArc(s), holders - {h}, workers)
  {
    assert holders == (holders - {h}) + {h};
  }

  lemma CloneCounted(s: State, holders: set<Holder>, workers: set<RequestId>, h: Holder)
    requires CountedAs(s, holders, workers) && h !in holders && holders != {}
    ensures CountedAs(CloneArc(s), holders + {h}, workers)
  {
  }

  /** Two states with the same holders but for `h`. */
  ghost predicate OneLess(s: State, s': State, h: Holder) {
    Holds(s, h) && forall g {:trigger Holds(s, g)} {:trigger Holds(s', g)} :: Holds(s', g) <==> Holds(s, g) && g != h
  }

  lemma OneLessHolder(s: State, s': State, h: Holder)
    requires OneLess(s, s', h) && Counted(s)
    requires s'.arcs == s.arcs - 1 && s'.workers == DropArc(s).workers
    requires WorkerHolders(s'.requests) == WorkerHolders(s.requests)
    ensures Counted(s')
  {
    hide Holds, HandleHasState, AcceptTaskAlive, WorkerHolders, Holders;
    DropCounted(s, Holders(s), WorkerHolders(s.requests), h);
    assert Holders(s') == Holders(s) - {h};
  }

  lemma OneMoreHolder(s: State, s': State, h: Holder, through: Holder)
    requires OneLess(s', s, h) && Holds(s, through) && Counted(s)
    requires s'.arcs == s.arcs + 1 && s'.workers == s.workers
    requires WorkerHolders(s'.requests) == WorkerHolders(s.requests)
    ensures Counted(s')
  {
    hide Holds, HandleHasState, AcceptTaskAlive, WorkerHolders, Holders;
    CloneCounted(s, Holders(s), WorkerHolders(s.requests), h);
    assert Holders(s') == Holders(s) + {h};
  }

  /** The holders stay; `n` workers come or go with the one handler of `r`. */
  lemma SameHolders(s: State, s': State, r: RequestId, n: int)
    requires forall g {:trigger Holds(s, g)} {:trigger Holds(s', g)} :: Holds(s', g) <==> Holds(s, g)
    requires Counted(s) && s'.arcs == s.arcs && s'.workers == s.workers + n
    requires var w, w' := WorkerHolders(s.requests), WorkerHolders(s'.requests);
      || (n == 0 && w' == w) || (n == -1 && r in w && w' == w - {r}) || (n == 1 && r !in w && w' == w + {r})
    ensures Counted(s')
  {
    hide Holds, HandleHasState, AcceptTaskAlive, WorkerHolders, Holders;
    assert Holders(s') == Holders(s);
    SizeOfDifference(WorkerHolders(s.requests), r);
  }

  lemma SizeOfDifference(w: set<RequestId>, r: RequestId)
    ensures r in w ==> |w - {r}| == |w| - 1
    ensures r !in w ==> |w + {r}| == |w| + 1
  {
  }

  // ------------------------------------------------------ what every step keeps

  function Completions(records: seq<Record>): nat {
    multiset(records)[RequestCompleted] + multiset(records)[RequestCancelled]
  }

  /** The records of a request tell how it has ended. */
  ghost predicate RecordsKept(q: Request) {
    && Completions(q.records) == (if q.answer.Ended? then 1 else 0)
    && (RequestCancelled in q.records <==> q.answer == Ended(Cancelled) || q.answer == Ended(Panicked))
    && multiset(q.records)[CompletedLate] ==
       (if q.channel == ReceiverDropped(false) && (q.task.Settled? || q.task.Exited?) then 1 else 0)
  }

  /** How far a request, its handler and the channel between them can be apart. */
  ghost predicate RequestKept(mode: TaskMode, q: Request) {
    && RecordsKept(q)
    && (q.channel.NoChannel? <==> q.task.NotSpawned?)
    && (q.answer.AwaitingResult? <==> q.channel.Empty? || q.channel.Full? || q.channel.SenderDropped?)
    && (q.channel.Empty? ==> q.task.Running? || q.task.Returned?)
    && (q.channel.Full? || q.channel.Delivered? || q.channel == ReceiverDropped(true) ==>
         q.task.Settled? || q.task.Exited?)
    && (q.channel.SenderDropped? ==> q.task.Crashed?)
    && (q.channel.ReceiverDropped? ==> q.answer == Ended(Cancelled) || (q.answer == Ended(Panicked) && q.task.Crashed?))
    && (q.answer.RunningInline? ==> mode.CancelOnDisconnect?)
    && (q.channel.Delivered? ==> q.answer == Ended(Completed))
    && (mode.CancelOnDisconnect? ==> q.task.NotSpawned?)
  }

  ghost predicate HandleKept(s: State) {
    && s.sends == (if s.handle.Open? || s.handle.StateDropped? then 0 else 1)
    && (s.sends == 0 <==> s.signal.Unsent?)
    && (s.accept.Accepting? ==> s.signal.Unsent? || s.signal.InFlight?)
    && (s.accept.Draining? || s.accept.Finished? ==> s.signal.Received?)
    && (s.signal.Rejected? ==> s.accept.Failed?)
    && (s.accept.Finished? ==> s.connections == {})
    && (s.join.AwaitingHandlers? || s.join == Resolved(true) ==> s.accept.Finished?)
    && (s.join == Resolved(false) ==> s.accept.Failed?)
    && (s.join == Resolved(true) ==> s.workers == 0)
  }

  ghost predicate Kept(s: State) {
    && HandleKept(s)
    && Counted(s)
    && forall r :: r in s.requests ==> RequestKept(s.mode, s.requests[r])
  }

  lemma StartedKept(mode: TaskMode)
    ensures Kept(Started(mode))
  {
    var s := Started(mode);
    assert Holders(s) == {TheHandle, TheAcceptTask};
    assert WorkerHolders(s.requests) == {};
  }

  lemma EventKeepsRecords(mode: TaskMode, q: Request, e: Event)
    requires RequestKept(mode, q) && Possible(mode, q, e)
    ensures RecordsKept(React(q, e))
  {
    var before, after := q.records, React(q, e).records;
    assert after == before + after[|before|..];
    assert multiset(after) == multiset(before) + multiset(after[|before|..]);
  }

  lemma EventKeepsRequest(mode: TaskMode, q: Request, e: Event)
    requires RequestKept(mode, q) && Possible(mode, q, e)
    ensures RequestKept(mode, React(q, e))
  {
    EventKeepsRecords(mode, q, e);
    hide RecordsKept;
  }

  // --------------------------------------------------------- keeping the counts

  lemma HandleStepKeepsCounts(s: State, step: Step)
    requires Counted(s) && Enabled(s, step) && (step.CloseFails? || step.CloseDropsState? || step.DropState?)
    ensures Counted(Take(s, step))
  {
    hide WorkerHolders, Counted, Holders;
    OneLessHolder(s, Take(s, step), TheHandle);
  }

  lemma AcceptTaskEndKeepsCounts(s: State, step: Step)
    requires Counted(s) && Enabled(s, step) && (step.FinishDraining? || step.FailAcceptTask?)
    ensures Counted(Take(s, step))
  {
    hide WorkerHolders, Counted, Holders;
    OneLessHolder(s, Take(s, step), TheAcceptTask);
  }

  lemma ConnectionStepKeepsCounts(s: State, step: Step)
    requires Counted(s) && Enabled(s, step) && (step.Accept? || step.EndConnection?)
    ensures Counted(Take(s, step))
  {
    hide WorkerHolders, Counted, Holders;
    if step.EndConnection? {
      OneLessHolder(s, Take(s, step), TheConnection(step.c));
    } else {
      OneMoreHolder(s, Take(s, step), TheConnection(step.c), TheAcceptTask);
    }
  }

  lemma QuietStepKeepsCounts(s: State, step: Step)
    requires Counted(s) && Enabled(s, step)
    requires step.CloseSends? || step.DropCloser? || step.ReceiveSignal? || step.JoinAcceptTask? || step.JoinHandlers?
    ensures Counted(Take(s, step))
  {
    hide WorkerHolders, Counted, Holders;
    SameHolders(s, Take(s, step), 0, 0);
  }

  /** `s'` differs from `s` in the request `r`, which is now `q`, and in the counts. */
  ghost predicate Updated(s: State, s': State, r: RequestId, q: Request) {
    && s'.requests == s.requests[r := q]
    && s'.handle == s.handle && s'.accept == s.accept && s'.connections == s.connections
  }

  lemma HoldsAfterUpdate(s: State, s': State, r: RequestId, q: Request)
    requires Updated(s, s', r, q)
    ensures forall g {:trigger Holds(s, g)} {:trigger Holds(s', g)} :: Holds(s', g) <==>
      if g == TheAnswer(r) then !q.answer.Ended? else if g == TheHandler(r) then HandlerRuns(q) else Holds(s, g)
    ensures Holds(s, TheAnswer(r)) <==> r in s.requests && !s.requests[r].answer.Ended?
    ensures Holds(s, TheHandler(r)) <==> r in s.requests && HandlerRuns(s.requests[r])
    ensures WorkerHolders(s'.requests) == WorkerHolders(s.requests) - {r} + (if WorkerHeld(q) then {r} else {})
    ensures r in WorkerHolders(s.requests) <==> r in s.requests && WorkerHeld(s.requests[r])
  {
  }

  lemma AnswerEnds(s: State, s': State, r: RequestId, q: Request)
    requires Counted(s) && Updated(s, s', r, q) && s'.arcs == s.arcs - 1 && s'.workers == DropArc(s).workers
    requires r in s.requests && !s.requests[r].answer.Ended? && q.answer.Ended?
    requires HandlerRuns(s.requests[r]) == HandlerRuns(q) && WorkerHeld(s.requests[r]) == WorkerHeld(q)
    ensures Counted(s')
  {
    hide Counted, Holds, Holders, WorkerHolders, HandlerRuns, WorkerHeld;
    HoldsAfterUpdate(s, s', r, q);
    OneLessHolder(s, s', TheAnswer(r));
  }

  lemma HandlerEnds(s: State, s': State, r: RequestId, q: Request)
    requires Counted(s) && Updated(s, s', r, q) && s'.arcs == s.arcs - 1 && s'.workers == DropArc(s).workers
    requires r in s.requests && HandlerRuns(s.requests[r]) && !HandlerRuns(q)
    requires s.requests[r].answer.Ended? == q.answer.Ended? && WorkerHeld(s.requests[r]) == WorkerHeld(q)
    ensures Counted(s')
  {
    hide Counted, Holds, Holders, WorkerHolders, HandlerRuns, WorkerHeld;
    HoldsAfterUpdate(s, s', r, q);
    OneLessHolder(s, s', TheHandler(r));
  }

  lemma HandlerBegins(s: State, s': State, r: RequestId, q: Request)
    requires Counted(s) && Updated(s, s', r, q) && s'.arcs == s.arcs + 1 && s'.workers == s.workers
    requires r in s.requests && !HandlerRuns(s.requests[r]) && HandlerRuns(q)
    requires !s.requests[r].answer.Ended? && !q.answer.Ended? && WorkerHeld(s.requests[r]) == WorkerHeld(q)
    ensures Counted(s')
  {
    hide Counted, Holds, Holders, WorkerHolders, HandlerRuns, WorkerHeld;
    HoldsAfterUpdate(s, s', r, q);
    OneMoreHolder(s, s', TheHandler(r), TheAnswer(r));
  }

  lemma WorkerMoves(s: State, s': State, r: RequestId, q: Request)
    requires Counted(s) && Updated(s, s', r, q) && s'.arcs == s.arcs
    requires r in s.requests && s.requests[r].answer.Ended? == q.answer.Ended?
    requires HandlerRuns(s.requests[r]) == HandlerRuns(q)
    requires s'.workers == s.workers + (if WorkerHeld(q) then 1 else 0) - (if WorkerHeld(s.requests[r]) then 1 else 0)
    ensures Counted(s')
  {
    hide Counted, Holds, Holders, WorkerHolders, HandlerRuns, WorkerHeld;
    HoldsAfterUpdate(s, s', r, q);
    SameHolders(s, s', r, s'.workers - s.workers);
  }

  lemma AnswerBegins(s: State, s': State, c: ConnectionId, r: RequestId, q: Request)
    requires Counted(s) && Updated(s, s', r, q) && s'.arcs == s.arcs + 1 && s'.workers == s.workers
    requires Holds(s, TheConnection(c))
    requires r !in s.requests && !q.answer.Ended? && !HandlerRuns(q) && !WorkerHeld(q)
    ensures Counted(s')
  {
    hide Counted, Holds, Holders, WorkerHolders, HandlerRuns, WorkerHeld;
    HoldsAfterUpdate(s, s', r, q);
    OneMoreHolder(s, s', TheAnswer(r), TheConnection(c));
  }

  lemma StartKeepsCounts(s: State, c: ConnectionId, r: RequestId)
    requires Counted(s) && Enabled(s, StartRequest(c, r))
    ensures Counted(Take(s, StartRequest(c, r)))
  {
    hide Counted, Holders, WorkerHolders;
    AnswerBegins(s, Take(s, StartRequest(c, r)), c, r, Request(Routing, NotSpawned, NoChannel, []));
  }

  lemma EventKeepsCounts(s: State, r: RequestId, e: Event)
    requires Counted(s) && Enabled(s, Advance(r, e)) && RequestKept(s.mode, s.requests[r])
    ensures Counted(Take(s, Advance(r, e)))
  {
    hide Counted, Holders, WorkerHolders, RecordsKept;
    var q, s' := s.requests[r], Take(s, Advance(r, e));
    var q' := React(q, e);
    if q.answer.RunningInline? && (e.InlineReturns? || e.InlinePanics? || e.Disconnect?) {
      var halfway := q.(answer := Routing);
      HandlerEnds(s, DropArc(WithRequest(s, r, halfway)), r, halfway);
      AnswerEnds(DropArc(WithRequest(s, r, halfway)), s', r, q');
    } else if e.Reject? || e.ReceiveResult? || e.ReceiveFails? || e.Disconnect? {
      AnswerEnds(s, s', r, q');
    } else if e.Spawn? {
      var halfway := q.(answer := RunningInline);
      HandlerBegins(s, CloneArc(WithRequest(s, r, halfway)), r, halfway);
      WorkerMoves(CloneArc(WithRequest(s, r, halfway)), s', r, q');
    } else if e.RunInline? {
      HandlerBegins(s, s', r, q');
    } else if e.HandlerReturns? {
      HandlerEnds(s, s', r, q');
    } else if e.HandlerPanics? {
      var halfway := q.(task := Returned);
      HandlerEnds(s, DropArc(WithRequest(s, r, halfway)), r, halfway);
      WorkerMoves(DropArc(WithRequest(s, r, halfway)), s', r, q');
    } else {
      WorkerMoves(s, s', r, q');
    }
  }

  lemma StepKeepsCounts(s: State, step: Step)
    requires Kept(s) && Enabled(s, step)
    ensures Counted(Take(s, step))
  {
    hide Counted, Take, RequestKept, HandleKept;
    match step
    case CloseSends => QuietStepKeepsCounts(s, step);
    case CloseFails => HandleStepKeepsCounts(s, step);
    case CloseDropsState => HandleStepKeepsCounts(s, step);
    case DropState => HandleStepKeepsCounts(s, step);
    case DropCloser => QuietStepKeepsCounts(s, step);
    case Accept(_) => ConnectionStepKeepsCounts(s, step);
    case ReceiveSignal => QuietStepKeepsCounts(s, step);
    case FinishDraining => AcceptTaskEndKeepsCounts(s, step);
    case FailAcceptTask => AcceptTaskEndKeepsCounts(s, step);
    case EndConnection(_) => ConnectionStepKeepsCounts(s, step);
    case StartRequest(c, r) => StartKeepsCounts(s, c, r);
    case Advance(r, e) => EventKeepsCounts(s, r, e);
    case JoinAcceptTask => QuietStepKeepsCounts(s, step);
    case JoinHandlers => QuietStepKeepsCounts(s, step);
  }

  // ------------------------------------------------------------ every reachable state

  /** Without workers nobody holds the shared state, and no detached handler is left. */
  lemma NoWorkersLeft(s: State)
    requires Counted(s) && s.workers == 0
    ensures forall h :: !Holds(s, h)
    ensures forall r :: r in s.requests ==> !WorkerHeld(s.requests[r])
  {
    hide Holds;
    assert Holders(s) == {};
    assert WorkerHolders(s.requests) == {};
    forall r | r in s.requests ensures !WorkerHeld(s.requests[r]) { assert r !in WorkerHolders(s.requests); }
  }

  /** When the join future has resolved well, everything is over: no further step is possible. */
  lemma ResolvedOkIsFinal(s: State, step: Step)
    requires Kept(s) && s.join == Resolved(true)
    ensures !Enabled(s, step)
  {
    hide Counted, RequestKept;
    NoWorkersLeft(s);
    assert !Holds(s, TheHandle) && !Holds(s, TheAcceptTask);
    if step.Advance? && step.r in s.requests {
      assert !Holds(s, TheAnswer(step.r));
      assert !WorkerHeld(s.requests[step.r]);
    }
  }

  lemma StepKeepsHandle(s: State, step: Step)
    requires Kept(s) && Enabled(s, step)
    ensures HandleKept(Take(s, step))
  {
    hide Counted, RequestKept;
    if s.join == Resolved(true) { ResolvedOkIsFinal(s, step); }
  }

  lemma StepKeeps(s: State, step: Step)
    requires Kept(s) && Enabled(s, step)
    ensures Kept(Take(s, step)) && Take(s, step).mode == s.mode
  {
    hide Counted, RequestKept, HandleKept;
    StepKeepsCounts(s, step);
    StepKeepsHandle(s, step);
    var s' := Take(s, step);
    forall r | r in s'.requests ensures RequestKept(s.mode, s'.requests[r]) {
      if step.Advance? && step.r == r { EventKeepsRequest(s.mode, s.requests[r], step.e); }
      if step.StartRequest? && step.r == r { FreshRequestKept(s.mode); }
    }
  }

  lemma FreshRequestKept(mode: TaskMode)
    ensures RequestKept(mode, Request(Routing, NotSpawned, NoChannel, []))
  {
  }

  lemma {:induction false} RunKeeps(s: State, steps: seq<Step>)
    requires Kept(s) && Exec(s, steps).Some?
    ensures Kept(Exec(s, steps).value) && Exec(s, steps).value.mode == s.mode
  {
    hide Kept, Enabled, Take;
    if steps != [] {
      var last := |steps| - 1;
      RunKeeps(s, steps[..last]);
      StepKeeps(Exec(s, steps[..last]).value, steps[last]);
    }
  }

  /** The state at the end of a run from a fresh start. */
  ghost predicate Reaches(mode: TaskMode, steps: seq<Step>, s: State) {
    Exec(Started(mode), steps) == Some(s)
  }

  lemma ReachableKept(mode: TaskMode, steps: seq<Step>, s: State)
    requires Reaches(mode, steps, s)
    ensures Kept(s) && s.mode == mode
  {
    hide Kept;
    StartedKept(mode);
    RunKeeps(Started(mode), steps);
  }

  /**
    If the join future has resolved well, the accept loop and every connection
    are finished, every request has been answered or dropped, no handler is
    running or about to report, and the user has let go of the server.
   */
  lemma ResolvedOkMeansOver(mode: TaskMode, steps: seq<Step>, s: State)
    requires Reaches(mode, steps, s) && s.join == Resolved(true)
    ensures s.accept.Finished? && s.connections == {} && s.handle.Gone?
    ensures forall r :: r in s.requests ==>
      s.requests[r].answer.Ended? && !HandlerRuns(s.requests[r]) && !WorkerHeld(s.requests[r])
    ensures forall step :: !Enabled(s, step)
  {
    hide Counted, RequestKept, Reaches, Enabled;
    ReachableKept(mode, steps, s);
    NoWorkersLeft(s);
    assert !Holds(s, TheHandle);
    forall r | r in s.requests ensures s.requests[r].answer.Ended? { assert !Holds(s, TheAnswer(r)); }
    forall step ensures !Enabled(s, step) { ResolvedOkIsFinal(s, step); }
  }

  /** The close signal is sent at most once, and only a failed accept loop lets it go astray. */
  lemma SignalSentOnce(mode: TaskMode, steps: seq<Step>, s: State)
    requires Reaches(mode, steps, s)
    ensures s.sends <= 1
    ensures s.signal.Rejected? ==> s.accept.Failed?
    ensures Enabled(s, CloseFails) ==> s.accept.Failed?
  {
    hide Counted, RequestKept, Reaches;
    ReachableKept(mode, steps, s);
  }

  // ---------------------------------------------------------- shutting down ends

  /** Anything that may happen once no new connection and no new request comes. */
  predicate WindsDown(step: Step) {
    !step.Accept? && !step.StartRequest?
  }

  /** Steps that are up to the server alone: not to clients, handlers, or its user. */
  predicate OwnStep(step: Step) {
    || step.ReceiveSignal? || step.FinishDraining? || step.JoinAcceptTask? || step.JoinHandlers?
    || (step.Advance? && (step.e.SendResult? || step.e.ReleaseWorker?))
  }

  datatype Todo =
    | OfHandle(n: nat)
    | OfAcceptTask(n: nat)
    | OfJoin(n: nat)
    | OfConnection(c: ConnectionId)
    | OfRequest(r: RequestId, n: nat)

  /** What a request still has to go through: its route and answer, and its handler's return, result and worker. */
  function RequestTodo(q: Request): set<nat> {
    (if q.answer.Routing? then {0, 1} else if q.answer.Ended? then {} else {0}) +
    (match q.task
     case NotSpawned => if q.answer.Routing? then {2, 3, 4} else {}
     case Running => {2, 3, 4}
     case Returned => {3, 4}
     case Settled => {4}
     case Exited => {}
     case Crashed => {})
  }

  predicate StillTodo(s: State, t: Todo) {
    match t
    case OfHandle(n) => !s.handle.Gone? && (n == 0 || (n == 1 && s.handle.Open?))
    case OfAcceptTask(n) => AcceptTaskAlive(s) && (n == 0 || (n == 1 && s.accept.Accepting?))
    case OfJoin(n) => !s.join.Resolved? && (n == 0 || (n == 1 && s.join.AwaitingAcceptTask?))
    case OfConnection(c) => c in s.connections
    case OfRequest(r, n) => r in s.requests && n in RequestTodo(s.requests[r])
  }

  function Todos(s: State): (todos: set<Todo>)
    ensures forall t :: t in todos <==> StillTodo(s, t)
  {
    (set n | 0 <= n < 2 && StillTodo(s, OfHandle(n)) :: OfHandle(n)) +
    (set n | 0 <= n < 2 && StillTodo(s, OfAcceptTask(n)) :: OfAcceptTask(n)) +
    (set n | 0 <= n < 2 && StillTodo(s, OfJoin(n)) :: OfJoin(n)) +
    (set c | c in s.connections :: OfConnection(c)) +
    (set r, n | r in s.requests && n in RequestTodo(s.requests[r]) :: OfRequest(r, n))
  }

  lemma EventLeavesLess(mode: TaskMode, q: Request, e: Event)
    requires RequestKept(mode, q) && Possible(mode, q, e)
    ensures RequestTodo(React(q, e)) < RequestTodo(q)
  {
    hide RecordsKept;
  }

  /** Every step but a new connection or request leaves strictly less to do. */
  lemma StepLeavesLess(s: State, step: Step)
    requires Kept(s) && Enabled(s, step) && WindsDown(step)
    ensures |Todos(Take(s, step))| < |Todos(s)|
  {
    hide Todos, Counted, RequestKept, HandleKept, React, Possible, RequestTodo;
    var s' := Take(s, step);
    var gone: Todo;
    match step {
      case CloseSends => gone := OfHandle(1);
      case CloseFails => gone := OfHandle(0);
      case CloseDropsState => gone := OfHandle(0);
      case DropState => gone := OfHandle(1);
      case DropCloser => gone := OfHandle(0);
      case ReceiveSignal => gone := OfAcceptTask(1);
      case FinishDraining => gone := OfAcceptTask(0);
      case FailAcceptTask => gone := OfAcceptTask(0);
      case EndConnection(c) => gone := OfConnection(c);
      case Advance(r, e) =>
        EventLeavesLess(s.mode, s.requests[r], e);
        var n :| n in RequestTodo(s.requests[r]) && n !in RequestTodo(React(s.requests[r], e));
        gone := OfRequest(r, n);
      case JoinAcceptTask => gone := OfJoin(1);
      case JoinHandlers => gone := OfJoin(0);
    }
    forall t | StillTodo(s', t) ensures StillTodo(s, t) {}
    assert StillTodo(s, gone) && !StillTodo(s', gone);
    SmallerSubset(Todos(s'), Todos(s), gone);
  }

  lemma SmallerSubset(some: set<Todo>, all: set<Todo>, missing: Todo)
    requires some <= all && missing in all && missing !in some
    ensures |some| < |all|
  {
    var rest := all - {missing} - some;
    assert all == some + {missing} + rest;
  }

  ghost predicate AllWindDown(steps: seq<Step>) {
    forall i :: 0 <= i < |steps| ==> WindsDown(steps[i])
  }

  /** Without new connections and requests, only so many steps are left. */
  lemma {:induction false} WindingDownIsBounded(s: State, steps: seq<Step>)
    requires Kept(s) && Exec(s, steps).Some? && AllWindDown(steps)
    ensures |steps| + |Todos(Exec(s, steps).value)| <= |Todos(s)|
  {
    hide Kept, Enabled, Take, Todos, WindsDown;
    if steps != [] {
      var last := |steps| - 1;
      WindingDownIsBounded(s, steps[..last]);
      RunKeeps(s, steps[..last]);
      StepLeavesLess(Exec(s, steps[..last]).value, steps[last]);
    }
  }

  /** All connections and handlers have ended. */
  ghost predicate Quiet(s: State) {
    && s.connections == {}
    && forall r :: r in s.requests ==> s.requests[r].answer.Ended? && !s.requests[r].task.Running?
  }

  /** The user has closed or dropped the server, and the state with it. */
  predicate LetGo(s: State) {
    s.handle.Gone?
  }

  lemma SomeoneHolds(s: State) returns (byTask: bool, r: RequestId, h: Holder)
    requires Counted(s) && s.workers != 0
    ensures byTask ==> r in s.requests && WorkerHeld(s.requests[r])
    ensures !byTask ==> Holds(s, h)
  {
    hide Holds;
    if w :| w in WorkerHolders(s.requests) {
      byTask, r, h := true, w, TheHandle;
    } else {
      assert WorkerHolders(s.requests) == {};
      byTask, r := false, 0;
      h :| h in Holders(s);
    }
  }

  /**
    The server never waits on itself: until the join future has resolved there is
    a step to take, and once connections and handlers have ended it is the server's own.
   */
  lemma NeverStuck(s: State) returns (step: Step)
    requires Kept(s) && LetGo(s) && !s.join.Resolved?
    ensures Enabled(s, step) && WindsDown(step) && !step.FailAcceptTask?
    ensures Quiet(s) ==> OwnStep(step)
  {
    hide Counted, RequestKept;
    if s.accept.Accepting? {
      step := ReceiveSignal;
    } else if s.accept.Draining? {
      if c :| c in s.connections { step := EndConnection(c); } else { step := FinishDraining; }
    } else if s.join.AwaitingAcceptTask? {
      step := JoinAcceptTask;
    } else if s.workers == 0 {
      step := JoinHandlers;
    } else {
      var byTask, r, h := SomeoneHolds(s);
      if byTask {
        var task := s.requests[r].task;
        var e := if task.Running? then HandlerReturns else if task.Returned? then SendResult else ReleaseWorker;
        step := Advance(r, e);
      } else {
        InlineIsNotSpawned(s);
        step := LastHolderLeaves(s, h);
      }
    }
  }

  lemma InlineIsNotSpawned(s: State)
    requires Kept(s)
    ensures forall r :: r in s.requests && s.requests[r].answer.RunningInline? ==> s.requests[r].task.NotSpawned?
  {
    hide Counted, HandleKept, RecordsKept;
    forall r | r in s.requests && s.requests[r].answer.RunningInline? ensures s.requests[r].task.NotSpawned? {
      assert RequestKept(s.mode, s.requests[r]);
    }
  }

  /** A holder that is still there after the accept loop has finished is a request's, and that can end. */
  lemma LastHolderLeaves(s: State, h: Holder) returns (step: Step)
    requires LetGo(s) && s.accept.Finished? && s.connections == {} && Holds(s, h)
    requires forall r :: r in s.requests && s.requests[r].answer.RunningInline? ==> s.requests[r].task.NotSpawned?
    ensures Enabled(s, step) && step.Advance? && !Quiet(s)
  {
    assert h.TheAnswer? || h.TheHandler?;
    var r := h.r;
    step := Advance(r, if s.requests[r].answer.Ended? then HandlerReturns else Disconnect);
  }

  /** What remains quiet stays quiet under the server's own steps. */
  lemma OwnStepsKeepQuiet(s: State, step: Step)
    requires Quiet(s) && Enabled(s, step) && OwnStep(step)
    ensures Quiet(Take(s, step))
  {
  }

  /**
    Whenever the server has been let go, it can run on until its join future is
    resolved -- well, unless the accept loop has failed -- in a bounded number of
    steps; and after connections and handlers have ended, these are its own.
   */
  lemma {:induction false} ShutdownCompletes(s: State) returns (steps: seq<Step>)
    requires Kept(s) && LetGo(s)
    ensures Exec(s, steps).Some? && AllWindDown(steps) && |steps| <= |Todos(s)|
    ensures Exec(s, steps).value.join == Resolved(!s.accept.Failed?)
    ensures Quiet(s) ==> forall i :: 0 <= i < |steps| ==> OwnStep(steps[i])
    decreases |Todos(s)|
  {
    hide Kept, Todos, Quiet;
    steps := [];
    if s.join.Resolved? {
      ResolvedHow(s);
    } else {
      var step := NeverStuck(s);
      var next := Take(s, step);
      StepKeeps(s, step);
      StepLeavesLess(s, step);
      if Quiet(s) { OwnStepsKeepQuiet(s, step); }
      var more := ShutdownCompletes(next);
      steps := [step] + more;
      ExecThen(s, step, more);
    }
  }

  lemma ResolvedHow(s: State)
    requires Kept(s) && s.join.Resolved?
    ensures s.join == Resolved(!s.accept.Failed?)
  {
    hide Counted, RequestKept;
  }

  lemma {:induction false} ExecThen(s: State, step: Step, more: seq<Step>)
    requires Enabled(s, step)
    ensures Exec(s, [step] + more) == Exec(Take(s, step), more)
  {
    hide Enabled, Take;
    if more == [] {
      assert Exec(s, [step][..0]) == Some(s);
      assert [step] + more == [step];
    } else {
      var last := |more| - 1;
      ExecThen(s, step, more[..last]);
      assert ([step] + more)[..last + 1] == [step] + more[..last];
    }
  }

  /** While `close` still holds the application state, dropping that is the only way on. */
  lemma StateMustBeDropped(s: State, step: Step)
    requires Kept(s) && s.handle.SignalSent? && Quiet(s) && s.join.AwaitingHandlers?
    requires forall r :: r in s.requests ==> !WorkerHeld(s.requests[r])
    ensures Enabled(s, step) <==> step == CloseDropsState
  {
    hide RequestKept;
    assert Holds(s, TheHandle);
    assert s.workers >= 1;
  }

  // ------------------------------------------------------- what becomes of requests

  /** Every request leaves one record of its end, as completed or cancelled, and not before it has ended. */
  lemma OneRecordPerRequest(mode: TaskMode, steps: seq<Step>, s: State, r: RequestId)
    requires Reaches(mode, steps, s) && r in s.requests
    ensures Completions(s.requests[r].records) == if s.requests[r].answer.Ended? then 1 else 0
  {
    hide Counted, HandleKept, Reaches, Completions;
    ReachableKept(mode, steps, s);
    assert RequestKept(mode, s.requests[r]);
  }

  ghost predicate Ordered(steps: seq<Step>, a: Step, b: Step) {
    exists i, j :: 0 <= i < j < |steps| && steps[i] == a && steps[j] == b
  }

  lemma OrderedAfter(steps: seq<Step>, last: Step, a: Step, b: Step)
    ensures Ordered(steps + [last], a, b) <==> Ordered(steps, a, b) || (last == b && a in steps)
  {
    var longer := steps + [last];
    if Ordered(longer, a, b) {
      var i, j :| 0 <= i < j < |longer| && longer[i] == a && longer[j] == b;
      assert steps[i] == a;
      if j < |steps| { assert steps[j] == b; }
    }
    if Ordered(steps, a, b) {
      var i, j :| 0 <= i < j < |steps| && steps[i] == a && steps[j] == b;
      assert longer[i] == a && longer[j] == b;
    }
    if last == b && a in steps {
      var i :| 0 <= i < |steps| && steps[i] == a;
      assert longer[i] == a && longer[|steps|] == b;
    }
  }

  /** What the past steps of a request have made of its result. */
  ghost predicate Fate(steps: seq<Step>, q: Request, r: RequestId) {
    && (Advance(r, SendResult) in steps <==> q.task.Settled? || q.task.Exited?)
    && (Advance(r, HandlerPanics) in steps <==> q.task.Crashed?)
    && (Advance(r, Disconnect) in steps <==> q.answer == Ended(Cancelled))
    && (Advance(r, InlinePanics) in steps || Advance(r, ReceiveFails) in steps <==> q.answer == Ended(Panicked))
    && (Advance(r, ReceiveResult) in steps <==> q.channel.Delivered?)
    && (Ordered(steps, Advance(r, SendResult), Advance(r, Disconnect)) <==> q.channel == ReceiverDropped(true))
    && (Ordered(steps, Advance(r, Disconnect), Advance(r, SendResult)) <==> CompletedLate in q.records)
  }

  lemma EventKeepsFate(mode: TaskMode, steps: seq<Step>, q: Request, r: RequestId, e: Event)
    requires RequestKept(mode, q) && Possible(mode, q, e) && Fate(steps, q, r)
    ensures Fate(steps + [Advance(r, e)], React(q, e), r)
  {
    hide Ordered;
    OrderedAfter(steps, Advance(r, e), Advance(r, SendResult), Advance(r, Disconnect));
    OrderedAfter(steps, Advance(r, e), Advance(r, Disconnect), Advance(r, SendResult));
  }

  lemma OtherStepKeepsFate(steps: seq<Step>, q: Request, r: RequestId, step: Step)
    requires Fate(steps, q, r) && !(step.Advance? && step.r == r)
    ensures Fate(steps + [step], q, r)
  {
    hide Ordered;
    OrderedAfter(steps, step, Advance(r, SendResult), Advance(r, Disconnect));
    OrderedAfter(steps, step, Advance(r, Disconnect), Advance(r, SendResult));
  }

  ghost predicate NoEvents(steps: seq<Step>, r: RequestId) {
    forall e {:trigger Advance(r, e)} :: Advance(r, e) !in steps
  }

  lemma FreshFate(steps: seq<Step>, r: RequestId, c: ConnectionId)
    requires NoEvents(steps, r)
    ensures Fate(steps + [StartRequest(c, r)], Request(Routing, NotSpawned, NoChannel, []), r)
  {
    hide Ordered;
    assert Advance(r, SendResult) !in steps && Advance(r, Disconnect) !in steps;
    assert Advance(r, HandlerPanics) !in steps && Advance(r, ReceiveResult) !in steps;
    assert Advance(r, InlinePanics) !in steps && Advance(r, ReceiveFails) !in steps;
    NeverOrdered(steps + [StartRequest(c, r)], Advance(r, SendResult), Advance(r, Disconnect));
    NeverOrdered(steps + [StartRequest(c, r)], Advance(r, Disconnect), Advance(r, SendResult));
  }

  lemma NeverOrdered(steps: seq<Step>, a: Step, b: Step)
    requires a !in steps
    ensures !Ordered(steps, a, b)
  {
  }

  lemma {:induction false} RequestFate(mode: TaskMode, steps: seq<Step>, s: State, r: RequestId)
    requires Reaches(mode, steps, s)
    ensures r in s.requests ==> Fate(steps, s.requests[r], r)
    ensures r !in s.requests ==> NoEvents(steps, r)
  {
    hide Kept, Fate, RequestKept, React, Possible, Recount;
    if steps != [] {
      var last := |steps| - 1;
      var init, step := steps[..last], steps[last];
      var before := Exec(Started(mode), init).value;
      RequestFate(mode, init, before, r);
      assert steps == init + [step];
      FateAfterStep(mode, init, before, step, r);
    }
  }

  lemma FateAfterStep(mode: TaskMode, init: seq<Step>, before: State, step: Step, r: RequestId)
    requires Reaches(mode, init, before) && Enabled(before, step)
    requires r in before.requests ==> Fate(init, before.requests[r], r)
    requires r !in before.requests ==> NoEvents(init, r)
    ensures var s := Take(before, step);
      && (r in s.requests ==> Fate(init + [step], s.requests[r], r))
      && (r !in s.requests ==> NoEvents(init + [step], r))
  {
    hide Counted, HandleKept, Fate, RequestKept, React, Possible, Reaches;
    ReachableKept(mode, init, before);
    if r in before.requests {
      if step.Advance? && step.r == r {
        EventKeepsFate(mode, init, before.requests[r], r, step.e);
      } else {
        OtherStepKeepsFate(init, before.requests[r], r, step);
      }
    } else if step.StartRequest? && step.r == r {
      FreshFate(init, r, step.c);
    }
  }

  /**
    A detached handler that has sent its result: the result is still in the
    channel, or delivered, or recorded as late, or lost, and only one of these.
    It is late if and only if the client disconnected before the result was
    sent, and lost -- neither delivered nor recorded -- if and only if the
    client disconnected after that and before the result was received.
   */
  lemma ResultOutcome(mode: TaskMode, steps: seq<Step>, s: State, r: RequestId)
    requires Reaches(mode, steps, s) && r in s.requests && Advance(r, SendResult) in steps
    ensures var q := s.requests[r];
      var delivered, late := Advance(r, ReceiveResult) in steps, CompletedLate in q.records;
      var lost := q.channel == ReceiverDropped(true);
      && (late <==> Ordered(steps, Advance(r, Disconnect), Advance(r, SendResult)))
      && (lost <==> Ordered(steps, Advance(r, SendResult), Advance(r, Disconnect)))
      && (delivered ==> !late && !lost) && (late ==> !lost)
      && (!delivered && !late && !lost <==> q.channel.Full? && !q.answer.Ended?)
      && multiset(q.records)[CompletedLate] <= 1
  {
    hide Counted, HandleKept, Reaches, Ordered;
    RequestFate(mode, steps, s, r);
    ReachableKept(mode, steps, s);
    assert RequestKept(mode, s.requests[r]);
    assert CompletedLate in s.requests[r].records <==> CompletedLate in multiset(s.requests[r].records);
  }

  /**
    The record of a request speaks of a client that disconnected exactly when the
    client did, or the handler panicked -- in place, or as the task whose result was
    awaited.  It tells the truth if and only if no such panic ended the request.
   */
  lemma CancelledIff(mode: TaskMode, steps: seq<Step>, s: State, r: RequestId)
    requires Reaches(mode, steps, s) && r in s.requests
    ensures RequestCancelled in s.requests[r].records <==>
      Advance(r, Disconnect) in steps || Advance(r, InlinePanics) in steps || Advance(r, ReceiveFails) in steps
    ensures (RequestCancelled in s.requests[r].records ==> Advance(r, Disconnect) in steps) <==>
      Advance(r, InlinePanics) !in steps && Advance(r, ReceiveFails) !in steps
  {
    hide Counted, HandleKept, Reaches, Ordered;
    RequestFate(mode, steps, s, r);
    ReachableKept(mode, steps, s);
    assert RequestKept(mode, s.requests[r]);
  }

  /** A run without any disconnecting client that leaves the record of one. */
  lemma PanicIsRecordedAsCancelled() returns (steps: seq<Step>, s: State)
    ensures Reaches(CancelOnDisconnect, steps, s) && 0 in s.requests
    ensures s.requests[0].records == [RequestCancelled] && s.requests[0].answer == Ended(Panicked)
    ensures forall r :: Advance(r, Disconnect) !in steps
  {
    steps, s := [], Started(CancelOnDisconnect);
    steps, s := RunStep(CancelOnDisconnect, steps, s, Accept(0));
    steps, s := RunStep(CancelOnDisconnect, steps, s, StartRequest(0, 0));
    steps, s := RunEvent(CancelOnDisconnect, steps, s, 0, RunInline);
    steps, s := RunEvent(CancelOnDisconnect, steps, s, 0, InlinePanics);
  }

  /** The future that awaits a result sees its channel fail only after the handler has panicked. */
  lemma ReceiveFailsOnlyAfterPanic(mode: TaskMode, steps: seq<Step>, s: State, r: RequestId)
    requires Reaches(mode, steps, s) && Enabled(s, Advance(r, ReceiveFails))
    ensures Advance(r, HandlerPanics) in steps && Advance(r, SendResult) !in steps && s.requests[r].task.Crashed?
  {
    hide Counted, HandleKept, Reaches, Ordered;
    RequestFate(mode, steps, s, r);
    ReachableKept(mode, steps, s);
    assert RequestKept(mode, s.requests[r]);
  }

  /** A run in which a handler's result is neither delivered nor recorded. */
  lemma ResultMayBeLost() returns (steps: seq<Step>, s: State)
    ensures Reaches(Detached, steps, s) && 0 in s.requests
    ensures Advance(0, SendResult) in steps
    ensures s.requests[0].records == [RequestCancelled] && s.requests[0].answer.Ended? && s.requests[0].task.Exited?
  {
    steps, s := [], Started(Detached);
    steps, s := RunStep(Detached, steps, s, Accept(0));
    steps, s := RunStep(Detached, steps, s, StartRequest(0, 0));
    steps, s := RunEvent(Detached, steps, s, 0, Spawn);
    steps, s := RunEvent(Detached, steps, s, 0, HandlerReturns);
    steps, s := RunEvent(Detached, steps, s, 0, SendResult);
    steps, s := RunEvent(Detached, steps, s, 0, Disconnect);
    steps, s := RunEvent(Detached, steps, s, 0, ReleaseWorker);
  }

  lemma RunStep(mode: TaskMode, steps: seq<Step>, s: State, step: Step) returns (longer: seq<Step>, next: State)
    requires Reaches(mode, steps, s) && Enabled(s, step)
    ensures longer == steps + [step] && next == Take(s, step) && Reaches(mode, longer, next)
  {
    hide Enabled, Take;
    longer, next := steps + [step], Take(s, step);
    assert longer[..|steps|] == steps;
  }

  lemma RunEvent(mode: TaskMode, steps: seq<Step>, s: State, r: RequestId, e: Event)
    returns (longer: seq<Step>, next: State)
    requires Reaches(mode, steps, s) && r in s.requests && s.mode == mode && Possible(mode, s.requests[r], e)
    ensures longer == steps + [Advance(r, e)] && Reaches(mode, longer, next) && next.mode == mode
    ensures next.requests == s.requests[r := React(s.requests[r], e)]
  {
    hide React, Possible;
    longer, next := RunStep(mode, steps, s, Advance(r, e));
  }
}
