/**
  The runs of a server told by what has happened alone: which step may follow a
  history, without any state.  The protocol of steps has just these runs.
 */
module ServerHistory {
  import opened Wrappers
  import opened Server

  // ------------------------------------------------------ what a history tells

  /** `a` has happened, and `b` has not happened since. */
  ghost predicate Since<T>(h: seq<T>, a: T, b: T) {
    exists i: nat :: HappenedLast(h, a, b, i)
  }

  predicate HappenedLast<T(==)>(h: seq<T>, a: T, b: T, i: nat) {
    i < |h| && h[i] == a && forall j :: i < j < |h| ==> h[j] != b
  }

  /** The server value is still its user's, and nothing of it has been let go. */
  predicate StillHeld(h: seq<Step>) {
    CloseSends !in h && CloseFails !in h && DropState !in h
  }

  predicate StillAccepting(h: seq<Step>) {
    ReceiveSignal !in h && FailAcceptTask !in h
  }

  predicate StillDraining(h: seq<Step>) {
    ReceiveSignal in h && FinishDraining !in h && FailAcceptTask !in h
  }

  ghost predicate Connected(h: seq<Step>, c: ConnectionId) {
    Since(h, Accept(c), EndConnection(c))
  }

  ghost predicate Begun(h: seq<Step>, r: RequestId) {
    exists c {:trigger StartRequest(c, r)} :: StartRequest(c, r) in h
  }

  predicate Did(h: seq<Step>, r: RequestId, e: Event) {
    Advance(r, e) in h
  }

  ghost predicate StillRouting(h: seq<Step>, r: RequestId) {
    Begun(h, r) && !Did(h, r, Reject) && !Did(h, r, RunInline) && !Did(h, r, Spawn) && !Did(h, r, Disconnect)
  }

  predicate StillInline(h: seq<Step>, r: RequestId) {
    Did(h, r, RunInline) && !Did(h, r, InlineReturns) && !Did(h, r, InlinePanics) && !Did(h, r, Disconnect)
  }

  predicate StillAwaiting(h: seq<Step>, r: RequestId) {
    Did(h, r, Spawn) && !Did(h, r, ReceiveResult) && !Did(h, r, ReceiveFails) && !Did(h, r, Disconnect)
  }

  predicate StillRunning(h: seq<Step>, r: RequestId) {
    Did(h, r, Spawn) && !Did(h, r, HandlerReturns) && !Did(h, r, HandlerPanics)
  }

  /** A detached handler that has neither panicked nor given back its worker. */
  predicate StillWorking(h: seq<Step>, r: RequestId) {
    Did(h, r, Spawn) && !Did(h, r, HandlerPanics) && !Did(h, r, ReleaseWorker)
  }

  /** Everything is over: the server let go, the accept task at its end, no connection, no request, no handler. */
  ghost predicate AllOver(h: seq<Step>) {
    && (CloseFails in h || CloseDropsState in h || DropState in h)
    && (FinishDraining in h || FailAcceptTask in h)
    && (forall c :: !Connected(h, c))
    && (forall r {:trigger StillRouting(h, r)} :: !StillRouting(h, r))
    && (forall r {:trigger StillInline(h, r)} :: !StillInline(h, r))
    && (forall r {:trigger StillAwaiting(h, r)} :: !StillAwaiting(h, r))
    && (forall r {:trigger StillWorking(h, r)} :: !StillWorking(h, r))
  }

  ghost predicate EventMayFollow(mode: TaskMode, h: seq<Step>, r: RequestId, e: Event) {
    match e
    case Reject => StillRouting(h, r)
    case RunInline => StillRouting(h, r) && mode.CancelOnDisconnect?
    case Spawn => StillRouting(h, r) && mode.Detached?
    case InlineReturns => StillInline(h, r)
    case InlinePanics => StillInline(h, r)
    case HandlerReturns => StillRunning(h, r)
    case HandlerPanics => StillRunning(h, r)
    case SendResult => Did(h, r, HandlerReturns) && !Did(h, r, SendResult)
    case ReleaseWorker => Did(h, r, SendResult) && !Did(h, r, ReleaseWorker)
    case ReceiveResult => StillAwaiting(h, r) && Did(h, r, SendResult)
    case ReceiveFails => StillAwaiting(h, r) && Did(h, r, HandlerPanics)
    case Disconnect => StillRouting(h, r) || StillInline(h, r) || StillAwaiting(h, r)
  }

  /** What may follow a history. */
  ghost predicate MayFollow(mode: TaskMode, h: seq<Step>, step: Step) {
    match step
    case CloseSends => StillHeld(h) && StillAccepting(h)
    case CloseFails => StillHeld(h) && !StillAccepting(h)
    case CloseDropsState => CloseSends in h && CloseDropsState !in h
    case DropState => StillHeld(h)
    case DropCloser => DropState in h && DropCloser !in h
    case Accept(c) => StillAccepting(h) && !Connected(h, c)
    case ReceiveSignal => StillAccepting(h) && (CloseSends in h || DropCloser in h)
    case FinishDraining => StillDraining(h) && forall c :: !Connected(h, c)
    case FailAcceptTask => StillAccepting(h) || StillDraining(h)
    case EndConnection(c) => Connected(h, c)
    case StartRequest(c, r) => Connected(h, c) && !Begun(h, r)
    case Advance(r, e) => EventMayFollow(mode, h, r, e)
    case JoinAcceptTask => JoinAcceptTask !in h && (FinishDraining in h || FailAcceptTask in h)
    case JoinHandlers => JoinAcceptTask in h && FinishDraining in h && JoinHandlers !in h && AllOver(h)
  }

  // ---------------------------------------------------- the state and its history

  ghost predicate HandleTold(h: seq<Step>, s: State) {
    && (s.handle.Open? <==> StillHeld(h))
    && (s.handle.SignalSent? <==> CloseSends in h && CloseDropsState !in h)
    && (s.handle.StateDropped? <==> DropState in h && DropCloser !in h)
    && (CloseDropsState in h ==> CloseSends in h) && (DropCloser in h ==> DropState in h)
    && (CloseFails in h || CloseDropsState in h || DropCloser in h ==> s.handle.Gone?)
    && (s.handle.Gone? ==> CloseFails in h || CloseDropsState in h || DropCloser in h)
  }

  ghost predicate AcceptTold(h: seq<Step>, s: State) {
    && (s.accept.Accepting? <==> StillAccepting(h))
    && (s.accept.Draining? <==> StillDraining(h))
    && (s.accept.Finished? <==> FinishDraining in h)
    && (s.accept.Failed? <==> FailAcceptTask in h)
    && (FinishDraining in h ==> ReceiveSignal in h)
    && (s.accept.Accepting? ==> (s.signal.InFlight? <==> CloseSends in h || DropCloser in h))
    && (s.join.AwaitingAcceptTask? <==> JoinAcceptTask !in h)
    && (s.join.AwaitingHandlers? <==> JoinAcceptTask in h && FinishDraining in h && JoinHandlers !in h)
    && (JoinHandlers in h ==> JoinAcceptTask in h)
    && (JoinAcceptTask in h ==> FinishDraining in h || FailAcceptTask in h)
  }

  ghost predicate ConnectionsTold(h: seq<Step>, s: State) {
    forall c :: c in s.connections <==> Connected(h, c)
  }

  ghost predicate RequestTold(h: seq<Step>, r: RequestId, q: Request) {
    && Begun(h, r)
    && (q.answer.Routing? <==> StillRouting(h, r))
    && (q.answer.RunningInline? <==> StillInline(h, r))
    && (q.answer.AwaitingResult? <==> StillAwaiting(h, r))
    && (q.task.NotSpawned? <==> !Did(h, r, Spawn))
    && (q.task.Running? <==> StillRunning(h, r))
    && (q.task.Returned? <==> Did(h, r, HandlerReturns) && !Did(h, r, SendResult))
    && (q.task.Settled? <==> Did(h, r, SendResult) && !Did(h, r, ReleaseWorker))
    && (q.task.Crashed? <==> Did(h, r, HandlerPanics))
    && (q.answer.AwaitingResult? ==> (q.channel.Full? <==> Did(h, r, SendResult)))
    && (q.answer.AwaitingResult? ==> (q.channel.SenderDropped? <==> Did(h, r, HandlerPanics)))
    && RecordsTold(h, r, q.records)
    && OrderTold(h, r)
  }

  ghost predicate RecordsTold(h: seq<Step>, r: RequestId, records: seq<Record>) {
    && (RequestCompleted in records <==> Did(h, r, Reject) || Did(h, r, InlineReturns) || Did(h, r, ReceiveResult))
    && (HandlerPanicked in records <==> Did(h, r, ReceiveFails))
  }

  /** What has happened to a request only after something else. */
  predicate OrderTold(h: seq<Step>, r: RequestId) {
    && (Did(h, r, InlineReturns) || Did(h, r, InlinePanics) ==> Did(h, r, RunInline))
    && (Did(h, r, HandlerReturns) || Did(h, r, HandlerPanics) ==> Did(h, r, Spawn))
    && (Did(h, r, ReceiveResult) || Did(h, r, ReceiveFails) ==> Did(h, r, Spawn))
    && (Did(h, r, SendResult) ==> Did(h, r, HandlerReturns))
    && (Did(h, r, ReleaseWorker) ==> Did(h, r, SendResult))
    && !(Did(h, r, HandlerReturns) && Did(h, r, HandlerPanics))
  }

  ghost predicate RequestsTold(h: seq<Step>, s: State) {
    && (forall r :: r in s.requests ==> RequestTold(h, r, s.requests[r]))
    && (forall r {:trigger Begun(h, r)} :: Begun(h, r) ==> r in s.requests)
    && (forall r, e {:trigger Did(h, r, e)} :: Did(h, r, e) ==> r in s.requests)
  }

  ghost predicate Told(h: seq<Step>, s: State) {
    HandleTold(h, s) && AcceptTold(h, s) && ConnectionsTold(h, s) && RequestsTold(h, s)
  }

  lemma NothingTold(mode: TaskMode)
    ensures Told([], Started(mode))
  {
  }

  // ------------------------------------------------- the same steps are possible

  lemma EventPossibleIff(h: seq<Step>, s: State, r: RequestId, e: Event)
    requires Kept(s) && RequestsTold(h, s)
    ensures Enabled(s, Advance(r, e)) <==> EventMayFollow(s.mode, h, r, e)
  {
    hide Counted, HandleKept, RecordsKept, OrderTold, Did;
    if r in s.requests {
      assert RequestTold(h, r, s.requests[r]) && RequestKept(s.mode, s.requests[r]);
    } else {
      assert !Begun(h, r) && forall e' :: !Did(h, r, e');
    }
  }

  lemma JoinPossibleIff(h: seq<Step>, s: State)
    requires Kept(s) && Told(h, s)
    ensures s.workers == 0 <==> AllOver(h)
  {
    hide Kept, Told, RequestTold, Holds;
    assert Counted(s) by { hide *; KeptCounts(s); }
    if s.workers == 0 {
      NoWorkersLeft(s);
      NobodyLeft(h, s);
    }
    if AllOver(h) {
      LeftToNobody(h, s);
      assert Holders(s) == {} && WorkerHolders(s.requests) == {};
    }
  }

  lemma KeptCounts(s: State)
    requires Kept(s)
    ensures Counted(s)
  {
  }

  lemma NobodyLeft(h: seq<Step>, s: State)
    requires Told(h, s) && (forall g :: !Holds(s, g)) && forall r :: r in s.requests ==> !WorkerHeld(s.requests[r])
    ensures AllOver(h)
  {
    hide OrderTold, Since, Begun;
    assert !Holds(s, TheHandle) && !Holds(s, TheAcceptTask);
    forall c ensures !Connected(h, c) { assert !Holds(s, TheConnection(c)); }
    forall r ensures !StillRouting(h, r) && !StillInline(h, r) && !StillAwaiting(h, r) && !StillWorking(h, r) {
      assert Did(h, r, RunInline) ==> r in s.requests;
      assert Did(h, r, Spawn) ==> r in s.requests;
      assert !Holds(s, TheAnswer(r));
      if r in s.requests { assert RequestTold(h, r, s.requests[r]); }
    }
  }

  lemma LeftToNobody(h: seq<Step>, s: State)
    requires Told(h, s) && AllOver(h)
    ensures forall g :: !Holds(s, g)
    ensures forall r :: r in s.requests ==> !WorkerHeld(s.requests[r])
  {
    hide Since, Begun;
    forall r | r in s.requests
      ensures s.requests[r].answer.Ended? && !HandlerRuns(s.requests[r]) && !WorkerHeld(s.requests[r])
    {
      assert RequestTold(h, r, s.requests[r]);
      assert !StillRouting(h, r) && !StillInline(h, r) && !StillAwaiting(h, r) && !StillWorking(h, r);
    }
    assert forall c :: !Connected(h, c);
  }

  /** After a history, just the steps are possible that may follow it. */
  lemma EnabledIff(h: seq<Step>, s: State, step: Step)
    requires Kept(s) && Told(h, s)
    ensures Enabled(s, step) <==> MayFollow(s.mode, h, step)
  {
    hide Kept, RequestTold, EventMayFollow, AllOver, Possible, Since;
    match step {
      case Advance(r, e) => EventPossibleIff(h, s, r, e);
      case JoinHandlers => JoinPossibleIff(h, s);
      case StartRequest(c, r) =>
        if r in s.requests { assert RequestTold(h, r, s.requests[r]) && Begun(h, r) by { BegunIsTold(h, s, r); } }
      case _ =>
    }
  }

  lemma BegunIsTold(h: seq<Step>, s: State, r: RequestId)
    requires RequestsTold(h, s) && r in s.requests
    ensures RequestTold(h, r, s.requests[r]) && Begun(h, r)
  {
    assert RequestTold(h, r, s.requests[r]);
  }

  // ------------------------------------------------------ the next step is told

  lemma SinceOneMore<T>(h: seq<T>, step: T, a: T, b: T)
    requires a != b
    ensures Since(h + [step], a, b) <==> step == a || (Since(h, a, b) && step != b)
  {
    var more := h + [step];
    assert more[|h|] == step && forall i :: 0 <= i < |h| ==> more[i] == h[i];
    if step == a { assert HappenedLast(more, a, b, |h|); }
    if i: nat :| HappenedLast(more, a, b, i) && step != a { assert HappenedLast(h, a, b, i); }
    if i: nat :| HappenedLast(h, a, b, i) && step != b { assert HappenedLast(more, a, b, i); }
  }

  lemma HandleStaysTold(h: seq<Step>, s: State, step: Step)
    requires HandleTold(h, s) && AcceptTold(h, s) && Enabled(s, step)
    ensures HandleTold(h + [step], Take(s, step))
  {
    hide Possible, React, Recount;
    assert forall other :: other in h + [step] <==> other in h || other == step;
    TakesAtMost(s, step);
  }

  /** What a step leaves alone. */
  lemma TakesAtMost(s: State, step: Step)
    requires Enabled(s, step)
    ensures step.Advance? || step.StartRequest? || step.EndConnection? || step.Accept? ==>
      var t := Take(s, step); t.handle == s.handle && t.accept == s.accept && t.signal == s.signal && t.join == s.join
    ensures step.Advance? || step.StartRequest? ==> Take(s, step).connections == s.connections
    ensures !step.Advance? && !step.StartRequest? ==> Take(s, step).requests == s.requests
  {
    hide Possible, React;
  }

  lemma AcceptStaysTold(h: seq<Step>, s: State, step: Step)
    requires HandleTold(h, s) && AcceptTold(h, s) && Enabled(s, step)
    ensures AcceptTold(h + [step], Take(s, step))
  {
    hide Possible, React, Recount;
    assert forall other :: other in h + [step] <==> other in h || other == step;
    TakesAtMost(s, step);
  }

  lemma ConnectionsStayTold(h: seq<Step>, s: State, step: Step)
    requires ConnectionsTold(h, s) && Enabled(s, step)
    ensures ConnectionsTold(h + [step], Take(s, step))
  {
    hide Possible, React, Recount, Since;
    TakesAtMost(s, step);
    forall c ensures c in Take(s, step).connections <==> Connected(h + [step], c) {
      SinceOneMore(h, step, Accept(c), EndConnection(c));
      assert c in s.connections <==> Connected(h, c);
    }
  }

  lemma DidOneMore(h: seq<Step>, step: Step, r: RequestId)
    ensures forall e {:trigger Did(h + [step], r, e)} {:trigger Did(h, r, e)} ::
      Did(h + [step], r, e) <==> Did(h, r, e) || step == Advance(r, e)
    ensures Begun(h + [step], r) <==> Begun(h, r) || (step.StartRequest? && step.r == r)
  {
    if Begun(h + [step], r) && !(step.StartRequest? && step.r == r) {
      var c :| StartRequest(c, r) in h + [step];
      assert StartRequest(c, r) in h;
    }
    if Begun(h, r) {
      var c :| StartRequest(c, r) in h;
      assert StartRequest(c, r) in h + [step];
    }
    if step.StartRequest? && step.r == r { assert StartRequest(step.c, r) in h + [step]; }
  }

  lemma EventIsTold(mode: TaskMode, h: seq<Step>, q: Request, r: RequestId, e: Event)
    requires RequestKept(mode, q) && Possible(mode, q, e) && RequestTold(h, r, q)
    ensures RequestTold(h + [Advance(r, e)], r, React(q, e))
  {
    DidOneMore(h, Advance(r, e), r);
    hide RecordsKept, Did, Begun;
  }

  lemma OtherStepIsTold(h: seq<Step>, q: Request, r: RequestId, step: Step)
    requires RequestTold(h, r, q) && !(step.Advance? && step.r == r)
    ensures RequestTold(h + [step], r, q)
  {
    DidOneMore(h, step, r);
    hide Did, Begun;
  }

  lemma FreshIsTold(h: seq<Step>, r: RequestId, step: Step)
    requires step.StartRequest? && step.r == r && forall e :: !Did(h, r, e)
    ensures RequestTold(h + [step], r, Request(Routing, NotSpawned, NoChannel, []))
  {
    DidOneMore(h, step, r);
    hide Did, Begun;
  }

  lemma RequestsStayTold(h: seq<Step>, s: State, step: Step)
    requires Kept(s) && RequestsTold(h, s) && Enabled(s, step)
    ensures RequestsTold(h + [step], Take(s, step))
  {
    hide Counted, HandleKept, RequestKept, RequestTold, Possible, React, Did, Begun;
    var t := Take(s, step);
    assert t.requests == if step.Advance? then s.requests[step.r := React(s.requests[step.r], step.e)]
      else if step.StartRequest? then s.requests[step.r := Request(Routing, NotSpawned, NoChannel, [])]
      else s.requests by { TakesAtMost(s, step); }
    forall r | r in t.requests ensures RequestTold(h + [step], r, t.requests[r]) {
      if step.Advance? && step.r == r {
        EventIsTold(s.mode, h, s.requests[r], r, step.e);
      } else if step.StartRequest? && step.r == r {
        assert forall e :: !Did(h, r, e);
        FreshIsTold(h, r, step);
      } else {
        OtherStepIsTold(h, s.requests[r], r, step);
      }
    }
    forall r ensures Begun(h + [step], r) ==> r in t.requests
      ensures forall e {:trigger Did(h + [step], r, e)} :: Did(h + [step], r, e) ==> r in t.requests
    {
      DidOneMore(h, step, r);
    }
  }

  lemma StepIsTold(h: seq<Step>, s: State, step: Step)
    requires Kept(s) && Told(h, s) && Enabled(s, step)
    ensures Told(h + [step], Take(s, step))
  {
    hide HandleTold, AcceptTold, ConnectionsTold, RequestsTold, Kept, Enabled, Take;
    HandleStaysTold(h, s, step);
    AcceptStaysTold(h, s, step);
    ConnectionsStayTold(h, s, step);
    RequestsStayTold(h, s, step);
  }

  lemma {:induction false} ReachableTold(mode: TaskMode, steps: seq<Step>, s: State)
    requires Reaches(mode, steps, s)
    ensures Told(steps, s)
  {
    hide Told, Kept, Enabled, Take;
    if steps == [] {
      NothingTold(mode);
    } else {
      var last := |steps| - 1;
      var before := Exec(Started(mode), steps[..last]).value;
      ReachableTold(mode, steps[..last], before);
      ReachableKept(mode, steps[..last], before);
      StepIsTold(steps[..last], before, steps[last]);
      assert steps == steps[..last] + [steps[last]];
    }
  }

  /**
    The runs of the protocol, from a fresh start, are exactly the sequences of steps
    each of which may follow those before it.
   */
  lemma {:induction false} RunsAreHistories(mode: TaskMode, steps: seq<Step>)
    ensures Exec(Started(mode), steps).Some? <==> forall i :: 0 <= i < |steps| ==> MayFollow(mode, steps[..i], steps[i])
  {
    hide MayFollow, Told, Kept, Enabled, Take;
    if steps != [] {
      var last := |steps| - 1;
      var init := steps[..last];
      RunsAreHistories(mode, init);
      assert forall i :: 0 <= i < last ==> init[..i] == steps[..i] && init[i] == steps[i];
      if Exec(Started(mode), init).Some? {
        var before := Exec(Started(mode), init).value;
        ReachableTold(mode, init, before);
        ReachableKept(mode, init, before);
        EnabledIff(init, before, steps[last]);
      }
    }
  }

  /**
    A request has the record of its completion exactly if it was rejected, or its
    handler returned in place, or the result of its task was received; and the record
    of a panicked handler exactly if the receive failed.
   */
  lemma RecordsTellEnds(mode: TaskMode, steps: seq<Step>, s: State, r: RequestId)
    requires Reaches(mode, steps, s) && r in s.requests
    ensures RequestCompleted in s.requests[r].records <==>
      Advance(r, Reject) in steps || Advance(r, InlineReturns) in steps || Advance(r, ReceiveResult) in steps
    ensures HandlerPanicked in s.requests[r].records <==> Advance(r, ReceiveFails) in steps
  {
    hide Reaches, HandleTold, AcceptTold, ConnectionsTold;
    ReachableTold(mode, steps, s);
    assert RequestTold(steps, r, s.requests[r]);
  }

  // ---------------------------------------------------- no connections any more

  /**
    Once the accept task has received the close signal, or has failed, no connection
    is accepted any more, and those that there are only become fewer.
   */
  lemma {:induction false} NoConnectionsAfterSignal(mode: TaskMode, steps: seq<Step>, i: nat, j: nat)
    requires Exec(Started(mode), steps).Some? && i < j <= |steps|
    requires steps[i] == ReceiveSignal || steps[i] == FailAcceptTask
    ensures forall k :: i < k < j ==> !steps[k].Accept?
    ensures Exec(Started(mode), steps[..i + 1]).Some? && Exec(Started(mode), steps[..j]).Some?
    ensures Exec(Started(mode), steps[..j]).value.connections <= Exec(Started(mode), steps[..i + 1]).value.connections
    decreases j
  {
    hide *;
    PrefixRuns(mode, steps, i + 1);
    PrefixRuns(mode, steps, j);
    if i + 1 < j {
      NoConnectionsAfterSignal(mode, steps, i, j - 1);
      NotAccepted(mode, steps, i, j - 1);
      OneStepOn(mode, steps, j - 1);
      var before := Exec(Started(mode), steps[..j - 1]).value;
      ConnectionsShrink(before, steps[j - 1]);
    }
  }

  lemma NotAccepted(mode: TaskMode, steps: seq<Step>, i: nat, k: nat)
    requires Exec(Started(mode), steps).Some? && i < k < |steps|
    requires steps[i] == ReceiveSignal || steps[i] == FailAcceptTask
    ensures !steps[k].Accept?
  {
    RunsAreHistories(mode, steps);
    assert MayFollow(mode, steps[..k], steps[k]) && steps[..k][i] == steps[i];
    hide Exec;
  }

  lemma OneStepOn(mode: TaskMode, steps: seq<Step>, k: nat)
    requires k < |steps| && Exec(Started(mode), steps[..k]).Some? && Exec(Started(mode), steps[..k + 1]).Some?
    ensures var before := Exec(Started(mode), steps[..k]).value;
      Enabled(before, steps[k]) && Exec(Started(mode), steps[..k + 1]) == Some(Take(before, steps[k]))
  {
    hide Enabled, Take;
    assert steps[..k + 1][..k] == steps[..k];
  }

  lemma ConnectionsShrink(s: State, step: Step)
    requires Enabled(s, step) && !step.Accept?
    ensures Take(s, step).connections <= s.connections
  {
    hide Possible, React;
  }

  lemma {:induction false} PrefixRuns(mode: TaskMode, steps: seq<Step>, i: nat)
    requires Exec(Started(mode), steps).Some? && i <= |steps|
    ensures Exec(Started(mode), steps[..i]).Some?
  {
    hide Enabled, Take;
    if i < |steps| {
      PrefixRuns(mode, steps[..|steps| - 1], i);
      assert steps[..|steps| - 1][..i] == steps[..i];
    } else {
      assert steps[..i] == steps;
    }
  }
}
