/** The native side of the library: Call and Server objects, the completion queue and
    the libuv prepare handle that drains it. Callbacks run in the middle of a completion
    and may start new work on any call or server. */
module NativeRuntime {
  import opened BatchLedger

  /** What becomes of an operation: its arguments do not parse and it throws before it makes
      a tag, core rejects it and it throws afterwards, or core takes the tag. */
  datatype Answer = Malformed | Rejected | Accepted

  /** What JavaScript code does when it gets control. `inner` is what the callback does
      if it is called at once instead of through a tag. */
  datatype Action =
    | NewCall
    | StartBatch(call: nat, ops: seq<OpType>, answer: Answer, inner: seq<Action>)
    | StartOther(answer: Answer)
    | CollectCall(call: nat)
    | NewServer
    | TryShutdown(server: nat, inner: seq<Action>)
    | ForceShutdown(server: nat)

  /** One event of the completion queue: some outstanding tag, and what its callback does. */
  datatype Completion = Completion(index: nat, success: bool, callback: seq<Action>)

  /** A turn of the event loop: JavaScript code, or the prepare handle draining the queue. */
  datatype Turn = Script(actions: seq<Action>) | Drain(completions: seq<Completion>)

  /** No completion of the turn reports a failure. */
  predicate Succeeds(turn: Turn)
  {
    turn.Drain? ==> forall i :: 0 <= i < |turn.completions| ==> turn.completions[i].success
  }

  /** The given actions are among what has been done since `start`. */
  ghost predicate Includes(start: seq<Action>, now: seq<Action>, actions: seq<Action>)
  {
    start <= now && multiset(actions) <= multiset(now[|start|..])
  }

  lemma NothingYet(start: seq<Action>)
    ensures Includes(start, start, [])
  {}

  /** Doing one more action, and what it brings along. */
  lemma OneMore(start: seq<Action>, before: seq<Action>, now: seq<Action>, actions: seq<Action>, n: nat)
    requires n < |actions| && before + [actions[n]] <= now && Includes(start, before, actions[..n])
    ensures Includes(start, now, actions[..n + 1])
  {
    assert actions[..n + 1] == actions[..n] + [actions[n]];
    assert now[|start|..] == before[|start|..] + [actions[n]] + now[|before| + 1..];
  }

  ghost function ViewCalls(calls: seq<Call>): (r: seq<CallView>)
    reads calls
    ensures |r| == |calls|
    ensures forall c :: 0 <= c < |calls| ==> r[c] == calls[c].View()
  {
    seq(|calls|, i requires 0 <= i < |calls| reads calls => calls[i].View())
  }

  ghost function ViewServers(servers: seq<Server>): (r: seq<bool>)
    reads servers
    ensures |r| == |servers|
    ensures forall s :: 0 <= s < |servers| ==> r[s] == servers[s].wrapped
  {
    seq(|servers|, i requires 0 <= i < |servers| reads servers => servers[i].wrapped)
  }

  /** The JavaScript-visible Call object. */
  class Call {
    var wrapped: bool
    var pendingBatches: int
    var hasFinalOpCompleted: bool

    ghost function View(): CallView
      reads this
    {
      CallView(wrapped, pendingBatches, hasFinalOpCompleted)
    }

    constructor ()
      ensures View() == CallView(true, 0, false)
    {
      wrapped, pendingBatches, hasFinalOpCompleted := true, 0, false;
    }

    /** Returns whether core was told to drop its reference. */
    method DestroyCall() returns (unreffed: bool)
      modifies this`wrapped
      ensures unreffed == old(wrapped) && !wrapped
    {
      unreffed := wrapped;
      if wrapped { wrapped := false; }
    }

    method CompleteBatch(isFinalOp: bool) returns (unreffed: bool)
      modifies this
      ensures View() == AfterBatch(old(View()), isFinalOp)
      ensures unreffed == (old(wrapped) && !wrapped)
    {
      unreffed := false;
      if isFinalOp { hasFinalOpCompleted := true; }
      pendingBatches := pendingBatches - 1;
      if hasFinalOpCompleted && pendingBatches == 0 {
        unreffed := DestroyCall();
      }
    }
  }

  class Server {
    var wrapped: bool

    constructor ()
      ensures wrapped
    {
      wrapped := true;
    }

    /** Returns whether core was told to destroy the server. */
    method DestroyWrappedServer() returns (destroyed: bool)
      modifies this
      ensures destroyed == old(wrapped) && !wrapped
    {
      destroyed := wrapped;
      if wrapped { wrapped := false; }
    }
  }

  class Runtime {
    var calls: seq<Call>
    var servers: seq<Server>
    var inFlight: seq<Tag>  // tags handed to core and not destroyed yet
    var pendingBatches: int
    var prepareActive: bool
    var leaked: nat         // tags made for operations that core rejected; nothing deletes them
    ghost var log: seq<CoreEvent>
    ghost var performed: seq<Action>  // what JavaScript code has done, in order
    ghost var completed: seq<Tag>     // the tags that have been completed, in order
    ghost var history: seq<Turn>      // every turn so far

    constructor ()
      ensures Valid() && performed == [] && completed == [] && history == []
      ensures calls == [] && servers == [] && inFlight == [] && log == [] && leaked == 0
    {
      calls, servers, inFlight, pendingBatches, prepareActive, log := [], [], [], 0, false, [];
      leaked, performed, completed, history := 0, [], [], [];
    }

    ghost function CallViews(): (r: seq<CallView>)
      reads this`calls, calls
    {
      ViewCalls(calls)
    }

    ghost function ServerViews(): (r: seq<bool>)
      reads this`servers, servers
    {
      ViewServers(servers)
    }

    ghost predicate Distinct()
      reads this`calls, this`servers
    {
      && (forall i, j :: 0 <= i < j < |calls| ==> calls[i] != calls[j])
      && (forall i, j :: 0 <= i < j < |servers| ==> servers[i] != servers[j])
    }

    /** The global counter is the number of outstanding tags, and the prepare handle is
        active exactly while there are any. */
    ghost predicate Counted()
      reads this`pendingBatches, this`prepareActive, this`inFlight
    {
      pendingBatches == |inFlight| && (prepareActive <==> pendingBatches > 0)
    }

    ghost predicate Valid()
      reads this, calls, servers
    {
      Distinct() && Counted() && Sound(CallViews(), ServerViews(), inFlight, log)
    }

    /** CompletionQueueNext; the assertion is the source's own. */
    method CompletionQueueNext()
      requires pendingBatches >= 0 && (prepareActive <==> pendingBatches > 0)
      modifies this`pendingBatches, this`prepareActive
      ensures pendingBatches == old(pendingBatches) + 1 && prepareActive
    {
      if pendingBatches == 0 {
        assert !prepareActive;
        prepareActive := true;
      }
      pendingBatches := pendingBatches + 1;
    }

    /** Call::StartBatch. A call that has been released answers its callback at once
        with an error, and nothing reaches core. */
    method StartBatchOn(c: nat, ops: seq<OpType>, answer: Answer) returns (immediate: bool)
      requires Valid() && c < |calls|
      modifies this`inFlight, this`pendingBatches, this`prepareActive, this`leaked, this`log, calls[c]
      ensures Valid()
      ensures immediate == !old(calls[c].wrapped)
      ensures immediate || !answer.Accepted? ==> inFlight == old(inFlight) && log == old(log)
      ensures !immediate && answer.Accepted? ==>
        inFlight == old(inFlight) + [Tag(OfCall(c), ops)] && log == old(log) + [Started(c)]
      ensures leaked == old(leaked) + if !immediate && answer.Rejected? then 1 else 0
    {
      hide Sound, ViewCalls, ViewServers;
      if !calls[c].wrapped { return true; }
      if answer.Rejected? {
        leaked := leaked + 1;
      } else if answer.Accepted? {
        ghost var views, others := CallViews(), ServerViews();
        StartBatchSound(views, others, inFlight, log, c, ops);
        inFlight := inFlight + [Tag(OfCall(c), ops)];
        log := log + [Started(c)];
        calls[c].pendingBatches := calls[c].pendingBatches + 1;
        CompletionQueueNext();
        assert CallViews() == views[c := views[c].(pending := views[c].pending + 1)];
        assert ServerViews() == others;
      }
      return false;
    }

    /** Call::~Call. The tag keeps its call alive, so it only runs with none outstanding. */
    method Collect(c: nat)
      requires Valid() && c < |calls| && Count(inFlight, OfCall(c)) == 0
      modifies this`log, calls[c]
      ensures Valid() && !calls[c].wrapped
      ensures log == old(log) + if old(calls[c].wrapped) then [Unref(c)] else []
    {
      hide Sound, ViewCalls, ViewServers;
      ghost var views := CallViews();
      if calls[c].wrapped {
        CollectSound(views, ServerViews(), inFlight, log, c);
        log := log + [Unref(c)];
      }
      var _ := calls[c].DestroyCall();
      assert CallViews() == views[c := views[c].(wrapped := false)];
    }

    /** Server::TryShutdown; without a server the callback is called at once. */
    method TryShutdownOn(s: nat) returns (immediate: bool)
      requires Valid() && s < |servers|
      modifies this`inFlight, this`pendingBatches, this`prepareActive, this`log
      ensures Valid()
      ensures immediate == !servers[s].wrapped
      ensures immediate ==> inFlight == old(inFlight) && log == old(log)
      ensures !immediate ==>
        inFlight == old(inFlight) + [Tag(OfTry(s), [])] && log == old(log) + [ShutdownAsked(s)]
    {
      hide Sound, ViewCalls, ViewServers;
      if !servers[s].wrapped { return true; }
      TryShutdownSound(CallViews(), ServerViews(), inFlight, log, s);
      inFlight := inFlight + [Tag(OfTry(s), [])];
      log := log + [ShutdownAsked(s)];
      CompletionQueueNext();
      return false;
    }

    /** Server::ShutdownServer, behind forceShutdown and the destructor. */
    method ShutdownServer(s: nat)
      requires Valid() && s < |servers|
      modifies this`inFlight, this`pendingBatches, this`prepareActive, this`log, servers[s]
      ensures Valid() && !servers[s].wrapped
      ensures old(servers[s].wrapped) ==>
        inFlight == old(inFlight) + [Tag(OfForce(s), [])] && log == old(log) + [ShutdownAsked(s)]
      ensures !old(servers[s].wrapped) ==> inFlight == old(inFlight) && log == old(log)
    {
      hide Sound, ViewCalls, ViewServers;
      if servers[s].wrapped {
        ghost var views, others := ServerViews(), CallViews();
        ForceShutdownSound(others, views, inFlight, log, s);
        inFlight := inFlight + [Tag(OfForce(s), [])];
        log := log + [ShutdownAsked(s)];
        CompletionQueueNext();
        servers[s].wrapped := false;
        assert ServerViews() == views[s := false];
        assert CallViews() == others;
      }
    }

    method AddCall()
      requires Valid()
      modifies this`calls
      ensures Valid() && |calls| == |old(calls)| + 1 && old(calls) <= calls && fresh(calls[|old(calls)|])
    {
      hide Sound, ViewCalls, ViewServers;
      NewCallSound(CallViews(), ServerViews(), inFlight, log);
      ghost var views := CallViews();
      var call := new Call();
      calls := calls + [call];
      assert CallViews() == views + [CallView(true, 0, false)];
    }

    method AddServer()
      requires Valid()
      modifies this`servers
      ensures Valid() && |servers| == |old(servers)| + 1 && old(servers) <= servers
      ensures fresh(servers[|old(servers)|])
    {
      hide Sound, ViewCalls, ViewServers;
      NewServerSound(CallViews(), ServerViews(), inFlight, log);
      ghost var views := ServerViews();
      var server := new Server();
      servers := servers + [server];
      assert ServerViews() == views + [true];
    }

    /** requestCall, watchConnectivityState: a tag with no call. */
    method StartOtherOp(answer: Answer)
      requires Valid()
      modifies this`inFlight, this`pendingBatches, this`prepareActive, this`leaked
      ensures Valid()
      ensures inFlight == old(inFlight) + if answer.Accepted? then [Tag(OfOther, [])] else []
      ensures leaked == old(leaked) + if answer.Rejected? then 1 else 0
    {
      hide Sound, ViewCalls, ViewServers;
      if answer.Malformed? { return; }
      if answer.Rejected? {
        leaked := leaked + 1;
        return;
      }
      StartOtherSound(CallViews(), ServerViews(), inFlight, log);
      inFlight := inFlight + [Tag(OfOther, [])];
      CompletionQueueNext();
    }

    /** Calls and servers are only added, and only new ones. */
    twostate predicate Grown()
      reads this`calls, this`servers
    {
      && old(calls) <= calls && (forall i :: |old(calls)| <= i < |calls| ==> fresh(calls[i]))
      && old(servers) <= servers && (forall i :: |old(servers)| <= i < |servers| ==> fresh(servers[i]))
    }

    /** JavaScript code with control: any sequence of calls into this module. */
    method RunScript(actions: seq<Action>)
      requires Valid()
      modifies this, calls, servers
      ensures Valid()
      ensures old(inFlight) <= inFlight && NoNewFailure(old(log), log)
      ensures Grown()
      ensures Includes(old(performed), performed, actions) && unchanged(`completed)
      decreases actions, 0
    {
      hide Sound, ViewCalls, ViewServers, Count, Distinct, Counted, Includes;
      NothingYet(performed);
      assert actions[..0] == [];
      for n := 0 to |actions|
        invariant Valid()
        invariant old(inFlight) <= inFlight && NoNewFailure(old(log), log)
        invariant Grown()
        invariant Includes(old(performed), performed, actions[..n]) && unchanged(`completed)
      {
        ghost var before := performed;
        RunAction(actions[n]);
        OneMore(old(performed), before, performed, actions, n);
      }
      assert actions[..|actions|] == actions;
    }

    /** Whether the action calls its callback at once. */
    predicate Immediate(action: Action)
      reads this, calls, servers
    {
      match action
      case StartBatch(c, _, _, _) => c < |calls| && !calls[c].wrapped
      case TryShutdown(s, _) => s < |servers| && !servers[s].wrapped
      case _ => false
    }

    /** The tag that the action hands to core, if it does. */
    function NewTag(action: Action): (r: seq<Tag>)
      reads this, calls, servers
    {
      match action
      case StartBatch(c, ops, answer, _) =>
        if c < |calls| && calls[c].wrapped && answer.Accepted? then [Tag(OfCall(c), ops)] else []
      case StartOther(answer) => if answer.Accepted? then [Tag(OfOther, [])] else []
      case TryShutdown(s, _) => if s < |servers| && servers[s].wrapped then [Tag(OfTry(s), [])] else []
      case ForceShutdown(s) => if s < |servers| && servers[s].wrapped then [Tag(OfForce(s), [])] else []
      case _ => []
    }

    /** One such call. A call or server that does not exist is skipped. */
    method RunAction(action: Action)
      requires Valid()
      modifies this, calls, servers
      ensures Valid()
      ensures old(inFlight) <= inFlight && NoNewFailure(old(log), log)
      ensures Grown()
      ensures old(performed) + [action] <= performed && unchanged(`completed)
      ensures old(Immediate(action)) ==> Includes(old(performed), performed, action.inner)
      ensures !old(Immediate(action)) ==>
        && inFlight == old(inFlight) + old(NewTag(action))
        && |calls| == |old(calls)| + (if action.NewCall? then 1 else 0)
        && |servers| == |old(servers)| + (if action.NewServer? then 1 else 0)
      ensures action.ForceShutdown? && action.server < |servers| ==> !servers[action.server].wrapped
      ensures action.CollectCall? && action.call < |calls| && Count(inFlight, OfCall(action.call)) == 0 ==>
        !calls[action.call].wrapped
      decreases action, 1
    {
      hide Sound, ViewCalls, ViewServers, Count, Distinct, Counted;
      match action
      case StartBatch(_, _, _, _) => RunBatch(action);
      case TryShutdown(_, _) => RunTryShutdown(action);
      case _ => RunPlain(action);
    }

    /** An action that calls nothing back. */
    method RunPlain(action: Action)
      requires Valid() && !action.StartBatch? && !action.TryShutdown?
      modifies this, calls, servers
      ensures Valid() && Grown()
      ensures NoNewFailure(old(log), log) && inFlight == old(inFlight) + old(NewTag(action))
      ensures performed == old(performed) + [action] && unchanged(`completed)
      ensures |calls| == |old(calls)| + (if action.NewCall? then 1 else 0)
      ensures |servers| == |old(servers)| + (if action.NewServer? then 1 else 0)
      ensures action.ForceShutdown? && action.server < |servers| ==> !servers[action.server].wrapped
      ensures action.CollectCall? && action.call < |calls| && Count(inFlight, OfCall(action.call)) == 0 ==>
        !calls[action.call].wrapped
    {
      hide Sound, ViewCalls, ViewServers, Count, Distinct, Counted;
      performed := performed + [action];
      match action
      case NewCall => AddCall();
      case NewServer => AddServer();
      case StartOther(answer) => StartOtherOp(answer);
      case CollectCall(c) =>
        if c < |calls| && Count(inFlight, OfCall(c)) == 0 { Collect(c); }
      case ForceShutdown(s) =>
        if s < |servers| { ShutdownServer(s); }
    }

    method RunBatch(action: Action)
      requires Valid() && action.StartBatch?
      modifies this, calls, servers
      ensures Valid() && Grown()
      ensures old(inFlight) <= inFlight && NoNewFailure(old(log), log)
      ensures old(performed) + [action] <= performed && unchanged(`completed)
      ensures old(Immediate(action)) ==> Includes(old(performed), performed, action.inner)
      ensures !old(Immediate(action)) ==>
        inFlight == old(inFlight) + old(NewTag(action)) && unchanged(`calls, `servers)
      decreases action, 0
    {
      hide Sound, ViewCalls, ViewServers, Count, Distinct, Counted;
      performed := performed + [action];
      if action.call < |calls| {
        var immediate := StartBatchOn(action.call, action.ops, action.answer);
        if immediate { RunInner(action.inner, old(performed), action); }
      }
    }

    method RunTryShutdown(action: Action)
      requires Valid() && action.TryShutdown?
      modifies this, calls, servers
      ensures Valid() && Grown()
      ensures old(inFlight) <= inFlight && NoNewFailure(old(log), log)
      ensures old(performed) + [action] <= performed && unchanged(`completed)
      ensures old(Immediate(action)) ==> Includes(old(performed), performed, action.inner)
      ensures !old(Immediate(action)) ==>
        inFlight == old(inFlight) + old(NewTag(action)) && unchanged(`calls, `servers)
      decreases action, 0
    {
      hide Sound, ViewCalls, ViewServers, Count, Distinct, Counted;
      performed := performed + [action];
      if action.server < |servers| {
        var immediate := TryShutdownOn(action.server);
        if immediate { RunInner(action.inner, old(performed), action); }
      }
    }

    /** A callback called at once. */
    method RunInner(inner: seq<Action>, ghost before: seq<Action>, ghost action: Action)
      requires Valid() && performed == before + [action]
      modifies this, calls, servers
      ensures Valid()
      ensures old(inFlight) <= inFlight && NoNewFailure(old(log), log)
      ensures Grown()
      ensures before + [action] <= performed && unchanged(`completed)
      ensures Includes(before, performed, inner)
      decreases inner, 1
    {
      hide Sound, ViewCalls, ViewServers, Count, Distinct, Counted;
      RunScript(inner);
      assert performed[|before|..] == [action] + performed[|before| + 1..];
    }

    /** The part of CompleteTag after the callback, and DestroyTag, on tag k. */
    method Retire(k: nat, success: bool)
      requires Distinct() && Sound(CallViews(), ServerViews(), inFlight, log) && k < |inFlight|
      modifies this`inFlight, this`log, calls, servers
      ensures Distinct() && Sound(CallViews(), ServerViews(), inFlight, log)
      ensures inFlight == Without(old(inFlight), k)
      ensures old(inFlight)[k].owner.OfCall? ==>
        BatchRetired(old(inFlight)[k].owner.call, old(inFlight)[k].ops)
      ensures old(inFlight)[k].owner.OfTry? ==> TryRetired(old(inFlight)[k].owner.server, success)
      ensures old(inFlight)[k].owner.OfForce? ==>
        log == old(log) + [Destroyed(old(inFlight)[k].owner.server)]
      ensures old(inFlight)[k].owner == OfOther ==> log == old(log)
      ensures old(log) <= log && (success ==> NoNewFailure(old(log), log))
    {
      hide ViewCalls, ViewServers, Count, Without, CallOk, ServerOk;
      assert OwnerExists(inFlight[k].owner, |calls|, |servers|);
      hide Sound;
      match inFlight[k].owner
      case OfCall(c) => RetireBatch(k, c);
      case OfTry(s) => RetireTry(k, s, success);
      case OfForce(s) =>
        CompleteForceSound(CallViews(), ServerViews(), inFlight, log, k);
        log := log + [Destroyed(s)];
        inFlight := Without(inFlight, k);
      case OfOther =>
        CompleteOtherSound(CallViews(), ServerViews(), inFlight, log, k);
        inFlight := Without(inFlight, k);
    }

    /** What is left of a batch with the given operations on call c: the call is let go
        exactly if this was the last one outstanding, and this or an earlier one sent or
        received the status. */
    twostate predicate BatchRetired(c: nat, ops: seq<OpType>)
      reads this, calls
    {
      && c < |old(calls)| && calls == old(calls)
      && var isFinal := SendStatusFromServer in ops || RecvStatusOnClient in ops;
      && calls[c].hasFinalOpCompleted == (old(calls[c].hasFinalOpCompleted) || isFinal)
      && calls[c].pendingBatches == old(calls[c].pendingBatches) - 1
      && (if calls[c].pendingBatches == 0 && calls[c].hasFinalOpCompleted then
            log == old(log) + [Done(c, isFinal), Unref(c)] && !calls[c].wrapped
          else
            log == old(log) + [Done(c, isFinal)] && calls[c].wrapped)
    }

    /** What is left of a graceful shutdown of server s: nothing changes if it failed, and
        otherwise the server is gone, destroyed now unless it was before. */
    twostate predicate TryRetired(s: nat, success: bool)
      reads this, servers
    {
      && s < |old(servers)| && servers == old(servers)
      && (if !success then log == old(log) + [TryFailed(s)] && servers[s].wrapped == old(servers[s].wrapped)
          else if old(servers[s].wrapped) then log == old(log) + [Destroyed(s)] && !servers[s].wrapped
          else log == old(log) && !servers[s].wrapped)
    }

    /** A batch of call c: its final operation, if any, and CompleteBatch. */
    method RetireBatch(k: nat, c: nat)
      requires Distinct() && Sound(CallViews(), ServerViews(), inFlight, log)
      requires k < |inFlight| && inFlight[k].owner == OfCall(c) && c < |calls|
      modifies this`inFlight, this`log, calls
      ensures Distinct() && Sound(CallViews(), ServerViews(), inFlight, log)
      ensures inFlight == Without(old(inFlight), k)
      ensures BatchRetired(c, old(inFlight)[k].ops)
    {
      hide Sound, ViewCalls, ViewServers, Count, Without;
      var ops := inFlight[k].ops;
      ghost var callViews, serverViews := CallViews(), ServerViews();
      var isFinal := false;
      for i := 0 to |ops|
        invariant isFinal <==> HasFinalOp(ops[..i])
      {
        if IsFinalOp(ops[i]) { isFinal := true; }
      }
      assert ops[..|ops|] == ops;
      FinalOps(ops);
      CompleteBatchSound(callViews, serverViews, inFlight, log, k, isFinal);
      var unreffed := calls[c].CompleteBatch(isFinal);
      log := log + ([Done(c, isFinal)] + if unreffed then [Unref(c)] else []);
      inFlight := Without(inFlight, k);
      assert CallViews() == callViews[c := AfterBatch(callViews[c], isFinal)];
      assert ServerViews() == serverViews;
    }

    /** TryShutdownOp::OnComplete. */
    method RetireTry(k: nat, s: nat, success: bool)
      requires Distinct() && Sound(CallViews(), ServerViews(), inFlight, log)
      requires k < |inFlight| && inFlight[k].owner == OfTry(s) && s < |servers|
      modifies this`inFlight, this`log, servers
      ensures Distinct() && Sound(CallViews(), ServerViews(), inFlight, log)
      ensures inFlight == Without(old(inFlight), k)
      ensures TryRetired(s, success)
    {
      hide Sound, ViewCalls, ViewServers, Count, Without;
      ghost var callViews, serverViews := CallViews(), ServerViews();
      CompleteTrySound(callViews, serverViews, inFlight, log, k, success);
      var destroyed := false;
      if success { destroyed := servers[s].DestroyWrappedServer(); }
      log := log + if !success then [TryFailed(s)] else if destroyed then [Destroyed(s)] else [];
      inFlight := Without(inFlight, k);
      assert ServerViews() == serverViews[s := serverViews[s] && !success];
      assert CallViews() == callViews;
    }

    /** One completed tag in drain_completion_queue: the callback first, then the
        operations' completion, then the counters. */
    method CompleteTag(done: Completion)
      requires Valid() && done.index < |inFlight|
      modifies this, calls, servers
      ensures Valid()
      ensures old(log) <= log && Grown()
      // The completed tag goes, every other one stays.
      ensures Without(old(inFlight), done.index) <= inFlight
      ensures done.success ==> NoNewFailure(old(log), log)
      ensures Includes(old(performed), performed, done.callback)
      ensures completed == old(completed) + [old(inFlight)[done.index]]
    {
      hide Sound, ViewCalls, ViewServers, Count, Distinct, Without, BatchRetired, TryRetired, Includes, NoNewFailure;
      RunScript(done.callback);
      WithoutPrefix(old(inFlight), inFlight, done.index);
      ghost var before := log;
      Retire(done.index, done.success);
      NoNewFailureTwice(old(log), before, log);
      completed := completed + [old(inFlight)[done.index]];
      CountDown();
    }

    /** The counter and the prepare handle after a tag has been destroyed. */
    method CountDown()
      requires pendingBatches == |inFlight| + 1 && prepareActive
      modifies this`pendingBatches, this`prepareActive
      ensures Counted()
    {
      pendingBatches := pendingBatches - 1;
      if pendingBatches == 0 { prepareActive := false; }
    }

    /** What the invariant says of the counters, of every call and of every server. */
    lemma Summary()
      requires Valid()
      ensures pendingBatches == |inFlight| && (prepareActive <==> pendingBatches > 0)
      ensures pendingBatches == CallTags(inFlight, |calls|) + CallFree(inFlight)
      ensures forall c :: 0 <= c < |calls| ==> CallOk(calls[c].View(), c, inFlight, log)
      ensures forall s :: 0 <= s < |servers| ==> ServerOutcome(s)
    {
      hide CallOk, ServerOk, Count, CallTags, CallFree, Times;
      TagsSplit(inFlight, |calls|);
      forall s: nat | s < |servers| ensures ServerOutcome(s) {
        assert ServerViews()[s] == servers[s].wrapped;
        DestroyedOnce(CallViews(), ServerViews(), inFlight, log, s);
      }
    }

    /** Destroyed at most once, and only on request; exactly once when every shutdown has
        completed and no graceful one failed. */
    ghost predicate ServerOutcome(s: nat)
      requires s < |servers|
      reads this, servers
    {
      && ServerOk(servers[s].wrapped, s, inFlight, log)
      && Times(log, Destroyed(s)) <= 1
      && (Destroyed(s) in log ==> ShutdownAsked(s) in log)
      && (ShutdownAsked(s) in log && TryFailed(s) !in log &&
          Count(inFlight, OfTry(s)) == 0 && Count(inFlight, OfForce(s)) == 0 ==>
            Times(log, Destroyed(s)) == 1)
    }

    /** Any run of the event loop. The drain loop runs only while the prepare handle is
        active when the turn begins, and stops when the queue reports no more events. */
    method Run(turns: seq<Turn>)
      requires Valid()
      modifies this, calls, servers
      ensures Valid()
      ensures pendingBatches == |inFlight| && (prepareActive <==> pendingBatches > 0)
      ensures pendingBatches == CallTags(inFlight, |calls|) + CallFree(inFlight)
      ensures forall c :: 0 <= c < |calls| ==> CallOk(calls[c].View(), c, inFlight, log)
      ensures forall s :: 0 <= s < |servers| ==> ServerOutcome(s)
      // A graceful shutdown fails only through a completion that does.
      ensures (forall n :: 0 <= n < |turns| ==> Succeeds(turns[n])) ==> NoNewFailure(old(log), log)
      ensures history == old(history) + turns
    {
      hide Sound, ViewCalls, ViewServers, Count, Distinct, ServerOutcome, CallOk, CallTags, CallFree, Counted, Includes;
      for n := 0 to |turns|
        invariant (forall m :: 0 <= m < n ==> Succeeds(turns[m])) ==> NoNewFailure(old(log), log)
        invariant Valid() && old(log) <= log && Grown()
        invariant history == old(history) + turns[..n]
      {
        RunTurn(turns[n]);
        assert turns[..n + 1] == turns[..n] + [turns[n]];
      }
      assert turns[..|turns|] == turns;
      Summary();
    }

    /** One turn. While the prepare handle is active the queue is drained. */
    method RunTurn(turn: Turn)
      requires Valid()
      modifies this, calls, servers
      ensures Valid() && old(log) <= log && Grown()
      ensures Succeeds(turn) ==> NoNewFailure(old(log), log)
      ensures turn.Script? ==> Includes(old(performed), performed, turn.actions)
      ensures turn.Drain? && turn.completions != [] && turn.completions[0].index < |old(inFlight)| ==>
        old(completed) + [old(inFlight)[turn.completions[0].index]] <= completed
      ensures history == old(history) + [turn]
    {
      hide Sound, ViewCalls, ViewServers, Count, Distinct, Includes;
      ghost var past := history;
      match turn {
        case Script(actions) => RunScript(actions);
        case Drain(completions) =>
          if prepareActive { DrainQueue(completions); }
      }
      history := past + [turn];
    }

    method DrainQueue(completions: seq<Completion>)
      requires Valid()
      modifies this, calls, servers
      ensures Valid()
      ensures old(log) <= log && Grown()
      ensures (forall i :: 0 <= i < |completions| ==> completions[i].success) ==> NoNewFailure(old(log), log)
      // It completes what is there, in the order given.
      ensures old(completed) <= completed
      ensures completions != [] && completions[0].index < |old(inFlight)| ==>
        old(completed) + [old(inFlight)[completions[0].index]] <= completed
    {
      hide Sound, ViewCalls, ViewServers, Count, Distinct;
      for i := 0 to |completions|
        invariant (forall j :: 0 <= j < i ==> completions[j].success) ==> NoNewFailure(old(log), log)
        invariant old(completed) <= completed && (i == 0 ==> unchanged(`inFlight, `completed))
        invariant i > 0 && completions[0].index < |old(inFlight)| ==>
          old(completed) + [old(inFlight)[completions[0].index]] <= completed
        invariant Valid() && old(log) <= log && Grown()
      {
        if completions[i].index < |inFlight| { CompleteTag(completions[i]); }
      }
    }
  }
}
