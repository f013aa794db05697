/** The ledger kept around the gRPC core completion queue: which tags are outstanding,
    what each call and server owes to core, and what core has been told so far. Every
    step of the runtime is one of the lemmas at the end. */
module BatchLedger {

  datatype OpType =
    | SendInitialMetadata | SendMessage | SendCloseFromClient | SendStatusFromServer
    | RecvInitialMetadata | RecvMessage | RecvStatusOnClient | RecvCloseOnServer

  /** Op::IsFinalOp of the class behind each operation. */
  predicate IsFinalOp(op: OpType)
  {
    op == SendStatusFromServer || op == RecvStatusOnClient
  }

  /** What a tag belongs to: a call's batch, a tryShutdown or forced shutdown of a
      server, or anything else (requestCall, watchConnectivityState). */
  datatype Owner = OfCall(call: nat) | OfTry(server: nat) | OfForce(server: nat) | OfOther

  datatype Tag = Tag(owner: Owner, ops: seq<OpType>)

  predicate HasFinalOp(ops: seq<OpType>)
  {
    exists i :: 0 <= i < |ops| && IsFinalOp(ops[i])
  }

  /** Which operations those are. */
  lemma FinalOps(ops: seq<OpType>)
    ensures HasFinalOp(ops) <==> SendStatusFromServer in ops || RecvStatusOnClient in ops
  {
    forall i | 0 <= i < |ops| && (ops[i] == SendStatusFromServer || ops[i] == RecvStatusOnClient)
      ensures IsFinalOp(ops[i])
    {
    }
  }

  /** What core sees, in order. Done is the point where a batch stops counting as
      outstanding on the call, and says whether it held a final operation. */
  datatype CoreEvent =
    | Started(call: nat) | Done(call: nat, final: bool) | Unref(call: nat)
    | ShutdownAsked(server: nat) | TryFailed(server: nat) | Destroyed(server: nat)

  // ---- counting tags ----

  function Count(tags: seq<Tag>, owner: Owner): (n: nat)
    ensures n <= |tags|
  {
    if tags == [] then 0
    else (if tags[0].owner == owner then 1 else 0) + Count(tags[1..], owner)
  }

  lemma {:induction false} CountAppend(a: seq<Tag>, b: seq<Tag>, owner: Owner)
    ensures Count(a + b, owner) == Count(a, owner) + Count(b, owner)
  {
    if a == [] {
      assert a + b == b;
    } else {
      CountAppend(a[1..], b, owner);
      assert (a + b)[1..] == a[1..] + b;
    }
  }

  lemma CountSnoc(tags: seq<Tag>, t: Tag, owner: Owner)
    ensures Count(tags + [t], owner) == Count(tags, owner) + if t.owner == owner then 1 else 0
  {
    CountAppend(tags, [t], owner);
  }

  function Without(tags: seq<Tag>, k: nat): (r: seq<Tag>)
    requires k < |tags|
    ensures |r| == |tags| - 1
    ensures forall j :: 0 <= j < k ==> r[j] == tags[j]
    ensures forall j :: k <= j < |r| ==> r[j] == tags[j + 1]
  {
    tags[..k] + tags[k + 1..]
  }

  lemma WithoutPrefix(tags: seq<Tag>, more: seq<Tag>, k: nat)
    requires k < |tags| && tags <= more
    ensures Without(tags, k) <= Without(more, k)
  {}

  lemma CountWithout(tags: seq<Tag>, k: nat, owner: Owner)
    requires k < |tags|
    ensures Count(Without(tags, k), owner) == Count(tags, owner) - if tags[k].owner == owner then 1 else 0
  {
    CountAppend(tags[..k], tags[k + 1..], owner);
    CountAppend(tags[..k], tags[k..], owner);
    assert tags == tags[..k] + tags[k..];
    assert tags[k..][1..] == tags[k + 1..];
  }

  /** Tags of calls numbered below n. */
  function CallTags(tags: seq<Tag>, n: nat): (r: nat)
  {
    if n == 0 then 0 else Count(tags, OfCall(n - 1)) + CallTags(tags, n - 1)
  }

  /** Tags that belong to no call. */
  function CallFree(tags: seq<Tag>): (r: nat)
  {
    if tags == [] then 0
    else (if tags[0].owner.OfCall? then 0 else 1) + CallFree(tags[1..])
  }

  lemma {:induction false} CallTagsCons(t: Tag, tags: seq<Tag>, n: nat)
    ensures CallTags([t] + tags, n) == CallTags(tags, n) + if t.owner.OfCall? && t.owner.call < n then 1 else 0
  {
    if n == 0 {
    } else {
      CallTagsCons(t, tags, n - 1);
      assert ([t] + tags)[1..] == tags;
    }
  }

  lemma {:induction false} CallTagsNone(n: nat)
    ensures CallTags([], n) == 0
  {
    if n == 0 {
    } else {
      CallTagsNone(n - 1);
    }
  }

  /** Every outstanding tag is counted by exactly one call, or belongs to none. */
  lemma {:induction false} TagsSplit(tags: seq<Tag>, n: nat)
    requires forall t :: t in tags && t.owner.OfCall? ==> t.owner.call < n
    ensures |tags| == CallTags(tags, n) + CallFree(tags)
  {
    if tags == [] {
      CallTagsNone(n);
    } else {
      TagsSplit(tags[1..], n);
      CallTagsCons(tags[0], tags[1..], n);
      assert [tags[0]] + tags[1..] == tags;
    }
  }

  // ---- what a trace must look like ----

  function Times(log: seq<CoreEvent>, e: CoreEvent): (n: nat)
  {
    multiset(log)[e]
  }

  function Completions(log: seq<CoreEvent>, c: nat): (n: nat)
  {
    Times(log, Done(c, true)) + Times(log, Done(c, false))
  }

  predicate Concerns(e: CoreEvent, c: nat)
  {
    (e.Started? || e.Done? || e.Unref?) && e.call == c
  }

  /** A call is unreffed at most once, never with a batch outstanding, and neither a
      batch nor a completion concerns it afterwards. */
  ghost predicate CallTrace(log: seq<CoreEvent>, c: nat)
  {
    forall i :: 0 <= i < |log| && log[i] == Unref(c) ==>
      && Times(log[..i], Started(c)) == Completions(log[..i], c)
      && (forall j :: i < j < |log| ==> !Concerns(log[j], c))
  }

  /** The fields of a Call object; `wrapped` says that wrapped_call is not NULL. */
  datatype CallView = CallView(wrapped: bool, pending: int, final: bool)

  /** The fields of call c against the outstanding tags and the trace. */
  ghost predicate CallOk(v: CallView, c: nat, tags: seq<Tag>, log: seq<CoreEvent>)
  {
    && v.pending == Count(tags, OfCall(c)) == Times(log, Started(c)) - Completions(log, c)
    && (v.wrapped <==> Unref(c) !in log)
    && (v.pending > 0 ==> v.wrapped)
    && (v.final <==> Done(c, true) in log)
    && (v.final && v.pending == 0 ==> !v.wrapped)
    && CallTrace(log, c)
  }

  /** A server is still held by its wrapper, or a forced shutdown in flight will destroy
      it, or it has been destroyed: exactly one of these, exactly once. */
  ghost predicate ServerOk(wrapped: bool, s: nat, tags: seq<Tag>, log: seq<CoreEvent>)
  {
    && (if wrapped then 1 else 0) + Count(tags, OfForce(s)) + Times(log, Destroyed(s)) == 1
    && (wrapped && ShutdownAsked(s) in log ==> Count(tags, OfTry(s)) > 0 || TryFailed(s) in log)
    && (!wrapped || Count(tags, OfTry(s)) > 0 ==> ShutdownAsked(s) in log)
  }

  predicate OwnerExists(o: Owner, calls: nat, servers: nat)
  {
    (o.OfCall? ==> o.call < calls) && (o.OfTry? || o.OfForce? ==> o.server < servers)
  }

  predicate EventExists(e: CoreEvent, calls: nat, servers: nat)
  {
    if e.Started? || e.Done? || e.Unref? then e.call < calls else e.server < servers
  }

  ghost predicate Sound(calls: seq<CallView>, servers: seq<bool>, tags: seq<Tag>, log: seq<CoreEvent>)
  {
    && (forall k :: 0 <= k < |tags| ==> OwnerExists(tags[k].owner, |calls|, |servers|))
    && (forall k :: 0 <= k < |log| ==> EventExists(log[k], |calls|, |servers|))
    && (forall c :: 0 <= c < |calls| ==> CallOk(calls[c], c, tags, log))
    && (forall s :: 0 <= s < |servers| ==> ServerOk(servers[s], s, tags, log))
  }

  lemma TimesSnoc(log: seq<CoreEvent>, e: CoreEvent, x: CoreEvent)
    ensures Times(log + [e], x) == Times(log, x) + if e == x then 1 else 0
    ensures x in log + [e] <==> x in log || x == e
  {}

  lemma TraceSnoc(log: seq<CoreEvent>, e: CoreEvent, c: nat)
    requires CallTrace(log, c)
    requires Concerns(e, c) ==> Unref(c) !in log
    requires e == Unref(c) ==> Times(log, Started(c)) == Completions(log, c)
    ensures CallTrace(log + [e], c)
  {
    forall i | 0 <= i < |log + [e]| && (log + [e])[i] == Unref(c)
      ensures Times((log + [e])[..i], Started(c)) == Completions((log + [e])[..i], c)
      ensures forall j :: i < j < |log + [e]| ==> !Concerns((log + [e])[j], c)
    {
      assert (log + [e])[..i] == log[..i];
      if i == |log| {
        assert log[..i] == log;
      } else {
        assert log[i] == Unref(c);
      }
    }
  }

  /** Neither the tag change nor the new event is about this call or server. */
  ghost predicate SameCounts(tags: seq<Tag>, tags': seq<Tag>, o: Owner)
  {
    Count(tags, o) == Count(tags', o)
  }

  lemma CallKept(v: CallView, c: nat, tags: seq<Tag>, tags': seq<Tag>, log: seq<CoreEvent>, e: CoreEvent)
    requires CallOk(v, c, tags, log) && SameCounts(tags, tags', OfCall(c)) && !Concerns(e, c)
    ensures CallOk(v, c, tags', log + [e])
  {
    hide CallTrace;
    TraceSnoc(log, e, c);
    TimesSnoc(log, e, Started(c));
    TimesSnoc(log, e, Done(c, true));
    TimesSnoc(log, e, Done(c, false));
  }

  lemma ServerKept(w: bool, s: nat, tags: seq<Tag>, tags': seq<Tag>, log: seq<CoreEvent>, e: CoreEvent)
    requires ServerOk(w, s, tags, log)
    requires SameCounts(tags, tags', OfForce(s)) && SameCounts(tags, tags', OfTry(s))
    requires e != Destroyed(s) && e != ShutdownAsked(s)
    ensures ServerOk(w, s, tags', log + [e])
  {
    TimesSnoc(log, e, Destroyed(s));
  }

  // ---- every step keeps the state sound ----

  lemma NewCallSound(calls: seq<CallView>, servers: seq<bool>, tags: seq<Tag>, log: seq<CoreEvent>)
    requires Sound(calls, servers, tags, log)
    ensures Sound(calls + [CallView(true, 0, false)], servers, tags, log)
  {
    CountAbsent(tags, OfCall(|calls|));
  }

  lemma NewServerSound(calls: seq<CallView>, servers: seq<bool>, tags: seq<Tag>, log: seq<CoreEvent>)
    requires Sound(calls, servers, tags, log)
    ensures Sound(calls, servers + [true], tags, log)
  {
    CountAbsent(tags, OfForce(|servers|));
    CountAbsent(tags, OfTry(|servers|));
  }

  lemma {:induction false} CountAbsent(tags: seq<Tag>, o: Owner)
    requires forall k :: 0 <= k < |tags| ==> tags[k].owner != o
    ensures Count(tags, o) == 0
  {
    if tags == [] {
    } else {
      CountAbsent(tags[1..], o);
    }
  }

  lemma StartOtherSound(calls: seq<CallView>, servers: seq<bool>, tags: seq<Tag>, log: seq<CoreEvent>)
    requires Sound(calls, servers, tags, log)
    ensures Sound(calls, servers, tags + [Tag(OfOther, [])], log)
  {
    forall o: Owner ensures Count(tags + [Tag(OfOther, [])], o) == Count(tags, o) + if o == OfOther then 1 else 0 {
      CountSnoc(tags, Tag(OfOther, []), o);
    }
  }

  /** DestroyCall with nothing outstanding. */
  lemma UnrefSound(v: CallView, c: nat, tags: seq<Tag>, log: seq<CoreEvent>)
    requires CallOkButHeld(v, c, tags, log) && v.wrapped && v.pending == 0
    ensures CallOk(v.(wrapped := false), c, tags, log + [Unref(c)])
  {
    hide CallTrace;
    TraceSnoc(log, Unref(c), c);
    TimesSnoc(log, Unref(c), Done(c, true));
    TimesSnoc(log, Unref(c), Done(c, false));
  }

  /** CallOk, save that the call may still be held after its last batch. */
  ghost predicate CallOkButHeld(v: CallView, c: nat, tags: seq<Tag>, log: seq<CoreEvent>)
  {
    && v.pending == Count(tags, OfCall(c)) == Times(log, Started(c)) - Completions(log, c)
    && (v.wrapped <==> Unref(c) !in log)
    && (v.final <==> Done(c, true) in log)
    && CallTrace(log, c)
  }

  lemma {:induction false} CallKeptAll(v: CallView, c: nat, tags: seq<Tag>, log: seq<CoreEvent>, events: seq<CoreEvent>)
    requires CallOk(v, c, tags, log) && forall i :: 0 <= i < |events| ==> !Concerns(events[i], c)
    ensures CallOk(v, c, tags, log + events)
    decreases |events|
  {
    hide CallOk;
    if events == [] {
      assert log + [] == log;
    } else {
      CallKept(v, c, tags, tags, log, events[0]);
      CallKeptAll(v, c, tags, log + [events[0]], events[1..]);
      assert log + events == log + [events[0]] + events[1..];
    }
  }

  lemma {:induction false} ServerKeptAll(w: bool, s: nat, tags: seq<Tag>, log: seq<CoreEvent>, events: seq<CoreEvent>)
    requires ServerOk(w, s, tags, log)
    requires forall i :: 0 <= i < |events| ==> events[i].Started? || events[i].Done? || events[i].Unref?
    ensures ServerOk(w, s, tags, log + events)
    decreases |events|
  {
    hide ServerOk;
    if events == [] {
      assert log + [] == log;
    } else {
      ServerKept(w, s, tags, tags, log, events[0]);
      ServerKeptAll(w, s, tags, log + [events[0]], events[1..]);
      assert log + events == log + [events[0]] + events[1..];
    }
  }

  /** Changing the tags and one call, with events about that call only. */
  lemma CallStep(calls: seq<CallView>, servers: seq<bool>, tags: seq<Tag>, log: seq<CoreEvent>,
                 c: nat, v: CallView, tags': seq<Tag>, events: seq<CoreEvent>)
    requires Sound(calls, servers, tags, log) && c < |calls|
    requires forall k :: 0 <= k < |tags'| ==> OwnerExists(tags'[k].owner, |calls|, |servers|)
    requires forall o: Owner :: o != OfCall(c) ==> SameCounts(tags, tags', o)
    requires forall i :: 0 <= i < |events| ==> Concerns(events[i], c)
    requires CallOk(v, c, tags', log + events)
    ensures Sound(calls[c := v], servers, tags', log + events)
  {
    hide CallTrace;
    forall i | 0 <= i < |calls| && i != c ensures CallOk(calls[i], i, tags', log + events) {
      assert SameCounts(tags, tags', OfCall(i));
      CallKeptAll(calls[i], i, tags', log, events);
    }
    forall s | 0 <= s < |servers| ensures ServerOk(servers[s], s, tags', log + events) {
      assert SameCounts(tags, tags', OfForce(s)) && SameCounts(tags, tags', OfTry(s));
      ServerKeptAll(servers[s], s, tags', log, events);
    }
  }

  /** A batch reaches core only through a call that is still wrapped. */
  lemma StartBatchSound(calls: seq<CallView>, servers: seq<bool>, tags: seq<Tag>, log: seq<CoreEvent>,
                        c: nat, ops: seq<OpType>)
    requires Sound(calls, servers, tags, log) && c < |calls| && calls[c].wrapped
    ensures Sound(calls[c := calls[c].(pending := calls[c].pending + 1)], servers,
                  tags + [Tag(OfCall(c), ops)], log + [Started(c)])
  {
    hide CallTrace, ServerOk;
    var tags' := tags + [Tag(OfCall(c), ops)];
    forall o: Owner ensures Count(tags', o) == Count(tags, o) + if o == OfCall(c) then 1 else 0 {
      CountSnoc(tags, Tag(OfCall(c), ops), o);
    }
    var v := calls[c].(pending := calls[c].pending + 1);
    TraceSnoc(log, Started(c), c);
    TimesSnoc(log, Started(c), Done(c, true));
    TimesSnoc(log, Started(c), Done(c, false));
    CallStep(calls, servers, tags, log, c, v, tags', [Started(c)]);
  }

  /** The destructor's DestroyCall, when no tag holds on to the call. */
  lemma CollectSound(calls: seq<CallView>, servers: seq<bool>, tags: seq<Tag>, log: seq<CoreEvent>, c: nat)
    requires Sound(calls, servers, tags, log) && c < |calls| && calls[c].wrapped
    requires Count(tags, OfCall(c)) == 0
    ensures Sound(calls[c := calls[c].(wrapped := false)], servers, tags, log + [Unref(c)])
  {
    hide CallTrace, ServerOk;
    UnrefSound(calls[c], c, tags, log);
    CallStep(calls, servers, tags, log, c, calls[c].(wrapped := false), tags, [Unref(c)]);
  }

  /** Call::CompleteBatch on the fields: the call lets go of core when its last
      outstanding batch completes after a final operation has. */
  function AfterBatch(v: CallView, isFinal: bool): (r: CallView)
  {
    var final := v.final || isFinal;
    CallView(v.wrapped && !(final && v.pending == 1), v.pending - 1, final)
  }

  function BatchEvents(v: CallView, isFinal: bool, c: nat): (r: seq<CoreEvent>)
  {
    [Done(c, isFinal)] + if v.wrapped && !AfterBatch(v, isFinal).wrapped then [Unref(c)] else []
  }

  lemma DoneOk(v: CallView, c: nat, tags: seq<Tag>, log: seq<CoreEvent>, k: nat, isFinal: bool)
    requires CallOk(v, c, tags, log) && k < |tags| && tags[k].owner == OfCall(c)
    ensures v.wrapped && v.pending > 0
    ensures CallOk(AfterBatch(v, isFinal), c, Without(tags, k), log + BatchEvents(v, isFinal, c))
  {
    hide CallTrace, Count, Without, Times;
    var log' := log + [Done(c, isFinal)];
    CountWithout(tags, k, OfCall(c));
    TraceSnoc(log, Done(c, isFinal), c);
    TimesSnoc(log, Done(c, isFinal), Done(c, true));
    TimesSnoc(log, Done(c, isFinal), Done(c, false));
    TimesSnoc(log, Done(c, isFinal), Started(c));
    var held := AfterBatch(v, isFinal).(wrapped := true);
    assert CallOkButHeld(held, c, Without(tags, k), log');
    if AfterBatch(v, isFinal).wrapped {
      assert log' == log + BatchEvents(v, isFinal, c);
    } else {
      UnrefSound(held, c, Without(tags, k), log');
      assert log' + [Unref(c)] == log + BatchEvents(v, isFinal, c);
    }
  }

  lemma CompleteBatchSound(calls: seq<CallView>, servers: seq<bool>, tags: seq<Tag>, log: seq<CoreEvent>,
                           k: nat, isFinal: bool)
    requires Sound(calls, servers, tags, log) && k < |tags| && tags[k].owner.OfCall?
    ensures var c := tags[k].owner.call;
      && c < |calls| && calls[c].wrapped && calls[c].pending > 0
      && Sound(calls[c := AfterBatch(calls[c], isFinal)], servers,
               Without(tags, k), log + BatchEvents(calls[c], isFinal, c))
  {
    hide CallOk, ServerOk;
    var c, tags' := tags[k].owner.call, Without(tags, k);
    assert OwnerExists(tags[k].owner, |calls|, |servers|);
    forall o: Owner ensures Count(tags', o) == Count(tags, o) - if o == OfCall(c) then 1 else 0 {
      CountWithout(tags, k, o);
    }
    DoneOk(calls[c], c, tags, log, k, isFinal);
    CallStep(calls, servers, tags, log, c, AfterBatch(calls[c], isFinal), tags',
             BatchEvents(calls[c], isFinal, c));
  }

  /** Removing a tag that belongs to no call and no server. */
  lemma CompleteOtherSound(calls: seq<CallView>, servers: seq<bool>, tags: seq<Tag>, log: seq<CoreEvent>, k: nat)
    requires Sound(calls, servers, tags, log) && k < |tags| && tags[k].owner == OfOther
    ensures Sound(calls, servers, Without(tags, k), log)
  {
    forall o: Owner ensures Count(Without(tags, k), o) == Count(tags, o) - if o == OfOther then 1 else 0 {
      CountWithout(tags, k, o);
    }
  }

  /** Changing the tags and one server, with one event about that server. */
  lemma ServerStep(calls: seq<CallView>, servers: seq<bool>, tags: seq<Tag>, log: seq<CoreEvent>,
                   s: nat, w: bool, tags': seq<Tag>, e: CoreEvent)
    requires Sound(calls, servers, tags, log) && s < |servers|
    requires forall k :: 0 <= k < |tags'| ==> OwnerExists(tags'[k].owner, |calls|, |servers|)
    requires forall o: Owner :: o != OfTry(s) && o != OfForce(s) ==> SameCounts(tags, tags', o)
    requires e in {ShutdownAsked(s), TryFailed(s), Destroyed(s)}
    requires ServerOk(w, s, tags', log + [e])
    ensures Sound(calls, servers[s := w], tags', log + [e])
  {
    forall i | 0 <= i < |calls| ensures CallOk(calls[i], i, tags', log + [e]) {
      assert SameCounts(tags, tags', OfCall(i));
      CallKept(calls[i], i, tags, tags', log, e);
    }
    forall i | 0 <= i < |servers| && i != s ensures ServerOk(servers[i], i, tags', log + [e]) {
      assert SameCounts(tags, tags', OfForce(i)) && SameCounts(tags, tags', OfTry(i));
      ServerKept(servers[i], i, tags, tags', log, e);
    }
  }

  lemma TryShutdownSound(calls: seq<CallView>, servers: seq<bool>, tags: seq<Tag>, log: seq<CoreEvent>, s: nat)
    requires Sound(calls, servers, tags, log) && s < |servers| && servers[s]
    ensures Sound(calls, servers, tags + [Tag(OfTry(s), [])], log + [ShutdownAsked(s)])
  {
    var tags' := tags + [Tag(OfTry(s), [])];
    forall o: Owner ensures Count(tags', o) == Count(tags, o) + if o == OfTry(s) then 1 else 0 {
      CountSnoc(tags, Tag(OfTry(s), []), o);
    }
    ServerStep(calls, servers, tags, log, s, true, tags', ShutdownAsked(s));
    assert servers[s := true] == servers;
  }

  lemma ForceShutdownSound(calls: seq<CallView>, servers: seq<bool>, tags: seq<Tag>, log: seq<CoreEvent>, s: nat)
    requires Sound(calls, servers, tags, log) && s < |servers| && servers[s]
    ensures Sound(calls, servers[s := false], tags + [Tag(OfForce(s), [])], log + [ShutdownAsked(s)])
  {
    var tags' := tags + [Tag(OfForce(s), [])];
    forall o: Owner ensures Count(tags', o) == Count(tags, o) + if o == OfForce(s) then 1 else 0 {
      CountSnoc(tags, Tag(OfForce(s), []), o);
    }
    ServerStep(calls, servers, tags, log, s, false, tags', ShutdownAsked(s));
  }

  /** TryShutdownOp::OnComplete: destroy on success, unless something else already took
      the server away. */
  function TryEvents(wrapped: bool, success: bool, s: nat): (r: seq<CoreEvent>)
  {
    if !success then [TryFailed(s)] else if wrapped then [Destroyed(s)] else []
  }

  lemma CompleteTrySound(calls: seq<CallView>, servers: seq<bool>, tags: seq<Tag>, log: seq<CoreEvent>,
                         k: nat, success: bool)
    requires Sound(calls, servers, tags, log) && k < |tags| && tags[k].owner.OfTry?
    ensures var s := tags[k].owner.server;
      && s < |servers|
      && Sound(calls, servers[s := servers[s] && !success], Without(tags, k),
               log + TryEvents(servers[s], success, s))
  {
    var s, tags' := tags[k].owner.server, Without(tags, k);
    assert OwnerExists(tags[k].owner, |calls|, |servers|);
    forall o: Owner ensures Count(tags', o) == Count(tags, o) - if o == OfTry(s) then 1 else 0 {
      CountWithout(tags, k, o);
    }
    if success && !servers[s] {
      assert log + [] == log;
      assert servers[s := false] == servers;
    } else {
      var e := if success then Destroyed(s) else TryFailed(s);
      TimesSnoc(log, e, Destroyed(s));
      ServerStep(calls, servers, tags, log, s, servers[s] && !success, tags', e);
    }
  }

  /** ServerShutdownOp::OnComplete destroys the server it was given, unconditionally. */
  lemma CompleteForceSound(calls: seq<CallView>, servers: seq<bool>, tags: seq<Tag>, log: seq<CoreEvent>, k: nat)
    requires Sound(calls, servers, tags, log) && k < |tags| && tags[k].owner.OfForce?
    ensures var s := tags[k].owner.server;
      s < |servers| && Sound(calls, servers, Without(tags, k), log + [Destroyed(s)])
  {
    var s, tags' := tags[k].owner.server, Without(tags, k);
    assert OwnerExists(tags[k].owner, |calls|, |servers|);
    forall o: Owner ensures Count(tags', o) == Count(tags, o) - if o == OfForce(s) then 1 else 0 {
      CountWithout(tags, k, o);
    }
    TimesSnoc(log, Destroyed(s), Destroyed(s));
    ServerStep(calls, servers, tags, log, s, servers[s], tags', Destroyed(s));
    assert servers[s := servers[s]] == servers;
  }

  /** The log only grew, and no graceful shutdown failed meanwhile. */
  ghost predicate NoNewFailure(log: seq<CoreEvent>, log': seq<CoreEvent>)
  {
    log <= log' && forall i :: |log| <= i < |log'| ==> !log'[i].TryFailed?
  }

  lemma NoNewFailureTwice(a: seq<CoreEvent>, b: seq<CoreEvent>, c: seq<CoreEvent>)
    requires NoNewFailure(a, b) && b <= c
    ensures a <= c && (NoNewFailure(b, c) ==> NoNewFailure(a, c))
  {}

  /** Exactly once: a shutdown was asked for, every shutdown tag has completed, and no
      tryShutdown among them failed. */
  lemma DestroyedOnce(calls: seq<CallView>, servers: seq<bool>, tags: seq<Tag>, log: seq<CoreEvent>, s: nat)
    requires Sound(calls, servers, tags, log) && s < |servers|
    ensures Times(log, Destroyed(s)) <= 1
    ensures Destroyed(s) in log ==> ShutdownAsked(s) in log
    ensures ShutdownAsked(s) in log && TryFailed(s) !in log &&
            Count(tags, OfTry(s)) == 0 && Count(tags, OfForce(s)) == 0 ==>
              Times(log, Destroyed(s)) == 1
  {
    assert ServerOk(servers[s], s, tags, log);
  }
}
