/** The acceptor p2p_start and its session threads, interleaved at atomic steps, over the client registry. */
module P2pSessions {
  import opened P2pRegistry

  /** Where a session thread is: before avServStart3 returns, in its request loop on a channel, past it with the
      transport session still open, and past IOTC_Session_Close with only the count left to give back. */
  datatype Phase = Starting | Serving(avIndex: int) | Leaving | Closed

  datatype Session = Session(sid: Sid, phase: Phase)

  /** counting: the acceptor is between creating a thread and incrementing gOnlineNum.
      phantoms: thread creations that failed with a positive code and were counted all the same. */
  datatype System = System(registry: Registry, online: int, counting: bool, sessions: map<nat, Session>, phantoms: nat)

  const INITIAL: System := System(FRESH, 0, false, map[], 0)

  datatype Step =
    | Listen(thread: nat, sid: Sid, createResult: int)
    | CountOnline
    | Started(thread: nat, avIndex: int)
    | StartVideo(thread: nat)
    | StopVideo(thread: nat)
    | EndRequests(thread: nat)
    | CloseSession(thread: nat)
    | Exit(thread: nat)
    | Send(result: nat -> Sent)

  ghost predicate InPhase(s: System, t: nat, p: Phase) {
    t in s.sessions && s.sessions[t].phase == p
  }

  ghost predicate IsServing(s: System, t: nat) {
    t in s.sessions && s.sessions[t].phase.Serving?
  }

  /** When a step can happen. IOTC_Listen returns a SID with no open session, and a new thread is a new thread. */
  ghost predicate Can(s: System, step: Step) {
    match step
    case Listen(t, sid, _) =>
      && !s.counting && t !in s.sessions
      && forall u :: u in s.sessions && s.sessions[u].sid == sid ==> s.sessions[u].phase == Closed
    case CountOnline => s.counting
    case Started(t, _) => InPhase(s, t, Starting)
    case StartVideo(t) => IsServing(s, t)
    case StopVideo(t) => IsServing(s, t)
    case EndRequests(t) => IsServing(s, t)
    case CloseSession(t) => InPhase(s, t, Leaving)
    case Exit(t) => InPhase(s, t, Closed)
    case Send(_) => true
  }

  function Move(s: System, t: nat, p: Phase): System
    requires t in s.sessions
  {
    s.(sessions := s.sessions[t := s.sessions[t].(phase := p)])
  }

  /** The registry calls a step makes. */
  function Calls(s: System, step: Step): seq<Op> {
    match step
    case StartVideo(t) =>
      if t in s.sessions && s.sessions[t].phase.Serving? then
        [Register(s.sessions[t].sid, s.sessions[t].phase.avIndex)]
      else []
    case StopVideo(t) => if t in s.sessions then [Unregister(s.sessions[t].sid)] else []
    case EndRequests(t) => if t in s.sessions then [Unregister(s.sessions[t].sid)] else []
    case Send(result) => if s.registry.sendStatus == 0 then [] else Drops(s.registry.clients, result)
    case _ => []
  }

  ghost function Do(s: System, step: Step): System
    requires Can(s, step)
  {
    var r := s.(registry := ApplyAll(s.registry, Calls(s, step)));
    match step
    case Listen(t, sid, result) =>
      if result < 0 then r
      else if result == 0 then r.(counting := true, sessions := s.sessions[t := Session(sid, Starting)])
      else r.(counting := true, phantoms := s.phantoms + 1)
    case CountOnline => r.(counting := false, online := s.online + 1)
    case Started(t, avIndex) => Move(r, t, if avIndex < 0 then Leaving else Serving(avIndex))
    case StartVideo(_) => r
    case StopVideo(_) => r
    case EndRequests(t) => Move(r, t, Leaving)
    case CloseSession(t) => Move(r, t, Closed)
    case Exit(t) => r.(online := s.online - 1, sessions := s.sessions - {t})
    case Send(_) => r
  }

  ghost predicate CanAll(s: System, steps: seq<Step>)
    decreases |steps|
  {
    steps == [] || (Can(s, steps[0]) && CanAll(Do(s, steps[0]), steps[1..]))
  }

  ghost function DoAll(s: System, steps: seq<Step>): System
    requires CanAll(s, steps)
    decreases |steps|
  {
    if steps == [] then s else DoAll(Do(s, steps[0]), steps[1..])
  }

  /** The registry calls of a whole run, in order. */
  ghost function AllCalls(s: System, steps: seq<Step>): seq<Op>
    requires CanAll(s, steps)
    decreases |steps|
  {
    if steps == [] then [] else Calls(s, steps[0]) + AllCalls(Do(s, steps[0]), steps[1..])
  }

  /** gOnlineNum: threads that have not yet given back their count, plus phantoms, less the one not yet added. */
  ghost predicate OnlineExact(s: System) {
    s.online == |s.sessions.Keys| + s.phantoms - if s.counting then 1 else 0
  }

  ghost predicate IsOpen(s: System, t: nat) {
    t in s.sessions && s.sessions[t].phase != Closed
  }

  /** Sessions that are not closed have different SIDs. */
  ghost predicate OneOwner(s: System) {
    forall t, u :: IsOpen(s, t) && IsOpen(s, u) && s.sessions[t].sid == s.sessions[u].sid ==> t == u
  }

  ghost predicate Owned(s: System, i: Sid) {
    exists t :: t in s.sessions && s.sessions[t] == Session(i, Serving(s.registry.clients[i].avIndex))
  }

  /** Every enabled client belongs to a session in its request loop, on the channel that session opened. */
  ghost predicate EnabledAreServed(s: System) {
    forall i: Sid :: s.registry.clients[i].enableVideo ==> Owned(s, i)
  }

  ghost predicate Invariant(s: System) {
    OnlineExact(s) && OneOwner(s) && EnabledAreServed(s)
  }

  lemma OneCall(r: Registry, op: Op)
    ensures ApplyAll(r, [op]) == Apply(r, op)
  {
    assert [op][..0] == [];
  }

  /** Which threads there are after a step. */
  lemma ThreadsAfter(s: System, step: Step)
    requires Can(s, step)
    ensures Do(s, step).sessions.Keys ==
      if step.Listen? && step.createResult == 0 then s.sessions.Keys + {step.thread}
      else if step.Exit? then s.sessions.Keys - {step.thread}
      else s.sessions.Keys
  {
    hide ApplyAll;
  }

  lemma OnlineKeeps(s: System, step: Step)
    requires OnlineExact(s) && Can(s, step)
    ensures OnlineExact(Do(s, step))
  {
    ThreadsAfter(s, step);
    hide ApplyAll;
    hide Calls;
  }

  lemma OwnerKeeps(s: System, step: Step)
    requires OneOwner(s) && Can(s, step)
    ensures OneOwner(Do(s, step))
  {
    hide ApplyAll;
  }

  lemma ServedKeeps(s: System, step: Step)
    requires OneOwner(s) && EnabledAreServed(s) && Can(s, step)
    ensures EnabledAreServed(Do(s, step))
  {
    var u := Do(s, step);
    if step.StartVideo? || step.StopVideo? || step.EndRequests? {
      OneCall(s.registry, Calls(s, step)[0]);
    } else if step.Send? {
      BroadcastDisables(s.registry, step.result);
    }
    forall i: Sid | u.registry.clients[i].enableVideo
      ensures Owned(u, i)
    {
      if step.StartVideo? && i == s.sessions[step.thread].sid {
        assert u.sessions[step.thread] == Session(i, Serving(u.registry.clients[i].avIndex));
      } else {
        assert Owned(s, i);
        var t :| t in s.sessions && s.sessions[t] == Session(i, Serving(s.registry.clients[i].avIndex));
        assert u.sessions[t] == s.sessions[t];
      }
    }
  }

  /** In every schedule of acceptor, session and broadcaster steps the invariant holds. */
  lemma {:induction false} EverySchedule(s: System, steps: seq<Step>)
    requires Invariant(s) && CanAll(s, steps)
    ensures Invariant(DoAll(s, steps))
    decreases |steps|
  {
    if steps != [] {
      OnlineKeeps(s, steps[0]);
      OwnerKeeps(s, steps[0]);
      ServedKeeps(s, steps[0]);
      EverySchedule(Do(s, steps[0]), steps[1..]);
    }
  }

  lemma InitialInvariant()
    ensures Invariant(INITIAL)
  {
  }

  /** gOnlineNum in every schedule: exact, never below -1, and short of the live threads only inside the acceptor's
      window between creating a thread and counting it. */
  lemma OnlineCount(steps: seq<Step>)
    requires CanAll(INITIAL, steps)
    ensures var s := DoAll(INITIAL, steps);
      && s.online == |s.sessions.Keys| + s.phantoms - (if s.counting then 1 else 0)
      && s.online >= -1
      && (s.online < |s.sessions.Keys| <==> s.counting && s.phantoms == 0)
  {
    InitialInvariant();
    EverySchedule(INITIAL, steps);
  }

  /** A broadcast reaches only sessions that are in their request loop, each on the channel it opened. */
  lemma FramesGoToServingSessions(steps: seq<Step>, i: Sid)
    requires CanAll(INITIAL, steps) && i in Recipients(DoAll(INITIAL, steps).registry.clients)
    ensures var s := DoAll(INITIAL, steps); Owned(s, i) && s.registry.clients[i].avIndex >= 0
  {
    InitialInvariant();
    EverySchedule(INITIAL, steps);
    RecipientsExactly(DoAll(INITIAL, steps).registry.clients);
  }

  lemma {:induction false} ApplyJoined(r: Registry, first: seq<Op>, last: seq<Op>)
    ensures ApplyAll(r, first + last) == ApplyAll(ApplyAll(r, first), last)
    decreases |last|
  {
    hide Apply;
    if last == [] {
      assert first + last == first;
    } else {
      var n := |last| - 1;
      ApplyJoined(r, first, last[..n]);
      assert first + last == (first + last[..n]) + [last[n]];
      ApplyLast(r, first + last[..n], last[n]);
      ApplyLast(ApplyAll(r, first), last[..n], last[n]);
      assert last == last[..n] + [last[n]];
    }
  }

  /** The registry after a schedule is what its calls, in order, make of it: the laws about call traces apply. */
  lemma {:induction false} CallsMakeRegistry(s: System, steps: seq<Step>)
    requires CanAll(s, steps)
    ensures DoAll(s, steps).registry == ApplyAll(s.registry, AllCalls(s, steps))
    decreases |steps|
  {
    if steps != [] {
      CallsMakeRegistry(Do(s, steps[0]), steps[1..]);
      ApplyJoined(s.registry, Calls(s, steps[0]), AllCalls(Do(s, steps[0]), steps[1..]));
      hide ApplyAll;
      assert Do(s, steps[0]).registry == ApplyAll(s.registry, Calls(s, steps[0]));
    }
  }

  /** When a schedule leaves an enabled client starved, from its calls alone. */
  lemma StarvedSchedules(steps: seq<Step>)
    requires CanAll(INITIAL, steps)
    ensures var calls := AllCalls(INITIAL, steps);
      Starved(DoAll(INITIAL, steps).registry) <==>
        (forall k :: 0 <= k <= |calls| ==> Net(calls[k..]) <= 0) && exists sid: Sid :: LastRegisters(calls, sid)
  {
    CallsMakeRegistry(INITIAL, steps);
    StarvedExactly(AllCalls(INITIAL, steps));
  }

  /** A session thread always unregisters its client on the way out. While the counter covers the enabled clients, its
      leaving keeps them covered iff its own client is enabled, or there is slack, or the counter is zero. */
  lemma LeavingCoversExactly(s: System, t: nat)
    requires Can(s, EndRequests(t)) && Slack(s.registry) >= 0
    ensures Slack(Do(s, EndRequests(t)).registry) >= 0 <==>
      s.registry.clients[s.sessions[t].sid].enableVideo || Slack(s.registry) > 0 || s.registry.sendStatus == 0
  {
    var sid := s.sessions[t].sid;
    OneCall(s.registry, Unregister(sid));
    UnregisterCoversExactly(s.registry, sid);
    hide ApplyAll;
    hide Apply;
  }

  lemma FirstStep(s: System, step: Step, rest: seq<Step>)
    requires Can(s, step)
    ensures CanAll(s, [step] + rest) <==> CanAll(Do(s, step), rest)
    ensures CanAll(Do(s, step), rest) ==> DoAll(s, [step] + rest) == DoAll(Do(s, step), rest)
  {
    assert ([step] + rest)[1..] == rest;
    hide Do;
  }

  lemma {:induction false} RunsJoin(s: System, first: seq<Step>, last: seq<Step>)
    requires CanAll(s, first)
    ensures CanAll(s, first + last) <==> CanAll(DoAll(s, first), last)
    ensures CanAll(s, first + last) ==> DoAll(s, first + last) == DoAll(DoAll(s, first), last)
    decreases |first|
  {
    if first == [] {
      assert first + last == last;
    } else {
      hide Do;
      hide Can;
      var rest := first[1..];
      RunsJoin(Do(s, first[0]), rest, last);
      assert first + last == [first[0]] + (rest + last);
      FirstStep(s, first[0], rest + last);
    }
  }

  // ---- schedules in which nobody is starved ----

  ghost predicate IsEnabled(s: System, t: nat)
    requires t in s.sessions
  {
    s.registry.clients[s.sessions[t].sid].enableVideo
  }

  /** A session that stops video, or ends, finds its client enabled. */
  ghost predicate QuitsEnabled(s: System, step: Step)
    requires Can(s, step)
  {
    step.StopVideo? || step.EndRequests? ==> IsEnabled(s, step.thread)
  }

  /** A session that starts video finds its client disabled. */
  ghost predicate StartsDisabled(s: System, step: Step)
    requires Can(s, step)
  {
    step.StartVideo? ==> !IsEnabled(s, step.thread)
  }

  ghost predicate AllQuitEnabled(s: System, steps: seq<Step>)
    requires CanAll(s, steps)
    decreases |steps|
  {
    steps == [] || (QuitsEnabled(s, steps[0]) && AllQuitEnabled(Do(s, steps[0]), steps[1..]))
  }

  ghost predicate AllStartDisabled(s: System, steps: seq<Step>)
    requires CanAll(s, steps)
    decreases |steps|
  {
    steps == [] || (StartsDisabled(s, steps[0]) && AllStartDisabled(Do(s, steps[0]), steps[1..]))
  }

  lemma StepCovers(s: System, step: Step)
    requires Can(s, step) && Slack(s.registry) >= 0 && QuitsEnabled(s, step)
    ensures Slack(Do(s, step).registry) >= Slack(s.registry)
    ensures Slack(s.registry) == 0 && StartsDisabled(s, step) ==> Slack(Do(s, step).registry) == 0
  {
    var r := s.registry;
    if step.StartVideo? || step.StopVideo? || step.EndRequests? {
      var op := Calls(s, step)[0];
      OneCall(r, op);
      SlackAfter(r, op);
      EnabledIsCounted(r, op.sid);
    } else if step.Send? {
      BroadcastCovers(r, step.result);
    }
    hide Slack;
    hide Apply;
  }

  /** No schedule starves anyone as long as sessions that stop video, or end, find their client enabled: broadcasts need
      no condition. The counter is then exact if sessions that start video also find their client disabled. */
  lemma {:induction false} ScheduleCovers(s: System, steps: seq<Step>)
    requires CanAll(s, steps) && Slack(s.registry) >= 0 && AllQuitEnabled(s, steps)
    ensures Slack(DoAll(s, steps).registry) >= 0 && !Starved(DoAll(s, steps).registry)
    ensures Slack(s.registry) == 0 && AllStartDisabled(s, steps) ==> Slack(DoAll(s, steps).registry) == 0
    decreases |steps|
  {
    if steps == [] {
      if i :| i in Enabled(s.registry) { EnabledIsCounted(s.registry, i); }
    } else {
      StepCovers(s, steps[0]);
      hide Slack;
      hide Starved;
      hide Do;
      hide Can;
      ScheduleCovers(Do(s, steps[0]), steps[1..]);
    }
  }

  lemma FreshHasNoSlack()
    ensures Slack(INITIAL.registry) == 0
  {
    assert Enabled(FRESH) == {};
  }

  /** The same from the start. */
  lemma TidySchedules(steps: seq<Step>)
    requires CanAll(INITIAL, steps) && AllQuitEnabled(INITIAL, steps)
    ensures Slack(DoAll(INITIAL, steps).registry) >= 0 && !Starved(DoAll(INITIAL, steps).registry)
    ensures AllStartDisabled(INITIAL, steps) ==> Slack(DoAll(INITIAL, steps).registry) == 0
  {
    FreshHasNoSlack();
    ScheduleCovers(INITIAL, steps);
  }
}
