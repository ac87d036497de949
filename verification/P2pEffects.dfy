/** What each step of the acceptor, the session threads and the broadcaster does to the system, stated without the
    registry calls it makes, and what a whole schedule leaves behind. */
module P2pEffects {
  import opened P2pRegistry
  import opened P2pSessions

  // ---- requests ----

  /** START enables the session's client on the channel the session opened, and counts it. */
  lemma StartDoes(s: System, t: nat)
    requires Can(s, StartVideo(t))
    ensures var u, i := Do(s, StartVideo(t)), s.sessions[t].sid;
      && u.registry.clients == s.registry.clients[i := Client(s.sessions[t].phase.avIndex, true)]
      && u.registry.sendStatus == s.registry.sendStatus + 1
      && u == s.(registry := u.registry)
  {
    OneCall(s.registry, Calls(s, StartVideo(t))[0]);
    hide ApplyAll;
  }

  /** STOP disables the session's client, whatever it was, and counts down, not below zero. */
  lemma StopDoes(s: System, t: nat)
    requires Can(s, StopVideo(t))
    ensures var u, i := Do(s, StopVideo(t)), s.sessions[t].sid;
      && u.registry.clients == s.registry.clients[i := Client(s.registry.clients[i].avIndex, false)]
      && u.registry.sendStatus == (if s.registry.sendStatus > 0 then s.registry.sendStatus - 1 else 0)
      && u == s.(registry := u.registry)
  {
    OneCall(s.registry, Calls(s, StopVideo(t))[0]);
    hide ApplyAll;
  }

  /** The end of the request loop does the same, and the session is past it. */
  lemma EndDoes(s: System, t: nat)
    requires Can(s, EndRequests(t))
    ensures var u, i := Do(s, EndRequests(t)), s.sessions[t].sid;
      && u.registry.clients == s.registry.clients[i := Client(s.registry.clients[i].avIndex, false)]
      && u.registry.sendStatus == (if s.registry.sendStatus > 0 then s.registry.sendStatus - 1 else 0)
      && u == s.(registry := u.registry, sessions := s.sessions[t := Session(i, Leaving)])
  {
    OneCall(s.registry, Calls(s, EndRequests(t))[0]);
    hide ApplyAll;
  }

  /** A broadcast changes the registry as BroadcastExactly says, and nothing else; steps that are neither requests nor
      broadcasts leave the registry alone. */
  lemma OthersDo(s: System, step: Step)
    requires Can(s, step) && !step.StartVideo? && !step.StopVideo? && !step.EndRequests?
    ensures step.Send? ==> Do(s, step) == s.(registry := Broadcast(s.registry, step.result))
    ensures !step.Send? ==> Do(s, step).registry == s.registry
  {
    assert ApplyAll(s.registry, []) == s.registry;
  }

  // ---- the acceptor and the life of a session ----

  /** Accepting: a failed creation with a negative code changes nothing; one with a positive code is counted, without a
      thread; otherwise there is a new thread, not yet counted. */
  lemma ListenDoes(s: System, t: nat, sid: Sid, result: int)
    requires Can(s, Listen(t, sid, result))
    ensures var u := Do(s, Listen(t, sid, result));
      if result < 0 then u == s
      else if result > 0 then u == s.(counting := true, phantoms := s.phantoms + 1)
      else u == s.(counting := true, sessions := s.sessions[t := Session(sid, Starting)])
  {
    OthersDo(s, Listen(t, sid, result));
    hide ApplyAll;
  }

  /** Only CountOnline and a thread's exit change the online count, by one. */
  lemma OnlineChanges(s: System, step: Step)
    requires Can(s, step)
    ensures Do(s, step).online == s.online + if step.CountOnline? then 1 else if step.Exit? then -1 else 0
    ensures step.CountOnline? ==> Do(s, step) == s.(counting := false, online := s.online + 1)
  {
    if step.CountOnline? { OthersDo(s, step); }
    hide ApplyAll;
    hide Calls;
  }

  /** A session never changes its SID, and moves through its phases in order, each by its own step: a start that fails
      goes straight past the request loop. */
  lemma PhaseAfter(s: System, step: Step, t: nat)
    requires Can(s, step) && t in s.sessions
    ensures t !in Do(s, step).sessions <==> step == Exit(t)
    ensures t in Do(s, step).sessions ==>
      Do(s, step).sessions[t] == Session(s.sessions[t].sid,
        if step.Started? && step.thread == t then (if step.avIndex < 0 then Leaving else Serving(step.avIndex))
        else if step == EndRequests(t) then Leaving
        else if step == CloseSession(t) then Closed
        else s.sessions[t].phase)
  {
    hide ApplyAll;
    hide Calls;
  }

  lemma NoOtherThreads(s: System, step: Step, t: nat)
    requires Can(s, step) && t !in s.sessions
    ensures t in Do(s, step).sessions ==> step.Listen? && step.thread == t && step.createResult == 0
    ensures t in Do(s, step).sessions ==> Do(s, step).sessions[t] == Session(step.sid, Starting)
  {
    hide ApplyAll;
    hide Calls;
  }

  // ---- whole schedules ----

  lemma {:induction false} CanPrefix(s: System, steps: seq<Step>, j: nat)
    requires CanAll(s, steps) && j <= |steps|
    ensures CanAll(s, steps[..j])
    decreases j
  {
    if j > 0 {
      CanPrefix(Do(s, steps[0]), steps[1..], j - 1);
      assert steps[..j][1..] == steps[1..][..j - 1];
      hide Do;
      hide Can;
    }
  }

  /** The system after the first j steps. */
  ghost function At(s: System, steps: seq<Step>, j: nat): System
    requires j <= |steps|
  {
    if j == 0 then s
    else
      var u := At(s, steps, j - 1);
      if Can(u, steps[j - 1]) then Do(u, steps[j - 1]) else u
  }

  lemma {:induction false} AtIs(s: System, steps: seq<Step>, j: nat)
    requires CanAll(s, steps) && j <= |steps|
    ensures CanAll(s, steps[..j]) && At(s, steps, j) == DoAll(s, steps[..j])
    ensures j < |steps| ==> Can(At(s, steps, j), steps[j])
  {
    hide Do;
    hide Can;
    CanPrefix(s, steps, j);
    if j > 0 {
      AtIs(s, steps, j - 1);
      RunsJoin(s, steps[..j - 1], [steps[j - 1]]);
      assert steps[..j] == steps[..j - 1] + [steps[j - 1]];
    }
    if j < |steps| {
      CanPrefix(s, steps, j + 1);
      assert steps[..j + 1] == steps[..j] + [steps[j]];
      RunsJoin(s, steps[..j], [steps[j]]);
    }
  }

  lemma AtEnds(s: System, steps: seq<Step>)
    requires CanAll(s, steps)
    ensures At(s, steps, |steps|) == DoAll(s, steps)
  {
    AtIs(s, steps, |steps|);
    assert steps[..|steps|] == steps;
  }

  /** One step after the other. */
  lemma AtNext(s: System, steps: seq<Step>, j: nat)
    requires CanAll(s, steps) && j < |steps|
    ensures Can(At(s, steps, j), steps[j]) && At(s, steps, j + 1) == Do(At(s, steps, j), steps[j])
  {
    AtIs(s, steps, j);
    hide Do;
    hide Can;
  }

  /** A START on the SID. */
  ghost predicate TurnsOn(s: System, step: Step, i: Sid) {
    step.StartVideo? && step.thread in s.sessions && s.sessions[step.thread].sid == i
  }

  /** A STOP or the end of a session on the SID, or a broadcast that is not skipped and finds the other end gone. */
  ghost predicate TurnsOff(s: System, step: Step, i: Sid) {
    || ((step.StopVideo? || step.EndRequests?) && step.thread in s.sessions && s.sessions[step.thread].sid == i)
    || (step.Send? && s.registry.sendStatus > 0 && s.registry.clients[i].avIndex >= 0
        && step.result(i) in {ClosedByRemote, RemoteTimeout, InvalidSid})
  }

  lemma StepSwitches(s: System, step: Step, i: Sid)
    requires Can(s, step)
    ensures Do(s, step).registry.clients[i].enableVideo <==>
      TurnsOn(s, step, i) || (s.registry.clients[i].enableVideo && !TurnsOff(s, step, i))
  {
    if step.StartVideo? {
      StartDoes(s, step.thread);
    } else if step.StopVideo? {
      StopDoes(s, step.thread);
    } else if step.EndRequests? {
      EndDoes(s, step.thread);
    } else {
      OthersDo(s, step);
      if step.Send? { BroadcastExactly(s.registry, step.result); }
    }
    hide Do;
    hide Broadcast;
  }

  /** Step k turned the client on, and none of the steps after it, before the j-th, turned it off. */
  ghost predicate OnSince(s: System, steps: seq<Step>, i: Sid, k: nat, j: nat)
    requires j <= |steps|
  {
    k < j && TurnsOn(At(s, steps, k), steps[k], i) && forall l :: k < l < j ==> !TurnsOff(At(s, steps, l), steps[l], i)
  }

  lemma OnSinceNext(s: System, steps: seq<Step>, i: Sid, j: nat, next: nat)
    requires j < next == j + 1 <= |steps|
    ensures (exists k :: OnSince(s, steps, i, k, next)) <==>
      || TurnsOn(At(s, steps, j), steps[j], i)
      || ((exists k :: OnSince(s, steps, i, k, j)) && !TurnsOff(At(s, steps, j), steps[j], i))
  {
    hide At;
    hide TurnsOn;
    hide TurnsOff;
    if k: nat :| OnSince(s, steps, i, k, next) {
      if k < j { assert OnSince(s, steps, i, k, j); }
    }
    if TurnsOn(At(s, steps, j), steps[j], i) { assert OnSince(s, steps, i, j, next); }
    if k: nat :| OnSince(s, steps, i, k, j) && !TurnsOff(At(s, steps, j), steps[j], i) {
      assert OnSince(s, steps, i, k, next);
    }
  }

  /** From a system in which the client is disabled. */
  lemma {:induction false} EnabledAfter(s: System, steps: seq<Step>, i: Sid, j: nat)
    requires CanAll(s, steps) && j <= |steps| && !s.registry.clients[i].enableVideo
    ensures At(s, steps, j).registry.clients[i].enableVideo <==> exists k :: OnSince(s, steps, i, k, j)
    decreases j
  {
    if j == 0 {
      assert At(s, steps, j) == s;
    } else {
      EnabledAfter(s, steps, i, j - 1);
      AtNext(s, steps, j - 1);
      StepSwitches(At(s, steps, j - 1), steps[j - 1], i);
      OnSinceNext(s, steps, i, j - 1, j);
      hide *;
    }
  }

  /** Step k was the thread's successful start on the channel, and it has not left its request loop since. */
  ghost predicate ServingSince(steps: seq<Step>, t: nat, avIndex: int, k: nat, j: nat)
    requires j <= |steps|
  {
    k < j && steps[k] == Started(t, avIndex) && avIndex >= 0 && forall l :: k < l < j ==> steps[l] != EndRequests(t)
  }

  lemma StepServing(s: System, step: Step, t: nat, avIndex: int)
    requires Can(s, step)
    ensures InPhase(Do(s, step), t, Serving(avIndex)) <==>
      (step == Started(t, avIndex) && avIndex >= 0) || (InPhase(s, t, Serving(avIndex)) && step != EndRequests(t))
  {
    if t in s.sessions {
      PhaseAfter(s, step, t);
    } else {
      NoOtherThreads(s, step, t);
    }
    hide Do;
  }

  lemma ServingSinceNext(steps: seq<Step>, t: nat, avIndex: int, j: nat, next: nat)
    requires j < next == j + 1 <= |steps|
    ensures (exists k :: ServingSince(steps, t, avIndex, k, next)) <==>
      || (steps[j] == Started(t, avIndex) && avIndex >= 0)
      || ((exists k :: ServingSince(steps, t, avIndex, k, j)) && steps[j] != EndRequests(t))
  {
    if k: nat :| ServingSince(steps, t, avIndex, k, next) {
      if k < j { assert ServingSince(steps, t, avIndex, k, j); }
    }
    if steps[j] == Started(t, avIndex) && avIndex >= 0 { assert ServingSince(steps, t, avIndex, j, next); }
    if k: nat :| ServingSince(steps, t, avIndex, k, j) && steps[j] != EndRequests(t) {
      assert ServingSince(steps, t, avIndex, k, next);
    }
  }

  /** From a system without the thread. */
  lemma {:induction false} ServingAfter(s: System, steps: seq<Step>, t: nat, avIndex: int, j: nat)
    requires CanAll(s, steps) && j <= |steps| && t !in s.sessions
    ensures InPhase(At(s, steps, j), t, Serving(avIndex)) <==> exists k :: ServingSince(steps, t, avIndex, k, j)
    decreases j
  {
    if j == 0 {
      assert At(s, steps, j) == s;
    } else {
      ServingAfter(s, steps, t, avIndex, j - 1);
      AtNext(s, steps, j - 1);
      StepServing(At(s, steps, j - 1), steps[j - 1], t, avIndex);
      ServingSinceNext(steps, t, avIndex, j - 1, j);
      hide *;
    }
  }

  /** In every schedule a client is enabled exactly when some START turned it on and no STOP, session end or terminal
      send has turned it off since. */
  lemma EnabledIsLastSwitch(steps: seq<Step>, i: Sid)
    requires CanAll(INITIAL, steps)
    ensures DoAll(INITIAL, steps).registry.clients[i].enableVideo <==>
      exists k :: OnSince(INITIAL, steps, i, k, |steps|)
  {
    EnabledAfter(INITIAL, steps, i, |steps|);
    AtEnds(INITIAL, steps);
    hide OnSince;
  }

  /** In every schedule a thread is in its request loop exactly when its start succeeded, on that channel, and the loop
      has not ended since: a start that fails never gets there. */
  lemma ServingHasStarted(steps: seq<Step>, t: nat, avIndex: int)
    requires CanAll(INITIAL, steps)
    ensures InPhase(DoAll(INITIAL, steps), t, Serving(avIndex)) <==>
      exists k :: ServingSince(steps, t, avIndex, k, |steps|)
  {
    ServingAfter(INITIAL, steps, t, avIndex, |steps|);
    AtEnds(INITIAL, steps);
    hide ServingSince;
  }
}
