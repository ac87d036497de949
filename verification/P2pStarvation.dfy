/** Two schedules that leave an enabled client starved. */
module P2pStarvation {
  import opened P2pRegistry
  import opened P2pSessions

  /** Two clients connect, as threads 0 and 1 with SIDs and channels 0 and 1. */
  const TWO_CONNECT: seq<Step> := [
    Listen(0, 0, 0), CountOnline, Started(0, 0),
    Listen(1, 1, 0), CountOnline, Started(1, 1)]

  /** One starts video; the other, which never did, disconnects. */
  const QUIET_DISCONNECT: seq<Step> := TWO_CONNECT + [StartVideo(1), EndRequests(0)]

  function ZeroHasClosed(sid: nat): Sent {
    if sid == 0 then ClosedByRemote else Delivered
  }

  /** Both start video; a broadcast finds that client 0 is gone and drops it, and then its thread ends. */
  const DROPPED_DISCONNECT: seq<Step> :=
    TWO_CONNECT + [StartVideo(0), StartVideo(1), Send(ZeroHasClosed), EndRequests(0)]

  const TWO_CONNECTED: System :=
    System(FRESH, 2, false, map[0 := Session(0, Serving(0)), 1 := Session(1, Serving(1))], 0)

  lemma TwoConnect()
    ensures CanAll(INITIAL, TWO_CONNECT) && DoAll(INITIAL, TWO_CONNECT) == TWO_CONNECTED
  {
    var s1 := Do(INITIAL, Listen(0, 0, 0));
    var s2 := Do(s1, CountOnline);
    var s3 := Do(s2, Started(0, 0));
    var s4 := Do(s3, Listen(1, 1, 0));
    var s5 := Do(s4, CountOnline);
    var s6 := Do(s5, Started(1, 1));
    assert s6 == TWO_CONNECTED;
    hide Do;
    FirstStep(INITIAL, Listen(0, 0, 0), [CountOnline, Started(0, 0), Listen(1, 1, 0), CountOnline, Started(1, 1)]);
    FirstStep(s1, CountOnline, [Started(0, 0), Listen(1, 1, 0), CountOnline, Started(1, 1)]);
    FirstStep(s2, Started(0, 0), [Listen(1, 1, 0), CountOnline, Started(1, 1)]);
    FirstStep(s3, Listen(1, 1, 0), [CountOnline, Started(1, 1)]);
    FirstStep(s4, CountOnline, [Started(1, 1)]);
    FirstStep(s5, Started(1, 1), []);
  }

  /** It does happen: a session that never started video takes the count of one that did. */
  lemma QuietDisconnectStarves()
    ensures CanAll(INITIAL, QUIET_DISCONNECT) && Starved(DoAll(INITIAL, QUIET_DISCONNECT).registry)
  {
    var steps := [StartVideo(1), EndRequests(0)];
    var s1 := Do(TWO_CONNECTED, StartVideo(1));
    var s2 := Do(s1, EndRequests(0));
    OneCall(FRESH, Register(1, 1));
    OneCall(s1.registry, Unregister(0));
    assert 1 in Enabled(s2.registry);
    TwoConnect();
    RunsJoin(INITIAL, TWO_CONNECT, steps);
    FirstStep(TWO_CONNECTED, StartVideo(1), [EndRequests(0)]);
    FirstStep(s1, EndRequests(0), []);
  }

  /** And without anyone being quiet: a streaming client goes away, is dropped by a broadcast, and is then unregistered
      a second time by its own thread, at the expense of the other streaming client. */
  lemma DroppedDisconnectStarves()
    ensures CanAll(INITIAL, DROPPED_DISCONNECT) && Starved(DoAll(INITIAL, DROPPED_DISCONNECT).registry)
  {
    var steps := [StartVideo(0), StartVideo(1), Send(ZeroHasClosed), EndRequests(0)];
    var s1 := Do(TWO_CONNECTED, StartVideo(0));
    var s2 := Do(s1, StartVideo(1));
    var s3 := Do(s2, Send(ZeroHasClosed));
    OneCall(FRESH, Register(0, 0));
    OneCall(s1.registry, Register(1, 1));
    OneCall(s3.registry, Unregister(0));
    TwoOfTwo(s2.registry);
    DropAndLeave(s2.registry, ZeroHasClosed, 0);
    TwoConnect();
    RunsJoin(INITIAL, TWO_CONNECT, steps);
    FirstStep(TWO_CONNECTED, StartVideo(0), steps[1..]);
    FirstStep(s1, StartVideo(1), steps[2..]);
    FirstStep(s2, Send(ZeroHasClosed), steps[3..]);
    FirstStep(s3, EndRequests(0), []);
  }

  lemma TwoOfTwo(r: Registry)
    requires r == Apply(Apply(FRESH, Register(0, 0)), Register(1, 1))
    ensures Slack(r) == 0 && |Enabled(r)| == 2 && Failing(r.clients, ZeroHasClosed) == {0}
  {
    assert Enabled(r) == {0, 1};
    assert Failing(r.clients, ZeroHasClosed) == {0};
  }
}
