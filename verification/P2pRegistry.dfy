/** The table of P2P clients and p2p_send_status, the saturating counter that gates broadcasting. */
module P2pRegistry {

  const MAX_CLIENT_NUMBER: nat := 128

  datatype Client = Client(avIndex: int, enableVideo: bool)

  type Clients = s: seq<Client> | |s| == MAX_CLIENT_NUMBER witness seq(MAX_CLIENT_NUMBER, _ => Client(-1, false))

  type Sid = n: nat | n < MAX_CLIENT_NUMBER

  datatype Registry = Registry(clients: Clients, sendStatus: nat)

  /** Calls of regedit_client_to_video and unregedit_client_from_video, each one atomic step. */
  datatype Op = Register(sid: Sid, avIndex: int) | Unregister(sid: Sid)

  function Apply(r: Registry, op: Op): Registry {
    match op
    case Register(sid, avIndex) => Registry(r.clients[sid := Client(avIndex, true)], r.sendStatus + 1)
    case Unregister(sid) =>
      var clients := r.clients[sid := r.clients[sid].(enableVideo := false)];
      Registry(clients, if r.sendStatus > 0 then r.sendStatus - 1 else 0)
  }

  /** After InitAVInfo. */
  const FRESH: Registry := Registry(seq(MAX_CLIENT_NUMBER, _ => Client(-1, false)), 0)

  function ApplyAll(r: Registry, trace: seq<Op>): Registry
    decreases |trace|
  {
    if trace == [] then r else Apply(ApplyAll(r, trace[..|trace| - 1]), trace[|trace| - 1])
  }

  // ---- the counter is a reflected walk ----

  /** Registers minus unregisters. */
  function Net(trace: seq<Op>): int
    decreases |trace|
  {
    if trace == [] then 0 else Net(trace[..|trace| - 1]) + if trace[|trace| - 1].Register? then 1 else -1
  }

  lemma NetOfSuffix(trace: seq<Op>, k: nat)
    requires k < |trace|
    ensures Net(trace[k..]) == Net(trace[..|trace| - 1][k..]) + if trace[|trace| - 1].Register? then 1 else -1
  {
    var n := |trace| - 1;
    assert trace[k..][..n - k] == trace[..n][k..];
  }

  /** s is the larger of the starting value plus the whole net, and the largest net of any suffix, the empty one
      included. */
  ghost predicate IsReflection(start: nat, trace: seq<Op>, s: int) {
    && s >= start + Net(trace)
    && (forall k :: 0 <= k <= |trace| ==> s >= Net(trace[k..]))
    && (s == start + Net(trace) || exists k :: 0 <= k <= |trace| && s == Net(trace[k..]))
  }

  /** Reflection law: the counter after any trace, from any start. */
  lemma {:induction false} CounterIsReflection(r: Registry, trace: seq<Op>)
    ensures IsReflection(r.sendStatus, trace, ApplyAll(r, trace).sendStatus)
    decreases |trace|
  {
    if trace != [] {
      var n := |trace| - 1;
      var before, s := ApplyAll(r, trace[..n]).sendStatus, ApplyAll(r, trace).sendStatus;
      var d: int := if trace[n].Register? then 1 else -1;
      CounterIsReflection(r, trace[..n]);
      assert trace[n + 1..] == [];
      forall k | 0 <= k <= n + 1
        ensures s >= Net(trace[k..])
      {
        if k <= n { NetOfSuffix(trace, k); }
      }
      if before + d < 0 {
        assert s == Net(trace[n + 1..]);
      } else if before != r.sendStatus + Net(trace[..n]) {
        var k :| 0 <= k <= n && before == Net(trace[..n][k..]);
        NetOfSuffix(trace, k);
        assert s == Net(trace[k..]);
      }
    }
  }

  // ---- accounting against the enable flags ----

  ghost function Enabled(r: Registry): set<int> {
    set i | 0 <= i < MAX_CLIENT_NUMBER && r.clients[i].enableVideo
  }

  lemma EnabledAfter(r: Registry, op: Op)
    ensures Enabled(Apply(r, op)) == if op.Register? then Enabled(r) + {op.sid} else Enabled(r) - {op.sid}
  {
  }

  ghost function Slack(r: Registry): int {
    r.sendStatus - |Enabled(r)|
  }

  /** What a call does to the slack: a register of an enabled client adds one, an unregister of a disabled client takes
      one away unless the counter is 0, and an unregister of an enabled client absorbed at 0 adds one. */
  ghost function Drift(r: Registry, op: Op): int {
    var hit := r.clients[op.sid].enableVideo;
    if op.Register? then if hit then 1 else 0
    else if hit then if r.sendStatus == 0 then 1 else 0
    else if r.sendStatus == 0 then 0 else -1
  }

  lemma SlackAfter(r: Registry, op: Op)
    ensures Slack(Apply(r, op)) == Slack(r) + Drift(r, op)
  {
    EnabledAfter(r, op);
    SizeAfter(Enabled(r), op.sid);
    assert op.sid in Enabled(r) <==> r.clients[op.sid].enableVideo;
    hide Enabled;
  }

  lemma SizeAfter(e: set<int>, x: int)
    ensures |e + {x}| == |e| + if x in e then 0 else 1
    ensures |e - {x}| == |e| - if x in e then 1 else 0
  {
    if x in e {
      assert e + {x} == e;
    } else {
      assert e - {x} == e;
    }
  }

  ghost function TotalDrift(r: Registry, trace: seq<Op>): int
    decreases |trace|
  {
    if trace == [] then 0
    else TotalDrift(r, trace[..|trace| - 1]) + Drift(ApplyAll(r, trace[..|trace| - 1]), trace[|trace| - 1])
  }

  /** Exact accounting over any trace. */
  lemma {:induction false} Accounting(r: Registry, trace: seq<Op>)
    ensures Slack(ApplyAll(r, trace)) == Slack(r) + TotalDrift(r, trace)
    decreases |trace|
  {
    if trace != [] {
      Accounting(r, trace[..|trace| - 1]);
      SlackAfter(ApplyAll(r, trace[..|trace| - 1]), trace[|trace| - 1]);
    }
  }

  ghost predicate HitsEnabled(r: Registry, trace: seq<Op>, i: int)
    requires 0 <= i < |trace|
  {
    ApplyAll(r, trace[..i]).clients[trace[i].sid].enableVideo
  }

  /** No client is starved as long as no unregister hits a disabled client; the counter is then exact if no register
      hits an enabled one either. */
  lemma {:induction false} CounterCovers(trace: seq<Op>)
    requires forall i :: 0 <= i < |trace| && trace[i].Unregister? ==> HitsEnabled(FRESH, trace, i)
    ensures Slack(ApplyAll(FRESH, trace)) >= 0
    ensures (forall i :: 0 <= i < |trace| && trace[i].Register? ==> !HitsEnabled(FRESH, trace, i)) ==>
      Slack(ApplyAll(FRESH, trace)) == 0
    decreases |trace|
  {
    if trace == [] {
      assert Enabled(FRESH) == {};
    } else {
      var n := |trace| - 1;
      var init, before := trace[..n], ApplyAll(FRESH, trace[..n]);
      forall i | 0 <= i < n
        ensures trace[i] == init[i] && HitsEnabled(FRESH, trace, i) == HitsEnabled(FRESH, init, i)
      {
        assert init[..i] == trace[..i];
      }
      CounterCovers(init);
      SlackAfter(before, trace[n]);
      assert trace[..n] == init && HitsEnabled(FRESH, trace, n) == before.clients[trace[n].sid].enableVideo;
      if trace[n].Unregister? { EnabledIsCounted(before, trace[n].sid); }
    }
  }

  lemma EnabledIsCounted(r: Registry, sid: Sid)
    ensures r.clients[sid].enableVideo ==> |Enabled(r)| >= 1
  {
    if r.clients[sid].enableVideo { assert sid in Enabled(r); }
  }

  /** The exact condition, call by call: unregistering keeps the counter at or above the number of enabled clients iff
      the client is enabled, or the counter is above that number, or no client is enabled at a zero counter. */
  lemma UnregisterCoversExactly(r: Registry, sid: Sid)
    requires Slack(r) >= 0
    ensures Slack(Apply(r, Unregister(sid))) >= 0 <==> r.clients[sid].enableVideo || Slack(r) > 0 || r.sendStatus == 0
  {
    SlackAfter(r, Unregister(sid));
    EnabledIsCounted(r, sid);
  }

  // ---- starvation, from the trace alone ----

  /** The last call on sid is a register. */
  ghost predicate LastRegisters(trace: seq<Op>, sid: Sid)
    decreases |trace|
  {
    trace != [] &&
    var op := trace[|trace| - 1];
    if op.sid == sid then op.Register? else LastRegisters(trace[..|trace| - 1], sid)
  }

  lemma {:induction false} EnabledIsLastCall(trace: seq<Op>, sid: Sid)
    ensures ApplyAll(FRESH, trace).clients[sid].enableVideo <==> LastRegisters(trace, sid)
    decreases |trace|
  {
    if trace != [] { EnabledIsLastCall(trace[..|trace| - 1], sid); }
  }

  /** The counter is zero, so nothing is broadcast, while some client is enabled. */
  ghost predicate Starved(r: Registry) {
    r.sendStatus == 0 && Enabled(r) != {}
  }

  /** Exactly when an enabled client is starved: no suffix of the trace has more registers than unregisters, yet the
      last call for some client is a register. */
  lemma StarvedExactly(trace: seq<Op>)
    ensures Starved(ApplyAll(FRESH, trace)) <==>
      (forall k :: 0 <= k <= |trace| ==> Net(trace[k..]) <= 0) && exists sid: Sid :: LastRegisters(trace, sid)
  {
    var r := ApplyAll(FRESH, trace);
    CounterIsReflection(FRESH, trace);
    assert trace[0..] == trace;
    if sid: Sid :| LastRegisters(trace, sid) {
      EnabledIsLastCall(trace, sid);
      assert sid in Enabled(r);
    }
    if i :| i in Enabled(r) {
      EnabledIsLastCall(trace, i);
    }
  }

  /** It does happen: one client starts video, another one that never did disconnects. */
  lemma StarvationHappens(av: int)
    ensures Starved(ApplyAll(FRESH, [Register(1, av), Unregister(0)]))
  {
    var t := [Register(1, av), Unregister(0)];
    assert t[..1] == [Register(1, av)] && t[..1][..0] == [];
    var r := ApplyAll(FRESH, t);
    assert ApplyAll(FRESH, t[..1]) == Apply(ApplyAll(FRESH, t[..1][..0]), t[..1][0]);
    assert r == Apply(Apply(FRESH, Register(1, av)), Unregister(0));
    assert 1 in Enabled(r);
  }

  // ---- broadcasting ----

  /** What avSendFrameData reports for one client. */
  datatype Sent = Delivered | QueueFull | ClosedByRemote | RemoteTimeout | InvalidSid | OtherError

  predicate Terminal(s: Sent) {
    s.ClosedByRemote? || s.RemoteTimeout? || s.InvalidSid?
  }

  predicate Receives(c: Client) {
    c.avIndex >= 0 && c.enableVideo
  }

  /** The clients a frame goes to, in order. */
  function Recipients(clients: seq<Client>): seq<nat>
    decreases |clients|
  {
    if clients == [] then []
    else
      var n := |clients| - 1;
      Recipients(clients[..n]) + if Receives(clients[n]) then [n] else []
  }

  predicate Fails(c: Client, result: Sent) {
    Receives(c) && Terminal(result)
  }

  /** The unregister calls a broadcast makes. */
  function Drops(clients: seq<Client>, result: nat -> Sent): seq<Op>
    requires |clients| <= MAX_CLIENT_NUMBER
    decreases |clients|
  {
    if clients == [] then []
    else
      var n := |clients| - 1;
      Drops(clients[..n], result) + if Fails(clients[n], result(n)) then [Unregister(n)] else []
  }

  /** The recipients whose send reports a terminal error. */
  ghost function Failing(clients: seq<Client>, result: nat -> Sent): set<nat> {
    set i | 0 <= i < |clients| && Fails(clients[i], result(i))
  }

  ghost predicate Increasing(l: seq<nat>) {
    forall a, b :: 0 <= a < b < |l| ==> l[a] < l[b]
  }

  /** Who receives: exactly the clients with a channel and video enabled, once each, in SID order. */
  lemma {:induction false} RecipientsExactly(clients: seq<Client>)
    ensures forall i: nat :: i in Recipients(clients) <==>
      i < |clients| && clients[i].avIndex >= 0 && clients[i].enableVideo
    ensures Increasing(Recipients(clients))
    decreases |clients|
  {
    if clients != [] {
      var n := |clients| - 1;
      var l := Recipients(clients[..n]);
      RecipientsExactly(clients[..n]);
      forall a | 0 <= a < |l|
        ensures l[a] < n
      {
        assert l[a] in l;
      }
    }
  }

  /** u is r with the clients in failed disabled, and the counter less their number, not below zero. */
  ghost predicate Disables(r: Registry, failed: set<nat>, u: Registry) {
    && u.sendStatus == (if r.sendStatus >= |failed| then r.sendStatus - |failed| else 0)
    && forall i: Sid :: u.clients[i] == if i in failed then r.clients[i].(enableVideo := false) else r.clients[i]
  }

  lemma DisableOneMore(r: Registry, failed: set<nat>, u: Registry, n: Sid)
    requires Disables(r, failed, u) && n !in failed
    ensures Disables(r, failed + {n}, Apply(u, Unregister(n)))
  {
    assert |failed + {n}| == |failed| + 1;
  }

  lemma FailingLast(clients: seq<Client>, result: nat -> Sent)
    requires clients != []
    ensures var n, failed := |clients| - 1, Failing(clients[..|clients| - 1], result);
      n !in failed && Failing(clients, result) == if Fails(clients[n], result(n)) then failed + {n} else failed
  {
    hide Fails;
  }

  /** What the drops do to any table. */
  lemma {:induction false} DropsDo(r: Registry, clients: seq<Client>, result: nat -> Sent)
    requires |clients| <= MAX_CLIENT_NUMBER
    ensures Disables(r, Failing(clients, result), ApplyAll(r, Drops(clients, result)))
    decreases |clients|
  {
    if clients == [] {
      assert Failing(clients, result) == {};
    } else {
      var n := |clients| - 1;
      var ops := Drops(clients[..n], result);
      DropsDo(r, clients[..n], result);
      FailingLast(clients, result);
      hide Disables;
      hide Failing;
      hide Fails;
      hide ApplyAll;
      hide Apply;
      if Fails(clients[n], result(n)) {
        ApplyLast(r, ops, Unregister(n));
        DisableOneMore(r, Failing(clients[..n], result), ApplyAll(r, ops), n);
      } else {
        assert Drops(clients, result) == ops;
      }
    }
  }

  /** Every unregister call of a broadcast hits a client that is still enabled. */
  lemma DropsHitEnabled(r: Registry, result: nat -> Sent, k: nat)
    requires k < |Drops(r.clients, result)|
    ensures Drops(r.clients, result)[k].Unregister? && HitsEnabled(r, Drops(r.clients, result), k)
  {
    assert r.clients[..MAX_CLIENT_NUMBER] == r.clients;
    DropsHitUpTo(r, result, MAX_CLIENT_NUMBER, k);
  }

  lemma {:induction false} DropsHitUpTo(r: Registry, result: nat -> Sent, n: nat, k: nat)
    requires n <= MAX_CLIENT_NUMBER && k < |Drops(r.clients[..n], result)|
    ensures Drops(r.clients[..n], result)[k].Unregister? && HitsEnabled(r, Drops(r.clients[..n], result), k)
  {
    if n > 0 {
      var before, ops := Drops(r.clients[..n - 1], result), Drops(r.clients[..n], result);
      assert r.clients[..n][..n - 1] == r.clients[..n - 1];
      DropsDo(r, r.clients[..n - 1], result);
      if k < |before| {
        DropsHitUpTo(r, result, n - 1, k);
        assert ops[..k] == before[..k];
      } else {
        assert ops[..k] == before && ops[k] == Unregister(n - 1);
        assert n - 1 !in Failing(r.clients[..n - 1], result);
      }
    }
  }

  lemma ApplyLast(r: Registry, ops: seq<Op>, op: Op)
    ensures ApplyAll(r, ops + [op]) == Apply(ApplyAll(r, ops), op)
  {
    assert (ops + [op])[..|ops|] == ops;
  }

  /** The broadcast as a function of the table. */
  function Broadcast(r: Registry, result: nat -> Sent): Registry {
    if r.sendStatus == 0 then r else ApplyAll(r, Drops(r.clients, result))
  }

  lemma BroadcastDisables(r: Registry, result: nat -> Sent)
    ensures if r.sendStatus == 0 then Broadcast(r, result) == r
            else Disables(r, Failing(r.clients, result), Broadcast(r, result))
  {
    DropsDo(r, r.clients, result);
  }

  /** With a non-zero counter exactly the recipients whose session was closed or timed out at the other end, or whose
      SID is no longer valid, are disabled, and the counter falls by their number, not below zero; with a zero counter
      nothing changes. */
  lemma BroadcastExactly(r: Registry, result: nat -> Sent)
    ensures var u := Broadcast(r, result);
      var failed := set i | 0 <= i < MAX_CLIENT_NUMBER && r.clients[i].avIndex >= 0 && r.clients[i].enableVideo
                            && result(i) in {ClosedByRemote, RemoteTimeout, InvalidSid};
      if r.sendStatus == 0 then u == r
      else
        && (forall i: Sid :: u.clients[i] == if i in failed then r.clients[i].(enableVideo := false) else r.clients[i])
        && u.sendStatus == if r.sendStatus >= |failed| then r.sendStatus - |failed| else 0
  {
    BroadcastDisables(r, result);
    var failed := set i | 0 <= i < MAX_CLIENT_NUMBER && r.clients[i].avIndex >= 0 && r.clients[i].enableVideo
                          && result(i) in {ClosedByRemote, RemoteTimeout, InvalidSid};
    assert failed == Failing(r.clients, result);
    hide Broadcast;
  }

  /** A send that is delivered, finds the queue full, or fails in any other way drops no one. */
  lemma HarmlessBroadcast(r: Registry, result: nat -> Sent)
    requires forall i: Sid :: r.clients[i].avIndex >= 0 && r.clients[i].enableVideo ==>
      result(i) in {Delivered, QueueFull, OtherError}
    ensures Broadcast(r, result) == r
  {
    BroadcastDisables(r, result);
    assert Failing(r.clients, result) == {};
    hide Broadcast;
  }

  lemma EnabledAfterDisabling(r: Registry, failed: set<nat>, u: Registry)
    requires Disables(r, failed, u) && failed <= Enabled(r)
    ensures Enabled(u) == Enabled(r) - failed && |Enabled(u)| == |Enabled(r)| - |failed|
  {
    assert Enabled(u) == Enabled(r) - failed;
    SizeOfDifference(Enabled(r), failed);
  }

  lemma SizeOfDifference(a: set<int>, b: set<int>)
    requires b <= a
    ensures |a - b| == |a| - |b|
  {
    assert a == (a - b) + b;
  }

  /** Broadcasting keeps the counter covering the enabled clients, and by how much. */
  lemma BroadcastCovers(r: Registry, result: nat -> Sent)
    requires Slack(r) >= 0
    ensures Slack(Broadcast(r, result)) == Slack(r)
  {
    var failed := Failing(r.clients, result);
    BroadcastDisables(r, result);
    if r.sendStatus > 0 {
      EnabledAfterDisabling(r, failed, Broadcast(r, result));
      SizeOfDifference(Enabled(r), failed);
    }
  }

  /** A client dropped by a broadcast is unregistered again by its own thread. From a counter that was exact this takes
      the count of another client: the survivors are one short, and a single survivor is starved. */
  lemma DropAndLeave(r: Registry, result: nat -> Sent, sid: Sid)
    requires Slack(r) == 0 && sid in Failing(r.clients, result)
    ensures var u := Apply(Broadcast(r, result), Unregister(sid));
      var survivors := |Enabled(r)| - |Failing(r.clients, result)|;
      && survivors >= 0 && Slack(u) == (if survivors > 0 then -1 else 0)
      && (Starved(u) <==> survivors == 1)
  {
    var failed, b := Failing(r.clients, result), Broadcast(r, result);
    EnabledIsCounted(r, sid);
    BroadcastDisables(r, result);
    EnabledAfterDisabling(r, failed, b);
    BroadcastCovers(r, result);
    SlackAfter(b, Unregister(sid));
    EnabledAfter(b, Unregister(sid));
    hide Disables;
    hide Enabled;
    hide Failing;
    hide Broadcast;
  }

  /** gClientInfo and p2p_send_status as they are updated in place. */
  class ClientTable {
    const info: array<Client>
    var sendStatus: nat

    constructor ()
      ensures fresh(info) && info.Length == MAX_CLIENT_NUMBER && Snapshot() == FRESH
      ensures sendStatus == 0 && forall i :: 0 <= i < MAX_CLIENT_NUMBER ==> info[i] == Client(-1, false)
    {
      info := new Client[MAX_CLIENT_NUMBER](_ => Client(-1, false));
      sendStatus := 0;
    }

    ghost function Snapshot(): Registry
      requires info.Length == MAX_CLIENT_NUMBER
      reads this, info
    {
      Registry(info[..], sendStatus)
    }

    method RegisterClient(sid: Sid, avIndex: int)
      requires info.Length == MAX_CLIENT_NUMBER
      modifies this, info
      ensures Snapshot() == Apply(old(Snapshot()), Register(sid, avIndex))
      ensures info[..] == old(info[..])[sid := Client(avIndex, true)] && sendStatus == old(sendStatus) + 1
    {
      info[sid] := Client(avIndex, true);
      sendStatus := sendStatus + 1;
    }

    method UnregisterClient(sid: Sid)
      requires info.Length == MAX_CLIENT_NUMBER
      modifies this, info
      ensures Snapshot() == Apply(old(Snapshot()), Unregister(sid))
      ensures info[..] == old(info[..])[sid := Client(old(info[sid].avIndex), false)]
      ensures old(sendStatus) == (if old(sendStatus) == 0 then sendStatus else sendStatus + 1)
    {
      info[sid] := info[sid].(enableVideo := false);
      if sendStatus > 0 {
        sendStatus := sendStatus - 1;
      }
    }

    /** One atomic call of send_frame_p2p; sent lists the clients the frame was given to. */
    method SendFrame(result: nat -> Sent) returns (sent: seq<nat>)
      requires info.Length == MAX_CLIENT_NUMBER
      modifies this, info
      ensures Snapshot() == Broadcast(old(Snapshot()), result)
      ensures sent == if old(sendStatus) == 0 then [] else Recipients(old(Snapshot()).clients)
    {
      sent := [];
      if sendStatus == 0 {
        return;
      }
      ghost var start := Snapshot();
      var i: nat := 0;
      while i < MAX_CLIENT_NUMBER
        invariant 0 <= i <= MAX_CLIENT_NUMBER
        invariant forall j :: i <= j < MAX_CLIENT_NUMBER ==> info[j] == start.clients[j]
        invariant sent == Recipients(start.clients[..i])
        invariant Snapshot() == ApplyAll(start, Drops(start.clients[..i], result))
      {
        NextClient(start, result, i);
        if info[i].avIndex < 0 || !info[i].enableVideo {
          i := i + 1;
          continue;
        }
        sent := sent + [i];
        if Terminal(result(i)) {
          UnregisterClient(i);
          assert forall j :: i < j < MAX_CLIENT_NUMBER ==> info[j] == Snapshot().clients[j];
        }
        i := i + 1;
      }
      assert start.clients[..MAX_CLIENT_NUMBER] == start.clients;
    }
  }

  /** Client i extends what is sent and what is dropped. */
  lemma NextClient(start: Registry, result: nat -> Sent, i: Sid)
    ensures var before, after, c := start.clients[..i], start.clients[..i + 1], start.clients[i];
      var u := ApplyAll(start, Drops(before, result));
      && Recipients(after) == (if Receives(c) then Recipients(before) + [i] else Recipients(before))
      && ApplyAll(start, Drops(after, result)) == if Fails(c, result(i)) then Apply(u, Unregister(i)) else u
  {
    var before, after := start.clients[..i], start.clients[..i + 1];
    assert after[..i] == before && after[i] == start.clients[i];
    ApplyLast(start, Drops(before, result), Unregister(i));
    assert Recipients(before) + [] == Recipients(before) && Drops(before, result) + [] == Drops(before, result);
  }
}
