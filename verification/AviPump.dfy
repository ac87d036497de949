/** The recording thread Avi_save as a function of what the frame store and the environment answer. */
module AviPump {
  import opened AviHistory

  const AVI_TO_CHECK := 3
  const MAX_LAG := 25

  /** The store's answers in one turn of the inner loop: to the lock request, and to GET_SERIAL if it is asked.
      stray says that the store keeps a lock for a successful reply even though the thread then rejects it. */
  datatype Poll = Poll(ok: bool, serial: int, hasData: bool, iframe: bool, stray: bool, newest: int)

  ghost predicate GoodPoll(e: Poll) {
    e.ok ==> e.serial >= 1
  }

  /** AVI_stream_status, rec_frames and avi_finish. */
  datatype Recorder = Recorder(
    streamFlag: bool, book: int, lock: int, check: int, frames: nat, finish: bool, log: History)

  datatype Turn = Turn(r: Recorder, done: bool)

  function Note(r: Recorder, e: Event): Recorder {
    r.(log := Then(r.log, e))
  }

  function Reject(r: Recorder, e: Poll): Recorder {
    if e.ok && e.stray then Note(r, Lock(e.serial, e.iframe, false)) else r
  }

  /** The test at the foot of the loop. */
  function Finish(r: Recorder, total: nat): Turn {
    if r.frames >= total then Turn(Note(r.(finish := true), Close(true)), true) else Turn(r, false)
  }

  function Release(r: Recorder, serial: int): Recorder {
    if serial > 0 then Note(r, Unlock(serial)) else r
  }

  function Write(r: Recorder, serial: int, restart: bool): Recorder {
    var w := Note(r.(frames := r.frames + 1), Frame(serial, restart));
    Release(w, r.lock).(book := serial + 1, lock := serial)
  }

  function Taken(r: Recorder, e: Poll): Recorder {
    Note(r.(streamFlag := false, book := e.serial), Lock(e.serial, e.iframe, true))
  }

  function Iterate(r: Recorder, total: nat, e: Poll): Turn {
    if !r.streamFlag && r.book > e.serial then Turn(Reject(r, e), false)
    else if !r.streamFlag && !e.hasData then
      Turn(Note(Reject(r, e).(book := e.serial), Empty(e.serial)), false)
    else if !e.ok then
      Finish(Note(r.(streamFlag := true, book := -1, check := AVI_TO_CHECK), Fail), total)
    else
      var l := Taken(r, e);
      if e.iframe && r.check == 0 then
        var p := Note(l, Probe).(check := AVI_TO_CHECK);
        if e.newest - e.serial > MAX_LAG then Turn(Note(p.(streamFlag := true), Unlock(e.serial)), false)
        else Finish(Write(p, e.serial, r.streamFlag), total)
      else
        Finish(Write(l.(check := if r.check >= 0 then r.check - 1 else r.check), e.serial, r.streamFlag), total)
  }

  /** The inner loop: stops at the frame total, or when m_Quit is seen, which is where the polls end. */
  function Pump(r: Recorder, total: nat, polls: seq<Poll>): (Turn, seq<Poll>)
    decreases |polls|
  {
    if polls == [] then (Turn(r, false), [])
    else
      var t := Iterate(r, total, polls[0]);
      if t.done then (t, polls[1..]) else Pump(t.r, total, polls[1..])
  }

  /** What holds whenever the inner loop tests its condition. */
  ghost predicate AtLoopHead(r: Recorder) {
    && r.lock == LastFrame(r.log) >= 0
    && r.streamFlag == Restarting(r.log) && (!r.streamFlag ==> 1 <= r.lock < r.book == Wanted(r.log))
    && r.check == (if Successes(r.log) <= 3 then AVI_TO_CHECK - Successes(r.log) else -1)
    && r.frames == Frames(r.log) && r.finish == Finished(r.log)
    && Held(r.log) == Current(r.log) + Lost(r.log)
    && AllLawful(r.log) && !ProbeDue(r.log)
  }

  /** While a file for total frames is being filled. */
  ghost predicate Filling(r: Recorder, total: nat) {
    && FileOpen(r.log) && Total(r.log) == total > 0
    && (if Earlier(r.log) < total then r.frames < total else InFile(r.log) == 0)
    && (!r.finish ==> Earlier(r.log) == 0)
  }

  lemma StrayCounts(h: History, serial: int, iframe: bool)
    ensures var u := Then(h, Lock(serial, iframe, false));
      && Restarting(u) == Restarting(h) && LastFrame(u) == LastFrame(h) && Current(u) == Current(h)
      && Wanted(u) == Wanted(h) && Written(u) == Written(h)
      && Successes(u) == Successes(h) && !ProbeDue(u) && Frames(u) == Frames(h) && InFile(u) == InFile(h)
      && Total(u) == Total(h) && FileOpen(u) == FileOpen(h) && Finished(u) == Finished(h)
      && Held(u) == Held(h) + multiset{serial} && Lost(u) == Lost(h) + multiset{serial}
  {
  }

  lemma StrayIsLawful(r: Recorder, serial: int, iframe: bool)
    requires AtLoopHead(r)
    ensures AllLawful(Then(r.log, Lock(serial, iframe, false)))
  {
    assert Lawful(r.log, Lock(serial, iframe, false));
  }

  lemma RejectKeeps(r: Recorder, total: nat, e: Poll)
    requires AtLoopHead(r) && Filling(r, total)
    ensures AtLoopHead(Reject(r, e)) && Filling(Reject(r, e), total)
  {
    StrayCounts(r.log, e.serial, e.iframe);
    StrayIsLawful(r, e.serial, e.iframe);
    hide Restarting;
    hide Wanted;
    hide Written;
    hide LastFrame;
    hide Current;
    hide Successes;
    hide ProbeDue;
    hide Frames;
    hide InFile;
    hide Total;
    hide FileOpen;
    hide Finished;
    hide Held;
    hide Lost;
    hide AllLawful;
  }

  lemma EmptyCounts(h: History, serial: int)
    ensures var u := Then(h, Empty(serial));
      && Restarting(u) == Restarting(h) && LastFrame(u) == LastFrame(h) && Current(u) == Current(h)
      && Wanted(u) == serial && Written(u) == Written(h)
      && Successes(u) == Successes(h) && !ProbeDue(u) && Frames(u) == Frames(h) && InFile(u) == InFile(h)
      && Total(u) == Total(h) && FileOpen(u) == FileOpen(h) && Finished(u) == Finished(h)
      && Held(u) == Held(h) && Lost(u) == Lost(h) && AllLawful(u) == (AllLawful(h) && Lawful(h, Empty(serial)))
  {
  }

  /** The thread waits for the serial the store reported, even if that skips one. */
  lemma EmptyKeeps(r: Recorder, total: nat, serial: int)
    requires AtLoopHead(r) && Filling(r, total) && !r.streamFlag && r.book <= serial
    ensures var t := Note(r.(book := serial), Empty(serial)); AtLoopHead(t) && Filling(t, total)
  {
    EmptyCounts(r.log, serial);
    assert Lawful(r.log, Empty(serial));
    hide Restarting;
    hide Wanted;
    hide Written;
    hide LastFrame;
    hide Current;
    hide Successes;
    hide ProbeDue;
    hide Frames;
    hide InFile;
    hide Total;
    hide FileOpen;
    hide Finished;
    hide Held;
    hide Lost;
    hide AllLawful;
    hide Lawful;
  }

  /** What the test at the foot of the loop may find: at most one more frame than while filling. */
  ghost predicate Filled(r: Recorder, total: nat) {
    && AtLoopHead(r) && FileOpen(r.log) && Total(r.log) == total > 0
    && (if Earlier(r.log) < total then r.frames <= total else InFile(r.log) <= 1)
    && (!r.finish ==> Earlier(r.log) == 0)
  }

  lemma FailKeeps(r: Recorder, total: nat)
    requires AtLoopHead(r) && Filling(r, total)
    ensures Filled(Note(r.(streamFlag := true, book := -1, check := AVI_TO_CHECK), Fail), total)
  {
  }

  /** Inside a turn, once the lock for serial has been taken. */
  ghost predicate Holding(r: Recorder, serial: int, restart: bool) {
    && r.lock == LastFrame(r.log) >= 0 && !r.streamFlag
    && serial >= 1 && restart == Restarting(r.log) && (restart || 1 <= r.lock < Wanted(r.log) <= serial)
    && r.frames == Frames(r.log) && r.finish == Finished(r.log)
    && Held(r.log) == Current(r.log) + Lost(r.log) + multiset{serial}
    && AllLawful(r.log) && FileOpen(r.log)
  }

  lemma LockKeeps(r: Recorder, e: Poll, total: nat)
    requires AtLoopHead(r) && Filling(r, total) && e.ok && GoodPoll(e) && (r.streamFlag || r.book <= e.serial)
    ensures var l := Taken(r, e);
      && Holding(l, e.serial, r.streamFlag) && Filling(l, total)
      && (ProbeDue(l.log) <==> e.iframe && r.check == 0)
  {
  }

  lemma CountKeeps(r: Recorder, e: Poll, total: nat)
    requires AtLoopHead(r) && Filling(r, total) && e.ok && GoodPoll(e) && (r.streamFlag || r.book <= e.serial)
    requires !(e.iframe && r.check == 0)
    ensures var c := Taken(r, e).(check := if r.check >= 0 then r.check - 1 else r.check);
      Holding(c, e.serial, r.streamFlag) && Filling(c, total) && CheckCounts(c) && !ProbeDue(c.log)
  {
    LockKeeps(r, e, total);
  }

  lemma ProbeKeeps(l: Recorder, serial: int, restart: bool, total: nat)
    requires Holding(l, serial, restart) && Filling(l, total) && ProbeDue(l.log)
    ensures var p := Note(l, Probe).(check := AVI_TO_CHECK);
      && Holding(p, serial, restart) && Filling(p, total) && CheckCounts(p)
      && !ProbeDue(p.log) && p.log == Then(l.log, Probe)
  {
  }

  ghost predicate CheckCounts(r: Recorder) {
    r.check == if Successes(r.log) <= 3 then AVI_TO_CHECK - Successes(r.log) else -1
  }

  lemma WriteCounts(p: Recorder, serial: int, restart: bool)
    ensures var h := Write(p, serial, restart).log;
      && Frames(h) == Frames(p.log) + 1 && InFile(h) == InFile(p.log) + 1 && Total(h) == Total(p.log)
      && FileOpen(h) == FileOpen(p.log) && Finished(h) == Finished(p.log)
      && Successes(h) == Successes(p.log) && !ProbeDue(h) && LastFrame(h) == serial && !Restarting(h)
      && Wanted(h) == serial + 1 && Written(h) == Written(p.log) + [serial]
  {
  }

  /** Releasing a lock that is neither lost nor among the others. */
  lemma ReleaseOne(h: History, serial: int, others: multiset<int>)
    requires Held(h) == others + Lost(h) + multiset{serial} && |others| <= 1
    requires AllLawful(h) && !ProbeDue(h)
    ensures var u := Then(h, Unlock(serial)); AllLawful(u) && Held(u) == others + Lost(u) && Lost(u) == Lost(h)
  {
    assert Held(h) - Lost(h) == others + multiset{serial};
    assert Lawful(h, Unlock(serial));
    assert Held(h) - multiset{serial} == others + Lost(h);
  }

  lemma FrameLocks(p: Recorder, serial: int, restart: bool)
    requires Holding(p, serial, restart) && !ProbeDue(p.log)
    ensures var f := Then(p.log, Frame(serial, restart));
      && AllLawful(f) && !ProbeDue(f) && Held(f) == Current(p.log) + Lost(f) + multiset{serial}
      && Current(f) == multiset{serial}
      && Current(Then(f, Unlock(p.lock))) == multiset{serial}
  {
    assert Lawful(p.log, Frame(serial, restart));
  }

  lemma WriteLocks(p: Recorder, serial: int, restart: bool)
    requires Holding(p, serial, restart) && !ProbeDue(p.log)
    ensures var h := Write(p, serial, restart).log; AllLawful(h) && Held(h) == Current(h) + Lost(h)
  {
    var f := Then(p.log, Frame(serial, restart));
    FrameLocks(p, serial, restart);
    assert Current(p.log) == if p.lock > 0 then multiset{p.lock} else multiset{};
    hide Held;
    hide Lost;
    hide AllLawful;
    hide ProbeDue;
    hide Current;
    if p.lock > 0 { ReleaseOne(f, p.lock, multiset{serial}); }
  }

  lemma WriteKeeps(p: Recorder, serial: int, restart: bool, total: nat)
    requires Holding(p, serial, restart) && Filling(p, total) && !ProbeDue(p.log) && CheckCounts(p)
    ensures Filled(Write(p, serial, restart), total)
  {
    WriteCounts(p, serial, restart);
    WriteLocks(p, serial, restart);
    hide Frames;
    hide InFile;
    hide Total;
    hide Finished;
    hide FileOpen;
    hide Successes;
    hide ProbeDue;
    hide LastFrame;
    hide Held;
    hide Lost;
    hide AllLawful;
  }

  lemma LagCounts(h: History, serial: int)
    requires h.Then? && h.event.Probe?
    ensures var u := Then(h, Unlock(serial));
      && Restarting(u) && LastFrame(u) == LastFrame(h) && Current(u) == Current(h) && Successes(u) == Successes(h)
      && !ProbeDue(u) && Frames(u) == Frames(h) && InFile(u) == InFile(h) && Total(u) == Total(h)
      && FileOpen(u) == FileOpen(h) && Finished(u) == Finished(h)
  {
  }

  lemma LagKeeps(p: Recorder, serial: int, restart: bool, total: nat)
    requires Holding(p, serial, restart) && Filling(p, total) && !ProbeDue(p.log) && CheckCounts(p)
    requires p.log.Then? && p.log.event.Probe?
    ensures var t := Note(p.(streamFlag := true), Unlock(serial)); AtLoopHead(t) && Filling(t, total)
  {
    LagCounts(p.log, serial);
    ReleaseOne(p.log, serial, Current(p.log));
    hide Current;
    hide Restarting;
    hide LastFrame;
    hide Successes;
    hide ProbeDue;
    hide Frames;
    hide InFile;
    hide Total;
    hide FileOpen;
    hide Finished;
    hide Held;
    hide Lost;
    hide AllLawful;
  }

  /** What a turn of the inner loop leaves behind. */
  ghost predicate AfterTurn(t: Turn, total: nat) {
    AtLoopHead(t.r) && if t.done then t.r.finish && !FileOpen(t.r.log) else Filling(t.r, total)
  }

  lemma CloseLog(h: History)
    ensures var u := Then(h, Close(true));
      && Restarting(u) == Restarting(h) && LastFrame(u) == LastFrame(h) && Current(u) == Current(h)
      && Wanted(u) == Wanted(h) && Written(u) == Written(h)
      && Successes(u) == Successes(h) && !ProbeDue(u) && Frames(u) == Frames(h)
      && Held(u) == Held(h) && Lost(u) == Lost(h) && Finished(u) && !FileOpen(u)
      && (AllLawful(h) && Lawful(h, Close(true)) ==> AllLawful(u))
  {
  }

  lemma CloseIsLawful(r: Recorder, total: nat)
    requires Filled(r, total) && r.frames >= total
    ensures Lawful(r.log, Close(true))
  {
    assert FullFile(r.log);
    assert Held(r.log) - Lost(r.log) == Current(r.log);
  }

  lemma FinishKeeps(r: Recorder, total: nat)
    requires Filled(r, total)
    ensures AfterTurn(Finish(r, total), total)
  {
    CloseLog(r.log);
    if r.frames >= total { CloseIsLawful(r, total); }
    hide Restarting;
    hide Wanted;
    hide LastFrame;
    hide Current;
    hide Successes;
    hide ProbeDue;
    hide Frames;
    hide InFile;
    hide Total;
    hide Held;
    hide Lost;
    hide Finished;
    hide FileOpen;
    hide AllLawful;
    hide Lawful;
  }

  /** One turn of the inner loop keeps the loop-head invariant. */
  lemma IterateKeeps(r: Recorder, total: nat, e: Poll)
    requires AtLoopHead(r) && Filling(r, total) && GoodPoll(e)
    ensures AfterTurn(Iterate(r, total, e), total)
  {
    if !r.streamFlag && r.book > e.serial {
      RejectKeeps(r, total, e);
    } else if !r.streamFlag && !e.hasData {
      RejectKeeps(r, total, e);
      EmptyKeeps(Reject(r, e), total, e.serial);
    } else if !e.ok {
      FailKeeps(r, total);
      hide Filled;
      hide Finish;
      FinishKeeps(Note(r.(streamFlag := true, book := -1, check := AVI_TO_CHECK), Fail), total);
    } else {
      AcceptKeeps(r, total, e);
    }
  }

  /** The three ways an accepted lock can go. */
  lemma IterateAccepted(r: Recorder, total: nat, e: Poll)
    requires e.ok && (r.streamFlag || (r.book <= e.serial && e.hasData))
    ensures var l := Taken(r, e);
      var p := Note(l, Probe).(check := AVI_TO_CHECK);
      var c := l.(check := if r.check >= 0 then r.check - 1 else r.check);
      Iterate(r, total, e) ==
        if !(e.iframe && r.check == 0) then Finish(Write(c, e.serial, r.streamFlag), total)
        else if e.newest - e.serial > MAX_LAG then Turn(Note(p.(streamFlag := true), Unlock(e.serial)), false)
        else Finish(Write(p, e.serial, r.streamFlag), total)
  {
    hide Finish;
    hide Write;
  }

  lemma TurnIsOpen(r: Recorder, total: nat)
    requires AtLoopHead(r) && Filling(r, total)
    ensures AfterTurn(Turn(r, false), total)
  {
  }

  lemma AcceptKeeps(r: Recorder, total: nat, e: Poll)
    requires AtLoopHead(r) && Filling(r, total) && e.ok && GoodPoll(e)
    requires r.streamFlag || (r.book <= e.serial && e.hasData)
    ensures AfterTurn(Iterate(r, total, e), total)
  {
    var l := Taken(r, e);
    var p := Note(l, Probe).(check := AVI_TO_CHECK);
    var c := l.(check := if r.check >= 0 then r.check - 1 else r.check);
    LockKeeps(r, e, total);
    hide *;
    assert p.check == AVI_TO_CHECK;
    IterateAccepted(r, total, e);
    if e.iframe && r.check == 0 {
      ProbeKeeps(l, e.serial, r.streamFlag, total);
      if e.newest - e.serial > MAX_LAG {
        LagKeeps(p, e.serial, r.streamFlag, total);
        TurnIsOpen(Note(p.(streamFlag := true), Unlock(e.serial)), total);
      } else {
        WriteKeeps(p, e.serial, r.streamFlag, total);
        FinishKeeps(Write(p, e.serial, r.streamFlag), total);
      }
    } else {
      CountKeeps(r, e, total);
      WriteKeeps(c, e.serial, r.streamFlag, total);
      FinishKeeps(Write(c, e.serial, r.streamFlag), total);
    }
  }

  /** At every test of the inner loop, after any number of turns, the invariant holds. */
  lemma {:induction false} PumpKeeps(r: Recorder, total: nat, polls: seq<Poll>)
    requires AtLoopHead(r) && Filling(r, total) && forall i :: 0 <= i < |polls| ==> GoodPoll(polls[i])
    ensures AfterTurn(Pump(r, total, polls).0, total)
    ensures Pump(r, total, polls).0.done || Pump(r, total, polls).1 == []
    ensures forall e :: e in Pump(r, total, polls).1 ==> e in polls
    decreases |polls|
  {
    if polls == [] {
      TurnIsOpen(r, total);
    } else {
      IterateKeeps(r, total, polls[0]);
      var t := Iterate(r, total, polls[0]);
      hide AfterTurn;
      if !t.done {
        TurnStaysOpen(t, total);
        PumpKeeps(t.r, total, polls[1..]);
      }
    }
  }

  lemma TurnStaysOpen(t: Turn, total: nat)
    requires AfterTurn(t, total) && !t.done
    ensures AtLoopHead(t.r) && Filling(t.r, total)
  {
  }

  // ---- one file ----

  function Clamp(x: int, low: int, high: int): int {
    if x > high then high else if x < low then low else x
  }

  /** e_avi_TimeL: minutes clamped to 1..5, kept in seconds. */
  function TimeLength(minutes: int): nat {
    Clamp(minutes, 1, 5) * 60
  }

  /** Reported rates outside 8..30 are replaced by 9 and 25. */
  function FrameRate(reported: int): nat {
    if reported < 8 then 9 else if reported > 30 then 25 else reported
  }

  /** What one turn of the outer loop finds. */
  datatype Setting = Setting(
    scheduled: bool, minutes: int, framerate: int, spaceOk: bool, openOk: bool, headersOk: bool)

  function FrameTotal(s: Setting): nat {
    TimeLength(s.minutes) * FrameRate(s.framerate)
  }

  lemma FrameTotalInRange(s: Setting)
    ensures 480 <= FrameTotal(s) <= 9000
  {
    ProductInRange(TimeLength(s.minutes), FrameRate(s.framerate));
  }

  lemma ProductInRange(t: nat, f: nat)
    requires 60 <= t <= 300 && 8 <= f <= 30
    ensures 480 <= t * f <= 9000
  {
    ProductMonotone(60, t, 8, f);
    ProductMonotone(t, 300, f, 30);
  }

  lemma ProductMonotone(a: nat, b: nat, c: nat, d: nat)
    requires a <= b && c <= d
    ensures a * c <= b * d
  {
    assert b * d == a * c + a * (d - c) + (b - a) * d;
  }

  datatype Outer = Outer(r: Recorder, rest: seq<Poll>, alive: bool)

  function Opened(r: Recorder, total: nat): Recorder {
    Note(r, Open(total)).(streamFlag := true, book := -1, lock := 0, check := AVI_TO_CHECK)
  }

  function RecordFile(r: Recorder, s: Setting, polls: seq<Poll>): Outer {
    if !s.scheduled then Outer(r, polls, true)
    else if !s.spaceOk || !s.openOk then Outer(r, polls, false)
    else if !s.headersOk then Outer(Note(Note(r, Open(FrameTotal(s))), Abort), polls, false)
    else
      var (t, rest) := Pump(Opened(r, FrameTotal(s)), FrameTotal(s), polls);
      Outer(if t.r.finish then t.r else Note(t.r, Close(false)), rest, true)
  }

  /** The whole thread: one setting per turn of the outer loop, until recording is disabled. */
  function Record(r: Recorder, settings: seq<Setting>, polls: seq<Poll>): Recorder
    decreases |settings|
  {
    if settings == [] then r
    else
      var o := RecordFile(r, settings[0], polls);
      if o.alive then Record(o.r, settings[1..], o.rest) else o.r
  }

  /** What holds of the thread's variables between files. */
  ghost predicate BetweenFiles(r: Recorder) {
    && r.frames == Frames(r.log) && r.finish == Finished(r.log)
    && Held(r.log) == Current(r.log) + Lost(r.log) && LastFrame(r.log) >= 0
    && AllLawful(r.log) && !ProbeDue(r.log)
    && (FileOpen(r.log) ==> r.finish)
  }

  /** Opening a file forgets the last lock of the previous one. */
  lemma OpenLog(r: Recorder, total: nat)
    requires BetweenFiles(r) && 480 <= total <= 9000
    ensures var o := Then(r.log, Open(total));
      && AllLawful(o) && Held(o) == Lost(o) == Held(r.log) && Current(o) == multiset{} && LastFrame(o) == 0
      && Restarting(o) && Successes(o) == 0 && !ProbeDue(o)
      && FileOpen(o) && Total(o) == total && Frames(o) == r.frames && InFile(o) == 0 && Finished(o) == r.finish
  {
    assert Lawful(r.log, Open(total));
  }

  lemma OpenKeeps(r: Recorder, total: nat)
    requires BetweenFiles(r) && 480 <= total <= 9000
    ensures AtLoopHead(Opened(r, total)) && FileOpen(Opened(r, total).log)
    ensures r.finish || r.frames == 0 ==> Filling(Opened(r, total), total)
  {
    OpenLog(r, total);
    assert Opened(r, total).log == Then(r.log, Open(total));
    hide Held;
    hide Lost;
    hide AllLawful;
    hide Frames;
    hide InFile;
    hide Finished;
  }

  lemma EmptyFileCloses(r: Recorder, total: nat, e: Event)
    requires BetweenFiles(r) && 480 <= total <= 9000 && (e == Abort || (e == Close(false) && !r.finish))
    ensures var h := Then(Then(r.log, Open(total)), e);
      && AllLawful(h) && Held(h) == Lost(h) && Current(h) == multiset{} && LastFrame(h) == 0
      && !ProbeDue(h) && !FileOpen(h) && Frames(h) == r.frames && Finished(h) == r.finish
  {
    var o := Then(r.log, Open(total));
    OpenLog(r, total);
    assert Lawful(o, e);
  }

  lemma OpenAndClose(r: Recorder, total: nat)
    requires BetweenFiles(r) && 480 <= total <= 9000
    ensures !r.finish ==> BetweenFiles(Note(Opened(r, total), Close(false)))
    ensures BetweenFiles(Note(Note(r, Open(total)), Abort))
  {
    EmptyFileCloses(r, total, Abort);
    if !r.finish { EmptyFileCloses(r, total, Close(false)); }
    hide Held;
    hide Lost;
    hide AllLawful;
    hide Frames;
    hide Finished;
    hide LastFrame;
    hide FileOpen;
    hide Current;
  }

  lemma CloseKeeps(t: Turn, total: nat)
    requires AfterTurn(t, total)
    ensures BetweenFiles(if t.r.finish then t.r else Note(t.r, Close(false)))
    ensures t.done ==> t.r.finish
  {
    assert !t.r.finish ==> Lawful(t.r.log, Close(false));
  }

  /** One file keeps the invariant between files. Only the first file can start before any full file and end full:
      a file that does not fill up has used up the polls. */
  lemma RecordFileKeeps(r: Recorder, s: Setting, polls: seq<Poll>)
    requires BetweenFiles(r) && (r.finish || r.frames == 0 || polls == [])
    requires forall e :: e in polls ==> GoodPoll(e)
    ensures var o := RecordFile(r, s, polls);
      && BetweenFiles(o.r) && (o.r.finish || o.r.frames == 0 || o.rest == [])
      && forall e :: e in o.rest ==> GoodPoll(e)
  {
    if s.scheduled && s.spaceOk && s.openOk {
      var total := FrameTotal(s);
      FrameTotalInRange(s);
      OpenKeeps(r, total);
      OpenAndClose(r, total);
      var h := Opened(r, total);
      hide BetweenFiles;
      if s.headersOk {
        if r.finish || r.frames == 0 {
          PumpKeeps(h, total, polls);
          CloseKeeps(Pump(h, total, polls).0, total);
        } else {
          assert Pump(h, total, polls) == (Turn(h, false), []);
        }
      } else {
        hide AtLoopHead;
        hide Filling;
      }
    }
  }

  /** Every run of the thread, of any length, with any answers: its history is lawful, the locks it holds are the
      current frame's and the lost ones, and its counter is the number of frames written. */
  lemma {:induction false} EveryRunIsLawful(r: Recorder, settings: seq<Setting>, polls: seq<Poll>)
    requires BetweenFiles(r) && (r.finish || r.frames == 0 || polls == [])
    requires forall e :: e in polls ==> GoodPoll(e)
    ensures BetweenFiles(Record(r, settings, polls))
    decreases |settings|
  {
    if settings != [] {
      RecordFileKeeps(r, settings[0], polls);
      hide BetweenFiles;
      var o := RecordFile(r, settings[0], polls);
      if o.alive { EveryRunIsLawful(o.r, settings[1..], o.rest); }
    }
  }
}
