/** Avi_save as it runs: loops over the global stream status and the thread's counters. */
module AviRecorder {
  import opened AviHistory
  import opened AviPump

  class Thread {
    // AVI_stream_status
    var streamFlag: bool
    var serialBook: int
    var serialLock: int
    var check: int

    var recFrames: nat
    var aviFinish: bool

    ghost var log: History

    /** A new thread; the stream status is whatever the previous thread left. */
    constructor (streamFlag: bool, serialBook: int, serialLock: int, check: int)
      ensures BetweenFiles(Snapshot()) && recFrames == 0 && !aviFinish && log == Start
    {
      this.streamFlag, this.serialBook, this.serialLock, this.check := streamFlag, serialBook, serialLock, check;
      recFrames, aviFinish, log := 0, false, Start;
    }

    ghost function Snapshot(): Recorder
      reads this
    {
      Recorder(streamFlag, serialBook, serialLock, check, recFrames, aviFinish, log)
    }

    /** The body of the inner loop. done: the file has reached its total. */
    method Turn(total: nat, e: Poll) returns (done: bool)
      modifies this
      ensures AviPump.Turn(Snapshot(), done) == Iterate(old(Snapshot()), total, e)
    {
      ghost var start := Snapshot();
      if e.ok && (streamFlag || (serialBook <= e.serial && e.hasData)) { IterateAccepted(start, total, e); }
      hide Finish;
      hide Write;
      var restart := streamFlag;
      if streamFlag {
        serialBook := e.serial;
        streamFlag := false;
      } else {
        if serialBook > e.serial {
          NoteStray(e);
          return false;
        }
        serialBook := e.serial;
        if !e.hasData {
          NoteStray(e);
          log := Then(log, Empty(e.serial));
          return false;
        }
      }
      if e.ok {
        log := Then(log, Lock(e.serial, e.iframe, true));
      }
      if e.ok && check >= 0 {
        if e.iframe && check == 0 {
          log := Then(log, Probe);
          check := AVI_TO_CHECK;
          if e.newest - serialBook > MAX_LAG {
            log := Then(log, Unlock(serialBook));
            streamFlag := true;
            return false;
          }
        } else {
          check := check - 1;
        }
      }
      if e.ok {
        WriteFrame(restart);
      } else {
        streamFlag := true;
        serialBook := -1;
        check := AVI_TO_CHECK;
        log := Then(log, Fail);
      }
      done := TestTotal(total);
    }

    /** Writes the locked frame and releases the one written before it. */
    method WriteFrame(restart: bool)
      requires !streamFlag
      modifies this
      ensures Snapshot() == Write(old(Snapshot()), old(serialBook), restart)
    {
      log := Then(log, Frame(serialBook, restart));
      recFrames := recFrames + 1;
      if serialLock > 0 {
        log := Then(log, Unlock(serialLock));
      }
      serialLock := serialBook;
      serialBook := serialBook + 1;
    }

    method TestTotal(total: nat) returns (done: bool)
      modifies this
      ensures AviPump.Turn(Snapshot(), done) == Finish(old(Snapshot()), total)
    {
      done := recFrames >= total;
      if done {
        log := Then(log, Close(true));
        aviFinish := true;
      }
    }

    /** The store may keep a lock for a reply the thread rejects. */
    ghost method NoteStray(e: Poll)
      modifies this`log
      ensures log == if e.ok && e.stray then Then(old(log), Lock(e.serial, e.iframe, false)) else old(log)
    {
      if e.ok && e.stray {
        log := Then(log, Lock(e.serial, e.iframe, false));
      }
    }

    /** The inner loop; the polls end where m_Quit is seen. */
    method Fill(total: nat, polls: seq<Poll>) returns (done: bool, rest: seq<Poll>)
      modifies this
      ensures (AviPump.Turn(Snapshot(), done), rest) == Pump(old(Snapshot()), total, polls)
    {
      done, rest := false, polls;
      while !done && rest != []
        invariant if done then (AviPump.Turn(Snapshot(), true), rest) == Pump(old(Snapshot()), total, polls)
                  else Pump(Snapshot(), total, rest) == Pump(old(Snapshot()), total, polls)
        decreases !done, |rest|
      {
        done := Turn(total, rest[0]);
        rest := rest[1..];
      }
    }

    /** One turn of the outer loop. */
    method File(s: Setting, polls: seq<Poll>) returns (rest: seq<Poll>, alive: bool)
      modifies this
      ensures Outer(Snapshot(), rest, alive) == RecordFile(old(Snapshot()), s, polls)
    {
      if !s.scheduled {
        return polls, true;
      }
      if !s.spaceOk || !s.openOk {
        return polls, false;
      }
      var total := FrameTotal(s);
      log := Then(log, Open(total));
      if !s.headersOk {
        log := Then(log, Abort);
        return polls, false;
      }
      streamFlag := true;
      serialBook := -1;
      serialLock := 0;
      check := AVI_TO_CHECK;
      var done;
      done, rest := Fill(total, polls);
      if !aviFinish {
        log := Then(log, Close(false));
      }
      alive := true;
    }

    /** The outer loop: one setting per turn, until recording is disabled or the thread gives up. */
    method Run(settings: seq<Setting>, polls: seq<Poll>)
      requires BetweenFiles(Snapshot()) && (aviFinish || recFrames == 0 || polls == [])
      requires forall e :: e in polls ==> GoodPoll(e)
      modifies this
      ensures Snapshot() == Record(old(Snapshot()), settings, polls)
      ensures BetweenFiles(Snapshot())
    {
      EveryRunIsLawful(Snapshot(), settings, polls);
      var i, rest, alive := 0, polls, true;
      while alive && i < |settings|
        invariant 0 <= i <= |settings|
        invariant Record(old(Snapshot()), settings, polls) ==
          if alive then Record(Snapshot(), settings[i..], rest) else Snapshot()
        decreases |settings| - i
      {
        rest, alive := File(settings[i], rest);
        i := i + 1;
      }
    }
  }

  // ---- what this means for a new thread ----

  ghost predicate NewThread(r: Recorder) {
    r.frames == 0 && !r.finish && r.log == Start
  }

  /** Every written frame is locked while it is written. It comes from an I-frame lock exactly when the stream has been
      restarted and nothing written since; otherwise it is newer than the frame written before it. */
  lemma FramesAreOrdered(r: Recorder, settings: seq<Setting>, polls: seq<Poll>, p: History, e: Event)
    requires NewThread(r) && forall e :: e in polls ==> GoodPoll(e)
    requires Within(Then(p, e), Record(r, settings, polls).log) && e.Frame?
    ensures e.serial in Held(p)
    ensures e.restart <==> exists q, f :: Within(Then(q, f), p) && Restarts(q, f) && Frames(q) == Frames(p)
    ensures !e.restart ==> 1 <= LastFrame(p) < Wanted(p) <= e.serial
  {
    EveryRunIsLawful(r, settings, polls);
    LawfulEverywhere(Record(r, settings, polls).log, p, e);
    RestartingHasCause(p);
  }

  /** The store is probed exactly after a fourth success that is an I-frame. */
  lemma ProbesExactly(r: Recorder, settings: seq<Setting>, polls: seq<Poll>, p: History, e: Event)
    requires NewThread(r) && forall e :: e in polls ==> GoodPoll(e)
    requires Within(Then(p, e), Record(r, settings, polls).log)
    ensures e.Probe? <==> ProbeDue(p)
  {
    EveryRunIsLawful(r, settings, polls);
    LawfulEverywhere(Record(r, settings, polls).log, p, e);
  }

  /** When the fourth success is not an I-frame, no probe is due any more until a failure or a new file. */
  lemma {:induction false} MissedProbe(h: History, later: History)
    requires AllLawful(later) && Within(h, later) && Successes(h) >= 4 && !ProbeDue(h)
    ensures
      || (Successes(later) >= 4 && !ProbeDue(later))
      || exists p, e :: Within(Then(p, e), later) && Within(h, p) && (e.Fail? || e.Open?)
  {
    if h != later {
      MissedProbe(h, later.past);
      if Successes(later.past) >= 4 && !ProbeDue(later.past) {
        if later.event.Fail? || later.event.Open? {
          assert Within(Then(later.past, later.event), later);
        }
      } else {
        var p, e :| Within(Then(p, e), later.past) && Within(h, p) && (e.Fail? || e.Open?);
        assert Within(Then(p, e), later);
      }
    }
  }

  /** Locks are conserved: those held are the current file's last frame, one for each earlier file whose last
      frame was forgotten, and the strays; at no moment are there more than two besides the lost ones. */
  lemma LocksAreConserved(r: Recorder, settings: seq<Setting>, polls: seq<Poll>)
    requires NewThread(r) && forall e :: e in polls ==> GoodPoll(e)
    ensures var h := Record(r, settings, polls).log;
      && Count(h, true) - Count(h, false) == |Held(h)| == (if LastFrame(h) > 0 then 1 else 0) + Forgotten(h) + Strays(h)
      && forall p, e :: Within(Then(p, e), h) ==>
           |Held(p)| <= Forgotten(p) + Strays(p) + 2 && (e.Unlock? ==> e.serial in Held(p))
  {
    EveryRunIsLawful(r, settings, polls);
    var h := Record(r, settings, polls).log;
    LocksMinusUnlocks(h);
    LostCount(h);
    forall p, e | Within(Then(p, e), h)
      ensures |Held(p)| <= Forgotten(p) + Strays(p) + 2 && (e.Unlock? ==> e.serial in Held(p))
    {
      LawfulEverywhere(h, p, e);
      LostCount(p);
    }
  }

  /** The first file to end full holds exactly its frame total, and that is between 480 and 9000. */
  lemma FirstFullFile(r: Recorder, settings: seq<Setting>, polls: seq<Poll>, p: History)
    requires NewThread(r) && forall e :: e in polls ==> GoodPoll(e)
    requires Within(Then(p, Close(true)), Record(r, settings, polls).log) && !Finished(p)
    ensures InFile(p) == Total(p) && 480 <= Total(p) <= 9000
  {
    EveryRunIsLawful(r, settings, polls);
    LawfulEverywhere(Record(r, settings, polls).log, p, Close(true));
    TotalsInRange(p);
  }

  /** The counter is never reset: a later full file holds at most one frame, unless its total was raised
      above all frames written before it, and then it holds the difference. */
  lemma LaterFullFile(r: Recorder, settings: seq<Setting>, polls: seq<Poll>, p: History)
    requires NewThread(r) && forall e :: e in polls ==> GoodPoll(e)
    requires Within(Then(p, Close(true)), Record(r, settings, polls).log)
    ensures if Earlier(p) < Total(p) then InFile(p) == Total(p) - Earlier(p) else InFile(p) <= 1
  {
    EveryRunIsLawful(r, settings, polls);
    LawfulEverywhere(Record(r, settings, polls).log, p, Close(true));
  }

  /** No file is closed twice, and one is left open behind the next only after some file has ended full. */
  lemma FilesCloseOnce(r: Recorder, settings: seq<Setting>, polls: seq<Poll>, p: History, e: Event)
    requires NewThread(r) && forall e :: e in polls ==> GoodPoll(e)
    requires Within(Then(p, e), Record(r, settings, polls).log)
    ensures e.Close? || e.Abort? ==> FileOpen(p)
    ensures e.Open? && FileOpen(p) ==> Finished(p)
    ensures e == Close(false) ==> !Finished(p)
  {
    EveryRunIsLawful(r, settings, polls);
    LawfulEverywhere(Record(r, settings, polls).log, p, e);
  }
}
