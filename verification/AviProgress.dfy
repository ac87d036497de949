/** What the recording thread does, exactly: a turn of the inner loop in terms of the history and the reply, the inner
    loop and the outer one as runs of turns, and how many frames of a stream are recorded. */
module AviProgress {
  import opened AviHistory
  import opened AviPump

  // ---- one turn ----

  /** The events of one turn, from the history alone. */
  lemma TurnExactly(r: Recorder, total: nat, e: Poll)
    requires AtLoopHead(r) && Filling(r, total)
    ensures var h, t := r.log, Iterate(r, total, e);
      var refused := if e.ok && e.stray then Then(h, Lock(e.serial, e.iframe, false)) else h;
      var locked := Then(h, Lock(e.serial, e.iframe, true));
      var probes := e.iframe && Successes(h) == 3;
      var ready := if probes then Then(locked, Probe) else locked;
      var framed := Then(ready, Frame(e.serial, Restarting(h)));
      var foot := if !e.ok then Then(h, Fail)
                  else if LastFrame(h) > 0 then Then(framed, Unlock(LastFrame(h))) else framed;
      if !Restarting(h) && e.serial < Wanted(h) then !t.done && t.r.log == refused
      else if !Restarting(h) && !e.hasData then !t.done && t.r.log == Then(refused, Empty(e.serial))
      else if e.ok && probes && e.newest - e.serial > 25 then !t.done && t.r.log == Then(ready, Unlock(e.serial))
      else t.done == (Frames(foot) >= total) && t.r.log == if t.done then Then(foot, Close(true)) else foot
  {
    var h := r.log;
    assert r.check == 0 <==> Successes(h) == 3;
    var l := Taken(r, e);
    var p := Note(l, Probe).(check := AVI_TO_CHECK);
    var c := l.(check := if r.check >= 0 then r.check - 1 else r.check);
    if e.ok && (r.streamFlag || (r.book <= e.serial && e.hasData)) {
      IterateAccepted(r, total, e);
      WriteLog(c, e.serial, r.streamFlag, total);
      WriteLog(p, e.serial, r.streamFlag, total);
      assert Frames(l.log) == Frames(p.log) == Frames(h);
      hide Iterate;
    }
    hide Finish;
    hide Write;
    if !e.ok { FinishLog(Note(r.(streamFlag := true, book := -1, check := AVI_TO_CHECK), Fail), total); }
  }

  lemma FinishLog(r: Recorder, total: nat)
    ensures Finish(r, total).done == (r.frames >= total)
    ensures Finish(r, total).r.log == if r.frames >= total then Then(r.log, Close(true)) else r.log
  {
  }

  lemma WriteLog(p: Recorder, serial: int, restart: bool, total: nat)
    ensures var f := Then(p.log, Frame(serial, restart)); var h := if p.lock > 0 then Then(f, Unlock(p.lock)) else f;
      && Finish(Write(p, serial, restart), total).done == (p.frames + 1 >= total)
      && Finish(Write(p, serial, restart), total).r.log == (if p.frames + 1 >= total then Then(h, Close(true)) else h)
      && Frames(h) == Frames(p.log) + 1
  {
    assert Frames(Then(p.log, Frame(serial, restart))) == Frames(p.log) + 1;
  }

  /** A reply becomes a written frame exactly when it is a success, is wanted (after a restart anything is; otherwise it
      must not be older than the serial waited for, and must have data), and no probe finds it too far behind. */
  lemma WritesExactly(r: Recorder, total: nat, e: Poll)
    requires AtLoopHead(r) && Filling(r, total)
    ensures var h, t := r.log, Iterate(r, total, e).r.log;
      Written(t) == if && e.ok && (Restarting(h) || (Wanted(h) <= e.serial && e.hasData))
                       && !(e.iframe && Successes(h) == 3 && e.newest - e.serial > 25)
                    then Written(h) + [e.serial] else Written(h)
    ensures |Written(Iterate(r, total, e).r.log)| > |Written(r.log)| ==>
      Wanted(Iterate(r, total, e).r.log) == e.serial + 1 && !Restarting(Iterate(r, total, e).r.log)
  {
    TurnExactly(r, total, e);
    var h := r.log;
    var locked := Then(h, Lock(e.serial, e.iframe, true));
    var ready := if e.iframe && Successes(h) == 3 then Then(locked, Probe) else locked;
    var framed := Then(ready, Frame(e.serial, Restarting(h)));
    var foot := if !e.ok then Then(h, Fail)
                else if LastFrame(h) > 0 then Then(framed, Unlock(LastFrame(h))) else framed;
    OneEvent(h, Lock(e.serial, e.iframe, false));
    OneEvent(if e.ok && e.stray then Then(h, Lock(e.serial, e.iframe, false)) else h, Empty(e.serial));
    OneEvent(h, Fail);
    OneEvent(h, Lock(e.serial, e.iframe, true));
    OneEvent(locked, Probe);
    OneEvent(ready, Unlock(e.serial));
    OneEvent(ready, Frame(e.serial, Restarting(h)));
    OneEvent(framed, Unlock(LastFrame(h)));
    OneEvent(foot, Close(true));
    hide *;
  }

  /** What one event changes of the stream. */
  lemma OneEvent(h: History, e: Event)
    ensures Written(Then(h, e)) == if e.Frame? then Written(h) + [e.serial] else Written(h)
    ensures Wanted(Then(h, e)) == if e.Frame? then e.serial + 1 else if e.Empty? then e.serial else Wanted(h)
    ensures e.Frame? || e.Close? || (e.Unlock? && h.Then? && !h.event.Probe?) ==>
      Restarting(Then(h, e)) == (!e.Frame? && Restarting(h))
  {
  }

  /** Once a frame has been written, the next reply is written exactly when it is a success with data and a later
      serial, and no probe finds it too far behind: in particular the very next serial is not lost. */
  lemma NextReply(r: Recorder, total: nat, e: Poll, next: Poll)
    requires AtLoopHead(r) && Filling(r, total) && GoodPoll(e)
    requires !Iterate(r, total, e).done && |Written(Iterate(r, total, e).r.log)| > |Written(r.log)|
    ensures var t := Iterate(r, total, e).r; var u := Iterate(t, total, next).r;
      && Written(t.log) == Written(r.log) + [e.serial]
      && Written(u.log) == if && next.ok && next.hasData && next.serial > e.serial
                              && !(next.iframe && Successes(t.log) == 3 && next.newest - next.serial > 25)
                           then Written(t.log) + [next.serial] else Written(t.log)
  {
    IterateKeeps(r, total, e);
    WritesExactly(r, total, e);
    WritesExactly(Iterate(r, total, e).r, total, next);
    hide Iterate;
  }

  /** A turn that ends the file has found the total reached; one that does not has left room, or written nothing. */
  lemma TurnEnds(r: Recorder, total: nat, e: Poll)
    requires AtLoopHead(r) && Filling(r, total)
    ensures var h, t := r.log, Iterate(r, total, e);
      && (t.done ==> Frames(t.r.log) >= total)
      && (!t.done ==> Frames(t.r.log) < total || Frames(t.r.log) == Frames(h))
  {
    TurnExactly(r, total, e);
    var h := r.log;
    var locked := Then(h, Lock(e.serial, e.iframe, true));
    var ready := if e.iframe && Successes(h) == 3 then Then(locked, Probe) else locked;
    var framed := Then(ready, Frame(e.serial, Restarting(h)));
    var foot := if !e.ok then Then(h, Fail)
                else if LastFrame(h) > 0 then Then(framed, Unlock(LastFrame(h))) else framed;
    assert Frames(locked) == Frames(ready) == Frames(h);
    assert Frames(Then(foot, Close(true))) == Frames(foot);
    assert Frames(Then(ready, Unlock(e.serial))) == Frames(h);
    hide Iterate;
  }

  // ---- the inner loop ----

  /** The inner loop gives every reply its turn, one after the other, until a turn ends the file: the states it goes
      through, from the first to the last. */
  lemma {:induction false} PumpRuns(r: Recorder, total: nat, polls: seq<Poll>) returns (rs: seq<Recorder>)
    ensures |rs| > 0
    ensures var (t, rest) := Pump(r, total, polls);
      var n := |rs| - 1;
      && n <= |polls| && rs[0] == r && rs[n] == t.r && rest == polls[n..]
      && (forall i :: 0 <= i < n ==> Iterate(rs[i], total, polls[i]) == Turn(rs[i + 1], t.done && i == n - 1))
      && if t.done then n > 0 else n == |polls|
    decreases |polls|
  {
    hide Iterate;
    if polls == [] {
      rs := [r];
    } else {
      var t := Iterate(r, total, polls[0]);
      if t.done {
        rs := [r, t.r];
      } else {
        var later := PumpRuns(t.r, total, polls[1..]);
        rs := [r] + later;
      }
    }
  }

  /** The inner loop ends the file exactly when the total is reached; a file that has room left at the end has had every
      reply its turn. */
  lemma {:induction false} PumpEnds(r: Recorder, total: nat, polls: seq<Poll>)
    requires AtLoopHead(r) && Filling(r, total) && forall i :: 0 <= i < |polls| ==> GoodPoll(polls[i])
    ensures var (t, rest) := Pump(r, total, polls);
      && (t.done ==> Frames(t.r.log) >= total)
      && (!t.done ==> rest == [] && (Frames(t.r.log) < total || Frames(t.r.log) == Frames(r.log)))
    decreases |polls|
  {
    hide Iterate;
    if polls != [] {
      var t := Iterate(r, total, polls[0]);
      TurnEnds(r, total, polls[0]);
      if !t.done {
        IterateKeeps(r, total, polls[0]);
        PumpEnds(t.r, total, polls[1..]);
      }
    }
  }

  function Serials(polls: seq<Poll>): seq<int> {
    if polls == [] then [] else [polls[0].serial] + Serials(polls[1..])
  }

  /** Successes with data, in order, none of them far behind: what a store that keeps up answers. */
  ghost predicate IsStream(polls: seq<Poll>) {
    && (forall e :: e in polls ==> e.ok && e.hasData && e.serial >= 1 && e.newest - e.serial <= 25)
    && forall i, j :: 0 <= i < j < |polls| ==> polls[i].serial < polls[j].serial
  }

  /** Frames a file can still take: one, if the counter is already past its total. */
  function Room(r: Recorder, total: nat): (n: nat)
    ensures n > 0
  {
    if r.frames < total then total - r.frames else 1
  }

  lemma StreamTail(polls: seq<Poll>)
    requires IsStream(polls) && polls != []
    ensures IsStream(polls[1..]) && (|polls| > 1 ==> polls[0].serial < polls[1..][0].serial)
    ensures var e := polls[0]; e.ok && e.hasData && e.serial >= 1 && e.newest - e.serial <= 25
  {
  }

  /** What recording the first n of the replies means. */
  ghost predicate Recorded(h: History, polls: seq<Poll>, n: nat, t: History, rest: seq<Poll>) {
    n <= |polls| && Written(t) == Written(h) + Serials(polls[..n]) && rest == polls[n..]
  }

  /** Progress: a stream is recorded frame by frame, in order and without a gap, until the file is full. */
  lemma {:induction false} StreamIsRecorded(r: Recorder, total: nat, polls: seq<Poll>)
    requires AtLoopHead(r) && Filling(r, total) && IsStream(polls)
    requires polls != [] ==> Restarting(r.log) || Wanted(r.log) <= polls[0].serial
    ensures var (t, rest) := Pump(r, total, polls);
      && Recorded(r.log, polls, if t.done then Room(r, total) else |polls|, t.r.log, rest)
      && t.done == (|polls| >= Room(r, total))
    decreases |polls|
  {
    hide *;
    if polls == [] {
      NoneRecorded(r, total);
    } else {
      var t := Iterate(r, total, polls[0]);
      StreamTail(polls);
      FirstOfStream(r, total, polls[0]);
      PumpUnfolds(r, total, polls);
      if t.done {
        OnlyRecorded(r.log, polls, t.r.log);
      } else {
        StreamIsRecorded(t.r, total, polls[1..]);
        var (last, rest) := Pump(t.r, total, polls[1..]);
        MoreRecorded(r.log, polls, if last.done then Room(t.r, total) else |polls| - 1, t.r.log, last.r.log, rest);
      }
    }
  }

  lemma PumpUnfolds(r: Recorder, total: nat, polls: seq<Poll>)
    requires polls != []
    ensures var t := Iterate(r, total, polls[0]);
      Pump(r, total, polls) == if t.done then (t, polls[1..]) else Pump(t.r, total, polls[1..])
  {
    hide Iterate;
  }

  lemma FirstOfStream(r: Recorder, total: nat, e: Poll)
    requires AtLoopHead(r) && Filling(r, total) && e.ok && e.hasData && e.serial >= 1 && e.newest - e.serial <= 25
    requires Restarting(r.log) || Wanted(r.log) <= e.serial
    ensures var t := Iterate(r, total, e);
      && Written(t.r.log) == Written(r.log) + [e.serial] && (t.done <==> Room(r, total) == 1)
      && (!t.done ==>
            && AtLoopHead(t.r) && Filling(t.r, total) && Room(t.r, total) == Room(r, total) - 1
            && Wanted(t.r.log) == e.serial + 1)
  {
    var t := Iterate(r, total, e);
    WritesExactly(r, total, e);
    TurnEnds(r, total, e);
    IterateKeeps(r, total, e);
    WrittenIsCounted(r.log);
    WrittenIsCounted(t.r.log);
    WholeRoom(r, t, total);
    if !t.done { TurnStaysOpen(t, total); }
    hide *;
  }

  lemma NoneRecorded(r: Recorder, total: nat)
    ensures Pump(r, total, []) == (Turn(r, false), []) && Recorded(r.log, [], 0, r.log, [])
  {
    assert Written(r.log) + Serials([]) == Written(r.log);
  }

  lemma OnlyRecorded(h: History, polls: seq<Poll>, t: History)
    requires polls != [] && Written(t) == Written(h) + [polls[0].serial]
    ensures Recorded(h, polls, 1, t, polls[1..])
  {
    assert polls[..1] == [polls[0]] && Serials(polls[..1]) == [polls[0].serial] + Serials([]);
    hide Written;
  }

  lemma MoreRecorded(h: History, polls: seq<Poll>, n: nat, u: History, t: History, rest: seq<Poll>)
    requires polls != [] && Written(u) == Written(h) + [polls[0].serial] && Recorded(u, polls[1..], n, t, rest)
    ensures Recorded(h, polls, n + 1, t, rest)
  {
    hide Written;
    assert polls[..n + 1][1..] == polls[1..][..n];
    assert polls[1..][n..] == polls[n + 1..];
    assert Written(u) + Serials(polls[1..][..n]) == Written(h) + ([polls[0].serial] + Serials(polls[1..][..n]));
  }

  /** A frame more, a place less. */
  lemma WholeRoom(r: Recorder, t: Turn, total: nat)
    requires AtLoopHead(r) && AfterTurn(t, total) && Frames(t.r.log) == Frames(r.log) + 1
    requires (t.done ==> Frames(t.r.log) >= total) && (!t.done ==> Frames(t.r.log) < total)
    ensures t.done <==> Room(r, total) == 1
    ensures !t.done ==> Room(t.r, total) == Room(r, total) - 1
  {
  }

  // ---- one file, and the whole thread ----

  /** Minutes are clamped to 1..5; rates below 8 count as 9, and rates above 30 as 25. */
  lemma FrameTotalIs(s: Setting)
    ensures var minutes := if s.minutes < 1 then 1 else if s.minutes > 5 then 5 else s.minutes;
      var rate := if s.framerate < 8 then 9 else if s.framerate > 30 then 25 else s.framerate;
      FrameTotal(s) == minutes * 60 * rate
  {
  }

  /** One turn of the outer loop. Off schedule nothing happens and the thread goes on; without space or a file it stops;
      a header error discards the file and stops it. Otherwise the file is opened and filled, and the thread goes on.
      The file is closed full when its total is reached; if not, every reply has had its turn, and the file is closed
      unless an earlier one has ended full. */
  lemma FileExactly(r: Recorder, s: Setting, polls: seq<Poll>)
    requires BetweenFiles(r) && (r.finish || r.frames == 0 || polls == [])
    requires forall e :: e in polls ==> GoodPoll(e)
    ensures var o, started := RecordFile(r, s, polls), Then(r.log, Open(FrameTotal(s)));
      if !s.scheduled then o == Outer(r, polls, true)
      else if !s.spaceOk || !s.openOk then o == Outer(r, polls, false)
      else if !s.headersOk then o.r == r.(log := Then(started, Abort)) && o.rest == polls && !o.alive
      else
        var (t, rest) := Pump(Opened(r, FrameTotal(s)), FrameTotal(s), polls);
        && Opened(r, FrameTotal(s)).log == started && o.alive && o.rest == rest
        && o.r.log == (if t.done || Finished(r.log) then t.r.log else Then(t.r.log, Close(false)))
        && (if t.done then Frames(t.r.log) >= FrameTotal(s) else rest == [])
  {
    var total := FrameTotal(s);
    FrameTotalInRange(s);
    OpenKeeps(r, total);
    var h := Opened(r, total);
    hide FrameTotal;
    if s.scheduled && s.spaceOk && s.openOk && s.headersOk {
      if polls == [] {
        assert Pump(h, total, polls) == (Turn(h, false), []);
      } else {
        PumpEnds(h, total, polls);
      }
      PumpFinishes(h, total, polls);
      hide Pump;
      hide AtLoopHead;
      hide Filling;
    }
  }

  /** The thread knows that a file has ended full exactly when one has. */
  lemma {:induction false} PumpFinishes(r: Recorder, total: nat, polls: seq<Poll>)
    ensures var (t, rest) := Pump(r, total, polls);
      && t.r.finish == (r.finish || t.done)
      && (t.done ==> t.r.log.Then? && t.r.log.event == Close(true))
    decreases |polls|
  {
    if polls != [] {
      var t := Iterate(r, total, polls[0]);
      TurnFinishes(r, total, polls[0]);
      hide Iterate;
      if !t.done { PumpFinishes(t.r, total, polls[1..]); }
    }
  }

  lemma TurnFinishes(r: Recorder, total: nat, e: Poll)
    ensures var t := Iterate(r, total, e);
      && t.r.finish == (r.finish || t.done)
      && (t.done ==> t.r.log.Then? && t.r.log.event == Close(true))
  {
  }

  lemma OpenIsNotClosed(h: History)
    requires FileOpen(h)
    ensures h.Then? && !h.event.Close?
  {
  }

  /** A file that is given a stream records it from its first frame, whatever its serial, until the file is full. */
  lemma FileRecordsStream(r: Recorder, s: Setting, polls: seq<Poll>)
    requires BetweenFiles(r) && (r.finish || r.frames == 0 || polls == []) && IsStream(polls)
    requires s.scheduled && s.spaceOk && s.openOk && s.headersOk
    ensures var o := RecordFile(r, s, polls);
      var n := if |polls| < Room(r, FrameTotal(s)) then |polls| else Room(r, FrameTotal(s));
      && Recorded(r.log, polls, n, o.r.log, o.rest) && o.alive
      && (o.r.log.Then? && o.r.log.event == Close(true) <==> |polls| >= Room(r, FrameTotal(s)))
  {
    var total := FrameTotal(s);
    var h := Opened(r, total);
    FrameTotalInRange(s);
    OpenKeeps(r, total);
    OneEvent(r.log, Open(total));
    FileExactly(r, s, polls);
    var (t, rest) := Pump(h, total, polls);
    if polls == [] {
      NoneRecorded(h, total);
      OpenIsNotClosed(h.log);
    } else {
      StreamIsRecorded(h, total, polls);
      PumpFinishes(h, total, polls);
      PumpKeeps(h, total, polls);
      if !t.done { OpenIsNotClosed(t.r.log); }
    }
    OneEvent(t.r.log, Close(false));
    assert h.frames == r.frames;
    hide Pump;
    hide RecordFile;
    hide AtLoopHead;
    hide Written;
    hide Opened;
  }

  /** The outer loop: one turn after the other, each with what the turn before left of the replies, until the settings
      end or a turn stops the thread. */
  lemma {:induction false} RecordRuns(r: Recorder, settings: seq<Setting>, polls: seq<Poll>) returns (os: seq<Outer>)
    ensures |os| > 0
    ensures var n := |os| - 1;
      && n <= |settings| && os[0] == Outer(r, polls, true) && os[n].r == Record(r, settings, polls)
      && (forall i :: 0 <= i < n ==> os[i].alive && os[i + 1] == RecordFile(os[i].r, settings[i], os[i].rest))
      && (os[n].alive ==> n == |settings|)
    decreases |settings|
  {
    hide RecordFile;
    var start := Outer(r, polls, true);
    if settings == [] {
      os := [start];
    } else {
      var o := RecordFile(r, settings[0], polls);
      if o.alive {
        var later := RecordRuns(o.r, settings[1..], o.rest);
        os := [start] + later;
      } else {
        os := [start, o];
      }
    }
  }
}
