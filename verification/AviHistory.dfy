/** What the recording thread does to the frame store and to its files, as a history of events, and the
    laws that history must obey. Nothing here looks at the thread's variables. */
module AviHistory {

  datatype Event =
    | Open(total: nat)                                  // a new file, to hold total frames
    | Lock(serial: int, iframe: bool, accepted: bool)   // the store locked a frame for the thread
    | Probe                                             // the store was asked for its newest serial
    | Empty(serial: int)                                // a frame still wanted, or a later one, was not there
    | Unlock(serial: int)
    | Frame(serial: int, restart: bool)                 // written; restart: it came from an I-frame lock
    | Fail                                              // a lock request failed
    | Close(full: bool)                                 // full: closed because the frame total was reached
    | Abort                                             // file discarded after a header error

  /** Newest event last. */
  datatype History = Start | Then(past: History, event: Event)

  ghost predicate Within(p: History, h: History) {
    p == h || (h.Then? && Within(p, h.past))
  }

  // ---- locks ----

  /** The frame locks the store holds for the thread. */
  ghost function Held(h: History): multiset<int> {
    match h
    case Start => multiset{}
    case Then(p, Lock(serial, _, _)) => Held(p) + multiset{serial}
    case Then(p, Unlock(serial)) => Held(p) - multiset{serial}
    case Then(p, _) => Held(p)
  }

  /** Serial of the last frame written to the current file, 0 if there is none. */
  ghost function LastFrame(h: History): int {
    match h
    case Start => 0
    case Then(_, Open(_)) => 0
    case Then(_, Frame(serial, _)) => serial
    case Then(p, _) => LastFrame(p)
  }

  ghost function Current(h: History): multiset<int> {
    if LastFrame(h) > 0 then multiset{LastFrame(h)} else multiset{}
  }

  /** Locks no later event can release: those of the last frame of an earlier file, forgotten when the next
      file was opened, and those the store took for a reply the thread rejected. */
  ghost function Lost(h: History): multiset<int> {
    match h
    case Start => multiset{}
    case Then(p, Open(_)) => Lost(p) + Current(p)
    case Then(p, Lock(serial, _, false)) => Lost(p) + multiset{serial}
    case Then(p, _) => Lost(p)
  }

  /** After these the thread asks for an I-frame: a new file, a failed lock, a frame released right after a probe. */
  ghost predicate Restarts(p: History, e: Event) {
    e.Open? || e.Fail? || (e.Unlock? && p.Then? && p.event.Probe?)
  }

  /** Something has restarted the stream, and no frame has been written since. */
  ghost predicate Restarting(h: History) {
    h.Then? && (Restarts(h.past, h.event) || (!h.event.Frame? && Restarting(h.past)))
  }

  /** While the stream is not restarting: the least serial of a frame to write next. */
  ghost function Wanted(h: History): int {
    match h
    case Start => 0
    case Then(_, Frame(serial, _)) => serial + 1
    case Then(_, Empty(serial)) => serial
    case Then(p, _) => Wanted(p)
  }

  // ---- lag probes ----

  /** Accepted locks since the last failure, probe or new file. */
  ghost function Successes(h: History): nat {
    match h
    case Start => 0
    case Then(_, Open(_)) => 0
    case Then(_, Fail) => 0
    case Then(_, Probe) => 0
    case Then(p, Lock(_, _, true)) => Successes(p) + 1
    case Then(p, _) => Successes(p)
  }

  /** The newest event is the fourth success, and an I-frame. */
  ghost predicate ProbeDue(h: History) {
    h.Then? && h.event.Lock? && h.event.iframe && h.event.accepted && Successes(h) == 4
  }

  // ---- files ----

  ghost function Frames(h: History): nat {
    match h
    case Start => 0
    case Then(p, Frame(_, _)) => Frames(p) + 1
    case Then(p, _) => Frames(p)
  }

  /** The serials of the frames written, oldest first. */
  ghost function Written(h: History): seq<int> {
    match h
    case Start => []
    case Then(p, Frame(serial, _)) => Written(p) + [serial]
    case Then(p, _) => Written(p)
  }

  lemma {:induction false} WrittenIsCounted(h: History)
    ensures |Written(h)| == Frames(h)
  {
    if h.Then? { WrittenIsCounted(h.past); }
  }

  /** Frames written to the current file. */
  ghost function InFile(h: History): nat {
    match h
    case Start => 0
    case Then(_, Open(_)) => 0
    case Then(p, Frame(_, _)) => InFile(p) + 1
    case Then(p, _) => InFile(p)
  }

  ghost function Total(h: History): nat {
    match h
    case Start => 0
    case Then(_, Open(total)) => total
    case Then(p, _) => Total(p)
  }

  ghost predicate FileOpen(h: History) {
    match h
    case Start => false
    case Then(_, Open(_)) => true
    case Then(_, Close(_)) => false
    case Then(_, Abort) => false
    case Then(p, _) => FileOpen(p)
  }

  /** Some file has reached its frame total. */
  ghost predicate Finished(h: History) {
    h.Then? && (h.event == Close(true) || Finished(h.past))
  }

  // ---- the laws ----

  /** What each event may be, given everything before it. */
  ghost predicate Lawful(p: History, e: Event) {
    && (e.Probe? <==> ProbeDue(p))
    && (e.Frame? ==>
          && e.serial >= 1 && e.serial in Held(p) && FileOpen(p)
          && e.restart == Restarting(p) && (e.restart || 1 <= LastFrame(p) < Wanted(p) <= e.serial))
    && (e.Empty? ==> !Restarting(p) && 1 <= LastFrame(p) < Wanted(p) <= e.serial)
    && (e.Unlock? ==> e.serial in Held(p) - Lost(p))
    && (e.Open? ==> 480 <= e.total <= 9000 && (FileOpen(p) ==> Finished(p)))
    && (e.Close? || e.Abort? ==> FileOpen(p))
    && (e == Close(false) ==> !Finished(p))
    && (e == Close(true) ==> FullFile(p))
    && |Held(p)| <= |Lost(p)| + 2
  }

  /** Frames before the current file. */
  ghost function Earlier(h: History): int {
    Frames(h) - InFile(h)
  }

  /** The frame counter is never reset, so only the first full file is sure to hold its total. */
  ghost predicate FullFile(p: History) {
    && (if Earlier(p) < Total(p) then Frames(p) == Total(p) else InFile(p) <= 1)
    && (!Finished(p) ==> InFile(p) == Total(p))
  }

  ghost predicate AllLawful(h: History) {
    h.Then? ==> AllLawful(h.past) && Lawful(h.past, h.event)
  }

  /** AllLawful speaks of every event of the history. */
  lemma {:induction false} LawfulEverywhere(h: History, p: History, e: Event)
    requires AllLawful(h) && Within(Then(p, e), h)
    ensures AllLawful(p) && Lawful(p, e)
  {
    if h != Then(p, e) { LawfulEverywhere(h.past, p, e); }
  }

  /** Restarting in terms of the events: a restarting one, and no frame between it and now. */
  lemma {:induction false} RestartingHasCause(h: History)
    ensures Restarting(h) <==> exists p, e :: Within(Then(p, e), h) && Restarts(p, e) && Frames(p) == Frames(h)
  {
    if h.Then? {
      RestartingHasCause(h.past);
      if Restarts(h.past, h.event) {
        assert Within(Then(h.past, h.event), h);
      } else if Restarting(h) {
        var p, e :| Within(Then(p, e), h.past) && Restarts(p, e) && Frames(p) == Frames(h.past);
        assert Within(Then(p, e), h);
      } else if p, e :| Within(Then(p, e), h) && Restarts(p, e) && Frames(p) == Frames(h) {
        FramesGrow(h.past, Then(p, e));
      }
    }
  }

  lemma {:induction false} FramesGrow(h: History, p: History)
    requires Within(p, h)
    ensures Frames(p) <= Frames(h)
  {
    if p != h { FramesGrow(h.past, p); }
  }

  ghost function Count(h: History, locks: bool): nat {
    match h
    case Start => 0
    case Then(p, Lock(_, _, _)) => Count(p, locks) + if locks then 1 else 0
    case Then(p, Unlock(_)) => Count(p, locks) + if locks then 0 else 1
    case Then(p, _) => Count(p, locks)
  }

  /** No unlock is wasted: locks taken minus locks released is the number held. */
  lemma {:induction false} LocksMinusUnlocks(h: History)
    requires AllLawful(h)
    ensures Count(h, true) == Count(h, false) + |Held(h)|
  {
    if h.Then? {
      LocksMinusUnlocks(h.past);
      if h.event.Unlock? {
        assert h.event.serial in Held(h.past);
      }
    }
  }

  lemma {:induction false} TotalsInRange(h: History)
    requires AllLawful(h) && FileOpen(h)
    ensures 480 <= Total(h) <= 9000
  {
    if !h.event.Open? { TotalsInRange(h.past); }
  }

  /** Files opened while the last frame of the file before was still locked. */
  ghost function Forgotten(h: History): nat {
    match h
    case Start => 0
    case Then(p, Open(_)) => Forgotten(p) + if LastFrame(p) > 0 then 1 else 0
    case Then(p, _) => Forgotten(p)
  }

  /** Locks the store took for replies the thread rejected. */
  ghost function Strays(h: History): nat {
    match h
    case Start => 0
    case Then(p, Lock(_, _, accepted)) => Strays(p) + if accepted then 0 else 1
    case Then(p, _) => Strays(p)
  }

  lemma {:induction false} LostCount(h: History)
    ensures |Lost(h)| == Forgotten(h) + Strays(h)
  {
    if h.Then? { LostCount(h.past); }
  }
}
