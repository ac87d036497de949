/** The descriptor table of Avi_Ctrl: one listening socket in slot 0 and up to four clients. */
module AviControl {

  const AVI_LISTEN: nat := 5

  type Slots = s: seq<int> | |s| == AVI_LISTEN witness [0, 0, 0, 0, 0]

  /** What a read on a client, and the answer to its message, came to. */
  datatype Talk = Talk(readLen: int, answerLen: int, writeFails: bool, badDescriptor: bool)

  /** One turn of the server loop, as the system calls see it: the descriptors select reports (none on error or
      timeout), the result of accept, and what happens on each slot that is read. */
  datatype Round = Round(ready: set<int>, accepted: int, talks: nat -> Talk)

  predicate Closes(t: Talk) {
    t.readLen <= 3 || (t.answerLen != 0 && t.writeFails && t.badDescriptor)
  }

  /** The slots, and the client descriptors accepted and not yet closed. */
  datatype Table = Table(slots: Slots, open: set<int>)

  /** The table after a round, and the descriptors read in it, in order. */
  datatype Outcome = Outcome(t: Table, served: seq<int>)

  function FreeSlot(slots: seq<int>, i: nat): (k: nat)
    ensures i <= |slots| ==> i <= k <= |slots|
    ensures forall j :: i <= j < k && j < |slots| ==> slots[j] > 0
    ensures i <= k < |slots| ==> slots[k] <= 0
    decreases |slots| - i
  {
    if i >= |slots| || slots[i] <= 0 then i else FreeSlot(slots, i + 1)
  }

  /** Slots i and up, in turn. */
  function ServeFrom(t: Table, ready: set<int>, talks: nat -> Talk, i: nat): Outcome
    decreases AVI_LISTEN - i
  {
    if i >= AVI_LISTEN then Outcome(t, [])
    else
      var fd := t.slots[i];
      if fd !in ready then ServeFrom(t, ready, talks, i + 1)
      else
        var o := if Closes(talks(i)) then ServeFrom(Table(t.slots[i := 0], t.open - {fd}), ready - {fd}, talks, i + 1)
                 else ServeFrom(t, ready, talks, i + 1);
        Outcome(o.t, [fd] + o.served)
  }

  /** One slot at a time, with what has been read so far in front. */
  lemma ServeSlot(t: Table, ready: set<int>, talks: nat -> Talk, i: nat, served: seq<int>)
    requires i < AVI_LISTEN
    ensures var fd, closed := t.slots[i], Closes(talks(i));
      Joined(served, ServeFrom(t, ready, talks, i)) ==
        if fd !in ready then Joined(served, ServeFrom(t, ready, talks, i + 1))
        else if !closed then Joined(served + [fd], ServeFrom(t, ready, talks, i + 1))
        else Joined(served + [fd], ServeFrom(Table(t.slots[i := 0], t.open - {fd}), ready - {fd}, talks, i + 1))
  {
    var o := ServeFrom(t, ready, talks, i);
    if t.slots[i] in ready { assert served + o.served == (served + [o.served[0]]) + o.served[1..]; }
  }

  function Joined(served: seq<int>, o: Outcome): Outcome {
    Outcome(o.t, served + o.served)
  }

  function Step(t: Table, r: Round): Outcome {
    if r.ready == {} then Outcome(t, [])
    else if t.slots[0] !in r.ready then ServeFrom(t, r.ready, r.talks, 1)
    else if r.accepted < 0 then Outcome(t, [])
    else
      var k := FreeSlot(t.slots, 1);
      if k == AVI_LISTEN then Outcome(t.(open := t.open + {r.accepted} - {r.accepted}), [])
      else
        var u := Table(t.slots[k := r.accepted], t.open + {r.accepted});
        if r.ready == {t.slots[0]} then Outcome(u, []) else ServeFrom(u, r.ready, r.talks, 1)
  }

  ghost predicate DistinctClients(slots: Slots) {
    forall i, j :: 1 <= i < j < AVI_LISTEN && slots[j] > 0 ==> slots[i] != slots[j]
  }

  ghost predicate Consistent(t: Table) {
    && t.slots[0] > 0 && t.slots[0] !in t.open
    && DistinctClients(t.slots)
    && (forall i :: 1 <= i < AVI_LISTEN && t.slots[i] > 0 ==> t.slots[i] in t.open)
    && (forall fd :: fd in t.open ==> fd > 0 && exists i :: 1 <= i < AVI_LISTEN && t.slots[i] == fd)
  }

  /** select reports only descriptors it was given, and accept returns one that is not in use. */
  ghost predicate Possible(t: Table, r: Round) {
    && r.ready <= t.open + {t.slots[0]}
    && (r.accepted >= 0 ==> r.accepted > 0 && r.accepted !in t.open + {t.slots[0]})
  }

  /** The ready descriptors of slots i and up, in slot order. */
  ghost function ReadyInOrder(slots: seq<int>, ready: set<int>, i: nat): seq<int>
    decreases |slots| - i
  {
    if i >= |slots| then []
    else (if slots[i] in ready then [slots[i]] else []) + ReadyInOrder(slots, ready, i + 1)
  }

  lemma DropSlot(t: Table, i: nat)
    requires Consistent(t) && 1 <= i < AVI_LISTEN && t.slots[i] in t.open
    ensures Consistent(Table(t.slots[i := 0], t.open - {t.slots[i]}))
  {
    var u := Table(t.slots[i := 0], t.open - {t.slots[i]});
    assert DistinctClients(u.slots);
    forall fd | fd in u.open
      ensures fd > 0 && exists j :: 1 <= j < AVI_LISTEN && u.slots[j] == fd
    {
      var j :| 1 <= j < AVI_LISTEN && t.slots[j] == fd;
      assert u.slots[j] == fd;
    }
  }

  lemma ReadySlot(slots: seq<int>, ready: set<int>, i: nat)
    requires i < |slots|
    ensures ReadyInOrder(slots, ready, i) ==
      (if slots[i] in ready then [slots[i]] else []) + ReadyInOrder(slots, ready, i + 1)
  {
  }

  lemma {:induction false} ReadyInOrderIgnores(
      slots: seq<int>, other: seq<int>, ready: set<int>, less: set<int>, i: nat)
    requires |slots| == |other|
    requires forall j :: i <= j < |slots| ==> slots[j] == other[j] && (slots[j] in ready <==> slots[j] in less)
    ensures ReadyInOrder(slots, ready, i) == ReadyInOrder(other, less, i)
    decreases |slots| - i
  {
    if i < |slots| {
      ReadySlot(slots, ready, i);
      ReadySlot(other, less, i);
      hide ReadyInOrder;
      assert slots[i] == other[i] && (slots[i] in ready <==> slots[i] in less);
      ReadyInOrderIgnores(slots, other, ready, less, i + 1);
    }
  }

  /** Serving keeps the table consistent and reads exactly the ready slots, each once; slots can only be cleared. */
  lemma {:induction false} ServeKeeps(t: Table, ready: set<int>, talks: nat -> Talk, i: nat)
    requires Consistent(t) && 1 <= i && ready <= t.open + {t.slots[0]}
    ensures var o := ServeFrom(t, ready, talks, i);
      && Consistent(o.t) && o.t.slots[0] == t.slots[0] && o.t.open <= t.open
      && o.served == ReadyInOrder(t.slots, ready, i)
      && forall fd :: fd in t.open - ready ==> fd in o.t.open
    decreases AVI_LISTEN - i
  {
    hide Consistent;
    if i < AVI_LISTEN {
      var fd := t.slots[i];
      if fd in ready && Closes(talks(i)) {
        SlotIsOpen(t, i, ready);
        DropSlot(t, i);
        var u := Table(t.slots[i := 0], t.open - {fd});
        ServeKeeps(u, ready - {fd}, talks, i + 1);
        ReadyInOrderIgnores(t.slots, u.slots, ready, ready - {fd}, i + 1);
      } else {
        ServeKeeps(t, ready, talks, i + 1);
      }
    }
  }

  lemma SlotIsOpen(t: Table, i: nat, ready: set<int>)
    requires Consistent(t) && 1 <= i < AVI_LISTEN && ready <= t.open + {t.slots[0]} && t.slots[i] in ready
    ensures t.slots[i] in t.open
    ensures forall j :: i < j < AVI_LISTEN ==> t.slots[j] != t.slots[i]
  {
  }

  lemma AdmitDistinct(slots: Slots, fd: int, k: nat)
    requires DistinctClients(slots) && 1 <= k < AVI_LISTEN
    requires forall i :: 1 <= i < AVI_LISTEN ==> slots[i] != fd
    ensures DistinctClients(slots[k := fd])
  {
  }

  lemma AdmitKeeps(t: Table, fd: int, k: nat)
    requires Consistent(t) && 1 <= k < AVI_LISTEN && t.slots[k] <= 0 && fd > 0 && fd !in t.open + {t.slots[0]}
    ensures Consistent(Table(t.slots[k := fd], t.open + {fd}))
  {
    var u := Table(t.slots[k := fd], t.open + {fd});
    assert u.slots[k] == fd;
    AdmitDistinct(t.slots, fd, k);
    hide DistinctClients;
    forall x | x in u.open
      ensures x > 0 && exists j :: 1 <= j < AVI_LISTEN && u.slots[j] == x
    {
      if x != fd {
        var j :| 1 <= j < AVI_LISTEN && t.slots[j] == x;
        assert u.slots[j] == x;
      }
    }
  }

  /** At most four clients: the slots are the only place for them. */
  lemma AtMostFour(t: Table)
    requires Consistent(t)
    ensures |t.open| <= 4
  {
    var s := t.slots;
    var all := {s[1]} + {s[2]} + {s[3]} + {s[4]};
    forall fd | fd in t.open
      ensures fd in all
    {
      var i :| 1 <= i < AVI_LISTEN && s[i] == fd;
    }
    SubsetSize(t.open, all);
  }

  lemma SubsetSize(a: set<int>, b: set<int>)
    requires a <= b
    ensures |a| <= |b|
  {
    assert b == a + (b - a);
  }

  lemma {:induction false} ServedAreReady(slots: seq<int>, ready: set<int>, i: nat)
    ensures forall fd :: fd in ReadyInOrder(slots, ready, i) <==>
      exists j :: i <= j < |slots| && slots[j] == fd && fd in ready
    decreases |slots| - i
  {
    if i < |slots| { ServedAreReady(slots, ready, i + 1); }
  }

  ghost predicate Distinct(l: seq<int>) {
    forall a, b :: 0 <= a < b < |l| ==> l[a] != l[b]
  }

  lemma {:induction false} ServedOnce(slots: seq<int>, ready: set<int>, i: nat)
    requires forall a, b :: i <= a < b < |slots| && slots[b] in ready ==> slots[a] != slots[b]
    ensures Distinct(ReadyInOrder(slots, ready, i))
    decreases |slots| - i
  {
    if i < |slots| {
      ServedOnce(slots, ready, i + 1);
      ServedAreReady(slots, ready, i + 1);
      var l, whole := ReadyInOrder(slots, ready, i + 1), ReadyInOrder(slots, ready, i);
      if slots[i] in ready {
        assert whole == [slots[i]] + l;
        forall b | 0 <= b < |l|
          ensures l[b] != slots[i]
        {
          assert l[b] in l;
        }
      } else {
        assert whole == l;
      }
    }
  }

  /** Serving a table whose ready descriptors were watched: each open and ready one is read, once, and no other. */
  lemma ServeReads(t: Table, r: Round)
    requires Consistent(t) && r.ready <= t.open + {t.slots[0]}
    ensures var o := ServeFrom(t, r.ready, r.talks, 1);
      && Consistent(o.t) && o.t.slots[0] == t.slots[0]
      && (forall fd :: fd in o.served <==> fd in t.open && fd in r.ready)
      && Distinct(o.served)
  {
    ServeKeeps(t, r.ready, r.talks, 1);
    ServedAreReady(t.slots, r.ready, 1);
    ServedOnce(t.slots, r.ready, 1);
    ServedAreOpen(t, r);
  }

  // ---- what a round does, from what the system calls report ----

  /** A connection is accepted and kept: the listener is ready, accept succeeds, and fewer than four clients are
      open. */
  ghost predicate Admits(t: Table, r: Round) {
    t.slots[0] in r.ready && r.accepted > 0 && |t.open| < 4
  }

  /** The descriptor is an open client that is read: one that is ready, in a round that reaches the clients. A round in
      which accept fails or finds four clients ends there. */
  ghost predicate Reads(t: Table, r: Round, fd: int) {
    fd in t.open && fd in r.ready && (t.slots[0] in r.ready ==> Admits(t, r))
  }

  /** The client in slot i is read, and its connection is over: at most 3 bytes came, or the answer could not be written
      because the descriptor is bad. */
  ghost predicate HangsUp(t: Table, r: Round, i: nat)
    requires i < AVI_LISTEN
  {
    var talk := r.talks(i);
    && Reads(t, r, t.slots[i])
    && (talk.readLen <= 3 || (talk.answerLen != 0 && talk.writeFails && talk.badDescriptor))
  }

  /** A slot is free exactly when fewer than four clients are open. */
  lemma FreeSlotExactly(t: Table)
    requires Consistent(t)
    ensures FreeSlot(t.slots, 1) < AVI_LISTEN <==> |t.open| < 4
  {
    var s, k := t.slots, FreeSlot(t.slots, 1);
    if k < AVI_LISTEN {
      FewerThanFour(t, k);
    } else {
      assert s[1] != s[2] && s[1] != s[3] && s[1] != s[4] && s[2] != s[3] && s[2] != s[4] && s[3] != s[4];
      assert |{s[1], s[2], s[3], s[4]}| == 4;
      SubsetSize({s[1], s[2], s[3], s[4]}, t.open);
    }
  }

  lemma FewerThanFour(t: Table, k: nat)
    requires Consistent(t) && 1 <= k < AVI_LISTEN && t.slots[k] <= 0
    ensures |t.open| < 4
  {
    var s := t.slots;
    var all := {s[1], s[2], s[3], s[4]} - {s[k]};
    forall fd | fd in t.open
      ensures fd in all
    {
      var i :| 1 <= i < AVI_LISTEN && s[i] == fd;
    }
    SubsetSize(t.open, all);
    AtMostThree(s[1], s[2], s[3], s[4], s[k]);
  }

  lemma AtMostThree(a: int, b: int, c: int, d: int, x: int)
    requires x == a || x == b || x == c || x == d
    ensures |{a, b, c, d} - {x}| <= 3
  {
    assert {a, b, c, d} == ({a, b, c, d} - {x}) + {x};
    var some := {a} + {b} + {c} + {d};
    assert {a, b, c, d} == some;
  }

  /** Serving clears the slots whose connections ended, and no others. */
  lemma {:induction false} ServeSlots(t: Table, ready: set<int>, talks: nat -> Talk, i: nat)
    requires Consistent(t) && 1 <= i && ready <= t.open + {t.slots[0]}
    ensures var o := ServeFrom(t, ready, talks, i);
      forall j :: 0 <= j < AVI_LISTEN ==>
        o.t.slots[j] == if j >= i && t.slots[j] in ready && Closes(talks(j)) then 0 else t.slots[j]
    decreases AVI_LISTEN - i
  {
    hide Consistent;
    hide Closes;
    if i < AVI_LISTEN {
      var fd := t.slots[i];
      if fd in ready && Closes(talks(i)) {
        SlotIsOpen(t, i, ready);
        DropSlot(t, i);
        ServeSlots(Table(t.slots[i := 0], t.open - {fd}), ready - {fd}, talks, i + 1);
      } else {
        ServeSlots(t, ready, talks, i + 1);
      }
    }
  }

  /** The table with the accepted connection in the first free slot. */
  ghost function Admitted(t: Table, r: Round): Table
    requires FreeSlot(t.slots, 1) < AVI_LISTEN
  {
    Table(t.slots[FreeSlot(t.slots, 1) := r.accepted], t.open + {r.accepted})
  }

  lemma StepAdmits(t: Table, r: Round)
    requires Consistent(t) && Possible(t, r) && Admits(t, r)
    ensures 1 <= FreeSlot(t.slots, 1) < AVI_LISTEN && t.slots[FreeSlot(t.slots, 1)] <= 0
    ensures Consistent(Admitted(t, r))
    ensures Step(t, r) == if r.ready == {t.slots[0]} then Outcome(Admitted(t, r), [])
                          else ServeFrom(Admitted(t, r), r.ready, r.talks, 1)
  {
    FreeSlotExactly(t);
    AdmitKeeps(t, r.accepted, FreeSlot(t.slots, 1));
    hide Consistent;
    hide ServeFrom;
  }

  lemma StepServes(t: Table, r: Round)
    requires Consistent(t) && Possible(t, r) && !Admits(t, r)
    ensures Step(t, r) == if t.slots[0] in r.ready || r.ready == {} then Outcome(t, [])
                          else ServeFrom(t, r.ready, r.talks, 1)
  {
    FreeSlotExactly(t);
    assert t.open + {r.accepted} - {r.accepted} == t.open || r.accepted in t.open;
    hide Consistent;
    hide ServeFrom;
  }

  /** One round: the table stays consistent; exactly the clients that Reads describes are read, each once, never the one
      just accepted. */
  lemma StepKeeps(t: Table, r: Round)
    requires Consistent(t) && Possible(t, r)
    ensures var o := Step(t, r);
      && Consistent(o.t) && o.t.slots[0] == t.slots[0]
      && r.accepted !in o.served && Distinct(o.served)
      && (forall fd :: fd in o.served <==> Reads(t, r, fd))
  {
    ListenerIsNoClient(t);
    if Admits(t, r) {
      StepAdmits(t, r);
      ServeReads(Admitted(t, r), r);
    } else {
      StepServes(t, r);
      ServeReads(t, r);
    }
    hide Step;
    hide ServeFrom;
    hide Consistent;
  }

  lemma ListenerIsNoClient(t: Table)
    requires Consistent(t)
    ensures t.slots[0] !in t.open
  {
  }

  lemma ClientSlots(t: Table)
    requires Consistent(t)
    ensures t.slots[0] !in t.open
    ensures forall i :: 1 <= i < AVI_LISTEN ==> (t.slots[i] > 0 <==> t.slots[i] in t.open)
  {
  }

  /** A client keeps its slot until its connection ends; an accepted one, and nothing else, gets a free slot. */
  lemma StepSlots(t: Table, r: Round)
    requires Consistent(t) && Possible(t, r)
    ensures var o := Step(t, r);
      && (forall i :: 1 <= i < AVI_LISTEN && t.slots[i] > 0 ==>
            o.t.slots[i] == if HangsUp(t, r, i) then 0 else t.slots[i])
      && (forall i :: 1 <= i < AVI_LISTEN && t.slots[i] <= 0 && o.t.slots[i] > 0 ==>
            Admits(t, r) && o.t.slots[i] == r.accepted)
      && (Admits(t, r) ==> exists i :: 1 <= i < AVI_LISTEN && o.t.slots[i] == r.accepted)
  {
    ClientSlots(t);
    if t.slots[0] !in r.ready {
      ServedSlots(t, r);
      hide Step;
      hide ServeFrom;
      hide Consistent;
      hide Closes;
    } else if Admits(t, r) {
      AdmittedSlots(t, r);
      hide Step;
      hide Consistent;
      hide Closes;
    } else {
      FreeSlotExactly(t);
    }
  }

  lemma ServedSlots(t: Table, r: Round)
    requires Consistent(t) && Possible(t, r) && t.slots[0] !in r.ready
    ensures forall j :: 0 <= j < AVI_LISTEN ==>
      Step(t, r).t.slots[j] == if j >= 1 && t.slots[j] in r.ready && Closes(r.talks(j)) then 0 else t.slots[j]
  {
    if r.ready != {} { ServeSlots(t, r.ready, r.talks, 1); }
    hide ServeFrom;
    hide Consistent;
    hide Closes;
  }

  lemma AdmittedSlots(t: Table, r: Round)
    requires Consistent(t) && Possible(t, r) && Admits(t, r)
    ensures var k, v := FreeSlot(t.slots, 1), Step(t, r).t.slots;
      && 1 <= k < AVI_LISTEN && t.slots[k] <= 0 && v[k] == r.accepted
      && forall j :: 1 <= j < AVI_LISTEN && j != k ==>
           v[j] == if t.slots[j] in r.ready && Closes(r.talks(j)) then 0 else t.slots[j]
  {
    ClientSlots(t);
    StepAdmits(t, r);
    var u := Admitted(t, r);
    ServeSlots(u, r.ready, r.talks, 1);
    hide Step;
    hide ServeFrom;
    hide Consistent;
    hide Closes;
  }

  /** The client has hung up in this round. */
  ghost predicate Ends(t: Table, r: Round, fd: int) {
    exists i :: 1 <= i < AVI_LISTEN && t.slots[i] == fd && HangsUp(t, r, i)
  }

  /** The open clients after a round, from the round alone: those before, with the one accepted, without those whose
      connection ended. */
  lemma StepOpen(t: Table, r: Round, fd: int)
    requires Consistent(t) && Possible(t, r)
    ensures fd in Step(t, r).t.open <==> (Admits(t, r) && fd == r.accepted) || (fd in t.open && !Ends(t, r, fd))
  {
    var u := Step(t, r).t;
    StepSlots(t, r);
    StepKeeps(t, r);
    hide Step;
    hide HangsUp;
    hide Admits;
    if fd in u.open {
      var i :| 1 <= i < AVI_LISTEN && u.slots[i] == fd;
      if t.slots[i] > 0 {
        assert t.slots[i] == fd && forall j :: 1 <= j < AVI_LISTEN && t.slots[j] == fd ==> j == i;
      }
    }
    if fd in t.open && !Ends(t, r, fd) {
      var i :| 1 <= i < AVI_LISTEN && t.slots[i] == fd;
      assert u.slots[i] == fd;
    }
  }

  lemma ServedAreOpen(t: Table, r: Round)
    requires Consistent(t)
    ensures forall fd :: (exists j :: 1 <= j < |t.slots| && t.slots[j] == fd && fd in r.ready) && fd > 0 <==>
      fd in t.open && fd in r.ready
  {
  }

  /** Runs of the server loop. */
  function Rounds(t: Table, rs: seq<Round>): Table
    decreases |rs|
  {
    if rs == [] then t else Rounds(Step(t, rs[0]).t, rs[1..])
  }

  ghost predicate AllPossible(t: Table, rs: seq<Round>)
    decreases |rs|
  {
    rs == [] || (Possible(t, rs[0]) && AllPossible(Step(t, rs[0]).t, rs[1..]))
  }

  /** Every run keeps the client slots exactly the open descriptors, distinct, at most four. */
  lemma {:induction false} RunsKeepTable(t: Table, rs: seq<Round>)
    requires Consistent(t) && AllPossible(t, rs)
    ensures Consistent(Rounds(t, rs)) && |Rounds(t, rs).open| <= 4
    decreases |rs|
  {
    if rs == [] {
      AtMostFour(t);
    } else {
      StepKeeps(t, rs[0]);
      RunsKeepTable(Step(t, rs[0]).t, rs[1..]);
    }
  }

  lemma {:induction false} LastRound(t: Table, rs: seq<Round>, r: Round)
    ensures Rounds(t, rs + [r]) == Step(Rounds(t, rs), r).t
    decreases |rs|
  {
    if rs == [] {
      assert rs + [r] == [r];
    } else {
      assert (rs + [r])[1..] == rs[1..] + [r];
      LastRound(Step(t, rs[0]).t, rs[1..], r);
    }
  }

  /** The table of a server that has just started listening. */
  function Listening(server: int): Table {
    Table([server, 0, 0, 0, 0], {})
  }

  /** From the start: whatever is accepted, read and closed, the client slots are exactly the open descriptors. */
  lemma EveryRunKeepsTable(server: int, rs: seq<Round>)
    requires server > 0 && AllPossible(Listening(server), rs)
    ensures Consistent(Rounds(Listening(server), rs)) && |Rounds(Listening(server), rs).open| <= 4
  {
    RunsKeepTable(Listening(server), rs);
  }

  /** A client accepted in round i of a run, and still connected at its end. */
  ghost predicate Remains(t: Table, rs: seq<Round>, fd: int, i: nat) {
    && i < |rs| && Admits(Rounds(t, rs[..i]), rs[i]) && fd == rs[i].accepted
    && forall j :: i < j < |rs| ==> !Ends(Rounds(t, rs[..j]), rs[j], fd)
  }

  /** The open clients of a server, from its rounds alone: exactly those accepted and not ended since. */
  lemma {:induction false} OpenIsAcceptedNotEnded(server: int, rs: seq<Round>, fd: int)
    requires server > 0 && AllPossible(Listening(server), rs)
    ensures fd in Rounds(Listening(server), rs).open <==> exists i :: Remains(Listening(server), rs, fd, i)
    decreases |rs|
  {
    var t := Listening(server);
    if rs == [] {
      assert Rounds(t, rs) == t;
    } else {
      var n := |rs| - 1;
      var init, before := rs[..n], Rounds(t, rs[..n]);
      assert rs == init + [rs[n]];
      PossiblePrefix(t, init, rs[n]);
      OpenIsAcceptedNotEnded(server, init, fd);
      RunsKeepTable(t, init);
      LastRound(t, init, rs[n]);
      StepOpen(before, rs[n], fd);
      hide *;
      RemainsLonger(t, rs, fd);
    }
  }

  lemma {:induction false} PossiblePrefix(t: Table, rs: seq<Round>, r: Round)
    requires AllPossible(t, rs + [r])
    ensures AllPossible(t, rs) && Possible(Rounds(t, rs), r)
    decreases |rs|
  {
    if rs == [] {
      assert (rs + [r])[0] == r;
    } else {
      assert (rs + [r])[0] == rs[0] && (rs + [r])[1..] == rs[1..] + [r];
      PossiblePrefix(Step(t, rs[0]).t, rs[1..], r);
    }
  }

  lemma RemainsLonger(t: Table, rs: seq<Round>, fd: int)
    requires rs != []
    ensures var n := |rs| - 1;
      (exists i :: Remains(t, rs, fd, i)) <==>
        || (Admits(Rounds(t, rs[..n]), rs[n]) && fd == rs[n].accepted)
        || ((exists i :: Remains(t, rs[..n], fd, i)) && !Ends(Rounds(t, rs[..n]), rs[n], fd))
  {
    hide Rounds;
    hide Admits;
    hide Ends;
    var n := |rs| - 1;
    var init := rs[..n];
    assert forall j :: 0 <= j <= n ==> init[..j] == rs[..j];
    if i: nat :| Remains(t, rs, fd, i) {
      if i < n { assert Remains(t, init, fd, i); }
    }
    if Admits(Rounds(t, rs[..n]), rs[n]) && fd == rs[n].accepted { assert Remains(t, rs, fd, n); }
    if i: nat :| Remains(t, init, fd, i) && !Ends(Rounds(t, rs[..n]), rs[n], fd) { assert Remains(t, rs, fd, i); }
  }

  ghost function Watched(t: Table): set<int> {
    t.open + {t.slots[0]}
  }

  /** A bound select may be given: one of the watched descriptors, and none is above it. */
  ghost predicate Bounds(max: int, t: Table) {
    max in Watched(t) && forall fd :: fd in Watched(t) ==> fd <= max
  }

  /** The maxima given to select before each round of a run. */
  ghost predicate AllBounds(t: Table, rs: seq<Round>, maxima: seq<int>) {
    |maxima| == |rs| && forall i :: 0 <= i < |rs| ==> Bounds(maxima[i], Rounds(t, rs[..i]))
  }

  lemma AllBoundsLast(t: Table, rs: seq<Round>, i: nat, maxima: seq<int>, max: int)
    requires i < |rs| && AllBounds(t, rs[..i], maxima) && Bounds(max, Rounds(t, rs[..i]))
    ensures AllBounds(t, rs[..i + 1], maxima + [max])
    ensures Rounds(t, rs[..i + 1]) == Step(Rounds(t, rs[..i]), rs[i]).t
  {
    hide Bounds;
    hide Step;
    var before, after := rs[..i], rs[..i + 1];
    assert after == before + [rs[i]];
    LastRound(t, before, rs[i]);
    forall j | 0 <= j < i + 1
      ensures Bounds((maxima + [max])[j], Rounds(t, after[..j]))
    {
      assert after[..j] == before[..j];
    }
  }

  lemma NextPossible(t: Table, rs: seq<Round>, i: nat)
    requires i < |rs| && AllPossible(t, rs[i..])
    ensures Possible(t, rs[i]) && AllPossible(Step(t, rs[i]).t, rs[i + 1..])
  {
    assert rs[i..][0] == rs[i] && rs[i..][1..] == rs[i + 1..];
    hide Possible;
    hide Step;
  }

  /** The loop of Avi_Ctrl over its descriptor array. */
  class Server {
    const slots: array<int>
    ghost var open: set<int>

    constructor (server: int)
      requires server > 0
      ensures fresh(slots) && slots.Length == AVI_LISTEN && Snapshot() == Listening(server) && Consistent(Snapshot())
    {
      slots := new int[AVI_LISTEN];
      open := {};
      new;
      var i := 0;
      while i < AVI_LISTEN
        invariant 0 <= i <= AVI_LISTEN && open == {}
        invariant forall j :: 0 <= j < i ==> slots[j] == 0
      {
        slots[i] := 0;
        i := i + 1;
      }
      slots[0] := server;
    }

    ghost function Snapshot(): Table
      requires slots.Length == AVI_LISTEN
      reads this, slots
    {
      Table(slots[..], open)
    }

    /** The first argument of select, less one. */
    method MaxDescriptor() returns (max: int)
      requires slots.Length == AVI_LISTEN && Consistent(Snapshot())
      ensures Bounds(max, Snapshot())
    {
      max := slots[0];
      var i := 1;
      while i < AVI_LISTEN
        invariant 1 <= i <= AVI_LISTEN
        invariant max in open + {slots[0]} && slots[0] <= max
        invariant forall j :: 1 <= j < i ==> slots[j] <= max
      {
        if slots[i] > 0 && max < slots[i] {
          max := slots[i];
        }
        i := i + 1;
      }
      assert Snapshot().slots == slots[..];
    }

    /** The loop: after any number of rounds the table is as the specification says, and the maxima given to select,
        round by round, were bounds on everything watched at the time. */
    method Run(rounds: seq<Round>) returns (maxima: seq<int>)
      requires slots.Length == AVI_LISTEN && Consistent(Snapshot()) && AllPossible(Snapshot(), rounds)
      modifies this, slots
      ensures Snapshot() == Rounds(old(Snapshot()), rounds) && Consistent(Snapshot()) && |open| <= 4
      ensures AllBounds(old(Snapshot()), rounds, maxima)
    {
      RunsKeepTable(Snapshot(), rounds);
      assert rounds[0..] == rounds;
      maxima := [];
      var i := 0;
      while i < |rounds|
        invariant 0 <= i <= |rounds|
        invariant Consistent(Snapshot()) && AllPossible(Snapshot(), rounds[i..])
        invariant Snapshot() == Rounds(old(Snapshot()), rounds[..i])
        invariant AllBounds(old(Snapshot()), rounds[..i], maxima)
      {
        hide *;
        var max := MaxDescriptor();
        AllBoundsLast(old(Snapshot()), rounds, i, maxima, max);
        NextPossible(Snapshot(), rounds, i);
        maxima := maxima + [max];
        var served := Turn(rounds[i]);
        i := i + 1;
      }
      assert rounds[..i] == rounds;
    }

    /** One round after select has reported. */
    method Turn(r: Round) returns (served: seq<int>)
      requires slots.Length == AVI_LISTEN && Consistent(Snapshot()) && Possible(Snapshot(), r)
      modifies this, slots
      ensures Outcome(Snapshot(), served) == Step(old(Snapshot()), r) && Consistent(Snapshot())
    {
      StepKeeps(Snapshot(), r);
      served := [];
      if r.ready == {} {
        return;
      }
      if slots[0] in r.ready {
        if r.accepted < 0 {
          return;
        }
        open := open + {r.accepted};
        var i := 1;
        while i < AVI_LISTEN && slots[i] > 0
          invariant 1 <= i <= AVI_LISTEN
          invariant FreeSlot(slots[..], i) == FreeSlot(slots[..], 1)
        {
          i := i + 1;
        }
        if i == AVI_LISTEN {
          open := open - {r.accepted};
          return;
        }
        slots[i] := r.accepted;
        if r.ready == {slots[0]} {
          return;
        }
      }
      served := Serve(r.ready, r.talks);
    }

    /** Reads every ready client slot in turn, clearing those whose connection ended. */
    method Serve(ready: set<int>, talks: nat -> Talk) returns (served: seq<int>)
      requires slots.Length == AVI_LISTEN
      modifies this, slots
      ensures Outcome(Snapshot(), served) == ServeFrom(old(Snapshot()), ready, talks, 1)
    {
      served := [];
      var left, i := ready, 1;
      while i < AVI_LISTEN
        invariant 1 <= i <= AVI_LISTEN
        invariant ServeFrom(old(Snapshot()), ready, talks, 1) == Joined(served, ServeFrom(Snapshot(), left, talks, i))
      {
        hide ServeFrom;
        hide Joined;
        ghost var before := Snapshot();
        ServeSlot(before, left, talks, i, served);
        if slots[i] in left {
          var fd := slots[i];
          served := served + [fd];
          if Closes(talks(i)) {
            left := left - {fd};
            open := open - {fd};
            slots[i] := 0;
            assert Snapshot() == Table(before.slots[i := 0], before.open - {fd});
          }
        }
        i := i + 1;
      }
    }
  }
}
