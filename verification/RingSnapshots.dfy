/**
  What a snapshot of the shared ring buffer returns while pushes and pops go on, overwriting
  pushes included.
 */
module RingSnapshots {
  import opened RingBuffers
  import opened RingInterleaving

  /** The slot is one that the snapshot in progress has yet to read. */
  predicate Unread<T>(s: State<T>, slot: nat) {
    s.reader.SnapRead? && Distance(s.reader.idx, slot, |s.slots|) < Distance(s.reader.idx, s.reader.tail, |s.slots|)
  }

  /** The step writes no slot that the snapshot has yet to read, and starts no new snapshot. */
  ghost predicate KeepsUnread<T>(s: State<T>, a: Action<T>) {
    && (a.Produce? && s.producer.WriteSlot? ==> !Unread(s, s.producer.tail))
    && (a.Read? ==> !s.reader.SnapDone?)
  }

  ghost predicate KeepsUnreadRun<T>(s: State<T>, actions: seq<Action<T>>)
    requires s.Typed()
    decreases |actions|
  {
    actions == [] || (KeepsUnread(s, actions[0]) && KeepsUnreadRun(Next(s, actions[0]), actions[1..]))
  }

  /** What the snapshot has read and what it has yet to read make up the view. */
  ghost predicate Collecting<T>(s: State<T>, view: seq<T>) {
    && s.Typed()
    && match s.reader
       case SnapRead(idx, t, result) => result + Unwrap(s.slots, idx, t) == view
       case SnapDone(result) => result == view
       case _ => false
  }

  lemma WriteElsewhere<T>(slots: seq<T>, from: nat, until: nat, slot: nat, x: T)
    requires from < |slots| && until < |slots| && slot < |slots|
    requires Distance(from, slot, |slots|) >= Distance(from, until, |slots|)
    ensures Unwrap(slots[slot := x], from, until) == Unwrap(slots, from, until)
  {
  }

  lemma ReaderCollects<T>(s: State<T>, view: seq<T>)
    requires Collecting(s, view) && s.reader.SnapRead?
    ensures Collecting(Next(s, Read), view)
  {
    var SnapRead(idx, t, result) := s.reader;
    if idx != t {
      UnwrapPop(s.slots, idx, t);
      hide Unwrap;
      assert result + ([s.slots[idx]] + Unwrap(s.slots, Succ(s, idx), t)) ==
        result + [s.slots[idx]] + Unwrap(s.slots, Succ(s, idx), t);
    }
  }

  lemma OthersKeepCollecting<T>(s: State<T>, a: Action<T>, view: seq<T>)
    requires Collecting(s, view) && !a.Read? && KeepsUnread(s, a)
    ensures Collecting(Next(s, a), view)
  {
    if a.Produce? && s.producer.WriteSlot? && s.reader.SnapRead? {
      WriteElsewhere(s.slots, s.reader.idx, s.reader.tail, s.producer.tail, s.producer.item);
    }
    hide Unwrap;
  }

  /** A write tears the snapshot in progress if and only if it puts another item into an unread slot. */
  lemma WriteKeepsViewIff<T>(s: State<T>, x: T, view: seq<T>)
    requires Collecting(s, view) && s.producer.WriteSlot? && s.reader.SnapRead?
    ensures Collecting(Next(s, Produce(x)), view) <==>
            !Unread(s, s.producer.tail) || s.slots[s.producer.tail] == s.producer.item
  {
    var SnapRead(idx, t, result) := s.reader;
    var slot, item := s.producer.tail, s.producer.item;
    if Unread(s, slot) {
      var k := Distance(idx, slot, |s.slots|);
      ReadAt(s.slots, idx, t, k);
      ReadAt(s.slots[slot := item], idx, t, k);
      if s.slots[slot] == item {
        assert s.slots[slot := item] == s.slots;
      } else {
        assert (result + Unwrap(s.slots, idx, t))[|result| + k] == s.slots[slot];
        assert (result + Unwrap(s.slots[slot := item], idx, t))[|result| + k] == item;
      }
    } else {
      WriteElsewhere(s.slots, idx, t, slot, item);
    }
  }

  lemma ReadAt<T>(slots: seq<T>, from: nat, until: nat, k: nat)
    requires from < |slots| && until < |slots| && k < Distance(from, until, |slots|)
    ensures k < |Unwrap(slots, from, until)|
    ensures Unwrap(slots, from, until)[k] == slots[if from + k < |slots| then from + k else from + k - |slots|]
  {
  }

  lemma {:induction false} RunCollects<T>(s: State<T>, actions: seq<Action<T>>, view: seq<T>)
    requires Collecting(s, view) && KeepsUnreadRun(s, actions)
    ensures Collecting(RunFrom(s, actions), view)
    decreases |actions|
  {
    hide Unwrap;
    if actions != [] {
      if actions[0].Read? {
        ReaderCollects(s, view);
      } else {
        OthersKeepCollecting(s, actions[0], view);
      }
      RunCollects(Next(s, actions[0]), actions[1..], view);
    }
  }

  /**
    Whatever pushes and pops do meanwhile, as long as no slot is written that is yet to be
    read: the snapshot returns the last items that were pushed when it loaded the tail, as many
    as there are slots from the head it loaded to that tail.
   */
  lemma SnapshotReturnsLastPushed<T>(s: State<T>, actions: seq<Action<T>>)
    requires Recorded(s) && s.reader.SnapLoadTail? && Position(s, s.reader.head) >= 0
    requires KeepsUnreadRun(Next(s, Read), actions) && RunFrom(Next(s, Read), actions).reader.SnapDone?
    ensures RunFrom(Next(s, Read), actions).reader == SnapDone(s.pushed[Position(s, s.reader.head)..])
  {
    hide IsItem;
    var h := s.reader.head;
    UnwrapIsPushed(s, h);
    hide Unwrap;
    var view := Unwrap(s.slots, h, s.tail);
    assert [] + view == view;
    RunCollects(Next(s, Read), actions, view);
  }

  // ---------------------------------------------------------------------------------
  // The two loads
  // ---------------------------------------------------------------------------------

  /** Nobody moves the head between the snapshot's two loads, and afterwards KeepsUnread holds. */
  ghost predicate Calm<T>(s: State<T>, a: Action<T>)
    requires s.Typed()
  {
    (s.reader.SnapLoadTail? ==> Next(s, a).head == s.head) && KeepsUnread(s, a)
  }

  ghost predicate CalmRun<T>(s: State<T>, actions: seq<Action<T>>)
    requires s.Typed()
    decreases |actions|
  {
    actions == [] || (Calm(s, actions[0]) && CalmRun(Next(s, actions[0]), actions[1..]))
  }

  lemma {:induction false} CalmKeepsUnread<T>(s: State<T>, actions: seq<Action<T>>)
    requires s.Typed() && CalmRun(s, actions)
    ensures KeepsUnreadRun(s, actions)
    decreases |actions|
  {
    hide Next, KeepsUnread;
    if actions != [] {
      CalmKeepsUnread(Next(s, actions[0]), actions[1..]);
    }
  }

  /** The content is the last items pushed, as far as it starts at a pushed item. */
  ghost predicate ReturnsContent<T>(r: State<T>, moment: State<T>)
    requires moment.Typed()
  {
    r.reader == SnapDone(moment.Content()) && 0 <= First(moment) && moment.Content() == moment.pushed[First(moment)..]
  }

  lemma FromTailLoad<T>(s: State<T>, actions: seq<Action<T>>)
    requires Recorded(s) && 0 <= First(s) && s.reader == SnapLoadTail(s.head)
    requires KeepsUnreadRun(Next(s, Read), actions) && RunFrom(Next(s, Read), actions).reader.SnapDone?
    ensures ReturnsContent(RunFrom(Next(s, Read), actions), s)
  {
    SnapshotReturnsLastPushed(s, actions);
    UnwrapIsPushed(s, s.head);
  }

  lemma ReaderAfterStep<T>(s: State<T>, a: Action<T>)
    requires s.Typed() && (s.reader.SnapLoadHead? || s.reader == SnapLoadTail(s.head)) && Calm(s, a)
    requires !(a.Read? && s.reader.SnapLoadTail?)
    ensures var r := Next(s, a); r.reader.SnapLoadHead? || r.reader == SnapLoadTail(r.head)
  {
  }

  /**
    If moreover nobody moves the head between its two loads, a snapshot returns exactly the
    content of the buffer at one moment: when it loaded the tail.
   */
  lemma {:induction false} SnapshotIsOneMoment<T>(s: State<T>, actions: seq<Action<T>>) returns (moment: nat)
    requires Recorded(s) && CalmRun(s, actions)
    requires s.reader.SnapLoadHead? || s.reader == SnapLoadTail(s.head)
    requires forall k :: 0 <= k <= |actions| ==> 0 <= First(RunFrom(s, actions[..k]))
    requires RunFrom(s, actions).reader.SnapDone?
    ensures moment <= |actions| && ReturnsContent(RunFrom(s, actions), RunFrom(s, actions[..moment]))
    decreases |actions|
  {
    hide Recorded, ReturnsContent, Calm, First, Next;
    assert actions[..0] == [] && RunFrom(s, actions[..0]) == s;
    var a, rest := actions[0], actions[1..];
    if a.Read? && s.reader.SnapLoadTail? {
      CalmKeepsUnread(Next(s, a), rest);
      FromTailLoad(s, rest);
      moment := 0;
    } else {
      StepKeepsRecorded(s, a);
      ReaderAfterStep(s, a);
      forall k | 0 <= k <= |rest| ensures RunFrom(Next(s, a), rest[..k]) == RunFrom(s, actions[..k + 1]) {
        assert actions[..k + 1][0] == a && actions[..k + 1][1..] == rest[..k];
      }
      var m := SnapshotIsOneMoment(Next(s, a), rest);
      moment := m + 1;
    }
  }

  /** How many items a snapshot returns that does not find the head where it loaded it. */
  lemma MovedHeadChangesSnapshot<T>(s: State<T>, actions: seq<Action<T>>)
    requires Recorded(s) && s.reader.SnapLoadTail? && 0 <= Position(s, s.reader.head) && 0 <= First(s)
    requires KeepsUnreadRun(Next(s, Read), actions) && RunFrom(Next(s, Read), actions).reader.SnapDone?
    ensures ReturnsContent(RunFrom(Next(s, Read), actions), s) <==> s.reader.head == s.head
    ensures RunFrom(Next(s, Read), actions).reader == SnapDone([]) <==> s.reader.head == s.tail
  {
    SnapshotReturnsLastPushed(s, actions);
    UnwrapIsPushed(s, s.head);
    PositionInjective(s, s.reader.head, s.head);
    PositionInjective(s, s.reader.head, s.tail);
  }

  /** Snapshots of a log that nobody pops from, overwriting pushes included. */
  lemma LogSnapshotIsOneMoment<T>(s: State<T>, actions: seq<Action<T>>) returns (moment: nat)
    requires Invariant(s) && HeadsCurrent(s) && NoPops(actions) && s.consumer.PopLoadHead?
    requires CalmRun(s, actions) && s.reader.SnapLoadHead? && RunFrom(s, actions).reader.SnapDone?
    ensures moment <= |actions| && ReturnsContent(RunFrom(s, actions), RunFrom(s, actions[..moment]))
  {
    NoPopsIsExclusive(s, actions);
    ExclusiveRunIsSmooth(s, actions);
    RunKeepsFifoIffSmooth(s, actions);
    hide Recorded, PopIsAhead, StallIsKnown, HeadsCurrent, CalmRun;
    forall k | 0 <= k <= |actions| ensures 0 <= First(RunFrom(s, actions[..k])) {
      assert Fifo(RunFrom(s, actions[..k]));
    }
    moment := SnapshotIsOneMoment(s, actions);
  }
}
