/**
  Blocks of steps that one thread takes in a row: uninterrupted pushes, pops and snapshots do
  what their sequential contracts say; and runs, reachable from the start, in which overlapping
  ones break the guarantee.
 */
module RingOverlaps {
  import opened RingBuffers
  import opened RingInterleaving

  // ---------------------------------------------------------------------------------
  // Blocks
  // ---------------------------------------------------------------------------------

  function Repeat<T>(a: Action<T>, n: nat): seq<Action<T>> {
    if n == 0 then [] else [a] + Repeat(a, n - 1)
  }

  function Iterate<T>(s: State<T>, a: Action<T>, n: nat): (r: State<T>)
    requires s.Typed()
    ensures r.Typed()
    decreases n
  {
    if n == 0 then s else Iterate(Next(s, a), a, n - 1)
  }

  lemma {:induction false} RunRepeat<T>(s: State<T>, a: Action<T>, n: nat)
    requires s.Typed()
    ensures RunFrom(s, Repeat(a, n)) == Iterate(s, a, n)
    decreases n
  {
    if n > 0 {
      assert Repeat(a, n)[1..] == Repeat(a, n - 1);
      RunRepeat(Next(s, a), a, n - 1);
    }
  }

  lemma IterateTwo<T>(s: State<T>, a: Action<T>, n: nat)
    requires s.Typed()
    ensures Iterate(s, a, n + 2) == Iterate(Next(Next(s, a), a), a, n)
  {
  }

  lemma {:induction false} RunAppend<T>(s: State<T>, first: seq<Action<T>>, second: seq<Action<T>>)
    requires s.Typed()
    ensures RunFrom(s, first + second) == RunFrom(RunFrom(s, first), second)
    decreases |first|
  {
    if first == [] {
      assert first + second == second;
    } else {
      assert (first + second)[1..] == first[1..] + second;
      RunAppend(Next(s, first[0]), first[1..], second);
    }
  }

  lemma RunBlock<T>(s: State<T>, a: Action<T>, n: nat, rest: seq<Action<T>>)
    requires s.Typed()
    ensures RunFrom(s, Repeat(a, n) + rest) == RunFrom(Iterate(s, a, n), rest)
  {
    RunAppend(s, Repeat(a, n), rest);
    RunRepeat(s, a, n);
  }

  // ---------------------------------------------------------------------------------
  // Uninterrupted operations
  // ---------------------------------------------------------------------------------

  // Pairs of steps of a push: it looks for room, drops the oldest item, writes its own.

  lemma LookForRoom<T>(s: State<T>, x: T)
    requires s.Typed() && s.producer.LoadTail?
    ensures Next(Next(s, Produce(x)), Produce(x)) ==
            s.(producer := if Full(s) then ReloadHead(x, s.tail) else WriteSlot(x, s.tail))
  {
  }

  lemma DropOldest<T>(s: State<T>, x: T)
    requires s.Typed() && s.producer.ReloadHead? && s.head != s.tail
    ensures Next(Next(s, Produce(x)), Produce(x)) ==
            s.(producer := WriteSlot(s.producer.item, s.producer.tail), head := Succ(s, s.head),
               dropped := Before(s.dropped, First(s) + 1) + Range(First(s), First(s) + 1))
  {
    SuccPosition(s, s.head);
  }

  lemma WriteAndPublish<T>(s: State<T>, x: T)
    requires s.Typed() && s.producer.WriteSlot?
    ensures Next(Next(s, Produce(x)), Produce(x)) ==
            s.(producer := LoadTail, slots := s.slots[s.producer.tail := s.producer.item],
               tail := Succ(s, s.producer.tail), pushed := s.pushed + [s.producer.item])
  {
  }

  /** Four steps of a push that does not find the buffer full. */
  lemma PlainPush<T>(s: State<T>, x: T)
    requires s.Typed() && s.producer.LoadTail? && !Full(s)
    ensures Iterate(s, Produce(x), 4) ==
            s.(slots := s.slots[s.tail := x], tail := Succ(s, s.tail), pushed := s.pushed + [x])
  {
    hide Next, Iterate;
    var p := Produce(x);
    var u := Next(Next(s, p), p);
    LookForRoom(s, x);
    WriteAndPublish(u, x);
    IterateTwo(s, p, 2);
    IterateTwo(u, p, 0);
    NoSteps(Next(Next(u, p), p), p);
  }

  /** The state of a push that has found the buffer full and dropped the oldest item. */
  ghost function Dropped<T>(s: State<T>, x: T): State<T>
    requires s.Typed()
  {
    s.(producer := WriteSlot(x, s.tail), head := Succ(s, s.head),
       dropped := Before(s.dropped, First(s) + 1) + Range(First(s), First(s) + 1))
  }

  lemma LookAndDrop<T>(s: State<T>, x: T)
    requires s.Typed() && s.producer.LoadTail? && Full(s)
    ensures Next(Next(Next(Next(s, Produce(x)), Produce(x)), Produce(x)), Produce(x)) == Dropped(s, x)
  {
    hide Next, Before, Range;
    FullIsNotEmpty(s);
    LookForRoom(s, x);
    DropOldest(s.(producer := ReloadHead(x, s.tail)), x);
  }

  /** Six steps of a push that finds the buffer full. */
  lemma FullPush<T>(s: State<T>, x: T)
    requires s.Typed() && s.producer.LoadTail? && Full(s)
    ensures Iterate(s, Produce(x), 6) ==
            s.(slots := s.slots[s.tail := x], head := Succ(s, s.head), tail := s.head, pushed := s.pushed + [x],
               dropped := Before(s.dropped, First(s) + 1) + Range(First(s), First(s) + 1))
  {
    hide Next, Iterate, Before, Range, First;
    var p, v := Produce(x), Dropped(s, x);
    LookAndDrop(s, x);
    WriteAndPublish(v, x);
    IterateTwo(s, p, 4);
    IterateTwo(Next(Next(s, p), p), p, 2);
    IterateTwo(v, p, 0);
    NoSteps(Next(Next(v, p), p), p);
  }

  /** A push that nobody interrupts does what the contract of the sequential Push says. */
  lemma UninterruptedPushIsSequential<T>(s: State<T>, x: T)
    requires s.Typed() && s.producer.LoadTail?
    ensures var n := if Full(s) then 6 else 4;
            Iterate(s, Produce(x), n).Content() == Enqueue(s.Content(), |s.slots| - 1, x)
  {
    EnqueueIntoSlots(s.slots, s.head, s.tail, x);
    if Full(s) {
      FullPush(s, x);
    } else {
      PlainPush(s, x);
    }
  }

  lemma LookForItem<T>(s: State<T>)
    requires s.Typed() && s.consumer.PopLoadHead?
    ensures Next(Next(s, Consume), Consume) == if s.head == s.tail then s else s.(consumer := ReadSlot(s.head))
  {
  }

  lemma TakeItem<T>(s: State<T>)
    requires s.Typed() && s.consumer == ReadSlot(s.head) && s.head != s.tail
    ensures Next(Next(s, Consume), Consume) ==
            s.(consumer := PopLoadHead, head := Succ(s, s.head), dropped := Before(s.dropped, First(s) + 1),
               popped := s.popped + [Return(First(s), s.slots[s.head])])
  {
    SuccPosition(s, s.head);
  }

  /** Four steps of a pop that finds an item. */
  lemma ReturnPopped<T>(s: State<T>)
    requires s.Typed() && s.consumer.PopLoadHead? && s.head != s.tail
    ensures Iterate(s, Consume, 4) ==
            s.(head := Succ(s, s.head), dropped := Before(s.dropped, First(s) + 1),
               popped := s.popped + [Return(First(s), s.slots[s.head])])
  {
    hide Next, Iterate;
    LookForItem(s);
    var u := s.(consumer := ReadSlot(s.head));
    TakeItem(u);
    IterateTwo(s, Consume, 2);
    IterateTwo(u, Consume, 0);
    NoSteps(Next(Next(u, Consume), Consume), Consume);
  }

  /** A pop that nobody interrupts does what the contract of the sequential Pop says. */
  lemma UninterruptedPopIsSequential<T>(s: State<T>)
    requires s.Typed() && s.consumer.PopLoadHead?
    ensures s.Content() == [] ==> Iterate(s, Consume, 2) == s
    ensures s.Content() != [] ==>
              var r := Iterate(s, Consume, 4);
              && r.popped == s.popped + [Return(First(s), s.Content()[0])]
              && s.Content() == [s.Content()[0]] + r.Content()
  {
    UnwrapLength(s.slots, s.head, s.tail);
    if s.head == s.tail {
      LookForItem(s);
      IterateTwo(s, Consume, 0);
    } else {
      ReturnPopped(s);
      UnwrapPop(s.slots, s.head, s.tail);
    }
  }

  lemma ReadOne<T>(s: State<T>)
    requires s.Typed() && s.reader.SnapRead?
    ensures var SnapRead(idx, t, result) := s.reader;
            Next(s, Read) == s.(reader := if idx == t then SnapDone(result)
                                          else SnapRead(Succ(s, idx), t, result + [s.slots[idx]]))
  {
  }

  lemma IterateFirst<T>(s: State<T>, a: Action<T>, n: nat)
    requires s.Typed()
    ensures Iterate(s, a, n + 1) == Iterate(Next(s, a), a, n)
  {
  }

  lemma {:induction false} ReadToTail<T>(s: State<T>)
    requires s.Typed() && s.reader.SnapRead?
    ensures var SnapRead(idx, t, result) := s.reader;
            var view := Unwrap(s.slots, idx, t);
            Iterate(s, Read, |view| + 1) == s.(reader := SnapDone(result + view))
    decreases |Unwrap(s.slots, s.reader.idx, s.reader.tail)|
  {
    hide Next, Iterate;
    var SnapRead(idx, t, result) := s.reader;
    var view := Unwrap(s.slots, idx, t);
    UnwrapLength(s.slots, idx, t);
    ReadOne(s);
    IterateFirst(s, Read, |view|);
    if idx == t {
      assert result + [] == result;
      NoSteps(Next(s, Read), Read);
    } else {
      UnwrapPop(s.slots, idx, t);
      hide Unwrap;
      ReadToTail(Next(s, Read));
      assert view == [s.slots[idx]] + view[1..];
      assert result + [s.slots[idx]] + view[1..] == result + view;
    }
  }

  /** A snapshot that nobody interrupts returns the content. */
  lemma UninterruptedSnapshotIsSequential<T>(s: State<T>)
    requires s.Typed() && s.reader.SnapLoadHead?
    ensures Iterate(s, Read, |s.Content()| + 3) == s.(reader := SnapDone(s.Content()))
  {
    var u := Next(Next(s, Read), Read);
    assert u == s.(reader := SnapRead(s.head, s.tail, []));
    IterateTwo(s, Read, |s.Content()| + 1);
    ReadToTail(u);
    assert [] + s.Content() == s.Content();
  }

  // ---------------------------------------------------------------------------------
  // A full log
  // ---------------------------------------------------------------------------------

  /** A snapshot with one push between its two loads. */
  ghost function PushBetweenLoads<T>(x: T): seq<Action<T>> {
    Repeat(Read, 1) + (Repeat(Produce(x), 6) + Repeat(Read, 2))
  }

  /** Of a full buffer it returns nothing at all, although the buffer is never less than full. */
  lemma FullLogSnapshotIsEmpty<T>(s: State<T>, x: T)
    requires s.Typed() && Full(s) && s.producer.LoadTail? && s.reader.SnapLoadHead?
    ensures var r := RunFrom(s, PushBetweenLoads(x));
            r.reader == SnapDone([]) && |s.Content()| == |r.Content()| == |s.slots| - 1
  {
    hide RunFrom, Iterate, ProducerStep;
    var u := s.(reader := SnapLoadTail(s.head));
    OneStep(s, Read);
    RunBlock(s, Read, 1, Repeat(Produce(x), 6) + Repeat(Read, 2));
    FullPush(u, x);
    var v := Iterate(u, Produce(x), 6);
    RunBlock(u, Produce(x), 6, Repeat(Read, 2));
    assert Next(Next(v, Read), Read) == v.(reader := SnapDone([]));
    IterateTwo(v, Read, 0);
    NoSteps(Next(Next(v, Read), Read), Read);
    RunRepeat(v, Read, 2);
    FullIffAllButOne(s.slots, s.head, s.tail);
    FullIffAllButOne(v.slots, v.head, v.tail);
    SuccMod(s.head, |s.slots|);
  }

  lemma NoSteps<T>(s: State<T>, a: Action<T>)
    requires s.Typed()
    ensures Iterate(s, a, 0) == s
  {
  }

  lemma OneStep<T>(s: State<T>, a: Action<T>)
    requires s.Typed()
    ensures Iterate(s, a, 1) == Next(s, a)
  {
    assert Iterate(s, a, 1) == Iterate(Next(s, a), a, 0);
  }

  // ---------------------------------------------------------------------------------
  // Overlaps that do harm
  // ---------------------------------------------------------------------------------

  /** Two slots: a pop reads item 1 and stalls while 2 and 3 are pushed, then stores its head. */
  ghost function StalledPop(): seq<Action<int>> {
    Repeat(Produce(1), 4) + (Repeat(Consume, 3) + Overtake())
  }

  ghost function Overtake(): seq<Action<int>> {
    Repeat(Produce(2), 6) + (Repeat(Produce(3), 6) + Repeat(Consume, 1))
  }

  /** Three steps of a pop that finds an item. */
  lemma ReadItem<T>(s: State<T>)
    requires s.Typed() && s.consumer.PopLoadHead? && s.head != s.tail
    ensures Iterate(s, Consume, 3) == s.(consumer := StoreHead(s.head, s.slots[s.head], First(s)))
  {
    LookForItem(s);
    IterateTwo(s, Consume, 1);
    OneStep(s.(consumer := ReadSlot(s.head)), Consume);
  }

  /** What the producer does in the meantime. */
  lemma TwoFullPushes(s: State<int>, rest: seq<Action<int>>)
    requires s.Typed() && s.slots == [1, 0] && s.head == 0 && s.tail == 1 && s.producer.LoadTail?
    requires |s.pushed| == 1 && s.dropped == {}
    ensures RunFrom(s, Repeat(Produce(2), 6) + (Repeat(Produce(3), 6) + rest)) ==
            RunFrom(s.(slots := [3, 2], head := 0, tail := 1, pushed := s.pushed + [2] + [3], dropped := {0, 1}), rest)
  {
    hide ProducerStep, RunFrom, Iterate;
    FullPush(s, 2);
    var u := Iterate(s, Produce(2), 6);
    assert u == s.(slots := [1, 2], head := 1, tail := 0, pushed := s.pushed + [2], dropped := {0});
    RunBlock(s, Produce(2), 6, Repeat(Produce(3), 6) + rest);
    FullPush(u, 3);
    assert Iterate(u, Produce(3), 6).slots == [3, 2] && Iterate(u, Produce(3), 6).dropped == {0, 1};
    RunBlock(u, Produce(3), 6, rest);
  }

  lemma StalePopStore(v: State<int>)
    requires v.Typed() && |v.slots| == 2 && v.head == 0 && v.tail == 1 && v.consumer == StoreHead(0, 1, 0)
    requires |v.pushed| == 3 && v.dropped == {0, 1}
    ensures RunFrom(v, Repeat(Consume, 1)) ==
            v.(head := 1, consumer := PopLoadHead, popped := v.popped + [Return(0, 1)])
  {
    RunRepeat(v, Consume, 1);
    OneStep(v, Consume);
    assert Before(v.dropped, 3) == {0, 1};
  }

  /**
    When two overwrites overlap a pop the newest item can vanish: 3, at position 2, was pushed
    last, but it is not in the buffer, no pop has returned it and no push has taken it out.
   */
  lemma {:induction false} OverlapLosesNewestItem(s: State<int>)
    requires Initial(s) && s.slots == [0, 0]
    ensures var r := RunFrom(s, StalledPop());
            r.pushed == [1, 2, 3] && r.Content() == [] && r.popped == [Return(0, 1)] && r.dropped == {0, 1}
  {
    hide ProducerStep, ConsumerStep, Iterate, RunFrom;
    PlainPush(s, 1);
    var u := s.(slots := [1, 0], tail := 1, pushed := [1]);
    assert s.pushed + [1] == [1] && s.slots[0 := 1] == u.slots;
    assert Iterate(s, Produce(1), 4) == u;
    RunBlock(s, Produce(1), 4, Repeat(Consume, 3) + Overtake());
    ReadItem(u);
    var v := u.(consumer := StoreHead(0, 1, 0));
    assert Iterate(u, Consume, 3) == v;
    RunBlock(u, Consume, 3, Overtake());
    TwoFullPushes(v, Repeat(Consume, 1));
    assert [1] + [2] + [3] == [1, 2, 3];
    StalePopStore(v.(slots := [3, 2], head := 0, tail := 1, pushed := [1, 2, 3], dropped := {0, 1}));
    assert s.popped + [Return(0, 1)] == [Return(0, 1)];
  }

  /** Three slots: a third push stalls before it stores the head while both items are popped. */
  ghost function StalledPush(): seq<Action<int>> {
    Repeat(Produce(1), 4) + (Repeat(Produce(2), 4) + StalledThirdPush())
  }

  ghost function StalledThirdPush(): seq<Action<int>> {
    Repeat(Produce(3), 3) + (Repeat(Consume, 4) + (Repeat(Consume, 4) + Repeat(Produce(3), 1)))
  }

  /** Three steps of a push that finds the buffer full. */
  lemma StallPush<T>(s: State<T>, x: T)
    requires s.Typed() && s.producer.LoadTail? && Full(s)
    ensures Iterate(s, Produce(x), 3) == s.(producer := AdvanceHead(x, s.tail, s.head))
  {
    LookForRoom(s, x);
    IterateTwo(s, Produce(x), 1);
    OneStep(s.(producer := ReloadHead(x, s.tail)), Produce(x));
  }

  lemma StaleStore(w: State<int>)
    requires w.Typed() && |w.slots| == 3 && w.producer == AdvanceHead(3, 2, 0) && w.head == w.tail == 2
    requires |w.pushed| == 2 && w.dropped == {}
    ensures RunFrom(w, Repeat(Produce(3), 1)) == w.(head := 1, producer := WriteSlot(3, 2))
  {
    RunRepeat(w, Produce(3), 1);
    OneStep(w, Produce(3));
    assert Before(w.dropped, 1) + Range(2, 1) == {};
  }

  lemma BothArePopped(s: State<int>)
    requires s.Typed() && s.slots == [1, 2, 0] && s.head == 0 && s.tail == 2
    requires s.producer.LoadTail? && s.consumer.PopLoadHead? && |s.pushed| == 2 && s.dropped == {}
    ensures RunFrom(s, StalledThirdPush()) ==
            s.(head := 1, producer := WriteSlot(3, 2), popped := s.popped + [Return(0, 1)] + [Return(1, 2)])
  {
    hide ProducerStep, ConsumerStep, Iterate, RunFrom;
    StallPush(s, 3);
    var u := s.(producer := AdvanceHead(3, 2, 0));
    RunBlock(s, Produce(3), 3, Repeat(Consume, 4) + (Repeat(Consume, 4) + Repeat(Produce(3), 1)));
    ReturnPopped(u);
    var v := u.(head := 1, popped := u.popped + [Return(0, 1)]);
    assert Iterate(u, Consume, 4) == v;
    RunBlock(u, Consume, 4, Repeat(Consume, 4) + Repeat(Produce(3), 1));
    ReturnPopped(v);
    var w := v.(head := 2, popped := v.popped + [Return(1, 2)]);
    assert Iterate(v, Consume, 4) == w;
    RunBlock(v, Consume, 4, Repeat(Produce(3), 1));
    StaleStore(w);
  }

  lemma TwoPlainPushes(s: State<int>, rest: seq<Action<int>>)
    requires Initial(s) && s.slots == [0, 0, 0]
    ensures RunFrom(s, Repeat(Produce(1), 4) + (Repeat(Produce(2), 4) + rest)) ==
            RunFrom(s.(slots := [1, 2, 0], tail := 2, pushed := [1, 2]), rest)
  {
    hide ProducerStep, Iterate, RunFrom;
    PlainPush(s, 1);
    var u := s.(slots := [1, 0, 0], tail := 1, pushed := [1]);
    assert s.pushed + [1] == [1] && s.slots[0 := 1] == u.slots;
    assert Iterate(s, Produce(1), 4) == u;
    RunBlock(s, Produce(1), 4, Repeat(Produce(2), 4) + rest);
    PlainPush(u, 2);
    var v := u.(slots := [1, 2, 0], tail := 2, pushed := [1, 2]);
    assert [1] + [2] == [1, 2] && u.slots[1 := 2] == v.slots;
    assert Iterate(u, Produce(2), 4) == v;
    RunBlock(u, Produce(2), 4, rest);
  }

  /** When two pops overlap a full push an item that was popped can be in the buffer again. */
  lemma {:induction false} OverlapRevivesPoppedItem(s: State<int>)
    requires Initial(s) && s.slots == [0, 0, 0]
    ensures var r := RunFrom(s, StalledPush());
            r.pushed == [1, 2] && r.Content() == [2] && r.popped == [Return(0, 1), Return(1, 2)]
  {
    hide RunFrom;
    TwoPlainPushes(s, StalledThirdPush());
    BothArePopped(s.(slots := [1, 2, 0], tail := 2, pushed := [1, 2]));
    assert s.popped + [Return(0, 1)] + [Return(1, 2)] == [Return(0, 1), Return(1, 2)];
  }
}
