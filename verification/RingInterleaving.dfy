/**
  The ring buffer shared by three threads: a producer that pushes, a consumer that pops and
  a reader that takes snapshots.  Every atomic load or store and every slot access is one
  step, and steps of the three threads interleave freely (sequential consistency).

  Items are told apart by their position in the sequence of all pushes, so that equal items
  cannot hide a loss or a repetition.
 */
module RingInterleaving {
  import opened RingBuffers

  // Where a thread stands: the constructor names the step it takes next and holds the
  // local variables it has so far.
  datatype Producer<T> =
    | LoadTail
    | LoadHead(item: T, tail: nat)
    | ReloadHead(item: T, tail: nat)
    | AdvanceHead(item: T, tail: nat, head: nat)
    | WriteSlot(item: T, tail: nat)
    | StoreTail(item: T, tail: nat)

  // position: history, of the item that was read
  datatype Consumer<T> =
    | PopLoadHead
    | PopLoadTail(head: nat)
    | ReadSlot(head: nat)
    | StoreHead(head: nat, item: T, position: int)

  datatype Reader<T> =
    | SnapLoadHead
    | SnapLoadTail(head: nat)
    | SnapRead(idx: nat, tail: nat, result: seq<T>)
    | SnapDone(result: seq<T>)

  datatype Return<T> = Return(position: int, item: T)

  datatype State<T> = State(
    slots: seq<T>, head: nat, tail: nat,
    producer: Producer<T>, consumer: Consumer<T>, reader: Reader<T>,
    pushed: seq<T>,          // history: items of completed pushes
    popped: seq<Return<T>>,  // history: what pops returned
    dropped: set<int>)       // history: positions that a push took out and that are not back in
  {
    ghost predicate Typed() {
      && |slots| >= 2 && head < |slots| && tail < |slots|
      && (producer.AdvanceHead? ==> producer.head < |slots|)
      && (!producer.LoadTail? ==> producer.tail < |slots|)
      && (!consumer.PopLoadHead? ==> consumer.head < |slots|)
      && (reader.SnapLoadTail? ==> reader.head < |slots|)
      && (reader.SnapRead? ==> reader.idx < |slots| && reader.tail < |slots|)
    }

    function Content(): seq<T>
      requires head < |slots| && tail < |slots|
    {
      Unwrap(slots, head, tail)
    }
  }

  // A scheduler's choice; the item matters only when the producer starts a push.
  datatype Action<T> = Produce(item: T) | Consume | Read

  function Succ<T>(s: State<T>, i: nat): nat
    requires |s.slots| > 0
  {
    (i + 1) % |s.slots|
  }

  /** Slots from one index up to, and not including, another. */
  function Distance(from: nat, to: nat, size: nat): int {
    if from <= to then to - from else size - from + to
  }

  /** Counting back from the tail: the position of the item where index i is the head. */
  function Position<T>(s: State<T>, i: nat): int {
    |s.pushed| - Distance(i, s.tail, |s.slots|)
  }

  /** The position of the item that slot i holds; negative before anything was written there. */
  function Held<T>(s: State<T>, i: nat): int {
    if i != s.tail then Position(s, i) else if s.producer.StoreTail? then |s.pushed| else |s.pushed| - |s.slots|
  }

  /** Where the content starts. */
  function First<T>(s: State<T>): int {
    Position(s, s.head)
  }

  function Before(positions: set<int>, p: int): set<int> {
    set q | q in positions && q < p
  }

  function Range(low: int, high: int): (r: set<int>)
    ensures forall q :: q in r <==> low <= q < high
    decreases high - low
  {
    if low >= high then {} else {low} + Range(low + 1, high)
  }

  function ProducerStep<T>(s: State<T>, x: T): State<T>
    requires s.Typed()
  {
    match s.producer
    case LoadTail => s.(producer := LoadHead(x, s.tail))
    case LoadHead(item, t) =>
      if Succ(s, t) == s.head then s.(producer := ReloadHead(item, t)) else s.(producer := WriteSlot(item, t))
    case ReloadHead(item, t) => s.(producer := AdvanceHead(item, t, s.head))
    case AdvanceHead(item, t, h) =>
      var next := Position(s, Succ(s, h));
      s.(producer := WriteSlot(item, t), head := Succ(s, h),
         dropped := Before(s.dropped, next) + Range(First(s), next))
    case WriteSlot(item, t) => s.(producer := StoreTail(item, t), slots := s.slots[t := item])
    case StoreTail(item, t) => s.(producer := LoadTail, tail := Succ(s, t), pushed := s.pushed + [item])
  }

  function ConsumerStep<T>(s: State<T>): State<T>
    requires s.Typed()
  {
    match s.consumer
    case PopLoadHead => s.(consumer := PopLoadTail(s.head))
    case PopLoadTail(h) => if h == s.tail then s.(consumer := PopLoadHead) else s.(consumer := ReadSlot(h))
    case ReadSlot(h) => s.(consumer := StoreHead(h, s.slots[h], Held(s, h)))
    case StoreHead(h, item, p) =>
      s.(consumer := PopLoadHead, head := Succ(s, h), popped := s.popped + [Return(p, item)],
         dropped := Before(s.dropped, Position(s, Succ(s, h))))
  }

  function ReaderStep<T>(s: State<T>): State<T>
    requires s.Typed()
  {
    match s.reader
    case SnapLoadHead => s.(reader := SnapLoadTail(s.head))
    case SnapLoadTail(h) => s.(reader := SnapRead(h, s.tail, []))
    case SnapRead(idx, t, result) =>
      if idx == t then s.(reader := SnapDone(result))
      else s.(reader := SnapRead(Succ(s, idx), t, result + [s.slots[idx]]))
    case SnapDone(_) => s.(reader := SnapLoadHead)
  }

  function Next<T>(s: State<T>, a: Action<T>): (r: State<T>)
    requires s.Typed()
    ensures r.Typed() && |r.slots| == |s.slots|
  {
    match a
    case Produce(x) => ProducerStep(s, x)
    case Consume => ConsumerStep(s)
    case Read => ReaderStep(s)
  }

  function RunFrom<T>(s: State<T>, actions: seq<Action<T>>): (r: State<T>)
    requires s.Typed()
    ensures r.Typed()
    decreases |actions|
  {
    if actions == [] then s else RunFrom(Next(s, actions[0]), actions[1..])
  }

  ghost predicate Initial<T>(s: State<T>) {
    && s.Typed() && s.head == s.tail == 0
    && s.producer.LoadTail? && s.consumer.PopLoadHead? && s.reader.SnapLoadHead?
    && s.pushed == [] && s.popped == [] && s.dropped == {}
  }

  // ---------------------------------------------------------------------------------
  // What holds in every interleaving
  // ---------------------------------------------------------------------------------

  /** The item is the one at this position of all pushes, the push in progress included. */
  ghost predicate IsItem<T>(s: State<T>, p: int, item: T) {
    && p <= |s.pushed|
    && (p == |s.pushed| ==> s.producer.StoreTail? && item == s.producer.item)
    && (0 <= p < |s.pushed| ==> item == s.pushed[p])
  }

  /** Slots and returned items are what their positions say. */
  ghost predicate Recorded<T>(s: State<T>) {
    && s.Typed()
    && (!s.producer.LoadTail? ==> s.producer.tail == s.tail)
    && (forall i :: 0 <= i < |s.slots| ==> IsItem(s, Held(s, i), s.slots[i]))
    && (s.consumer.StoreHead? ==> IsItem(s, s.consumer.position, s.consumer.item))
    && (forall i :: 0 <= i < |s.popped| ==> IsItem(s, s.popped[i].position, s.popped[i].item))
  }

  /** Publishing an item moves no item: only the position past the tail is a new one. */
  lemma PublishKeepsPositions<T>(s: State<T>, x: T, i: nat)
    requires s.Typed() && s.producer.StoreTail? && s.producer.tail == s.tail && i < |s.slots|
    ensures var r := Next(s, Produce(x));
            && Held(r, i) == Held(s, i)
            && Position(r, i) == if i == Succ(s, s.tail) then |s.pushed| + 1 else Position(s, i)
  {
    SuccMod(s.tail, |s.slots|);
  }

  lemma PublishKeepsRecorded<T>(s: State<T>, x: T)
    requires Recorded(s) && s.producer.StoreTail?
    ensures Recorded(Next(s, Produce(x)))
  {
    var r := Next(s, Produce(x));
    forall i | 0 <= i < |r.slots| ensures IsItem(r, Held(r, i), r.slots[i]) {
      PublishKeepsPositions(s, x, i);
      assert IsItem(s, Held(s, i), s.slots[i]);
    }
  }

  lemma WriteKeepsRecorded<T>(s: State<T>, x: T)
    requires Recorded(s) && s.producer.WriteSlot?
    ensures Recorded(Next(s, Produce(x)))
  {
    var r := Next(s, Produce(x));
    forall i | 0 <= i < |r.slots| ensures IsItem(r, Held(r, i), r.slots[i]) {
      assert IsItem(s, Held(s, i), s.slots[i]);
    }
  }

  /** Steps after which slots, tail and pushes are what they were. */
  lemma OtherStepsKeepRecorded<T>(s: State<T>, a: Action<T>)
    requires Recorded(s)
    requires a.Produce? ==> !s.producer.WriteSlot? && !s.producer.StoreTail?
    ensures Recorded(Next(s, a))
  {
    var r := Next(s, a);
    assert r.slots == s.slots && r.tail == s.tail && r.pushed == s.pushed;
    assert r.producer.StoreTail? == s.producer.StoreTail? && (r.producer.StoreTail? ==> r.producer == s.producer);
    assert forall p, item :: IsItem(s, p, item) ==> IsItem(r, p, item);
    assert forall i :: Held(r, i) == Held(s, i);
    assert a.Consume? && s.consumer.ReadSlot? ==> IsItem(s, Held(s, s.consumer.head), s.slots[s.consumer.head]);
    hide IsItem, Held;
    PoppedItemsStay(s, a);
  }

  /** A pop appends what it has read; no other step touches what pops returned. */
  lemma PoppedItemsStay<T>(s: State<T>, a: Action<T>)
    requires s.Typed()
    ensures var r := Next(s, a);
            if a.Consume? && s.consumer.StoreHead? then
              r.popped == s.popped + [Return(s.consumer.position, s.consumer.item)]
            else r.popped == s.popped
  {
  }

  lemma StepKeepsRecorded<T>(s: State<T>, a: Action<T>)
    requires Recorded(s)
    ensures Recorded(Next(s, a))
  {
    hide Next, Recorded;
    if a.Produce? && s.producer.StoreTail? {
      PublishKeepsRecorded(s, a.item);
    } else if a.Produce? && s.producer.WriteSlot? {
      WriteKeepsRecorded(s, a.item);
    } else {
      OtherStepsKeepRecorded(s, a);
    }
  }

  /** From any index up to the tail lie the last items pushed. */
  lemma UnwrapIsPushed<T>(s: State<T>, i: nat)
    requires Recorded(s) && i < |s.slots| && Position(s, i) >= 0
    ensures Unwrap(s.slots, i, s.tail) == s.pushed[Position(s, i)..]
  {
    var view, p, n := Unwrap(s.slots, i, s.tail), Position(s, i), |s.slots|;
    forall k | 0 <= k < |view| ensures view[k] == s.pushed[p + k] {
      var j := if i + k < n then i + k else i + k - n;
      assert IsItem(s, Held(s, j), s.slots[j]);
      assert view[k] == s.slots[j] && Held(s, j) == p + k;
    }
  }

  // ---------------------------------------------------------------------------------
  // Nothing lost, nothing returned twice or out of order
  // ---------------------------------------------------------------------------------

  ghost predicate WasPopped<T>(popped: seq<Return<T>>, p: int) {
    exists i :: 0 <= i < |popped| && popped[i].position == p
  }

  /** All pops returned items from before position p. */
  ghost predicate PoppedBefore<T>(popped: seq<Return<T>>, p: int) {
    forall i :: 0 <= i < |popped| ==> popped[i].position < p
  }

  ghost predicate InOrder<T>(popped: seq<Return<T>>) {
    && (forall i :: 0 <= i < |popped| ==> popped[i].position >= 0)
    && forall i, j :: 0 <= i < j < |popped| ==> popped[i].position < popped[j].position
  }

  /**
    Pops returned items in the order of the pushes, none twice and none that is still in the
    buffer; and every item that is no longer there was popped, or taken out by a push.
   */
  ghost predicate Fifo<T>(s: State<T>) {
    && InOrder(s.popped) && 0 <= First(s) && PoppedBefore(s.popped, First(s))
    && (forall q :: q in s.dropped ==> 0 <= q < First(s))
    && forall q :: 0 <= q < First(s) ==> q in s.dropped || WasPopped(s.popped, q)
  }

  /** A pop in flight will return an item that comes after all returned so far. */
  ghost predicate PopIsAhead<T>(s: State<T>) {
    match s.consumer
    case PopLoadHead => true
    case PopLoadTail(h) => 0 <= Position(s, h) && PoppedBefore(s.popped, Position(s, h))
    case ReadSlot(h) => 0 <= Held(s, h) && PoppedBefore(s.popped, Held(s, h))
    case StoreHead(_, _, p) => 0 <= p && PoppedBefore(s.popped, p)
  }

  /** The pop in flight knows the present head. */
  ghost predicate PopIsCurrent<T>(s: State<T>) {
    match s.consumer
    case PopLoadHead => true
    case PopLoadTail(h) => h == s.head
    case ReadSlot(h) => h == s.head != s.tail
    case StoreHead(h, _, p) => h == s.head != s.tail && p == First(s)
  }

  ghost predicate Full<T>(s: State<T>)
    requires |s.slots| > 0
  {
    Succ(s, s.tail) == s.head
  }

  /** The item before the content was the last to be popped. */
  ghost predicate LastWasPopped<T>(s: State<T>) {
    s.popped != [] && s.popped[|s.popped| - 1].position == First(s) - 1
  }

  /** While a push that found the buffer full waits to store the head only pops can move it. */
  ghost predicate StallIsKnown<T>(s: State<T>)
    requires |s.slots| > 0
  {
    && (s.producer.ReloadHead? || s.producer.AdvanceHead? ==> Full(s) || (PopIsCurrent(s) && LastWasPopped(s)))
    && (s.producer.AdvanceHead? ==>
          var loaded := Position(s, s.producer.head);
          loaded <= First(s) && (loaded < First(s) || s.producer.head == s.tail ==> LastWasPopped(s)))
  }

  ghost predicate Invariant<T>(s: State<T>) {
    s.Typed() && Recorded(s) && Fifo(s) && PopIsAhead(s) && StallIsKnown(s)
  }

  /** What the guarantee means for the items. */
  lemma FifoInItems<T>(s: State<T>)
    requires Invariant(s)
    ensures s.Content() == s.pushed[First(s)..]
    ensures forall i :: 0 <= i < |s.popped| ==>
              0 <= s.popped[i].position < First(s) && s.popped[i].item == s.pushed[s.popped[i].position]
  {
    UnwrapIsPushed(s, s.head);
    forall i | 0 <= i < |s.popped| ensures s.popped[i].item == s.pushed[s.popped[i].position] {
      assert IsItem(s, s.popped[i].position, s.popped[i].item);
    }
  }

  /**
    Three kinds of steps can do harm.  A push may advance the head only from where it loaded
    it, if an item is there, or where it leaves the head as it is.  It may publish only if the
    buffer does not look empty afterwards.  A pop may take out nothing but the item it returns;
    it may put back what pushes took out, but not that item.
   */
  ghost predicate Smooth<T>(s: State<T>, a: Action<T>)
    requires s.Typed()
  {
    match a
    case Produce(_) =>
      && (s.producer.AdvanceHead? ==> s.producer.head == s.head != s.tail || s.head == Succ(s, s.producer.head))
      && (s.producer.StoreTail? ==> Succ(s, s.tail) != s.head)
    case Consume =>
      s.consumer.StoreHead? ==>
        var next := Position(s, Succ(s, s.consumer.head));
        && s.consumer.position < next
        && (next <= First(s) || (next == First(s) + 1 && s.consumer.position == First(s)))
    case Read => true
  }

  lemma SuccPosition<T>(s: State<T>, i: nat)
    requires s.Typed() && i < |s.slots|
    ensures Succ(s, i) < |s.slots| && Succ(s, i) != i
    ensures Position(s, Succ(s, i)) == if i == s.tail then |s.pushed| - |s.slots| + 1 else Position(s, i) + 1
  {
    SuccMod(i, |s.slots|);
  }

  lemma PositionInjective<T>(s: State<T>, i: nat, j: nat)
    requires s.Typed() && i < |s.slots| && j < |s.slots|
    ensures Position(s, i) == Position(s, j) <==> i == j
    ensures |s.pushed| - |s.slots| < Position(s, i) <= |s.pushed|
    ensures Position(s, i) == |s.pushed| <==> i == s.tail
  {
  }

  lemma FullIsFarthest<T>(s: State<T>)
    requires s.Typed()
    ensures Full(s) <==> First(s) == |s.pushed| - |s.slots| + 1
  {
    SuccPosition(s, s.tail);
    PositionInjective(s, s.head, Succ(s, s.tail));
  }

  lemma FullIsNotEmpty<T>(s: State<T>)
    requires s.Typed() && Full(s)
    ensures s.head != s.tail && First(s) < |s.pushed|
  {
    SuccPosition(s, s.tail);
  }

  // The store to the head by a push.

  lemma OverwriteKeepsFifoIff<T>(s: State<T>, x: T)
    requires Invariant(s) && s.producer.AdvanceHead?
    ensures Fifo(Next(s, Produce(x))) <==> s.producer.head == s.head != s.tail || s.head == Succ(s, s.producer.head)
  {
    hide Recorded, PopIsAhead, PopIsCurrent, Full;
    var r, h := Next(s, Produce(x)), s.producer.head;
    SuccPosition(s, h);
    PositionInjective(s, h, s.head);
    PositionInjective(s, s.head, Succ(s, h));
    PositionInjective(s, h, s.tail);
    assert First(r) == Position(s, Succ(s, h));
    if PoppedBefore(s.popped, First(r)) && 0 <= First(r) {
      forall q | 0 <= q < First(r) ensures q in r.dropped || WasPopped(r.popped, q) {
        assert q < First(s) ==> q in s.dropped || WasPopped(s.popped, q);
      }
      assert Fifo(r);
    }
    if LastWasPopped(s) {
      assert PoppedBefore(s.popped, First(r)) ==> First(s) - 1 < First(r);
    }
  }

  lemma OverwriteKeepsRest<T>(s: State<T>, x: T)
    requires Invariant(s) && s.producer.AdvanceHead?
    ensures PopIsAhead(Next(s, Produce(x))) && StallIsKnown(Next(s, Produce(x)))
  {
    hide Recorded, Fifo;
    var r := Next(s, Produce(x));
    assert forall i :: Position(r, i) == Position(s, i) && Held(r, i) == Held(s, i);
  }

  // The store to the tail.

  lemma PublishKeepsFifoIff<T>(s: State<T>, x: T)
    requires Invariant(s) && s.producer.StoreTail?
    ensures Fifo(Next(s, Produce(x))) <==> Succ(s, s.tail) != s.head
  {
    hide Recorded, PopIsAhead, PopIsCurrent, StallIsKnown;
    var r := Next(s, Produce(x));
    PublishPosition(s, x, s.head);
    PositionInjective(s, s.head, s.tail);
    if Fifo(r) && First(r) > |s.pushed| {
      assert |s.pushed| in r.dropped || WasPopped(r.popped, |s.pushed|);
    }
  }

  lemma PublishPosition<T>(s: State<T>, x: T, i: nat)
    requires Recorded(s) && s.producer.StoreTail? && i < |s.slots|
    ensures var r := Next(s, Produce(x));
            && Held(r, i) == Held(s, i)
            && Position(r, i) == if i == Succ(s, s.tail) then |s.pushed| + 1 else Position(s, i)
  {
    hide IsItem;
    PublishKeepsPositions(s, x, i);
  }

  lemma PublishKeepsRest<T>(s: State<T>, x: T)
    requires Invariant(s) && s.producer.StoreTail?
    ensures PopIsAhead(Next(s, Produce(x))) && StallIsKnown(Next(s, Produce(x)))
  {
    hide Fifo, Recorded;
    var r := Next(s, Produce(x));
    if !s.consumer.PopLoadHead? {
      PublishPosition(s, x, s.consumer.head);
      PositionInjective(s, s.consumer.head, s.tail);
    }
  }

  // The store to the head by a pop.

  lemma PopKeepsFifoIff<T>(s: State<T>)
    requires Invariant(s) && s.consumer.StoreHead?
    ensures Fifo(Next(s, Consume)) <==> Smooth(s, Consume)
  {
    hide Recorded, StallIsKnown;
    var r, p := Next(s, Consume), s.consumer.position;
    assert First(r) == Position(s, Succ(s, s.consumer.head));
    assert r.popped[|s.popped|].position == p;
    assert forall i :: 0 <= i < |s.popped| ==> r.popped[i] == s.popped[i];
    if Smooth(s, Consume) {
      forall q | 0 <= q < First(r) ensures q in r.dropped || WasPopped(r.popped, q) {
        if q < First(s) {
          PoppedStays(s.popped, Return(p, s.consumer.item), q);
        }
      }
    }
    if Fifo(r) && First(s) < First(r) {
      TakenOutWasReturned(s, r, First(s));
      TakenOutWasReturned(s, r, First(r) - 1);
    }
  }

  lemma PoppedStays<T>(popped: seq<Return<T>>, e: Return<T>, q: int)
    ensures WasPopped(popped, q) ==> WasPopped(popped + [e], q)
  {
    if i :| 0 <= i < |popped| && popped[i].position == q {
      assert (popped + [e])[i].position == q;
    }
  }

  lemma TakenOutWasReturned<T>(s: State<T>, r: State<T>, q: int)
    requires s.Typed() && s.consumer.StoreHead? && r == Next(s, Consume)
    requires Fifo(s) && Fifo(r) && First(s) <= q < First(r)
    ensures q == s.consumer.position
  {
    assert q !in r.dropped;
    assert WasPopped(r.popped, q);
    assert forall i :: 0 <= i < |s.popped| ==> r.popped[i] == s.popped[i];
    var i :| 0 <= i < |r.popped| && r.popped[i].position == q;
  }

  lemma PopKeepsStall<T>(s: State<T>)
    requires Invariant(s) && s.consumer.StoreHead? && Smooth(s, Consume)
    ensures StallIsKnown(Next(s, Consume))
  {
    hide Recorded, Fifo, PopIsAhead;
    var r := Next(s, Consume);
    SuccPosition(s, s.consumer.head);
    PositionInjective(s, Succ(s, s.consumer.head), s.tail);
    PositionInjective(s, s.head, s.tail);
    FullIsFarthest(s);
    FullIsFarthest(r);
    assert forall i :: Position(r, i) == Position(s, i);
    hide Full, Position;
  }

  // All other steps.

  /** The step stores neither to the head nor to the tail. */
  ghost predicate StoresNoIndex<T>(s: State<T>, a: Action<T>) {
    && (a.Produce? ==> !s.producer.AdvanceHead? && !s.producer.StoreTail?)
    && (a.Consume? ==> !s.consumer.StoreHead?)
  }

  lemma OtherStepsKeepPositions<T>(s: State<T>, a: Action<T>)
    requires s.Typed() && StoresNoIndex(s, a) && (s.producer.WriteSlot? ==> s.producer.tail == s.tail)
    ensures var r := Next(s, a);
      && r.head == s.head && r.tail == s.tail && r.pushed == s.pushed && r.popped == s.popped && r.dropped == s.dropped
      && (forall i :: Position(r, i) == Position(s, i))
      && (forall i :: Held(r, i) >= Held(s, i) && (i != s.tail ==> Held(r, i) == Held(s, i)))
  {
  }

  lemma OtherStepsKeepAhead<T>(s: State<T>, a: Action<T>)
    requires Invariant(s) && StoresNoIndex(s, a)
    ensures PopIsAhead(Next(s, a))
  {
    hide Fifo, Held, StallIsKnown;
    OtherStepsKeepPositions(s, a);
    FirstIsAhead(s);
    if s.consumer.PopLoadTail? {
      HeldAwayFromTail(s, s.consumer.head);
    }
  }

  lemma HeldAwayFromTail<T>(s: State<T>, i: nat)
    ensures i != s.tail ==> Held(s, i) == Position(s, i)
  {
  }

  lemma FirstIsAhead<T>(s: State<T>)
    requires Fifo(s)
    ensures 0 <= First(s) && PoppedBefore(s.popped, First(s))
  {
  }

  lemma OtherStepsKeepStall<T>(s: State<T>, a: Action<T>)
    requires Invariant(s) && StoresNoIndex(s, a)
    ensures StallIsKnown(Next(s, a))
  {
    assert !s.producer.LoadTail? ==> s.producer.tail == s.tail;
    hide Fifo, Recorded, PopIsAhead, Held, Position;
    OtherStepsKeepPositions(s, a);
    HeldAwayFromTail(s, s.head);
    if Full(s) {
      FullIsNotEmpty(s);
    }
  }

  lemma OtherStepsKeepInvariant<T>(s: State<T>, a: Action<T>)
    requires Invariant(s) && StoresNoIndex(s, a)
    ensures Invariant(Next(s, a))
  {
    StepKeepsRecorded(s, a);
    OtherStepsKeepPositions(s, a);
    OtherStepsKeepAhead(s, a);
    OtherStepsKeepStall(s, a);
    hide Recorded, StallIsKnown, PopIsAhead, Next, Position, Held;
  }

  /** Of all steps of the three threads, exactly those that are not smooth break the guarantee. */
  lemma StepKeepsFifoIff<T>(s: State<T>, a: Action<T>)
    requires Invariant(s)
    ensures Fifo(Next(s, a)) <==> Smooth(s, a)
    ensures Smooth(s, a) ==> Invariant(Next(s, a))
  {
    StepKeepsRecorded(s, a);
    hide Next, Recorded, Fifo, PopIsAhead, StallIsKnown;
    if a.Produce? && s.producer.AdvanceHead? {
      OverwriteKeepsFifoIff(s, a.item);
      OverwriteKeepsRest(s, a.item);
    } else if a.Produce? && s.producer.StoreTail? {
      PublishKeepsFifoIff(s, a.item);
      PublishKeepsRest(s, a.item);
    } else if a.Consume? && s.consumer.StoreHead? {
      PopKeepsFifoIff(s);
      if Smooth(s, a) {
        PopKeepsStall(s);
        PopEnds(s);
      }
    } else {
      OtherStepsKeepInvariant(s, a);
    }
  }

  /** A pop that pushes have lapped does no harm if its store leaves the head where it is. */
  lemma LappedPopIsHarmless<T>(s: State<T>)
    requires Invariant(s) && s.consumer.StoreHead? && s.head == Succ(s, s.consumer.head)
    requires s.consumer.position < First(s)
    ensures var r := Next(s, Consume); Invariant(r) && r.Content() == s.Content()
    ensures Next(s, Consume).popped == s.popped + [Return(s.consumer.position, s.consumer.item)]
  {
    StepKeepsFifoIff(s, Consume);
  }

  lemma PopEnds<T>(s: State<T>)
    requires s.Typed() && s.consumer.StoreHead?
    ensures PopIsAhead(Next(s, Consume))
  {
  }

  // ---------------------------------------------------------------------------------
  // Runs
  // ---------------------------------------------------------------------------------

  lemma InitialInvariant<T>(s: State<T>)
    requires Initial(s)
    ensures Invariant(s)
  {
  }

  lemma InvariantIsFifo<T>(s: State<T>)
    requires Invariant(s)
    ensures s.Typed() && Fifo(s)
  {
  }

  ghost predicate SmoothRun<T>(s: State<T>, actions: seq<Action<T>>)
    requires s.Typed()
    decreases |actions|
  {
    actions == [] || (Smooth(s, actions[0]) && SmoothRun(Next(s, actions[0]), actions[1..]))
  }

  lemma {:induction false} SmoothRunsKeepInvariant<T>(s: State<T>, actions: seq<Action<T>>)
    requires Invariant(s) && SmoothRun(s, actions)
    ensures Invariant(RunFrom(s, actions))
    decreases |actions|
  {
    hide Invariant, Smooth, Next;
    if actions != [] {
      InvariantIsFifo(s);
      StepKeepsFifoIff(s, actions[0]);
      SmoothRunsKeepInvariant(Next(s, actions[0]), actions[1..]);
    }
  }

  ghost predicate FifoThroughout<T>(s: State<T>, actions: seq<Action<T>>)
    requires s.Typed()
  {
    forall k :: 0 <= k <= |actions| ==> Fifo(RunFrom(s, actions[..k]))
  }

  lemma FifoThroughoutStep<T>(s: State<T>, actions: seq<Action<T>>)
    requires s.Typed() && Fifo(s) && actions != []
    ensures FifoThroughout(s, actions) <==> FifoThroughout(Next(s, actions[0]), actions[1..])
  {
    hide Next, Fifo;
    var u, rest := Next(s, actions[0]), actions[1..];
    forall k | 0 <= k <= |rest| ensures RunFrom(s, actions[..k + 1]) == RunFrom(u, rest[..k]) {
      assert actions[..k + 1][0] == actions[0] && actions[..k + 1][1..] == rest[..k];
    }
    assert RunFrom(s, actions[..0]) == s;
    if FifoThroughout(u, rest) {
      forall k | 0 <= k <= |actions| ensures Fifo(RunFrom(s, actions[..k])) {
        if k > 0 {
          assert Fifo(RunFrom(u, rest[..k - 1]));
        }
      }
    }
    if FifoThroughout(s, actions) {
      forall k | 0 <= k <= |rest| ensures Fifo(RunFrom(u, rest[..k])) {
        assert Fifo(RunFrom(s, actions[..k + 1]));
      }
    }
  }

  /**
    Where the guarantee ends, exactly: an interleaving of one producer, one consumer and a
    reader keeps it at every moment if and only if all its steps are smooth.
   */
  lemma {:induction false} RunKeepsFifoIffSmooth<T>(s: State<T>, actions: seq<Action<T>>)
    requires Invariant(s)
    ensures FifoThroughout(s, actions) <==> SmoothRun(s, actions)
    decreases |actions|
  {
    hide Next, Smooth, Invariant, Fifo;
    InvariantIsFifo(s);
    if actions == [] {
      assert forall k :: 0 <= k <= |actions| ==> actions[..k] == [];
    } else {
      var u, rest := Next(s, actions[0]), actions[1..];
      StepKeepsFifoIff(s, actions[0]);
      FifoThroughoutStep(s, actions);
      if Smooth(s, actions[0]) {
        RunKeepsFifoIffSmooth(u, rest);
      } else {
        assert rest[..0] == [] && RunFrom(u, rest[..0]) == u;
      }
    }
  }

  // ---------------------------------------------------------------------------------
  // Two kinds of runs that are smooth
  // ---------------------------------------------------------------------------------

  /** A full push and a pop do not overlap. */
  ghost predicate Exclusive<T>(s: State<T>, a: Action<T>)
    requires s.Typed()
  {
    && (a.Produce? && s.producer.LoadHead? && Succ(s, s.producer.tail) == s.head ==> s.consumer.PopLoadHead?)
    && (a.Consume? ==> !s.producer.ReloadHead? && !s.producer.AdvanceHead?)
  }

  /** What the threads know about the head when full pushes and pops do not overlap. */
  ghost predicate HeadsCurrent<T>(s: State<T>) {
    && s.Typed() && PopIsCurrent(s)
    && match s.producer
       case ReloadHead(_, t) => Full(s) && s.consumer.PopLoadHead?
       case AdvanceHead(_, t, h) => h == s.head && Full(s) && s.consumer.PopLoadHead?
       case WriteSlot(_, _) => !Full(s)
       case StoreTail(_, _) => !Full(s)
       case _ => true
  }

  lemma ExclusiveStepIsSmooth<T>(s: State<T>, a: Action<T>)
    requires Invariant(s) && HeadsCurrent(s) && Exclusive(s, a)
    ensures Smooth(s, a)
  {
    hide Fifo, PopIsAhead;
    SuccPosition(s, s.tail);
    if s.consumer.StoreHead? {
      SuccPosition(s, s.consumer.head);
    }
  }

  lemma ProducerKeepsHeadsCurrent<T>(s: State<T>, a: Action<T>)
    requires Invariant(s) && HeadsCurrent(s) && Exclusive(s, a) && a.Produce?
    ensures HeadsCurrent(Next(s, a))
  {
    SuccMod(s.tail, |s.slots|);
    SuccMod(s.head, |s.slots|);
    if s.producer.StoreTail? {
      PublishPosition(s, a.item, s.head);
    }
    hide Fifo, PopIsAhead, IsItem;
  }

  lemma ConsumerKeepsHeadsCurrent<T>(s: State<T>, a: Action<T>)
    requires Invariant(s) && HeadsCurrent(s) && Exclusive(s, a) && !a.Produce?
    ensures HeadsCurrent(Next(s, a))
  {
    SuccMod(s.tail, |s.slots|);
    SuccMod(s.head, |s.slots|);
    hide Fifo, PopIsAhead, IsItem, Recorded;
  }

  lemma ExclusiveStepKeepsHeadsCurrent<T>(s: State<T>, a: Action<T>)
    requires Invariant(s) && HeadsCurrent(s) && Exclusive(s, a)
    ensures HeadsCurrent(Next(s, a))
  {
    hide Invariant, HeadsCurrent, Exclusive, Next;
    if a.Produce? {
      ProducerKeepsHeadsCurrent(s, a);
    } else {
      ConsumerKeepsHeadsCurrent(s, a);
    }
  }

  ghost predicate ExclusiveRun<T>(s: State<T>, actions: seq<Action<T>>)
    requires s.Typed()
    decreases |actions|
  {
    actions == [] || (Exclusive(s, actions[0]) && ExclusiveRun(Next(s, actions[0]), actions[1..]))
  }

  lemma {:induction false} ExclusiveRunIsSmooth<T>(s: State<T>, actions: seq<Action<T>>)
    requires Invariant(s) && HeadsCurrent(s) && ExclusiveRun(s, actions)
    ensures SmoothRun(s, actions)
    decreases |actions|
  {
    hide Invariant, HeadsCurrent, Exclusive, Smooth, Next;
    if actions != [] {
      InvariantIsFifo(s);
      ExclusiveStepIsSmooth(s, actions[0]);
      ExclusiveStepKeepsHeadsCurrent(s, actions[0]);
      StepKeepsFifoIff(s, actions[0]);
      ExclusiveRunIsSmooth(Next(s, actions[0]), actions[1..]);
    }
  }

  /** The producer never finds the buffer full. */
  ghost predicate NeverFull<T>(s: State<T>, a: Action<T>)
    requires s.Typed()
  {
    a.Produce? && s.producer.LoadHead? ==> Succ(s, s.producer.tail) != s.head
  }

  ghost predicate NeverFullRun<T>(s: State<T>, actions: seq<Action<T>>)
    requires s.Typed()
    decreases |actions|
  {
    actions == [] || (NeverFull(s, actions[0]) && NeverFullRun(Next(s, actions[0]), actions[1..]))
  }

  lemma NeverFullStep<T>(s: State<T>, a: Action<T>)
    requires s.Typed() && NeverFull(s, a) && s.dropped == {} && !s.producer.ReloadHead? && !s.producer.AdvanceHead?
    ensures var r := Next(s, a); r.dropped == {} && !r.producer.ReloadHead? && !r.producer.AdvanceHead?
    ensures Exclusive(s, a)
  {
  }

  lemma {:induction false} NeverFullIsExclusive<T>(s: State<T>, actions: seq<Action<T>>)
    requires s.Typed() && NeverFullRun(s, actions) && s.dropped == {}
    requires !s.producer.ReloadHead? && !s.producer.AdvanceHead?
    ensures ExclusiveRun(s, actions) && RunFrom(s, actions).dropped == {}
    decreases |actions|
  {
    hide Next, NeverFull, Exclusive;
    if actions != [] {
      NeverFullStep(s, actions[0]);
      NeverFullIsExclusive(Next(s, actions[0]), actions[1..]);
    }
  }

  function ReturnedItems<T>(popped: seq<Return<T>>): (r: seq<T>)
    ensures |r| == |popped| && forall i :: 0 <= i < |r| ==> r[i] == popped[i].item
  {
    seq(|popped|, i requires 0 <= i < |popped| => popped[i].item)
  }

  /** Positions in order from 0 on without a gap are 0, 1, 2 and so on. */
  lemma {:induction false} NoGap<T>(popped: seq<Return<T>>, first: int)
    requires InOrder(popped) && PoppedBefore(popped, first) && first >= 0
    requires forall q :: 0 <= q < first ==> WasPopped(popped, q)
    ensures |popped| == first && forall i :: 0 <= i < first ==> popped[i].position == i
    decreases first
  {
    if first == 0 {
      assert popped == [];
    } else {
      var n := |popped| - 1;
      assert WasPopped(popped, first - 1);
      assert popped[n].position == first - 1;
      forall q | 0 <= q < first - 1 ensures WasPopped(popped[..n], q) {
        assert WasPopped(popped, q);
        var i :| 0 <= i < |popped| && popped[i].position == q;
        assert popped[..n][i].position == q;
      }
      NoGap(popped[..n], first - 1);
      assert forall i :: 0 <= i < n ==> popped[i] == popped[..n][i];
    }
  }

  /**
    One producer, one consumer, and a buffer the producer never finds full: under every
    interleaving the items pushed are the items popped, in order, followed by the content.
   */
  lemma NeverFullIsFifo<T>(s: State<T>, actions: seq<Action<T>>)
    requires Initial(s) && NeverFullRun(s, actions)
    ensures var r := RunFrom(s, actions);
            r.pushed == ReturnedItems(r.popped) + r.Content()
  {
    hide Fifo, Recorded, PopIsAhead;
    var r := RunFrom(s, actions);
    InitialInvariant(s);
    NeverFullIsExclusive(s, actions);
    ExclusiveRunIsSmooth(s, actions);
    SmoothRunsKeepInvariant(s, actions);
    FifoInItems(r);
    AllPoppedBeforeContent(r);
    assert r.pushed == r.pushed[..First(r)] + r.pushed[First(r)..];
  }

  lemma AllPoppedBeforeContent<T>(s: State<T>)
    requires Invariant(s) && s.dropped == {}
    ensures 0 <= First(s) <= |s.pushed| && ReturnedItems(s.popped) == s.pushed[..First(s)]
  {
    FifoInItems(s);
    NoGap(s.popped, First(s));
  }

  ghost predicate NoPops<T>(actions: seq<Action<T>>) {
    forall i :: 0 <= i < |actions| ==> !actions[i].Consume?
  }

  lemma {:induction false} NoPopsIsExclusive<T>(s: State<T>, actions: seq<Action<T>>)
    requires s.Typed() && s.consumer.PopLoadHead? && NoPops(actions)
    ensures ExclusiveRun(s, actions)
    decreases |actions|
  {
    if actions != [] {
      NoPopsIsExclusive(Next(s, actions[0]), actions[1..]);
    }
  }
}
