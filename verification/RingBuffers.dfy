/**
  Overwriting ring buffer of include/utils/ring_buffer.hpp, used by one thread at a time.
  One slot is always unused, so a buffer of `size` slots holds at most size - 1 items.
 */
module RingBuffers {
  import opened Options

  // ---------------------------------------------------------------------------------
  // Index arithmetic and contents
  // ---------------------------------------------------------------------------------

  lemma SuccMod(i: nat, size: nat)
    requires i < size
    ensures (i + 1) % size == if i + 1 == size then 0 else i + 1
  {
  }

  /** The items from head up to, and not including, tail. */
  function Unwrap<T>(slots: seq<T>, head: nat, tail: nat): seq<T>
    requires head < |slots| && tail < |slots|
  {
    if head <= tail then slots[head..tail] else slots[head..] + slots[..tail]
  }

  lemma UnwrapLength<T>(slots: seq<T>, head: nat, tail: nat)
    requires head < |slots| && tail < |slots|
    ensures |Unwrap(slots, head, tail)| == if tail >= head then tail - head else |slots| - head + tail
  {
  }

  lemma UnwrapPush<T>(slots: seq<T>, head: nat, tail: nat, item: T)
    requires head < |slots| && tail < |slots| && (tail + 1) % |slots| != head
    ensures Unwrap(slots[tail := item], head, (tail + 1) % |slots|) == Unwrap(slots, head, tail) + [item]
  {
    SuccMod(tail, |slots|);
  }

  lemma UnwrapPop<T>(slots: seq<T>, head: nat, tail: nat)
    requires head < |slots| && tail < |slots| && head != tail
    ensures Unwrap(slots, head, tail) == [slots[head]] + Unwrap(slots, (head + 1) % |slots|, tail)
  {
    SuccMod(head, |slots|);
  }

  lemma FullIffAllButOne<T>(slots: seq<T>, head: nat, tail: nat)
    requires head < |slots| && tail < |slots|
    ensures (tail + 1) % |slots| == head <==> |Unwrap(slots, head, tail)| == |slots| - 1
  {
  }

  // ---------------------------------------------------------------------------------
  // The queue it stands for
  // ---------------------------------------------------------------------------------

  /** The last n items, or all of them. */
  function LastN<T>(items: seq<T>, n: nat): seq<T> {
    if |items| <= n then items else items[|items| - n..]
  }

  function Enqueue<T>(queue: seq<T>, capacity: nat, item: T): seq<T> {
    LastN(queue + [item], capacity)
  }

  /** One push in terms of the slots and the indices. */
  lemma EnqueueIntoSlots<T>(slots: seq<T>, head: nat, tail: nat, x: T)
    requires head < |slots| && tail < |slots|
    ensures var nextTail := (tail + 1) % |slots|;
            var nextHead := if nextTail == head then (head + 1) % |slots| else head;
            Unwrap(slots[tail := x], nextHead, nextTail) == Enqueue(Unwrap(slots, head, tail), |slots| - 1, x)
  {
    FullIffAllButOne(slots, head, tail);
    SuccMod(tail, |slots|);
    SuccMod(head, |slots|);
    if |slots| > 1 {
      hide Unwrap;
      if (tail + 1) % |slots| == head {
        UnwrapPop(slots, head, tail);
        UnwrapPush(slots, (head + 1) % |slots|, tail, x);
      } else {
        UnwrapPush(slots, head, tail, x);
      }
    }
  }

  class LockFreeRingBuffer<T(0)> {
    const buffer: array<T>
    var head: nat
    var tail: nat

    ghost predicate Valid()
      reads this
    {
      head < buffer.Length && tail < buffer.Length
    }

    ghost function Contents(): seq<T>
      requires Valid()
      reads this, buffer
    {
      Unwrap(buffer[..], head, tail)
    }

    constructor (size: nat)
      requires size >= 1
      ensures Valid() && fresh(buffer) && buffer.Length == size
      ensures Contents() == []
    {
      buffer := new T[size];
      head, tail := 0, 0;
    }

    method Push(item: T) returns (ok: bool)
      requires Valid()
      modifies this, buffer
      ensures Valid() && ok
      ensures Contents() == Enqueue(old(Contents()), buffer.Length - 1, item)
    {
      hide Unwrap, Enqueue;
      EnqueueIntoSlots(buffer[..], head, tail, item);
      ghost var slots := buffer[..];
      var currentTail := tail;
      var nextTail := (currentTail + 1) % buffer.Length;
      if nextTail == head {
        head := (head + 1) % buffer.Length;
      }
      buffer[currentTail] := item;
      assert buffer[..] == slots[currentTail := item];
      tail := nextTail;
      return true;
    }

    method Pop() returns (item: Option<T>)
      requires Valid()
      modifies this
      ensures Valid()
      ensures old(Contents()) == [] ==> item == None && Contents() == []
      ensures old(Contents()) != [] ==> item.Some? && old(Contents()) == [item.value] + Contents()
    {
      var currentHead := head;
      if currentHead == tail {
        return None;
      }
      UnwrapPop(buffer[..], head, tail);
      var front := buffer[currentHead];
      head := (currentHead + 1) % buffer.Length;
      return Some(front);
    }

    method Snapshot() returns (result: seq<T>)
      requires Valid()
      ensures result == Contents()
    {
      hide Unwrap;
      result := [];
      UnwrapLength(buffer[..], head, tail);
      var count := if tail >= head then tail - head else buffer.Length - head + tail;
      var idx := head;
      while idx != tail
        invariant 0 <= idx < buffer.Length
        invariant result + Unwrap(buffer[..], idx, tail) == Contents()
        decreases |Unwrap(buffer[..], idx, tail)|
      {
        UnwrapPop(buffer[..], idx, tail);
        result := result + [buffer[idx]];
        idx := (idx + 1) % buffer.Length;
      }
      UnwrapLength(buffer[..], idx, tail);
      assert |result| == count; // what was reserved
    }
  }

  // ---------------------------------------------------------------------------------
  // Whole runs
  // ---------------------------------------------------------------------------------

  datatype Op<T> = Push(item: T) | Pop

  // How an item left the buffer.
  datatype Exit<T> = Popped(item: T) | Overwritten(item: T)

  datatype Trace<T> = Trace(content: seq<T>, pushed: seq<T>, exits: seq<Exit<T>>)

  /** One operation, as the contracts of Push and Pop describe it. */
  function Apply<T>(t: Trace<T>, capacity: nat, op: Op<T>): Trace<T> {
    match op
    case Push(x) =>
      var all := t.content + [x];
      var lost := if |all| > capacity then [Overwritten(all[0])] else [];
      Trace(Enqueue(t.content, capacity, x), t.pushed + [x], t.exits + lost)
    case Pop =>
      if t.content == [] then t
      else Trace(t.content[1..], t.pushed, t.exits + [Popped(t.content[0])])
  }

  function Run<T>(ops: seq<Op<T>>, capacity: nat): Trace<T> {
    if ops == [] then Trace([], [], [])
    else Apply(Run(ops[..|ops| - 1], capacity), capacity, ops[|ops| - 1])
  }

  function Items<T>(exits: seq<Exit<T>>): (r: seq<T>)
    ensures |r| == |exits|
  {
    seq(|exits|, i requires 0 <= i < |exits| => exits[i].item)
  }

  ghost predicate Conserves<T>(t: Trace<T>, capacity: nat) {
    t.pushed == Items(t.exits) + t.content && |t.content| <= capacity
  }

  lemma ApplyConserves<T>(t: Trace<T>, capacity: nat, op: Op<T>)
    requires Conserves(t, capacity)
    ensures Conserves(Apply(t, capacity, op), capacity)
  {
  }

  /**
    First in, first out, with nothing lost or duplicated: what was pushed is what left the
    buffer, popped or overwritten, in order, followed by what is still in it.
   */
  lemma {:induction false} RunConserves<T>(ops: seq<Op<T>>, capacity: nat)
    ensures Conserves(Run(ops, capacity), capacity)
  {
    if ops != [] {
      RunConserves(ops[..|ops| - 1], capacity);
      ApplyConserves(Run(ops[..|ops| - 1], capacity), capacity, ops[|ops| - 1]);
    }
  }

  /** The content is the most recent part of what was pushed. */
  lemma ContentIsSuffix<T>(ops: seq<Op<T>>, capacity: nat)
    ensures var t := Run(ops, capacity);
            |t.content| <= |t.pushed| && t.content == t.pushed[|t.pushed| - |t.content|..]
  {
    RunConserves(ops, capacity);
  }

  lemma LastOfLast<T>(items: seq<T>, x: T, n: nat)
    ensures LastN(LastN(items, n) + [x], n) == LastN(items + [x], n)
  {
  }

  predicate OnlyPushes<T(==)>(ops: seq<Op<T>>) {
    forall i :: 0 <= i < |ops| ==> ops[i].Push?
  }

  /** Without pops the buffer holds exactly the last size - 1 items ever pushed. */
  lemma {:induction false} OnlyPushesKeepLast<T>(ops: seq<Op<T>>, capacity: nat)
    requires OnlyPushes(ops)
    ensures Run(ops, capacity).content == LastN(Run(ops, capacity).pushed, capacity)
    ensures |Run(ops, capacity).pushed| == |ops|
  {
    if ops != [] {
      OnlyPushesKeepLast(ops[..|ops| - 1], capacity);
      LastOfLast(Run(ops[..|ops| - 1], capacity).pushed, ops[|ops| - 1].item, capacity);
      hide LastN;
    }
  }

  /** A push overwrites an item if and only if the index after the tail is the head. */
  lemma OverwriteIffNextTailIsHead<T>(slots: seq<T>, head: nat, tail: nat, t: Trace<T>, item: T)
    requires head < |slots| && tail < |slots| && t.content == Unwrap(slots, head, tail)
    ensures var exits := Apply(t, |slots| - 1, Push(item)).exits;
            && ((tail + 1) % |slots| == head ==> exits == t.exits + [Overwritten((t.content + [item])[0])])
            && ((tail + 1) % |slots| != head ==> exits == t.exits)
  {
    FullIffAllButOne(slots, head, tail);
    UnwrapLength(slots, head, tail);
  }

  // LockFreeRingBuffer<AuthEvent, 100>
  const AUTH_EVENT_SLOTS := 100

  /** The event log of the metrics registry shows the last 99 events, not the last 100. */
  lemma AuthEventLogKeeps99<T>(ops: seq<Op<T>>)
    requires OnlyPushes(ops) && |ops| >= AUTH_EVENT_SLOTS
    ensures |Run(ops, AUTH_EVENT_SLOTS - 1).content| == 99
  {
    OnlyPushesKeepLast(ops, AUTH_EVENT_SLOTS - 1);
  }
}
