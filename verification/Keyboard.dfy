/**
 * The keyboard's key queue: a ring the interrupt fills at `head` and one reader
 * empties at `tail`. First the two operations on their own, then the reader's
 * statements one by one, with the interrupt allowed between any two of them.
 */
module Keyboard {
  import opened Arith

  const QUEUE_SIZE := 256

  function Next(i: nat): nat {
    (i + 1) % QUEUE_SIZE
  }

  /** The slot of the i-th waiting key. */
  function Slot(tail: nat, i: nat): nat {
    (tail + i) % QUEUE_SIZE
  }

  /** The ring holds exactly these keys, oldest first. */
  ghost predicate Holds(queue: seq<char>, head: nat, tail: nat, keys: seq<char>) {
    && |queue| == QUEUE_SIZE && head < QUEUE_SIZE && tail < QUEUE_SIZE
    && |keys| < QUEUE_SIZE && head == Slot(tail, |keys|)
    && forall i: nat :: i < |keys| ==> queue[Slot(tail, i)] == keys[i]
  }

  /** Empty and full can be told apart, as one slot always stays unused. */
  lemma EmptyOrFull(queue: seq<char>, head: nat, tail: nat, keys: seq<char>)
    requires Holds(queue, head, tail, keys)
    ensures head == tail <==> keys == []
    ensures Next(head) == tail <==> |keys| == QUEUE_SIZE - 1
  {
  }

  lemma SlotsDiffer(tail: nat, i: nat, j: nat)
    requires i < j < QUEUE_SIZE
    ensures Slot(tail, i) != Slot(tail, j)
  {
  }

  lemma SlotNext(tail: nat, i: nat)
    ensures Slot(Next(tail), i) == Slot(tail, i + 1) && Next(Slot(tail, i)) == Slot(tail, i + 1)
  {
    WrapsOnce(tail + 1, i);
    WrapsOnce(tail + i, 1);
  }

  lemma WrapsOnce(a: nat, b: nat)
    ensures (a % QUEUE_SIZE + b) % QUEUE_SIZE == (a + b) % QUEUE_SIZE
  {
    var x := a % QUEUE_SIZE + b;
    DivModUnique(a + b, QUEUE_SIZE, a / QUEUE_SIZE + x / QUEUE_SIZE, x % QUEUE_SIZE);
  }

  /** A key put at the head joins the end, and no waiting key is overwritten. */
  lemma PutHolds(queue: seq<char>, head: nat, tail: nat, keys: seq<char>, c: char)
    requires Holds(queue, head, tail, keys) && |keys| < QUEUE_SIZE - 1
    ensures Holds(queue[head := c], Next(head), tail, keys + [c])
  {
    SlotNext(tail, |keys|);
    forall i: nat | i < |keys| + 1 ensures queue[head := c][Slot(tail, i)] == (keys + [c])[i] {
      if i < |keys| {
        SlotsDiffer(tail, i, |keys|);
      }
    }
  }

  lemma TakeHolds(queue: seq<char>, head: nat, tail: nat, keys: seq<char>)
    requires Holds(queue, head, tail, keys) && keys != []
    ensures queue[tail] == keys[0] && Holds(queue, head, Next(tail), keys[1..])
  {
    assert Slot(tail, 0) == tail;
    SlotNext(tail, |keys| - 1);
    forall i: nat | i < |keys| - 1 ensures queue[Slot(Next(tail), i)] == keys[1..][i] {
      SlotNext(tail, i);
    }
  }

  class Queue {
    const queue: array<char>
    var head: nat
    var tail: nat
    var lastKey: char
    ghost var keys: seq<char>       // the keys waiting, oldest first

    ghost predicate Valid()
      reads this, queue
    {
      queue.Length == QUEUE_SIZE && Holds(queue[..], head, tail, keys)
    }

    constructor ()
      ensures Valid() && keys == [] && fresh(queue)
    {
      queue := new char[QUEUE_SIZE](_ => '\0');
      head, tail, lastKey, keys := 0, 0, '\0', [];
    }

    /** The newest key is dropped just when the ring is full. */
    method Enqueue(c: char)
      requires Valid()
      modifies this`head, this`lastKey, this`keys, queue
      ensures Valid()
      ensures keys == if |old(keys)| == QUEUE_SIZE - 1 then old(keys) else old(keys) + [c]
      ensures lastKey == if |old(keys)| == QUEUE_SIZE - 1 then old(lastKey) else c
    {
      EmptyOrFull(queue[..], head, tail, keys);
      if Next(head) == tail {
        return;
      }
      PutHolds(queue[..], head, tail, keys, c);
      ghost var before := queue[..];
      queue[head] := c;
      assert queue[..] == before[head := c];
      head := Next(head);
      lastKey := c;
      keys := keys + [c];
    }

    method PopKey() returns (c: char)
      requires Valid()
      modifies this`tail, this`keys
      ensures Valid()
      ensures old(keys) == [] ==> c == '\0' && keys == []
      ensures old(keys) != [] ==> [c] + keys == old(keys)
    {
      EmptyOrFull(queue[..], head, tail, keys);
      if head == tail {
        return '\0';
      }
      TakeHolds(queue[..], head, tail, keys);
      c := queue[tail];
      tail := Next(tail);
      keys := keys[1..];
    }
  }

  // ---------- The reader and the interrupt, statement by statement ----------

  /** Where the reader is in taking a key. */
  datatype Reader =
    | Idle
    | Looked(h: nat)      // has read head
    | Found               // head was not tail
    | Took(c: char)       // has read the slot at tail

  /** The shared ring, the reader, and all keys so far: taken in, read out, turned away. */
  datatype System = System(
    queue: seq<char>, head: nat, tail: nat, reader: Reader,
    accepted: seq<char>, popped: seq<char>, dropped: nat)

  datatype Step = Interrupt(key: char) | Read

  function Enqueue(s: System, c: char): System
    requires |s.queue| == QUEUE_SIZE && s.head < QUEUE_SIZE
  {
    if Next(s.head) == s.tail then s.(dropped := s.dropped + 1)
    else s.(queue := s.queue[s.head := c], head := Next(s.head), accepted := s.accepted + [c])
  }

  /** The reader's next statement. */
  function Advance(s: System): System
    requires |s.queue| == QUEUE_SIZE && s.tail < QUEUE_SIZE
  {
    match s.reader
    case Idle => s.(reader := Looked(s.head))
    case Looked(h) => s.(reader := if h == s.tail then Idle else Found)
    case Found => s.(reader := Took(s.queue[s.tail]))
    case Took(c) => s.(reader := Idle, tail := Next(s.tail), popped := s.popped + [c])
  }

  function Do(s: System, step: Step): System
    requires |s.queue| == QUEUE_SIZE && s.head < QUEUE_SIZE && s.tail < QUEUE_SIZE
  {
    match step
    case Interrupt(key) => Enqueue(s, key)
    case Read => Advance(s)
  }

  ghost function Waiting(s: System): seq<char>
    requires |s.popped| <= |s.accepted|
  {
    s.accepted[|s.popped|..]
  }

  /** What the reader relies on, however far it is. */
  ghost predicate ReaderOk(s: System)
    requires |s.popped| <= |s.accepted|
  {
    match s.reader
    case Idle => true
    case Looked(h) => h != s.tail ==> Waiting(s) != []
    case Found => Waiting(s) != []
    case Took(c) => Waiting(s) != [] && c == Waiting(s)[0]
  }

  ghost predicate Inv(s: System) {
    s.popped <= s.accepted && Holds(s.queue, s.head, s.tail, Waiting(s)) && ReaderOk(s)
  }

  lemma StartsEmpty(queue: seq<char>)
    requires |queue| == QUEUE_SIZE
    ensures Inv(System(queue, 0, 0, Idle, [], [], 0))
  {
  }

  lemma InterruptKeeps(s: System, c: char)
    requires Inv(s)
    ensures Inv(Enqueue(s, c))
    ensures Enqueue(s, c).dropped == s.dropped + 1 <==> |Waiting(s)| == QUEUE_SIZE - 1
    ensures forall i: nat :: i < |Waiting(s)| ==> Enqueue(s, c).queue[Slot(s.tail, i)] == s.queue[Slot(s.tail, i)]
  {
    var keys := Waiting(s);
    EmptyOrFull(s.queue, s.head, s.tail, keys);
    if Next(s.head) != s.tail {
      PutHolds(s.queue, s.head, s.tail, keys, c);
      var t := Enqueue(s, c);
      assert Waiting(t) == keys + [c];
      forall i: nat | i < |keys| ensures t.queue[Slot(s.tail, i)] == s.queue[Slot(s.tail, i)] {
        SlotsDiffer(s.tail, i, |keys|);
      }
    }
  }

  lemma ReadKeeps(s: System)
    requires Inv(s)
    ensures Inv(Advance(s))
  {
    var keys := Waiting(s);
    EmptyOrFull(s.queue, s.head, s.tail, keys);
    if keys != [] {
      TakeHolds(s.queue, s.head, s.tail, keys);
    }
    if s.reader.Took? {
      var t := Advance(s);
      assert keys[0] == s.accepted[|s.popped|];
      assert Waiting(t) == keys[1..];
    }
  }

  lemma DoKeeps(s: System, step: Step)
    requires Inv(s)
    ensures Inv(Do(s, step))
  {
    match step
    case Interrupt(key) => InterruptKeeps(s, key);
    case Read => ReadKeeps(s);
  }

  ghost function Run(s: System, steps: seq<Step>): (t: System)
    requires Inv(s)
    ensures Inv(t)
    decreases |steps|
  {
    if steps == [] then s
    else
      DoKeeps(s, steps[0]);
      Run(Do(s, steps[0]), steps[1..])
  }

  /** The keys offered by the interrupts of a run. */
  function Offered(steps: seq<Step>): nat {
    if steps == [] then 0 else (if steps[0].Interrupt? then 1 else 0) + Offered(steps[1..])
  }

  /**
   * However the interrupts fall between the reader's statements: what was read is
   * what was taken in, in order and without a gap; what is still in the ring is the
   * rest; and every key offered was either taken in or counted as turned away.
   */
  lemma {:induction false} NothingLost(s: System, steps: seq<Step>)
    requires Inv(s)
    ensures
      var t := Run(s, steps);
      && s.accepted <= t.accepted && s.popped <= t.popped && t.popped <= t.accepted
      && |t.accepted| - |t.popped| < QUEUE_SIZE
      && |t.accepted| + t.dropped == |s.accepted| + s.dropped + Offered(steps)
    decreases |steps|
  {
    if steps != [] {
      DoKeeps(s, steps[0]);
      StepCounts(s, steps[0]);
      NothingLost(Do(s, steps[0]), steps[1..]);
    }
  }

  lemma StepCounts(s: System, step: Step)
    requires Inv(s)
    ensures
      var t := Do(s, step);
      && s.accepted <= t.accepted && s.popped <= t.popped
      && |t.accepted| + t.dropped == |s.accepted| + s.dropped + if step.Interrupt? then 1 else 0
  {
  }

  function Reads(n: nat): seq<Step> {
    if n == 0 then [] else [Read] + Reads(n - 1)
  }

  lemma ReadFirst(s: System, n: nat)
    requires Inv(s)
    ensures Inv(Advance(s)) && Run(s, Reads(n + 1)) == Run(Advance(s), Reads(n))
  {
    ReadKeeps(s);
    assert Reads(n + 1)[0] == Read && Reads(n + 1)[1..] == Reads(n);
  }

  /** Four statements of an idle reader take the oldest key. */
  lemma ReadsOne(s: System, t: System)
    requires Inv(s) && s.reader.Idle? && Waiting(s) != []
    requires t == Advance(Advance(Advance(Advance(s))))
    ensures t == s.(tail := Next(s.tail), popped := s.popped + [Waiting(s)[0]])
  {
    EmptyOrFull(s.queue, s.head, s.tail, Waiting(s));
    TakeHolds(s.queue, s.head, s.tail, Waiting(s));
  }

  /** Left alone, an idle reader gets every waiting key, with four statements each. */
  lemma {:induction false} ReadsAll(s: System)
    requires Inv(s) && s.reader.Idle?
    ensures var t := Run(s, Reads(4 * |Waiting(s)|)); t.popped == s.accepted && t.accepted == s.accepted
    decreases |Waiting(s)|
  {
    if Waiting(s) == [] {
      assert s.popped == s.accepted;
    } else {
      var n := 4 * |Waiting(s)|;
      ReadFirst(s, n - 1);
      ReadFirst(Advance(s), n - 2);
      ReadFirst(Advance(Advance(s)), n - 3);
      ReadFirst(Advance(Advance(Advance(s))), n - 4);
      var t := Advance(Advance(Advance(Advance(s))));
      ReadsOne(s, t);
      assert Waiting(t) == Waiting(s)[1..];
      ReadsAll(t);
    }
  }
}
