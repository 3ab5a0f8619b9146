/** The response queue of ota/main_ota_bench.c between two cores: push and pop as their separate
    reads, writes and index publications, in any interleaving. */
module ResponseQueue {
  import opened Bytes
  import opened Framing

  const SIZE: nat := 32

  datatype Item = Item(kind: byte, seqno: byte, len: nat, payload: seq<byte>)

  /** Where the pushing core is: it has read head, or is writing the item; stage 0 to 2 write the
      fields, later ones a payload byte each, the last one publishes head. */
  datatype Producer =
    | PIdle
    | PCalled(m: Message)
    | PChecking(m: Message, h: nat)
    | PWriting(m: Message, h: nat, stage: nat)

  /** Where the popping core is: it has read tail, or is reading the item; stage 0 to 2 read the
      fields, stage 3 the length to copy, later ones a payload byte each, the last one publishes tail. */
  datatype Consumer =
    | CIdle
    | CChecking(t: nat)
    | CReading(t: nat, stage: nat, kind: byte, seqno: byte, len: nat, count: nat, out: seq<byte>)

  /** Shared memory, both cores, and everything pushed and popped so far. */
  datatype Queue = Queue(
    items: seq<Item>, head: nat, tail: nat, producer: Producer, consumer: Consumer,
    pushed: seq<Message>, popped: seq<Message>)

  datatype Step = Call(m: Message) | ProducerMoves | ConsumerMoves

  predicate Enabled(q: Queue, s: Step) {
    match s
    case Call(m) => q.producer.PIdle? && |m.payload| <= MAX_PAYLOAD
    case ProducerMoves => !q.producer.PIdle?
    case ConsumerMoves => true
  }

  predicate Shape(q: Queue) {
    && |q.items| == SIZE && q.head < SIZE && q.tail < SIZE
    && (forall i :: 0 <= i < SIZE ==> |q.items[i].payload| == MAX_PAYLOAD)
    && (q.producer.PWriting? ==>
          && q.producer.h < SIZE && |q.producer.m.payload| <= MAX_PAYLOAD
          && q.producer.stage <= 3 + |q.producer.m.payload|)
    && (q.producer.PChecking? ==> q.producer.h < SIZE && |q.producer.m.payload| <= MAX_PAYLOAD)
    && (q.producer.PCalled? ==> |q.producer.m.payload| <= MAX_PAYLOAD)
    && (q.consumer.CChecking? ==> q.consumer.t < SIZE)
    && (q.consumer.CReading? ==>
          && q.consumer.t < SIZE
          && (q.consumer.stage >= 4 ==> |q.consumer.out| == q.consumer.stage - 4 <= q.consumer.count <= MAX_PAYLOAD))
  }

  /** One write of the pushing core into its item. */
  function Written(item: Item, m: Message, stage: nat): Item
    requires stage < 3 + |m.payload| && |m.payload| <= MAX_PAYLOAD == |item.payload|
  {
    if stage == 0 then item.(kind := m.kind)
    else if stage == 1 then item.(seqno := m.seqno)
    else if stage == 2 then item.(len := |m.payload|)
    else item.(payload := item.payload[stage - 3 := m.payload[stage - 3]])
  }

  function ProducerNext(q: Queue): Queue
    requires Shape(q) && !q.producer.PIdle?
  {
    match q.producer
    case PCalled(m) => q.(producer := PChecking(m, q.head))
    case PChecking(m, h) =>
      if (h + 1) % SIZE == q.tail then q.(producer := PIdle) else q.(producer := PWriting(m, h, 0))
    case PWriting(m, h, stage) =>
      if stage < 3 + |m.payload| then
        q.(items := q.items[h := Written(q.items[h], m, stage)], producer := PWriting(m, h, stage + 1))
      else q.(head := (h + 1) % SIZE, producer := PIdle, pushed := q.pushed + [m])
  }

  /** A length field beyond the payload array is copied as far as the array goes. */
  function Count(len: nat): nat { if len <= MAX_PAYLOAD then len else MAX_PAYLOAD }

  function ConsumerNext(q: Queue): Queue
    requires Shape(q)
  {
    match q.consumer
    case CIdle => q.(consumer := CChecking(q.tail))
    case CChecking(t) =>
      if t == q.head then q.(consumer := CIdle) else q.(consumer := CReading(t, 0, 0, 0, 0, 0, []))
    case CReading(t, stage, kind, seqno, len, count, out) =>
      var item := q.items[t];
      if stage == 0 then q.(consumer := CReading(t, 1, item.kind, 0, 0, 0, []))
      else if stage == 1 then q.(consumer := CReading(t, 2, kind, item.seqno, 0, 0, []))
      else if stage == 2 then q.(consumer := CReading(t, 3, kind, seqno, item.len, 0, []))
      else if stage == 3 then q.(consumer := CReading(t, 4, kind, seqno, len, Count(item.len), []))
      else if stage - 4 < count then
        q.(consumer := CReading(t, stage + 1, kind, seqno, len, count, out + [item.payload[stage - 4]]))
      else q.(tail := (t + 1) % SIZE, consumer := CIdle, popped := q.popped + [Message(kind, seqno, out)])
  }

  function Next(q: Queue, s: Step): Queue
    requires Shape(q) && Enabled(q, s)
  {
    match s
    case Call(m) => q.(producer := PCalled(m))
    case ProducerMoves => ProducerNext(q)
    case ConsumerMoves => ConsumerNext(q)
  }

  ghost predicate Init(q: Queue) {
    && |q.items| == SIZE && (forall i :: 0 <= i < SIZE ==> |q.items[i].payload| == MAX_PAYLOAD)
    && q.head == q.tail == 0 && q.producer == PIdle && q.consumer == CIdle && q.pushed == q.popped == []
  }

  // ---- the invariant --------------------------------------------------------------------------------

  /** An item slot holds a message completely. */
  ghost predicate Stores(item: Item, m: Message) {
    && item.kind == m.kind && item.seqno == m.seqno && item.len == |m.payload| <= MAX_PAYLOAD == |item.payload|
    && item.payload[..item.len] == m.payload
  }

  /** The writes made so far. */
  ghost predicate PartlyWritten(item: Item, m: Message, stage: nat)
    requires |m.payload| <= MAX_PAYLOAD == |item.payload| && stage <= 3 + |m.payload|
  {
    && (stage > 0 ==> item.kind == m.kind) && (stage > 1 ==> item.seqno == m.seqno)
       && (stage > 2 ==> item.len == |m.payload|)
    && (stage > 3 ==> forall i :: 0 <= i < stage - 3 ==> item.payload[i] == m.payload[i])
  }

  /** The reads made so far. */
  ghost predicate PartlyRead(c: Consumer, m: Message)
    requires c.CReading?
  {
    && (c.stage > 0 ==> c.kind == m.kind) && (c.stage > 1 ==> c.seqno == m.seqno)
       && (c.stage > 2 ==> c.len == |m.payload|)
    && (c.stage > 3 ==> c.count == |m.payload| && c.stage - 4 <= |m.payload| && c.out == m.payload[..c.stage - 4])
  }

  ghost predicate Inv(q: Queue) {
    && Shape(q)
    && |q.popped| <= |q.pushed| < |q.popped| + SIZE
    && q.head == |q.pushed| % SIZE && q.tail == |q.popped| % SIZE
    && q.popped == q.pushed[..|q.popped|]
    && (forall i :: |q.popped| <= i < |q.pushed| ==> Stores(q.items[i % SIZE], q.pushed[i]))
    && (q.producer.PChecking? ==> q.producer.h == q.head)
    && (q.producer.PWriting? ==>
          && q.producer.h == q.head && |q.pushed| + 1 < |q.popped| + SIZE
          && PartlyWritten(q.items[q.head], q.producer.m, q.producer.stage))
    && (q.consumer.CChecking? ==> q.consumer.t == q.tail)
    && (q.consumer.CReading? ==>
          q.consumer.t == q.tail && |q.popped| < |q.pushed| && PartlyRead(q.consumer, q.pushed[|q.popped|]))
  }

  lemma SlotsDiffer(i: nat, j: nat)
    requires i < j < i + SIZE
    ensures i % SIZE != j % SIZE
  {
  }

  lemma NextSlot(i: nat)
    ensures (i % SIZE + 1) % SIZE == (i + 1) % SIZE
  {
  }

  /** The check for a free slot is exact. */
  lemma FullExactly(q: Queue)
    requires Inv(q)
    ensures (q.head + 1) % SIZE == q.tail <==> |q.pushed| - |q.popped| == SIZE - 1
  {
    NextSlot(|q.pushed|);
    if |q.pushed| + 1 < |q.popped| + SIZE {
      SlotsDiffer(|q.popped|, |q.pushed| + 1);
    } else {
      assert |q.pushed| + 1 == |q.popped| + SIZE;
      assert (|q.popped| + SIZE) % SIZE == |q.popped| % SIZE;
    }
  }

  /** The check for an empty queue is exact. */
  lemma EmptyExactly(q: Queue)
    requires Inv(q)
    ensures q.tail == q.head <==> |q.pushed| == |q.popped|
  {
    if |q.popped| < |q.pushed| { SlotsDiffer(|q.popped|, |q.pushed|); }
  }

  lemma ProducerKeeps(q: Queue)
    requires Inv(q) && !q.producer.PIdle?
    ensures Inv(ProducerNext(q))
  {
    FullExactly(q);
    match q.producer {
      case PWriting(m, h, stage) =>
        if stage < 3 + |m.payload| { WriteKeeps(q); } else { PublishKeeps(q); }
      case _ =>
    }
  }

  /** A write goes to a slot that holds no queued item. */
  lemma WriteKeeps(q: Queue)
    requires Inv(q) && q.producer.PWriting? && q.producer.stage < 3 + |q.producer.m.payload|
    ensures Inv(ProducerNext(q))
  {
    var q' := ProducerNext(q);
    forall i | |q.popped| <= i < |q.pushed| ensures Stores(q'.items[i % SIZE], q.pushed[i]) {
      SlotsDiffer(i, |q.pushed|);
      assert q'.items[i % SIZE] == q.items[i % SIZE];
    }
  }

  /** When head is published the item is complete. */
  lemma PublishKeeps(q: Queue)
    requires Inv(q) && q.producer.PWriting? && q.producer.stage == 3 + |q.producer.m.payload|
    ensures Inv(ProducerNext(q))
  {
    var q', m := ProducerNext(q), q.producer.m;
    NextSlot(|q.pushed|);
    assert q.items[q.head].payload[..|m.payload|] == m.payload;
    assert q'.pushed[..|q.popped|] == q.pushed[..|q.popped|];
    forall i | |q.popped| <= i < |q'.pushed| ensures Stores(q'.items[i % SIZE], q'.pushed[i]) {}
  }

  lemma ConsumerKeeps(q: Queue)
    requires Inv(q)
    ensures Inv(ConsumerNext(q))
  {
    EmptyExactly(q);
    match q.consumer {
      case CReading(_, _, _, _, _, _, _) => ReadingKeeps(q);
      case _ =>
    }
  }

  lemma ReadingKeeps(q: Queue)
    requires Inv(q) && q.consumer.CReading?
    ensures Inv(ConsumerNext(q))
  {
    hide ConsumerNext, Inv;
    if q.consumer.stage < 4 { FieldKeeps(q); }
    else if q.consumer.stage - 4 < q.consumer.count { ByteKeeps(q); }
    else { LastReadKeeps(q); }
  }

  lemma FieldKeeps(q: Queue)
    requires Inv(q) && q.consumer.CReading? && q.consumer.stage < 4
    ensures Inv(ConsumerNext(q))
  {
    assert Stores(q.items[q.consumer.t], q.pushed[|q.popped|]);
  }

  lemma ByteKeeps(q: Queue)
    requires Inv(q) && q.consumer.CReading? && q.consumer.stage >= 4 && q.consumer.stage - 4 < q.consumer.count
    ensures Inv(ConsumerNext(q))
  {
    var t, stage, m := q.consumer.t, q.consumer.stage, q.pushed[|q.popped|];
    assert Stores(q.items[t], m);
    assert q.items[t].payload[stage - 4] == q.items[t].payload[..|m.payload|][stage - 4];
    assert m.payload[..stage - 3] == m.payload[..stage - 4] + [m.payload[stage - 4]];
  }

  lemma LastReadKeeps(q: Queue)
    requires Inv(q) && q.consumer.CReading? && q.consumer.stage >= 4 && q.consumer.stage - 4 >= q.consumer.count
    ensures Inv(ConsumerNext(q))
  {
    var m := q.pushed[|q.popped|];
    assert Stores(q.items[q.consumer.t], m);
    NextSlot(|q.popped|);
    assert m.payload[..|m.payload|] == m.payload;
    assert q.pushed[..|q.popped| + 1] == q.pushed[..|q.popped|] + [m];
  }

  lemma InvNext(q: Queue, s: Step)
    requires Inv(q) && Enabled(q, s)
    ensures Inv(Next(q, s))
  {
    hide ProducerNext, ConsumerNext;
    match s {
      case Call(m) =>
      case ProducerMoves => ProducerKeeps(q);
      case ConsumerMoves => ConsumerKeeps(q);
    }
  }

  // ---- runs -------------------------------------------------------------------------------------------

  ghost predicate Moves(q: Queue, s: Step, q': Queue) { Shape(q) && Enabled(q, s) && q' == Next(q, s) }

  ghost predicate Run(states: seq<Queue>, steps: seq<Step>) {
    && |states| == |steps| + 1 && Init(states[0])
    && forall i :: 0 <= i < |steps| ==> Moves(states[i], steps[i], states[i + 1])
  }

  lemma {:induction false} RunInv(states: seq<Queue>, steps: seq<Step>, i: nat)
    requires Run(states, steps) && i < |states|
    ensures Inv(states[i])
  {
    hide Inv, Next, Shape;
    if i == 0 {
      InitInv(states[0]);
    } else {
      RunInv(states, steps, i - 1);
      assert Moves(states[i - 1], steps[i - 1], states[i]);
      InvNext(states[i - 1], steps[i - 1]);
    }
  }

  lemma InitInv(q: Queue)
    requires Init(q)
    ensures Inv(q)
  {
  }

  /** In every interleaving the popped messages are the pushed ones in order, at most 31 are queued,
      and every queued one is complete in its slot. */
  lemma FifoInEveryInterleaving(states: seq<Queue>, steps: seq<Step>, i: nat)
    requires Run(states, steps) && i < |states|
    ensures var q := states[i];
            && |q.popped| <= |q.pushed| <= |q.popped| + SIZE - 1
            && q.popped == q.pushed[..|q.popped|]
            && |q.items| == SIZE
            && forall k :: |q.popped| <= k < |q.pushed| ==> Stores(q.items[k % SIZE], q.pushed[k])
  {
    RunInv(states, steps, i);
  }

  /** A push gives up exactly when 31 messages are queued, a pop exactly when none is. */
  lemma RefusalsExact(states: seq<Queue>, steps: seq<Step>, i: nat)
    requires Run(states, steps) && i < |states|
    ensures var q := states[i];
            Shape(q)
            && (q.producer.PChecking? ==>
                  (ProducerNext(q).producer.PIdle? <==> |q.pushed| - |q.popped| == SIZE - 1))
            && (q.consumer.CChecking? ==>
                  (ConsumerNext(q).consumer.CIdle? <==> |q.pushed| == |q.popped|))
  {
    RunInv(states, steps, i);
    FullExactly(states[i]);
    EmptyExactly(states[i]);
  }
}
