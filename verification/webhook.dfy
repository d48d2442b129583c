/** The webhook output: a bounded queue, batches, and a drain on stop. */
module Webhooks {

  type Data = string

  /** The queue, the partial batch, every batch handed to the sender, and the number of data dropped. */
  datatype Hook = Hook(queue: seq<Data>, batch: seq<Data>, sent: seq<seq<Data>>, drops: nat)

  function Written(h: Hook, data: Data, capacity: nat): Hook {
    if |h.queue| < capacity then h.(queue := h.queue + [data]) else h.(drops := h.drops + 1)
  }

  function Flushed(h: Hook): Hook {
    if h.batch != [] then h.(sent := h.sent + [h.batch], batch := []) else h
  }

  function Received(h: Hook, batchSize: nat): Hook
    requires h.queue != []
  {
    var next := h.(queue := h.queue[1..], batch := h.batch + [h.queue[0]]);
    if |next.batch| >= batchSize then Flushed(next) else next
  }

  /** The drain on stop: receive until the queue is empty, then send what is left. */
  function Drained(h: Hook, batchSize: nat): Hook
    decreases |h.queue|
  {
    if h.queue == [] then Flushed(h) else Drained(Received(h, batchSize), batchSize)
  }

  function Flatten(batches: seq<seq<Data>>): seq<Data> {
    if batches == [] then [] else Flatten(batches[..|batches| - 1]) + batches[|batches| - 1]
  }

  lemma FlattenLast(batches: seq<seq<Data>>, batch: seq<Data>)
    ensures Flatten(batches + [batch]) == Flatten(batches) + batch
  {
    assert (batches + [batch])[..|batches|] == batches;
  }

  /** Everything accepted and not yet forgotten, oldest first. */
  function Contents(h: Hook): seq<Data> {
    Flatten(h.sent) + h.batch + h.queue
  }

  /** Batches have from 1 to `batchSize` events, and the partial batch is not yet full. */
  ghost predicate Batched(h: Hook, batchSize: nat) {
    && |h.batch| < batchSize
    && forall b | b in h.sent :: 1 <= |b| <= batchSize
  }

  lemma FlushKeeps(h: Hook, batchSize: nat)
    requires |h.batch| <= batchSize && batchSize > 0 && forall b | b in h.sent :: 1 <= |b| <= batchSize
    ensures Contents(Flushed(h)) == Contents(h) && Batched(Flushed(h), batchSize) && Flushed(h).batch == []
  {
    FlattenLast(h.sent, h.batch);
    assert Flatten(h.sent) + h.batch + [] + h.queue == Flatten(h.sent) + h.batch + h.queue;
  }

  lemma ReceiveKeeps(h: Hook, batchSize: nat)
    requires h.queue != [] && Batched(h, batchSize)
    ensures Contents(Received(h, batchSize)) == Contents(h) && Batched(Received(h, batchSize), batchSize)
  {
    var next := h.(queue := h.queue[1..], batch := h.batch + [h.queue[0]]);
    assert h.queue == [h.queue[0]] + h.queue[1..];
    assert Contents(next) == Contents(h);
    if |next.batch| >= batchSize {
      FlushKeeps(next, batchSize);
    }
  }

  /** The drain sends exactly what was accepted and unsent, in order, in batches of legal size. */
  lemma {:induction false} DrainSendsAll(h: Hook, batchSize: nat)
    requires Batched(h, batchSize)
    ensures Drained(h, batchSize).queue == [] && Drained(h, batchSize).batch == []
    ensures Flatten(Drained(h, batchSize).sent) == Contents(h)
    ensures Batched(Drained(h, batchSize), batchSize)
    ensures h.sent <= Drained(h, batchSize).sent && Drained(h, batchSize).drops == h.drops
    decreases |h.queue|
  {
    if h.queue == [] {
      FlushKeeps(h, batchSize);
      assert Contents(Flushed(h)) == Flatten(Flushed(h).sent);
    } else {
      ReceiveKeeps(h, batchSize);
      DrainSendsAll(Received(h, batchSize), batchSize);
    }
  }

  /** A received datum joins the batch, which is sent when it reaches its size and not before. */
  lemma ReceiveExactly(h: Hook, batchSize: nat)
    requires h.queue != [] && Batched(h, batchSize)
    ensures var next, batch := Received(h, batchSize), h.batch + [h.queue[0]];
            && next.queue == h.queue[1..] && next.drops == h.drops
            && (|batch| < batchSize ==> next.batch == batch && next.sent == h.sent)
            && (|batch| == batchSize ==> next.batch == [] && next.sent == h.sent + [batch])
  {
  }

  /** A datum is queued if there is room, and otherwise only counted. */
  lemma WriteExactly(h: Hook, data: Data, capacity: nat)
    ensures Written(h, data, capacity) ==
            if |h.queue| < capacity then Hook(h.queue + [data], h.batch, h.sent, h.drops)
            else Hook(h.queue, h.batch, h.sent, h.drops + 1)
  {
  }

  /** Of the batches that a drain sends, all but the last have the full size. */
  lemma {:induction false} DrainFillsBatches(h: Hook, batchSize: nat, i: nat)
    requires Batched(h, batchSize) && |h.sent| <= i < |Drained(h, batchSize).sent| - 1
    ensures |Drained(h, batchSize).sent[i]| == batchSize
    decreases |h.queue|
  {
    var next := Received(h, batchSize);
    ReceiveExactly(h, batchSize);
    ReceiveKeeps(h, batchSize);
    DrainSendsAll(next, batchSize);
    if i >= |next.sent| {
      DrainFillsBatches(next, batchSize, i);
    } else {
      assert Drained(h, batchSize).sent[i] == next.sent[i];
    }
  }

  class WebhookOutput {
    const capacity: nat
    const batchSize: nat
    var ch: seq<Data>
    var batch: seq<Data>
    var sent: seq<seq<Data>>
    var drops: nat

    function View(): Hook
      reads this
    {
      Hook(ch, batch, sent, drops)
    }

    /** The configured sizes, or their defaults when not positive. */
    constructor (bufferSize: int, batchSize: int)
      ensures this.capacity == (if bufferSize <= 0 then 10000 else bufferSize)
      ensures this.batchSize == (if batchSize <= 0 then 100 else batchSize)
      ensures View() == Hook([], [], [], 0) && Batched(View(), this.batchSize)
    {
      this.batchSize := if batchSize <= 0 then 100 else batchSize;
      this.capacity := if bufferSize <= 0 then 10000 else bufferSize;
      ch, batch, sent, drops := [], [], [], 0;
    }

    method Write(data: Data)
      modifies this
      ensures View() == Written(old(View()), data, capacity)
    {
      if |ch| < capacity {
        ch := ch + [data];
      } else {
        drops := drops + 1;
      }
    }

    method SendBatch()
      modifies this`sent
      ensures sent == old(sent) + [batch]
    {
      sent := sent + [batch];
    }

    method Receive()
      requires ch != []
      modifies this
      ensures View() == Received(old(View()), batchSize)
    {
      var data := ch[0];
      ch := ch[1..];
      batch := batch + [data];
      if |batch| >= batchSize {
        SendBatch();
        batch := [];
      }
    }

    method Tick()
      modifies this
      ensures View() == Flushed(old(View()))
    {
      if |batch| > 0 {
        SendBatch();
        batch := [];
      }
    }

    /** The inner loop of the flush loop after stop. */
    method Drain()
      requires Batched(View(), batchSize)
      modifies this
      ensures View() == Drained(old(View()), batchSize)
      ensures ch == [] && batch == [] && Flatten(sent) == old(Contents(View()))
    {
      DrainSendsAll(View(), batchSize);
      while ch != []
        invariant Drained(View(), batchSize) == Drained(old(View()), batchSize)
        decreases |ch|
      {
        Receive();
      }
      if |batch| > 0 {
        SendBatch();
        batch := [];
      }
    }
  }
}
