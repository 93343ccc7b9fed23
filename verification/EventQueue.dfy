/** The bounded event queue that both media backends implement, and what its callers can
    rely on over a whole run. */
module EventQueue {
  import opened MiniLang

  const QUEUE_CAPACITY: nat := 64
  const MESSAGE_CAPACITY: nat := 512

  // Event kinds and player states of the bridge's C interface.
  const EVENT_NONE: int := 0
  const EVENT_READY: int := 1
  const EVENT_PLAYING: int := 2
  const EVENT_PAUSED: int := 3
  const EVENT_STOPPED: int := 4
  const EVENT_BUFFERING: int := 5
  const EVENT_ENDED: int := 6
  const EVENT_FORMAT_CHANGED: int := 7
  const EVENT_ERROR: int := 8

  datatype PlayerState = Empty | Loading | Ready | Playing | Paused | Stopped | Buffering | Ended | Failed | Closed

  /** An event as it is queued. */
  datatype Event = Event(kind: int, code: int, text: Text)

  /** A ring slot: the text is the part of the message buffer before the first NUL. */
  datatype Slot = Slot(kind: int, code: int, message: seq<byte>)

  function Min(a: int, b: int): int {
    if a < b then a else b
  }

  /** The characters of a C string held in a buffer. */
  function CText(buffer: seq<byte>): (t: Text)
    ensures |t| <= |buffer|
  {
    if buffer == [] || buffer[0] == 0 then [] else [buffer[0]] + CText(buffer[1..])
  }

  lemma {:induction false} CTextPrefix(buffer: seq<byte>, n: nat)
    requires n <= |buffer| && (forall i | 0 <= i < n :: buffer[i] != 0) && (n == |buffer| || buffer[n] == 0)
    ensures CText(buffer) == buffer[..n]
  {
    if n > 0 {
      CTextPrefix(buffer[1..], n - 1);
      assert buffer[..n] == [buffer[0]] + buffer[1..][..n - 1];
    }
  }

  /** Copying at most `limit` characters and a terminator leaves the rest of the buffer. */
  function CopyText(buffer: seq<byte>, text: Text, limit: nat): (b: seq<byte>)
    requires limit < |buffer|
    ensures |b| == |buffer|
  {
    var n := Min(|text|, limit);
    text[..n] + [0] + buffer[n + 1..]
  }

  predicate IsCString(text: Text) {
    forall i | 0 <= i < |text| :: text[i] != 0
  }

  lemma CopiedText(buffer: seq<byte>, text: Text, limit: nat)
    requires limit < |buffer| && IsCString(text)
    ensures CText(CopyText(buffer, text, limit)) == text[..Min(|text|, limit)]
  {
    var n := Min(|text|, limit);
    var b := CopyText(buffer, text, limit);
    assert b[..n] == text[..n];
    assert forall i | 0 <= i < n :: b[i] == text[i];
    CTextPrefix(b, n);
  }

  /** A terminated buffer holds its text and then a NUL. */
  lemma {:induction false} TextEnds(buffer: seq<byte>)
    requires |CText(buffer)| < |buffer|
    ensures var t := CText(buffer);
            buffer[|t|] == 0 && t == buffer[..|t|] && IsCString(t)
  {
    if buffer[0] != 0 {
      TextEnds(buffer[1..]);
      assert CText(buffer) == [buffer[0]] + CText(buffer[1..]);
    }
  }

  // ----- the abstract queue

  /** The event as it is stored: its text is cut to 511 characters. */
  function Stored(kind: int, code: int, text: Text): Event {
    Event(kind, code, text[..Min(|text|, MESSAGE_CAPACITY - 1)])
  }

  /** Pushing onto a full queue drops the oldest event. */
  function Push(q: seq<Event>, e: Event): seq<Event> {
    (if |q| == QUEUE_CAPACITY then q[1..] else q) + [e]
  }

  function PushAll(q: seq<Event>, es: seq<Event>): seq<Event>
    decreases |es|
  {
    if es == [] then q else PushAll(Push(q, es[0]), es[1..])
  }

  lemma PushAllOne(q: seq<Event>, e: Event)
    ensures PushAll(q, [e]) == Push(q, e) && PushAll(q, []) == q
  {
    assert [e][1..] == [];
  }

  lemma {:induction false} PushAllAppend(q: seq<Event>, es: seq<Event>, fs: seq<Event>)
    ensures PushAll(q, es + fs) == PushAll(PushAll(q, es), fs)
    decreases |es|
  {
    if es == [] {
      assert es + fs == fs;
    } else {
      PushAllAppend(Push(q, es[0]), es[1..], fs);
      assert (es + fs)[1..] == es[1..] + fs;
    }
  }

  /** Pushing any number of events keeps exactly the last 64 of everything. */
  lemma {:induction false} PushAllKeepsLast(q: seq<Event>, es: seq<Event>)
    requires |q| <= QUEUE_CAPACITY
    ensures var all := q + es;
            PushAll(q, es) == if |all| <= 64 then all else all[|all| - 64..]
    decreases |es|
  {
    var all := q + es;
    if es == [] {
      assert all == q;
    } else {
      PushAllKeepsLast(Push(q, es[0]), es[1..]);
      var rest := Push(q, es[0]) + es[1..];
      if |q| == QUEUE_CAPACITY {
        assert rest == all[1..];
      } else {
        assert rest == all;
      }
    }
  }

  // ----- ring indices

  /** The slot of the `i`th queued event. */
  function RingIndex(head: nat, i: nat): (k: nat)
    ensures k < QUEUE_CAPACITY
  {
    (head + i) % QUEUE_CAPACITY
  }

  lemma RingShift(head: nat, next: nat)
    requires next == (head + 1) % QUEUE_CAPACITY
    ensures forall i: nat :: RingIndex(next, i) == RingIndex(head, i + 1)
  {
  }

  lemma RingDistinct(head: nat, j: nat)
    requires j < QUEUE_CAPACITY
    ensures forall i: nat :: i < j ==> RingIndex(head, i) != RingIndex(head, j)
  {
  }

  /** A ring of slots holds a queue: the oldest event at `head`, the others behind it. */
  ghost predicate RingHolds(slots: array<Slot>, head: nat, size: nat, queue: seq<Event>)
    reads slots
  {
    && slots.Length == QUEUE_CAPACITY && head < QUEUE_CAPACITY
    && size == |queue| <= QUEUE_CAPACITY
    && (forall i | 0 <= i < slots.Length :: |slots[i].message| == MESSAGE_CAPACITY)
    && (forall i: nat | i < size :: SlotHolds(slots[RingIndex(head, i)], queue[i]))
  }

  ghost predicate SlotHolds(slot: Slot, e: Event) {
    slot.kind == e.kind && slot.code == e.code && CText(slot.message) == e.text && |e.text| < MESSAGE_CAPACITY
  }

  /** Whatever a ring holds can be copied out as a C string. */
  lemma RingTexts(slots: array<Slot>, head: nat, size: nat, queue: seq<Event>)
    requires RingHolds(slots, head, size, queue)
    ensures forall e | e in queue :: IsCString(e.text)
  {
    forall i: nat | i < size
      ensures IsCString(queue[i].text)
    {
      assert SlotHolds(slots[RingIndex(head, i)], queue[i]);
      TextEnds(slots[RingIndex(head, i)].message);
    }
  }

  // ----- runs

  /** One call on the queue; a pop offers room for `capacity` bytes of text. */
  datatype Op = PushOp(kind: int, code: int, text: Text) | PopOp(capacity: int)

  /** What a whole run did. Events are numbered in the order they were pushed. */
  datatype History = History(
    queue: seq<Event>, pushed: seq<Event>, first: nat,
    delivered: seq<nat>, outputs: seq<Event>, dropped: seq<nat>)

  function Delivered(e: Event, capacity: int): Event {
    e.(text := if capacity > 0 then e.text[..Min(|e.text|, capacity - 1)] else [])
  }

  function Step(h: History, op: Op): History {
    match op
    case PushOp(kind, code, text) =>
      var e := Stored(kind, code, text);
      var full := |h.queue| == QUEUE_CAPACITY;
      h.(queue := Push(h.queue, e), pushed := h.pushed + [e],
         first := if full then h.first + 1 else h.first,
         dropped := if full then h.dropped + [h.first] else h.dropped)
    case PopOp(capacity) =>
      if h.queue == [] then h
      else h.(queue := h.queue[1..], first := h.first + 1,
              delivered := h.delivered + [h.first],
              outputs := h.outputs + [Delivered(h.queue[0], capacity)])
  }

  function Run(ops: seq<Op>): History {
    if ops == [] then History([], [], 0, [], [], [])
    else Step(Run(ops[..|ops| - 1]), ops[|ops| - 1])
  }

  /** The pushes that queue these events. */
  function PushOps(es: seq<Event>): (ops: seq<Op>)
    ensures |ops| == |es|
  {
    seq(|es|, i requires 0 <= i < |es| => PushOp(es[i].kind, es[i].code, es[i].text))
  }

  /** A run that ends in pushes of stored events. */
  lemma {:induction false} RunPushes(ops: seq<Op>, es: seq<Event>)
    requires forall e | e in es :: |e.text| < MESSAGE_CAPACITY
    ensures var g, h := Run(ops), Run(ops + PushOps(es));
            && h.queue == PushAll(g.queue, es)
            && h.outputs == g.outputs
            && h.pushed == g.pushed + es
    decreases |es|
  {
    hide PushAll, Push, Run, Step, Stored, PushOps;
    if es == [] {
      PushAllOne(Run(ops).queue, Event(0, 0, []));
      assert ops + PushOps(es) == ops;
    } else {
      var init, e := es[..|es| - 1], es[|es| - 1];
      RunPushes(ops, init);
      assert e in es && es == init + [e];
      PushOpsSnoc(init, e);
      RunPush(ops + PushOps(init), e);
      assert (ops + PushOps(init)) + [PushOp(e.kind, e.code, e.text)] == ops + PushOps(es);
      PushAllAppend(Run(ops).queue, init, [e]);
      PushAllOne(PushAll(Run(ops).queue, init), e);
    }
  }

  lemma PushOpsSnoc(es: seq<Event>, e: Event)
    ensures PushOps(es + [e]) == PushOps(es) + [PushOp(e.kind, e.code, e.text)]
  {
  }

  lemma RunPush(ops: seq<Op>, e: Event)
    requires |e.text| < MESSAGE_CAPACITY
    ensures var g, h := Run(ops), Run(ops + [PushOp(e.kind, e.code, e.text)]);
            h.queue == Push(g.queue, e) && h.outputs == g.outputs && h.pushed == g.pushed + [e]
  {
    var all := ops + [PushOp(e.kind, e.code, e.text)];
    assert all[..|all| - 1] == ops;
    assert e.text[..Min(|e.text|, MESSAGE_CAPACITY - 1)] == e.text;
  }

  ghost predicate Increasing(s: seq<nat>, below: nat) {
    && (forall i, j | 0 <= i < j < |s| :: s[i] < s[j])
    && (forall i | 0 <= i < |s| :: s[i] < below)
  }

  /** The queue is what was pushed and has not yet left; what left did so in order, once,
      either delivered or dropped, and was dropped only as the oldest of 64. */
  ghost predicate Accounted(h: History) {
    && h.first <= |h.pushed| <= h.first + 64
    && h.queue == h.pushed[h.first..]
    && Increasing(h.delivered, h.first) && Increasing(h.dropped, h.first)
    && |h.delivered| + |h.dropped| == h.first
    && (forall k | 0 <= k < h.first :: (k in h.delivered) != (k in h.dropped))
    && (forall i | 0 <= i < |h.dropped| :: h.dropped[i] + 64 < |h.pushed|)
    && |h.outputs| == |h.delivered|
    && (forall i | 0 <= i < |h.outputs| :: FromPushed(h.outputs[i], h.pushed[h.delivered[i]]))
  }

  /** An output is the pushed event with a prefix of its text. */
  ghost predicate FromPushed(output: Event, e: Event) {
    output.kind == e.kind && output.code == e.code && output.text <= e.text
  }

  lemma {:induction false} StepAccounted(h: History, op: Op)
    requires Accounted(h)
    ensures Accounted(Step(h, op))
  {
    match op {
      case PushOp(kind, code, text) => PushAccounted(h, op);
      case PopOp(capacity) => PopAccounted(h, op);
    }
  }

  lemma PushAccounted(h: History, op: Op)
    requires Accounted(h) && op.PushOp?
    ensures Accounted(Step(h, op))
  {
    hide FromPushed;
    var g := Step(h, op);
    assert g.queue == g.pushed[g.first..];
    if |h.queue| == QUEUE_CAPACITY {
      LeaveAccounted(h.dropped, h.delivered, h.first);
    }
    forall i | 0 <= i < |g.outputs|
      ensures FromPushed(g.outputs[i], g.pushed[g.delivered[i]])
    {
      assert g.pushed[h.delivered[i]] == h.pushed[h.delivered[i]];
    }
  }

  lemma PopAccounted(h: History, op: Op)
    requires Accounted(h) && op.PopOp?
    ensures Accounted(Step(h, op))
  {
    var g := Step(h, op);
    if h.queue != [] {
      assert h.queue[0] == h.pushed[h.first];
      assert g.queue == g.pushed[g.first..];
      assert FromPushed(Delivered(h.queue[0], op.capacity), h.queue[0]);
      hide FromPushed;
      LeaveAccounted(h.delivered, h.dropped, h.first);
    }
  }

  /** The oldest queued event leaves on one of the two ways. */
  lemma LeaveAccounted(s: seq<nat>, other: seq<nat>, first: nat)
    requires Increasing(s, first) && Increasing(other, first)
    requires forall k | 0 <= k < first :: (k in s) != (k in other)
    ensures Increasing(s + [first], first + 1) && Increasing(other, first + 1)
    ensures forall k | 0 <= k < first + 1 :: (k in s + [first]) != (k in other)
  {
  }

  /** Over every run of pushes and pops: delivered events are an in-order subsequence of
      the pushed ones, an event is lost only as the oldest of 64, and
      pushed = delivered + dropped + queued. */
  lemma {:induction false} RunAccounted(ops: seq<Op>)
    ensures Accounted(Run(ops))
    ensures var h := Run(ops); |h.pushed| == |h.delivered| + |h.dropped| + |h.queue|
    decreases |ops|
  {
    if ops != [] {
      RunAccounted(ops[..|ops| - 1]);
      StepAccounted(Run(ops[..|ops| - 1]), ops[|ops| - 1]);
    }
  }

  /** The most recent 64 events are never lost. */
  lemma RecentNotLost(ops: seq<Op>, k: nat)
    requires k < |Run(ops).pushed| <= k + 64
    ensures var h := Run(ops);
            && k !in h.dropped
            && (k in h.delivered || (0 <= k - h.first < |h.queue| && h.queue[k - h.first] == h.pushed[k]))
  {
    RunAccounted(ops);
  }

  function DeliveredAll(es: seq<Event>, capacity: int): seq<Event> {
    if es == [] then [] else DeliveredAll(es[..|es| - 1], capacity) + [Delivered(es[|es| - 1], capacity)]
  }

  function Pops(n: nat, capacity: int): seq<Op> {
    if n == 0 then [] else Pops(n - 1, capacity) + [PopOp(capacity)]
  }

  /** Polling empties the queue in order: each of as many pops as there are events delivers
      the next one. */
  lemma {:induction false} PopsDeliver(ops: seq<Op>, n: nat, capacity: int)
    requires n <= |Run(ops).queue|
    ensures var h, q := Run(ops + Pops(n, capacity)), Run(ops).queue;
            h.queue == q[n..] && h.outputs == Run(ops).outputs + DeliveredAll(q[..n], capacity)
    decreases n
  {
    var q := Run(ops).queue;
    hide Run, Delivered;
    if n == 0 {
      assert ops + Pops(n, capacity) == ops;
    } else {
      var before := ops + Pops(n - 1, capacity);
      PopsDeliver(ops, n - 1, capacity);
      assert ops + Pops(n, capacity) == before + [PopOp(capacity)];
      RunPop(before, capacity);
      DeliveredSnoc(q[..n], capacity);
      assert q[..n][..n - 1] == q[..n - 1] && q[n - 1..][1..] == q[n..];
      hide Pops, DeliveredAll;
    }
  }

  lemma DeliveredSnoc(es: seq<Event>, capacity: int)
    requires es != []
    ensures DeliveredAll(es, capacity)
            == DeliveredAll(es[..|es| - 1], capacity) + [Delivered(es[|es| - 1], capacity)]
  {
  }

  lemma RunPop(ops: seq<Op>, capacity: int)
    ensures var g, h := Run(ops), Run(ops + [PopOp(capacity)]);
            g.queue != [] ==>
              h.queue == g.queue[1..] && h.outputs == g.outputs + [Delivered(g.queue[0], capacity)]
  {
    var all := ops + [PopOp(capacity)];
    assert all[..|all| - 1] == ops;
  }

  /** The text that reaches a caller is the prefix of what was pushed of length
      min(length, 511, capacity - 1). */
  lemma DeliveredText(kind: int, code: int, text: Text, capacity: int)
    requires capacity > 0
    ensures Delivered(Stored(kind, code, text), capacity)
            == Event(kind, code, text[..Min(|text|, Min(511, capacity - 1))])
  {
    var n := Min(|text|, MESSAGE_CAPACITY - 1);
    var m := Min(n, capacity - 1);
    assert text[..n][..m] == text[..m];
  }
}
