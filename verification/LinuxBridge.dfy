/** The GStreamer bridge: its event ring, the drain of backend messages and the calls that
    move the player's state. What the backend answers is a parameter. */
module LinuxBridge {
  import opened MiniLang
  import opened EventQueue

  /** A message popped from the backend's bus. */
  datatype Message = ErrorMessage(code: int, text: Text) | EndOfStream | BufferingMessage(percent: int)

  /** The part of the player that decides which events are reported. */
  datatype Status = Status(state: PlayerState, readyReported: bool, loop: bool)

  // ----- specification

  function OnMessage(s: Status, m: Message): (r: (Status, seq<Event>)) {
    match m
    case ErrorMessage(code, text) => (s.(state := Failed), [Stored(EVENT_ERROR, code, text)])
    case EndOfStream =>
      (s.(state := if s.loop then Playing else Ended), [Stored(EVENT_ENDED, 0, [])])
    case BufferingMessage(percent) =>
      if percent < 100 then (s.(state := Buffering), [Stored(EVENT_BUFFERING, percent, [])])
      else if s.state == Buffering then (s.(state := Ready), [Stored(EVENT_READY, 100, [])])
      else (s, [])
  }

  function OnMessages(s: Status, ms: seq<Message>): (Status, seq<Event>) {
    if ms == [] then (s, [])
    else
      var (s1, es1) := OnMessages(s, ms[..|ms| - 1]);
      var (s2, es2) := OnMessage(s1, ms[|ms| - 1]);
      (s2, es1 + es2)
  }

  /** Report readiness once per prepared pipeline. */
  function OnPrepared(s: Status, prepared: bool): (Status, seq<Event>) {
    if !s.readyReported && prepared then
      (s.(readyReported := true, state := if s.state == Loading then Ready else s.state), [Stored(EVENT_READY, 0, [])])
    else (s, [])
  }

  function OnDrain(s: Status, ms: seq<Message>, prepared: bool): (Status, seq<Event>) {
    var (s1, es1) := OnMessages(s, ms);
    var (s2, es2) := OnPrepared(s1, prepared);
    (s2, es1 + es2)
  }

  predicate CanAttach(s: Status, window: nat, sink: bool, paused: bool) {
    window != 0 && s.state != Playing && s.state != Buffering && sink && paused
  }

  /** A call on an open player, with the backend's answers to it. */
  datatype Call =
    | Poll(messages: seq<Message>, prepared: bool, capacity: int)
    | Query(messages: seq<Message>, prepared: bool)
    | Attach(window: nat, sink: bool, paused: bool)
    | Play(started: bool, rated: bool)
    | Pause(paused: bool)
    | Stop(paused: bool, rewound: bool)
    | SetLoop(enabled: bool)

  function OnCall(s: Status, c: Call): (Status, seq<Event>) {
    match c
    case Poll(messages, prepared, _) => OnDrain(s, messages, prepared)
    case Query(messages, prepared) => OnDrain(s, messages, prepared)
    case Attach(window, sink, paused) =>
      if CanAttach(s, window, sink, paused) then (s.(state := Loading, readyReported := false), []) else (s, [])
    case Play(started, rated) =>
      if started && rated then (s.(state := Playing), [Stored(EVENT_PLAYING, 0, [])]) else (s, [])
    case Pause(paused) =>
      if paused then (s.(state := Paused), [Stored(EVENT_PAUSED, 0, [])]) else (s, [])
    case Stop(paused, rewound) =>
      if paused && rewound then (s.(state := Stopped), [Stored(EVENT_STOPPED, 0, [])]) else (s, [])
    case SetLoop(enabled) => (s.(loop := enabled), [])
  }

  predicate CStringMessages(c: Call) {
    c.Poll? || c.Query? ==> forall m | m in c.messages && m.ErrorMessage? :: IsCString(m.text)
  }

  // ----- the player

  class Player {
    var slots: array<Slot>
    var head: nat
    var size: nat
    var lastEventCode: int
    var state: PlayerState
    var loop: bool
    var readyReported: bool
    /** The abstract queue, and every event pushed since the player was opened. */
    ghost var queue: seq<Event>
    ghost var log: seq<Event>

    ghost predicate Valid()
      reads this, slots
    {
      RingHolds(slots, head, size, queue)
    }

    ghost function Now(): Status
      reads this
    {
      Status(state, readyReported, loop)
    }

    constructor ()
      ensures Valid() && fresh(slots) && queue == [] && log == []
      ensures Now() == Status(Loading, false, false)
    {
      slots := new Slot[QUEUE_CAPACITY](_ => Slot(EVENT_NONE, 0, seq(MESSAGE_CAPACITY, _ => 0)));
      head, size, lastEventCode := 0, 0, 0;
      state, loop, readyReported := Loading, false, false;
      queue, log := [], [];
    }

    /** Give up the oldest slot. */
    method Advance()
      requires Valid() && size > 0
      modifies this`head, this`size, this`queue
      ensures Valid() && queue == old(queue)[1..]
    {
      RingShift(head, (head + 1) % QUEUE_CAPACITY);
      head := (head + 1) % QUEUE_CAPACITY;
      size := size - 1;
      queue := queue[1..];
    }

    method PushEvent(kind: int, code: int, message: Option<Text>)
      requires Valid() && (message.Some? ==> IsCString(message.value))
      modifies this`head, this`size, this`queue, this`log, slots
      ensures Valid()
      ensures var e := Stored(kind, code, if message.Some? then message.value else []);
              queue == Push(old(queue), e) && log == old(log) + [e]
    {
      if size == QUEUE_CAPACITY {
        Advance();
      }
      var slot := RingIndex(head, size);
      RingDistinct(head, size);
      var text := if message.Some? then message.value else [];
      ghost var e := Stored(kind, code, text);
      CopiedText(slots[slot].message, text, MESSAGE_CAPACITY - 1);
      hide CText, CopyText, RingIndex;
      slots[slot] := Slot(kind, code, CopyText(slots[slot].message, text, MESSAGE_CAPACITY - 1));
      size := size + 1;
      queue := queue + [e];
      log := log + [e];
    }

    /** Take the oldest event and print its text into the caller's buffer. */
    method PopEvent(message: array?<byte>, capacity: int) returns (kind: int)
      requires Valid() && (message != null ==> capacity <= message.Length)
      modifies this`head, this`size, this`queue, this`lastEventCode, message
      ensures Valid() && log == old(log)
      ensures old(queue) == [] ==> kind == EVENT_NONE && queue == [] && lastEventCode == old(lastEventCode)
      ensures old(queue) != [] ==>
                kind == old(queue)[0].kind && lastEventCode == old(queue)[0].code && queue == old(queue)[1..]
      ensures message != null && capacity > 0 ==>
                var text := if old(queue) == [] then [] else old(queue)[0].text;
                message[..] == CopyText(old(message[..]), text, capacity - 1)
      ensures message != null && capacity <= 0 ==> message[..] == old(message[..])
    {
      kind := EVENT_NONE;
      if size > 0 {
        var event := slots[head];
        kind := event.kind;
        lastEventCode := event.code;
        if message != null && capacity > 0 {
          Print(message, capacity, event.message);
        }
        Advance();
      } else if message != null && capacity > 0 {
        message[0] := 0;
      }
    }

    method ReportMessage(m: Message)
      requires Valid() && (m.ErrorMessage? ==> IsCString(m.text))
      modifies this`head, this`size, this`queue, this`log, this`state, slots
      ensures Valid()
      ensures var (status, events) := OnMessage(old(Now()), m);
              Now() == status && log == old(log) + events && queue == PushAll(old(queue), events)
    {
      ghost var events := OnMessage(Now(), m).1;
      PushAllOne(queue, if events == [] then Stored(0, 0, []) else events[0]);
      hide PushAll, Push, Stored;
      match m {
        case ErrorMessage(code, text) =>
          state := Failed;
          PushEvent(EVENT_ERROR, code, Some(text));
        case EndOfStream =>
          state := Ended;
          PushEvent(EVENT_ENDED, 0, Some([]));
          if loop {
            state := Playing;
          }
        case BufferingMessage(percent) =>
          if percent < 100 {
            state := Buffering;
            PushEvent(EVENT_BUFFERING, percent, Some([]));
          } else if state == Buffering {
            state := Ready;
            PushEvent(EVENT_READY, 100, Some([]));
          }
      }
    }

    /** Handle every message on the bus, then report readiness when it is due. */
    method Drain(messages: seq<Message>, prepared: bool)
      requires Valid() && (forall m | m in messages && m.ErrorMessage? :: IsCString(m.text))
      modifies this`head, this`size, this`queue, this`log, this`state, this`readyReported, slots
      ensures Valid()
      ensures var (status, events) := OnDrain(old(Now()), messages, prepared);
              Now() == status && log == old(log) + events && queue == PushAll(old(queue), events)
    {
      hide OnMessage, OnPrepared, PushAll;
      assert OnMessages(Now(), []) == (Now(), []) && PushAll(queue, [])
          == queue by { PushAllOne(queue, Stored(0, 0, [])); }
      var i := 0;
      while i < |messages|
        invariant i <= |messages| && Valid() && loop == old(loop) && readyReported == old(readyReported)
        invariant slots == old(slots)
        invariant var (status, events) := OnMessages(old(Now()), messages[..i]);
                  Now() == status && log == old(log) + events && queue == PushAll(old(queue), events)
      {
        ghost var (status, events) := OnMessages(old(Now()), messages[..i]);
        ReportMessage(messages[i]);
        assert messages[..i + 1][..i] == messages[..i];
        PushAllAppend(old(queue), events, OnMessage(status, messages[i]).1);
        i := i + 1;
      }
      assert messages[..i] == messages;
      ghost var (status, events) := OnMessages(old(Now()), messages);
      PushAllAppend(old(queue), events, OnPrepared(status, prepared).1);
      ReportPrepared(prepared);
    }

    /** The readiness check at the end of a drain. */
    method ReportPrepared(prepared: bool)
      requires Valid()
      modifies this`head, this`size, this`queue, this`log, this`state, this`readyReported, slots
      ensures Valid()
      ensures var (status, events) := OnPrepared(old(Now()), prepared);
              Now() == status && log == old(log) + events && queue == PushAll(old(queue), events)
    {
      PushAllOne(queue, Stored(EVENT_READY, 0, []));
      if !readyReported {
        if prepared {
          readyReported := true;
          if state == Loading {
            state := Ready;
          }
          PushEvent(EVENT_READY, 0, Some([]));
        }
      }
    }

    method AttachWindow(window: nat, sink: bool, paused: bool) returns (ok: bool)
      requires Valid()
      modifies this`state, this`readyReported
      ensures Valid() && ok == CanAttach(old(Now()), window, sink, paused) && loop == old(loop)
      ensures ok <==> window != 0 && old(state) != Playing && old(state) != Buffering && sink && paused
      ensures Now() == OnCall(old(Now()), Attach(window, sink, paused)).0
    {
      if window == 0 { return false; }
      if state == Playing || state == Buffering { return false; }
      if !sink { return false; }
      if !paused { return false; }
      state := Loading;
      readyReported := false;
      return true;
    }

    method StartPlaying(started: bool, rated: bool) returns (ok: bool)
      requires Valid()
      modifies this`head, this`size, this`queue, this`log, this`state, slots
      ensures Valid() && ok == (started && rated)
      ensures var (status, events) := OnCall(old(Now()), Play(started, rated));
              Now() == status && log == old(log) + events && queue == PushAll(old(queue), events)
    {
      if !started { return false; }
      if !rated { return false; }
      state := Playing;
      PushEvent(EVENT_PLAYING, 0, Some([]));
      return true;
    }

    method PausePlaying(paused: bool) returns (ok: bool)
      requires Valid()
      modifies this`head, this`size, this`queue, this`log, this`state, slots
      ensures Valid() && ok == paused
      ensures var (status, events) := OnCall(old(Now()), Pause(paused));
              Now() == status && log == old(log) + events && queue == PushAll(old(queue), events)
    {
      if !paused { return false; }
      state := Paused;
      PushEvent(EVENT_PAUSED, 0, Some([]));
      return true;
    }

    method StopPlaying(paused: bool, rewound: bool) returns (ok: bool)
      requires Valid()
      modifies this`head, this`size, this`queue, this`log, this`state, slots
      ensures Valid() && ok == (paused && rewound)
      ensures var (status, events) := OnCall(old(Now()), Stop(paused, rewound));
              Now() == status && log == old(log) + events && queue == PushAll(old(queue), events)
    {
      if !paused || !rewound { return false; }
      state := Stopped;
      PushEvent(EVENT_STOPPED, 0, Some([]));
      return true;
    }

    method SetLooping(enabled: bool)
      requires Valid()
      modifies this`loop
      ensures Valid() && Now() == OnCall(old(Now()), SetLoop(enabled)).0
    {
      loop := enabled;
    }

    /** Any of the calls, up to the pop that ends a poll. */
    method Perform(c: Call)
      requires Valid() && CStringMessages(c)
      modifies this`head, this`size, this`queue, this`log, this`state, this`readyReported, this`loop, slots
      ensures Valid()
      ensures var (status, events) := OnCall(old(Now()), c);
              Now() == status && log == old(log) + events && queue == PushAll(old(queue), events)
    {
      PushAllOne(queue, Stored(0, 0, []));
      hide OnDrain, CanAttach, PushAll;
      match c {
        case Poll(messages, prepared, _) => Drain(messages, prepared);
        case Query(messages, prepared) => Drain(messages, prepared);
        case Attach(window, sink, paused) => var _ := AttachWindow(window, sink, paused);
        case Play(started, rated) => var _ := StartPlaying(started, rated);
        case Pause(paused) => var _ := PausePlaying(paused);
        case Stop(paused, rewound) => var _ := StopPlaying(paused, rewound);
        case SetLoop(enabled) => SetLooping(enabled);
      }
    }
  }

  /** `snprintf(buffer, capacity, "%s", source)`: copy up to the first NUL or until one
      byte is left, then terminate. */
  method Print(buffer: array<byte>, capacity: int, source: seq<byte>)
    requires 0 < capacity <= buffer.Length && |CText(source)| < |source|
    modifies buffer
    ensures buffer[..] == CopyText(old(buffer[..]), CText(source), capacity - 1)
  {
    ghost var text := CText(source);
    TextEnds(source);
    var i := 0;
    while i < capacity - 1 && source[i] != 0
      invariant 0 <= i <= capacity - 1 && i <= |text|
      invariant buffer[..i] == text[..i]
      invariant forall k | i <= k < buffer.Length :: buffer[k] == old(buffer[k])
    {
      buffer[i] := source[i];
      i := i + 1;
    }
    buffer[i] := 0;
    assert i == Min(|text|, capacity - 1);
    assert buffer[..] == buffer[..i] + [0] + buffer[i + 1..];
    assert buffer[i + 1..] == old(buffer[..])[i + 1..];
  }

  /** Every run of calls on one player gives its caller exactly the outputs of the
      abstract queue: ring positions and stale message bytes never show. */
  method Replay(ops: seq<Op>) returns (outputs: seq<Event>)
    requires forall op | op in ops && op.PushOp? :: IsCString(op.text)
    ensures outputs == EventQueue.Run(ops).outputs
  {
    var player := new Player();
    outputs := [];
    var i := 0;
    while i < |ops|
      invariant i <= |ops| && player.Valid() && fresh(player) && fresh(player.slots)
      invariant player.queue == EventQueue.Run(ops[..i]).queue && outputs == EventQueue.Run(ops[..i]).outputs
    {
      assert ops[..i + 1][..i] == ops[..i];
      match ops[i] {
        case PushOp(kind, code, text) =>
          assert ops[i] in ops;
          player.PushEvent(kind, code, Some(text));
        case PopOp(capacity) =>
          var output := Take(player, capacity);
          if output.Some? {
            outputs := outputs + [output.value];
          }
      }
      i := i + 1;
    }
    assert ops[..i] == ops;
  }

  /** One poll by a caller that offers a buffer of `capacity` bytes. */
  method Take(player: Player, capacity: int) returns (output: Option<Event>)
    requires player.Valid()
    modifies player`head, player`size, player`queue, player`lastEventCode
    ensures player.Valid()
    ensures old(player.queue) == [] ==> output == None && player.queue == []
    ensures old(player.queue) != [] ==>
              output == Some(Delivered(old(player.queue)[0], capacity)) && player.queue == old(player.queue)[1..]
  {
    RingTexts(player.slots, player.head, player.size, player.queue);
    var room: nat := if capacity > 0 then capacity else 0;
    var buffer := new byte[room](_ => 0);
    ghost var before := buffer[..];
    var empty := player.size == 0;
    ghost var text := if empty then [] else player.queue[0].text;
    if capacity > 0 {
      CopiedText(before, text, capacity - 1);
    }
    var kind := player.PopEvent(buffer, capacity);
    if empty { return None; }
    return Some(Event(kind, player.lastEventCode, CText(buffer[..])));
  }

  // ----- what a whole run reports

  /** The calls of a run, the status it leaves and everything it pushed. */
  function Run(calls: seq<Call>): (Status, seq<Event>) {
    if calls == [] then (Status(Loading, false, false), [])
    else
      var (s1, es1) := Run(calls[..|calls| - 1]);
      var (s2, es2) := OnCall(s1, calls[|calls| - 1]);
      (s2, es1 + es2)
  }

  /** The queue operations of a run: what each call pushes, and one pop for each poll. */
  function QueueOps(calls: seq<Call>): seq<Op> {
    if calls == [] then []
    else
      var before, c := calls[..|calls| - 1], calls[|calls| - 1];
      QueueOps(before) + PushOps(OnCall(Run(before).0, c).1) + if c.Poll? then [PopOp(c.capacity)] else []
  }

  /** Everything that is pushed is cut to what a slot holds. */
  lemma {:induction false} MessagesStored(s: Status, ms: seq<Message>)
    ensures forall e | e in OnMessages(s, ms).1 :: |e.text| < MESSAGE_CAPACITY
    decreases |ms|
  {
    if ms != [] {
      MessagesStored(s, ms[..|ms| - 1]);
    }
  }

  lemma CallStored(s: Status, c: Call)
    ensures forall e | e in OnCall(s, c).1 :: |e.text| < MESSAGE_CAPACITY
  {
    if c.Poll? || c.Query? {
      MessagesStored(s, c.messages);
    }
  }

  /** One more call: its events are pushed, and a poll takes the oldest. */
  lemma {:induction false} CallOps(before: seq<Call>, c: Call)
    ensures var (s, es) := OnCall(Run(before).0, c);
            && Run(before + [c]) == (s, Run(before).1 + es)
            && var g, h := EventQueue.Run(QueueOps(before)), EventQueue.Run(QueueOps(before + [c]));
               var q := PushAll(g.queue, es);
               && h.pushed == g.pushed + es
               && h.queue == (if c.Poll? && q != [] then q[1..] else q)
               && h.outputs == g.outputs + if c.Poll? && q != [] then [Delivered(q[0], c.capacity)] else []
  {
    var calls := before + [c];
    var es := OnCall(Run(before).0, c).1;
    assert calls[..|calls| - 1] == before;
    CallStored(Run(before).0, c);
    RunPushes(QueueOps(before), es);
    hide OnCall, PushAll;
    var ops := QueueOps(before) + PushOps(es);
    if c.Poll? {
      assert QueueOps(calls)[..|QueueOps(calls)| - 1] == ops;
    } else {
      assert QueueOps(calls) == ops;
    }
  }

  /** The pushes of a run are what its calls report, so the accounting of the queue is about
      exactly those events. */
  lemma {:induction false} RunPushed(calls: seq<Call>)
    ensures EventQueue.Run(QueueOps(calls)).pushed == Run(calls).1
    decreases |calls|
  {
    if calls == [] {
      assert EventQueue.Run([]).pushed == [];
    } else {
      var before, c := calls[..|calls| - 1], calls[|calls| - 1];
      assert before + [c] == calls;
      hide *;
      RunPushed(before);
      CallOps(before, c);
    }
  }

  /** What a player and the outputs of its polls look like after a run of calls. */
  ghost predicate Replayed(player: Player, outputs: seq<Event>, calls: seq<Call>)
    reads player, player.slots
  {
    && player.Valid() && player.Now() == Run(calls).0 && player.log == Run(calls).1
    && player.queue == EventQueue.Run(QueueOps(calls)).queue
    && outputs == EventQueue.Run(QueueOps(calls)).outputs
  }

  method ReplayCall(player: Player, before: seq<Event>, ghost calls: seq<Call>, c: Call) returns (outputs: seq<Event>)
    requires Replayed(player, before, calls) && CStringMessages(c)
    modifies player, player.slots
    ensures player.slots == old(player.slots) && Replayed(player, outputs, calls + [c])
  {
    CallOps(calls, c);
    hide OnCall, CStringMessages, EventQueue.Run, Run, QueueOps, PushAll, Delivered, RingHolds;
    player.Perform(c);
    outputs := before;
    if c.Poll? {
      var output := Take(player, c.capacity);
      if output.Some? {
        outputs := outputs + [output.value];
      }
    }
  }

  /** Every run of calls on one player ends in the state that `Run` says, and its polls get
      exactly the outputs of the abstract queue. */
  method ReplayCalls(calls: seq<Call>) returns (state: PlayerState, outputs: seq<Event>, ghost reported: seq<Event>)
    requires forall c | c in calls :: CStringMessages(c)
    ensures state == Run(calls).0.state && reported == Run(calls).1
    ensures outputs == EventQueue.Run(QueueOps(calls)).outputs
  {
    var player := new Player();
    outputs := [];
    assert Replayed(player, outputs, []);
    hide CStringMessages, EventQueue.Run, Run, QueueOps, RingHolds;
    var i := 0;
    while i < |calls|
      invariant i <= |calls| && fresh(player) && fresh(player.slots)
      invariant Replayed(player, outputs, calls[..i])
    {
      assert calls[..i + 1] == calls[..i] + [calls[i]] && calls[i] in calls;
      outputs := ReplayCall(player, outputs, calls[..i], calls[i]);
      i := i + 1;
    }
    assert calls[..i] == calls;
    return player.state, outputs, player.log;
  }

  predicate AttachSucceeds(before: seq<Call>, c: Call) {
    c.Attach? && CanAttach(Run(before).0, c.window, c.sink, c.paused)
  }

  function Attached(calls: seq<Call>): nat {
    if calls == [] then 0
    else
      var c := calls[|calls| - 1];
      var before := calls[..|calls| - 1];
      Attached(before) + if AttachSucceeds(before, c) then 1 else 0
  }

  /** The reports that the run-level claims count. */
  datatype Report = Prepared | Refilled | Stalled

  predicate Is(e: Event, report: Report) {
    match report
    case Prepared => e.kind == EVENT_READY && e.code == 0
    case Refilled => e.kind == EVENT_READY && e.code == 100
    case Stalled => e.kind == EVENT_BUFFERING
  }

  function Count(es: seq<Event>, report: Report): nat
    decreases |es|
  {
    if es == [] then 0 else Count(es[..|es| - 1], report) + if Is(es[|es| - 1], report) then 1 else 0
  }

  lemma {:induction false} CountAppend(es: seq<Event>, fs: seq<Event>, report: Report)
    ensures Count(es + fs, report) == Count(es, report) + Count(fs, report)
    decreases |fs|
  {
    if fs == [] {
      assert es + fs == es;
    } else {
      var all := es + fs;
      CountAppend(es, fs[..|fs| - 1], report);
      assert all[..|all| - 1] == es + fs[..|fs| - 1];
    }
  }

  /** A buffering player owes one report of being ready again. */
  ghost predicate Balanced(s: Status, es: seq<Event>) {
    Count(es, Refilled) + (if s.state == Buffering then 1 else 0) <= Count(es, Stalled)
  }

  lemma MessageBalanced(s: Status, es: seq<Event>, m: Message)
    requires Balanced(s, es)
    ensures var (s', more) := OnMessage(s, m); Balanced(s', es + more)
    ensures var (s', more) := OnMessage(s, m);
            s'.readyReported == s.readyReported && Count(more, Prepared) == 0
  {
    var (s', more) := OnMessage(s, m);
    CountAppend(es, more, Refilled);
    CountAppend(es, more, Stalled);
    CountOne(more, Refilled);
    CountOne(more, Stalled);
    CountOne(more, Prepared);
  }

  lemma CountOne(es: seq<Event>, report: Report)
    requires |es| <= 1
    ensures Count(es, report) == if es != [] && Is(es[0], report) then 1 else 0
  {
    if es != [] {
      assert es[..0] == [];
    }
  }

  lemma {:induction false} MessagesBalanced(s: Status, es: seq<Event>, ms: seq<Message>)
    requires Balanced(s, es)
    ensures var (s', more) := OnMessages(s, ms);
            Balanced(s', es + more) && s'.readyReported == s.readyReported && Count(more, Prepared) == 0
    decreases |ms|
  {
    if ms == [] {
      assert es + [] == es;
    } else {
      var (s1, es1) := OnMessages(s, ms[..|ms| - 1]);
      var es2 := OnMessage(s1, ms[|ms| - 1]).1;
      MessagesBalanced(s, es, ms[..|ms| - 1]);
      MessageBalanced(s1, es + es1, ms[|ms| - 1]);
      assert (es + es1) + es2 == es + (es1 + es2);
      CountAppend(es1, es2, Prepared);
    }
  }

  /** For every message sequence and call order, and so after every call: READY events
      with code 0 number at most one more than the successful attaches, and READY events
      with code 100 never outnumber BUFFERING events. */
  lemma {:induction false} RunCounts(calls: seq<Call>)
    ensures var (s, es) := Run(calls);
            && Count(es, Refilled) <= Count(es, Stalled)
            && Balanced(s, es)
            && Count(es, Prepared) + (if s.readyReported then 0 else 1) <= 1 + Attached(calls)
    decreases |calls|
  {
    if calls != [] {
      var before, c := calls[..|calls| - 1], calls[|calls| - 1];
      var (s, es) := Run(before);
      RunCounts(before);
      CallCounts(s, es, c);
    }
  }

  lemma CallCounts(s: Status, es: seq<Event>, c: Call)
    requires Balanced(s, es)
    ensures var (s', more) := OnCall(s, c);
            && Balanced(s', es + more)
            && Count(es + more, Prepared) + (if s'.readyReported then 0 else 1)
               <= Count(es, Prepared) + (if s.readyReported then 0 else 1)
                  + (if c.Attach? && CanAttach(s, c.window, c.sink, c.paused) then 1 else 0)
  {
    var (s', more) := OnCall(s, c);
    CountAppend(es, more, Prepared);
    if c.Poll? || c.Query? {
      DrainCounts(s, es, c.messages, c.prepared);
    } else {
      CountAppend(es, more, Refilled);
      CountAppend(es, more, Stalled);
      CountOne(more, Prepared);
      CountOne(more, Refilled);
      CountOne(more, Stalled);
    }
  }

  lemma DrainCounts(s: Status, es: seq<Event>, ms: seq<Message>, prepared: bool)
    requires Balanced(s, es)
    ensures var (s', more) := OnDrain(s, ms, prepared);
            && Balanced(s', es + more)
            && Count(more, Prepared) + (if s'.readyReported then 0 else 1) <= (if s.readyReported then 0 else 1)
  {
    var (s1, es1) := OnMessages(s, ms);
    var es2 := OnPrepared(s1, prepared).1;
    MessagesBalanced(s, es, ms);
    CountAppend(es1, es2, Prepared);
    CountAppend(es + es1, es2, Refilled);
    CountAppend(es + es1, es2, Stalled);
    assert (es + es1) + es2 == es + (es1 + es2);
    CountOne(es2, Prepared);
    CountOne(es2, Refilled);
    CountOne(es2, Stalled);
  }

  // ----- exactly what is reported

  /** The events that are not about readiness. */
  function Others(es: seq<Event>): seq<Event>
    decreases |es|
  {
    if es == [] then []
    else Others(es[..|es| - 1]) + if es[|es| - 1].kind == EVENT_READY then [] else [es[|es| - 1]]
  }

  lemma {:induction false} OthersAppend(es: seq<Event>, fs: seq<Event>)
    ensures Others(es + fs) == Others(es) + Others(fs)
    decreases |fs|
  {
    if fs == [] {
      assert es + fs == es;
    } else {
      var all := es + fs;
      OthersAppend(es, fs[..|fs| - 1]);
      assert all[..|all| - 1] == es + fs[..|fs| - 1];
    }
  }

  lemma OthersOne(es: seq<Event>)
    requires |es| <= 1
    ensures Others(es) == if es != [] && es[0].kind == EVENT_READY then [] else es
  {
    if es != [] {
      assert es[..0] == [] && es == [es[0]];
    }
  }

  /** What the backend's messages say, whatever state the player is in: each error with its
      code and the first 511 characters of its text, each end of the stream, and each
      percentage while the buffer fills. */
  function MessagesSay(ms: seq<Message>): seq<Event> {
    if ms == [] then []
    else
      MessagesSay(ms[..|ms| - 1]) +
      match ms[|ms| - 1]
      case ErrorMessage(code, text) => [Event(EVENT_ERROR, code, text[..Min(|text|, 511)])]
      case EndOfStream => [Event(EVENT_ENDED, 0, [])]
      case BufferingMessage(percent) => if percent < 100 then [Event(EVENT_BUFFERING, percent, [])] else []
  }

  /** What a call says: its messages, or that the backend carried it out. */
  function CallSays(c: Call): seq<Event> {
    match c
    case Poll(messages, _, _) => MessagesSay(messages)
    case Query(messages, _) => MessagesSay(messages)
    case Play(started, rated) => if started && rated then [Event(EVENT_PLAYING, 0, [])] else []
    case Pause(paused) => if paused then [Event(EVENT_PAUSED, 0, [])] else []
    case Stop(paused, rewound) => if paused && rewound then [Event(EVENT_STOPPED, 0, [])] else []
    case _ => []
  }

  function CallsSay(calls: seq<Call>): seq<Event> {
    if calls == [] then [] else CallsSay(calls[..|calls| - 1]) + CallSays(calls[|calls| - 1])
  }

  /** How often the buffer was full again while the player was buffering. */
  function Refills(s: Status, ms: seq<Message>): nat {
    if ms == [] then 0
    else
      var m := ms[|ms| - 1];
      Refills(s, ms[..|ms| - 1]) +
      if m.BufferingMessage? && m.percent >= 100 && OnMessages(s, ms[..|ms| - 1]).0.state == Buffering then 1 else 0
  }

  function RunRefills(calls: seq<Call>): nat {
    if calls == [] then 0
    else
      var before, c := calls[..|calls| - 1], calls[|calls| - 1];
      RunRefills(before) + if c.Poll? || c.Query? then Refills(Run(before).0, c.messages) else 0
  }

  /** A poll or a state query that found the pipeline prepared. */
  predicate FoundPrepared(c: Call) {
    (c.Poll? || c.Query?) && c.prepared
  }

  /** One did since the open or the last successful attach. */
  ghost predicate PreparedSince(calls: seq<Call>) {
    exists i :: 0 <= i < |calls| && PreparedAt(calls, i)
  }

  ghost predicate PreparedAt(calls: seq<Call>, i: int)
    requires 0 <= i < |calls|
  {
    FoundPrepared(calls[i]) && forall j | i < j < |calls| :: !AttachSucceeds(calls[..j], calls[j])
  }

  /** The number of periods, each from the open or a successful attach to the next one, in
      which the pipeline was found prepared. */
  ghost function Periods(calls: seq<Call>): nat {
    if calls == [] then 0
    else
      var before, c := calls[..|calls| - 1], calls[|calls| - 1];
      Periods(before) + if FoundPrepared(c) && !PreparedSince(before) then 1 else 0
  }

  lemma {:induction false} PreparedSnoc(before: seq<Call>, c: Call)
    ensures PreparedSince(before + [c]) <==>
            FoundPrepared(c) || (PreparedSince(before) && !AttachSucceeds(before, c))
  {
    var calls := before + [c];
    hide AttachSucceeds, FoundPrepared;
    assert calls[..|before|] == before;
    assert forall j | 0 <= j < |before| :: calls[..j] == before[..j] && calls[j] == before[j];
    if PreparedSince(calls) {
      var i :| 0 <= i < |calls| && PreparedAt(calls, i);
      if i < |before| {
        assert PreparedAt(before, i);
      }
    }
    if FoundPrepared(c) {
      assert PreparedAt(calls, |before|);
    }
    if PreparedSince(before) && !AttachSucceeds(before, c) {
      var i :| 0 <= i < |before| && PreparedAt(before, i);
      assert PreparedAt(calls, i);
    }
  }

  /** Events about readiness say nothing but that. */
  predicate ReadyPlain(es: seq<Event>) {
    forall e | e in es && e.kind == EVENT_READY :: e == Event(EVENT_READY, 0, []) || e == Event(EVENT_READY, 100, [])
  }

  lemma ReadyPlainAppend(es: seq<Event>, fs: seq<Event>)
    requires ReadyPlain(es) && ReadyPlain(fs)
    ensures ReadyPlain(es + fs)
  {
  }

  lemma MessageSays(s: Status, m: Message)
    ensures var (s', es) := OnMessage(s, m);
            && Others(es) == MessagesSay([m])
            && Count(es, Prepared) == 0
            && Count(es, Refilled) == Refills(s, [m])
            && ReadyPlain(es)
            && s'.readyReported == s.readyReported && (s'.state == Loading ==> s.state == Loading)
  {
    var es := OnMessage(s, m).1;
    OneSays(s, m);
    hide Others, Count, MessagesSay, Refills;
    OthersOne(es);
    CountOne(es, Prepared);
    CountOne(es, Refilled);
  }

  lemma {:induction false} DrainSays(s: Status, ms: seq<Message>)
    ensures var (s', es) := OnMessages(s, ms);
            && Others(es) == MessagesSay(ms)
            && Count(es, Prepared) == 0
            && Count(es, Refilled) == Refills(s, ms)
            && ReadyPlain(es)
            && s'.readyReported == s.readyReported && (s'.state == Loading ==> s.state == Loading)
    decreases |ms|
  {
    hide OnMessage, ReadyPlain;
    if ms == [] {
      assert ReadyPlain([]) by { NothingIsPlain(); }
    } else {
      var init, m := ms[..|ms| - 1], ms[|ms| - 1];
      var (s1, es1) := OnMessages(s, init);
      var es2 := OnMessage(s1, m).1;
      DrainSays(s, init);
      MessageSays(s1, m);
      OneSays(s1, m);
      hide Others, Count;
      OthersAppend(es1, es2);
      CountAppend(es1, es2, Prepared);
      CountAppend(es1, es2, Refilled);
      ReadyPlainAppend(es1, es2);
    }
  }

  lemma NothingIsPlain()
    ensures ReadyPlain([])
  {
  }

  lemma OneSays(s: Status, m: Message)
    ensures MessagesSay([m]) ==
            match m
            case ErrorMessage(code, text) => [Event(EVENT_ERROR, code, text[..Min(|text|, 511)])]
            case EndOfStream => [Event(EVENT_ENDED, 0, [])]
            case BufferingMessage(percent) => if percent < 100 then [Event(EVENT_BUFFERING, percent, [])] else []
    ensures Refills(s, [m]) == if m.BufferingMessage? && m.percent >= 100 && s.state == Buffering then 1 else 0
  {
    assert [m][..0] == [] && MessagesSay([]) == [] && Refills(s, []) == 0 && OnMessages(s, []) == (s, []);
  }

  /** Over every run: the events that are not about readiness are exactly what the messages
      and the carried-out calls say, in order. READY/100 is reported each time the buffer is
      full again while the player was buffering, and READY/0 once in every period in which
      the pipeline was found prepared. */
  lemma {:induction false} RunReports(calls: seq<Call>)
    ensures var (s, es) := Run(calls);
            && Others(es) == CallsSay(calls)
            && Count(es, Refilled) == RunRefills(calls)
            && Count(es, Prepared) == Periods(calls)
            && (s.readyReported <==> PreparedSince(calls))
            && (s.state == Loading ==> !s.readyReported)
            && ReadyPlain(es)
    decreases |calls|
  {
    if calls != [] {
      var before, c := calls[..|calls| - 1], calls[|calls| - 1];
      var (s, es) := Run(before);
      var more := OnCall(s, c).1;
      RunReports(before);
      assert before + [c] == calls;
      hide OnCall, Others, Count, PreparedSince, Refills, ReadyPlain, CallSays, CanAttach;
      CallReports(s, c);
      PreparedSnoc(before, c);
      OthersAppend(es, more);
      CountAppend(es, more, Prepared);
      CountAppend(es, more, Refilled);
      ReadyPlainAppend(es, more);
    }
  }

  lemma CallReports(s: Status, c: Call)
    requires s.state == Loading ==> !s.readyReported
    ensures var (s', es) := OnCall(s, c);
            && Others(es) == CallSays(c)
            && Count(es, Refilled) == (if c.Poll? || c.Query? then Refills(s, c.messages) else 0)
            && Count(es, Prepared) == (if FoundPrepared(c) && !s.readyReported then 1 else 0)
            && s'.readyReported == (FoundPrepared(c) || (s.readyReported
                 && !(c.Attach? && CanAttach(s, c.window, c.sink, c.paused))))
            && (s'.state == Loading ==> !s'.readyReported)
            && ReadyPlain(es)
  {
    hide CanAttach, Others, Count, Refills, MessagesSay;
    if c.Poll? || c.Query? {
      DrainReports(s, c.messages, c.prepared);
      hide OnDrain, ReadyPlain;
    } else {
      hide OnDrain;
      var es := OnCall(s, c).1;
      OthersOne(es);
      CountOne(es, Prepared);
      CountOne(es, Refilled);
    }
  }

  lemma DrainReports(s: Status, ms: seq<Message>, prepared: bool)
    requires s.state == Loading ==> !s.readyReported
    ensures var (s', es) := OnDrain(s, ms, prepared);
            && Others(es) == MessagesSay(ms)
            && Count(es, Refilled) == Refills(s, ms)
            && Count(es, Prepared) == (if prepared && !s.readyReported then 1 else 0)
            && s'.readyReported == (prepared || s.readyReported)
            && (s'.state == Loading ==> !s'.readyReported)
            && ReadyPlain(es)
  {
    DrainSays(s, ms);
    hide OnMessages, Others, Count, Refills, MessagesSay;
    var (s1, es1) := OnMessages(s, ms);
    var es2 := OnPrepared(s1, prepared).1;
    assert ReadyPlain(es2);
    hide ReadyPlain;
    OthersAppend(es1, es2);
    OthersOne(es2);
    CountAppend(es1, es2, Prepared);
    CountAppend(es1, es2, Refilled);
    CountOne(es2, Prepared);
    CountOne(es2, Refilled);
    ReadyPlainAppend(es1, es2);
  }

  /** Readiness is not missed: after a poll or a query that found the pipeline prepared the
      player no longer loads, and if it is the first of its period its last event is
      READY/0. */
  lemma ReadyWhenPrepared(before: seq<Call>, c: Call)
    requires FoundPrepared(c)
    ensures var (s, es) := Run(before + [c]);
            && s.state != Loading && s.readyReported
            && (!PreparedSince(before) ==> es != [] && es[|es| - 1] == Event(EVENT_READY, 0, []))
  {
    assert (before + [c])[..|before|] == before;
    RunReports(before);
    RunReports(before + [c]);
    PreparedSnoc(before, c);
    hide PreparedSince;
    if !PreparedSince(before) {
      DrainSays(Run(before).0, c.messages);
      hide Run, OnMessages, Others, Count, Refills, MessagesSay, CallsSay, RunRefills, Periods;
    }
  }

  // ----- the events tell the state

  /** How a caller who sees the events, and knows the loop setting it made, follows the
      player's state. */
  function Observe(state: PlayerState, loop: bool, e: Event): PlayerState {
    if e.kind == EVENT_ERROR then Failed
    else if e.kind == EVENT_ENDED then (if loop then Playing else Ended)
    else if e.kind == EVENT_BUFFERING then Buffering
    else if e.kind == EVENT_READY then (if e.code == 100 || state == Loading then Ready else state)
    else if e.kind == EVENT_PLAYING then Playing
    else if e.kind == EVENT_PAUSED then Paused
    else if e.kind == EVENT_STOPPED then Stopped
    else state
  }

  function ObserveAll(state: PlayerState, loop: bool, es: seq<Event>): PlayerState
    decreases |es|
  {
    if es == [] then state else Observe(ObserveAll(state, loop, es[..|es| - 1]), loop, es[|es| - 1])
  }

  lemma {:induction false} ObserveAppend(state: PlayerState, loop: bool, es: seq<Event>, fs: seq<Event>)
    ensures ObserveAll(state, loop, es + fs) == ObserveAll(ObserveAll(state, loop, es), loop, fs)
    decreases |fs|
  {
    if fs == [] {
      assert es + fs == es;
    } else {
      var all := es + fs;
      ObserveAppend(state, loop, es, fs[..|fs| - 1]);
      assert all[..|all| - 1] == es + fs[..|fs| - 1];
    }
  }

  lemma ObserveOne(state: PlayerState, loop: bool, es: seq<Event>)
    requires |es| <= 1
    ensures ObserveAll(state, loop, es) == if es == [] then state else Observe(state, loop, es[0])
  {
    if es != [] {
      assert es[..0] == [];
    }
  }

  lemma MessageTellsState(s: Status, m: Message)
    ensures var (s', es) := OnMessage(s, m);
            s'.state == ObserveAll(s.state, s.loop, es) && s'.loop == s.loop
  {
    ObserveOne(s.state, s.loop, OnMessage(s, m).1);
  }

  lemma {:induction false} MessagesTellState(s: Status, ms: seq<Message>)
    ensures var (s', es) := OnMessages(s, ms);
            s'.state == ObserveAll(s.state, s.loop, es) && s'.loop == s.loop
    decreases |ms|
  {
    hide OnMessage, Observe;
    if ms != [] {
      var (s1, es1) := OnMessages(s, ms[..|ms| - 1]);
      var es2 := OnMessage(s1, ms[|ms| - 1]).1;
      MessagesTellState(s, ms[..|ms| - 1]);
      MessageTellsState(s1, ms[|ms| - 1]);
      ObserveAppend(s.state, s.loop, es1, es2);
    }
  }

  /** Apart from a successful attach, the state after a call follows from the state before
      it, the events that were pushed and the loop setting. */
  lemma CallTellsState(s: Status, c: Call)
    ensures var (s', es) := OnCall(s, c);
            s'.state == if c.Attach? && CanAttach(s, c.window, c.sink, c.paused) then Loading
                        else ObserveAll(s.state, s.loop, es)
  {
    if c.Poll? || c.Query? {
      hide OnDrain, ObserveAll;
      DrainTellsState(s, c.messages, c.prepared);
    } else {
      hide OnDrain;
      ObserveOne(s.state, s.loop, OnCall(s, c).1);
    }
  }

  lemma DrainTellsState(s: Status, ms: seq<Message>, prepared: bool)
    ensures var (s', es) := OnDrain(s, ms, prepared);
            s'.state == ObserveAll(s.state, s.loop, es) && s'.loop == s.loop
  {
    hide OnMessages, ObserveAll;
    var (s1, es1) := OnMessages(s, ms);
    var es2 := OnPrepared(s1, prepared).1;
    MessagesTellState(s, ms);
    ObserveAppend(s.state, s.loop, es1, es2);
    ObserveOne(s1.state, s.loop, es2);
  }

  /** How a caller follows the player who knows only which of its own attaches succeeded,
      the loop setting it last made, and the events of each call. */
  function Follow(calls: seq<Call>): (PlayerState, bool) {
    if calls == [] then (Loading, false)
    else
      var before, c := calls[..|calls| - 1], calls[|calls| - 1];
      var (state, loop) := Follow(before);
      var es := OnCall(Run(before).0, c).1;
      (if AttachSucceeds(before, c) then Loading else ObserveAll(state, loop, es),
       if c.SetLoop? then c.enabled else loop)
  }

  /** Over every run, the state never changes behind the caller's back. */
  lemma {:induction false} EventsTellState(calls: seq<Call>)
    ensures var s := Run(calls).0; Follow(calls) == (s.state, s.loop)
    decreases |calls|
  {
    if calls != [] {
      var before, c := calls[..|calls| - 1], calls[|calls| - 1];
      EventsTellState(before);
      CallTellsState(Run(before).0, c);
      CallKeepsLoop(Run(before).0, c);
      hide OnCall, CanAttach, ObserveAll;
    }
  }

  lemma CallKeepsLoop(s: Status, c: Call)
    ensures OnCall(s, c).0.loop == if c.SetLoop? then c.enabled else s.loop
  {
    if c.Poll? || c.Query? {
      DrainTellsState(s, c.messages, c.prepared);
    }
  }
}
