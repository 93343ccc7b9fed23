/** The event ring of the Media Foundation bridge. It refines the same abstract queue. */
module WindowsBridge {
  import opened MiniLang
  import opened EventQueue

  /** The media engine's notifications. */
  datatype Notification =
    | LoadedMetadata | CanPlay | NowPlaying | NowPaused | Waiting | BufferingStarted | BufferingEnded
    | CanPlayThrough | AtEnd | FormatChange | TracksChange | MediaError(code: int, message: Text) | Other

  /** What runs inside the player: a notification being delivered, or a call of the API
      thread whose requests to the engine were accepted. `GiveUp` is the end of an attach
      whose engine was connected and then failed to load. */
  datatype Work = Notified(n: Notification) | Play | Pause | Stop | Attach | GiveUp | Close

  /** The next access that a piece of work makes to what the threads share. */
  datatype Stage = Draining | Checking | Storing | Pushing | Finished

  function FirstStage(w: Work): Stage {
    match w
    case Notified(NowPaused) => Checking
    case Notified(FormatChange) => Pushing
    case Notified(TracksChange) => Pushing
    case Notified(Other) => Finished
    case Attach => Draining
    case GiveUp => Draining
    case _ => Storing
  }

  /** The state that a piece of work stores. */
  function Target(w: Work): Option<PlayerState> {
    match w
    case Play => Some(Playing)
    case Pause => Some(Paused)
    case Stop => Some(Stopped)
    case Attach => Some(Loading)
    case GiveUp => None
    case Close => Some(Closed)
    case Notified(n) =>
      match n
      case LoadedMetadata => Some(Ready)
      case CanPlay => Some(Ready)
      case NowPlaying => Some(Playing)
      case NowPaused => Some(Paused)
      case Waiting => Some(Buffering)
      case BufferingStarted => Some(Buffering)
      case BufferingEnded => Some(Ready)
      case CanPlayThrough => Some(Ready)
      case AtEnd => Some(Ended)
      case MediaError(_, _) => Some(Failed)
      case _ => None
  }

  /** The event that a piece of work pushes. Of the API calls only a stop reports. */
  function Report(w: Work): Option<Event> {
    match w
    case Stop => Some(Stored(EVENT_STOPPED, 0, []))
    case Notified(n) =>
      (match n
       case LoadedMetadata => Some(Stored(EVENT_READY, 0, []))
       case CanPlay => Some(Stored(EVENT_READY, 0, []))
       case NowPlaying => Some(Stored(EVENT_PLAYING, 0, []))
       case NowPaused => Some(Stored(EVENT_PAUSED, 0, []))
       case Waiting => Some(Stored(EVENT_BUFFERING, 0, []))
       case BufferingStarted => Some(Stored(EVENT_BUFFERING, 0, []))
       case BufferingEnded => Some(Stored(EVENT_READY, 0, []))
       case CanPlayThrough => Some(Stored(EVENT_READY, 0, []))
       case AtEnd => Some(Stored(EVENT_ENDED, 0, []))
       case FormatChange => Some(Stored(EVENT_FORMAT_CHANGED, 0, []))
       case TracksChange => Some(Stored(EVENT_FORMAT_CHANGED, 0, []))
       case MediaError(code, message) => Some(Stored(EVENT_ERROR, code, message))
       case Other => None)
    case _ => None
  }

  /** The stages a piece of work can be in. */
  predicate CanBe(w: Work, stage: Stage) {
    match stage
    case Draining => w.Attach? || w.GiveUp? || w.Close?
    case Checking => w == Notified(NowPaused)
    case Storing => Target(w).Some?
    case Pushing => Report(w).Some?
    case Finished => true
  }

  /** What comes after an access, when the player was found in `state`. */
  function After(w: Work, stage: Stage, state: PlayerState): Stage {
    match stage
    case Checking => if state != Stopped then Storing else Finished
    case Storing => if Report(w).Some? then Pushing else if w.Close? then Draining else Finished
    case _ => Finished
  }

  predicate CStringWork(w: Work) {
    w.Notified? && w.n.MediaError? ==> IsCString(w.n.message)
  }

  class Player {
    var slots: array<Slot>
    var head: nat
    var size: nat
    var lastEventCode: int
    var state: PlayerState
    /** The abstract queue. */
    ghost var queue: seq<Event>

    ghost predicate Valid()
      reads this, slots
    {
      RingHolds(slots, head, size, queue)
    }

    constructor ()
      ensures Valid() && fresh(slots) && queue == [] && state == Empty
    {
      slots := new Slot[QUEUE_CAPACITY](_ => Slot(EVENT_NONE, 0, seq(MESSAGE_CAPACITY, _ => 0)));
      head, size, lastEventCode := 0, 0, 0;
      state := Empty;
      queue := [];
    }

    method Push(kind: int, code: int, message: Option<Text>)
      requires Valid() && (message.Some? ==> IsCString(message.value))
      modifies this`head, this`size, this`queue, slots
      ensures Valid()
      ensures queue == EventQueue.Push(old(queue), Stored(kind, code, if message.Some? then message.value else []))
    {
      if size == QUEUE_CAPACITY {
        RingShift(head, (head + 1) % QUEUE_CAPACITY);
        head := (head + 1) % QUEUE_CAPACITY;
        size := size - 1;
        queue := queue[1..];
      }
      Append(kind, code, if message.Some? then message.value else []);
    }

    /** Fill the slot behind the youngest event; a longer text is truncated. */
    method Append(kind: int, code: int, text: Text)
      requires Valid() && size < QUEUE_CAPACITY && IsCString(text)
      modifies this`size, this`queue, slots
      ensures Valid() && queue == old(queue) + [Stored(kind, code, text)]
    {
      var slot := RingIndex(head, size);
      RingDistinct(head, size);
      CopiedText(slots[slot].message, text, MESSAGE_CAPACITY - 1);
      hide CText, CopyText, RingIndex;
      slots[slot] := Slot(kind, code, CopyText(slots[slot].message, text, MESSAGE_CAPACITY - 1));
      size := size + 1;
      queue := queue + [Stored(kind, code, text)];
    }

    /** The next access of a callback: other threads may run between its check of the
        state, its store and its push. */
    method PlayerEvent(n: Notification, stage: Stage) returns (next: Stage)
      requires Valid() && CStringWork(Notified(n)) && CanBe(Notified(n), stage)
      requires stage == Checking || stage == Storing || stage == Pushing
      modifies this`head, this`size, this`queue, this`state, slots
      ensures Valid() && next == After(Notified(n), stage, old(state))
      ensures state == if stage == Storing then Target(Notified(n)).value else old(state)
      ensures queue == if stage == Pushing then EventQueue.Push(old(queue), Report(Notified(n)).value) else old(queue)
    {
      hide EventQueue.Push, Stored;
      match n {
        case LoadedMetadata => next := StoreThenPush(stage, Ready, EVENT_READY, 0, []);
        case CanPlay => next := StoreThenPush(stage, Ready, EVENT_READY, 0, []);
        case NowPlaying => next := StoreThenPush(stage, Playing, EVENT_PLAYING, 0, []);
        case NowPaused =>
          if stage == Checking {
            next := if state != Stopped then Storing else Finished;
          } else {
            next := StoreThenPush(stage, Paused, EVENT_PAUSED, 0, []);
          }
        case Waiting => next := StoreThenPush(stage, Buffering, EVENT_BUFFERING, 0, []);
        case BufferingStarted => next := StoreThenPush(stage, Buffering, EVENT_BUFFERING, 0, []);
        case BufferingEnded => next := StoreThenPush(stage, Ready, EVENT_READY, 0, []);
        case CanPlayThrough => next := StoreThenPush(stage, Ready, EVENT_READY, 0, []);
        case AtEnd => next := StoreThenPush(stage, Ended, EVENT_ENDED, 0, []);
        case FormatChange =>
          Push(EVENT_FORMAT_CHANGED, 0, Some([]));
          next := Finished;
        case TracksChange =>
          Push(EVENT_FORMAT_CHANGED, 0, Some([]));
          next := Finished;
        case MediaError(code, message) => next := StoreThenPush(stage, Failed, EVENT_ERROR, code, message);
        case Other => next := Finished;
      }
    }

    method StoreThenPush(stage: Stage, target: PlayerState, kind: int, code: int, text: Text) returns (next: Stage)
      requires Valid() && IsCString(text) && (stage == Storing || stage == Pushing)
      modifies this`head, this`size, this`queue, this`state, slots
      ensures Valid() && next == if stage == Storing then Pushing else Finished
      ensures state == if stage == Storing then target else old(state)
      ensures queue == if stage == Pushing then EventQueue.Push(old(queue), Stored(kind, code, text)) else old(queue)
    {
      if stage == Storing {
        state := target;
        return Pushing;
      }
      Push(kind, code, Some(text));
      return Finished;
    }

    /** The next access of an API call. Playing, pausing, attaching and closing store a state
        without reporting it. */
    method ApiCall(w: Work, stage: Stage) returns (next: Stage)
      requires Valid() && !w.Notified? && CanBe(w, stage) && (stage == Storing || stage == Pushing)
      modifies this`head, this`size, this`queue, this`state, slots
      ensures Valid() && next == After(w, stage, old(state))
      ensures state == if stage == Storing then Target(w).value else old(state)
      ensures queue == if stage == Pushing then EventQueue.Push(old(queue), Report(w).value) else old(queue)
    {
      hide EventQueue.Push, Stored;
      match w {
        case Play =>
          state := Playing;
          next := Finished;
        case Pause =>
          state := Paused;
          next := Finished;
        case Stop => next := StoreThenPush(stage, Stopped, EVENT_STOPPED, 0, []);
        case Attach =>
          state := Loading;
          next := Finished;
        case Close =>
          state := Closed;
          next := Draining;
      }
    }

    /** Copy the oldest event out, release its slot, then copy its text for the caller. */
    method Pop(message: array?<byte>, capacity: int) returns (kind: int)
      requires Valid() && (message != null ==> capacity <= message.Length)
      modifies this`head, this`size, this`queue, this`lastEventCode, message
      ensures Valid()
      ensures old(queue) == [] ==> kind == EVENT_NONE && queue == [] && lastEventCode == old(lastEventCode)
      ensures old(queue) != [] ==>
                kind == old(queue)[0].kind && lastEventCode == old(queue)[0].code && queue == old(queue)[1..]
      ensures message != null && capacity > 0 ==>
                var text := if old(queue) == [] then [] else old(queue)[0].text;
                message[..] == CopyText(old(message[..]), text, capacity - 1)
      ensures message != null && capacity <= 0 ==> message[..] == old(message[..])
    {
      if size == 0 {
        if message != null && capacity > 0 {
          message[0] := 0;
        }
        return EVENT_NONE;
      }
      var event := slots[head];
      assert SlotHolds(slots[RingIndex(head, 0)], queue[0]);
      ghost var text := queue[0].text;
      RingShift(head, (head + 1) % QUEUE_CAPACITY);
      head := (head + 1) % QUEUE_CAPACITY;
      size := size - 1;
      queue := queue[1..];
      lastEventCode := event.code;
      if message != null && capacity > 0 {
        CopyOut(message, capacity, event.message);
      }
      return event.kind;
    }
  }

  /** `strnlen_s`: characters before the first NUL, at most the buffer's size. */
  method Length(buffer: seq<byte>) returns (n: nat)
    ensures n == |CText(buffer)| && n <= |buffer|
  {
    n := 0;
    while n < |buffer| && buffer[n] != 0
      invariant n <= |buffer| && forall i | 0 <= i < n :: buffer[i] != 0
    {
      n := n + 1;
    }
    CTextPrefix(buffer, n);
  }

  method CopyOut(message: array<byte>, capacity: int, source: seq<byte>)
    requires 0 < capacity <= message.Length && |CText(source)| < |source|
    modifies message
    ensures message[..] == CopyText(old(message[..]), CText(source), capacity - 1)
  {
    var limit := capacity - 1;
    var count := Length(source);
    var copied := if count < limit then count else limit;
    TextEnds(source);
    forall i | 0 <= i < copied {
      message[i] := source[i];
    }
    message[copied] := 0;
    assert message[..] == message[..copied] + [0] + message[copied + 1..];
    assert message[..copied] == CText(source)[..copied];
    assert message[copied + 1..] == old(message[..])[copied + 1..];
  }

  /** Every run of calls on one player gives its caller exactly the outputs of the
      abstract queue: ring positions and stale message bytes never show. */
  method Replay(ops: seq<Op>) returns (outputs: seq<Event>)
    requires forall op | op in ops && op.PushOp? :: IsCString(op.text)
    ensures outputs == Run(ops).outputs
  {
    var player := new Player();
    outputs := [];
    var i := 0;
    while i < |ops|
      invariant i <= |ops| && player.Valid() && fresh(player) && fresh(player.slots)
      invariant player.queue == Run(ops[..i]).queue && outputs == Run(ops[..i]).outputs
    {
      assert ops[..i + 1][..i] == ops[..i];
      match ops[i] {
        case PushOp(kind, code, text) =>
          assert ops[i] in ops;
          player.Push(kind, code, Some(text));
        case PopOp(capacity) =>
          var output := Take(player, capacity);
          if output.Some? {
            outputs := outputs + [output.value];
          }
      }
      i := i + 1;
    }
    assert ops[..i] == ops;
  }

  /** One poll by a caller that offers a buffer of `capacity` bytes. */
  method Take(player: Player, capacity: int) returns (output: Option<Event>)
    requires player.Valid()
    modifies player`head, player`size, player`queue, player`lastEventCode
    ensures player.Valid()
    ensures old(player.queue) == [] ==> output == None && player.queue == []
    ensures old(player.queue) != [] ==>
              output == Some(Delivered(old(player.queue)[0], capacity)) && player.queue == old(player.queue)[1..]
  {
    RingTexts(player.slots, player.head, player.size, player.queue);
    var room: nat := if capacity > 0 then capacity else 0;
    var buffer := new byte[room](_ => 0);
    ghost var before := buffer[..];
    var empty := player.size == 0;
    ghost var text := if empty then [] else player.queue[0].text;
    if capacity > 0 {
      CopiedText(before, text, capacity - 1);
    }
    var kind := player.Pop(buffer, capacity);
    if empty { return None; }
    return Some(Event(kind, player.lastEventCode, CText(buffer[..])));
  }
}
