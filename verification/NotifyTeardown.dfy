/** The Windows callback and teardown protocol: any number of media threads deliver events
    through notify objects while one API thread opens, reattaches and closes the player. */
module NotifyTeardown {
  import opened MiniLang

  /** Who owns a counted reference to a notify object. */
  datatype Holder = Api | Media(token: nat) | Caller(thread: nat)

  /** `refs` is the counter; `holders` says whose references it counts. */
  datatype Notify = Notify(
    refs: int, holders: set<Holder>, attached: bool, readers: set<nat>, writer: bool, deletions: nat)

  /** Where a media thread stands inside `EventNotify`. */
  datatype Stage = Entered | Locked | Using | Done | Returned

  datatype Call = Call(notify: nat, stage: Stage)

  /** What create_engine was called for. */
  datatype Goal = Open | Attach

  /** What follows once an engine is released. */
  datatype After = Recreate | Close | GiveUp(goal: Goal)

  /** Why a notify object is being detached: its engine is being released, or the engine
      could not be created. */
  datatype Cause = Releasing(after: After) | Abandoning(goal: Goal)

  /** The program counter of the API thread. */
  datatype Control =
    | Idle
    | Create(goal: Goal)
    | Registering(notify: nat, goal: Goal)
    | Preparing(goal: Goal)
    | DetachWait(notify: nat, cause: Cause)
    | DetachStore(notify: nat, cause: Cause)
    | DetachUnlock(notify: nat, cause: Cause)
    | EngineRelease(after: After)
    | NotifyRelease(after: After)
    | AbandonRelease(notify: nat, goal: Goal)
    | DeletePlayer
    | Gone

  datatype State = State(
    notifies: seq<Notify>, calls: map<nat, Call>, control: Control,
    current: Option<nat>, engine: bool, alive: bool, effects: seq<nat>)

  /** One atomic step of a media thread or of the API thread. */
  datatype Action =
    | MediaTake(notify: nat, token: nat)
    | MediaDrop(notify: nat, token: nat)
    | Enter(thread: nat, notify: nat, token: nat)
    | LockShared(thread: nat)
    | LoadOwner(thread: nat)
    | Touch(thread: nat)
    | Leave(thread: nat)
    | UnlockShared(thread: nat)
    | Return(thread: nat)
    | BeginAttach
    | BeginClose
    | Construct(ok: bool)
    | CreateInstance(ok: bool)
    | Load(ok: bool)
    | LockExclusive
    | StoreNull
    | UnlockExclusive
    | ReleaseEngine
    | ReleaseNotify
    | Delete

  function Init(): State {
    State([], map[], Create(Open), None, false, true, [])
  }

  // ----- the steps

  function AddRef(n: Notify, h: Holder): Notify {
    n.(refs := n.refs + 1, holders := n.holders + {h})
  }

  /** Drop a reference; whoever brings the counter to zero deletes the object. */
  function Release(n: Notify, h: Holder): Notify {
    n.(refs := n.refs - 1, holders := n.holders - {h},
       deletions := if n.refs == 1 then n.deletions + 1 else n.deletions)
  }

  predicate At(s: State, t: nat, stage: Stage) {
    t in s.calls && s.calls[t].notify < |s.notifies| && s.calls[t].stage == stage
  }

  predicate Known(s: State, n: nat) {
    n < |s.notifies|
  }

  /** The media framework may copy a reference it holds, or take one while the API thread
      registers the object with it. Each call of `EventNotify` is made on a reference that
      outlives the call. */
  ghost predicate Enabled(s: State, a: Action) {
    match a
    case MediaTake(n, k) =>
      Known(s, n) && Media(k) !in s.notifies[n].holders &&
      ((exists j :: Media(j) in s.notifies[n].holders) || (s.control.Registering? && s.control.notify == n))
    case MediaDrop(n, k) => Known(s, n) && Media(k) in s.notifies[n].holders
    case Enter(t, n, k) => Known(s, n) && t !in s.calls && Media(k) in s.notifies[n].holders
    case LockShared(t) => At(s, t, Entered) && !s.notifies[s.calls[t].notify].writer
    case LoadOwner(t) => At(s, t, Locked)
    case Touch(t) => At(s, t, Using)
    case Leave(t) => At(s, t, Using)
    case UnlockShared(t) => At(s, t, Done)
    case Return(t) => At(s, t, Returned)
    case BeginAttach => s.control == Idle
    case BeginClose => s.control == Idle
    case Construct(_) => s.control.Create?
    case CreateInstance(_) => s.control.Registering?
    case Load(_) => s.control.Preparing?
    case LockExclusive =>
      s.control.DetachWait? && Known(s, s.control.notify) &&
      !s.notifies[s.control.notify].writer && s.notifies[s.control.notify].readers == {}
    case StoreNull => s.control.DetachStore? && Known(s, s.control.notify)
    case UnlockExclusive => s.control.DetachUnlock? && Known(s, s.control.notify)
    case ReleaseEngine => s.control.EngineRelease?
    case ReleaseNotify =>
      || (s.control.NotifyRelease? && (s.current.Some? ==> Known(s, s.current.value)))
      || (s.control.AbandonRelease? && Known(s, s.control.notify))
    case Delete => s.control.DeletePlayer?
  }

  function SetNotify(s: State, n: nat, x: Notify): State
    requires Known(s, n)
  {
    s.(notifies := s.notifies[n := x])
  }

  function SetStage(s: State, t: nat, stage: Stage): State
    requires t in s.calls
  {
    s.(calls := s.calls[t := s.calls[t].(stage := stage)])
  }

  /** release_engine: detach first when there is a notify object. */
  function StartRelease(s: State, after: After): State {
    s.(control := if s.current.Some? then DetachWait(s.current.value, Releasing(after)) else EngineRelease(after))
  }

  function Continue(after: After): Control {
    match after
    case Recreate => Create(Attach)
    case Close => DeletePlayer
    case GiveUp(goal) => if goal == Open then DeletePlayer else Idle
  }

  ghost function Next(s: State, a: Action): State
    requires Enabled(s, a)
  {
    match a
    case MediaTake(n, k) => SetNotify(s, n, AddRef(s.notifies[n], Media(k)))
    case MediaDrop(n, k) => SetNotify(s, n, Release(s.notifies[n], Media(k)))
    case Enter(t, n, _) =>
      SetNotify(s, n, AddRef(s.notifies[n], Caller(t))).(calls := s.calls[t := Call(n, Entered)])
    case LockShared(t) =>
      var n := s.calls[t].notify;
      SetStage(SetNotify(s, n, s.notifies[n].(readers := s.notifies[n].readers + {t})), t, Locked)
    case LoadOwner(t) => SetStage(s, t, if s.notifies[s.calls[t].notify].attached then Using else Done)
    case Touch(t) => s.(effects := s.effects + [s.calls[t].notify])
    case Leave(t) => SetStage(s, t, Done)
    case UnlockShared(t) =>
      var n := s.calls[t].notify;
      SetStage(SetNotify(s, n, s.notifies[n].(readers := s.notifies[n].readers - {t})), t, Returned)
    case Return(t) =>
      var n := s.calls[t].notify;
      SetNotify(s, n, Release(s.notifies[n], Caller(t))).(calls := s.calls - {t})
    case BeginAttach => StartRelease(s, Recreate)
    case BeginClose => StartRelease(s, Close)
    case Construct(ok) =>
      var goal := s.control.goal;
      if !ok then s.(control := Continue(GiveUp(goal)))
      else s.(notifies := s.notifies
          + [Notify(1, {Api}, true, {}, false, 0)], control := Registering(|s.notifies|, goal))
    case CreateInstance(ok) =>
      var n, goal := s.control.notify, s.control.goal;
      if ok then s.(engine := true, current := Some(n), control := Preparing(goal))
      else s.(control := DetachWait(n, Abandoning(goal)))
    case Load(ok) =>
      if ok then s.(control := Idle) else StartRelease(s, GiveUp(s.control.goal))
    case LockExclusive =>
      var n := s.control.notify;
      SetNotify(s, n, s.notifies[n].(writer := true)).(control := DetachStore(n, s.control.cause))
    case StoreNull =>
      var n := s.control.notify;
      SetNotify(s, n, s.notifies[n].(attached := false)).(control := DetachUnlock(n, s.control.cause))
    case UnlockExclusive =>
      var n := s.control.notify;
      SetNotify(s, n, s.notifies[n].(writer := false)).(
        control := match s.control.cause
                   case Releasing(after) => EngineRelease(after)
                   case Abandoning(goal) => AbandonRelease(n, goal))
    case ReleaseEngine => s.(engine := false, control := NotifyRelease(s.control.after))
    case ReleaseNotify =>
      if s.control.AbandonRelease? then
        var n := s.control.notify;
        SetNotify(s, n, Release(s.notifies[n], Api)).(control := Continue(GiveUp(s.control.goal)))
      else
        var s1 := if s.current.Some? then SetNotify(s, s.current.value,
            Release(s.notifies[s.current.value], Api)) else s;
        s1.(current := None, control := Continue(s.control.after))
    case Delete => s.(alive := false, control := Gone)
  }

  // ----- the invariant

  /** The API thread's own reference to a notify object. */
  predicate ApiHolds(s: State, n: nat) {
    || s.current == Some(n)
    || (s.control.Registering? && s.control.notify == n)
    || (s.control.AbandonRelease? && s.control.notify == n)
    || (s.control.DetachWait? && s.control.notify == n)
    || (s.control.DetachStore? && s.control.notify == n)
    || (s.control.DetachUnlock? && s.control.notify == n)
  }

  /** The player is reachable through a notify object until its owner pointer is cleared. */
  predicate Reachable(s: State, n: nat) {
    || (s.control.Registering? && s.control.notify == n)
    || (s.control.DetachWait? && s.control.notify == n)
    || (s.control.DetachStore? && s.control.notify == n)
    || (s.current == Some(n) && (s.control.Idle? || s.control.Preparing?))
  }

  predicate HoldsLock(stage: Stage) {
    stage == Locked || stage == Using || stage == Done
  }

  predicate WriterAt(s: State, n: nat) {
    (s.control.DetachStore? || s.control.DetachUnlock?) && s.control.notify == n
  }

  /** What always holds of a notify object: every counted reference has an owner, it has
      been deleted exactly when there is none left, the lock is held by whom the threads'
      positions say, and its owner pointer is set exactly while the player is reachable. */
  ghost predicate Sound(x: Notify, n: nat, calls: map<nat, Call>, api: bool, writer: bool, reachable: bool) {
    && x.refs == |x.holders|
    && x.deletions == (if x.holders == {} then 1 else 0)
    && (Api in x.holders <==> api)
    && (forall t :: Caller(t) in x.holders <==> t in calls && calls[t].notify == n)
    && (forall t :: t in x.readers <==> t in calls && calls[t].notify == n && HoldsLock(calls[t].stage))
    && x.writer == writer && (writer ==> x.readers == {})
    && x.attached == reachable
  }

  ghost predicate NotifyOk(s: State, n: nat)
    requires Known(s, n)
  {
    Sound(s.notifies[n], n, s.calls, ApiHolds(s, n), WriterAt(s, n), Reachable(s, n))
  }

  /** Which of the player's pointers are set at each point of the API thread. */
  predicate ControlOk(s: State) {
    && s.alive == (s.control != Gone)
    && (s.engine ==> s.current.Some?)
    && match s.control
       case Idle => true
       case Create(_) => s.current == None
       case Registering(n, _) => s.current == None && Known(s, n)
       case Preparing(_) => s.current.Some?
       case DetachWait(n, cause) => Known(s, n) && s.current == (if cause.Releasing? then Some(n) else None)
       case DetachStore(n, cause) => Known(s, n) && s.current == (if cause.Releasing? then Some(n) else None)
       case DetachUnlock(n, cause) => Known(s, n) && s.current == (if cause.Releasing? then Some(n) else None)
       case EngineRelease(_) => true
       case NotifyRelease(_) => !s.engine
       case AbandonRelease(n, _) => s.current == None && Known(s, n)
       case DeletePlayer => s.current == None
       case Gone => s.current == None
  }

  ghost predicate CallsOk(s: State) {
    && (forall t :: t in s.calls ==> Known(s, s.calls[t].notify))
    && (forall t :: t in s.calls && s.calls[t].stage == Using ==> s.notifies[s.calls[t].notify].attached)
  }

  ghost predicate Inv(s: State) {
    && ControlOk(s)
    && (s.current.Some? ==> Known(s, s.current.value))
    && (forall n :: Known(s, n) ==> NotifyOk(s, n))
    && CallsOk(s)
  }

  lemma InitInv()
    ensures Inv(Init())
  {
  }

  lemma ReleaseCount(n: Notify, h: Holder)
    requires n.refs == |n.holders| && n.deletions == (if n.holders == {} then 1 else 0) && h in n.holders
    ensures var m := Release(n, h);
            m.refs == |m.holders| && m.deletions == (if m.holders == {} then 1 else 0)
  {
    assert |n.holders - {h}| == |n.holders| - 1;
    if n.refs == 1 {
      assert n.holders - {h} == {};
    }
  }

  // Each kind of change to one notify object, or to the calls around it.

  lemma SoundTake(x: Notify, n: nat, calls: map<nat, Call>, api: bool, writer: bool, reachable: bool, k: nat)
    requires Sound(x, n, calls, api, writer, reachable) && x.holders != {} && Media(k) !in x.holders
    ensures Sound(AddRef(x, Media(k)), n, calls, api, writer, reachable)
  {
  }

  lemma SoundDrop(x: Notify, n: nat, calls: map<nat, Call>, api: bool, writer: bool, reachable: bool, k: nat)
    requires Sound(x, n, calls, api, writer, reachable) && Media(k) in x.holders
    ensures Sound(Release(x, Media(k)), n, calls, api, writer, reachable)
  {
    ReleaseCount(x, Media(k));
  }

  lemma SoundEnter(x: Notify, n: nat, calls: map<nat, Call>, api: bool, writer: bool, reachable: bool, t: nat, m: nat)
    requires Sound(x, n, calls, api, writer, reachable) && t !in calls && (m == n ==> x.holders != {})
    ensures Sound(if m == n then AddRef(x, Caller(t)) else x, n, calls[t := Call(m, Entered)], api, writer, reachable)
  {
    assert Caller(t) !in x.holders;
  }

  lemma SoundStage(
      x: Notify, n: nat, calls: map<nat, Call>, api: bool, writer: bool, reachable: bool, t: nat, stage: Stage,
          readers: set<nat>)
    requires Sound(x, n, calls, api, writer, reachable) && t in calls
    requires readers == if calls[t].notify != n then x.readers else if HoldsLock(stage) then x.readers
            + {t} else x.readers - {t}
    requires calls[t].notify == n && writer ==> !HoldsLock(stage)
    ensures Sound(x.(readers := readers), n, calls[t := calls[t].(stage := stage)], api, writer, reachable)
  {
  }

  lemma SoundReturn(x: Notify, n: nat, calls: map<nat, Call>, api: bool, writer: bool, reachable: bool, t: nat)
    requires Sound(x, n, calls, api, writer, reachable) && t in calls && calls[t].stage == Returned
    ensures Sound(if calls[t].notify == n then Release(x, Caller(t)) else x, n, calls - {t}, api, writer, reachable)
  {
    if calls[t].notify == n {
      ReleaseCount(x, Caller(t));
    }
  }

  lemma SoundApiRelease(x: Notify, n: nat, calls: map<nat, Call>, writer: bool, reachable: bool)
    requires Sound(x, n, calls, true, writer, reachable)
    ensures Sound(Release(x, Api), n, calls, false, writer, reachable)
  {
    ReleaseCount(x, Api);
  }

  predicate IsMediaStep(a: Action) {
    a.MediaTake? || a.MediaDrop?
  }

  predicate IsCallStep(a: Action) {
    a.Enter? || a.LockShared? || a.LoadOwner? || a.Touch? || a.Leave? || a.UnlockShared? || a.Return?
  }

  /** A step of the media framework on its references. */
  lemma MediaStep(s: State, a: Action, n: nat)
    requires Inv(s) && Enabled(s, a) && Known(s, n) && IsMediaStep(a)
    ensures NotifyOk(Next(s, a), n)
  {
    assert NotifyOk(s, n);
    var x := s.notifies[n];
    hide Sound;
    if a.notify == n {
      if a.MediaTake? {
        HasHolder(s, n, a);
        SoundTake(x, n, s.calls, ApiHolds(s, n), WriterAt(s, n), Reachable(s, n), a.token);
      } else {
        SoundDrop(x, n, s.calls, ApiHolds(s, n), WriterAt(s, n), Reachable(s, n), a.token);
      }
    }
  }

  lemma HasHolder(s: State, n: nat, a: Action)
    requires Inv(s) && Known(s, n) && Enabled(s, a) && (a.MediaTake? || a.Enter?) && a.notify == n
    ensures s.notifies[n].holders != {}
  {
    assert NotifyOk(s, n);
    if a.MediaTake? && s.control.Registering? && s.control.notify == n {
      assert Api in s.notifies[n].holders;
    }
  }

  /** A step inside `EventNotify`. */
  lemma {:induction false} CallStep(s: State, a: Action, n: nat)
    requires Inv(s) && Enabled(s, a) && Known(s, n) && IsCallStep(a)
    ensures NotifyOk(Next(s, a), n)
  {
    assert NotifyOk(s, n);
    var x, t := s.notifies[n], a.thread;
    var held, writer, reach := ApiHolds(s, n), WriterAt(s, n), Reachable(s, n);
    assert x.writer == writer;
    hide Sound;
    match a {
      case Enter(_, m, _) =>
        if m == n { HasHolder(s, n, a); }
        SoundEnter(x, n, s.calls, held, writer, reach, t, m);
      case Touch(_) =>
      case Return(_) =>
        SoundReturn(x, n, s.calls, held, writer, reach, t);
      case _ =>
        StageStep(s, a, n);
    }
  }

  lemma {:induction false} StageStep(s: State, a: Action, n: nat)
    requires Inv(s) && Enabled(s, a) && Known(s, n)
    requires a.LockShared? || a.LoadOwner? || a.Leave? || a.UnlockShared?
    ensures NotifyOk(Next(s, a), n)
  {
    assert NotifyOk(s, n);
    var x, t := s.notifies[n], a.thread;
    var s' := Next(s, a);
    var stage := s'.calls[t].stage;
    assert s.calls[t].notify == n ==> (t in x.readers <==> HoldsLock(s.calls[t].stage));
    assert s'.notifies[n] == x.(readers := s'.notifies[n].readers);
    SoundStage(x, n, s.calls, ApiHolds(s, n), WriterAt(s, n), Reachable(s, n), t, stage, s'.notifies[n].readers);
  }

  /** A step of the API thread. */
  lemma {:induction false} ApiStep(s: State, a: Action, n: nat)
    requires Inv(s) && Enabled(s, a) && Known(s, n) && !IsMediaStep(a) && !IsCallStep(a)
    ensures Known(Next(s, a), n) && NotifyOk(Next(s, a), n)
  {
    assert NotifyOk(s, n);
    if a.ReleaseNotify? {
      ReleaseNotifyStep(s, n);
    }
  }

  lemma ReleaseNotifyStep(s: State, n: nat)
    requires Inv(s) && Enabled(s, ReleaseNotify) && Known(s, n)
    ensures Known(Next(s, ReleaseNotify), n) && NotifyOk(Next(s, ReleaseNotify), n)
  {
    assert NotifyOk(s, n);
    hide Sound;
    if ApiHolds(s, n) {
      SoundApiRelease(s.notifies[n], n, s.calls, WriterAt(s, n), Reachable(s, n));
    }
  }

  lemma ControlStep(s: State, a: Action)
    requires Inv(s) && Enabled(s, a)
    ensures var s' := Next(s, a);
            ControlOk(s') && (s'.current.Some? ==> Known(s', s'.current.value)) && |s'.notifies| >= |s.notifies|
  {
    hide NotifyOk, CallsOk, AddRef, Release;
  }

  /** A fresh notify object carries the API thread's reference and leads to the player. */
  lemma NewNotify(s: State)
    requires Inv(s) && Enabled(s, Construct(true))
    ensures var s' := Next(s, Construct(true));
            forall n | Known(s', n) && !Known(s, n) :: NotifyOk(s', n)
  {
    var s' := Next(s, Construct(true));
    var n := |s.notifies|;
    assert s'.notifies[n] == Notify(1, {Api}, true, {}, false, 0);
    assert |{Api}| == 1;
    assert forall t :: t in s.calls ==> s.calls[t].notify != n;
    assert Sound(s'.notifies[n], n, s'.calls, true, false, true);
  }

  /** A thread that uses the player holds the shared lock, so the owner pointer of its
      notify object cannot be cleared meanwhile. */
  lemma {:induction false} CallsStep(s: State, a: Action)
    requires Inv(s) && Enabled(s, a)
    ensures CallsOk(Next(s, a))
  {
    hide NotifyOk, ControlOk;
    if a.StoreNull? {
      OwnerClearedUnused(s);
    } else if IsCallStep(a) {
      CallsCallStep(s, a);
    } else {
      SameCalls(s, a);
    }
  }

  lemma CallsCallStep(s: State, a: Action)
    requires Inv(s) && Enabled(s, a) && IsCallStep(a)
    ensures CallsOk(Next(s, a))
  {
    hide NotifyOk, ControlOk, AddRef, Release;
    var s' := Next(s, a);
    OwnersUnchanged(s, a);
    forall t: nat | t in s'.calls
      ensures Known(s', s'.calls[t].notify)
      ensures s'.calls[t].stage == Using ==> s'.notifies[s'.calls[t].notify].attached
    {
      if t == a.thread {
        assert t in s.calls || a.Enter?;
      } else {
        assert s'.calls[t] == s.calls[t];
      }
    }
  }

  lemma OwnersUnchanged(s: State, a: Action)
    requires Enabled(s, a) && (IsCallStep(a) || IsMediaStep(a))
    ensures var s' := Next(s, a);
            && |s'.notifies| == |s.notifies|
            && forall n: nat | Known(s, n) :: s'.notifies[n].attached == s.notifies[n].attached
  {
  }

  lemma SameCalls(s: State, a: Action)
    requires Inv(s) && Enabled(s, a) && !IsCallStep(a) && !a.StoreNull?
    ensures CallsOk(Next(s, a))
  {
    hide NotifyOk, ControlOk;
    var s' := Next(s, a);
    assert s'.calls == s.calls && |s.notifies| <= |s'.notifies|;
    assert forall n: nat | Known(s, n) :: s'.notifies[n].attached == s.notifies[n].attached;
  }

  lemma OwnerClearedUnused(s: State)
    requires Inv(s) && Enabled(s, StoreNull)
    ensures CallsOk(Next(s, StoreNull))
  {
    assert NotifyOk(s, s.control.notify);
    assert forall t :: t in s.calls && s.calls[t].notify == s.control.notify ==> s.calls[t].stage != Using;
  }

  lemma StepInv(s: State, a: Action)
    requires Inv(s) && Enabled(s, a)
    ensures Inv(Next(s, a))
  {
    hide Next, Enabled, ControlOk, NotifyOk, CallsOk;
    ControlStep(s, a);
    CallsStep(s, a);
    if a == Construct(true) {
      NewNotify(s);
    }
    var s' := Next(s, a);
    forall n | Known(s', n)
      ensures NotifyOk(s', n)
    {
      if Known(s, n) {
        if IsMediaStep(a) {
          MediaStep(s, a, n);
        } else if IsCallStep(a) {
          CallStep(s, a, n);
        } else {
          ApiStep(s, a, n);
        }
      } else {
        OnlyConstructAdds(s, a);
      }
    }
  }

  lemma OnlyConstructAdds(s: State, a: Action)
    requires Enabled(s, a)
    ensures a == Construct(true) || |Next(s, a).notifies| == |s.notifies|
  {
  }

  // ----- runs

  ghost predicate CanRun(s: State, actions: seq<Action>)
    decreases |actions|
  {
    actions == [] || (Enabled(s, actions[0]) && CanRun(Next(s, actions[0]), actions[1..]))
  }

  ghost function RunFrom(s: State, actions: seq<Action>): State
    requires CanRun(s, actions)
    decreases |actions|
  {
    if actions == [] then s else RunFrom(Next(s, actions[0]), actions[1..])
  }

  lemma {:induction false} RunInv(s: State, actions: seq<Action>)
    requires Inv(s) && CanRun(s, actions)
    ensures Inv(RunFrom(s, actions))
    decreases |actions|
  {
    if actions != [] {
      StepInv(s, actions[0]);
      RunInv(Next(s, actions[0]), actions[1..]);
    }
  }

  ghost predicate IsReachable(s: State) {
    exists actions :: CanRun(Init(), actions) && RunFrom(Init(), actions) == s
  }

  lemma ReachableInv(s: State)
    requires IsReachable(s)
    ensures Inv(s)
  {
    var actions :| CanRun(Init(), actions) && RunFrom(Init(), actions) == s;
    InitInv();
    RunInv(Init(), actions);
  }

  // ----- what the protocol guarantees

  /** In every interleaving: a thread inside the player finds it alive and reached it
      through a live notify object whose owner pointer is still set. */
  lemma PlayerInUse(s: State, t: nat)
    requires IsReachable(s) && At(s, t, Using)
    ensures var n := s.calls[t].notify;
            && s.alive && s.notifies[n].attached && s.notifies[n].deletions == 0
            && t in s.notifies[n].readers
            && (s.current == Some(n) || s.current == None)
  {
    ReachableInv(s);
    assert NotifyOk(s, s.calls[t].notify);
  }

  /** From the moment release_engine has detached the notify object, and while the player
      is being deleted and ever after, no owner pointer leads to the player. */
  lemma AllDetached(s: State, n: nat)
    requires IsReachable(s) && Known(s, n)
    requires || s.control.Create? || s.control.EngineRelease? || s.control.NotifyRelease?
             || s.control.DeletePlayer? || s.control.Gone?
    ensures !s.notifies[n].attached
  {
    ReachableInv(s);
    assert NotifyOk(s, n);
  }

  /** So no thread is inside the player while its engine is shut down and freed, or while
      the player itself is deleted, or later. */
  lemma TeardownExclusive(s: State, t: nat)
    requires IsReachable(s)
    requires s.control.EngineRelease? || s.control.NotifyRelease? || s.control.DeletePlayer? || s.control.Gone?
    ensures !At(s, t, Using)
  {
    ReachableInv(s);
    if t in s.calls && Known(s, s.calls[t].notify) {
      AllDetached(s, s.calls[t].notify);
    }
  }

  /** The notify object whose memory a step reads or writes. */
  function Accesses(s: State, a: Action): Option<nat> {
    match a
    case MediaTake(n, _) => Some(n)
    case MediaDrop(n, _) => Some(n)
    case Enter(_, n, _) => Some(n)
    case BeginAttach => None
    case BeginClose => None
    case Construct(_) => None
    case CreateInstance(_) => if s.control.Registering? then Some(s.control.notify) else None
    case Load(_) => None
    case LockExclusive => if s.control.DetachWait? then Some(s.control.notify) else None
    case StoreNull => if s.control.DetachStore? then Some(s.control.notify) else None
    case UnlockExclusive => if s.control.DetachUnlock? then Some(s.control.notify) else None
    case ReleaseEngine => None
    case ReleaseNotify => if s.control.AbandonRelease? then Some(s.control.notify) else s.current
    case Delete => None
    case _ => if a.thread in s.calls then Some(s.calls[a.thread].notify) else None
  }

  /** That is all a step touches: it leaves every other notify object as it was, and what a
      callback finds in the owner pointer it reads from the object it runs in. */
  lemma ChangesOnlyAccessed(s: State, a: Action, n: nat)
    requires IsReachable(s) && Enabled(s, a) && Known(s, n) && Accesses(s, a) != Some(n)
    ensures Next(s, a).notifies[n] == s.notifies[n]
    ensures a.LoadOwner? ==>
              forall x: Notify :: Next(s, a) == Next(SetNotify(s, n, x), a).(notifies := s.notifies)
  {
    ReachableInv(s);
    if a.LoadOwner? {
      forall x: Notify
        ensures Next(s, a) == Next(SetNotify(s, n, x), a).(notifies := s.notifies)
      {
        assert SetNotify(s, n, x).notifies[s.calls[a.thread].notify] == s.notifies[s.calls[a.thread].notify];
      }
    }
  }

  /** No step touches a notify object that was deleted. */
  lemma NeverUsedAfterDelete(s: State, a: Action)
    requires IsReachable(s) && Enabled(s, a) && Accesses(s, a).Some?
    ensures var n := Accesses(s, a).value; Known(s, n) && s.notifies[n].deletions == 0
  {
    ReachableInv(s);
    var n := Accesses(s, a).value;
    assert NotifyOk(s, n);
    hide Next;
    if IsCallStep(a) && !a.Enter? {
      assert Caller(a.thread) in s.notifies[n].holders;
    } else if IsMediaStep(a) || a.Enter? {
      if a.MediaDrop? {
        assert Media(a.token) in s.notifies[n].holders;
      } else {
        HasHolder(s, n, a);
      }
    } else {
      assert Api in s.notifies[n].holders;
    }
  }

  /** A notify object is deleted exactly once, namely when its last reference goes. */
  lemma DeletedExactlyOnce(s: State, a: Action, n: nat)
    requires IsReachable(s) && Enabled(s, a) && Known(s, n)
    ensures var x, y := s.notifies[n], Next(s, a).notifies[n];
            && (x.deletions == 0 || x.deletions == 1) && (x.deletions == 1 <==> x.refs == 0)
            && (y.deletions == x.deletions || (x.deletions == 0 && x.refs == 1 && y.refs == 0))
  {
    ReachableInv(s);
    StepInv(s, a);
    assert NotifyOk(s, n) && NotifyOk(Next(s, a), n);
    if s.notifies[n].deletions == 1 {
      DeletedStays(s, a, n);
    }
  }

  lemma DeletedStays(s: State, a: Action, n: nat)
    requires Inv(s) && Enabled(s, a) && Known(s, n) && s.notifies[n].deletions == 1
    ensures Next(s, a).notifies[n].holders == {}
  {
    assert NotifyOk(s, n);
    if (a.MediaTake? || a.Enter?) && a.notify == n {
      HasHolder(s, n, a);
    }
    assert Next(s, a).notifies[n].holders <= s.notifies[n].holders;
  }

  /** Once the owner pointer is cleared it stays cleared, and a step through the object
      adds nothing to the player's effects. */
  lemma DetachedStep(s: State, a: Action, n: nat)
    requires Inv(s) && Enabled(s, a) && Known(s, n) && !s.notifies[n].attached
    ensures var s' := Next(s, a);
            && Known(s', n) && !s'.notifies[n].attached
            && s.effects <= s'.effects
            && forall i | |s.effects| <= i < |s'.effects| :: s'.effects[i] != n
  {
    hide ControlOk, NotifyOk;
  }

  /** After `detach` has returned, no event of that notify object ever changes the player:
      not in any continuation, over any number of later attach calls. */
  lemma {:induction false} DetachedForever(s: State, actions: seq<Action>, n: nat)
    requires Inv(s) && CanRun(s, actions) && Known(s, n) && !s.notifies[n].attached
    ensures var s' := RunFrom(s, actions);
            && Known(s', n) && !s'.notifies[n].attached
            && s.effects <= s'.effects
            && forall i | |s.effects| <= i < |s'.effects| :: s'.effects[i] != n
    decreases |actions|
  {
    if actions != [] {
      var s1 := Next(s, actions[0]);
      StepInv(s, actions[0]);
      DetachedStep(s, actions[0], n);
      DetachedForever(s1, actions[1..], n);
      var s' := RunFrom(s, actions);
      forall i | |s.effects| <= i < |s'.effects|
        ensures s'.effects[i] != n
      {
        if i < |s1.effects| {
          assert s'.effects[i] == s1.effects[i];
        }
      }
    }
  }

  /** Reattach isolation: once release_engine has returned inside an attach, whatever
      happens next, every effect on the player comes from a notify object made later. */
  lemma ReattachIsolated(s: State, actions: seq<Action>)
    requires IsReachable(s) && s.control == Create(Attach) && CanRun(s, actions)
    ensures var s' := RunFrom(s, actions);
            && s.effects <= s'.effects
            && forall i | |s.effects| <= i < |s'.effects| :: s'.effects[i] >= |s.notifies|
  {
    ReachableInv(s);
    RunGrows(s, actions);
    var s' := RunFrom(s, actions);
    forall i | |s.effects| <= i < |s'.effects|
      ensures s'.effects[i] >= |s.notifies|
    {
      var n := s'.effects[i];
      if n < |s.notifies| {
        AllDetached(s, n);
        DetachedForever(s, actions, n);
      }
    }
  }

  lemma {:induction false} RunGrows(s: State, actions: seq<Action>)
    requires CanRun(s, actions)
    ensures s.effects <= RunFrom(s, actions).effects
    decreases |actions|
  {
    if actions != [] {
      RunGrows(Next(s, actions[0]), actions[1..]);
      assert s.effects <= Next(s, actions[0]).effects;
    }
  }

  /** Events of the new notify object do get through: from any state in which the player
      is idle with an engine, a media thread that holds a reference can enter and reach
      the player without waiting for anyone. */
  lemma {:induction false} NewEventsArrive(s: State, t: nat, k: nat)
    requires IsReachable(s) && s.control == Idle && s.current.Some? && t !in s.calls
    requires Known(s, s.current.value) && Media(k) in s.notifies[s.current.value].holders
    ensures var n := s.current.value;
            var actions := [Enter(t, n, k), LockShared(t), LoadOwner(t), Touch(t)];
            CanRun(s, actions) && RunFrom(s, actions).effects == s.effects + [n]
  {
    ReachableInv(s);
    var n := s.current.value;
    assert NotifyOk(s, n);
    var s1 := Next(s, Enter(t, n, k));
    var s2 := Next(s1, LockShared(t));
    var s3 := Next(s2, LoadOwner(t));
    var s4 := Next(s3, Touch(t));
    RunOf4(s, Enter(t, n, k), LockShared(t), LoadOwner(t), Touch(t));
  }

  lemma RunOf4(s: State, a: Action, b: Action, c: Action, d: Action)
    requires Enabled(s, a) && Enabled(Next(s, a), b) && Enabled(Next(Next(s, a), b), c)
    requires Enabled(Next(Next(Next(s, a), b), c), d)
    ensures CanRun(s, [a, b, c, d]) && RunFrom(s, [a, b, c, d]) == Next(Next(Next(Next(s, a), b), c), d)
  {
    hide Enabled, Next;
    assert [a, b, c, d][1..] == [b, c, d] && [b, c, d][1..] == [c, d] && [c, d][1..] == [d] && [d][1..] == [];
    var s1 := Next(s, a);
    var s2 := Next(s1, b);
    var s3 := Next(s2, c);
    assert CanRun(s3, [d]) && RunFrom(s3, [d]) == Next(s3, d);
    assert CanRun(s2, [c, d]) && RunFrom(s2, [c, d]) == RunFrom(s3, [d]);
    assert CanRun(s1, [b, c, d]) && RunFrom(s1, [b, c, d]) == RunFrom(s2, [c, d]);
  }

  /** What the API thread does next. */
  function ApiAction(s: State): Action {
    match s.control
    case Idle => BeginClose
    case Create(_) => Construct(true)
    case Registering(_, _) => CreateInstance(true)
    case Preparing(_) => Load(true)
    case DetachWait(_, _) => LockExclusive
    case DetachStore(_, _) => StoreNull
    case DetachUnlock(_, _) => UnlockExclusive
    case EngineRelease(_) => ReleaseEngine
    case NotifyRelease(_) => ReleaseNotify
    case AbandonRelease(_, _) => ReleaseNotify
    case DeletePlayer => Delete
    case Gone => Delete
  }

  /** Teardown never gets stuck: until the player is gone the API thread can take its next
      step, or it waits for a media thread that holds the lock and can itself go on. */
  lemma NoDeadlock(s: State)
    requires IsReachable(s) && s.control != Gone
    ensures || Enabled(s, ApiAction(s))
            || (exists t :: Enabled(s, LoadOwner(t)) || Enabled(s, Leave(t)) || Enabled(s, UnlockShared(t)))
  {
    ReachableInv(s);
    if s.control.DetachWait? {
      WaiterProgress(s, s.control.notify);
    }
  }

  lemma WaiterProgress(s: State, n: nat)
    requires Inv(s) && s.control.DetachWait? && s.control.notify == n && Known(s, n)
    ensures Enabled(s, LockExclusive)
         || (exists t :: Enabled(s, LoadOwner(t)) || Enabled(s, Leave(t)) || Enabled(s, UnlockShared(t)))
  {
    assert NotifyOk(s, n);
    if s.notifies[n].readers != {} {
      var t :| t in s.notifies[n].readers;
      assert At(s, t, Locked) || At(s, t, Using) || At(s, t, Done);
      assert Enabled(s, LoadOwner(t)) || Enabled(s, Leave(t)) || Enabled(s, UnlockShared(t));
    }
  }

  /** Nothing leaks: once the player is gone and the media framework has let go, every
      notify object ever made has been deleted. */
  lemma NothingLeaks(s: State, n: nat)
    requires IsReachable(s) && s.control == Gone && Known(s, n)
    requires s.calls == map[] && (forall k :: Media(k) !in s.notifies[n].holders)
    ensures s.notifies[n].deletions == 1
  {
    ReachableInv(s);
    assert NotifyOk(s, n);
    forall h: Holder
      ensures h !in s.notifies[n].holders
    {
      match h {
        case Api =>
        case Media(k) =>
        case Caller(t) =>
      }
    }
  }

  // ----- where the API calls end

  /** The steps that the API thread takes. */
  function ApiSteps(actions: seq<Action>): nat
    decreases |actions|
  {
    if actions == [] then 0
    else (if IsMediaStep(actions[0]) || IsCallStep(actions[0]) then 0 else 1) + ApiSteps(actions[1..])
  }

  /** No further call is begun. */
  predicate NoNewCall(actions: seq<Action>) {
    BeginAttach !in actions && BeginClose !in actions
  }

  /** The API thread is closing the player, with so many steps to go. */
  predicate Closing(c: Control, left: nat) {
    match c
    case DetachWait(_, cause) => cause == Releasing(Close) && left == 6
    case DetachStore(_, cause) => cause == Releasing(Close) && left == 5
    case DetachUnlock(_, cause) => cause == Releasing(Close) && left == 4
    case EngineRelease(after) => after == Close && left == 3
    case NotifyRelease(after) => after == Close && left == 2
    case DeletePlayer => left == 1
    case Gone => left == 0
    case _ => false
  }

  lemma OthersKeepControl(s: State, a: Action)
    requires Enabled(s, a) && (IsMediaStep(a) || IsCallStep(a))
    ensures var s' := Next(s, a);
            s'.control == s.control && s'.engine == s.engine && s'.current == s.current && s'.alive == s.alive
  {
  }

  lemma ClosingStep(s: State, a: Action, left: nat)
    requires Enabled(s, a) && Closing(s.control, left)
    ensures IsMediaStep(a) || IsCallStep(a) || (left > 0 && Closing(Next(s, a).control, left - 1))
  {
    hide AddRef, Release;
  }

  lemma {:induction false} ClosingRun(s: State, actions: seq<Action>, left: nat)
    requires CanRun(s, actions) && Closing(s.control, left)
    ensures ApiSteps(actions) <= left && Closing(RunFrom(s, actions).control, left - ApiSteps(actions))
    decreases |actions|
  {
    if actions != [] {
      var a := actions[0];
      ClosingStep(s, a, left);
      if IsMediaStep(a) || IsCallStep(a) {
        OthersKeepControl(s, a);
        hide Next, Enabled, Closing;
        ClosingRun(Next(s, a), actions[1..], left);
      } else {
        hide Next, Enabled, Closing;
        ClosingRun(Next(s, a), actions[1..], left - 1);
      }
    }
  }

  /** A close always ends with the player deleted. However the threads are scheduled, the API
      thread never comes back to serving calls or making engines, and it deletes the player
      with its sixth step, or with its third when there is no notify object to detach. */
  lemma CloseDeletes(s: State, actions: seq<Action>)
    requires IsReachable(s) && s.control == Idle && CanRun(Next(s, BeginClose), actions)
    ensures var e := RunFrom(Next(s, BeginClose), actions);
            var total := if s.current.Some? then 6 else 3;
            && !e.control.Idle? && !e.control.Create? && !e.control.Registering? && !e.control.Preparing?
            && ApiSteps(actions) <= total
            && (ApiSteps(actions) == total <==> e.control == Gone)
            && (e.control == Gone <==> !e.alive)
  {
    ReachableInv(s);
    StepInv(s, BeginClose);
    var s1, total := Next(s, BeginClose), if s.current.Some? then 6 else 3;
    assert Closing(s1.control, total);
    hide *;
    ClosingEnd(s1, actions, total);
  }

  lemma ClosingEnd(s: State, actions: seq<Action>, left: nat)
    requires Inv(s) && CanRun(s, actions) && Closing(s.control, left)
    ensures var e := RunFrom(s, actions);
            && !e.control.Idle? && !e.control.Create? && !e.control.Registering? && !e.control.Preparing?
            && ApiSteps(actions) <= left
            && (ApiSteps(actions) == left <==> e.control == Gone)
            && (e.control == Gone <==> !e.alive)
  {
    RunInv(s, actions);
    ClosingRun(s, actions, left);
    hide Next, Enabled, NotifyOk, CallsOk, CanRun, RunFrom, ApiSteps;
  }

  /** The API thread is working towards `goal`, with at most so many steps to go. */
  function Left(c: Control, goal: Goal): nat {
    var last := if goal == Open then 1 else 0;
    match c
    case Idle => 0
    case Gone => 0
    case DeletePlayer => 1
    case NotifyRelease(after) => if after == Recreate then 9 else 1 + last
    case EngineRelease(after) => if after == Recreate then 10 else 2 + last
    case AbandonRelease(_, _) => 1 + last
    case DetachUnlock(_, cause) => ReleaseLeft(cause, last)
    case DetachStore(_, cause) => 1 + ReleaseLeft(cause, last)
    case DetachWait(_, cause) => 2 + ReleaseLeft(cause, last)
    case Preparing(_) => 6 + last
    case Registering(_, _) => 7 + last
    case Create(_) => 8 + last
  }

  function ReleaseLeft(cause: Cause, last: nat): nat {
    if cause.Abandoning? then 2 + last else if cause.after == Recreate then 11 else 3 + last
  }

  /** The release serves `goal`: to make way for a new engine, or after a failure. */
  predicate ServesAfter(after: After, goal: Goal, failed: bool) {
    (after == GiveUp(goal) && failed) || (after == Recreate && goal == Attach && !failed)
  }

  predicate Serves(cause: Cause, goal: Goal, failed: bool) {
    match cause
    case Releasing(after) => ServesAfter(after, goal, failed)
    case Abandoning(g) => g == goal && failed
  }

  predicate IsFailure(a: Action) {
    a == Construct(false) || a == CreateInstance(false) || a == Load(false)
  }

  predicate HasFailure(actions: seq<Action>) {
    exists a :: a in actions && IsFailure(a)
  }

  /** Between the start of an open or an attach and its end; `loaded` says whether the
      engine has answered a load with success, `failed` whether anything was refused. */
  predicate Underway(s: State, goal: Goal, loaded: bool, failed: bool) {
    match s.control
    case Idle => s.engine == loaded && s.current.Some? == loaded && loaded == !failed && (goal == Open ==> loaded)
    case DeletePlayer => goal == Open && !loaded && failed
    case Gone => goal == Open && !loaded && failed
    case NotifyRelease(after) => ServesAfter(after, goal, failed) && !loaded
    case EngineRelease(after) => ServesAfter(after, goal, failed) && !loaded
    case AbandonRelease(_, g) => g == goal && !loaded && failed
    case DetachUnlock(_, cause) => Serves(cause, goal, failed) && !loaded
    case DetachStore(_, cause) => Serves(cause, goal, failed) && !loaded
    case DetachWait(_, cause) => Serves(cause, goal, failed) && !loaded
    case Preparing(g) => g == goal && !loaded && !failed && s.engine
    case Registering(_, g) => g == goal && !loaded && !failed
    case Create(g) => g == goal && !loaded && !failed
  }

  lemma UnderwayCreate(s: State, a: Action, goal: Goal, loaded: bool, failed: bool)
    requires Inv(s) && Enabled(s, a) && Underway(s, goal, loaded, failed)
    requires a.Construct? || a.CreateInstance? || a.Load?
    requires !IsMediaStep(a) && !IsCallStep(a) && a != BeginAttach && a != BeginClose
    ensures Underway(Next(s, a), goal, loaded || a == Load(true), failed || IsFailure(a))
    ensures Left(Next(s, a).control, goal) < Left(s.control, goal)
  {
    assert ControlOk(s);
    hide Inv, AddRef, Release, NotifyOk, CallsOk;
  }

  lemma UnderwayRelease(s: State, a: Action, goal: Goal, loaded: bool, failed: bool)
    requires Inv(s) && Enabled(s, a) && Underway(s, goal, loaded, failed)
    requires !a.Construct? && !a.CreateInstance? && !a.Load?
    requires !IsMediaStep(a) && !IsCallStep(a) && a != BeginAttach && a != BeginClose
    ensures Underway(Next(s, a), goal, loaded || a == Load(true), failed || IsFailure(a))
    ensures Left(Next(s, a).control, goal) < Left(s.control, goal)
  {
    assert ControlOk(s);
    hide Inv, AddRef, Release, NotifyOk, CallsOk;
  }

  lemma UnderwayStep(s: State, a: Action, goal: Goal, loaded: bool, failed: bool)
    requires Inv(s) && Enabled(s, a) && Underway(s, goal, loaded, failed)
    requires !IsMediaStep(a) && !IsCallStep(a) && a != BeginAttach && a != BeginClose
    ensures Underway(Next(s, a), goal, loaded || a == Load(true), failed || IsFailure(a))
    ensures Left(Next(s, a).control, goal) < Left(s.control, goal)
  {
    if a.Construct? || a.CreateInstance? || a.Load? {
      UnderwayCreate(s, a, goal, loaded, failed);
    } else {
      UnderwayRelease(s, a, goal, loaded, failed);
    }
    hide Next, Enabled, Inv, Left, Underway;
  }

  lemma UnderwayAny(s: State, a: Action, goal: Goal, loaded: bool, failed: bool)
    requires Inv(s) && Enabled(s, a) && Underway(s, goal, loaded, failed) && a != BeginAttach && a != BeginClose
    ensures Underway(Next(s, a), goal, loaded || a == Load(true), failed || IsFailure(a))
    ensures Left(Next(s, a).control, goal) + ApiSteps([a]) <= Left(s.control, goal)
  {
    assert [a][1..] == [];
    if IsMediaStep(a) || IsCallStep(a) {
      OthersKeepControl(s, a);
      hide Next, Enabled, Inv, Left;
    } else {
      UnderwayStep(s, a, goal, loaded, failed);
      hide Next, Enabled, Inv, Left, Underway;
    }
  }

  lemma ApiStepsFirst(actions: seq<Action>)
    requires actions != []
    ensures ApiSteps(actions) == ApiSteps([actions[0]]) + ApiSteps(actions[1..])
    ensures HasFailure(actions) <==> IsFailure(actions[0]) || HasFailure(actions[1..])
    ensures Load(true) in actions <==> actions[0] == Load(true) || Load(true) in actions[1..]
    ensures NoNewCall(actions) ==> NoNewCall(actions[1..]) && actions[0] != BeginAttach && actions[0] != BeginClose
  {
    assert [actions[0]][1..] == [];
    assert actions == [actions[0]] + actions[1..];
  }

  lemma {:induction false} UnderwayRun(s: State, actions: seq<Action>, goal: Goal, loaded: bool, failed: bool)
    requires Inv(s) && CanRun(s, actions) && Underway(s, goal, loaded, failed) && NoNewCall(actions)
    ensures var e := RunFrom(s, actions);
            && Inv(e) && Underway(e, goal, loaded || Load(true) in actions, failed || HasFailure(actions))
            && ApiSteps(actions) + Left(e.control, goal) <= Left(s.control, goal)
    decreases |actions|
  {
    assert !HasFailure([]);
    hide Next, Enabled, Inv, Underway, Left, NoNewCall, HasFailure, IsFailure;
    if actions != [] {
      var a := actions[0];
      ApiStepsFirst(actions);
      StepInv(s, a);
      UnderwayAny(s, a, goal, loaded, failed);
      hide ApiSteps;
      UnderwayRun(Next(s, a), actions[1..], goal, loaded || a == Load(true), failed || IsFailure(a));
    }
  }

  /** An attach never ends the player: whatever the backend answers, the API thread is back
      at serving calls within thirteen steps. It then has an engine, exactly if the load
      succeeded, or it has neither engine nor notify object, exactly if something failed. */
  lemma AttachReturns(s: State, actions: seq<Action>)
    requires IsReachable(s) && s.control == Idle
    requires CanRun(Next(s, BeginAttach), actions) && NoNewCall(actions)
    ensures var e := RunFrom(Next(s, BeginAttach), actions);
            && e.alive && e.control != DeletePlayer
            && ApiSteps(actions) <= 13 && (ApiSteps(actions) == 13 ==> e.control == Idle)
            && (e.control == Idle ==>
                  e.engine == (Load(true) in actions) && e.current.Some? == (Load(true) in actions))
            && (e.control == Idle ==> (Load(true) in actions <==> !HasFailure(actions)))
            && (e.control != Idle ==> Load(true) !in actions)
  {
    ReachableInv(s);
    StepInv(s, BeginAttach);
    UnderwayRun(Next(s, BeginAttach), actions, Attach, false, false);
  }

  /** Within nine steps an open has either left the player serving calls with an engine,
      exactly when the load succeeded, or deleted it. */
  lemma OpenEnds(actions: seq<Action>)
    requires CanRun(Init(), actions) && NoNewCall(actions)
    ensures var e := RunFrom(Init(), actions);
            && ApiSteps(actions) <= 9
            && (e.control == Idle <==> Load(true) in actions)
            && (e.control == Idle ==> e.engine && e.current.Some? && e.alive)
            && (ApiSteps(actions) == 9 ==> e.control == Idle || e.control == Gone)
            && (e.control == Gone <==> !e.alive)
            && (e.control == Gone ==> HasFailure(actions))
  {
    InitInv();
    UnderwayRun(Init(), actions, Open, false, false);
  }
}
