/** The Windows player's state and events under concurrency: any number of callbacks inside
    `player_event` and one API thread, interleaved between every two accesses to what they
    share. A stop, a pause or a play can overtake a callback, and callbacks each other. */
module PlayerSteps {
  import opened MiniLang
  import opened EventQueue
  import opened WindowsBridge

  datatype Activity = Activity(work: Work, stage: Stage)

  /** `stores` and `reporters` record which activity made each store and each push, in
      order; `log` holds the pushed events. */
  datatype State = State(
    state: PlayerState, activities: seq<Activity>, engine: bool,
    stores: seq<nat>, reporters: seq<nat>, log: seq<Event>)

  datatype Action =
    | Begin(work: Work)
    | Check(id: nat)
    | StoreState(id: nat)
    | PushEvent(id: nat)
    | Drain(id: nat, ok: bool)
    | Abandon(id: nat)

  /** `mlv_open` has connected the engine and has yet to store LOADING. */
  function Init(): State {
    State(Empty, [Activity(Attach, Storing)], true, [], [], [])
  }

  // ----- the steps

  predicate At(s: State, t: nat, stage: Stage) {
    t < |s.activities| && s.activities[t].stage == stage
  }

  predicate Idle(a: Activity) {
    a.stage == Finished
  }

  /** The handle is usable: the open succeeded and nobody has closed it. */
  predicate Usable(s: State) {
    forall t | 0 <= t < |s.activities| :: s.activities[t].work != Close && (t == 0 ==> s.activities[t].work != GiveUp)
  }

  /** Callbacks come while an engine is connected. One thread makes the API calls, one after
      the other. Releasing an engine waits for the callbacks inside the player, as the
      protocol in `NotifyTeardown` has it. */
  predicate Enabled(s: State, a: Action) {
    match a
    case Begin(w) =>
      if w.Notified? then s.engine
      else
        && !w.GiveUp? && Usable(s)
        && (forall u | 0 <= u < |s.activities| && !s.activities[u].work.Notified? :: Idle(s.activities[u]))
        && (w.Play? || w.Pause? || w.Stop? ==> s.engine)
        && (w.Attach? ==> s.state != Playing && s.state != Buffering)
    case Check(t) => At(s, t, Checking)
    case StoreState(t) => At(s, t, Storing) && Target(s.activities[t].work).Some?
    case PushEvent(t) => At(s, t, Pushing) && Report(s.activities[t].work).Some?
    case Drain(t, ok) =>
      && At(s, t, Draining) && (ok ==> s.activities[t].work.Attach?)
      && (forall u | 0 <= u < |s.activities| && s.activities[u].work.Notified? :: Idle(s.activities[u]))
    case Abandon(t) => At(s, t, Storing) && s.activities[t].work.Attach?
  }

  function SetStage(s: State, t: nat, stage: Stage): State
    requires t < |s.activities|
  {
    s.(activities := s.activities[t := s.activities[t].(stage := stage)])
  }

  function Next(s: State, a: Action): State
    requires Enabled(s, a)
  {
    match a
    case Begin(w) => s.(activities := s.activities + [Activity(w, FirstStage(w))])
    case Check(t) => SetStage(s, t, After(s.activities[t].work, Checking, s.state))
    case StoreState(t) =>
      var w := s.activities[t].work;
      SetStage(s, t, After(w, Storing, s.state)).(state := Target(w).value, stores := s.stores + [t])
    case PushEvent(t) =>
      SetStage(s, t, Finished).(
        reporters := s.reporters + [t], log := s.log + [Report(s.activities[t].work).value])
    case Drain(t, ok) => SetStage(s, t, if ok then Storing else Finished).(engine := ok)
    case Abandon(t) => s.(activities := s.activities[t := Activity(GiveUp, Draining)])
  }

  function Run(s: State, actions: seq<Action>): Option<State> {
    if actions == [] then Some(s)
    else
      var r := Run(s, actions[..|actions| - 1]);
      if r.Some? && Enabled(r.value, actions[|actions| - 1]) then Some(Next(r.value, actions[|actions| - 1]))
      else None
  }

  ghost predicate IsReachable(s: State) {
    exists actions :: Run(Init(), actions) == Some(s)
  }

  lemma RunSnoc(s: State, actions: seq<Action>, u: State, a: Action)
    requires Run(s, actions) == Some(u) && Enabled(u, a)
    ensures Run(s, actions + [a]) == Some(Next(u, a))
  {
    assert (actions + [a])[..|actions|] == actions;
  }

  // ----- what always holds

  /** What an activity has done fits the stage it is in: it reports only what it has
      stored, and having stored something to report it does not end without reporting. */
  predicate Sound(a: Activity, stored: bool, reported: bool) {
    && CanBe(a.work, a.stage)
    && (stored ==> Target(a.work).Some?
                   && (a.stage == Pushing || a.stage == Finished || (a.stage == Draining && a.work == Close)))
    && (reported ==> a.stage == Finished && Report(a.work).Some?)
    && (Target(a.work).Some? && (a.stage == Pushing || reported) ==> stored)
    && (a.stage == Finished && stored && Report(a.work).Some? ==> reported)
    && (a.stage == Finished && a.work != Notified(NowPaused) && a.work != Attach ==>
          (Target(a.work).Some? ==> stored) && (Report(a.work).Some? ==> reported))
    && (a.stage == Draining && a.work == Close ==> stored)
  }

  ghost predicate ActivitiesOk(s: State) {
    && (forall i | 0 <= i < |s.stores| :: s.stores[i] < |s.activities|)
    && (forall i | 0 <= i < |s.reporters| :: s.reporters[i] < |s.activities|)
    && (forall t: nat | t < |s.activities| :: Sound(s.activities[t], t in s.stores, t in s.reporters))
  }

  /** The last store decides the state. */
  predicate StateOk(s: State) {
    if s.stores == [] then s.state == Empty
    else
      var t := s.stores[|s.stores| - 1];
      t < |s.activities| && Target(s.activities[t].work) == Some(s.state)
  }

  /** The log lists the reports, one for each activity that made one. */
  ghost predicate LogOk(s: State) {
    && |s.reporters| == |s.log|
    && (forall i | 0 <= i < |s.log| ::
          s.reporters[i] < |s.activities| && Report(s.activities[s.reporters[i]].work) == Some(s.log[i]))
    && (forall i, j | 0 <= i < j < |s.reporters| :: s.reporters[i] != s.reporters[j])
  }

  ghost predicate Inv(s: State) {
    ActivitiesOk(s) && StateOk(s) && LogOk(s)
  }

  /** Every event that names a state was pushed by an activity that had stored that state,
      each activity reports at most once, and whatever was stored in order to be reported
      is reported by the time its activity ends. */
  lemma ReportsAreTrue(s: State, i: nat)
    requires IsReachable(s) && i < |s.log|
    ensures |s.reporters| == |s.log|
    ensures var t := s.reporters[i];
            && t < |s.activities| && Report(s.activities[t].work) == Some(s.log[i])
            && (Names(s.log[i]).Some? ==> t in s.stores && Target(s.activities[t].work) == Names(s.log[i]))
            && (forall j | 0 <= j < |s.log| && j != i :: s.reporters[j] != t)
    ensures forall t: nat | At(s, t, Finished) && t in s.stores && Report(s.activities[t].work).Some? ::
              t in s.reporters
  {
    ReachableInv(s);
    var t := s.reporters[i];
    assert Sound(s.activities[t], t in s.stores, t in s.reporters);
    ReportNamesTarget(s.activities[t].work);
  }

  lemma StepInv(s: State, a: Action)
    requires Inv(s) && Enabled(s, a)
    ensures Inv(Next(s, a))
  {
    hide Inv, Enabled, Next;
    StepActivities(s, a);
    StepState(s, a);
    StepLog(s, a);
    assert Inv(Next(s, a)) by { InvParts(Next(s, a)); }
  }

  lemma InvParts(s: State)
    requires ActivitiesOk(s) && StateOk(s) && LogOk(s)
    ensures Inv(s)
  {
  }

  lemma StepActivities(s: State, a: Action)
    requires Inv(s) && Enabled(s, a)
    ensures ActivitiesOk(Next(s, a))
  {
    hide StateOk, LogOk, CanBe, Target, Report;
    var s' := Next(s, a);
    forall u: nat | u < |s'.activities|
      ensures Sound(s'.activities[u], u in s'.stores, u in s'.reporters)
    {
      if u < |s.activities| {
        assert Sound(s.activities[u], u in s.stores, u in s.reporters);
        StepActivity(s, a, u);
      } else {
        FirstSound(a.work);
      }
    }
  }

  lemma FirstSound(w: Work)
    ensures Sound(Activity(w, FirstStage(w)), false, false)
  {
  }

  lemma StepActivity(s: State, a: Action, u: nat)
    requires Enabled(s, a) && u < |s.activities| && Sound(s.activities[u], u in s.stores, u in s.reporters)
    ensures var s' := Next(s, a); Sound(s'.activities[u], u in s'.stores, u in s'.reporters)
  {
  }

  lemma StepState(s: State, a: Action)
    requires Inv(s) && Enabled(s, a)
    ensures StateOk(Next(s, a))
  {
    hide LogOk;
    if a.Abandon? {
      assert Sound(s.activities[a.id], a.id in s.stores, a.id in s.reporters);
    }
  }

  lemma StepLog(s: State, a: Action)
    requires Inv(s) && Enabled(s, a)
    ensures LogOk(Next(s, a))
  {
    hide StateOk;
    if !a.Begin? {
      assert Sound(s.activities[a.id], a.id in s.stores, a.id in s.reporters);
    }
  }

  lemma {:induction false} RunInv(s: State, actions: seq<Action>)
    requires Inv(s) && Run(s, actions).Some?
    ensures Inv(Run(s, actions).value)
    decreases |actions|
  {
    hide Inv, Next, Enabled;
    if actions != [] {
      RunInv(s, actions[..|actions| - 1]);
      StepInv(Run(s, actions[..|actions| - 1]).value, actions[|actions| - 1]);
    }
  }

  lemma ReachableInv(s: State)
    requires IsReachable(s)
    ensures Inv(s)
  {
    var actions :| Run(Init(), actions) == Some(s);
    assert Inv(Init());
    RunInv(Init(), actions);
  }

  /** What each report says, in terms of what was notified: an error carries the engine's
      code and the first 511 characters of its message, everything else code 0 and no text. */
  lemma ReportSays(s: State, i: nat)
    requires IsReachable(s) && i < |s.log|
    ensures |s.reporters| == |s.log| && s.reporters[i] < |s.activities|
    ensures match s.activities[s.reporters[i]].work
            case Stop => s.log[i] == Event(EVENT_STOPPED, 0, [])
            case Notified(n) =>
              (match n
               case LoadedMetadata => s.log[i] == Event(EVENT_READY, 0, [])
               case CanPlay => s.log[i] == Event(EVENT_READY, 0, [])
               case NowPlaying => s.log[i] == Event(EVENT_PLAYING, 0, [])
               case NowPaused => s.log[i] == Event(EVENT_PAUSED, 0, [])
               case Waiting => s.log[i] == Event(EVENT_BUFFERING, 0, [])
               case BufferingStarted => s.log[i] == Event(EVENT_BUFFERING, 0, [])
               case BufferingEnded => s.log[i] == Event(EVENT_READY, 0, [])
               case CanPlayThrough => s.log[i] == Event(EVENT_READY, 0, [])
               case AtEnd => s.log[i] == Event(EVENT_ENDED, 0, [])
               case FormatChange => s.log[i] == Event(EVENT_FORMAT_CHANGED, 0, [])
               case TracksChange => s.log[i] == Event(EVENT_FORMAT_CHANGED, 0, [])
               case MediaError(code, message) =>
                 s.log[i] == Event(EVENT_ERROR, code, message[..Min(|message|, 511)])
               case Other => false)
            case _ => false
  {
    ReachableInv(s);
    assert Report(s.activities[s.reporters[i]].work) == Some(s.log[i]);
  }

  /** What the state is, in terms of who stored it last. */
  lemma StateSays(s: State)
    requires IsReachable(s)
    ensures s.stores == [] ==> s.state == Empty
    ensures s.stores != [] ==>
              var t := s.stores[|s.stores| - 1];
              && t < |s.activities|
              && match s.activities[t].work
                 case Play => s.state == Playing
                 case Pause => s.state == Paused
                 case Stop => s.state == Stopped
                 case Attach => s.state == Loading
                 case GiveUp => false
                 case Close => s.state == Closed
                 case Notified(n) =>
                   match n
                   case LoadedMetadata => s.state == Ready
                   case CanPlay => s.state == Ready
                   case NowPlaying => s.state == Playing
                   case NowPaused => s.state == Paused
                   case Waiting => s.state == Buffering
                   case BufferingStarted => s.state == Buffering
                   case BufferingEnded => s.state == Ready
                   case CanPlayThrough => s.state == Ready
                   case AtEnd => s.state == Ended
                   case MediaError(_, _) => s.state == Failed
                   case _ => false
  {
    ReachableInv(s);
  }

  /** An attach is taken up only when the last store was not one of playing or buffering. */
  lemma NoAttachDuringPlayback(s: State)
    requires IsReachable(s) && Enabled(s, Begin(Attach)) && s.stores != []
    ensures var t := s.stores[|s.stores| - 1];
            && t < |s.activities|
            && s.activities[t].work !in {Play, Notified(NowPlaying), Notified(Waiting), Notified(BufferingStarted)}
  {
    StateSays(s);
  }

  /** Without an engine, after an attach that failed, nothing plays, pauses or stops: once
      everything has ended only an attach or a close can begin. */
  lemma NoEngineNoCalls(s: State, a: Action)
    requires IsReachable(s) && !s.engine && Enabled(s, a)
    requires forall t | 0 <= t < |s.activities| :: s.activities[t].stage == Finished
    ensures a == Begin(Attach) || a == Begin(Close)
  {
  }

  /** Nothing gets lost: once a callback or a call has ended it has stored and reported what
      it is there for. Only a pause may do neither, and an attach without an engine. */
  lemma EndedHasActed(s: State, t: nat)
    requires IsReachable(s) && At(s, t, Finished)
    ensures match s.activities[t].work
            case Play => t in s.stores && t !in s.reporters
            case Pause => t in s.stores && t !in s.reporters
            case Stop => t in s.stores && t in s.reporters
            case Attach => t !in s.reporters
            case GiveUp => t !in s.stores && t !in s.reporters
            case Close => t in s.stores && t !in s.reporters
            case Notified(n) =>
              if n.NowPaused? then t in s.stores <==> t in s.reporters
              else if n.FormatChange? || n.TracksChange? then t !in s.stores && t in s.reporters
              else if n.Other? then t !in s.stores && t !in s.reporters
              else t in s.stores && t in s.reporters
  {
    ReachableInv(s);
    assert Sound(s.activities[t], t in s.stores, t in s.reporters);
  }

  // ----- attach and close wait for the callbacks

  predicate Api(s: State, t: nat) {
    t < |s.activities| && !s.activities[t].work.Notified?
  }

  predicate Callback(s: State, t: nat) {
    t < |s.activities| && s.activities[t].work.Notified?
  }

  /** An engine was connected, or given up, for `t` only once every callback begun before it
      had ended. */
  predicate Separated(s: State, u: nat, t: nat)
    requires u < |s.activities| && t < |s.activities|
  {
    && (s.activities[t].work == Attach && (s.activities[t].stage == Storing || t in s.stores) && u < t ==>
          s.activities[u].stage == Finished)
    && (s.activities[t].work == Close && s.activities[t].stage == Finished ==>
          !s.engine && s.activities[u].stage == Finished)
  }

  /** One API call runs at a time, and none after a close. */
  predicate Sequential(s: State, u: nat, t: nat)
    requires u < |s.activities| && t < |s.activities|
  {
    u < t ==> s.activities[u].stage == Finished && s.activities[u].work != Close
  }

  ghost predicate Ordered(s: State) {
    && (forall u: nat, t: nat :: Callback(s, u) && Api(s, t) ==> Separated(s, u, t))
    && (forall u: nat, t: nat :: Api(s, u) && Api(s, t) ==> Sequential(s, u, t))
    && (forall t: nat :: Api(s, t) && s.activities[t] == Activity(Close, Finished) ==> !s.engine)
    && (forall t: nat | t in s.stores :: t < |s.activities|)
  }

  lemma OrderedStep(s: State, a: Action)
    requires Inv(s) && Ordered(s) && Enabled(s, a)
    ensures Ordered(Next(s, a))
  {
    var s' := Next(s, a);
    forall u: nat, t: nat | Api(s', u) && Api(s', t)
      ensures Sequential(s', u, t)
    {
      if t < |s.activities| && u < |s.activities| {
        assert Sequential(s, u, t);
      }
    }
    hide Target, Report;
    forall u: nat, t: nat | Callback(s', u) && Api(s', t)
      ensures Separated(s', u, t)
    {
      SeparatedStep(s, a, u, t);
    }
    forall t: nat | Api(s', t) && s'.activities[t] == Activity(Close, Finished)
      ensures !s'.engine
    {
      EngineStays(s, a, t);
    }
  }

  lemma SeparatedStep(s: State, a: Action, u: nat, t: nat)
    requires Inv(s) && Ordered(s) && Enabled(s, a) && Callback(Next(s, a), u) && Api(Next(s, a), t)
    ensures Separated(Next(s, a), u, t)
  {
    if u < |s.activities| && t < |s.activities| {
      assert Separated(s, u, t);
    }
    if t < |s.activities| {
      assert Api(s, t);
      assert Sound(s.activities[t], t in s.stores, t in s.reporters);
    }
    if !a.Begin? && Api(s, a.id) && Api(s, t) {
      assert Sequential(s, t, a.id) && Sequential(s, a.id, t);
    }
  }

  lemma EngineStays(s: State, a: Action, t: nat)
    requires Inv(s) && Ordered(s) && Enabled(s, a) && t < |Next(s, a).activities|
    requires Next(s, a).activities[t] == Activity(Close, Finished)
    ensures !Next(s, a).engine
  {
    if t < |s.activities| {
      assert Sound(s.activities[t], t in s.stores, t in s.reporters);
      if s.activities[t] == Activity(Close, Finished) {
        assert Api(s, t);
        if a.Drain? {
          assert Sequential(s, t, a.id) && Sequential(s, a.id, t);
        }
      }
    }
  }

  lemma {:induction false} RunOrdered(s: State, actions: seq<Action>)
    requires Inv(s) && Ordered(s) && Run(s, actions).Some?
    ensures Ordered(Run(s, actions).value)
    decreases |actions|
  {
    hide Ordered, Inv, Next, Enabled;
    if actions != [] {
      RunOrdered(s, actions[..|actions| - 1]);
      RunInv(s, actions[..|actions| - 1]);
      OrderedStep(Run(s, actions[..|actions| - 1]).value, actions[|actions| - 1]);
    }
  }

  lemma ReachableOrdered(s: State)
    requires IsReachable(s)
    ensures Ordered(s)
  {
    var actions :| Run(Init(), actions) == Some(s);
    assert Inv(Init()) && Ordered(Init());
    RunOrdered(Init(), actions);
  }

  /** Once an attach has connected its engine, and so from before it stores LOADING, every
      callback that began before the attach has ended: nothing the old engine said is stored
      or reported any more. */
  lemma AttachWaits(s: State, u: nat, t: nat)
    requires IsReachable(s) && Callback(s, u) && u < t && Api(s, t) && s.activities[t].work == Attach
    requires s.activities[t].stage == Storing || t in s.stores
    ensures s.activities[u].stage == Finished
  {
    ReachableOrdered(s);
    assert Separated(s, u, t);
  }

  /** After a close has ended nothing moves any more. */
  lemma CloseIsFinal(s: State, t: nat, a: Action)
    requires IsReachable(s) && Api(s, t) && s.activities[t] == Activity(Close, Finished)
    ensures !Enabled(s, a)
  {
    ReachableOrdered(s);
    if !a.Begin? && a.id < |s.activities| {
      if Callback(s, a.id) {
        assert Separated(s, a.id, t);
      } else {
        assert Sequential(s, t, a.id) && Sequential(s, a.id, t);
      }
    }
  }

  // ----- what an observer of the events knows

  /** The state that an event names. */
  function Names(e: Event): Option<PlayerState> {
    if e.kind == EVENT_READY then Some(Ready)
    else if e.kind == EVENT_PLAYING then Some(Playing)
    else if e.kind == EVENT_PAUSED then Some(Paused)
    else if e.kind == EVENT_STOPPED then Some(Stopped)
    else if e.kind == EVENT_BUFFERING then Some(Buffering)
    else if e.kind == EVENT_ENDED then Some(Ended)
    else if e.kind == EVENT_ERROR then Some(Failed)
    else None
  }

  lemma ReportNamesTarget(w: Work)
    requires Report(w).Some?
    ensures Names(Report(w).value) == Target(w)
  {
  }

  /** The state that the last state-bearing event names. */
  function LastNamed(log: seq<Event>): Option<PlayerState> {
    if log == [] then None
    else if Names(log[|log| - 1]).Some? then Names(log[|log| - 1])
    else LastNamed(log[..|log| - 1])
  }

  lemma LastNamedSnoc(log: seq<Event>, e: Event)
    ensures LastNamed(log + [e]) == if Names(e).Some? then Names(e) else LastNamed(log)
  {
    assert (log + [e])[..|log|] == log;
  }

  predicate Agree(s: State) {
    LastNamed(s.log) == Some(s.state)
  }

  /** `t` stands between its store and its report. */
  predicate Pending(s: State, t: nat) {
    At(s, t, Pushing) && Target(s.activities[t].work).Some?
  }

  ghost predicate Quiet(s: State) {
    forall t: nat :: !Pending(s, t)
  }

  predicate StoreFree(actions: seq<Action>) {
    forall a | a in actions :: !a.StoreState?
  }

  /** A way of going on from `s` in which nothing more is stored and every report that is
      due gets pushed. New callbacks may arrive meanwhile. */
  ghost predicate Settles(s: State, actions: seq<Action>) {
    StoreFree(actions) && Run(s, actions).Some? && Quiet(Run(s, actions).value)
  }

  /** Every report that is still due names the present state; and one is due, or the last
      event names it already. */
  ghost predicate InTune(s: State) {
    && (forall t: nat :: Pending(s, t) ==> Target(s.activities[t].work) == Some(s.state))
    && ((exists t: nat :: Pending(s, t)) || Agree(s))
  }

  /** When the events tell the state: from any reachable state, all ways of settling end
      with the last event naming the player's state if and only if the reports that are due
      all name it, and there is one or the last event names it already. */
  lemma {:induction false} AgreeExactly(s: State)
    requires IsReachable(s)
    ensures (forall actions :: Settles(s, actions) ==> Agree(Run(s, actions).value)) <==> InTune(s)
  {
    ReachableInv(s);
    if InTune(s) {
      forall actions | Settles(s, actions)
        ensures Agree(Run(s, actions).value)
      {
        TuneRun(s, actions);
      }
    } else if t: nat :| Pending(s, t) && Target(s.activities[t].work) != Some(s.state) {
      LastWord(s, t);
    } else {
      assert Settles(s, []);
    }
  }

  lemma {:induction false} TuneRun(s: State, actions: seq<Action>)
    requires Inv(s) && InTune(s) && StoreFree(actions) && Run(s, actions).Some?
    ensures InTune(Run(s, actions).value)
    decreases |actions|
  {
    if actions != [] {
      var init, a := actions[..|actions| - 1], actions[|actions| - 1];
      assert a in actions && StoreFree(init);
      TuneRun(s, init);
      RunInv(s, init);
      TuneStep(Run(s, init).value, a);
    }
  }

  lemma TuneStep(s: State, a: Action)
    requires Inv(s) && InTune(s) && Enabled(s, a) && !a.StoreState?
    ensures InTune(Next(s, a))
  {
    hide Inv, Target, Report, After;
    if a.PushEvent? {
      TunePush(s, a.id);
    } else {
      SamePending(s, a);
      hide Enabled, Pending, LastNamed;
      assert Next(s, a).state == s.state && Next(s, a).log == s.log;
    }
  }

  lemma SamePending(s: State, a: Action)
    requires Inv(s) && Enabled(s, a) && !a.StoreState? && !a.PushEvent?
    ensures forall t: nat :: Pending(Next(s, a), t) <==> Pending(s, t)
    ensures forall t: nat :: Pending(s, t) ==> Next(s, a).activities[t] == s.activities[t]
  {
    hide Inv;
  }

  lemma TunePush(s: State, t: nat)
    requires InTune(s) && Enabled(s, PushEvent(t))
    ensures InTune(Next(s, PushEvent(t)))
  {
    var s' := Next(s, PushEvent(t));
    PushNames(s, t);
    hide Target, Report, LastNamed;
    assert forall u: nat :: Pending(s', u) <==> Pending(s, u) && u != t;
    if Pending(s, t) {
      assert Target(s.activities[t].work) == Some(s.state);
    }
  }

  lemma PushNames(s: State, t: nat)
    requires Enabled(s, PushEvent(t))
    ensures LastNamed(Next(s, PushEvent(t)).log)
            == if Target(s.activities[t].work).Some? then Target(s.activities[t].work) else LastNamed(s.log)
  {
    LastNamedSnoc(s.log, Report(s.activities[t].work).value);
    ReportNamesTarget(s.activities[t].work);
  }

  /** Any report that is due can be the last one. */
  lemma {:induction false} LastWord(s: State, t: nat)
    requires Inv(s) && Pending(s, t)
    ensures exists actions :: Settles(s, actions)
              && Run(s, actions).value.state == s.state
              && LastNamed(Run(s, actions).value.log) == Target(s.activities[t].work)
  {
    var actions, u := PushOthers(s, t);
    RunSnoc(s, actions, u, PushEvent(t));
    PushNames(u, t);
    assert forall v: nat :: Pending(Next(u, PushEvent(t)), v) ==> Pending(u, v) && v != t;
    assert Settles(s, actions + [PushEvent(t)]);
  }

  /** Push every report that is due but the one of `t`. */
  lemma {:induction false} PushOthers(s: State, t: nat) returns (actions: seq<Action>, u: State)
    requires Inv(s) && Pending(s, t)
    ensures StoreFree(actions) && Run(s, actions) == Some(u)
    ensures Pending(u, t) && u.activities[t] == s.activities[t] && u.state == s.state
    ensures forall v: nat :: Pending(u, v) ==> v == t
    ensures Inv(u)
  {
    actions, u := [], s;
    while exists v: nat :: v != t && Pending(u, v)
      invariant StoreFree(actions) && Run(s, actions) == Some(u) && Inv(u)
      invariant Pending(u, t) && u.activities[t] == s.activities[t] && u.state == s.state
      decreases |Due(u)|
    {
      var v: nat :| v != t && Pending(u, v);
      hide Inv, Run, Next, Enabled;
      var w := PushOther(u, t, v);
      StepInv(u, PushEvent(v));
      RunSnoc(s, actions, u, PushEvent(v));
      actions, u := actions + [PushEvent(v)], w;
    }
  }

  lemma PushOther(u: State, t: nat, v: nat) returns (w: State)
    requires Inv(u) && Pending(u, t) && Pending(u, v) && v != t
    ensures Enabled(u, PushEvent(v)) && w == Next(u, PushEvent(v))
    ensures Pending(w, t) && w.activities[t] == u.activities[t] && w.state == u.state
    ensures Due(w) == Due(u) - {v}
  {
    assert Sound(u.activities[v], v in u.stores, v in u.reporters);
    hide Sound, StateOk, LogOk, Target, Report;
    w := Next(u, PushEvent(v));
  }

  function Due(s: State): set<nat> {
    set v | 0 <= v < |s.activities| && Pending(s, v)
  }

  /** The same at the store that turns out to be the last, in terms of what holds before it:
      from then on the events tell the state, however the threads are scheduled, if and
      only if every callback that stands between its own store and its report named the
      same state, and there is a report to come or the last event names that state. */
  lemma LastStoreDecides(s: State, t: nat)
    requires IsReachable(s) && Enabled(s, StoreState(t))
    ensures var w, s' := s.activities[t].work, Next(s, StoreState(t));
            (forall actions :: Settles(s', actions) ==> Agree(Run(s', actions).value))
            <==>
            && (forall u: nat :: Pending(s, u) ==> Target(s.activities[u].work) == Target(w))
            && (Report(w).Some? || (exists u: nat :: Pending(s, u)) || LastNamed(s.log) == Target(w))
  {
    var w, s' := s.activities[t].work, Next(s, StoreState(t));
    var actions :| Run(Init(), actions) == Some(s);
    RunSnoc(Init(), actions, s, StoreState(t));
    assert IsReachable(s');
    AgreeExactly(s');
    assert forall u: nat :: Pending(s', u) <==> Pending(s, u) || (u == t && Report(w).Some?);
    assert Report(w).Some? ==> Pending(s', t);
  }

  // ----- the pause that carries out a stop

  /** How far a callback that has passed its check can have come. */
  predicate Reporting(s: State, t: nat) {
    At(s, t, Storing) || At(s, t, Pushing) || (At(s, t, Finished) && t in s.reporters)
  }

  /** The last store so far was a stop's. */
  predicate StopStoredLast(s: State) {
    s.stores != [] && s.stores[|s.stores| - 1] < |s.activities| && s.activities[s.stores[|s.stores| - 1]].work == Stop
  }

  ghost predicate Fated(s: State, e: State, t: nat)
    requires t < |s.activities|
  {
    && t < |e.activities| && e.activities[t].work == s.activities[t].work
    && (At(s, t, Finished) && t !in s.reporters ==> At(e, t, Finished) && t !in e.reporters)
    && (Reporting(s, t) ==> Reporting(e, t))
  }

  lemma {:induction false} CallbackFate(s: State, actions: seq<Action>, t: nat)
    requires Run(s, actions).Some? && t < |s.activities| && s.activities[t].work == Notified(NowPaused)
    ensures Fated(s, Run(s, actions).value, t)
    decreases |actions|
  {
    if actions != [] {
      CallbackFate(s, actions[..|actions| - 1], t);
      var before, a := Run(s, actions[..|actions| - 1]).value, actions[|actions| - 1];
      FateStep(before, a, t);
      hide Run, Next, Enabled;
    }
  }

  lemma FateStep(s: State, a: Action, t: nat)
    requires Enabled(s, a) && t < |s.activities| && s.activities[t].work == Notified(NowPaused)
    ensures Fated(s, Next(s, a), t)
  {
    hide Target;
  }

  /** Exactly when a pause goes unreported, over every run: a PAUSE callback that has run to
      its end pushed no event if and only if, when it checked the state, the last store
      before that was a stop's. A stop whose store comes after the check, or one that some
      other store followed, does not hold the report back. */
  lemma PauseUnreported(s: State, t: nat, actions: seq<Action>)
    requires IsReachable(s) && Enabled(s, Check(t)) && Run(Next(s, Check(t)), actions).Some?
    requires At(Run(Next(s, Check(t)), actions).value, t, Finished)
    ensures t !in Run(Next(s, Check(t)), actions).value.reporters
            <==> StopStoredLast(s)
  {
    ReachableInv(s);
    StepInv(s, Check(t));
    CallbackFate(Next(s, Check(t)), actions, t);
    assert Sound(s.activities[t], t in s.stores, t in s.reporters);
    if s.stores != [] {
      assert s.stores[|s.stores| - 1] in s.stores;
      OnlyStopStoresStopped(s.activities[s.stores[|s.stores| - 1]].work);
    }
  }

  lemma OnlyStopStoresStopped(w: Work)
    ensures Target(w) == Some(Stopped) <==> w == Stop
  {
  }

  // ----- four runs

  const READY := Stored(EVENT_READY, 0, [])
  const PLAYING := Stored(EVENT_PLAYING, 0, [])
  const PAUSED := Stored(EVENT_PAUSED, 0, [])
  const STOPPED := Stored(EVENT_STOPPED, 0, [])

  function Done(w: Work): Activity {
    Activity(w, Finished)
  }

  lemma Extend(actions: seq<Action>, s: State, a: Action) returns (more: seq<Action>, u: State)
    requires Run(Init(), actions) == Some(s) && Enabled(s, a)
    ensures u == Next(s, a) && Run(Init(), more) == Some(u)
  {
    RunSnoc(Init(), actions, s, a);
    more, u := actions + [a], Next(s, a);
  }

  /** A player that has been opened and reported that it plays. */
  lemma PlayingPlayer() returns (actions: seq<Action>, s: State)
    ensures Run(Init(), actions) == Some(s)
    ensures s == State(Playing, [Done(Attach), Done(Notified(NowPlaying))], true, [0, 1], [1], [PLAYING])
  {
    actions, s := Extend([], Init(), StoreState(0));
    hide Run;
    actions, s := Extend(actions, s, Begin(Notified(NowPlaying)));
    actions, s := Extend(actions, s, StoreState(1));
    actions, s := Extend(actions, s, PushEvent(1));
  }

  /** A pause can overtake the stop that caused it: the callback checks the state, the stop
      stores STOPPED and reports it, and then the callback stores and reports PAUSED. The
      player ends up paused after a stop that succeeded. */
  lemma PauseAfterStop() returns (actions: seq<Action>, s: State)
    ensures Run(Init(), actions) == Some(s) && Quiet(s)
    ensures s.activities == [Done(Attach), Done(Notified(NowPlaying)), Done(Stop), Done(Notified(NowPaused))]
    ensures s.log == [PLAYING, STOPPED, PAUSED] && s.state == Paused
  {
    actions, s := PlayingPlayer();
    hide Run;
    var before := s.activities;
    actions, s := Extend(actions, s, Begin(Stop));
    assert s == State(Playing, before + [Activity(Stop, Storing)], true, [0, 1], [1], [PLAYING]);
    actions, s := Extend(actions, s, Begin(Notified(NowPaused)));
    actions, s := Extend(actions, s, Check(3));
    assert s == State(Playing, before + [Activity(Stop, Storing), Activity(Notified(NowPaused), Storing)],
        true, [0, 1], [1], [PLAYING]);
    actions, s := Extend(actions, s, StoreState(2));
    actions, s := Extend(actions, s, PushEvent(2));
    assert s == State(Stopped, before + [Done(Stop), Activity(Notified(NowPaused), Storing)],
        true, [0, 1, 2], [1, 2], [PLAYING, STOPPED]);
    actions, s := Extend(actions, s, StoreState(3));
    actions, s := Extend(actions, s, PushEvent(3));
  }

  /** Even without overtaking it: the stop pauses the engine before it stores STOPPED, and a
      callback that runs in between reports the pause as one. */
  lemma PauseBeforeStop() returns (actions: seq<Action>, s: State)
    ensures Run(Init(), actions) == Some(s) && Quiet(s)
    ensures s.activities == [Done(Attach), Done(Notified(NowPlaying)), Done(Stop), Done(Notified(NowPaused))]
    ensures s.log == [PLAYING, PAUSED, STOPPED] && s.state == Stopped
  {
    actions, s := PlayingPlayer();
    hide Run;
    var before := s.activities;
    actions, s := Extend(actions, s, Begin(Stop));
    assert s == State(Playing, before + [Activity(Stop, Storing)], true, [0, 1], [1], [PLAYING]);
    actions, s := Extend(actions, s, Begin(Notified(NowPaused)));
    actions, s := Extend(actions, s, Check(3));
    actions, s := Extend(actions, s, StoreState(3));
    assert s == State(Paused, before + [Activity(Stop, Storing), Activity(Notified(NowPaused), Pushing)],
        true, [0, 1, 3], [1], [PLAYING]);
    actions, s := Extend(actions, s, PushEvent(3));
    assert s == State(Paused, before + [Activity(Stop, Storing), Done(Notified(NowPaused))],
        true, [0, 1, 3], [1, 3], [PLAYING, PAUSED]);
    actions, s := Extend(actions, s, StoreState(2));
    actions, s := Extend(actions, s, PushEvent(2));
  }

  /** Two callbacks can cross: the first stores READY, the second stores PLAYING and reports
      it, and then the first reports READY. The player plays and its last event denies it. */
  lemma ReportsCross() returns (actions: seq<Action>, s: State)
    ensures Run(Init(), actions) == Some(s) && Quiet(s)
    ensures s.activities == [Done(Attach), Done(Notified(CanPlay)), Done(Notified(NowPlaying))]
    ensures s.log == [PLAYING, READY] && s.state == Playing && !Agree(s)
  {
    actions, s := TwoStored();
    hide Run, LastNamed;
    actions, s := Extend(actions, s, PushEvent(2));
    assert s.log == [PLAYING];
    actions, s := Extend(actions, s, PushEvent(1));
    LastNamedSnoc([PLAYING], READY);
  }

  lemma TwoStored() returns (actions: seq<Action>, s: State)
    ensures Run(Init(), actions) == Some(s)
    ensures s == State(Playing, [Done(Attach), Activity(Notified(CanPlay), Pushing),
        Activity(Notified(NowPlaying), Pushing)], true, [0, 1, 2], [], [])
  {
    actions, s := Extend([], Init(), StoreState(0));
    hide Run;
    actions, s := Extend(actions, s, Begin(Notified(CanPlay)));
    actions, s := Extend(actions, s, Begin(Notified(NowPlaying)));
    assert s == State(Loading, [Done(Attach), Activity(Notified(CanPlay), Storing),
        Activity(Notified(NowPlaying), Storing)], true, [0], [], []);
    actions, s := Extend(actions, s, StoreState(1));
    actions, s := Extend(actions, s, StoreState(2));
  }

  /** The opening thread can overwrite readiness: the engine reports READY before LOADING is
      stored, and the player stays loading with no event left to come. */
  lemma ReadyThenLoading() returns (actions: seq<Action>, s: State)
    ensures Run(Init(), actions) == Some(s) && Quiet(s)
    ensures s.activities == [Done(Attach), Done(Notified(LoadedMetadata))]
    ensures s.log == [READY] && s.state == Loading && !Agree(s)
  {
    actions, s := Extend([], Init(), Begin(Notified(LoadedMetadata)));
    actions, s := Extend(actions, s, StoreState(1));
    actions, s := Extend(actions, s, PushEvent(1));
    actions, s := Extend(actions, s, StoreState(0));
  }

  // ----- the same on a real player

  lemma {:induction false} PrefixRuns(s: State, actions: seq<Action>, k: nat)
    requires k <= |actions| && Run(s, actions).Some?
    ensures Run(s, actions[..k]).Some?
    decreases |actions|
  {
    if k == |actions| {
      assert actions[..k] == actions;
    } else {
      assert actions[..|actions| - 1][..k] == actions[..k];
      PrefixRuns(s, actions[..|actions| - 1], k);
    }
  }

  /** The next access of one activity. */
  method Access(player: Player, w: Work, stage: Stage) returns (next: Stage)
    requires player.Valid() && CStringWork(w) && CanBe(w, stage)
    requires stage == Checking || stage == Storing || stage == Pushing
    modifies player`head, player`size, player`queue, player`state, player.slots
    ensures player.Valid() && next == After(w, stage, old(player.state))
    ensures player.state == if stage == Storing then Target(w).value else old(player.state)
    ensures player.queue ==
            if stage == Pushing then EventQueue.Push(old(player.queue), Report(w).value) else old(player.queue)
  {
    if w.Notified? {
      next := player.PlayerEvent(w.n, stage);
    } else {
      next := player.ApiCall(w, stage);
    }
  }

  /** Any interleaving, carried out access by access on one player: its state is the last
      one stored and its ring holds the last 64 events of the log. */
  method Interleave(actions: seq<Action>) returns (player: Player, ghost end: State)
    requires Run(Init(), actions).Some?
    requires forall a | a in actions && a.Begin? :: CStringWork(a.work)
    ensures fresh(player) && player.Valid() && Run(Init(), actions) == Some(end)
    ensures player.state == end.state && player.queue == PushAll([], end.log)
  {
    hide PushAll, EventQueue.Push;
    player := new Player();
    PushAllOne([], Event(0, 0, []));
    var activities := [Activity(Attach, Storing)];
    end := Init();
    assert Inv(end);
    var i := 0;
    while i < |actions|
      invariant i <= |actions| && player.Valid() && fresh(player) && fresh(player.slots)
      invariant Run(Init(), actions[..i]) == Some(end) && Inv(end)
      invariant activities == end.activities && player.state == end.state && player.queue == PushAll([], end.log)
      invariant forall t | 0 <= t < |activities| :: CStringWork(activities[t].work)
    {
      var a := actions[i];
      assert a in actions && actions[..i + 1][..i] == actions[..i];
      PrefixRuns(Init(), actions, i + 1);
      assert Enabled(end, a) && Run(Init(), actions[..i + 1]) == Some(Next(end, a));
      hide Run, Next, Enabled;
      activities := Perform(player, activities, end, a);
      StepInv(end, a);
      end := Next(end, a);
      i := i + 1;
    }
    assert actions[..i] == actions;
  }

  /** One step of the thread that is scheduled next. */
  method Perform(player: Player, before: seq<Activity>, ghost s: State, a: Action) returns (activities: seq<Activity>)
    requires player.Valid() && Inv(s) && Enabled(s, a) && (a.Begin? ==> CStringWork(a.work))
    requires before == s.activities && player.state == s.state && player.queue == PushAll([], s.log)
    requires forall t | 0 <= t < |before| :: CStringWork(before[t].work)
    modifies player`head, player`size, player`queue, player`state, player.slots
    ensures player.Valid() && activities == Next(s, a).activities
    ensures player.state == Next(s, a).state && player.queue == PushAll([], Next(s, a).log)
    ensures forall t | 0 <= t < |activities| :: CStringWork(activities[t].work)
  {
    PushedLater(s, a);
    if a.Begin? {
      return before + [Activity(a.work, FirstStage(a.work))];
    }
    assert Sound(s.activities[a.id], a.id in s.stores, a.id in s.reporters);
    hide Inv, PushAll, EventQueue.Push, Report, Target, CStringWork, RingHolds;
    var w := before[a.id].work;
    if a.Check? || a.StoreState? || a.PushEvent? {
      var next := Access(player, w, before[a.id].stage);
      activities := before[a.id := Activity(w, next)];
    } else if a.Drain? {
      activities := before[a.id := Activity(w, if a.ok then Storing else Finished)];
    } else {
      assert CStringWork(GiveUp) by { GiveUpIsCString(); }
      activities := before[a.id := Activity(GiveUp, Draining)];
    }
  }

  lemma GiveUpIsCString()
    ensures CStringWork(GiveUp)
  {
  }

  /** A caller who polls after any interleaving gets the oldest of the last 64 events; an
      error comes with its code and as much of its message as fits. */
  method PollAfter(actions: seq<Action>, capacity: int) returns (output: Option<Event>)
    requires Run(Init(), actions).Some?
    requires forall a | a in actions && a.Begin? :: CStringWork(a.work)
    ensures var end := Run(Init(), actions).value;
            && output == (if end.log == [] then None else Some(Delivered(end.log[Oldest(end)], capacity)))
            && (end.log != [] && capacity > 0 ==>
                  && Oldest(end) < |end.reporters|
                  && DeliversError(end, end.reporters[Oldest(end)], output, capacity))
  {
    hide CStringWork, PushAll, Delivered, Run, DeliversError;
    var player, end := Interleave(actions);
    assert IsReachable(end);
    LastOfLog(end.log);
    output := Take(player, capacity);
    if end.log != [] && capacity > 0 {
      ErrorDelivered(end, Oldest(end), capacity);
    }
  }

  /** What arrives when `t` reported an error and the caller's buffer has this capacity. */
  predicate DeliversError(s: State, t: nat, output: Option<Event>, capacity: int)
    requires capacity > 0
  {
    t < |s.activities| && (s.activities[t].work.Notified? && s.activities[t].work.n.MediaError? ==>
      var n := s.activities[t].work.n;
      output == Some(Event(EVENT_ERROR, n.code, n.message[..Min(|n.message|, Min(511, capacity - 1))])))
  }

  lemma LastOfLog(log: seq<Event>)
    ensures PushAll([], log) == if |log| <= 64 then log else log[|log| - 64..]
  {
    PushAllKeepsLast([], log);
    assert [] + log == log;
  }

  lemma ErrorDelivered(s: State, i: nat, capacity: int)
    requires IsReachable(s) && i < |s.log| && capacity > 0
    ensures |s.reporters| == |s.log|
    ensures DeliversError(s, s.reporters[i], Some(Delivered(s.log[i], capacity)), capacity)
  {
    ReportSays(s, i);
    var t := s.reporters[i];
    if s.activities[t].work.Notified? && s.activities[t].work.n.MediaError? {
      CutTwice(s.activities[t].work.n.message, capacity);
    }
  }

  lemma CutTwice(text: Text, capacity: int)
    requires capacity > 0
    ensures var cut := text[..Min(|text|, 511)];
            cut[..Min(|cut|, capacity - 1)] == text[..Min(|text|, Min(511, capacity - 1))]
  {
  }

  /** The oldest event that is still queued when nobody has polled. */
  function Oldest(s: State): nat {
    if |s.log| <= 64 then 0 else |s.log| - 64
  }

  lemma PushedLater(s: State, a: Action)
    requires Enabled(s, a)
    ensures PushAll([], Next(s, a).log)
            == if a.PushEvent? then EventQueue.Push(PushAll([], s.log), Report(s.activities[a.id].work).value)
               else PushAll([], s.log)
  {
    if a.PushEvent? {
      var e := Report(s.activities[a.id].work).value;
      PushAllAppend([], s.log, [e]);
      PushAllOne(PushAll([], s.log), e);
    }
  }
}
