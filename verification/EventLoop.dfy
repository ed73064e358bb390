/**
 The event loop's task queue and its wakeup protocol, as a state machine. One event is one
 atomic step of one thread: a push under the mutex, a write to or a read from the event
 descriptor, the swap of the queue, the start of one functor. Any interleaving is a run.
 */
module EventLoop {
  import opened Sequences

  type Task = nat
  type Thread = nat

  /** Where the loop thread stands in `loop` and `doPendingFunctors`. */
  datatype Place =
    | Outside                                     // not in `loop`
    | Checking                                    // about to test `quit_`
    | Polling                                     // in `poll`
    | Handling(wakeActive: bool)                  // running handlers; is the wakeup channel among them?
    | Swapping                                    // flag set, queue not yet swapped
    | Running(batch: seq<Task>, busy: bool)       // rest of the swapped batch; is a functor executing?

  /** What another thread has done and not yet followed by its write to the event descriptor. */
  datatype Debt = Pushed | QuitSet

  datatype State = State(
    pending: seq<Task>,                           // pendingFunctors_
    counter: nat,                                 // the event descriptor's counter
    calling: bool,                                // callingPendingFunctors_
    quit: bool,                                   // quit_
    place: Place,
    selfOwes: bool,                               // the loop thread pushed and must still wake itself
    owing: map<Thread, Debt>,                     // other threads between their update and their wakeup
    log: seq<Task>,                               // every queueInLoop, in order of the pushes
    ran: seq<Task>,                               // every functor started, in order
    mark: nat,                                    // length of the log at the last swap
    unwoken: bool)                                // since the last swap, a push outside `loop` got no wakeup

  /** An eventfd holds at most 2^64 - 2; a non-blocking write beyond that fails and changes nothing. */
  const MAX_COUNTER: nat := 0xffff_ffff_ffff_fffe

  function Bump(c: nat): (c': nat)
    ensures c' > 0 && c' >= c
  {
    if c < MAX_COUNTER then c + 1 else c
  }

  datatype Event =
    | OtherPush(th: Thread, t: Task)
    | OtherQuit(th: Thread)
    | OtherWake(th: Thread)
    | SelfPush(t: Task)
    | SelfWake
    | SelfQuit
    | StartLoop
    | CheckQuit
    | PollReturns(sees: bool)                     // the wakeup channel is active; never if `poll` fails
    | HandleRead
    | BeginPending
    | Swap
    | RunNext
    | FunctorEnds
    | EndPending

  /** The loop thread is executing user code: before `loop`, in a handler, or in a functor. */
  predicate InUserCode(p: Place) {
    p.Outside? || p.Handling? || (p.Running? && p.busy)
  }

  predicate Enabled(s: State, e: Event) {
    match e
    case OtherPush(th, _) => th !in s.owing
    case OtherQuit(th) => th !in s.owing
    case OtherWake(th) => th in s.owing
    case SelfPush(_) => !s.selfOwes && InUserCode(s.place)
    case SelfWake => s.selfOwes
    case SelfQuit => !s.selfOwes && InUserCode(s.place)
    case StartLoop => !s.selfOwes && s.place.Outside?
    case CheckQuit => s.place.Checking?
    case PollReturns(sees) => s.place.Polling? && (sees ==> s.counter > 0)
    case HandleRead => !s.selfOwes && s.place == Handling(true)
    case BeginPending => !s.selfOwes && s.place == Handling(false)
    case Swap => s.place.Swapping?
    case RunNext => s.place.Running? && !s.place.busy && s.place.batch != []
    case FunctorEnds => !s.selfOwes && s.place.Running? && s.place.busy
    case EndPending => s.place == Running([], false)
  }

  function Apply(s: State, e: Event): State
    requires Enabled(s, e)
  {
    match e
    case OtherPush(th, t) =>
      s.(pending := s.pending + [t], log := s.log + [t], owing := s.owing[th := Pushed])
    case OtherQuit(th) => s.(quit := true, owing := s.owing[th := QuitSet])
    case OtherWake(th) => s.(counter := Bump(s.counter), owing := s.owing - {th})
    case SelfPush(t) =>
      s.(pending := s.pending + [t], log := s.log + [t], selfOwes := s.calling,
         unwoken := s.unwoken || (s.place.Outside? && !s.calling))
    case SelfWake => s.(counter := Bump(s.counter), selfOwes := false)
    case SelfQuit => s.(quit := true)
    case StartLoop => s.(quit := false, place := Checking)
    case CheckQuit => s.(place := if s.quit then Outside else Polling)
    case PollReturns(sees) => s.(place := Handling(sees))
    case HandleRead => s.(counter := 0, place := Handling(false))
    case BeginPending => s.(calling := true, place := Swapping)
    case Swap => s.(pending := [], place := Running(s.pending, false), mark := |s.log|, unwoken := false)
    case RunNext => s.(ran := s.ran + [s.place.batch[0]], place := Running(s.place.batch[1..], true))
    case FunctorEnds => s.(place := Running(s.place.batch, false))
    case EndPending => s.(calling := false, place := Checking)
  }

  /** A fresh loop. The constructor leaves `callingPendingFunctors_` uninitialised, so it is arbitrary. */
  function Fresh(calling: bool): State {
    State([], 0, calling, false, Outside, false, map[], [], [], 0, false)
  }

  /** The states `run` visits under `events`: any interleaving of the threads' steps from a fresh loop. */
  ghost predicate IsRun(run: seq<State>, events: seq<Event>) {
    && |run| == |events| + 1
    && (exists calling :: run[0] == Fresh(calling))
    && forall i :: 0 <= i < |events| ==> StepAt(run, events, i)
  }

  /** Event `i` takes the run from its `i`-th state to the next. */
  ghost predicate StepAt(run: seq<State>, events: seq<Event>, i: nat)
    requires |run| == |events| + 1 && i < |events|
  {
    Enabled(run[i], events[i]) && run[i + 1] == Apply(run[i], events[i])
  }

  // ---------- the invariant ----------

  function Batch(p: Place): seq<Task> {
    if p.Running? then p.batch else []
  }

  ghost predicate SomeoneOwes(s: State, d: Debt) {
    exists th :: th in s.owing && s.owing[th] == d
  }

  /** A wakeup is there or on its way. */
  ghost predicate WakeupComes(s: State, d: Debt) {
    s.counter > 0 || SomeoneOwes(s, d) || s.selfOwes
  }

  /** Started functors, the rest of the batch and the queue are the log, and the mark stands behind the batch. */
  ghost predicate Ordered(s: State) {
    s.log == s.ran + Batch(s.place) + s.pending && s.mark == |s.ran| + |Batch(s.place)|
  }

  /** The calling flag is up while a batch is taken and run, and only user code can owe a wakeup. */
  predicate Flagged(s: State) {
    && (s.place.Swapping? || s.place.Running? ==> s.calling)
    && (s.selfOwes ==> InUserCode(s.place))
  }

  /** An unwoken functor is still queued; a batch leaves none behind. */
  predicate Marked(s: State) {
    (s.unwoken ==> s.pending != []) && (s.place.Running? ==> !s.unwoken)
  }

  /** Queued functors that no swap is about to take have a wakeup coming, unless one was pushed unwoken. */
  ghost predicate WakesForWork(s: State) {
    s.pending != [] && !s.place.Handling? && !s.place.Swapping? ==> s.unwoken || WakeupComes(s, Pushed)
  }

  ghost predicate WakesForQuit(s: State) {
    s.place.Polling? && s.quit ==> WakeupComes(s, QuitSet)
  }

  ghost predicate Inv(s: State) {
    Ordered(s) && Flagged(s) && Marked(s) && WakesForWork(s) && WakesForQuit(s)
  }

  lemma StepKeepsOrdered(s: State, e: Event)
    requires Ordered(s) && Enabled(s, e)
    ensures Ordered(Apply(s, e))
  {
    match e
    case OtherPush(_, t) => Associative(s.ran + Batch(s.place), s.pending, [t]);
    case SelfPush(t) => Associative(s.ran + Batch(s.place), s.pending, [t]);
    case Swap => Emptied(s.ran, s.pending);
    case RunNext => Shifted(s.ran, s.place.batch, s.pending);
    case _ =>
  }

  lemma Emptied(ran: seq<Task>, pending: seq<Task>)
    ensures ran + [] + pending == ran + pending + []
  {
  }

  lemma Shifted(ran: seq<Task>, batch: seq<Task>, pending: seq<Task>)
    requires batch != []
    ensures ran + batch + pending == ran + [batch[0]] + batch[1..] + pending
  {
    assert batch == [batch[0]] + batch[1..];
  }

  lemma StepKeepsFlagged(s: State, e: Event)
    requires Flagged(s) && Enabled(s, e)
    ensures Flagged(Apply(s, e))
  {
  }

  lemma StepKeepsMarked(s: State, e: Event)
    requires Marked(s) && Enabled(s, e)
    ensures Marked(Apply(s, e))
  {
  }

  lemma DebtKept(s: State, e: Event, d: Debt)
    requires Enabled(s, e) && SomeoneOwes(s, d) && !e.OtherWake?
    ensures SomeoneOwes(Apply(s, e), d)
  {
    var th :| th in s.owing && s.owing[th] == d;
    assert th in Apply(s, e).owing && Apply(s, e).owing[th] == d;
  }

  lemma DebtMade(s: State, e: Event)
    requires Enabled(s, e)
    ensures e.OtherPush? ==> SomeoneOwes(Apply(s, e), Pushed)
    ensures e.OtherQuit? ==> SomeoneOwes(Apply(s, e), QuitSet)
  {
    if e.OtherPush? || e.OtherQuit? {
      assert e.th in Apply(s, e).owing;
    }
  }

  /** Only `handleRead` takes a wakeup away. */
  lemma WakeupKept(s: State, e: Event, d: Debt)
    requires Enabled(s, e) && WakeupComes(s, d) && !e.HandleRead?
    ensures WakeupComes(Apply(s, e), d)
  {
    if SomeoneOwes(s, d) && !e.OtherWake? {
      DebtKept(s, e, d);
    }
  }

  lemma StepKeepsWakesForWork(s: State, e: Event)
    requires Flagged(s) && Marked(s) && WakesForWork(s) && Enabled(s, e)
    ensures WakesForWork(Apply(s, e))
  {
    DebtMade(s, e);
    if WakeupComes(s, Pushed) && !e.HandleRead? {
      WakeupKept(s, e, Pushed);
    }
  }

  lemma StepKeepsWakesForQuit(s: State, e: Event)
    requires WakesForQuit(s) && Enabled(s, e)
    ensures WakesForQuit(Apply(s, e))
  {
    DebtMade(s, e);
    if WakeupComes(s, QuitSet) && !e.HandleRead? {
      WakeupKept(s, e, QuitSet);
    }
  }

  /** Every step of every thread keeps the invariant. */
  lemma StepKeepsInv(s: State, e: Event)
    requires Inv(s) && Enabled(s, e)
    ensures Inv(Apply(s, e))
  {
    StepKeepsOrdered(s, e);
    StepKeepsFlagged(s, e);
    StepKeepsMarked(s, e);
    StepKeepsWakesForWork(s, e);
    StepKeepsWakesForQuit(s, e);
  }

  lemma {:induction false} RunKeepsInv(run: seq<State>, events: seq<Event>, k: nat)
    requires IsRun(run, events) && k < |run|
    ensures Inv(run[k])
  {
    if k > 0 {
      RunKeepsInv(run, events, k - 1);
      assert StepAt(run, events, k - 1);
      StepKeepsInv(run[k - 1], events[k - 1]);
    }
  }

  // ---------- first in, first out ----------

  /**
   At every moment of every run, what was started, then the rest of the swapped batch, then the
   queue, is the log of `queueInLoop`. So functors start in the order of their pushes, once per push.
   */
  lemma RunsInOrder(run: seq<State>, events: seq<Event>, k: nat)
    requires IsRun(run, events) && k < |run|
    ensures run[k].ran + Batch(run[k].place) + run[k].pending == run[k].log
    ensures run[k].ran <= run[k].log
  {
    RunKeepsInv(run, events, k);
  }

  /** The loop thread is between the return of `poll` and the swap. */
  predicate BeforeSwap(p: Place) {
    p.Handling? || p.Swapping?
  }

  /** The log only grows. */
  lemma LogGrows(s: State, e: Event)
    requires Enabled(s, e)
    ensures s.log <= Apply(s, e).log
  {
    match e
    case OtherPush(_, _) =>
    case SelfPush(_) =>
    case Swap =>
    case _ =>
  }

  /** The mark moves only forward, to the whole log at a swap; no step leaves the part before the swap but the swap. */
  lemma StepTakes(s: State, e: Event, upTo: nat)
    requires Ordered(s) && Enabled(s, e) && upTo <= |s.log|
    requires BeforeSwap(s.place) || upTo <= s.mark
    ensures BeforeSwap(Apply(s, e).place) || upTo <= Apply(s, e).mark
  {
    match e
    case OtherPush(_, _) =>
    case SelfPush(_) =>
    case Swap =>
    case _ =>
  }

  lemma Prefixes(a: seq<Task>, b: seq<Task>, c: seq<Task>)
    requires a <= b && b <= c
    ensures a <= c
  {
  }

  lemma {:induction false} PassTakes(run: seq<State>, events: seq<Event>, i: nat, k: nat)
    requires IsRun(run, events) && i <= k < |run|
    requires BeforeSwap(run[i].place)
    ensures run[i].log <= run[k].log
    ensures BeforeSwap(run[k].place) || |run[i].log| <= run[k].mark
    decreases k - i
  {
    if i < k {
      PassTakes(run, events, i, k - 1);
      RunKeepsInv(run, events, k - 1);
      assert StepAt(run, events, k - 1);
      LogGrows(run[k - 1], events[k - 1]);
      Prefixes(run[i].log, run[k - 1].log, run[k].log);
      StepTakes(run[k - 1], events[k - 1], |run[i].log|);
    }
  }

  lemma PrefixOfPart(a: seq<Task>, b: seq<Task>, c: seq<Task>)
    requires a <= b + c && |a| <= |b|
    ensures a <= b
  {
    forall j | 0 <= j < |a| ensures a[j] == b[j] {
      assert a[j] == (b + c)[j];
    }
  }

  /** Whatever was queued before a pass swaps the queue has started by the time the loop polls again. */
  lemma PassRunsEverything(run: seq<State>, events: seq<Event>, i: nat, k: nat)
    requires IsRun(run, events) && i <= k < |run|
    requires BeforeSwap(run[i].place) && run[k].place.Polling?
    ensures run[i].log <= run[k].ran
  {
    PassTakes(run, events, i, k);
    RunKeepsInv(run, events, k);
    Emptied(run[k].ran, run[k].pending);
    PrefixOfPart(run[i].log, run[k].ran, run[k].pending);
  }

  // ---------- the state and the events ----------

  /** The functors pushed by the first `k` events, in order. */
  function Pushes(events: seq<Event>, k: nat): seq<Task>
    requires k <= |events|
  {
    if k == 0 then []
    else Pushes(events, k - 1)
         + (if events[k - 1].OtherPush? || events[k - 1].SelfPush? then [events[k - 1].t] else [])
  }

  function Starts(events: seq<Event>, k: nat): nat
    requires k <= |events|
  {
    if k == 0 then 0 else Starts(events, k - 1) + (if events[k - 1].RunNext? then 1 else 0)
  }

  /** Exactly the pushes are logged and exactly the starts happen, so started functors are the first pushes. */
  lemma {:induction false} StartedAre(run: seq<State>, events: seq<Event>, k: nat)
    requires IsRun(run, events) && k < |run|
    ensures run[k].log == Pushes(events, k) && |run[k].ran| == Starts(events, k) <= |run[k].log|
    ensures run[k].ran == Pushes(events, k)[..Starts(events, k)]
  {
    RunsInOrder(run, events, k);
    if k > 0 {
      StartedAre(run, events, k - 1);
      assert StepAt(run, events, k - 1);
    }
  }

  /** The wakeups written since the event descriptor was last read. */
  function Wakes(events: seq<Event>, k: nat): nat
    requires k <= |events|
  {
    if k == 0 || events[k - 1].HandleRead? then 0
    else Wakes(events, k - 1) + (if events[k - 1].OtherWake? || events[k - 1].SelfWake? then 1 else 0)
  }

  lemma {:induction false} CounterIs(run: seq<State>, events: seq<Event>, k: nat)
    requires IsRun(run, events) && k < |run|
    ensures run[k].counter == if Wakes(events, k) < MAX_COUNTER then Wakes(events, k) else MAX_COUNTER
  {
    if k > 0 {
      CounterIs(run, events, k - 1);
      assert StepAt(run, events, k - 1);
    }
  }

  /** Step `i` was thread `th`'s push or quit, and the thread has not written its wakeup since. */
  ghost predicate OwesSince(events: seq<Event>, i: nat, k: nat, th: Thread, d: Debt)
    requires k <= |events|
  {
    && i < k
    && (if d.Pushed? then events[i].OtherPush? else events[i].OtherQuit?) && events[i].th == th
    && forall j :: i < j < k ==> events[j] != OtherWake(th)
  }

  lemma OwesSinceStep(events: seq<Event>, i: nat, k: nat, th: Thread, d: Debt)
    requires k < |events| && OwesSince(events, i, k, th, d) && events[k] != OtherWake(th)
    ensures OwesSince(events, i, k + 1, th, d)
  {
  }

  /** A thread owes a wakeup exactly from its push or quit to its write. */
  lemma {:induction false} OwesIff(run: seq<State>, events: seq<Event>, k: nat, th: Thread, d: Debt)
    requires IsRun(run, events) && k < |run|
    ensures th in run[k].owing && run[k].owing[th] == d <==> exists i: nat :: OwesSince(events, i, k, th, d)
  {
    if k > 0 {
      OwesIff(run, events, k - 1, th, d);
      var s, e := run[k - 1], events[k - 1];
      assert StepAt(run, events, k - 1);
      if th in s.owing && s.owing[th] == d && e != OtherWake(th) {
        var i: nat :| OwesSince(events, i, k - 1, th, d);
        OwesSinceStep(events, i, k - 1, th, d);
      }
      if (if d.Pushed? then e.OtherPush? else e.OtherQuit?) && e.th == th {
        assert OwesSince(events, k - 1, k, th, d);
      }
      forall i: nat | OwesSince(events, i, k, th, d) ensures th in run[k].owing && run[k].owing[th] == d {
        if i < k - 1 {
          assert OwesSince(events, i, k - 1, th, d);
        }
      }
    }
  }

  /** The flag is up from the start of `doPendingFunctors` to its end; before the first, it is as it was. */
  function CallingAt(events: seq<Event>, k: nat, initial: bool): bool
    requires k <= |events|
  {
    if k == 0 then initial
    else if events[k - 1].BeginPending? then true
    else if events[k - 1].EndPending? then false
    else CallingAt(events, k - 1, initial)
  }

  /** The loop thread owes itself a wakeup exactly from a push with the flag up to its write. */
  function SelfOwesAt(events: seq<Event>, k: nat, initial: bool): bool
    requires k <= |events|
  {
    k > 0 && if events[k - 1].SelfPush? then CallingAt(events, k - 1, initial)
             else !events[k - 1].SelfWake? && SelfOwesAt(events, k - 1, initial)
  }

  /** The last `poll` saw the wakeup, which has not been read since. */
  function SeenAt(events: seq<Event>, k: nat): bool
    requires k <= |events|
  {
    k > 0 && if events[k - 1].PollReturns? then events[k - 1].sees
             else !events[k - 1].HandleRead? && SeenAt(events, k - 1)
  }

  /** A functor is executing: one was started and has not ended. */
  function BusyAt(events: seq<Event>, k: nat): bool
    requires k <= |events|
  {
    k > 0 && (events[k - 1].RunNext? || (!events[k - 1].FunctorEnds? && BusyAt(events, k - 1)))
  }

  lemma {:induction false} FlagsAre(run: seq<State>, events: seq<Event>, k: nat)
    requires IsRun(run, events) && k < |run|
    ensures run[k].calling == CallingAt(events, k, run[0].calling)
    ensures run[k].selfOwes == SelfOwesAt(events, k, run[0].calling)
    ensures run[k].place == Handling(true) <==> SeenAt(events, k)
    ensures SeenAt(events, k) ==> run[k].counter > 0
    ensures run[k].place.Running? && run[k].place.busy <==> BusyAt(events, k)
  {
    if k > 0 {
      FlagsAre(run, events, k - 1);
      assert StepAt(run, events, k - 1);
    }
  }

  /** The loop thread is never stuck: it can take its next step, and a readable event descriptor is seen. */
  lemma LoopGoesOn(run: seq<State>, events: seq<Event>, k: nat) returns (e: Event)
    requires IsRun(run, events) && k < |run|
    ensures Enabled(run[k], e) && !e.OtherPush? && !e.OtherQuit? && !e.OtherWake? && !e.SelfPush? && !e.SelfQuit?
    ensures run[k].place.Polling? && run[k].counter > 0 ==> e == PollReturns(true)
  {
    RunKeepsInv(run, events, k);
    var s := run[k];
    if s.selfOwes {
      return SelfWake;
    }
    match s.place
    case Outside => e := StartLoop;
    case Checking => e := CheckQuit;
    case Polling => e := PollReturns(s.counter > 0);
    case Handling(wakeActive) => e := if wakeActive then HandleRead else BeginPending;
    case Swapping => e := Swap;
    case Running(batch, busy) => e := if busy then FunctorEnds else if batch != [] then RunNext else EndPending;
  }

  // ---------- no lost wakeup ----------

  /** A push by the loop thread outside `loop` with the calling flag down: `queueInLoop` writes no wakeup. */
  predicate IsSilentPush(s: State, e: Event) {
    e.SelfPush? && s.place.Outside? && !s.calling
  }

  /** Step `i` was a silent push and its functor has been in the queue ever since. */
  ghost predicate SilentSince(run: seq<State>, events: seq<Event>, i: nat, k: nat)
    requires |run| == |events| + 1 && k < |run|
  {
    && i < k
    && IsSilentPush(run[i], events[i])
    && forall j :: i < j < k ==> !events[j].Swap?
  }

  lemma SilentSinceStep(run: seq<State>, events: seq<Event>, i: nat, k: nat)
    requires |run| == |events| + 1 && k + 1 < |run|
    requires SilentSince(run, events, i, k) && !events[k].Swap?
    ensures SilentSince(run, events, i, k + 1)
  {
  }

  /** The `unwoken` mark stands exactly while some silent push awaits a swap. */
  lemma {:induction false} UnwokenIff(run: seq<State>, events: seq<Event>, k: nat)
    requires IsRun(run, events) && k < |run|
    ensures run[k].unwoken <==> exists i: nat :: SilentSince(run, events, i, k)
  {
    if k > 0 {
      UnwokenIff(run, events, k - 1);
      var s, e := run[k - 1], events[k - 1];
      assert StepAt(run, events, k - 1);
      if IsSilentPush(s, e) {
        assert SilentSince(run, events, k - 1, k);
      }
      if s.unwoken && !e.Swap? {
        var i: nat :| SilentSince(run, events, i, k - 1);
        SilentSinceStep(run, events, i, k - 1);
      }
      forall i: nat | SilentSince(run, events, i, k) ensures run[k].unwoken {
        if i < k - 1 {
          assert SilentSince(run, events, i, k - 1);
        }
      }
    }
  }

  /**
   In every interleaving, if the loop polls while functors are pending, the event descriptor is readable,
   or an enqueuer has pushed and not yet written, or the loop thread itself pushed silently before `loop`.
   */
  lemma NoLostWakeup(run: seq<State>, events: seq<Event>, k: nat)
    requires IsRun(run, events) && k < |run|
    requires run[k].place.Polling? && run[k].pending != []
    ensures run[k].counter > 0 || SomeoneOwes(run[k], Pushed) || exists i: nat :: SilentSince(run, events, i, k)
  {
    RunKeepsInv(run, events, k);
    UnwokenIff(run, events, k);
  }

  predicate IsQuit(e: Event) {
    e.OtherQuit? || e.SelfQuit?
  }

  /** Step `i` was a `quit`, and `loop` has not been entered since. */
  ghost predicate QuitSince(events: seq<Event>, i: nat, k: nat)
    requires k <= |events|
  {
    i < k && IsQuit(events[i]) && forall j :: i < j < k ==> !events[j].StartLoop?
  }

  lemma QuitSinceStep(events: seq<Event>, i: nat, k: nat)
    requires k < |events| && QuitSince(events, i, k) && !events[k].StartLoop?
    ensures QuitSince(events, i, k + 1)
  {
  }

  /** Exactly when a quit stands: entering `loop` takes back every quit before it. */
  lemma {:induction false} QuitStandsIff(run: seq<State>, events: seq<Event>, k: nat)
    requires IsRun(run, events) && k < |run|
    ensures run[k].quit <==> exists i: nat :: QuitSince(events, i, k)
  {
    if k > 0 {
      QuitStandsIff(run, events, k - 1);
      var e := events[k - 1];
      assert StepAt(run, events, k - 1);
      if IsQuit(e) {
        assert QuitSince(events, k - 1, k);
      } else if run[k - 1].quit && !e.StartLoop? {
        var i: nat :| QuitSince(events, i, k - 1);
        QuitSinceStep(events, i, k - 1);
      }
      forall i: nat | QuitSince(events, i, k) ensures run[k].quit {
        if i < k - 1 {
          assert QuitSince(events, i, k - 1);
        }
      }
    }
  }

  /** `loop` returns exactly at a test of the flag with a quit since it was entered, and polls at any other test. */
  lemma LeavesLoopIff(run: seq<State>, events: seq<Event>, k: nat)
    requires IsRun(run, events) && k < |events|
    ensures !run[k].place.Outside? && run[k + 1].place.Outside? <==>
            events[k].CheckQuit? && exists i: nat :: QuitSince(events, i, k)
    ensures !run[k].place.Polling? && run[k + 1].place.Polling? <==>
            events[k].CheckQuit? && !exists i: nat :: QuitSince(events, i, k)
  {
    QuitStandsIff(run, events, k);
    assert StepAt(run, events, k);
  }

  /** A quit can be lost: another thread quits and wakes a loop that is only then entered, and it polls. */
  lemma LostQuitRun(th: Thread) returns (run: seq<State>, events: seq<Event>)
    ensures IsRun(run, events) && [OtherQuit(th)] <= events
    ensures run[|run| - 1].place.Polling? && !run[|run| - 1].quit && run[|run| - 1].owing == map[]
  {
    var s0 := Fresh(false);
    var s1 := Apply(s0, OtherQuit(th));
    var s2 := Apply(s1, OtherWake(th));
    var s3 := Apply(s2, StartLoop);
    var s4 := Apply(s3, CheckQuit);
    run, events := [s0, s1, s2, s3, s4], [OtherQuit(th), OtherWake(th), StartLoop, CheckQuit];
    assert s2.owing == map[];
    assert StepAt(run, events, 0) && StepAt(run, events, 1) && StepAt(run, events, 2) && StepAt(run, events, 3);
  }

  /** A quit that is set while the loop polls always has its wakeup there or on its way. */
  lemma NoLostQuit(run: seq<State>, events: seq<Event>, k: nat)
    requires IsRun(run, events) && k < |run|
    requires run[k].place.Polling? && run[k].quit
    ensures run[k].counter > 0 || SomeoneOwes(run[k], QuitSet)
  {
    RunKeepsInv(run, events, k);
  }

  /** The loop polls with work pending, and no wakeup write is there or coming. */
  predicate Stuck(s: State) {
    s.place.Polling? && s.pending != [] && s.counter == 0 && s.owing == map[]
  }

  /**
   Exactly when the wakeup is lost, in every interleaving: the loop polls with the event descriptor empty and no
   thread about to write, and the loop thread queued a functor outside `loop` with the flag down since the last swap.
   */
  lemma StuckIff(run: seq<State>, events: seq<Event>, k: nat)
    requires IsRun(run, events) && k < |run|
    ensures Stuck(run[k]) <==>
            && run[k].place.Polling? && run[k].counter == 0 && run[k].owing == map[]
            && exists i: nat :: SilentSince(run, events, i, k)
  {
    RunKeepsInv(run, events, k);
    UnwokenIff(run, events, k);
  }

  /** It happens: the loop thread of a fresh loop whose flag is down queues a functor, enters `loop` and polls. */
  lemma LostWakeupRun(t: Task) returns (run: seq<State>, events: seq<Event>)
    ensures IsRun(run, events) && Stuck(run[|run| - 1])
  {
    var s0 := Fresh(false);
    var s1 := Apply(s0, SelfPush(t));
    var s2 := Apply(s1, StartLoop);
    var s3 := Apply(s2, CheckQuit);
    run, events := [s0, s1, s2, s3], [SelfPush(t), StartLoop, CheckQuit];
    assert s1.pending == [t];
    assert StepAt(run, events, 0) && StepAt(run, events, 1) && StepAt(run, events, 2);
  }
}
