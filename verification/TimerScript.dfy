/** What callbacks do to the timer queue, as a function of the queue they find. */
module TimerScripts {
  import opened TimerSets

  /** What one callback does to the queue, and what other threads do meanwhile. */
  datatype Action =
    | Create(when: int, delta: nat, repeat: bool)                // another thread's `new Timer`
    | Add(when: int, delta: nat, repeat: bool, clock: int)       // `addTimer` from the loop thread
    | Cancel(id: Id)

  /** All that the first `n` callbacks do, in order. */
  function Actions(script: nat -> seq<Action>, n: nat): seq<Action> {
    if n == 0 then [] else Actions(script, n - 1) + script(n - 1)
  }

  /** The queued timers by identity, and how many timers were ever created. */
  datatype Standing = Standing(queued: map<Id, Timer>, created: nat)

  /** One action; a new timer is at address `a`. */
  function Act(s: Standing, action: Action, a: Addr): Standing {
    var n := s.created + 1;
    match action
    case Create(_, _, _) => s.(created := n)
    case Add(when, delta, repeat, _) => Standing(s.queued[Id(a, n) := Timer(when, delta, repeat, n)], n)
    case Cancel(id) => s.(queued := s.queued - {id})
  }

  function Play(s: Standing, actions: seq<Action>, places: seq<Addr>): Standing
    requires |places| == |actions|
  {
    if actions == [] then s
    else
      var n := |actions| - 1;
      Act(Play(s, actions[..n], places[..n]), actions[n], places[n])
  }

  lemma PlayNext(s: Standing, actions: seq<Action>, places: seq<Addr>, action: Action, a: Addr)
    requires |places| == |actions|
    ensures Play(s, actions + [action], places + [a]) == Act(Play(s, actions, places), action, a)
  {
    var actions', places' := actions + [action], places + [a];
    assert actions'[..|actions|] == actions && places'[..|actions|] == places;
  }

  lemma {:induction false} PlayConcat(s: Standing, actions: seq<Action>, places: seq<Addr>,
                                      more: seq<Action>, places': seq<Addr>)
    requires |places| == |actions| && |places'| == |more|
    ensures Play(s, actions + more, places + places') == Play(Play(s, actions, places), more, places')
  {
    if more == [] {
      assert actions + more == actions && places + places' == places;
    } else {
      var n := |more| - 1;
      PlayConcat(s, actions, places, more[..n], places'[..n]);
      PlayNext(s, actions + more[..n], places + places'[..n], more[n], places'[n]);
      assert actions + more == actions + more[..n] + [more[n]];
      assert places + places' == places + places'[..n] + [places'[n]];
    }
  }

  /** Action `j` takes the queue from `trace[j]` to the next. */
  ghost predicate Acts(trace: seq<Standing>, places: seq<Addr>, actions: seq<Action>, j: nat)
    requires |trace| == |places| + 1 && j < |places| <= |actions|
  {
    trace[j + 1] == Act(trace[j], actions[j], places[j])
  }

  /** The queue from action to action. */
  ghost predicate Acted(trace: seq<Standing>, places: seq<Addr>, actions: seq<Action>) {
    && |trace| == |places| + 1 && |places| <= |actions|
    && forall j: nat :: j < |places| ==> Acts(trace, places, actions, j)
  }

  lemma ActedNext(trace: seq<Standing>, places: seq<Addr>, actions: seq<Action>, a: Addr, stand: Standing)
    requires Acted(trace, places, actions) && |places| < |actions|
    requires var n := |places|; stand == Act(trace[n], actions[n], a)
    ensures Acted(trace + [stand], places + [a], actions)
  {
    forall j: nat | j < |places| ensures Acts(trace + [stand], places + [a], actions, j) {
      assert Acts(trace, places, actions, j);
    }
    assert Acts(trace + [stand], places + [a], actions, |places|);
  }

  lemma {:induction false} ActsEnd(trace: seq<Standing>, places: seq<Addr>, actions: seq<Action>, n: nat)
    requires Acted(trace, places, actions) && n <= |places|
    ensures trace[n] == Play(trace[0], actions[..n], places[..n])
  {
    if n > 0 {
      ActsEnd(trace, places, actions, n - 1);
      assert Acts(trace, places, actions, n - 1);
      PlayNext(trace[0], actions[..n - 1], places[..n - 1], actions[n - 1], places[n - 1]);
      assert actions[..n] == actions[..n - 1] + [actions[n - 1]] && places[..n] == places[..n - 1] + [places[n - 1]];
    }
  }

  /** The addresses given in callback after callback, in one list. */
  function Flat(places: seq<seq<Addr>>): seq<Addr> {
    if places == [] then [] else Flat(places[..|places| - 1]) + places[|places| - 1]
  }

  /** Callback `j` takes the queue from `trace[j]` to the next. */
  ghost predicate Follows(trace: seq<Standing>, places: seq<seq<Addr>>, script: nat -> seq<Action>, j: nat)
    requires |trace| == |places| + 1 && j < |places|
  {
    |places[j]| == |script(j)| && trace[j + 1] == Play(trace[j], script(j), places[j])
  }

  /** The queue from callback to callback. */
  ghost predicate Traced(trace: seq<Standing>, places: seq<seq<Addr>>, script: nat -> seq<Action>) {
    |trace| == |places| + 1 && forall j: nat :: j < |places| ==> Follows(trace, places, script, j)
  }

  lemma TracedNext(trace: seq<Standing>, places: seq<seq<Addr>>, script: nat -> seq<Action>, more: seq<Addr>,
                   stand: Standing)
    requires Traced(trace, places, script)
    requires var n := |places|; |more| == |script(n)| && stand == Play(trace[n], script(n), more)
    ensures Traced(trace + [stand], places + [more], script)
  {
    forall j: nat | j < |places| ensures Follows(trace + [stand], places + [more], script, j) {
      assert Follows(trace, places, script, j);
    }
    assert Follows(trace + [stand], places + [more], script, |places|);
  }

  lemma TracedBefore(trace: seq<Standing>, places: seq<seq<Addr>>, script: nat -> seq<Action>,
                     trace': seq<Standing>, places': seq<seq<Addr>>)
    requires Traced(trace, places, script)
    requires trace' <= trace && places' <= places && |trace'| == |places'| + 1
    ensures Traced(trace', places', script)
  {
    forall j: nat | j < |places'| ensures Follows(trace', places', script, j) {
      assert Follows(trace, places, script, j);
    }
  }

  /** A trace ends where playing everything ends. */
  lemma {:induction false} TraceEnds(trace: seq<Standing>, places: seq<seq<Addr>>, script: nat -> seq<Action>)
    requires Traced(trace, places, script)
    ensures |Flat(places)| == |Actions(script, |places|)|
    ensures trace[|places|] == Play(trace[0], Actions(script, |places|), Flat(places))
  {
    if places != [] {
      var n := |places| - 1;
      TracedBefore(trace, places, script, trace[..n + 1], places[..n]);
      TraceEnds(trace[..n + 1], places[..n], script);
      assert Follows(trace, places, script, n);
      PlayConcat(trace[0], Actions(script, n), Flat(places[..n]), script(n), places[n]);
    }
  }

  /** How many timers the actions create. */
  function News(actions: seq<Action>): nat {
    if actions == [] then 0 else News(actions[..|actions| - 1]) + (if actions[|actions| - 1].Cancel? then 0 else 1)
  }

  /** The `k`-th action adds timer `id`, and no later one cancels it. */
  ghost predicate AddedAt(created: nat, actions: seq<Action>, places: seq<Addr>, k: nat, id: Id, t: Timer)
    requires |places| == |actions|
  {
    && k < |actions| && actions[k].Add?
    && id == Id(places[k], created + News(actions[..k]) + 1)
    && t == Timer(actions[k].when, actions[k].delta, actions[k].repeat, id.sequence)
    && Cancel(id) !in actions[k + 1..]
  }

  ghost predicate IsAdded(created: nat, actions: seq<Action>, places: seq<Addr>, id: Id, t: Timer)
    requires |places| == |actions|
  {
    exists k: nat :: AddedAt(created, actions, places, k, id, t)
  }

  predicate Holds(queued: map<Id, Timer>, id: Id, t: Timer) {
    id in queued && queued[id] == t
  }

  /** Every queued timer has been created. */
  ghost predicate Counted(s: Standing) {
    forall id :: id in s.queued ==> id.sequence <= s.created
  }

  lemma {:induction false} PlayCounts(s: Standing, actions: seq<Action>, places: seq<Addr>)
    requires |places| == |actions| && Counted(s)
    ensures Play(s, actions, places).created == s.created + News(actions) && Counted(Play(s, actions, places))
  {
    if actions != [] {
      var n := |actions| - 1;
      PlayCounts(s, actions[..n], places[..n]);
    }
  }

  /** A timer added before the last action is still so unless that cancels it. */
  lemma AddedBefore(created: nat, actions: seq<Action>, places: seq<Addr>, id: Id, t: Timer)
    requires |places| == |actions| > 0
    requires var n := |actions| - 1; IsAdded(created, actions[..n], places[..n], id, t) && actions[n] != Cancel(id)
    ensures IsAdded(created, actions, places, id, t)
  {
    var n := |actions| - 1;
    var k: nat :| AddedAt(created, actions[..n], places[..n], k, id, t);
    assert actions[..n][..k] == actions[..k];
    assert actions[k + 1..] == actions[..n][k + 1..] + [actions[n]];
    assert AddedAt(created, actions, places, k, id, t);
  }

  lemma AddedSooner(created: nat, actions: seq<Action>, places: seq<Addr>, k: nat, id: Id, t: Timer)
    requires |places| == |actions| > 0 && AddedAt(created, actions, places, k, id, t) && k < |actions| - 1
    ensures var n := |actions| - 1; IsAdded(created, actions[..n], places[..n], id, t) && actions[n] != Cancel(id)
  {
    var n := |actions| - 1;
    assert actions[..n][..k] == actions[..k];
    assert actions[k + 1..] == actions[..n][k + 1..] + [actions[n]];
    assert AddedAt(created, actions[..n], places[..n], k, id, t);
  }

  /** The last action adds a timer. */
  lemma AddedLast(created: nat, actions: seq<Action>, places: seq<Addr>, id: Id, t: Timer)
    requires |places| == |actions| > 0
    ensures var n := |actions| - 1;
            AddedAt(created, actions, places, n, id, t) <==>
            && actions[n].Add? && id == Id(places[n], created + News(actions[..n]) + 1)
            && t == Timer(actions[n].when, actions[n].delta, actions[n].repeat, id.sequence)
  {
    assert actions[|actions|..] == [];
  }

  /** Added by the actions: by the last one, or before and not cancelled by the last. */
  lemma AddedIff(created: nat, actions: seq<Action>, places: seq<Addr>, id: Id, t: Timer)
    requires |places| == |actions| > 0
    ensures var n := |actions| - 1;
            IsAdded(created, actions, places, id, t) <==>
            || AddedAt(created, actions, places, n, id, t)
            || (IsAdded(created, actions[..n], places[..n], id, t) && actions[n] != Cancel(id))
  {
    var n := |actions| - 1;
    if IsAdded(created, actions[..n], places[..n], id, t) && actions[n] != Cancel(id) {
      AddedBefore(created, actions, places, id, t);
    }
    forall k: nat | AddedAt(created, actions, places, k, id, t) && k < n
      ensures IsAdded(created, actions[..n], places[..n], id, t) && actions[n] != Cancel(id)
    {
      AddedSooner(created, actions, places, k, id, t);
    }
  }

  /** What is queued after one action. */
  lemma ActedIff(s: Standing, action: Action, a: Addr, id: Id, t: Timer)
    requires Counted(s)
    ensures Holds(Act(s, action, a).queued, id, t) <==>
            || (Holds(s.queued, id, t) && action != Cancel(id))
            || (action.Add? && id == Id(a, s.created + 1)
                && t == Timer(action.when, action.delta, action.repeat, id.sequence))
  {
  }

  lemma InLast(actions: seq<Action>, action: Action)
    requires actions != []
    ensures var n := |actions| - 1; action in actions <==> action in actions[..n] || action == actions[n]
  {
    var n := |actions| - 1;
    assert actions == actions[..n] + [actions[n]];
  }

  /**
   What is queued after the actions: exactly the timers queued before that no action cancels, and the timers the
   actions add and do not cancel afterwards.
   */
  lemma {:induction false} PlayedIff(s: Standing, actions: seq<Action>, places: seq<Addr>, id: Id, t: Timer)
    requires |places| == |actions| && Counted(s)
    ensures Holds(Play(s, actions, places).queued, id, t) <==>
            (Holds(s.queued, id, t) && Cancel(id) !in actions) || IsAdded(s.created, actions, places, id, t)
  {
    if actions != [] {
      var n := |actions| - 1;
      PlayedIff(s, actions[..n], places[..n], id, t);
      PlayCounts(s, actions[..n], places[..n]);
      ActedIff(Play(s, actions[..n], places[..n]), actions[n], places[n], id, t);
      AddedIff(s.created, actions, places, id, t);
      AddedLast(s.created, actions, places, id, t);
      InLast(actions, Cancel(id));
    }
  }
}
