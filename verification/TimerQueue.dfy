/**
 The timer queue: two indexes over heap-allocated timers, the running batch, the cancel marks and
 the one-shot timer descriptor. Time is in microseconds; the clock is a parameter of each step.
 */
module TimerQueues {
  import opened TimerSets
  import opened TimerHistory
  import opened TimerScripts

  const MICROS_PER_SECOND := 1_000_000

  datatype TimeSpec = TimeSpec(sec: int, nsec: int)

  function Max(a: int, b: int): int {
    if a < b then b else a
  }

  /** The relative alarm time: never less than 100 microseconds. */
  function HowMuchTimeFromNow(when: int, now: int): (ts: TimeSpec)
    ensures 0 <= ts.sec && 0 <= ts.nsec < 1_000_000_000 && ts.nsec % 1000 == 0
    ensures ts.sec * MICROS_PER_SECOND + ts.nsec / 1000 == Max(when - now, 100)
  {
    var micros := if when - now < 100 then 100 else when - now;
    TimeSpec(micros / MICROS_PER_SECOND, (micros % MICROS_PER_SECOND) * 1000)
  }

  /** The timer descriptor: off, or set at clock time `at` to fire at `due`. */
  datatype Alarm = Off | Set(at: int, due: int)

  /** The alarm fires no later than `when`, or as soon as the 100 microsecond floor allows. */
  predicate Covers(alarm: Alarm, when: int) {
    alarm.Set? && alarm.due <= Max(when, alarm.at + 100)
  }

  lemma {:induction false} Bounded(s: set<nat>) returns (n: nat)
    ensures forall x :: x in s ==> x < n
    decreases s
  {
    n := 0;
    if s != {} {
      var x :| x in s;
      var m := Bounded(s - {x});
      n := m + x + 1;
      forall y | y in s ensures y < n {
        assert y == x || y in s - {x};
      }
    }
  }

  lemma FreshAddr(mem: map<Addr, Timer>)
    ensures exists a: Addr :: a !in mem
  {
    var n := Bounded(mem.Keys);
    assert n !in mem;
  }

  // ---------- the queue's books ----------

  /** Everything the queue's invariant speaks of. */
  datatype Book = Book(mem: map<Addr, Timer>, created: nat, timers: seq<Entry>, active: set<Id>, canceling: set<Id>,
                       waiting: set<Addr>, batch: set<Addr>, history: seq<Event>)

  /** The indexes agree, every timer is in one place, and the history is sound. */
  ghost predicate Kept(b: Book) {
    match b case Book(mem, created, timers, active, canceling, waiting, batch, history) =>
      && Consistent(mem, timers, active, waiting, batch, created)
      && Accounted(mem, batch, canceling, created, history)
  }

  lemma KeptCreate(b: Book, a: Addr, t: Timer)
    requires Kept(b) && a !in b.mem && t.sequence == b.created + 1
    ensures Kept(b.(mem := b.mem[a := t], created := b.created + 1, waiting := b.waiting + {a},
                    history := b.history + [Created(Id(a, t.sequence))]))
  {
    CreateKeeps(b.mem, b.timers, b.active, b.waiting, b.batch, b.created, a, t);
    CreateAccounted(b.mem, b.batch, b.canceling, b.created, b.history, a, t);
  }

  /** A waiting timer joins both indexes. */
  lemma KeptInsert(b: Book, a: Addr)
    requires Kept(b) && a in b.waiting
    ensures a in b.mem && a !in b.batch
    ensures var e, id := Entry(b.mem[a].expiration, a), Id(a, b.mem[a].sequence);
            && e !in b.timers && id !in b.active
            && Kept(b.(timers := Insert(b.timers, e), active := b.active + {id}, waiting := b.waiting - {a}))
  {
    InsertKeeps(b.mem, b.timers, b.active, b.waiting, b.batch, b.created, a);
    assert b.batch - {a} == b.batch;
  }

  /** A cancel takes a queued timer out of both indexes and frees it. */
  lemma KeptCancel(b: Book, id: Id)
    requires Kept(b) && id in b.active
    ensures Live(b.mem, id) && Entry(b.mem[id.addr].expiration, id.addr) in b.timers
    ensures Kept(b.(mem := b.mem - {id.addr}, timers := Erase(b.timers, Entry(b.mem[id.addr].expiration, id.addr)),
                    active := b.active - {id}, history := b.history + [Cancelled(id), Freed(id)]))
  {
    EraseKeeps(b.mem, b.timers, b.active, b.waiting, b.batch, b.created, id);
    CancelAccounted(b.mem, b.batch, b.canceling, b.created, b.history, id);
    assert b.history + [Cancelled(id)] + [Freed(id)] == b.history + [Cancelled(id), Freed(id)];
  }

  /** A cancel marks a timer of the running batch, or an identity of no such timer. */
  lemma KeptMark(b: Book, id: Id)
    requires Kept(b)
    ensures Live(b.mem, id) && id.addr in b.batch ==>
              Kept(b.(canceling := b.canceling + {id}, history := b.history + [Cancelled(id)]))
    ensures Kept(b.(canceling := b.canceling + {id}))
  {
    if Live(b.mem, id) && id.addr in b.batch {
      MarkAccounted(b.mem, b.batch, b.canceling, b.created, b.history, id);
    }
  }

  /** A cancel misses a timer that still waits. */
  lemma KeptMiss(b: Book, id: Id)
    requires Kept(b) && Live(b.mem, id)
    ensures Kept(b.(history := b.history + [Missed(id)]))
    ensures Kept(b.(canceling := b.canceling + {id}, history := b.history + [Missed(id)]))
  {
    MissAccounted(b.mem, b.batch, b.canceling, b.created, b.history, id);
  }

  /** Timers of the batch are in no index, and nowhere but in the batch. */
  lemma KeptBatch(b: Book, a: Addr)
    requires Kept(b) && a in b.batch
    ensures a in b.mem && a !in b.waiting && forall id :: id in b.active ==> id.addr != a
  {
  }

  lemma KeptRun(b: Book, a: Addr)
    requires Kept(b) && a in b.batch
    ensures Kept(b.(history := b.history + [Ran(IdAt(b.mem, a))]))
  {
    KeptBatch(b, a);
    RunAccounted(b.mem, b.batch, b.canceling, b.created, b.history, IdAt(b.mem, a));
  }

  lemma KeptFree(b: Book, a: Addr)
    requires Kept(b) && a in b.batch
    ensures a in b.mem
    ensures Kept(b.(mem := b.mem - {a}, batch := b.batch - {a}, history := b.history + [Freed(IdAt(b.mem, a))]))
  {
    KeptBatch(b, a);
    FreeKeeps(b.mem, b.timers, b.active, b.waiting, b.batch, b.created, a);
    FreeAccounted(b.mem, b.batch, b.canceling, b.created, b.history, IdAt(b.mem, a));
  }

  /** A batch timer that is not marked gets a new expiration and goes back to both indexes. */
  lemma KeptRestart(b: Book, a: Addr, t: Timer)
    requires Kept(b) && a in b.batch && a in b.mem && t.sequence == b.mem[a].sequence
    requires Id(a, t.sequence) !in b.canceling
    ensures Entry(t.expiration, a) !in b.timers && Id(a, t.sequence) !in b.active
    ensures Kept(b.(mem := b.mem[a := t], timers := Insert(b.timers, Entry(t.expiration, a)),
                    active := b.active + {Id(a, t.sequence)}, batch := b.batch - {a}))
  {
    KeptBatch(b, a);
    var mem' := b.mem[a := t];
    RestartKeeps(b.mem, b.timers, b.active, b.waiting, b.batch, b.created, a, t);
    RestartAccounted(b.mem, b.batch, b.canceling, b.created, b.history, a, t);
    InsertKeeps(mem', b.timers, b.active, b.waiting, b.batch, b.created, a);
    assert b.waiting - {a} == b.waiting;
  }

  /** The first `n` entries of the list have left both indexes for the batch. */
  lemma {:induction false} KeptExpire(b: Book, n: nat)
    requires Kept(b) && b.batch == {} && n <= |b.timers|
    ensures Consistent(b.mem, b.timers[n..], b.active - ActiveOf(b.mem, b.timers[..n]), b.waiting,
                       Addrs(b.timers[..n]), b.created)
  {
    if n == 0 {
      assert b.timers[0..] == b.timers && b.timers[..0] == [];
    } else {
      KeptExpire(b, n - 1);
      var ts, es, e := b.timers[n - 1..], b.timers[..n - 1], b.timers[n - 1];
      assert ts[0] == e && ts[1..] == b.timers[n..] && b.timers[..n] == es + [e];
      ExpireKeeps(b.mem, ts, b.active - ActiveOf(b.mem, es), b.waiting, Addrs(es), b.created);
      AddrsAppend(es, e);
      ActiveOfAppend(b.mem, es, e);
      assert b.active - ActiveOf(b.mem, es) - {IdAt(b.mem, e.addr)} == b.active - ActiveOf(b.mem, b.timers[..n]);
    }
  }

  /** The books when the first `n` entries of the list have left both indexes for the batch. */
  ghost function Taken(b: Book, n: nat): Book
    requires n <= |b.timers|
  {
    b.(timers := b.timers[n..], active := b.active - ActiveOf(b.mem, b.timers[..n]), batch := Addrs(b.timers[..n]))
  }

  /** The batch begins: the marks are cleared. */
  lemma KeptStart(b: Book, n: nat)
    requires Kept(b) && b.batch == {} && n <= |b.timers|
    ensures Kept(Taken(b, n).(canceling := {}, history := b.history + [Started]))
    ensures DistinctAddrs(b.timers[..n])
  {
    KeptExpire(b, n);
    StartAccounted(b.mem, Addrs(b.timers[..n]), b.canceling, b.created, b.history);
    AgreeDistinct(b.mem, b.timers, b.active);
  }

  // ---------- the queue by identities ----------

  ghost function QueueOf(mem: map<Addr, Timer>, active: set<Id>): map<Id, Timer> {
    map id | id in active && id.addr in mem :: mem[id.addr]
  }

  /** `queue` holds the queued timers by their identities. */
  ghost predicate Shown(mem: map<Addr, Timer>, active: set<Id>, queue: map<Id, Timer>) {
    && (forall id :: id in queue <==> id in active)
    && (forall id :: id in active ==> id.addr in mem && queue[id] == mem[id.addr])
  }

  lemma ShownIs(b: Book)
    requires Kept(b)
    ensures Shown(b.mem, b.active, QueueOf(b.mem, b.active)) && Counted(Standing(QueueOf(b.mem, b.active), b.created))
    ensures forall queue :: Shown(b.mem, b.active, queue) ==> queue == QueueOf(b.mem, b.active)
  {
  }

  /** The list holds exactly the queued timers under their expirations. */
  lemma ListIsQueue(b: Book, e: Entry)
    requires Kept(b)
    ensures e in b.timers <==>
            var queue := QueueOf(b.mem, b.active); var id := IdAt(b.mem, e.addr);
            id in queue && queue[id].expiration == e.when
  {
    if e in b.timers {
      assert Queued(b.mem, b.timers, e.addr) && Live(b.mem, IdAt(b.mem, e.addr));
    }
  }

  lemma ShownCreate(mem: map<Addr, Timer>, active: set<Id>, queue: map<Id, Timer>, a: Addr, t: Timer)
    requires Shown(mem, active, queue) && a !in mem
    ensures Shown(mem[a := t], active, queue)
  {
  }

  lemma ShownInsert(mem: map<Addr, Timer>, active: set<Id>, queue: map<Id, Timer>, a: Addr, id: Id)
    requires Shown(mem, active, queue) && a in mem && id.addr == a
    ensures Shown(mem, active + {id}, queue[id := mem[a]])
  {
  }

  lemma ShownCancel(b: Book, queue: map<Id, Timer>, id: Id)
    requires Kept(b) && Shown(b.mem, b.active, queue)
    ensures id in b.active ==> Shown(b.mem - {id.addr}, b.active - {id}, queue - {id})
    ensures id !in b.active ==> Shown(b.mem, b.active, queue - {id})
  {
    if id in b.active {
      forall x | x in b.active - {id} ensures x.addr != id.addr {
        assert Live(b.mem, x) && Live(b.mem, id);
      }
    }
  }

  lemma ShownTaken(b: Book, expired: seq<Entry>)
    requires Kept(b) && expired <= b.timers
    ensures Shown(b.mem, Taken(b, |expired|).active, QueueOf(b.mem, b.active) - ActiveOf(b.mem, expired))
  {
    assert b.timers[..|expired|] == expired;
  }

  /** A batch timer is in no queue, so it may change or go. */
  lemma ShownReset(b: Book, queue: map<Id, Timer>, canceling: set<Id>, a: Addr, now: int)
    requires Kept(b) && Shown(b.mem, b.active, queue) && a in b.batch && a in b.mem
    ensures if Restarting(b.mem, a, canceling)
            then Shown(b.mem[a := Restarted(b.mem[a], now)], b.active + {IdAt(b.mem, a)},
                       queue + Restart(b.mem, a, canceling, now))
            else Shown(b.mem - {a}, b.active, queue + Restart(b.mem, a, canceling, now))
  {
    KeptBatch(b, a);
  }

  predicate Restarting(mem: map<Addr, Timer>, a: Addr, canceling: set<Id>) {
    a in mem && mem[a].repeat && IdAt(mem, a) !in canceling
  }

  function Restarted(t: Timer, now: int): Timer {
    t.(expiration := now + t.delta)
  }

  /** What `reset` puts back of a batch timer. */
  function Restart(mem: map<Addr, Timer>, a: Addr, canceling: set<Id>, now: int): map<Id, Timer> {
    if Restarting(mem, a, canceling) then map[IdAt(mem, a) := Restarted(mem[a], now)] else map[]
  }

  /** What it puts back of the batch. */
  function Restarts(mem: map<Addr, Timer>, es: seq<Entry>, canceling: set<Id>, now: int): map<Id, Timer> {
    if es == [] then map[]
    else Restarts(mem, es[..|es| - 1], canceling, now) + Restart(mem, es[|es| - 1].addr, canceling, now)
  }

  lemma RestartsNext(mem: map<Addr, Timer>, es: seq<Entry>, canceling: set<Id>, now: int, i: nat, q: map<Id, Timer>)
    requires i < |es|
    ensures q + Restarts(mem, es[..i], canceling, now) + Restart(mem, es[i].addr, canceling, now)
         == q + Restarts(mem, es[..i + 1], canceling, now)
  {
    assert es[..i + 1][..i] == es[..i];
  }

  /** The queue from one batch timer to the next. */
  ghost predicate Refills(mem: map<Addr, Timer>, es: seq<Entry>, canceling: set<Id>, now: int, qs: seq<map<Id, Timer>>,
                          j: nat)
    requires j < |es| && j + 1 < |qs|
  {
    qs[j + 1] == qs[j] + Restart(mem, es[j].addr, canceling, now)
  }

  ghost predicate Refilled(mem: map<Addr, Timer>, es: seq<Entry>, canceling: set<Id>, now: int,
                           qs: seq<map<Id, Timer>>) {
    0 < |qs| <= |es| + 1 && forall j: nat :: j + 1 < |qs| ==> Refills(mem, es, canceling, now, qs, j)
  }

  lemma RefilledNext(mem: map<Addr, Timer>, es: seq<Entry>, canceling: set<Id>, now: int, qs: seq<map<Id, Timer>>,
                     q: map<Id, Timer>)
    requires Refilled(mem, es, canceling, now, qs) && |qs| <= |es|
    requires q == qs[|qs| - 1] + Restart(mem, es[|qs| - 1].addr, canceling, now)
    ensures Refilled(mem, es, canceling, now, qs + [q])
  {
    forall j: nat | j + 1 < |qs| ensures Refills(mem, es, canceling, now, qs + [q], j) {
      assert Refills(mem, es, canceling, now, qs, j);
    }
  }

  lemma {:induction false} RefilledEnds(mem: map<Addr, Timer>, es: seq<Entry>, canceling: set<Id>, now: int,
                                        qs: seq<map<Id, Timer>>, n: nat)
    requires Refilled(mem, es, canceling, now, qs) && n < |qs|
    ensures qs[n] == qs[0] + Restarts(mem, es[..n], canceling, now)
  {
    if n > 0 {
      RefilledEnds(mem, es, canceling, now, qs, n - 1);
      assert Refills(mem, es, canceling, now, qs, n - 1);
      RestartsNext(mem, es, canceling, now, n - 1, qs[0]);
    }
  }

  lemma {:induction false} RestartsSame(mem: map<Addr, Timer>, mem': map<Addr, Timer>, es: seq<Entry>,
                                        canceling: set<Id>, now: int)
    requires forall i {:trigger es[i]} :: 0 <= i < |es| ==>
               es[i].addr in mem && es[i].addr in mem' && mem[es[i].addr] == mem'[es[i].addr]
    ensures Restarts(mem, es, canceling, now) == Restarts(mem', es, canceling, now)
  {
    if es != [] {
      var n := |es| - 1;
      assert forall i {:trigger es[..n][i]} :: 0 <= i < n ==> es[..n][i] == es[i];
      RestartsSame(mem, mem', es[..n], canceling, now);
      assert es[n].addr in mem;
    }
  }

  /** Put back are exactly the repeating timers of the batch that are not marked, for `now` plus their interval. */
  lemma {:induction false} RestartsIff(mem: map<Addr, Timer>, es: seq<Entry>, canceling: set<Id>, now: int, id: Id,
                                       t: Timer)
    ensures Holds(Restarts(mem, es, canceling, now), id, t) <==>
            IsRestarted(mem, es, canceling, now, id, t)
  {
    if es != [] {
      var n := |es| - 1;
      RestartsIff(mem, es[..n], canceling, now, id, t);
      RestartsOf(mem, es[..n], canceling, now, id);
      assert es == es[..n] + [es[n]];
    }
  }

  lemma {:induction false} RestartsOf(mem: map<Addr, Timer>, es: seq<Entry>, canceling: set<Id>, now: int, id: Id)
    ensures var r := Restarts(mem, es, canceling, now);
            id in r ==> id.addr in mem && id == IdAt(mem, id.addr) && r[id] == Restarted(mem[id.addr], now)
  {
    if es != [] {
      RestartsOf(mem, es[..|es| - 1], canceling, now, id);
    }
  }

  // ---------- the alarm ----------

  /** Between handlers the alarm covers the earliest timer; inside one, every timer due at or before 0. */
  predicate Armed(alarm: Alarm, ts: seq<Entry>, calling: bool) {
    ts != [] && (!calling || ts[0].when <= 0) ==> Covers(alarm, ts[0].when)
  }

  lemma ArmedInsert(alarm: Alarm, ts: seq<Entry>, e: Entry, calling: bool)
    requires Armed(alarm, ts, calling) && ts != [] && e.when >= ts[0].when
    ensures Armed(alarm, Insert(ts, e), calling)
  {
  }

  lemma ArmedEarliest(ts: seq<Entry>, e: Entry, clock: int, calling: bool)
    requires ts == [] || e.when < ts[0].when
    ensures Armed(Set(clock, Max(e.when, clock + 100)), Insert(ts, e), calling)
  {
  }

  lemma ArmedErase(alarm: Alarm, ts: seq<Entry>, e: Entry, calling: bool)
    requires Armed(alarm, ts, calling) && Sorted(ts)
    ensures Armed(alarm, Erase(ts, e), calling)
  {
    if |ts| > 1 {
      assert Before(ts[0], ts[1]);
    }
  }

  /** Inside a handler a timer after 0 needs no alarm yet. */
  lemma ArmedLater(alarm: Alarm, ts: seq<Entry>, e: Entry)
    requires Armed(alarm, ts, true) && e.when > 0
    ensures Armed(alarm, Insert(ts, e), true)
  {
  }

  class TimerQueue {
    var mem: map<Addr, Timer>       // the timers allocated and not yet deleted
    var created: nat                // Timer::s_numCreated_
    var timers: seq<Entry>          // timers_, in set order
    var active: set<Id>             // activeTimers_
    var canceling: set<Id>          // cancelingTimers_
    var calling: bool               // callingExpiredTimers_
    var alarm: Alarm                // timerfd_
    ghost var waiting: set<Addr>    // created, `addTimerInLoop` still to come
    ghost var batch: set<Addr>      // taken by `getExpired`, not yet restarted or deleted
    ghost var history: seq<Event>

    ghost function Books(): Book
      reads this
    {
      Book(mem, created, timers, active, canceling, waiting, batch, history)
    }

    /** The queue as scripts see it is `stand`. */
    ghost predicate Stands(stand: Standing)
      reads this
    {
      Shown(mem, active, stand.queued) && stand.created == created
    }

    ghost function Stand(): Standing
      reads this
    {
      Standing(QueueOf(mem, active), created)
    }

    ghost predicate Valid()
      reads this
    {
      Kept(Books()) && (!calling ==> batch == {})
    }

    predicate IsArmed()
      reads this
    {
      Armed(alarm, timers, calling)
    }

    constructor ()
      ensures Valid() && IsArmed() && !calling && mem == map[] && history == [] && created == 0
    {
      mem, created, timers, active, canceling, calling, alarm := map[], 0, [], {}, {}, false, Off;
      waiting, batch, history := {}, {}, [];
    }

    method ResetTimerfd(when: int, clock: int)
      modifies this`alarm
      ensures alarm == Set(clock, Max(when, clock + 100))
    {
      var ts := HowMuchTimeFromNow(when, clock);
      alarm := Set(clock, clock + (ts.sec * MICROS_PER_SECOND + ts.nsec / 1000));
    }

    /** `new Timer`: any free address, the next sequence number. */
    method NewTimer(when: int, delta: nat, repeat: bool) returns (id: Id)
      requires Valid()
      modifies this`mem, this`created, this`waiting, this`history
      ensures Valid()
      ensures history == old(history) + [Created(id)]
      ensures id.addr !in old(mem) && id.sequence == created == old(created) + 1
      ensures mem == old(mem)[id.addr := Timer(when, delta, repeat, id.sequence)]
      ensures waiting == old(waiting) + {id.addr}
    {
      FreshAddr(mem);
      var a: Addr :| a !in mem;
      var t := Timer(when, delta, repeat, created + 1);
      KeptCreate(Books(), a, t);
      id := Id(a, t.sequence);
      mem, created, waiting, history := mem[a := t], t.sequence, waiting + {a}, history + [Created(id)];
    }

    /** Puts a waiting timer into both indexes, and sets the alarm if it is now the earliest. */
    method AddTimerInLoop(a: Addr, clock: int)
      requires Valid() && a in waiting
      modifies this`timers, this`active, this`waiting, this`alarm
      ensures Valid() && (old(IsArmed()) ==> IsArmed())
      ensures a in mem && timers == Insert(old(timers), Entry(mem[a].expiration, a))
      ensures Entry(mem[a].expiration, a) !in old(timers) && Id(a, mem[a].sequence) !in old(active)
      ensures active == old(active) + {Id(a, mem[a].sequence)} && waiting == old(waiting) - {a}
      ensures alarm == if old(timers) == [] || mem[a].expiration < old(timers)[0].when
                       then Set(clock, Max(mem[a].expiration, clock + 100)) else old(alarm)
    {
      KeptInsert(Books(), a);
      var t := mem[a];
      var e := Entry(t.expiration, a);
      var earliestChanged := timers == [] || t.expiration < timers[0].when;
      if earliestChanged {
        ArmedEarliest(timers, e, clock, calling);
      } else if IsArmed() {
        ArmedInsert(alarm, timers, e, calling);
      }
      timers := Insert(timers, e);
      active := active + {Id(a, t.sequence)};
      waiting := waiting - {a};
      if earliestChanged {
        ResetTimerfd(t.expiration, clock);
      }
    }

    /** The events a cancel is, if any. */
    ghost function CancelEvents(id: Id): seq<Event>
      reads this
    {
      if id in active then [Cancelled(id), Freed(id)]
      else if !Live(mem, id) then []
      else if calling && id.addr in batch then [Cancelled(id)]
      else [Missed(id)]
    }

    /** A cancel of a timer that is still allocated takes effect exactly if its `addTimerInLoop` has run. */
    lemma CancelTakesIff(id: Id)
      requires Valid() && Live(mem, id)
      ensures if id.addr in waiting then CancelEvents(id) == [Missed(id)] else [Cancelled(id)] <= CancelEvents(id)
    {
    }

    /**
     Takes a queued timer out of both indexes and frees it, or marks a batch timer; else nothing, which befalls a
     live timer exactly if it still waits for its `addTimerInLoop`.
     */
    method CancelInLoop(id: Id)
      requires Valid()
      modifies this`mem, this`timers, this`active, this`canceling, this`history
      ensures Valid() && (old(IsArmed()) ==> IsArmed())
      ensures history == old(history) + old(CancelEvents(id))
      ensures Live(old(mem), id) ==> (old(CancelEvents(id)) == [Missed(id)] <==> id.addr in waiting)
      ensures id in old(active) ==> mem == old(mem) - {id.addr} && |timers| == |old(timers)| - 1 && id.addr !in batch
      ensures id in old(active) ==> active == old(active) - {id}
      ensures id !in old(active) ==> mem == old(mem) && timers == old(timers) && active == old(active)
      ensures !Live(old(mem), id) ==> id !in old(active)
      ensures canceling == if id !in old(active) && calling then old(canceling) + {id} else old(canceling)
    {
      if Live(mem, id) {
        CancelTakesIff(id);
      }
      if id in active {
        CancelQueued(id);
      } else if calling {
        CancelRunning(id);
      } else {
        Note(id);
      }
    }

    /** Nothing happens but for the record. */
    ghost method Note(id: Id)
      requires Valid() && id !in active && !calling
      modifies this`history
      ensures Valid() && history == old(history) + old(CancelEvents(id))
    {
      if Live(mem, id) {
        KeptMiss(Books(), id);
      }
      history := history + CancelEvents(id);
      assert old(history) + [] == old(history);
    }

    method CancelQueued(id: Id)
      requires Valid() && id in active
      modifies this`mem, this`timers, this`active, this`history
      ensures Valid() && (old(IsArmed()) ==> IsArmed())
      ensures history == old(history) + [Cancelled(id), Freed(id)]
      ensures Live(old(mem), id) && mem == old(mem) - {id.addr} && |timers| == |old(timers)| - 1 && id.addr !in batch
      ensures active == old(active) - {id}
    {
      KeptCancel(Books(), id);
      assert id.addr !in batch by {
        if id.addr in batch {
          KeptBatch(Books(), id.addr);
        }
      }
      var e := Entry(mem[id.addr].expiration, id.addr);
      EraseRemoves(timers, e);
      if IsArmed() {
        ArmedErase(alarm, timers, e, calling);
      }
      timers := Erase(timers, e);
      mem := mem - {id.addr};
      active := active - {id};
      history := history + [Cancelled(id), Freed(id)];
    }

    method CancelRunning(id: Id)
      requires Valid() && id !in active && calling
      modifies this`canceling, this`history
      ensures Valid() && history == old(history) + old(CancelEvents(id)) && canceling == old(canceling) + {id}
    {
      KeptMark(Books(), id);
      if Live(mem, id) {
        KeptMiss(Books(), id);
      }
      history := history + CancelEvents(id);
      canceling := canceling + {id};
      assert old(history) + [] == old(history);
    }

    /** Moves out exactly the timers due by `now`, in order of expiration. */
    method GetExpired(now: int) returns (expired: seq<Entry>)
      requires Valid() && !calling
      modifies this`timers, this`active, this`batch
      ensures expired <= old(timers) && Books() == Taken(old(Books()), |expired|)
      ensures forall i :: 0 <= i < |old(timers)| ==> (old(timers)[i].when <= now <==> i < |expired|)
    {
      KeptSorted(Books());
      var n := LowerBound(timers, now);
      expired := timers[..n];
      EraseActive(expired);
      timers := timers[n..];
      batch := Addrs(expired);
    }

    /** The loop of `getExpired`: the expired timers leave the active set, where each of them is. */
    method EraseActive(expired: seq<Entry>)
      requires Valid() && expired <= timers
      modifies this`active
      ensures active == old(active) - ActiveOf(mem, expired)
      ensures forall i :: 0 <= i < |expired| ==> IdAt(mem, expired[i].addr) in old(active)
    {
      KeptActive(Books());
      var i := 0;
      while i < |expired|
        invariant 0 <= i <= |expired| && active == old(active) - ActiveOf(mem, expired[..i])
      {
        assert expired[i] == timers[i];
        ActiveOfAppend(mem, expired[..i], expired[i]);
        assert expired[..i] + [expired[i]] == expired[..i + 1];
        active := active - {Id(expired[i].addr, mem[expired[i].addr].sequence)};
        i := i + 1;
      }
      assert expired[..i] == expired;
    }

    /** One thing a callback does. */
    method Perform(action: Action, ghost was: Standing) returns (ghost place: Addr)
      requires Valid() && calling && Stands(was)
      modifies this`mem, this`created, this`timers, this`active, this`canceling, this`alarm,
               this`waiting, this`history
      ensures Valid() && (old(IsArmed()) ==> IsArmed()) && BatchKept(old(mem))
      ensures Later(old(history), history, [])
      ensures MarkedBy(batch, old(canceling), canceling, action)
      ensures Stands(Act(was, action, place))
    {
      place := 0;
      match action
      case Create(when, delta, repeat) =>
        var _ := PerformCreate(when, delta, repeat, was);
      case Add(when, delta, repeat, clock) =>
        place := PerformAdd(when, delta, repeat, clock, was);
      case Cancel(id) =>
        PerformCancel(id, was);
    }

    method PerformCreate(when: int, delta: nat, repeat: bool, ghost was: Standing) returns (id: Id)
      requires Valid() && Stands(was)
      modifies this`mem, this`created, this`waiting, this`history
      ensures Valid() && BatchKept(old(mem)) && Later(old(history), history, [])
      ensures Stands(Act(was, Create(when, delta, repeat), 0))
      ensures id.addr in waiting && id.addr in mem && id.sequence == was.created + 1
      ensures mem[id.addr] == Timer(when, delta, repeat, id.sequence)
    {
      BatchStays();
      id := NewTimer(when, delta, repeat);
      NoRuns(old(history), [Created(id)]);
      ShownCreate(old(mem), active, was.queued, id.addr, mem[id.addr]);
    }

    method PerformAdd(when: int, delta: nat, repeat: bool, clock: int, ghost was: Standing) returns (ghost place: Addr)
      requires Valid() && Stands(was)
      modifies this`mem, this`created, this`timers, this`active, this`alarm, this`waiting, this`history
      ensures Valid() && (old(IsArmed()) ==> IsArmed()) && BatchKept(old(mem)) && Later(old(history), history, [])
      ensures Stands(Act(was, Add(when, delta, repeat, clock), place))
    {
      var id := PerformCreate(when, delta, repeat, was);
      place := id.addr;
      ShownInsert(mem, active, was.queued, id.addr, id);
      AddTimerInLoop(id.addr, clock);
    }

    method PerformCancel(id: Id, ghost was: Standing)
      requires Valid() && calling && Stands(was)
      modifies this`mem, this`timers, this`active, this`canceling, this`history
      ensures Valid() && (old(IsArmed()) ==> IsArmed()) && BatchKept(old(mem)) && Later(old(history), history, [])
      ensures MarkedBy(batch, old(canceling), canceling, Cancel(id))
      ensures Stands(Act(was, Cancel(id), 0))
    {
      BatchStays();
      ShownCancel(Books(), was.queued, id);
      ghost var events := CancelEvents(id);
      NoRuns(history, events);
      CancelInLoop(id);
    }

    lemma BatchStays()
      requires Valid()
      ensures forall a :: a in batch ==> a in mem
      ensures forall id: Id :: id.addr in batch ==> id !in active
    {
      forall a | a in batch ensures a in mem && forall id: Id :: id.addr == a ==> id !in active {
        KeptBatch(Books(), a);
      }
    }

    method PerformAll(actions: seq<Action>, ghost was: Standing) returns (ghost places: seq<Addr>)
      requires Valid() && calling && Stands(was)
      modifies this`mem, this`created, this`timers, this`active, this`canceling, this`alarm,
               this`waiting, this`history
      ensures Valid() && (old(IsArmed()) ==> IsArmed()) && BatchKept(old(mem))
      ensures Later(old(history), history, [])
      ensures Marked(batch, old(canceling), canceling, actions, |actions|)
      ensures |places| == |actions| && Stands(Play(was, actions, places))
    {
      BatchStays();
      NoLater(history);
      ghost var trace := [was];
      places := [];
      var i := 0;
      while i < |actions|
        invariant 0 <= i <= |actions|
        invariant Valid() && (old(IsArmed()) ==> IsArmed()) && BatchKept(old(mem))
        invariant Later(old(history), history, [])
        invariant Marked(batch, old(canceling), canceling, actions, i)
        invariant |places| == i && Acted(trace, places, actions) && trace[0] == was && Stands(trace[i])
      {
        ghost var marks, before := canceling, history;
        ghost var place := Perform(actions[i], trace[i]);
        ghost var stand := Act(trace[i], actions[i], place);
        ActedNext(trace, places, actions, place, stand);
        trace, places := trace + [stand], places + [place];
        MarkedStep(batch, old(canceling), marks, canceling, actions, i);
        LaterStep(old(history), before, history, [], []);
        i := i + 1;
      }
      ActsEnd(trace, places, actions, i);
      assert actions[..i] == actions && places[..i] == places;
    }

    /** One callback of the batch, with whatever it does to the queue. */
    method RunTimer(a: Addr, actions: seq<Action>, ghost was: Standing) returns (ghost places: seq<Addr>)
      requires Valid() && calling && a in batch && Stands(was)
      modifies this`mem, this`created, this`timers, this`active, this`canceling, this`alarm,
               this`waiting, this`history
      ensures Valid() && (old(IsArmed()) ==> IsArmed()) && BatchKept(old(mem))
      ensures Later(old(history), history, [IdAt(old(mem), a)])
      ensures Marked(batch, old(canceling), canceling, actions, |actions|)
      ensures |places| == |actions| && Stands(Play(was, actions, places))
    {
      KeptRun(Books(), a);
      RunsAppend(history, Ran(IdAt(mem, a)));
      history := history + [Ran(IdAt(mem, a))];
      ghost var before := history;
      places := PerformAll(actions, was);
      LaterStep(old(history), before, history, [IdAt(old(mem), a)], []);
    }

    /** Runs the batch in order; `script` says what the i-th callback does. */
    method RunExpired(expired: seq<Entry>, script: nat -> seq<Action>, ghost was: Standing)
      returns (ghost trace: seq<Standing>, ghost places: seq<seq<Addr>>)
      requires Valid() && calling && batch == Addrs(expired) && Stands(was)
      modifies this`mem, this`created, this`timers, this`active, this`canceling, this`alarm,
               this`waiting, this`history
      ensures Valid() && (old(IsArmed()) ==> IsArmed())
      ensures |places| == |expired| && Traced(trace, places, script) && trace[0] == was && Stands(trace[|expired|])
      ensures RanUpTo(expired, script, |expired|, old(mem), old(history), old(canceling))
    {
      ghost var mem0, h0, marks0 := mem, history, canceling;
      trace, places := [was], [];
      NoneRan(expired, script);
      var i := 0;
      while i < |expired|
        invariant 0 <= i <= |expired|
        invariant Valid() && (old(IsArmed()) ==> IsArmed())
        invariant |places| == i && Traced(trace, places, script) && trace[0] == was && Stands(trace[i])
        invariant RanUpTo(expired, script, i, mem0, h0, marks0)
      {
        ghost var stand, more := RunOne(expired, script, i, mem0, h0, marks0, trace[i]);
        TracedNext(trace, places, script, more, stand);
        trace, places := trace + [stand], places + [more];
        i := i + 1;
      }
    }

    lemma NoneRan(expired: seq<Entry>, script: nat -> seq<Action>)
      requires Valid()
      ensures RanUpTo(expired, script, 0, mem, history, canceling)
    {
      BatchStays();
      NoLater(history);
      assert Ids(mem, expired[..0]) == [];
    }

    /** The first `i` callbacks have run since the timers, the history and the marks were as given. */
    ghost predicate RanUpTo(expired: seq<Entry>, script: nat -> seq<Action>, i: nat, mem0: map<Addr, Timer>,
                            h0: seq<Event>, marks0: set<Id>)
      requires i <= |expired|
      reads this
    {
      && BatchKept(mem0) && Later(h0, history, Ids(mem0, expired[..i]))
      && MarkedAll(batch, marks0, canceling, script, i)
    }

    method RunOne(expired: seq<Entry>, script: nat -> seq<Action>, i: nat, ghost mem0: map<Addr, Timer>,
                  ghost h0: seq<Event>, ghost marks0: set<Id>, ghost was: Standing)
      returns (ghost stand: Standing, ghost places: seq<Addr>)
      requires Valid() && calling && batch == Addrs(expired) && i < |expired| && Stands(was)
      requires RanUpTo(expired, script, i, mem0, h0, marks0)
      modifies this`mem, this`created, this`timers, this`active, this`canceling, this`alarm,
               this`waiting, this`history
      ensures Valid() && (old(IsArmed()) ==> IsArmed())
      ensures RanUpTo(expired, script, i + 1, mem0, h0, marks0)
      ensures |places| == |script(i)| && Stands(stand) && stand == Play(was, script(i), places)
    {
      InAddrs(expired, i);
      var a := expired[i].addr;
      places := RunTimer(a, script(i), was);
      stand := Play(was, script(i), places);
      IdsAppend(mem0, expired, i);
      LaterStep(h0, old(history), history, Ids(mem0, expired[..i]), [IdAt(mem0, a)]);
      MarkedAllStep(batch, marks0, old(canceling), canceling, script, i);
    }

    /** `reset` for one timer: back into both indexes with a new expiration, or freed. */
    method ResetOne(a: Addr, now: int, ghost queue: map<Id, Timer>)
      requires Valid() && calling && a in batch && Shown(mem, active, queue)
      modifies this`mem, this`timers, this`active, this`batch, this`history
      ensures Valid() && (now > 0 && old(IsArmed()) ==> IsArmed()) && batch == old(batch) - {a}
      ensures Outcome(old(mem), mem, timers, canceling, a, now)
      ensures SameBut(old(mem), mem, a) && SameEntriesBut(old(timers), timers, a)
      ensures Later(old(history), history, [])
      ensures Shown(mem, active, queue + Restart(old(mem), a, canceling, now))
    {
      KeptBatch(Books(), a);
      ShownReset(Books(), queue, canceling, a, now);
      var t := mem[a];
      if t.repeat && Id(a, t.sequence) !in canceling {
        RestartOne(a, now);
      } else {
        FreeOne(a);
      }
    }

    method RestartOne(a: Addr, now: int)
      requires Valid() && calling && a in batch && a in mem && mem[a].repeat && Id(a, mem[a].sequence) !in canceling
      modifies this`mem, this`timers, this`active, this`batch
      ensures Valid() && (now > 0 && old(IsArmed()) ==> IsArmed()) && batch == old(batch) - {a}
      ensures Outcome(old(mem), mem, timers, canceling, a, now)
      ensures SameBut(old(mem), mem, a) && SameEntriesBut(old(timers), timers, a)
      ensures Later(history, history, [])
      ensures mem == old(mem)[a := Restarted(old(mem)[a], now)] && active == old(active) + {IdAt(old(mem), a)}
    {
      var t := mem[a].(expiration := now + mem[a].delta);
      KeptRestart(Books(), a, t);
      RestartOutcome(mem, timers, canceling, a, now, t);
      if now > 0 && IsArmed() {
        ArmedLater(alarm, timers, Entry(t.expiration, a));
      }
      NoLater(history);
      mem, batch := mem[a := t], batch - {a};
      timers, active := Insert(timers, Entry(t.expiration, a)), active + {Id(a, t.sequence)};
    }

    method FreeOne(a: Addr)
      requires Valid() && calling && a in batch && a in mem
      requires !(mem[a].repeat && Id(a, mem[a].sequence) !in canceling)
      modifies this`mem, this`batch, this`history
      ensures Valid() && batch == old(batch) - {a} && mem == old(mem) - {a}
      ensures SameBut(old(mem), mem, a)
      ensures Later(old(history), history, [])
    {
      KeptFree(Books(), a);
      FreedLater(history, IdAt(mem, a));
      FreeSame(mem, a);
      mem, batch, history := mem - {a}, batch - {a}, history + [Freed(IdAt(mem, a))];
    }

    /** The loop of `reset`. */
    method ResetAll(expired: seq<Entry>, now: int, ghost queue: map<Id, Timer>)
      returns (ghost qs: seq<map<Id, Timer>>)
      requires Valid() && calling && batch == Addrs(expired) && Apart(expired) && Shown(mem, active, queue)
      modifies this`mem, this`timers, this`active, this`batch, this`history
      ensures Valid() && (now > 0 && old(IsArmed()) ==> IsArmed())
      ensures |qs| == |expired| + 1 && qs[0] == queue
      ensures ResetBy(expired, |expired|, now, old(mem), old(history), qs)
    {
      ghost var was, h0 := mem, history;
      qs := [queue];
      NoneReset(expired, now, queue);
      var i := 0;
      while i < |expired|
        invariant 0 <= i <= |expired|
        invariant Valid() && (now > 0 && old(IsArmed()) ==> IsArmed())
        invariant |qs| == i + 1 && qs[0] == queue && ResetBy(expired, i, now, was, h0, qs)
      {
        qs := ResetStep(expired, i, now, was, h0, qs);
        i := i + 1;
      }
    }

    lemma NoneReset(expired: seq<Entry>, now: int, queue: map<Id, Timer>)
      requires Valid() && batch == Addrs(expired) && Apart(expired) && Shown(mem, active, queue)
      ensures ResetBy(expired, 0, now, mem, history, [queue])
    {
      BatchStays();
      NoLater(history);
      assert expired[0..] == expired;
    }

    /** The first `i` timers of the batch have been reset; `qs` is the queue from one to the next. */
    ghost predicate ResetBy(expired: seq<Entry>, i: nat, now: int, was: map<Addr, Timer>, h0: seq<Event>,
                            qs: seq<map<Id, Timer>>)
      requires i <= |expired| && |qs| == i + 1
      reads this
    {
      && ResetUpTo(expired, i, now, was) && Later(h0, history, [])
      && Refilled(was, expired, canceling, now, qs) && Shown(mem, active, qs[i])
    }

    method ResetStep(expired: seq<Entry>, i: nat, now: int, ghost was: map<Addr, Timer>, ghost h0: seq<Event>,
                     ghost qs: seq<map<Id, Timer>>)
      returns (ghost qs': seq<map<Id, Timer>>)
      requires Valid() && calling && i < |expired| && |qs| == i + 1 && ResetBy(expired, i, now, was, h0, qs)
      modifies this`mem, this`timers, this`active, this`batch, this`history
      ensures Valid() && (now > 0 && old(IsArmed()) ==> IsArmed())
      ensures |qs'| == i + 2 && qs'[0] == qs[0] && ResetBy(expired, i + 1, now, was, h0, qs')
    {
      ghost var before := history;
      ghost var q := ResetNext(expired, i, now, was, qs[i]);
      RefilledNext(was, expired, canceling, now, qs, q);
      LaterStep(h0, before, history, [], []);
      qs' := qs + [q];
    }

    ghost predicate ResetUpTo(expired: seq<Entry>, i: nat, now: int, was: map<Addr, Timer>)
      requires i <= |expired|
      reads this
    {
      && batch == Addrs(expired[i..]) && batch <= Addrs(expired) && Apart(expired[i..])
      && Outcomes(was, mem, timers, canceling, Addrs(expired) - batch, now)
      && Unmoved(was, mem, batch)
    }

    method ResetNext(expired: seq<Entry>, i: nat, now: int, ghost was: map<Addr, Timer>, ghost queue: map<Id, Timer>)
      returns (ghost queue': map<Id, Timer>)
      requires Valid() && calling && i < |expired| && ResetUpTo(expired, i, now, was)
      requires Shown(mem, active, queue)
      modifies this`mem, this`timers, this`active, this`batch, this`history
      ensures Valid() && (now > 0 && old(IsArmed()) ==> IsArmed()) && ResetUpTo(expired, i + 1, now, was)
      ensures Later(old(history), history, [])
      ensures Shown(mem, active, queue') && queue' == queue + Restart(was, expired[i].addr, canceling, now)
    {
      AddrsHead(expired, i);
      var a := expired[i].addr;
      queue' := queue + Restart(mem, a, canceling, now);
      assert a in was && a in mem && mem[a] == was[a];
      ResetOne(a, now, queue);
      OutcomeFrom(old(mem), was, mem, timers, canceling, a, now);
      OutcomesKept(was, old(mem), mem, old(timers), timers, canceling, Addrs(expired) - old(batch), a, now);
      UnmovedKept(was, old(mem), mem, old(batch), batch, a);
    }

    /** Restarts or frees the whole batch, then sets the alarm for the earliest timer left, if it is due after 0. */
    method Reset(expired: seq<Entry>, now: int, clock: int, ghost queue: map<Id, Timer>)
      requires Valid() && calling && batch == Addrs(expired) && Apart(expired) && Shown(mem, active, queue)
      modifies this`mem, this`timers, this`active, this`batch, this`history, this`calling, this`alarm
      ensures Valid() && !calling && Later(old(history), history, [])
      ensures Outcomes(old(mem), mem, timers, canceling, Addrs(expired), now)
      ensures alarm == if timers != [] && timers[0].when > 0 then Set(clock, Max(timers[0].when, clock + 100))
                       else old(alarm)
      ensures now > 0 && old(IsArmed()) ==> IsArmed()
      ensures Shown(mem, active, queue + Restarts(old(mem), expired, canceling, now))
    {
      ghost var qs := ResetAll(expired, now, queue);
      RefilledEnds(old(mem), expired, canceling, now, qs, |expired|);
      assert expired[..|expired|] == expired && expired[|expired|..] == [];
      calling := false;
      KeptFirst(Books());
      if timers != [] {
        var next := mem[timers[0].addr].expiration;
        if next > 0 {
          ResetTimerfd(next, clock);
        }
      }
    }

    /**
     The alarm fired: takes the batch, runs it, puts back what repeats, sets the next alarm. The queue is then what
     the callbacks make of the timers not due, and what is put back; `places` are the addresses of the new timers.
     Afterwards the alarm covers the earliest timer if the clock is past 0, or if every timer left is due after 0.
     */
    method HandleRead(now: int, script: nat -> seq<Action>, clock: int)
      returns (ghost expired: seq<Entry>, ghost places: seq<Addr>)
      requires Valid() && !calling
      modifies this
      ensures Valid() && !calling
      ensures expired <= old(timers)
      ensures forall i :: 0 <= i < |old(timers)| ==> (old(timers)[i].when <= now <==> i < |expired|)
      ensures old(history) + [Started] <= history && Later(old(history), history, Ids(old(mem), expired))
      ensures Outcomes(old(mem), mem, timers, canceling, Addrs(expired), now)
      ensures forall id: Id :: id.addr in Addrs(expired) ==> (id in canceling <==> AsksCancel(script, |expired|, id))
      ensures now > 0 || timers == [] || timers[0].when > 0 ==> IsArmed()
      ensures |places| == |Actions(script, |expired|)|
      ensures Stand() == Handled(old(Stand()), old(mem), expired, script, places, canceling, now)
    {
      ghost var was := Stand();
      var taken := TakeBatch(now);
      expired := taken;
      ghost var before := history;
      ghost var trace, hops := RunBatch(taken, now, script, clock, Without(was, old(mem), taken));
      TraceEnds(trace, hops, script);
      places := Flat(hops);
      ShownIs(Books());
      LaterStep(old(history), before, history, [], Ids(old(mem), taken));
    }

    method TakeBatch(now: int) returns (expired: seq<Entry>)
      requires Valid() && !calling
      modifies this`timers, this`active, this`batch, this`alarm, this`calling, this`canceling, this`history
      ensures Valid() && calling && batch == Addrs(expired) && Apart(expired) && canceling == {}
      ensures expired <= old(timers)
      ensures forall i :: 0 <= i < |old(timers)| ==> (old(timers)[i].when <= now <==> i < |expired|)
      ensures history == old(history) + [Started] && Later(old(history), history, []) && (now > 0 ==> IsArmed())
      ensures Stands(Without(old(Stand()), mem, expired))
    {
      ghost var before := Books();
      expired := TakeExpired(now);
      StartBatch(before, |expired|);
    }

    /** Reads the descriptor, which turns the alarm off, and takes what is due. */
    method TakeExpired(now: int) returns (expired: seq<Entry>)
      requires Valid() && !calling
      modifies this`timers, this`active, this`batch, this`alarm
      ensures expired <= old(timers) && Books() == Taken(old(Books()), |expired|)
      ensures batch == Addrs(expired) && Apart(expired) && (now > 0 ==> Armed(alarm, timers, true))
      ensures forall i :: 0 <= i < |old(timers)| ==> (old(timers)[i].when <= now <==> i < |expired|)
      ensures Stands(Without(old(Stand()), mem, expired))
    {
      alarm := Off;
      ghost var before := Books();
      expired := GetExpired(now);
      TakenFacts(before, expired, now);
      ShownTaken(before, expired);
    }

    /** Raises the calling flag and clears the marks. */
    method StartBatch(ghost was: Book, ghost n: nat)
      requires Kept(was) && was.batch == {} && n <= |was.timers| && Books() == Taken(was, n)
      modifies this`calling, this`canceling, this`history
      ensures Valid() && calling && canceling == {}
      ensures history == old(history) + [Started] && Later(old(history), history, [])
    {
      KeptStart(was, n);
      RunsAppend(history, Started);
      calling := true;
      canceling := {};
      history := history + [Started];
    }

    method RunBatch(expired: seq<Entry>, now: int, script: nat -> seq<Action>, clock: int, ghost was: Standing)
      returns (ghost trace: seq<Standing>, ghost places: seq<seq<Addr>>)
      requires Valid() && calling && batch == Addrs(expired) && Apart(expired) && Stands(was)
      modifies this
      ensures Valid() && !calling
      ensures Later(old(history), history, Ids(old(mem), expired))
      ensures Outcomes(old(mem), mem, timers, canceling, Addrs(expired), now)
      ensures MarkedAll(Addrs(expired), old(canceling), canceling, script, |expired|)
      ensures now > 0 && old(IsArmed()) ==> IsArmed()
      ensures timers == [] || timers[0].when > 0 ==> IsArmed()
      ensures |places| == |expired| && Traced(trace, places, script) && trace[0] == was
      ensures Stands(Settle(trace[|expired|], old(mem), expired, canceling, now))
    {
      trace, places := RunExpired(expired, script, was);
      assert expired[..|expired|] == expired;
      ghost var ran, before, played := mem, history, trace[|expired|];
      SameTimers(ran, old(mem), batch, expired);
      Reset(expired, now, clock, played.queued);
      RestartsSame(ran, old(mem), expired, canceling, now);
      LaterStep(old(history), before, history, Ids(old(mem), expired), []);
      OutcomesFrom(ran, old(mem), mem, timers, canceling, Addrs(expired), now);
    }

    /** The running batch is untouched. */
    ghost predicate BatchKept(was: map<Addr, Timer>)
      reads this
    {
      forall a :: a in batch ==> a in mem && a in was && mem[a] == was[a]
    }
  }

  /** A timer is created by another thread and cancelled before it is added. */
  method CancelledTooSoon() returns (q: TimerQueue, id: Id)
    ensures fresh(q) && q.Valid() && !q.calling && q.timers == [] && id.addr in q.waiting
    ensures id.addr in q.mem && q.mem[id.addr] == Timer(0, 0, false, id.sequence)
    ensures q.history == [Created(id), Missed(id)]
  {
    q := new TimerQueue();
    id := q.NewTimer(0, 0, false);
    q.CancelInLoop(id);
  }

  /** A cancel can be lost: the timer runs all the same. */
  method LostCancel() returns (q: TimerQueue, id: Id)
    ensures q.Valid() && [Created(id), Missed(id)] <= q.history && Ran(id) in q.history
  {
    q, id := CancelledTooSoon();
    q.AddTimerInLoop(id.addr, 0);
    ghost var due, mem, before := q.timers, q.mem, q.history;
    ghost var expired, places := q.HandleRead(0, (i: nat) => [], 0);
    assert due[0].when <= 0 && expired == due;
    OneRan(mem, before, q.history, due, id);
  }

  lemma OneRan(mem: map<Addr, Timer>, was: seq<Event>, h: seq<Event>, due: seq<Entry>, id: Id)
    requires |due| == 1 && IdAt(mem, due[0].addr) == id && Later(was, h, Ids(mem, due))
    ensures Ran(id) in h
  {
    assert Runs(h)[|Runs(was)|] == id;
    RunsAre(h, id);
  }

  // ---------- small facts ----------

  lemma KeptSorted(b: Book)
    requires Kept(b)
    ensures Sorted(b.timers)
  {
  }

  lemma KeptFirst(b: Book)
    requires Kept(b)
    ensures b.timers != [] ==> b.timers[0].addr in b.mem && b.mem[b.timers[0].addr].expiration == b.timers[0].when
  {
    if b.timers != [] {
      assert b.timers[0] in b.timers;
    }
  }

  /** Every entry of the list is an active timer. */
  lemma KeptActive(b: Book)
    requires Kept(b)
    ensures forall i {:trigger b.timers[i]} :: 0 <= i < |b.timers| ==>
              b.timers[i].addr in b.mem && IdAt(b.mem, b.timers[i].addr) in b.active
  {
    forall i {:trigger b.timers[i]} | 0 <= i < |b.timers|
      ensures b.timers[i].addr in b.mem && IdAt(b.mem, b.timers[i].addr) in b.active
    {
      var e := b.timers[i];
      assert e in b.timers && Queued(b.mem, b.timers, e.addr) && Live(b.mem, IdAt(b.mem, e.addr));
    }
  }

  /** The identities of the timers of some entries. */
  ghost function ActiveOf(mem: map<Addr, Timer>, es: seq<Entry>): set<Id> {
    set e | e in es :: IdAt(mem, e.addr)
  }

  lemma ActiveOfAppend(mem: map<Addr, Timer>, es: seq<Entry>, e: Entry)
    ensures ActiveOf(mem, es + [e]) == ActiveOf(mem, es) + {IdAt(mem, e.addr)}
  {
    forall id | id in ActiveOf(mem, es) + {IdAt(mem, e.addr)} ensures id in ActiveOf(mem, es + [e]) {
      if id == IdAt(mem, e.addr) {
        assert e in es + [e];
      } else {
        var x :| x in es && IdAt(mem, x.addr) == id;
        assert x in es + [e];
      }
    }
  }

  /** `h'` continues `h`, and `ran` are the timers run in between. */
  ghost predicate Later(h: seq<Event>, h': seq<Event>, ran: seq<Id>) {
    h <= h' && Runs(h') == Runs(h) + ran
  }

  lemma NoLater(h: seq<Event>)
    ensures Later(h, h, [])
  {
    assert Runs(h) + [] == Runs(h);
  }

  lemma LaterStep(h: seq<Event>, h': seq<Event>, h'': seq<Event>, ran: seq<Id>, ran': seq<Id>)
    requires Later(h, h', ran) && Later(h', h'', ran')
    ensures Later(h, h'', ran + ran') && (ran' == [] ==> Later(h, h'', ran)) && (ran == [] ==> Later(h, h'', ran'))
  {
    assert Runs(h) + ran + ran' == Runs(h) + (ran + ran');
    assert ran' == [] ==> ran + ran' == ran;
    assert ran == [] ==> ran + ran' == ran';
  }

  /** A batch of the timers due by `now`: distinct addresses, and what is left is due later. */
  lemma TakenFacts(b: Book, expired: seq<Entry>, now: int)
    requires Kept(b) && b.batch == {} && expired <= b.timers
    requires forall i :: 0 <= i < |b.timers| ==> (b.timers[i].when <= now <==> i < |expired|)
    ensures Taken(b, |expired|).batch == Addrs(expired) && Apart(expired)
    ensures now > 0 ==> Armed(Off, Taken(b, |expired|).timers, true)
  {
    KeptStart(b, |expired|);
    assert b.timers[..|expired|] == expired;
    ApartIs(expired);
    var rest := b.timers[|expired|..];
    assert rest != [] ==> rest[0] == b.timers[|expired|];
  }

  lemma InAddrs(es: seq<Entry>, i: nat)
    requires i < |es|
    ensures es[i].addr in Addrs(es)
  {
    assert es[i] in es;
  }

  ghost predicate SameBut(mem: map<Addr, Timer>, mem': map<Addr, Timer>, a: Addr) {
    mem - {a} == mem' - {a}
  }

  ghost predicate SameEntriesBut(ts: seq<Entry>, ts': seq<Entry>, a: Addr) {
    forall e: Entry :: e.addr != a ==> (e in ts' <==> e in ts)
  }

  ghost function Addrs(es: seq<Entry>): set<Addr> {
    set e | e in es :: e.addr
  }

  /** The batch has left the queue. */
  ghost function Without(stand: Standing, mem: map<Addr, Timer>, expired: seq<Entry>): Standing {
    stand.(queued := stand.queued - ActiveOf(mem, expired))
  }

  /** What is put back has joined it. */
  function Settle(stand: Standing, mem: map<Addr, Timer>, expired: seq<Entry>, canceling: set<Id>, now: int): Standing {
    stand.(queued := stand.queued + Restarts(mem, expired, canceling, now))
  }

  /** The queue after `handleRead`: the batch leaves, the callbacks play, and what is restarted comes back. */
  ghost function Handled(was: Standing, mem: map<Addr, Timer>, expired: seq<Entry>, script: nat -> seq<Action>,
                         places: seq<Addr>, canceling: set<Id>, now: int): Standing
    requires |places| == |Actions(script, |expired|)|
  {
    Settle(Play(Without(was, mem, expired), Actions(script, |expired|), places), mem, expired, canceling, now)
  }

  /** In every state of the queue what `HandledIff` asks for holds. */
  lemma HandledApplies(b: Book, expired: seq<Entry>)
    requires Kept(b) && expired <= b.timers
    ensures Counted(Standing(QueueOf(b.mem, b.active), b.created))
    ensures forall e :: e in expired ==> e.addr in b.mem && b.mem[e.addr].sequence <= b.created
  {
    ShownIs(b);
    forall e | e in expired ensures e.addr in b.mem && b.mem[e.addr].sequence <= b.created {
      assert e in b.timers;
    }
  }

  /** Timer `id` of the batch repeats and is not marked; `t` is what becomes of it. */
  ghost predicate IsRestarted(mem: map<Addr, Timer>, expired: seq<Entry>, canceling: set<Id>, now: int, id: Id,
                              t: Timer) {
    && id.addr in Addrs(expired) && Live(mem, id) && mem[id.addr].repeat && id !in canceling
    && t == mem[id.addr].(expiration := now + mem[id.addr].delta)
  }

  /**
   What is queued after `handleRead`: exactly the timers that were not due and that no callback cancels, the timers
   the callbacks add and do not cancel afterwards, and the repeating timers of the batch that are not marked.
   */
  lemma HandledIff(was: Standing, mem: map<Addr, Timer>, expired: seq<Entry>, script: nat -> seq<Action>,
                   places: seq<Addr>, canceling: set<Id>, now: int, id: Id, t: Timer)
    requires |places| == |Actions(script, |expired|)| && Counted(was)
    requires forall e :: e in expired ==> e.addr in mem && mem[e.addr].sequence <= was.created
    ensures var actions := Actions(script, |expired|);
            Holds(Handled(was, mem, expired, script, places, canceling, now).queued, id, t) <==>
            || (Holds(was.queued, id, t) && id !in ActiveOf(mem, expired) && Cancel(id) !in actions)
            || IsAdded(was.created, actions, places, id, t)
            || IsRestarted(mem, expired, canceling, now, id, t)
    ensures Handled(was, mem, expired, script, places, canceling, now).created
         == was.created + News(Actions(script, |expired|))
  {
    var stand, actions := Without(was, mem, expired), Actions(script, |expired|);
    PlayedIff(stand, actions, places, id, t);
    PlayCounts(stand, actions, places);
    RestartsIff(mem, expired, canceling, now, id, t);
    if id in Restarts(mem, expired, canceling, now) {
      RestartsApart(was, mem, expired, places, actions, canceling, now, id, t);
    }
  }

  /** What is put back was in the batch, so it is neither among the others nor new. */
  lemma RestartsApart(was: Standing, mem: map<Addr, Timer>, expired: seq<Entry>, places: seq<Addr>,
                      actions: seq<Action>, canceling: set<Id>, now: int, id: Id, t: Timer)
    requires |places| == |actions|
    requires forall e :: e in expired ==> e.addr in mem && mem[e.addr].sequence <= was.created
    requires id in Restarts(mem, expired, canceling, now)
    ensures id in ActiveOf(mem, expired) && !IsAdded(was.created, actions, places, id, t)
  {
    var r := Restarts(mem, expired, canceling, now);
    RestartsIff(mem, expired, canceling, now, id, r[id]);
    var e :| e in expired && e.addr == id.addr;
    assert id == IdAt(mem, e.addr);
  }

  /** One of the first `n` actions cancels exactly `id`. */
  predicate Asks(actions: seq<Action>, n: nat, id: Id)
    requires n <= |actions|
  {
    n > 0 && (Asks(actions, n - 1, id) || actions[n - 1] == Cancel(id))
  }

  /** One of the first `n` callbacks cancels exactly `id`. */
  predicate AsksCancel(script: nat -> seq<Action>, n: nat, id: Id) {
    n > 0 && (AsksCancel(script, n - 1, id) || Asks(script(n - 1), |script(n - 1)|, id))
  }

  lemma {:induction false} AsksIff(actions: seq<Action>, n: nat, id: Id)
    requires n <= |actions|
    ensures Asks(actions, n, id) <==> Cancel(id) in actions[..n]
  {
    if n > 0 {
      AsksIff(actions, n - 1, id);
      assert actions[..n] == actions[..n - 1] + [actions[n - 1]];
    }
  }

  lemma {:induction false} AsksCancelIff(script: nat -> seq<Action>, n: nat, id: Id)
    ensures AsksCancel(script, n, id) <==> Cancel(id) in Actions(script, n)
  {
    if n > 0 {
      AsksCancelIff(script, n - 1, id);
      AsksIff(script(n - 1), |script(n - 1)|, id);
      assert script(n - 1)[..|script(n - 1)|] == script(n - 1);
    }
  }

  /** Of the batch's identities, exactly the ones the first `n` actions cancel were added to the marks. */
  ghost predicate Marked(batch: set<Addr>, before: set<Id>, after: set<Id>, actions: seq<Action>, n: nat)
    requires n <= |actions|
  {
    forall id: Id :: id.addr in batch ==> (id in after <==> id in before || Asks(actions, n, id))
  }

  ghost predicate MarkedBy(batch: set<Addr>, before: set<Id>, after: set<Id>, action: Action) {
    forall id: Id :: id.addr in batch ==> (id in after <==> id in before || action == Cancel(id))
  }

  lemma MarkedStep(batch: set<Addr>, before: set<Id>, marks: set<Id>, after: set<Id>, actions: seq<Action>, n: nat)
    requires n < |actions| && Marked(batch, before, marks, actions, n)
    requires MarkedBy(batch, marks, after, actions[n])
    ensures Marked(batch, before, after, actions, n + 1)
  {
  }

  /** The same for the first `n` callbacks. */
  ghost predicate MarkedAll(batch: set<Addr>, before: set<Id>, after: set<Id>, script: nat -> seq<Action>, n: nat) {
    forall id: Id :: id.addr in batch ==> (id in after <==> id in before || AsksCancel(script, n, id))
  }

  lemma MarkedAllStep(batch: set<Addr>, before: set<Id>, marks: set<Id>, after: set<Id>,
                      script: nat -> seq<Action>, n: nat)
    requires MarkedAll(batch, before, marks, script, n)
    requires Marked(batch, marks, after, script(n), |script(n)|)
    ensures MarkedAll(batch, before, after, script, n + 1)
  {
  }

  function IdAt(mem: map<Addr, Timer>, a: Addr): Id {
    Id(a, if a in mem then mem[a].sequence else 0)
  }

  function Ids(mem: map<Addr, Timer>, es: seq<Entry>): seq<Id> {
    seq(|es|, i requires 0 <= i < |es| => IdAt(mem, es[i].addr))
  }

  lemma IdsAppend(mem: map<Addr, Timer>, es: seq<Entry>, i: nat)
    requires i < |es|
    ensures Ids(mem, es[..i + 1]) == Ids(mem, es[..i]) + [IdAt(mem, es[i].addr)]
  {
  }

  /** What `reset` makes of a batch timer: back in the queue for `now` plus its interval, or gone. */
  ghost predicate Outcome(was: map<Addr, Timer>, mem: map<Addr, Timer>, ts: seq<Entry>, canceling: set<Id>, a: Addr,
                          now: int) {
    a in was &&
    var t := was[a];
    if t.repeat && Id(a, t.sequence) !in canceling
    then a in mem && mem[a] == t.(expiration := now + t.delta) && Entry(now + t.delta, a) in ts
    else a !in mem
  }

  lemma SameElsewhere(mem: map<Addr, Timer>, mem': map<Addr, Timer>, a: Addr, x: Addr)
    requires SameBut(mem, mem', a) && x != a
    ensures x in mem <==> x in mem'
    ensures x in mem ==> mem[x] == mem'[x]
  {
    assert x in mem <==> x in mem - {a};
    assert x in mem' <==> x in mem' - {a};
    assert x in mem ==> (mem - {a})[x] == mem[x] && (mem' - {a})[x] == mem'[x];
  }

  lemma OutcomeKept(was: map<Addr, Timer>, mem: map<Addr, Timer>, mem': map<Addr, Timer>, ts: seq<Entry>,
                    ts': seq<Entry>, canceling: set<Id>, a: Addr, other: Addr, now: int)
    requires Outcome(was, mem, ts, canceling, a, now) && a != other
    requires SameBut(mem, mem', other) && SameEntriesBut(ts, ts', other)
    ensures Outcome(was, mem', ts', canceling, a, now)
  {
    SameElsewhere(mem, mem', other, a);
  }

  ghost predicate Outcomes(was: map<Addr, Timer>, mem: map<Addr, Timer>, ts: seq<Entry>, canceling: set<Id>,
                           those: set<Addr>, now: int) {
    forall a :: a in those ==> Outcome(was, mem, ts, canceling, a, now)
  }

  lemma OutcomesKept(was: map<Addr, Timer>, mem: map<Addr, Timer>, mem': map<Addr, Timer>, ts: seq<Entry>,
                     ts': seq<Entry>, canceling: set<Id>, those: set<Addr>, a: Addr, now: int)
    requires Outcomes(was, mem, ts, canceling, those, now) && a !in those
    requires SameBut(mem, mem', a) && SameEntriesBut(ts, ts', a) && Outcome(was, mem', ts', canceling, a, now)
    ensures Outcomes(was, mem', ts', canceling, those + {a}, now)
  {
    forall x | x in those ensures Outcome(was, mem', ts', canceling, x, now) {
      OutcomeKept(was, mem, mem', ts, ts', canceling, x, a, now);
    }
  }

  ghost predicate Unmoved(was: map<Addr, Timer>, mem: map<Addr, Timer>, batch: set<Addr>) {
    forall a :: a in batch ==> a in was && a in mem && mem[a] == was[a]
  }

  lemma UnmovedKept(was: map<Addr, Timer>, mem: map<Addr, Timer>, mem': map<Addr, Timer>, batch: set<Addr>,
                    batch': set<Addr>, a: Addr)
    requires Unmoved(was, mem, batch) && batch' == batch - {a} && SameBut(mem, mem', a)
    ensures Unmoved(was, mem', batch')
  {
    forall x | x in batch' ensures x in was && x in mem' && mem'[x] == was[x] {
      SameElsewhere(mem, mem', a, x);
    }
  }

  lemma SameTimers(mem: map<Addr, Timer>, was: map<Addr, Timer>, batch: set<Addr>, es: seq<Entry>)
    requires batch == Addrs(es)
    requires forall a :: a in batch ==> a in mem && a in was && mem[a] == was[a]
    ensures forall i {:trigger es[i]} :: 0 <= i < |es| ==>
              es[i].addr in mem && es[i].addr in was && mem[es[i].addr] == was[es[i].addr]
  {
  }

  lemma OutcomeFrom(ran: map<Addr, Timer>, was: map<Addr, Timer>, mem: map<Addr, Timer>, ts: seq<Entry>,
                    canceling: set<Id>, a: Addr, now: int)
    requires Outcome(ran, mem, ts, canceling, a, now)
    requires a in ran && a in was && ran[a] == was[a]
    ensures Outcome(was, mem, ts, canceling, a, now)
  {
  }

  lemma OutcomesFrom(ran: map<Addr, Timer>, was: map<Addr, Timer>, mem: map<Addr, Timer>, ts: seq<Entry>,
                     canceling: set<Id>, those: set<Addr>, now: int)
    requires Outcomes(ran, mem, ts, canceling, those, now)
    requires forall a :: a in those ==> a in ran && a in was && ran[a] == was[a]
    ensures Outcomes(was, mem, ts, canceling, those, now)
  {
    forall a | a in those ensures Outcome(was, mem, ts, canceling, a, now) {
      OutcomeFrom(ran, was, mem, ts, canceling, a, now);
    }
  }

  lemma FreedLater(h: seq<Event>, id: Id)
    ensures Later(h, h + [Freed(id)], [])
  {
    RunsAppend(h, Freed(id));
  }

  lemma FreeSame(mem: map<Addr, Timer>, a: Addr)
    ensures SameBut(mem, mem - {a}, a)
  {
    assert mem - {a} - {a} == mem - {a};
  }

  lemma RestartOutcome(mem: map<Addr, Timer>, ts: seq<Entry>, canceling: set<Id>, a: Addr, now: int, t: Timer)
    requires a in mem && mem[a].repeat && Id(a, mem[a].sequence) !in canceling
    requires t == mem[a].(expiration := now + mem[a].delta)
    ensures Outcome(mem, mem[a := t], Insert(ts, Entry(t.expiration, a)), canceling, a, now)
    ensures SameBut(mem, mem[a := t], a) && SameEntriesBut(ts, Insert(ts, Entry(t.expiration, a)), a)
  {
    InsertAdds(ts, Entry(t.expiration, a));
    assert mem[a := t] - {a} == mem - {a};
  }

  lemma AddrsAppend(es: seq<Entry>, e: Entry)
    ensures Addrs(es + [e]) == Addrs(es) + {e.addr}
  {
  }

  /** No two entries have the same address. */
  ghost predicate Apart(es: seq<Entry>) {
    es == [] || (es[0].addr !in Addrs(es[1..]) && Apart(es[1..]))
  }

  lemma {:induction false} ApartIs(es: seq<Entry>)
    requires DistinctAddrs(es)
    ensures Apart(es)
  {
    if es != [] {
      ApartIs(es[1..]);
    }
  }

  lemma AddrsHead(es: seq<Entry>, i: nat)
    requires i < |es| && Apart(es[i..])
    ensures es[i].addr in Addrs(es[i..]) && es[i].addr in Addrs(es)
    ensures Addrs(es[i + 1..]) == Addrs(es[i..]) - {es[i].addr} && Apart(es[i + 1..])
  {
    assert es[i..][0] == es[i] && es[i..][1..] == es[i + 1..];
    assert es[i..] == [es[i]] + es[i + 1..];
  }

  lemma NoRuns(h: seq<Event>, events: seq<Event>)
    requires forall e :: e in events ==> !e.Ran?
    ensures Runs(h + events) == Runs(h) && Later(h, h + events, [])
  {
    if events == [] {
      assert h + events == h;
    } else {
      var n := |events| - 1;
      NoRuns(h, events[..n]);
      RunsAppend(h + events[..n], events[n]);
      assert h + events[..n] + [events[n]] == h + events;
    }
  }
}
