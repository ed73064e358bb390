/** What happened to timers over a whole run, and what the queue's state says about it. */
module TimerHistory {
  import opened TimerSets

  datatype Event =
    | Created(id: Id)
    | Started              // a `handleRead` began running its batch
    | Ran(id: Id)
    | Cancelled(id: Id)    // a cancel found its timer queued or in the running batch
    | Missed(id: Id)       // a cancel came before its timer's `addTimerInLoop`
    | Freed(id: Id)

  /** What a history comes to: who exists, is freed, is cancelled, and whose cancel a later `handleRead` followed. */
  datatype Ledger = Ledger(alive: set<Id>, freed: set<Id>, cancelled: set<Id>, settled: set<Id>, top: nat)

  const BLANK := Ledger({}, {}, {}, {}, 0)

  function Enter(l: Ledger, e: Event): Ledger {
    match e
    case Created(id) => l.(alive := l.alive + {id}, top := id.sequence)
    case Started => l.(settled := l.settled + l.cancelled)
    case Ran(_) => l
    case Cancelled(id) => l.(cancelled := l.cancelled + {id})
    case Missed(_) => l
    case Freed(id) => l.(alive := l.alive - {id}, freed := l.freed + {id})
  }

  function Sums(h: seq<Event>): Ledger {
    if h == [] then BLANK else Enter(Sums(h[..|h| - 1]), h[|h| - 1])
  }

  /** Sequence numbers ascend; everything else happens to timers that exist, and no run comes after a settled cancel. */
  predicate Allowed(l: Ledger, e: Event) {
    match e
    case Created(id) => id.sequence > l.top && id !in l.freed
    case Started => true
    case Ran(id) => id in l.alive && id !in l.settled
    case Cancelled(id) => id in l.alive
    case Missed(id) => id in l.alive
    case Freed(id) => id in l.alive
  }

  predicate Sound(h: seq<Event>) {
    h == [] || (Sound(h[..|h| - 1]) && Allowed(Sums(h[..|h| - 1]), h[|h| - 1]))
  }

  lemma Append(h: seq<Event>, e: Event)
    ensures Sums(h + [e]) == Enter(Sums(h), e)
    ensures Sound(h + [e]) <==> Sound(h) && Allowed(Sums(h), e)
  {
    assert (h + [e])[..|h|] == h;
  }

  // ---------- event by event ----------

  lemma {:induction false} SoundAt(h: seq<Event>, j: nat)
    requires Sound(h) && j < |h|
    ensures Sound(h[..j]) && Allowed(Sums(h[..j]), h[j])
  {
    var n := |h| - 1;
    if j < n {
      SoundAt(h[..n], j);
      assert h[..n][..j] == h[..j];
    }
  }

  /** What the sums say of an event in the history. */
  lemma {:induction false} SumsOf(h: seq<Event>, i: nat)
    requires Sound(h) && i < |h|
    ensures var l, e := Sums(h), h[i];
            && (e.Created? ==> e.id.sequence <= l.top)
            && (e.Freed? ==> e.id in l.freed && e.id !in l.alive)
            && (e.Cancelled? ==> e.id in l.cancelled)
  {
    var n := |h| - 1;
    if i < n {
      SumsOf(h[..n], i);
    }
  }

  lemma {:induction false} SettledOnce(h: seq<Event>, i: nat, k: nat)
    requires Sound(h) && i < k < |h| && h[i].Cancelled? && h[k] == Started
    ensures h[i].id in Sums(h).settled
  {
    var n := |h| - 1;
    if k < n {
      SettledOnce(h[..n], i, k);
    } else {
      SumsOf(h[..n], i);
    }
  }

  lemma {:induction false} AliveIff(h: seq<Event>, id: Id)
    requires Sound(h)
    ensures id in Sums(h).alive <==> Created(id) in h && Freed(id) !in h
    ensures id in Sums(h).freed ==> Freed(id) in h
  {
    if h != [] {
      var n := |h| - 1;
      AliveIff(h[..n], id);
      assert h == h[..n] + [h[n]];
      if h[n] == Created(id) && Freed(id) in h[..n] {
        var i :| 0 <= i < n && h[..n][i] == Freed(id);
        SumsOf(h[..n], i);
      }
    }
  }

  /** A sound history, event by event. */
  lemma SoundMeans(h: seq<Event>, i: nat, j: nat, id: Id)
    requires Sound(h) && i < j < |h|
    ensures h[i].Created? && h[j].Created? ==> h[i].id.sequence < h[j].id.sequence
    ensures h[i] == Freed(id) ==> h[j] != Created(id) && h[j] != Ran(id) && h[j] != Freed(id)
    ensures h[j] == Ran(id) || h[j] == Freed(id) ==> Created(id) in h[..j]
    ensures h[i] == Cancelled(id) && h[j] == Ran(id) ==> forall k :: i < k < j ==> h[k] != Started
  {
    SoundAt(h, j);
    var past := h[..j];
    assert past[i] == h[i];
    SumsOf(past, i);
    AliveIff(past, id);
    if h[i] == Cancelled(id) && h[j] == Ran(id) {
      forall k | i < k < j ensures h[k] != Started {
        if h[k] == Started {
          assert past[k] == Started;
          SettledOnce(past, i, k);
        }
      }
    }
  }

  /** The identities of the timers run, in order. */
  function Runs(h: seq<Event>): seq<Id> {
    if h == [] then []
    else Runs(h[..|h| - 1]) + (if h[|h| - 1].Ran? then [h[|h| - 1].id] else [])
  }

  lemma RunsAppend(h: seq<Event>, e: Event)
    ensures Runs(h + [e]) == Runs(h) + (if e.Ran? then [e.id] else [])
  {
  }

  lemma {:induction false} RunsAre(h: seq<Event>, id: Id)
    ensures id in Runs(h) <==> Ran(id) in h
  {
    if h != [] {
      var k := |h| - 1;
      RunsAre(h[..k], id);
      assert h == h[..k] + [h[k]];
    }
  }

  // ---------- what the heap says about the past ----------

  /**
   The timers allocated are exactly those created and not freed; a cancelled timer still allocated is in the running
   batch and marked, unless its cancel is settled.
   */
  ghost predicate Linked(mem: map<Addr, Timer>, batch: set<Addr>, canceling: set<Id>, created: nat, l: Ledger) {
    && l.top <= created
    && (forall id :: id in l.freed || id in l.cancelled || id in l.settled ==> id.sequence <= created)
    && (forall id :: Live(mem, id) <==> id in l.alive)
    && (forall id :: id in l.cancelled && id in l.alive ==> id.addr in batch && id in canceling)
    && (forall id :: id in l.settled ==> id !in l.alive)
  }

  /** `Sound` and `Linked`: the part of the invariant that speaks of the past. */
  ghost predicate Accounted(mem: map<Addr, Timer>, batch: set<Addr>, canceling: set<Id>, created: nat, h: seq<Event>) {
    Sound(h) && Linked(mem, batch, canceling, created, Sums(h))
  }

  lemma CreateAccounted(mem: map<Addr, Timer>, batch: set<Addr>, canceling: set<Id>, created: nat, h: seq<Event>,
                        a: Addr, t: Timer)
    requires Accounted(mem, batch, canceling, created, h)
    requires a !in mem && t.sequence == created + 1
    ensures Accounted(mem[a := t], batch, canceling, created + 1, h + [Created(Id(a, created + 1))])
  {
    var id := Id(a, created + 1);
    Append(h, Created(id));
    forall x ensures Live(mem[a := t], x) <==> Live(mem, x) || x == id {
    }
  }

  lemma MissAccounted(mem: map<Addr, Timer>, batch: set<Addr>, canceling: set<Id>, created: nat, h: seq<Event>, id: Id)
    requires Accounted(mem, batch, canceling, created, h) && Live(mem, id)
    ensures Accounted(mem, batch, canceling, created, h + [Missed(id)])
  {
    Append(h, Missed(id));
  }

  lemma RunAccounted(mem: map<Addr, Timer>, batch: set<Addr>, canceling: set<Id>, created: nat, h: seq<Event>, id: Id)
    requires Accounted(mem, batch, canceling, created, h) && Live(mem, id)
    ensures Accounted(mem, batch, canceling, created, h + [Ran(id)])
  {
    Append(h, Ran(id));
  }

  lemma FreeAccounted(mem: map<Addr, Timer>, batch: set<Addr>, canceling: set<Id>, created: nat, h: seq<Event>, id: Id)
    requires Accounted(mem, batch, canceling, created, h) && Live(mem, id) && id.sequence <= created
    ensures Accounted(mem - {id.addr}, batch - {id.addr}, canceling, created, h + [Freed(id)])
  {
    Append(h, Freed(id));
    forall x ensures Live(mem - {id.addr}, x) <==> Live(mem, x) && x != id {
    }
    forall x | x in Sums(h).alive - {id} ensures x.addr != id.addr {
      assert Live(mem, x);
    }
  }

  /** A cancel that takes a queued timer off the queue and frees it. */
  lemma CancelAccounted(mem: map<Addr, Timer>, batch: set<Addr>, canceling: set<Id>, created: nat, h: seq<Event>,
                        id: Id)
    requires Accounted(mem, batch, canceling, created, h) && Live(mem, id) && id.sequence <= created
    requires id.addr !in batch
    ensures Accounted(mem - {id.addr}, batch, canceling, created, h + [Cancelled(id)] + [Freed(id)])
  {
    Append(h, Cancelled(id));
    Append(h + [Cancelled(id)], Freed(id));
    forall x ensures Live(mem - {id.addr}, x) <==> Live(mem, x) && x != id {
    }
  }

  /** A cancel that marks a timer of the running batch. */
  lemma MarkAccounted(mem: map<Addr, Timer>, batch: set<Addr>, canceling: set<Id>, created: nat, h: seq<Event>, id: Id)
    requires Accounted(mem, batch, canceling, created, h)
    requires Live(mem, id) && id.sequence <= created && id.addr in batch
    ensures Accounted(mem, batch, canceling + {id}, created, h + [Cancelled(id)])
  {
    Append(h, Cancelled(id));
  }

  /** A new batch begins: the marks are cleared. */
  lemma StartAccounted(mem: map<Addr, Timer>, batch: set<Addr>, canceling: set<Id>, created: nat, h: seq<Event>)
    requires Accounted(mem, {}, canceling, created, h)
    ensures Accounted(mem, batch, {}, created, h + [Started])
  {
    Append(h, Started);
  }

  /** An unmarked batch timer goes back to the queue with a new expiration. */
  lemma RestartAccounted(mem: map<Addr, Timer>, batch: set<Addr>, canceling: set<Id>, created: nat, h: seq<Event>,
                         a: Addr, t: Timer)
    requires Accounted(mem, batch, canceling, created, h)
    requires a in mem && t.sequence == mem[a].sequence && Id(a, t.sequence) !in canceling
    ensures Accounted(mem[a := t], batch - {a}, canceling, created, h)
  {
    forall x ensures Live(mem[a := t], x) <==> Live(mem, x) {
    }
    forall x | x in Sums(h).alive && x.addr == a ensures x == Id(a, t.sequence) {
      assert Live(mem, x);
    }
  }
}
