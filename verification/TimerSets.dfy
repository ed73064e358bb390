/**
 The two indexes of the timer queue, as values: the list sorted by expiration and the set of
 active (address, sequence) pairs. Addresses are reused by the allocator; sequences are not.
 */
module TimerSets {

  type Addr = nat

  /** A heap-allocated timer. `repeat` is "interval > 0"; `delta` is the interval in whole microseconds. */
  datatype Timer = Timer(expiration: int, delta: nat, repeat: bool, sequence: nat)

  datatype Id = Id(addr: Addr, sequence: nat)

  datatype Entry = Entry(when: int, addr: Addr)

  // ---------- an ordered set as a sorted sequence ----------

  predicate Before(a: Entry, b: Entry) {
    a.when < b.when || (a.when == b.when && a.addr < b.addr)
  }

  predicate Sorted(ts: seq<Entry>) {
    forall i, j :: 0 <= i < j < |ts| ==> Before(ts[i], ts[j])
  }

  function Insert(ts: seq<Entry>, e: Entry): seq<Entry> {
    if ts == [] || Before(e, ts[0]) then [e] + ts else [ts[0]] + Insert(ts[1..], e)
  }

  function Erase(ts: seq<Entry>, e: Entry): seq<Entry> {
    if ts == [] then [] else if ts[0] == e then ts[1..] else [ts[0]] + Erase(ts[1..], e)
  }

  lemma {:induction false} InsertAdds(ts: seq<Entry>, e: Entry)
    ensures |Insert(ts, e)| == |ts| + 1
    ensures forall x :: x in Insert(ts, e) <==> x in ts || x == e
  {
    if !(ts == [] || Before(e, ts[0])) {
      InsertAdds(ts[1..], e);
      assert ts == [ts[0]] + ts[1..];
    }
  }

  lemma SortedCons(e: Entry, ts: seq<Entry>)
    requires Sorted(ts) && forall x :: x in ts ==> Before(e, x)
    ensures Sorted([e] + ts)
  {
  }

  lemma SortedTail(ts: seq<Entry>)
    requires Sorted(ts) && ts != []
    ensures Sorted(ts[1..]) && forall x :: x in ts[1..] ==> Before(ts[0], x)
  {
  }

  lemma {:induction false} InsertSorts(ts: seq<Entry>, e: Entry)
    requires Sorted(ts) && e !in ts
    ensures Sorted(Insert(ts, e))
  {
    if ts == [] {
    } else if Before(e, ts[0]) {
      forall x | x in ts ensures Before(e, x) {
        var i :| 0 <= i < |ts| && ts[i] == x;
        assert i == 0 || Before(ts[0], ts[i]);
      }
      SortedCons(e, ts);
    } else {
      SortedTail(ts);
      InsertSorts(ts[1..], e);
      InsertAdds(ts[1..], e);
      SortedCons(ts[0], Insert(ts[1..], e));
    }
  }

  lemma {:induction false} EraseRemoves(ts: seq<Entry>, e: Entry)
    requires Sorted(ts)
    ensures forall x :: x in Erase(ts, e) <==> x in ts && x != e
    ensures Sorted(Erase(ts, e))
    ensures e in ts ==> |Erase(ts, e)| == |ts| - 1
  {
    if ts != [] {
      SortedTail(ts);
      assert ts == [ts[0]] + ts[1..];
      EraseRemoves(ts[1..], e);
      if ts[0] != e {
        SortedCons(ts[0], Erase(ts[1..], e));
      }
    }
  }

  /** `lower_bound` of (now, highest address): how many entries expire no later than `now`. */
  method LowerBound(ts: seq<Entry>, now: int) returns (n: nat)
    requires Sorted(ts)
    ensures n <= |ts|
    ensures forall i :: 0 <= i < n ==> ts[i].when <= now
    ensures forall i :: n <= i < |ts| ==> now < ts[i].when
  {
    n := 0;
    while n < |ts| && ts[n].when <= now
      invariant n <= |ts|
      invariant forall i :: 0 <= i < n ==> ts[i].when <= now
    {
      n := n + 1;
    }
    forall i | n <= i < |ts| ensures now < ts[i].when {
      assert i == n || Before(ts[n], ts[i]);
    }
  }

  // ---------- the two indexes agree ----------

  predicate Live(mem: map<Addr, Timer>, id: Id) {
    id.addr in mem && mem[id.addr].sequence == id.sequence
  }

  predicate Queued(mem: map<Addr, Timer>, ts: seq<Entry>, a: Addr) {
    a in mem && Entry(mem[a].expiration, a) in ts
  }

  /** Sequences are those handed out so far. */
  ghost predicate Numbered(mem: map<Addr, Timer>, created: nat) {
    forall a :: a in mem ==> 1 <= mem[a].sequence <= created
  }

  /** Both indexes hold exactly the queued timers, the list under their current expirations. */
  ghost predicate Agree(mem: map<Addr, Timer>, ts: seq<Entry>, active: set<Id>) {
    && Sorted(ts)
    && (forall e :: e in ts ==> e.addr in mem && mem[e.addr].expiration == e.when)
    && (forall id :: id in active <==> Live(mem, id) && Queued(mem, ts, id.addr))
  }

  predicate DistinctAddrs(ts: seq<Entry>) {
    forall i, j :: 0 <= i < j < |ts| ==> ts[i].addr != ts[j].addr
  }

  lemma AgreeDistinct(mem: map<Addr, Timer>, ts: seq<Entry>, active: set<Id>)
    requires Agree(mem, ts, active)
    ensures DistinctAddrs(ts)
  {
  }

  /** Every allocated timer is in exactly one place: the queue, on its way to it, or in the running batch. */
  ghost predicate Placed(mem: map<Addr, Timer>, ts: seq<Entry>, waiting: set<Addr>, batch: set<Addr>) {
    && waiting !! batch
    && (forall a :: a in mem <==> Queued(mem, ts, a) || a in waiting || a in batch)
    && (forall e :: e in ts ==> e.addr !in waiting && e.addr !in batch)
  }

  ghost predicate Consistent(mem: map<Addr, Timer>, ts: seq<Entry>, active: set<Id>,
                             waiting: set<Addr>, batch: set<Addr>, created: nat) {
    Numbered(mem, created) && Agree(mem, ts, active) && Placed(mem, ts, waiting, batch)
  }

  lemma CreateKeeps(mem: map<Addr, Timer>, ts: seq<Entry>, active: set<Id>,
                    waiting: set<Addr>, batch: set<Addr>, created: nat, a: Addr, t: Timer)
    requires Consistent(mem, ts, active, waiting, batch, created)
    requires a !in mem && t.sequence == created + 1
    ensures Consistent(mem[a := t], ts, active, waiting + {a}, batch, created + 1)
  {
  }

  lemma InsertKeeps(mem: map<Addr, Timer>, ts: seq<Entry>, active: set<Id>,
                    waiting: set<Addr>, batch: set<Addr>, created: nat, a: Addr)
    requires Consistent(mem, ts, active, waiting, batch, created)
    requires a in waiting || a in batch
    ensures a in mem && Entry(mem[a].expiration, a) !in ts && Id(a, mem[a].sequence) !in active
    ensures Consistent(mem, Insert(ts, Entry(mem[a].expiration, a)), active + {Id(a, mem[a].sequence)},
                       waiting - {a}, batch - {a}, created)
  {
    var e := Entry(mem[a].expiration, a);
    assert e !in ts;
    InsertAdds(ts, e);
    InsertSorts(ts, e);
    var ts' := Insert(ts, e);
    forall x ensures Queued(mem, ts', x) <==> Queued(mem, ts, x) || x == a {
    }
  }

  lemma EraseKeeps(mem: map<Addr, Timer>, ts: seq<Entry>, active: set<Id>,
                   waiting: set<Addr>, batch: set<Addr>, created: nat, id: Id)
    requires Consistent(mem, ts, active, waiting, batch, created)
    requires id in active
    ensures id.addr in mem && Entry(mem[id.addr].expiration, id.addr) in ts
    ensures Consistent(mem - {id.addr}, Erase(ts, Entry(mem[id.addr].expiration, id.addr)), active - {id},
                       waiting, batch, created)
  {
    var e := Entry(mem[id.addr].expiration, id.addr);
    EraseRemoves(ts, e);
    var ts', mem' := Erase(ts, e), mem - {id.addr};
    forall x ensures Queued(mem', ts', x) <==> Queued(mem, ts, x) && x != id.addr {
    }
  }

  /** The first entry of the list leaves both indexes and joins the batch. */
  lemma ExpireKeeps(mem: map<Addr, Timer>, ts: seq<Entry>, active: set<Id>,
                    waiting: set<Addr>, batch: set<Addr>, created: nat)
    requires Consistent(mem, ts, active, waiting, batch, created) && ts != []
    ensures ts[0].addr in mem && Id(ts[0].addr, mem[ts[0].addr].sequence) in active
    ensures Consistent(mem, ts[1..], active - {Id(ts[0].addr, mem[ts[0].addr].sequence)},
                       waiting, batch + {ts[0].addr}, created)
  {
  }

  /** A batch timer is freed. */
  lemma FreeKeeps(mem: map<Addr, Timer>, ts: seq<Entry>, active: set<Id>,
                  waiting: set<Addr>, batch: set<Addr>, created: nat, a: Addr)
    requires Consistent(mem, ts, active, waiting, batch, created)
    requires a in batch
    ensures Consistent(mem - {a}, ts, active, waiting, batch - {a}, created)
  {
  }

  /** A batch timer gets a new expiration. */
  lemma RestartKeeps(mem: map<Addr, Timer>, ts: seq<Entry>, active: set<Id>,
                     waiting: set<Addr>, batch: set<Addr>, created: nat, a: Addr, t: Timer)
    requires Consistent(mem, ts, active, waiting, batch, created)
    requires a in batch && t.sequence == mem[a].sequence
    ensures Consistent(mem[a := t], ts, active, waiting, batch, created)
  {
  }
}
