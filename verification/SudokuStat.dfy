/** Per-second statistics over a sliding window of at most sixty seconds. */
module SudokuStats {
  import opened Calendar

  const SECONDS := 60
  const MICROS_PER_SECOND := 1_000_000

  /** A response that counts: its second and its latency in microseconds. */
  datatype Response = Response(second: int, elapsed: nat)

  /** How many responses fell in `second`, or the sum of their latencies. */
  function Total(h: seq<Response>, second: int, latency: bool): nat {
    if h == [] then 0
    else
      var r := h[|h| - 1];
      Total(h[..|h| - 1], second, latency) + (if r.second == second then Weight(r, latency) else 0)
  }

  function Weight(r: Response, latency: bool): nat {
    if latency then r.elapsed else 1
  }

  lemma TotalAppend(h: seq<Response>, r: Response, second: int, latency: bool)
    ensures Total(h + [r], second, latency)
         == Total(h, second, latency) + (if r.second == second then Weight(r, latency) else 0)
  {
  }

  predicate AllUpTo(h: seq<Response>, last: int) {
    forall k :: 0 <= k < |h| ==> h[k].second <= last
  }

  lemma {:induction false} NothingAfter(h: seq<Response>, last: int, second: int, latency: bool)
    requires AllUpTo(h, last) && last < second
    ensures Total(h, second, latency) == 0
  {
    if h != [] {
      NothingAfter(h[..|h| - 1], last, second, latency);
    }
  }

  /** A ring buffer of capacity sixty. */
  function Push(buf: seq<int>, x: int): seq<int> {
    if |buf| >= SECONDS then buf[1..] + [x] else buf + [x]
  }

  function Least(a: nat, b: nat): nat {
    if a < b then a else b
  }

  function Greatest(a: int, b: int): int {
    if a < b then b else a
  }

  /** The last second of a window of `size` seconds up to `last` once it has seen `second`. */
  function NewLast(size: nat, last: int, second: int): int {
    if size == 0 then second else Greatest(last, second)
  }

  /** And how many seconds it then shows. */
  function WindowSize(size: nat, last: int, second: int): nat {
    if size == 0 then 1
    else if second <= last then size
    else if second >= last + SECONDS then 1
    else Least(SECONDS, size + (second - last))
  }

  function First(buf: seq<int>, last: int): int {
    last - |buf| + 1
  }

  /** Neither end of a window has moved backwards. */
  predicate Forward(was: seq<int>, wasLast: int, buf: seq<int>, last: int) {
    was != [] ==> wasLast <= last && First(was, wasLast) <= First(buf, last)
  }

  /** One more response in slot `i`. */
  function Bumped(buf: seq<int>, i: nat): seq<int>
    requires i < |buf|
  {
    buf[i := buf[i] + 1]
  }

  /** Every slot holds the exact total of its second; the last slot is for `last`. */
  ghost predicate Exact(buf: seq<int>, h: seq<Response>, last: int, latency: bool) {
    forall i :: 0 <= i < |buf| ==> buf[i] == Total(h, First(buf, last) + i, latency)
  }

  lemma PushKeeps(buf: seq<int>, h: seq<Response>, last: int, latency: bool)
    requires Exact(buf, h, last, latency) && AllUpTo(h, last)
    ensures Exact(Push(buf, 0), h, last + 1, latency)
  {
    NothingAfter(h, last, last + 1, latency);
  }

  /** The slot of the next second, or of the first of all, holds just its one response. */
  lemma NextExact(buf: seq<int>, h: seq<Response>, last: int, latency: bool, r: Response)
    requires Exact(buf, h, last, latency) && AllUpTo(h, last)
    requires if buf == [] then h == [] else r.second == last + 1
    ensures var b := Push(buf, 0); Exact(b[|b| - 1 := b[|b| - 1] + Weight(r, latency)], h + [r], r.second, latency)
    ensures AllUpTo(h + [r], r.second)
  {
    if buf != [] {
      PushKeeps(buf, h, last, latency);
    }
    AddKeeps(Push(buf, 0), h, r.second, latency, r, |Push(buf, 0)| - 1);
  }

  lemma FreshExact(h: seq<Response>, last: int, second: int, latency: bool)
    requires AllUpTo(h, last) && last < second
    ensures Exact([0], h, second, latency)
  {
    NothingAfter(h, last, second, latency);
  }

  /** A response adds its weight to the slot of its second, and to no other. */
  lemma AddKeeps(buf: seq<int>, h: seq<Response>, last: int, latency: bool, r: Response, i: int)
    requires Exact(buf, h, last, latency) && 0 <= i < |buf| && r.second == First(buf, last) + i
    ensures Exact(buf[i := buf[i] + Weight(r, latency)], h + [r], last, latency)
  {
  }

  lemma DiscardKeeps(buf: seq<int>, h: seq<Response>, last: int, latency: bool, r: Response)
    requires Exact(buf, h, last, latency) && r.second < First(buf, last)
    ensures Exact(buf, h + [r], last, latency)
  {
  }

  /** Taking `second` for the next one after 0 leaves the count of second 0 in the slot before it. */
  lemma MisstepBreaks(buf: seq<int>, h: seq<Response>, r: Response)
    requires Exact(buf, h, 0, false) && AllUpTo(h, 0) && buf != [] && Total(h, 0, false) >= 1 && r.second >= 2
    ensures var b := Push(buf, 0); !Exact(Bumped(b, |b| - 1), h + [r], r.second, false)
  {
    var n := |Push(buf, 0)|;
    var buf' := Bumped(Push(buf, 0), n - 1);
    assert buf[|buf| - 1] == Total(h, 0, false);
    assert buf'[n - 2] == buf[|buf| - 1];
    NothingAfter(h, 0, r.second - 1, false);
    TotalAppend(h, r, r.second - 1, false);
    assert First(buf', r.second) + (n - 2) == r.second - 1;
  }

  // ---------- the sums of a report ----------

  function Sum(buf: seq<int>): int {
    if buf == [] then 0 else Sum(buf[..|buf| - 1]) + buf[|buf| - 1]
  }

  /** The responses from `first` on, or the sum of their latencies. */
  function TotalFrom(h: seq<Response>, first: int, latency: bool): nat {
    if h == [] then 0
    else
      var r := h[|h| - 1];
      TotalFrom(h[..|h| - 1], first, latency) + (if r.second >= first then Weight(r, latency) else 0)
  }

  /** The sum of all latencies. */
  function LatencySum(h: seq<Response>): nat {
    if h == [] then 0 else LatencySum(h[..|h| - 1]) + h[|h| - 1].elapsed
  }

  lemma LatencySumAppend(h: seq<Response>, r: Response)
    ensures LatencySum(h + [r]) == LatencySum(h) + r.elapsed
  {
    assert (h + [r])[..|h|] == h;
  }

  /** The same, second by second. */
  function TotalBetween(h: seq<Response>, first: int, n: nat, latency: bool): nat {
    if n == 0 then 0 else TotalBetween(h, first, n - 1, latency) + Total(h, first + n - 1, latency)
  }

  lemma {:induction false} SumExact(buf: seq<int>, h: seq<Response>, first: int, latency: bool)
    requires forall i :: 0 <= i < |buf| ==> buf[i] == Total(h, first + i, latency)
    ensures Sum(buf) == TotalBetween(h, first, |buf|, latency)
  {
    if buf != [] {
      SumExact(buf[..|buf| - 1], h, first, latency);
    }
  }

  lemma {:induction false} BetweenAppend(h: seq<Response>, r: Response, first: int, n: nat, latency: bool)
    ensures TotalBetween(h + [r], first, n, latency)
         == TotalBetween(h, first, n, latency) + (if first <= r.second < first + n then Weight(r, latency) else 0)
  {
    if n > 0 {
      BetweenAppend(h, r, first, n - 1, latency);
      TotalAppend(h, r, first + n - 1, latency);
    }
  }

  lemma {:induction false} BetweenNone(first: int, n: nat, latency: bool)
    ensures TotalBetween([], first, n, latency) == 0
  {
    if n > 0 {
      BetweenNone(first, n - 1, latency);
    }
  }

  /** Counting by second and counting by response agree. */
  lemma {:induction false} BetweenIsFrom(h: seq<Response>, first: int, n: nat, latency: bool)
    requires AllUpTo(h, first + n - 1)
    ensures TotalBetween(h, first, n, latency) == TotalFrom(h, first, latency)
  {
    if h == [] {
      BetweenNone(first, n, latency);
    } else {
      var k := |h| - 1;
      BetweenIsFrom(h[..k], first, n, latency);
      BetweenAppend(h[..k], h[k], first, n, latency);
      assert h[..k] + [h[k]] == h;
    }
  }

  /** The average latency, rounded down; 0 if there is nothing to average. */
  function Average(latency: nat, requests: nat): (average: nat)
    ensures requests == 0 ==> average == 0
    ensures requests > 0 ==> average * requests <= latency < (average + 1) * requests
  {
    if requests == 0 then 0 else latency / requests
  }

  /** Report lines computed from the window. */
  datatype Report = Report(requests: nat, latency: nat, average: nat)

  class SudokuStat {
    var lastSecond: int
    var requests: seq<int>
    var latencies: seq<int>
    var totalRequests: nat
    var badRequests: nat
    var droppedRequests: nat
    var totalResponses: nat
    var totalSolved: nat
    var badLatency: nat
    var totalLatency: nat
    ghost var history: seq<Response>    // since the last reset, without those of negative latency

    ghost predicate Valid()
      reads this
    {
      && WindowHolds()
      && (requests == [] ==> lastSecond == 0 && history == [])
      && (requests != [] ==> Total(history, lastSecond, false) >= 1)
      && totalResponses == |history| + badLatency
      && totalLatency == LatencySum(history)
    }

    ghost predicate WindowHolds()
      reads this
    {
      && |requests| == |latencies| <= SECONDS && AllUpTo(history, lastSecond)
      && Exact(requests, history, lastSecond, false) && Exact(latencies, history, lastSecond, true)
    }

    constructor ()
      ensures Valid() && history == [] && totalRequests == badRequests == droppedRequests == 0
      ensures totalResponses == totalSolved == badLatency == 0
    {
      lastSecond, requests, latencies := 0, [], [];
      totalRequests, badRequests, droppedRequests := 0, 0, 0;
      totalResponses, totalSolved, badLatency, totalLatency := 0, 0, 0, 0;
      history := [];
    }

    /** Forgets everything but the dropped requests. */
    method Reset()
      modifies this`lastSecond, this`requests, this`latencies, this`totalRequests, this`totalResponses,
               this`totalSolved, this`badRequests, this`badLatency, this`totalLatency, this`history
      ensures Valid() && history == [] && totalResponses == totalSolved == totalRequests == badRequests == 0
      ensures lastSecond == 0 && requests == latencies == []
    {
      lastSecond, requests, latencies := 0, [], [];
      totalRequests, badRequests := 0, 0;
      totalResponses, totalSolved, badLatency, totalLatency := 0, 0, 0, 0;
      history := [];
    }

    /** Adds the response to slot `idx` of both buffers. */
    method Count(idx: nat, ghost second: int, elapsed: nat)
      requires WindowHolds() && idx < |requests| && second == First(requests, lastSecond) + idx
      modifies this`requests, this`latencies, this`history
      ensures WindowHolds() && |requests| == old(|requests|)
      ensures history == old(history) + [Response(second, elapsed)]
    {
      ghost var r := Response(second, elapsed);
      AddKeeps(requests, history, lastSecond, false, r, idx);
      AddKeeps(latencies, history, lastSecond, true, r, idx);
      requests := Bumped(requests, idx);
      latencies := latencies[idx := latencies[idx] + elapsed];
      history := history + [r];
    }

    /** The catch-up loop: one empty slot for each second up to `second`. */
    method CatchUp(second: int)
      requires WindowHolds() && lastSecond <= second
      modifies this`lastSecond, this`requests, this`latencies
      ensures WindowHolds() && lastSecond == second
      ensures |requests| == Least(SECONDS, old(|requests|) + (second - old(lastSecond)))
    {
      while lastSecond < second
        invariant WindowHolds() && old(lastSecond) <= lastSecond <= second
        invariant |requests| == Least(SECONDS, old(|requests|) + (lastSecond - old(lastSecond)))
        decreases second - lastSecond
      {
        PushKeeps(requests, history, lastSecond, false);
        PushKeeps(latencies, history, lastSecond, true);
        requests, latencies, lastSecond := Push(requests, 0), Push(latencies, 0), lastSecond + 1;
      }
    }

    /** A window of one empty slot. */
    method StartAt(second: int)
      requires WindowHolds() && (history == [] || lastSecond < second)
      modifies this`lastSecond, this`requests, this`latencies
      ensures WindowHolds() && lastSecond == second && |requests| == 1
    {
      if history != [] {
        FreshExact(history, lastSecond, second, false);
        FreshExact(history, lastSecond, second, true);
      }
      requests, latencies, lastSecond := Push([], 0), Push([], 0), second;
    }

    /** The code takes a last second of 0 for "none yet", also when the window is not empty. */
    predicate Missteps(second: int)
      reads this
    {
      requests != [] && lastSecond == 0 && second != 0 && second != 1
    }

    /** Brings a response of non-negative latency into the window. */
    method Slot(second: int, elapsed: nat)
      requires WindowHolds() && (requests == [] ==> lastSecond == 0 && history == [])
      requires requests != [] || second != 0
      modifies this`lastSecond, this`requests, this`latencies, this`history
      ensures history == old(history) + [Response(second, elapsed)]
      ensures !old(Missteps(second)) ==>
                && WindowHolds()
                && lastSecond == NewLast(old(|requests|), old(lastSecond), second)
                && |requests| == WindowSize(old(|requests|), old(lastSecond), second)
      ensures old(Missteps(second)) ==>
                lastSecond == second && requests == Bumped(Push(old(requests), 0), |Push(old(requests), 0)| - 1)
    {
      var firstSecond := lastSecond - |requests| + 1;
      if lastSecond == second {
        Count(|requests| - 1, second, elapsed);
      } else if lastSecond + 1 == second || lastSecond == 0 {
        NextSecond(second, elapsed);
      } else if second > lastSecond {
        if second < lastSecond + SECONDS {
          CatchUp(second);
        } else {
          StartAt(second);
        }
        Count(|requests| - 1, second, elapsed);
      } else if second >= firstSecond {
        Count(second - firstSecond, second, elapsed);
      } else {
        Discard(second, elapsed);
      }
    }

    /** The branch for the next second, or for the first of all: one slot more, and the response in it. */
    method NextSecond(second: int, elapsed: nat)
      requires WindowHolds() && (requests == [] ==> lastSecond == 0 && history == [])
      requires lastSecond + 1 == second || lastSecond == 0
      modifies this`lastSecond, this`requests, this`latencies, this`history
      ensures history == old(history) + [Response(second, elapsed)] && lastSecond == second
      ensures requests == Bumped(Push(old(requests), 0), |Push(old(requests), 0)| - 1)
      ensures old(requests) == [] || old(lastSecond) + 1 == second ==> WindowHolds()
    {
      ghost var h, last := history, lastSecond;
      ghost var r := Response(second, elapsed);
      var n := |Push(requests, 0)|;
      if requests == [] || last + 1 == second {
        NextExact(requests, h, last, false, r);
        NextExact(latencies, h, last, true, r);
      }
      lastSecond := second;
      requests, latencies := Push(requests, 0), Push(latencies, 0);
      requests := Bumped(requests, n - 1);
      latencies := latencies[n - 1 := latencies[n - 1] + elapsed];
      history := history + [r];
    }

    ghost method Discard(second: int, elapsed: nat)
      requires WindowHolds() && second < First(requests, lastSecond) && second <= lastSecond
      modifies this`history
      ensures WindowHolds() && history == old(history) + [Response(second, elapsed)]
    {
      DiscardKeeps(requests, history, lastSecond, false, Response(second, elapsed));
      DiscardKeeps(latencies, history, lastSecond, true, Response(second, elapsed));
      history := history + [Response(second, elapsed)];
    }

    /**
     Whatever the clock does, every slot stays the exact total of its second over all responses since the last
     reset, and neither end of the window moves backwards; unless the last second is 0 and the new one neither 0
     nor 1, when one or the other fails. The first response of all must not fall in second 0: the source then
     reads the last element of an empty buffer.
     */
    method RecordResponse(now: int, receive: int, solved: bool)
      requires Valid() && (now >= receive && requests == [] ==> CDiv(now, MICROS_PER_SECOND) != 0)
      modifies this`lastSecond, this`requests, this`latencies, this`history, this`totalResponses, this`totalSolved,
               this`badLatency, this`totalLatency
      ensures now < receive ==> Valid() && lastSecond == old(lastSecond) && requests == old(requests)
      ensures now >= receive ==>
                var second := CDiv(now, MICROS_PER_SECOND);
                (Valid() && Forward(old(requests), old(lastSecond), requests, lastSecond) <==> !old(Missteps(second)))
      ensures now >= receive ==>
                var second := CDiv(now, MICROS_PER_SECOND);
                if old(Missteps(second)) then lastSecond == second && |requests| == Least(SECONDS, old(|requests|) + 1)
                else && lastSecond == NewLast(old(|requests|), old(lastSecond), second)
                     && |requests| == WindowSize(old(|requests|), old(lastSecond), second)
      ensures history == if now < receive then old(history)
                         else old(history) + [Response(CDiv(now, MICROS_PER_SECOND), now - receive)]
      ensures totalResponses == old(totalResponses) + 1
      ensures totalSolved == old(totalSolved) + (if solved then 1 else 0)
      ensures badLatency == old(badLatency) + (if now < receive then 1 else 0)
    {
      var second := CDiv(now, MICROS_PER_SECOND);
      var elapsed := now - receive;
      totalResponses := totalResponses + 1;
      if solved {
        totalSolved := totalSolved + 1;
      }
      if elapsed < 0 {
        badLatency := badLatency + 1;
        return;
      }
      Accept(second, elapsed);
    }

    /** The part of `recordResponse` for a response that counts. */
    method Accept(second: int, elapsed: nat)
      requires WindowHolds() && (requests == [] ==> lastSecond == 0 && history == [])
      requires requests != [] ==> Total(history, lastSecond, false) >= 1
      requires (requests != [] || second != 0) && totalLatency == LatencySum(history)
      modifies this`lastSecond, this`requests, this`latencies, this`history, this`totalLatency
      ensures history == old(history) + [Response(second, elapsed)] && requests != []
      ensures totalLatency == LatencySum(history)
      ensures !old(Missteps(second)) ==>
                && WindowHolds() && Total(history, lastSecond, false) >= 1
                && lastSecond == NewLast(old(|requests|), old(lastSecond), second)
                && |requests| == WindowSize(old(|requests|), old(lastSecond), second)
      ensures old(Missteps(second)) ==> lastSecond < old(lastSecond) || !WindowHolds()
      ensures old(Missteps(second)) ==> lastSecond == second && |requests| == Least(SECONDS, old(|requests|) + 1)
    {
      ghost var r := Response(second, elapsed);
      LatencySumAppend(history, r);
      ghost var h, buf, last := history, requests, lastSecond;
      totalLatency := totalLatency + elapsed;
      Slot(second, elapsed);
      TotalAppend(h, r, lastSecond, false);
      if buf != [] && last == 0 && second >= 2 {
        MisstepBreaks(buf, h, r);
      }
    }

    /** The sums of a report: exactly the responses in the window, from its first second on. */
    method WindowReport() returns (r: Report)
      requires Valid()
      ensures r.requests == TotalFrom(history, First(requests, lastSecond), false)
      ensures r.latency == TotalFrom(history, First(requests, lastSecond), true)
      ensures r.average == Average(r.latency, r.requests)
    {
      ghost var first := First(requests, lastSecond);
      SumExact(requests, history, first, false);
      BetweenIsFrom(history, first, |requests|, false);
      SumExact(latencies, history, first, true);
      BetweenIsFrom(history, first, |latencies|, true);
      var count := SumOf(requests);
      var latency := SumOf(latencies);
      r := Report(count, latency, Average(latency, count));
    }
  }

  /** A response in second -1, one in second 0 and one in second 5: the window is wrong. */
  method MisstepHappens() returns (s: SudokuStat)
    ensures !s.Valid()
  {
    s := new SudokuStat();
    s.RecordResponse(-MICROS_PER_SECOND, -MICROS_PER_SECOND, true);
    s.RecordResponse(0, 0, true);
    s.RecordResponse(5 * MICROS_PER_SECOND, 5 * MICROS_PER_SECOND, true);
  }

  method SumOf(buf: seq<int>) returns (sum: int)
    ensures sum == Sum(buf)
  {
    sum := 0;
    var i := 0;
    while i < |buf|
      invariant 0 <= i <= |buf| && sum == Sum(buf[..i])
    {
      assert buf[..i + 1][..i] == buf[..i];
      sum := sum + buf[i];
      i := i + 1;
    }
    assert buf[..i] == buf;
  }
}
