/** Local time over a table of transitions: the search for the period in force, and the way back. */
module TimeZones {
  import opened Calendar
  import opened UtcTime

  datatype Transition = Transition(gmt: int, local: int, idx: nat)

  datatype Localtime = Localtime(offset: int, isDst: bool)

  datatype Zone = Zone(transitions: seq<Transition>, localtimes: seq<Localtime>)

  /** The tables as a zone file fills them: 32-bit times and offsets, local time by the new offset. */
  predicate WellFormed(z: Zone) {
    && z.localtimes != []
    && (forall k :: 0 <= k < |z.localtimes| ==> IsInt32(z.localtimes[k].offset))
    && (forall i :: 0 <= i < |z.transitions| ==>
          var t := z.transitions[i];
          IsInt32(t.gmt) && t.idx < |z.localtimes| && t.local == t.gmt + z.localtimes[t.idx].offset)
  }

  /** The clock a search compares on. */
  function Key(t: Transition, byGmt: bool): int {
    if byGmt then t.gmt else t.local
  }

  function KeyAt(z: Zone, byGmt: bool, i: int): int
    requires 0 <= i < |z.transitions|
  {
    Key(z.transitions[i], byGmt)
  }

  predicate Ascending(z: Zone, byGmt: bool) {
    forall i, j {:trigger KeyAt(z, byGmt, i), KeyAt(z, byGmt, j)} ::
      0 <= i < j < |z.transitions| ==> KeyAt(z, byGmt, i) < KeyAt(z, byGmt, j)
  }

  /** `i` is the last transition not after `x`; -1 if there is none. */
  predicate IsLast(z: Zone, x: int, byGmt: bool, i: int) {
    && -1 <= i < |z.transitions|
    && (i >= 0 ==> Key(z.transitions[i], byGmt) <= x)
    && (i + 1 < |z.transitions| ==> x < Key(z.transitions[i + 1], byGmt))
  }

  /** The local time in force after transition `i`; before the first, the table's first entry. */
  function At(z: Zone, i: int): Localtime
    requires WellFormed(z) && -1 <= i < |z.transitions|
  {
    if i == -1 then z.localtimes[0] else z.localtimes[z.transitions[i].idx]
  }

  function LastFrom(z: Zone, x: int, byGmt: bool, n: nat): (i: int)
    requires n <= |z.transitions|
    ensures -1 <= i < n && (i >= 0 ==> Key(z.transitions[i], byGmt) <= x)
    ensures i + 1 < n ==> x < Key(z.transitions[i + 1], byGmt)
  {
    if n == 0 then -1
    else if Key(z.transitions[n - 1], byGmt) <= x then n - 1
    else LastFrom(z, x, byGmt, n - 1)
  }

  function Last(z: Zone, x: int, byGmt: bool): (i: int)
    ensures IsLast(z, x, byGmt, i)
  {
    LastFrom(z, x, byGmt, |z.transitions|)
  }

  /** Keys at or before position `i` are no larger than the key there. */
  lemma KeysUpTo(z: Zone, byGmt: bool, i: int)
    requires Ascending(z, byGmt) && i < |z.transitions|
    ensures forall k :: 0 <= k <= i ==> Key(z.transitions[k], byGmt) <= Key(z.transitions[i], byGmt)
  {
    forall k | 0 <= k <= i ensures Key(z.transitions[k], byGmt) <= Key(z.transitions[i], byGmt) {
      assert KeyAt(z, byGmt, k) <= KeyAt(z, byGmt, i);
    }
  }

  lemma LastIsUnique(z: Zone, x: int, byGmt: bool, i: int)
    requires Ascending(z, byGmt) && IsLast(z, x, byGmt, i)
    ensures Last(z, x, byGmt) == i
  {
    var k := Last(z, x, byGmt);
    KeysUpTo(z, byGmt, i);
    KeysUpTo(z, byGmt, k);
  }

  /** `lower_bound`: the first transition whose key is not below `x`. */
  method LowerBound(z: Zone, x: int, byGmt: bool) returns (k: nat)
    requires Ascending(z, byGmt)
    ensures k <= |z.transitions|
    ensures forall i :: 0 <= i < k ==> KeyAt(z, byGmt, i) < x
    ensures forall i :: k <= i < |z.transitions| ==> x <= KeyAt(z, byGmt, i)
  {
    k := 0;
    var len := |z.transitions|;
    while len > 0
      invariant 0 <= len && k + len <= |z.transitions|
      invariant forall i :: 0 <= i < k ==> KeyAt(z, byGmt, i) < x
      invariant forall i :: k + len <= i < |z.transitions| ==> x <= KeyAt(z, byGmt, i)
    {
      var half := len / 2;
      var mid := k + half;
      if KeyAt(z, byGmt, mid) < x {
        assert forall i :: 0 <= i < mid ==> KeyAt(z, byGmt, i) < KeyAt(z, byGmt, mid);
        k := mid + 1;
        len := len - half - 1;
      } else {
        assert forall i :: mid < i < |z.transitions| ==> KeyAt(z, byGmt, mid) < KeyAt(z, byGmt, i);
        len := half;
      }
    }
  }

  /** The binary search finds the period of the last transition not after `x`. */
  method FindLocaltime(z: Zone, x: int, byGmt: bool) returns (local: Localtime)
    requires WellFormed(z) && Ascending(z, byGmt)
    ensures forall i :: IsLast(z, x, byGmt, i) ==> local == At(z, i)
    ensures local == At(z, Last(z, x, byGmt))
  {
    var n := |z.transitions|;
    ghost var found := -1;
    if n == 0 || x < KeyAt(z, byGmt, 0) {
      local := z.localtimes[0];
    } else {
      var k := LowerBound(z, x, byGmt);
      if k != n {
        if x != KeyAt(z, byGmt, k) {
          k := k - 1;
        }
        found := k;
        local := z.localtimes[z.transitions[k].idx];
      } else {
        found := n - 1;
        local := z.localtimes[z.transitions[n - 1].idx];
      }
    }
    assert found + 1 < n ==> x < KeyAt(z, byGmt, found + 1);
    assert found >= 0 ==> KeyAt(z, byGmt, found) <= x;
    forall i | IsLast(z, x, byGmt, i) ensures local == At(z, i) {
      LastIsUnique(z, x, byGmt, i);
      LastIsUnique(z, x, byGmt, found);
    }
  }

  // ---------- local time and back ----------

  /** `gmtime_r` and `timegm`: conversions of UTC instants to and from fields. */
  datatype Utc = Utc(breakDown: int -> Tm, assemble: Tm -> int)

  /** Assembling the fields of an instant gives the instant. */
  ghost predicate Lawful(u: Utc) {
    forall s :: Representable(s) ==> u.assemble(u.breakDown(s)) == s
  }

  function Own(): Utc {
    Utc(s => ToUtcTime(s, true), tm => FromUtcTime(tm))
  }

  /** The library's own conversions will do. */
  lemma OwnConversionsLawful()
    ensures Lawful(Own())
  {
    var u := Own();
    forall s | Representable(s) ensures u.assemble(u.breakDown(s)) == s {
      FromUtcOfToUtc(s, true);
    }
  }

  /** `struct tm` with its zone fields. */
  datatype Reading = Reading(tm: Tm, isdst: bool, gmtoff: int)

  function ToLocalTime(u: Utc, z: Zone, s: int): Reading
    requires WellFormed(z)
  {
    var local := At(z, Last(z, s, true));
    Reading(u.breakDown(s + local.offset), local.isDst, local.offset)
  }

  /** A daylight-saving reading whose standard-time reading has the same hour and minute. */
  predicate IsRepeated(r: Reading, first: Reading) {
    r.isdst && !first.isdst && first.tm.hour == r.tm.hour && first.tm.min == r.tm.min
  }

  function FromLocalTime(u: Utc, z: Zone, r: Reading): int
    requires WellFormed(z)
  {
    var seconds := u.assemble(r.tm);
    var local := At(z, Last(z, seconds, false));
    var first := ToLocalTime(u, z, seconds - local.offset);
    if IsRepeated(r, first)
    then seconds - 3600 - local.offset
    else seconds - local.offset
  }

  ghost predicate RoundTrips(u: Utc, z: Zone, s: int)
    requires WellFormed(z)
  {
    FromLocalTime(u, z, ToLocalTime(u, z, s)) == s
  }

  /** Far enough from both ends for any 32-bit offset, twice. */
  predicate Within(s: int) {
    Representable(s - 0x2_0000_0000) && Representable(s + 0x2_0000_0000)
  }

  function Shift(z: Zone, i: int): int
    requires WellFormed(z) && -1 <= i < |z.transitions| - 1
  {
    At(z, i).offset - At(z, i + 1).offset
  }

  /** Both clocks keep going forward, and the hours a backward shift repeats are over before the next transition. */
  predicate Spaced(z: Zone)
    requires WellFormed(z)
  {
    && Ascending(z, true) && Ascending(z, false)
    && forall i :: -1 <= i < |z.transitions| - 2 && Shift(z, i) > 0 ==>
         && z.transitions[i + 1].local + Shift(z, i) <= z.transitions[i + 2].local
         && z.transitions[i + 1].gmt + Shift(z, i) <= z.transitions[i + 2].gmt
  }

  /** The one backward shift the code knows: an hour, from daylight saving to standard time. */
  predicate IsHourBack(z: Zone, i: int)
    requires WellFormed(z) && -1 <= i < |z.transitions| - 1
  {
    Shift(z, i) == 3600 && At(z, i).isDst && !At(z, i + 1).isDst
  }

  predicate Regular(z: Zone)
    requires WellFormed(z)
  {
    forall i :: -1 <= i < |z.transitions| - 1 && Shift(z, i) > 0 ==> IsHourBack(z, i)
  }

  lemma WithinOffset(s: int, o: int)
    requires Within(s) && IsInt32(o)
    ensures Representable(s + o)
  {
  }

  lemma OffsetIsInt32(z: Zone, i: int)
    requires WellFormed(z) && -1 <= i < |z.transitions|
    ensures IsInt32(At(z, i).offset)
  {
  }

  lemma ReadAt(u: Utc, z: Zone, s: int, i: int)
    requires WellFormed(z) && Ascending(z, true) && IsLast(z, s, true, i)
    ensures ToLocalTime(u, z, s)
         == Reading(u.breakDown(s + At(z, i).offset), At(z, i).isDst, At(z, i).offset)
  {
    LastIsUnique(z, s, true, i);
  }

  /** Which period the way back finds on the local clock, and the standard-time reading it tries. */
  lemma BackAt(u: Utc, z: Zone, r: Reading, l: int, j: int, first: Reading)
    requires WellFormed(z) && u.assemble(r.tm) == l && -1 <= j < |z.transitions|
    requires Last(z, l, false) == j && ToLocalTime(u, z, l - At(z, j).offset) == first
    ensures FromLocalTime(u, z, r) == l - At(z, j).offset - (if IsRepeated(r, first) then 3600 else 0)
  {
  }

  /** Where the local clock has passed no later transition, the way back finds the same period. */
  lemma BackUnfolded(u: Utc, z: Zone, s: int, i: int, l: int)
    requires WellFormed(z) && Lawful(u) && Ascending(z, true) && Ascending(z, false)
    requires IsLast(z, s, true, i) && l == s + At(z, i).offset && Representable(l) && IsLast(z, l, false, i)
    ensures RoundTrips(u, z, s)
  {
    ReadAt(u, z, s, i);
    LastIsUnique(z, l, false, i);
    var r := ToLocalTime(u, z, s);
    BackAt(u, z, r, l, i, r);
  }

  /** A backward shift reads the same before and after itself, but for the daylight-saving flag. */
  lemma FoldReadings(u: Utc, z: Zone, s: int, i: int, shift: int)
    requires WellFormed(z) && Ascending(z, true)
    requires IsLast(z, s, true, i) && i + 1 < |z.transitions|
    requires shift == Shift(z, i) && IsLast(z, s + shift, true, i + 1)
    ensures ToLocalTime(u, z, s).tm == u.breakDown(s + At(z, i).offset)
    ensures IsRepeated(ToLocalTime(u, z, s), ToLocalTime(u, z, s + shift))
            <==> At(z, i).isDst && !At(z, i + 1).isDst
  {
    ReadAt(u, z, s, i);
    ReadAt(u, z, s + shift, i + 1);
  }

  /**
   In the hours a backward shift repeats, the way back finds the later period: it is off by the shift, and
   an hour is taken back exactly if the reading is marked daylight saving and the later period is not.
   */
  lemma BackFolded(u: Utc, z: Zone, s: int, i: int, l: int, shift: int)
    requires WellFormed(z) && Lawful(u) && Ascending(z, true) && Ascending(z, false)
    requires IsLast(z, s, true, i) && l == s + At(z, i).offset && Representable(l)
    requires i + 1 < |z.transitions| && IsLast(z, l, false, i + 1)
    requires shift == Shift(z, i) && IsLast(z, s + shift, true, i + 1)
    ensures FromLocalTime(u, z, ToLocalTime(u, z, s))
         == s + shift - (if At(z, i).isDst && !At(z, i + 1).isDst then 3600 else 0)
  {
    FoldReadings(u, z, s, i, shift);
    LastIsUnique(z, l, false, i + 1);
    BackAt(u, z, ToLocalTime(u, z, s), l, i + 1, ToLocalTime(u, z, s + shift));
  }

  /** Which period the local clock points at: the instant's own, or the next one inside a repeated stretch. */
  lemma FoundOnLocalClock(z: Zone, s: int, i: int, l: int)
    requires WellFormed(z) && Spaced(z)
    requires IsLast(z, s, true, i) && l == s + At(z, i).offset
    ensures IsLast(z, l, false, i) ||
            (i + 1 < |z.transitions| && Shift(z, i) > 0
             && IsLast(z, l, false, i + 1) && IsLast(z, s + Shift(z, i), true, i + 1))
  {
  }

  /** One instant: it comes back unless it lies in the repeated stretch of an irregular shift. */
  lemma InstantRoundTrips(u: Utc, z: Zone, s: int)
    requires WellFormed(z) && Lawful(u) && Spaced(z) && Regular(z) && Within(s)
    ensures RoundTrips(u, z, s)
  {
    var i := Last(z, s, true);
    var l := s + At(z, i).offset;
    OffsetIsInt32(z, i);
    WithinOffset(s, At(z, i).offset);
    FoundOnLocalClock(z, s, i, l);
    if IsLast(z, l, false, i) {
      BackUnfolded(u, z, s, i, l);
    } else {
      BackFolded(u, z, s, i, l, Shift(z, i));
    }
  }

  /** The last second before an irregular backward shift does not come back. */
  lemma IrregularShiftFails(u: Utc, z: Zone, i: int, s: int)
    requires WellFormed(z) && Lawful(u) && Spaced(z)
    requires -1 <= i < |z.transitions| - 1 && Shift(z, i) > 0 && !IsHourBack(z, i)
    requires s == z.transitions[i + 1].gmt - 1
    ensures Within(s) && !RoundTrips(u, z, s)
  {
    assert i >= 0 ==> KeyAt(z, true, i) < KeyAt(z, true, i + 1);
    var l := s + At(z, i).offset;
    OffsetIsInt32(z, i);
    WithinOffset(s, At(z, i).offset);
    assert l == z.transitions[i + 1].local + Shift(z, i) - 1;
    BackFolded(u, z, s, i, l, Shift(z, i));
  }

  /**
   The local time of every instant leads back to it exactly if every backward shift of the zone is the hour
   from daylight saving to standard time, both passes of the repeated hour included.
   */
  lemma RoundTripIff(u: Utc, z: Zone)
    requires WellFormed(z) && Lawful(u) && Spaced(z)
    ensures Regular(z) <==> forall s :: Within(s) ==> RoundTrips(u, z, s)
  {
    if Regular(z) {
      forall s | Within(s) ensures RoundTrips(u, z, s) {
        InstantRoundTrips(u, z, s);
      }
    } else {
      var i :| -1 <= i < |z.transitions| - 1 && Shift(z, i) > 0 && !IsHourBack(z, i);
      IrregularShiftFails(u, z, i, z.transitions[i + 1].gmt - 1);
    }
  }

  /** A zone that goes back half an hour, as Lord Howe Island does, loses the second before the shift. */
  lemma HalfHourBackFails(u: Utc)
    requires Lawful(u)
    ensures var z := Zone([Transition(0, 37800, 1)], [Localtime(39600, true), Localtime(37800, false)]);
            WellFormed(z) && Spaced(z) && Within(-1) && !RoundTrips(u, z, -1)
  {
  }

  // ---------- any reading ----------

  /** The clock shows `l` at instant `s`. */
  ghost predicate Shows(u: Utc, z: Zone, s: int, l: int)
    requires WellFormed(z)
  {
    ToLocalTime(u, z, s).tm == u.breakDown(l)
  }

  /** The local clock jumps over `l`: by the offset in force before it, `l` comes after the next transition. */
  predicate Skipped(z: Zone, l: int)
    requires WellFormed(z)
  {
    var j := Last(z, l, false);
    j + 1 < |z.transitions| && z.transitions[j + 1].gmt <= l - At(z, j).offset
  }

  lemma ShowsIff(u: Utc, z: Zone, s: int, l: int)
    requires WellFormed(z) && Lawful(u) && Representable(l) && Representable(s + At(z, Last(z, s, true)).offset)
    ensures Shows(u, z, s, l) <==> At(z, Last(z, s, true)).offset == l - s
  {
    var m := s + At(z, Last(z, s, true)).offset;
    assert u.assemble(u.breakDown(m)) == m && u.assemble(u.breakDown(l)) == l;
  }

  lemma NotSkipped(z: Zone, l: int, j: int)
    requires WellFormed(z) && Ascending(z, true) && Last(z, l, false) == j && !Skipped(z, l)
    ensures Last(z, l - At(z, j).offset, true) == j
  {
    LastIsUnique(z, l - At(z, j).offset, true, j);
  }

  /** In a skipped stretch the offset of the later period makes it later than `l`. */
  lemma SkippedIsLater(z: Zone, l: int, j: int, s: int)
    requires WellFormed(z) && Ascending(z, true) && Ascending(z, false)
    requires Last(z, l, false) == j && Skipped(z, l) && s == l - At(z, j).offset
    ensures At(z, Last(z, s, true)).offset > l - s
  {
    var k := Last(z, s, true);
    KeysUpTo(z, true, j + 1);
    KeysUpTo(z, false, k);
  }

  lemma WithinOffsets(l: int, x: int, y: int, hour: int)
    requires Within(l) && IsInt32(x) && IsInt32(y) && 0 <= hour <= 3600
    ensures Representable(l) && Representable(l - x - hour + y)
  {
  }

  /** Whether the way back takes an hour off: the reading is marked daylight saving, and its standard-time reading
      is standard time with the same hour and minute. Outside the skipped stretches the second part is the flag's. */
  ghost predicate TakesHour(u: Utc, z: Zone, r: Reading, l: int)
    requires WellFormed(z)
  {
    IsRepeated(r, ToLocalTime(u, z, l - At(z, Last(z, l, false)).offset))
  }

  lemma TakesHourIff(u: Utc, z: Zone, r: Reading, l: int)
    requires WellFormed(z) && Ascending(z, true) && r.tm == u.breakDown(l) && !Skipped(z, l)
    ensures TakesHour(u, z, r, l) <==> r.isdst && !At(z, Last(z, l, false)).isDst
  {
    NotSkipped(z, l, Last(z, l, false));
  }

  predicate TimeIs(tm: Tm, s: int) {
    IsTimeOfDay(tm) && tm.hour * 3600 + tm.min * 60 + tm.sec == s % SECONDS_PER_DAY
  }

  /** Hours, minutes and seconds are those of the day. */
  ghost predicate TellsTime(u: Utc) {
    forall s :: Representable(s) ==> TimeIs(u.breakDown(s), s)
  }

  lemma OwnTellsTime()
    ensures TellsTime(Own())
  {
    forall s | Representable(s) ensures TimeIs(Own().breakDown(s), s) {
      UtcFields(s, true, ToUtcTime(s, true));
    }
  }

  /** In a skipped stretch no hour is taken, if the jump is at least a minute long and a minute short of a day. */
  lemma SkippedTakesNoHour(u: Utc, z: Zone, r: Reading, l: int, s: int, jump: int)
    requires WellFormed(z) && TellsTime(u) && Representable(l) && Representable(l + jump) && r.tm == u.breakDown(l)
    requires s == l - At(z, Last(z, l, false)).offset && jump == s + At(z, Last(z, s, true)).offset - l
    requires 60 <= jump <= SECONDS_PER_DAY - 60
    ensures !TakesHour(u, z, r, l)
  {
    assert TimeIs(u.breakDown(l), l) && TimeIs(u.breakDown(l + jump), l + jump);
    DayMoves(l, jump);
    MinutesDiffer(u.breakDown(l), u.breakDown(l + jump), l % SECONDS_PER_DAY, (l + jump) % SECONDS_PER_DAY);
  }

  lemma MinutesDiffer(tm: Tm, tm': Tm, s: int, s': int)
    requires IsTimeOfDay(tm) && IsTimeOfDay(tm') && (s' - s >= 60 || s - s' >= 60)
    requires tm.hour * 3600 + tm.min * 60 + tm.sec == s && tm'.hour * 3600 + tm'.min * 60 + tm'.sec == s'
    ensures tm.hour != tm'.hour || tm.min != tm'.min
  {
  }

  lemma DayMoves(l: int, jump: int)
    requires 0 <= jump < SECONDS_PER_DAY
    ensures (l + jump) % SECONDS_PER_DAY in {l % SECONDS_PER_DAY + jump, l % SECONDS_PER_DAY + jump - SECONDS_PER_DAY}
  {
  }

  /**
   Any reading of any local time `l`: the offset last in force on the local clock is taken off, and the hour. The
   clock shows `l` at the result exactly if, with no hour taken, `l` is not skipped, or, with an hour taken, the
   zone was an hour ahead at that earlier instant.
   */
  lemma ReadingComesBackIff(u: Utc, z: Zone, r: Reading, l: int, j: int, hour: int)
    requires WellFormed(z) && Lawful(u) && Ascending(z, true) && Ascending(z, false) && Within(l)
    requires r.tm == u.breakDown(l) && j == Last(z, l, false) && hour == if TakesHour(u, z, r, l) then 3600 else 0
    ensures FromLocalTime(u, z, r) == l - At(z, j).offset - hour
    ensures Shows(u, z, FromLocalTime(u, z, r), l) <==>
            if hour == 0 then !Skipped(z, l)
            else At(z, Last(z, FromLocalTime(u, z, r), true)).offset == At(z, j).offset + 3600
  {
    assert u.assemble(r.tm) == l by {
      WithinOffsets(l, 0, 0, 0);
    }
    BackIs(u, z, r, l, j);
    ShowsBackIff(u, z, FromLocalTime(u, z, r), l, j, hour);
    SkippedIff(z, l, j);
  }

  lemma BackIs(u: Utc, z: Zone, r: Reading, l: int, j: int)
    requires WellFormed(z) && u.assemble(r.tm) == l && Last(z, l, false) == j
    ensures FromLocalTime(u, z, r) == l - At(z, j).offset - (if TakesHour(u, z, r, l) then 3600 else 0)
  {
    BackAt(u, z, r, l, j, ToLocalTime(u, z, l - At(z, j).offset));
  }

  lemma ShowsBackIff(u: Utc, z: Zone, s: int, l: int, j: int, hour: int)
    requires WellFormed(z) && Lawful(u) && Within(l) && -1 <= j < |z.transitions|
    requires s == l - At(z, j).offset - hour && 0 <= hour <= 3600
    ensures Shows(u, z, s, l) <==> At(z, Last(z, s, true)).offset == At(z, j).offset + hour
  {
    var k := Last(z, s, true);
    OffsetIsInt32(z, j);
    OffsetIsInt32(z, k);
    WithinOffsets(l, At(z, j).offset, At(z, k).offset, hour);
    ShowsIff(u, z, s, l);
  }

  /** By the offset the local clock points at, `l` is shown exactly if it is not skipped. */
  lemma SkippedIff(z: Zone, l: int, j: int)
    requires WellFormed(z) && Ascending(z, true) && Ascending(z, false) && Last(z, l, false) == j
    ensures var s := l - At(z, j).offset; At(z, Last(z, s, true)).offset == At(z, j).offset <==> !Skipped(z, l)
  {
    if Skipped(z, l) {
      SkippedIsLater(z, l, j, l - At(z, j).offset);
    } else {
      NotSkipped(z, l, j);
    }
  }

  /** A reading marked daylight saving in a zone that has none is taken for an hour too early. */
  lemma MarkedInStandardTime(u: Utc)
    requires Lawful(u)
    ensures var z := Zone([], [Localtime(0, false)]);
            WellFormed(z) && FromLocalTime(u, z, Reading(u.breakDown(0), true, 0)) == -3600 && !Shows(u, z, -3600, 0)
  {
    var z := Zone([], [Localtime(0, false)]);
    TakesHourIff(u, z, Reading(u.breakDown(0), true, 0), 0);
    ReadingComesBackIff(u, z, Reading(u.breakDown(0), true, 0), 0, -1, 3600);
  }

  /** The first second of a skipped hour is taken for the first second after it. */
  lemma SkippedHourMoves(u: Utc)
    requires Lawful(u)
    ensures var z := Zone([Transition(0, 3600, 1)], [Localtime(0, false), Localtime(3600, true)]);
            && WellFormed(z) && FromLocalTime(u, z, Reading(u.breakDown(0), false, 0)) == 0
            && Shows(u, z, 0, 3600) && !Shows(u, z, 0, 0)
  {
    var z := Zone([Transition(0, 3600, 1)], [Localtime(0, false), Localtime(3600, true)]);
    ReadingComesBackIff(u, z, Reading(u.breakDown(0), false, 0), 0, -1, 0);
  }
}
