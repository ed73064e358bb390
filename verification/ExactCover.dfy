/** The exact-cover problem at the level of sets: a row is the set of columns it meets. */
module ExactCover {

  /** `chosen` picks rows that lie inside `columns`, meet every one of them, and never meet one twice. */
  ghost predicate IsExactCover(rows: seq<set<nat>>, columns: set<nat>, chosen: set<nat>) {
    && (forall r <- chosen :: r < |rows| && rows[r] <= columns)
    && (forall c <- columns :: exists r :: r in chosen && c in rows[r])
    && (forall q, r :: q in chosen && r in chosen && q != r ==> rows[q] !! rows[r])
  }

  ghost predicate HasExactCover(rows: seq<set<nat>>, columns: set<nat>) {
    exists chosen :: IsExactCover(rows, columns, chosen)
  }

  /** A row the search may try for column `c`: it meets `c` and no column outside the open ones. */
  ghost predicate IsCandidate(rows: seq<set<nat>>, columns: set<nat>, c: nat, r: nat) {
    r < |rows| && c in rows[r] && rows[r] <= columns
  }

  /** Adding a candidate row to a cover of what it leaves open covers everything. */
  lemma ExtendCover(rows: seq<set<nat>>, columns: set<nat>, c: nat, r: nat, rest: set<nat>)
    requires IsCandidate(rows, columns, c, r)
    requires IsExactCover(rows, columns - rows[r], rest)
    ensures IsExactCover(rows, columns, {r} + rest)
  {
    forall d <- columns ensures exists q :: q in {r} + rest && d in rows[q] {
      if d in rows[r] {
        assert r in {r} + rest;
      } else {
        assert d in columns - rows[r];
        var q :| q in rest && d in rows[q];
        assert q in {r} + rest;
      }
    }
  }

  /** Every cover of the open columns uses exactly one candidate for `c`, and the rest covers what is left. */
  lemma SplitCover(rows: seq<set<nat>>, columns: set<nat>, c: nat, chosen: set<nat>) returns (r: nat)
    requires c in columns && IsExactCover(rows, columns, chosen)
    ensures r in chosen && IsCandidate(rows, columns, c, r)
    ensures IsExactCover(rows, columns - rows[r], chosen - {r})
  {
    r :| r in chosen && c in rows[r];
    forall d <- columns - rows[r] ensures exists q :: q in chosen - {r} && d in rows[q] {
      var q :| q in chosen && d in rows[q];
      assert q in chosen - {r};
    }
  }

  /** Branching on any one open column loses no cover and invents none. */
  lemma BranchOnColumn(rows: seq<set<nat>>, columns: set<nat>, c: nat)
    requires c in columns
    ensures HasExactCover(rows, columns)
       <==> exists r: nat :: IsCandidate(rows, columns, c, r) && HasExactCover(rows, columns - rows[r])
  {
    if HasExactCover(rows, columns) {
      var chosen :| IsExactCover(rows, columns, chosen);
      var r := SplitCover(rows, columns, c, chosen);
    }
    if r: nat :| IsCandidate(rows, columns, c, r) && HasExactCover(rows, columns - rows[r]) {
      var rest :| IsExactCover(rows, columns - rows[r], rest);
      ExtendCover(rows, columns, c, r, rest);
    }
  }
}
