/**
 Sudoku and its encoding as exact cover. A board has 81 cells with 0 for an empty one. The
 columns of the exact-cover problem are numbered by codes: a cell is its own number, and
 value `v` in row, column or box `x` is 100, 200 or 300 plus `10 * x + v`.
 */
module SudokuRules {

  const CELLS: nat := 81

  datatype Candidate = Candidate(cell: nat, val: nat)

  predicate IsBoard(b: seq<int>) {
    |b| == CELLS && forall i :: 0 <= i < CELLS ==> 0 <= b[i] <= 9
  }

  /** The row (kind 1), column (kind 2) or box (kind 3) of cell `i`. */
  function UnitOf(u: nat, i: nat): nat {
    if u == 1 then i / 9 else if u == 2 then i % 9 else i / 9 / 3 * 3 + i % 9 / 3
  }

  function Code(u: nat, x: nat, v: nat): nat {
    100 * u + 10 * x + v
  }

  ghost predicate IsUnit(u: nat, x: nat, v: nat) {
    1 <= u <= 3 && x < 9 && 1 <= v <= 9
  }

  /** The `j`-th cell of a unit. */
  function CellAt(u: nat, x: nat, j: nat): nat {
    if u == 1 then 9 * x + j
    else if u == 2 then 9 * j + x
    else (x / 3 * 3 + j / 3) * 9 + (x % 3 * 3 + j % 3)
  }

  lemma CellAtUnit(u: nat, x: nat, j: nat)
    requires 1 <= u <= 3 && x < 9 && j < 9
    ensures CellAt(u, x, j) < CELLS && UnitOf(u, CellAt(u, x, j)) == x
  {
    if u == 1 {
      Digits9(x, j);
    } else if u == 2 {
      Digits9(j, x);
    } else {
      BoxCell(x / 3, x % 3, j / 3, j % 3);
    }
  }

  lemma Digits9(a: nat, b: nat)
    requires a < 9 && b < 9
    ensures 9 * a + b < CELLS && (9 * a + b) / 9 == a && (9 * a + b) % 9 == b
  {
  }

  /** The cell in row `r'` and column `c'` of the box in band `r` and stack `c`. */
  lemma BoxCell(r: nat, c: nat, r': nat, c': nat)
    requires r < 3 && c < 3 && r' < 3 && c' < 3
    ensures var i := (r * 3 + r') * 9 + (c * 3 + c');
      && i < CELLS && i / 9 == r * 3 + r' && i % 9 == c * 3 + c'
      && i / 9 / 3 == r && i / 9 % 3 == r' && i % 9 / 3 == c && i % 9 % 3 == c'
  {}

  lemma UnitCell(u: nat, i: nat) returns (j: nat)
    requires 1 <= u <= 3 && i < CELLS
    ensures UnitOf(u, i) < 9 && j < 9 && CellAt(u, UnitOf(u, i), j) == i
  {
    j := if u == 1 then i % 9 else if u == 2 then i / 9 else i / 9 % 3 * 3 + i % 9 % 3;
    if u == 3 {
      var r, c := i / 9, i % 9;
      BoxParts(r / 3, c / 3);
      BoxParts(r % 3, c % 3);
      assert r == r / 3 * 3 + r % 3 && c == c / 3 * 3 + c % 3;
    }
  }

  lemma BoxParts(a: nat, b: nat)
    requires a < 3 && b < 3
    ensures (a * 3 + b) / 3 == a && (a * 3 + b) % 3 == b
  {}

  lemma CellAtInjective(u: nat, x: nat, j: nat, k: nat)
    requires 1 <= u <= 3 && x < 9 && j < 9 && k < 9 && j != k
    ensures CellAt(u, x, j) != CellAt(u, x, k)
  {}

  // ---------- the rules ----------

  /** The cell in row `r` and column `c`. */
  function Cell(r: nat, c: nat): nat {
    9 * r + c
  }

  /** The cell in row `r` and column `c` of the box in band `band` and stack `stack`. */
  function CellInBox(band: nat, stack: nat, r: nat, c: nat): nat {
    9 * (3 * band + r) + (3 * stack + c)
  }

  /** Every cell is filled, and no row, no column and no box of three by three cells holds a value twice. */
  ghost predicate IsSolved(g: seq<int>) {
    && |g| == CELLS && (forall i :: 0 <= i < CELLS ==> 1 <= g[i] <= 9)
    && (forall r: nat, c: nat, c': nat :: r < 9 && c < c' < 9 ==> g[Cell(r, c)] != g[Cell(r, c')])
    && (forall c: nat, r: nat, r': nat :: c < 9 && r < r' < 9 ==> g[Cell(r, c)] != g[Cell(r', c)])
    && (forall band: nat, stack: nat, r: nat, c: nat, r': nat, c': nat ::
          band < 3 && stack < 3 && r < 3 && c < 3 && r' < 3 && c' < 3 && (r != r' || c != c') ==>
            g[CellInBox(band, stack, r, c)] != g[CellInBox(band, stack, r', c')])
  }

  /** The rules by units. */
  ghost predicate UnitsDiffer(g: seq<int>) {
    && IsBoard(g) && (forall i :: 0 <= i < CELLS ==> g[i] != 0)
    && (forall u: nat, i: nat, k: nat :: 1 <= u <= 3 && i < k < CELLS && UnitOf(u, i) == UnitOf(u, k) ==> g[i] != g[k])
  }

  /** Two cells of a unit, by their places. */
  lemma PlacesDiffer(g: seq<int>, u: nat, i: nat, k: nat)
    requires IsSolved(g) && 1 <= u <= 3 && i < k < CELLS && UnitOf(u, i) == UnitOf(u, k)
    ensures g[i] != g[k]
  {
    if u == 1 {
      assert i == Cell(i / 9, i % 9) && k == Cell(i / 9, k % 9);
    } else if u == 2 {
      assert i == Cell(i / 9, i % 9) && k == Cell(k / 9, i % 9);
    } else {
      BoxPlaces(i, k);
      assert g[CellInBox(i / 9 / 3, i % 9 / 3, i / 9 % 3, i % 9 % 3)]
          != g[CellInBox(i / 9 / 3, i % 9 / 3, k / 9 % 3, k % 9 % 3)];
    }
  }

  lemma BoxPlaces(i: nat, k: nat)
    requires i < k < CELLS && UnitOf(3, i) == UnitOf(3, k)
    ensures i == CellInBox(i / 9 / 3, i % 9 / 3, i / 9 % 3, i % 9 % 3)
    ensures k == CellInBox(i / 9 / 3, i % 9 / 3, k / 9 % 3, k % 9 % 3)
  {
    BoxParts(i / 9 / 3, i % 9 / 3);
    BoxParts(k / 9 / 3, k % 9 / 3);
  }

  lemma CellUnits(r: nat, c: nat)
    requires r < 9 && c < 9
    ensures UnitOf(1, Cell(r, c)) == r && UnitOf(2, Cell(r, c)) == c && Cell(r, c) < CELLS
  {
    Digits9(r, c);
  }

  /** Cells that share a box share that unit. */
  lemma SameBox(band: nat, stack: nat, r: nat, c: nat, r': nat, c': nat)
    requires band < 3 && stack < 3 && r < 3 && c < 3 && r' < 3 && c' < 3 && (r != r' || c != c')
    ensures var i, k := CellInBox(band, stack, r, c), CellInBox(band, stack, r', c');
            i < CELLS && k < CELLS && i != k && UnitOf(3, i) == UnitOf(3, k)
  {
    BoxCell(band, stack, r, c);
    BoxCell(band, stack, r', c');
  }

  /** The rules by units are the rules. */
  lemma SolvedIff(g: seq<int>)
    ensures IsSolved(g) <==> UnitsDiffer(g)
  {
    if IsSolved(g) {
      forall u: nat, i: nat, k: nat | 1 <= u <= 3 && i < k < CELLS && UnitOf(u, i) == UnitOf(u, k)
        ensures g[i] != g[k]
      {
        PlacesDiffer(g, u, i, k);
      }
    }
    if UnitsDiffer(g) {
      UnitsFollowRules(g);
    }
  }

  lemma UnitsFollowRules(g: seq<int>)
    requires UnitsDiffer(g)
    ensures IsSolved(g)
  {
    forall r: nat, c: nat, c': nat | r < 9 && c < c' < 9 ensures g[Cell(r, c)] != g[Cell(r, c')] {
      CellUnits(r, c);
      CellUnits(r, c');
    }
    forall c: nat, r: nat, r': nat | c < 9 && r < r' < 9 ensures g[Cell(r, c)] != g[Cell(r', c)] {
      CellUnits(r, c);
      CellUnits(r', c);
    }
    forall band: nat, stack: nat, r: nat, c: nat, r': nat, c': nat |
      band < 3 && stack < 3 && r < 3 && c < 3 && r' < 3 && c' < 3 && (r != r' || c != c')
      ensures g[CellInBox(band, stack, r, c)] != g[CellInBox(band, stack, r', c')]
    {
      SameBox(band, stack, r, c, r', c');
    }
  }

  /** `g` keeps every given of `b`. */
  ghost predicate Extends(g: seq<int>, b: seq<int>)
    requires IsBoard(b) && |g| == CELLS
  {
    forall i :: 0 <= i < CELLS && b[i] != 0 ==> g[i] == b[i]
  }

  /** Value `v` is given somewhere in unit `x`. */
  ghost predicate Used(b: seq<int>, u: nat, x: nat, v: nat)
    requires IsBoard(b)
  {
    exists i: nat :: i < CELLS && UnitOf(u, i) == x && b[i] == v
  }

  // ---------- the encoding ----------

  ghost predicate IsOpen(b: seq<int>, k: nat)
    requires IsBoard(b)
  {
    || (k < CELLS && b[k] == 0)
    || (exists u: nat, x: nat, v: nat :: IsUnit(u, x, v) && k == Code(u, x, v) && !Used(b, u, x, v))
  }

  ghost predicate IsCandidate(b: seq<int>, p: Candidate)
    requires IsBoard(b)
  {
    && p.cell < CELLS && b[p.cell] == 0 && 1 <= p.val <= 9
    && (forall u: nat :: 1 <= u <= 3 ==> !Used(b, u, UnitOf(u, p.cell), p.val))
  }

  /** The codes of the columns candidate `p` meets. */
  ghost predicate Meets(p: Candidate, k: nat) {
    k == p.cell || exists u: nat :: 1 <= u <= 3 && k == Code(u, UnitOf(u, p.cell), p.val)
  }

  /** Candidates that meet every open code, none of them twice. */
  ghost predicate IsCover(b: seq<int>, ps: set<Candidate>)
    requires IsBoard(b)
  {
    && (forall p <- ps :: IsCandidate(b, p))
    && (forall k: nat :: IsOpen(b, k) ==> exists p :: p in ps && Meets(p, k))
    && (forall p, q, k :: p in ps && q in ps && Meets(p, k) && Meets(q, k) ==> p == q)
  }

  lemma CodeInjective(u: nat, x: nat, v: nat, u': nat, x': nat, v': nat)
    requires x < 9 && 1 <= v <= 9 && x' < 9 && 1 <= v' <= 9 && Code(u, x, v) == Code(u', x', v')
    ensures u == u' && x == x' && v == v'
  {
  }

  lemma UnitInRange(u: nat, i: nat)
    requires 1 <= u <= 3 && i < CELLS
    ensures UnitOf(u, i) < 9
  {}

  // ---------- counting ----------

  ghost function Values(s: seq<int>): set<int> {
    set x | x in s
  }

  lemma {:induction false} ValuesSize(s: seq<int>)
    ensures |Values(s)| <= |s|
    ensures |Values(s)| == |s| <==> forall i, k :: 0 <= i < k < |s| ==> s[i] != s[k]
  {
    if s != [] {
      var s', x := s[..|s| - 1], s[|s| - 1];
      ValuesSize(s');
      assert Values(s) == Values(s') + {x};
      if x in s' {
        assert Values(s) == Values(s');
        var i :| 0 <= i < |s'| && s'[i] == x;
        assert s[i] == s[|s| - 1];
      } else {
        assert |Values(s)| == |Values(s')| + 1;
        assert forall i :: 0 <= i < |s'| ==> s[i] == s'[i];
      }
    }
  }

  /** Nine values from 1 to 9 are all different exactly when each of 1 to 9 occurs. */
  lemma Pigeonhole(s: seq<int>)
    requires |s| == 9 && forall i :: 0 <= i < 9 ==> 1 <= s[i] <= 9
    ensures (forall i, k :: 0 <= i < k < 9 ==> s[i] != s[k]) <==> (forall v :: 1 <= v <= 9 ==> v in s)
  {
    UpToSize(9);
    AllDifferentIff(s, UpTo(9));
  }

  /** As many values as the set they are from has: all different exactly when each of the set occurs. */
  lemma AllDifferentIff(s: seq<int>, all: set<int>)
    requires |s| == |all| && Values(s) <= all
    ensures (forall i, k :: 0 <= i < k < |s| ==> s[i] != s[k]) <==> (forall v :: v in all ==> v in s)
  {
    ValuesSize(s);
    if |Values(s)| == |s| {
      SubsetSize(Values(s), all);
    }
    if forall v :: v in all ==> v in s {
      assert Values(s) == all;
    }
  }

  ghost function UpTo(n: nat): set<int> {
    if n == 0 then {} else UpTo(n - 1) + {n}
  }

  lemma {:induction false} UpToSize(n: nat)
    ensures |UpTo(n)| == n && forall v :: v in UpTo(n) <==> 1 <= v <= n
  {
    if n > 0 {
      UpToSize(n - 1);
    }
  }

  lemma SubsetSize(a: set<int>, b: set<int>)
    requires a <= b && |a| == |b|
    ensures a == b
  {
    assert |b - a| == |b| - |a|;
    assert b == a + (b - a);
  }

  /** The values of one unit of a filled grid. */
  ghost function UnitValues(g: seq<int>, u: nat, x: nat): (s: seq<int>)
    requires |g| == CELLS && 1 <= u <= 3 && x < 9
    ensures |s| == 9 && forall j :: 0 <= j < 9 ==> CellAt(u, x, j) < CELLS && s[j] == g[CellAt(u, x, j)]
  {
    seq(9, j requires 0 <= j < 9 => CellAtUnit(u, x, j); g[CellAt(u, x, j)])
  }

  /** In a solved grid every unit holds every value. */
  lemma SolvedUnit(g: seq<int>, u: nat, x: nat, v: nat) returns (i: nat)
    requires UnitsDiffer(g) && IsUnit(u, x, v)
    ensures i < CELLS && UnitOf(u, i) == x && g[i] == v
  {
    var s := UnitValues(g, u, x);
    forall j, k | 0 <= j < k < 9 ensures s[j] != s[k] {
      CellAtUnit(u, x, j);
      CellAtUnit(u, x, k);
      CellAtInjective(u, x, j, k);
    }
    Pigeonhole(s);
    assert v in s;
    var j :| 0 <= j < 9 && s[j] == v;
    CellAtUnit(u, x, j);
    i := CellAt(u, x, j);
  }

  /** A filled grid whose units all hold every value is solved. */
  lemma UnitsSolve(g: seq<int>)
    requires IsBoard(g) && forall i :: 0 <= i < CELLS ==> g[i] != 0
    requires forall u: nat, x: nat, v: nat :: IsUnit(u, x, v) ==> Used(g, u, x, v)
    ensures UnitsDiffer(g)
  {
    forall u: nat, i: nat, k: nat | 1 <= u <= 3 && i < k < CELLS && UnitOf(u, i) == UnitOf(u, k)
      ensures g[i] != g[k]
    {
      var x := UnitOf(u, i);
      var ji := UnitCell(u, i);
      var jk := UnitCell(u, k);
      var s := UnitValues(g, u, x);
      forall v | 1 <= v <= 9 ensures v in s {
        assert IsUnit(u, x, v);
        var h: nat :| h < CELLS && UnitOf(u, h) == x && g[h] == v;
        var j := UnitCell(u, h);
        assert s[j] == v;
      }
      Pigeonhole(s);
      assert s[ji] == g[i] && s[jk] == g[k];
    }
  }

  // ---------- solved grids are covers ----------

  ghost function Choices(b: seq<int>, g: seq<int>): set<Candidate>
    requires IsBoard(b) && IsBoard(g)
  {
    set i: nat | i < CELLS && b[i] == 0 :: Candidate(i, g[i])
  }

  lemma ChoiceIsCandidate(b: seq<int>, g: seq<int>, i: nat)
    requires IsBoard(b) && UnitsDiffer(g) && Extends(g, b) && i < CELLS && b[i] == 0
    ensures IsCandidate(b, Candidate(i, g[i]))
  {
  }

  lemma ChoiceMeets(b: seq<int>, g: seq<int>, k: nat)
    requires IsBoard(b) && UnitsDiffer(g) && Extends(g, b) && IsOpen(b, k)
    ensures exists p :: p in Choices(b, g) && Meets(p, k)
  {
    if k < CELLS && b[k] == 0 {
      assert Candidate(k, g[k]) in Choices(b, g) && Meets(Candidate(k, g[k]), k);
    } else {
      var u: nat, x: nat, v: nat :| IsUnit(u, x, v) && k == Code(u, x, v) && !Used(b, u, x, v);
      var i := SolvedUnit(g, u, x, v);
      assert b[i] == 0;
      assert Candidate(i, g[i]) in Choices(b, g) && Meets(Candidate(i, g[i]), k);
    }
  }

  /** Two candidates that share a code share the cell, or the value and a unit. */
  lemma SharedCode(p: Candidate, q: Candidate, k: nat) returns (u: nat)
    requires p.cell < CELLS && q.cell < CELLS && 1 <= p.val <= 9 && 1 <= q.val <= 9 && Meets(p, k) && Meets(q, k)
    ensures p.cell == q.cell || (1 <= u <= 3 && UnitOf(u, p.cell) == UnitOf(u, q.cell) && p.val == q.val)
  {
    u := 0;
    if k >= CELLS {
      var up: nat :| 1 <= up <= 3 && k == Code(up, UnitOf(up, p.cell), p.val);
      var uq: nat :| 1 <= uq <= 3 && k == Code(uq, UnitOf(uq, q.cell), q.val);
      UnitInRange(up, p.cell);
      UnitInRange(uq, q.cell);
      CodeInjective(up, UnitOf(up, p.cell), p.val, uq, UnitOf(uq, q.cell), q.val);
      u := up;
    }
  }

  /** A solved grid that keeps the givens is an exact cover of what the givens leave open. */
  lemma GridIsCover(b: seq<int>, g: seq<int>)
    requires IsBoard(b) && IsSolved(g) && Extends(g, b)
    ensures IsCover(b, Choices(b, g))
  {
    SolvedIff(g);
    var ps := Choices(b, g);
    forall p | p in ps ensures IsCandidate(b, p) { ChoiceIsCandidate(b, g, p.cell); }
    forall k: nat | IsOpen(b, k) ensures exists p :: p in ps && Meets(p, k) { ChoiceMeets(b, g, k); }
    forall p, q, k | p in ps && q in ps && Meets(p, k) && Meets(q, k) ensures p == q {
      var u := SharedCode(p, q, k);
    }
  }

  // ---------- covers are solved grids ----------

  /** The board with the candidates of a cover filled in. */
  ghost predicate Fills(b: seq<int>, ps: set<Candidate>, g: seq<int>)
    requires IsBoard(b)
  {
    && |g| == CELLS
    && (forall i: nat :: i < CELLS && b[i] != 0 ==> g[i] == b[i])
    && (forall i: nat :: i < CELLS && b[i] == 0 ==> 0 <= g[i] && Candidate(i, g[i]) in ps)
  }

  lemma FilledUnit(b: seq<int>, ps: set<Candidate>, g: seq<int>, u: nat, x: nat, v: nat)
    requires IsBoard(b) && IsCover(b, ps) && Fills(b, ps, g) && IsBoard(g) && IsUnit(u, x, v)
    ensures Used(g, u, x, v)
  {
    if Used(b, u, x, v) {
      var i: nat :| i < CELLS && UnitOf(u, i) == x && b[i] == v;
      assert g[i] == v;
    } else {
      var k := Code(u, x, v);
      assert IsOpen(b, k);
      var p :| p in ps && Meets(p, k);
      assert IsCandidate(b, p);
      var u': nat :| 1 <= u' <= 3 && k == Code(u', UnitOf(u', p.cell), p.val);
      UnitInRange(u', p.cell);
      CodeInjective(u, x, v, u', UnitOf(u', p.cell), p.val);
      var q := Candidate(p.cell, g[p.cell]);
      assert q in ps && Meets(p, p.cell) && Meets(q, p.cell);
      assert UnitOf(u, p.cell) == x && g[p.cell] == v;
    }
  }

  /**
   A cover fills the board to a solved grid, whatever the givens: were a value given twice in
   a unit, too few of its cells would be left for the missing values.
   */
  lemma CoverIsGrid(b: seq<int>, ps: set<Candidate>, g: seq<int>)
    requires IsBoard(b) && IsCover(b, ps) && Fills(b, ps, g)
    ensures IsSolved(g) && Extends(g, b)
  {
    forall i: nat | i < CELLS ensures 1 <= g[i] <= 9 {
      if b[i] == 0 {
        assert IsCandidate(b, Candidate(i, g[i]));
      }
    }
    forall u: nat, x: nat, v: nat | IsUnit(u, x, v) ensures Used(g, u, x, v) {
      FilledUnit(b, ps, g, u, x, v);
    }
    UnitsSolve(g);
    SolvedIff(g);
  }
}
