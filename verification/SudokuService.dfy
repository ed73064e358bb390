/** From a puzzle text to its solution: marking, laying out, searching and reading the answer. */
module SudokuService {
  import opened Links
  import opened Torus
  import opened DancingLinks
  import opened SudokuRules
  import opened SudokuLayout
  import opened SudokuSolver
  import E = ExactCover

  // ---------- what the givens use up ----------

  ghost predicate UsedBelow(b: seq<int>, u: nat, x: nat, v: nat, i: nat)
    requires IsBoard(b)
  {
    exists k: nat :: k < i && k < CELLS && UnitOf(u, k) == x && b[k] == v
  }

  lemma UsedBelowNext(b: seq<int>, u: nat, x: nat, v: nat, i: nat)
    requires IsBoard(b) && i < CELLS
    ensures UsedBelow(b, u, x, v, i + 1) <==> UsedBelow(b, u, x, v, i) || (UnitOf(u, i) == x && b[i] == v)
  {
  }

  /** `f` marks exactly the values the first `i` cells use up in each unit of kind `u`. */
  ghost predicate Marks(f: array2<bool>, b: seq<int>, u: nat, i: nat)
    requires IsBoard(b)
    reads f
  {
    && f.Length0 == CELLS && f.Length1 == 10
    && forall x: nat, v: nat :: x < CELLS && v < 10 ==> (f[x, v] <==> UsedBelow(b, u, x, v, i))
  }

  method Mark(f: array2<bool>, b: seq<int>, u: nat, i: nat)
    requires IsBoard(b) && i < CELLS && 1 <= u <= 3 && Marks(f, b, u, i)
    modifies f
    ensures Marks(f, b, u, i + 1)
  {
    UnitInRange(u, i);
    forall x: nat, v: nat | x < CELLS && v < 10
      ensures UsedBelow(b, u, x, v, i + 1) <==> UsedBelow(b, u, x, v, i) || (UnitOf(u, i) == x && b[i] == v)
    {
      UsedBelowNext(b, u, x, v, i);
    }
    f[UnitOf(u, i), b[i]] := true;
  }

  method MarkAll(b: seq<int>) returns (rows: array2<bool>, cols: array2<bool>, boxes: array2<bool>)
    requires IsBoard(b)
    ensures fresh(rows) && fresh(cols) && fresh(boxes)
    ensures Marks(rows, b, 1, CELLS) && Marks(cols, b, 2, CELLS) && Marks(boxes, b, 3, CELLS)
  {
    rows := new bool[CELLS, 10]((_, _) => false);
    cols := new bool[CELLS, 10]((_, _) => false);
    boxes := new bool[CELLS, 10]((_, _) => false);
    var i := 0;
    while i < CELLS
      invariant 0 <= i <= CELLS && fresh(rows) && fresh(cols) && fresh(boxes)
      invariant rows != cols && cols != boxes && rows != boxes
      invariant Marks(rows, b, 1, i) && Marks(cols, b, 2, i) && Marks(boxes, b, 3, i)
    {
      Mark(rows, b, 1, i);
      Mark(cols, b, 2, i);
      Mark(boxes, b, 3, i);
      i := i + 1;
    }
  }

  // ---------- the columns ----------

  /** The place of a unit code in the order the columns are appended. */
  ghost function Rank(u: nat, x: nat, v: nat): int {
    (x * 9 + (v - 1)) * 3 + (u - 1)
  }

  /** Code `k` is open and among the cells and the first `t` unit codes. */
  ghost predicate OpenBelow(b: seq<int>, k: nat, t: int)
    requires IsBoard(b)
  {
    || (k < CELLS && b[k] == 0)
    || (exists u: nat, x: nat, v: nat ::
          IsUnit(u, x, v) && k == Code(u, x, v) && !Used(b, u, x, v) && Rank(u, x, v) < t)
  }

  lemma OpenBelowNext(b: seq<int>, k: nat, u: nat, x: nat, v: nat)
    requires IsBoard(b) && IsUnit(u, x, v)
    ensures OpenBelow(b, k, Rank(u, x, v) + 1)
       <==> OpenBelow(b, k, Rank(u, x, v)) || (k == Code(u, x, v) && !Used(b, u, x, v))
    ensures Code(u, x, v) < CODES && !OpenBelow(b, Code(u, x, v), Rank(u, x, v))
  {
    if OpenBelow(b, k, Rank(u, x, v) + 1) && !(k < CELLS && b[k] == 0) {
      var u': nat, x': nat, v': nat :| IsUnit(u', x', v') && k == Code(u', x', v') && !Used(b, u', x', v')
        && Rank(u', x', v') < Rank(u, x, v) + 1;
      if Rank(u', x', v') == Rank(u, x, v) {
        RankInjective(u, x, v, u', x', v');
      }
    }
    if OpenBelow(b, Code(u, x, v), Rank(u, x, v)) {
      var u': nat, x': nat, v': nat :| IsUnit(u', x', v') && Code(u, x, v) == Code(u', x', v')
        && Rank(u', x', v') < Rank(u, x, v);
      CodeInjective(u, x, v, u', x', v');
    }
  }

  lemma RankInjective(u: nat, x: nat, v: nat, u': nat, x': nat, v': nat)
    requires IsUnit(u, x, v) && IsUnit(u', x', v') && Rank(u, x, v) == Rank(u', x', v')
    ensures u == u' && x == x' && v == v'
  {
  }

  lemma AllBelow(b: seq<int>, k: nat)
    requires IsBoard(b)
    ensures OpenBelow(b, k, 243) <==> IsOpen(b, k)
  {
  }

  /** The columns laid out are those of the cells and the first `t` unit codes; no rows yet. */
  ghost predicate ColumnsUpTo(s: Solver, b: seq<int>, t: int)
    requires IsBoard(b)
    reads s, s.columns, s.d.left, s.d.right, s.d.up, s.d.down, s.d.col, s.d.name, s.d.size
  {
    s.Laid() && s.columns.Length == CODES && s.layout.cands == [] && s.cur <= 82 + t && HasColumns(b, s.columns[..], t)
  }

  ghost predicate HasColumns(b: seq<int>, columns: seq<nat>, t: int)
    requires IsBoard(b) && |columns| == CODES
  {
    forall k: nat :: k < CODES ==> (columns[k] != ROOT <==> OpenBelow(b, k, t))
  }

  method AppendCells(s: Solver, b: seq<int>)
    requires IsBoard(b) && s.Laid() && s.cur == 1 && s.layout.cands == [] && s.columns.Length == CODES
    requires forall k :: 0 <= k < CODES ==> s.columns[k] == ROOT
    modifies s, s.columns, s.d.left, s.d.right, s.d.up, s.d.down, s.d.col, s.d.name, s.d.size
    ensures ColumnsUpTo(s, b, 0)
  {
    var i := 0;
    while i < CELLS
      invariant 0 <= i <= CELLS && s.Laid() && s.cur <= 1 + i && s.layout.cands == []
      invariant HasCells(b, s.columns[..], i)
    {
      if b[i] == 0 {
        s.CurPositive();
        s.AppendColumn(i);
      }
      i := i + 1;
    }
    CellsAreOpen(b, s.columns[..]);
  }

  ghost predicate HasCells(b: seq<int>, columns: seq<nat>, i: nat)
    requires IsBoard(b)
  {
    |columns| == CODES && forall k: nat :: k < CODES ==> (columns[k] != ROOT <==> k < i && k < CELLS && b[k] == 0)
  }

  lemma CellsAreOpen(b: seq<int>, columns: seq<nat>)
    requires IsBoard(b) && HasCells(b, columns, CELLS)
    ensures HasColumns(b, columns, 0)
  {
  }

  method AppendUnit(s: Solver, b: seq<int>, u: nat, x: nat, v: nat, used: bool)
    requires IsBoard(b) && IsUnit(u, x, v) && (used <==> Used(b, u, x, v)) && ColumnsUpTo(s, b, Rank(u, x, v))
    modifies s, s.columns, s.d.left, s.d.right, s.d.up, s.d.down, s.d.col, s.d.name, s.d.size
    ensures ColumnsUpTo(s, b, Rank(u, x, v) + 1)
  {
    forall k: nat | k < CODES
      ensures OpenBelow(b, k, Rank(u, x, v) + 1)
         <==> OpenBelow(b, k, Rank(u, x, v)) || (k == Code(u, x, v) && !Used(b, u, x, v))
    {
      OpenBelowNext(b, k, u, x, v);
    }
    OpenBelowNext(b, 0, u, x, v);
    if !used {
      s.CurPositive();
      s.AppendColumn(Code(u, x, v));
    }
  }

  /** What the three tables of marks say about the whole board. */
  ghost predicate AllMarked(rows: array2<bool>, cols: array2<bool>, boxes: array2<bool>, b: seq<int>)
    requires IsBoard(b)
    reads rows, cols, boxes
  {
    Marks(rows, b, 1, CELLS) && Marks(cols, b, 2, CELLS) && Marks(boxes, b, 3, CELLS)
  }

  lemma MarkedIsUsed(f: array2<bool>, b: seq<int>, u: nat, x: nat, v: nat)
    requires IsBoard(b) && Marks(f, b, u, CELLS) && x < 9 && 1 <= v <= 9
    ensures f[x, v] <==> Used(b, u, x, v)
  {}

  method AppendThree(s: Solver, b: seq<int>, x: nat, v: nat, rows: array2<bool>, cols: array2<bool>,
                     boxes: array2<bool>)
    requires IsBoard(b) && x < 9 && 1 <= v <= 9 && AllMarked(rows, cols, boxes, b) && ColumnsUpTo(s, b, Rank(1, x, v))
    modifies s, s.columns, s.d.left, s.d.right, s.d.up, s.d.down, s.d.col, s.d.name, s.d.size
    ensures ColumnsUpTo(s, b, Rank(1, x, v) + 3)
  {
    MarkedIsUsed(rows, b, 1, x, v);
    MarkedIsUsed(cols, b, 2, x, v);
    MarkedIsUsed(boxes, b, 3, x, v);
    var inCol, inBox := cols[x, v], boxes[x, v];
    AppendUnit(s, b, 1, x, v, rows[x, v]);
    AppendTwo(s, b, x, v, inCol, inBox);
  }

  method AppendTwo(s: Solver, b: seq<int>, x: nat, v: nat, inCol: bool, inBox: bool)
    requires IsBoard(b) && x < 9 && 1 <= v <= 9 && ColumnsUpTo(s, b, Rank(1, x, v) + 1)
    requires (inCol <==> Used(b, 2, x, v)) && (inBox <==> Used(b, 3, x, v))
    modifies s, s.columns, s.d.left, s.d.right, s.d.up, s.d.down, s.d.col, s.d.name, s.d.size
    ensures ColumnsUpTo(s, b, Rank(1, x, v) + 3)
  {
    AppendUnit(s, b, 2, x, v, inCol);
    AppendUnit(s, b, 3, x, v, inBox);
  }

  method AppendUnits(s: Solver, b: seq<int>, rows: array2<bool>, cols: array2<bool>, boxes: array2<bool>)
    requires IsBoard(b) && AllMarked(rows, cols, boxes, b) && ColumnsUpTo(s, b, 0)
    modifies s, s.columns, s.d.left, s.d.right, s.d.up, s.d.down, s.d.col, s.d.name, s.d.size
    ensures ColumnsUpTo(s, b, 243)
  {
    var x := 0;
    while x < 9
      invariant 0 <= x <= 9 && AllMarked(rows, cols, boxes, b) && ColumnsUpTo(s, b, 27 * x)
    {
      var v := 1;
      while v < 10
        invariant 1 <= v <= 10 && AllMarked(rows, cols, boxes, b) && ColumnsUpTo(s, b, 27 * x + 3 * (v - 1))
      {
        assert Rank(1, x, v) == 27 * x + 3 * (v - 1);
        AppendThree(s, b, x, v, rows, cols, boxes);
        v := v + 1;
      }
      x := x + 1;
    }
  }

  // ---------- the rows ----------

  /** The rows laid out are the candidates of the cells before `i`, and of cell `i` below value `v`. */
  ghost predicate RowsUpTo(s: Solver, b: seq<int>, i: nat, v: nat)
    requires IsBoard(b)
    reads s, s.columns, s.d.left, s.d.right, s.d.up, s.d.down, s.d.col, s.d.name, s.d.size
  {
    && s.Laid() && s.columns.Length == CODES && s.cur <= 325 + 36 * i + 4 * (v - 1)
    && HasColumns(b, s.columns[..], 243) && HasRows(b, s.layout.cands, i, v)
  }

  ghost predicate HasRows(b: seq<int>, cands: seq<Candidate>, i: nat, v: nat)
    requires IsBoard(b)
  {
    forall p :: p in cands <==> IsCandidate(b, p) && (p.cell < i || (p.cell == i && p.val < v))
  }

  lemma HasRowsMore(b: seq<int>, cands: seq<Candidate>, i: nat, v: nat)
    requires IsBoard(b) && i < CELLS && 1 <= v <= 9 && HasRows(b, cands, i, v)
    ensures IsCandidate(b, Candidate(i, v)) ==> HasRows(b, cands + [Candidate(i, v)], i, v + 1)
    ensures !IsCandidate(b, Candidate(i, v)) ==> HasRows(b, cands, i, v + 1)
  {
  }

  lemma HasRowsNextCell(b: seq<int>, cands: seq<Candidate>, i: nat)
    requires IsBoard(b) && i < CELLS && (HasRows(b, cands, i, 10) || (b[i] != 0 && HasRows(b, cands, i, 1)))
    ensures HasRows(b, cands, i + 1, 1)
  {}

  lemma CandidateHasHeaders(b: seq<int>, columns: seq<nat>, p: Candidate)
    requires IsBoard(b) && |columns| == CODES && IsCandidate(b, p) && HasColumns(b, columns, 243)
    ensures HasHeaders(columns, p)
  {
    forall j: nat | j < 4 ensures CodeOf(p, j) < CODES && columns[CodeOf(p, j)] != ROOT {
      MeetsCodes(p, CodeOf(p, j));
      CandidateMeetsOpen(b, p, CodeOf(p, j));
      AllBelow(b, CodeOf(p, j));
    }
  }

  method AddCandidateIf(s: Solver, b: seq<int>, i: nat, v: nat, taken: bool)
    requires IsBoard(b) && i < CELLS && 1 <= v <= 9 && RowsUpTo(s, b, i, v)
    requires taken <==> !IsCandidate(b, Candidate(i, v))
    modifies s, s.d.left, s.d.right, s.d.up, s.d.down, s.d.col, s.d.name, s.d.size
    ensures RowsUpTo(s, b, i, v + 1)
  {
    HasRowsMore(b, s.layout.cands, i, v);
    if !taken {
      CandidateHasHeaders(b, s.columns[..], Candidate(i, v));
      s.AddCandidate(Candidate(i, v));
    }
  }

  method IsTaken(b: seq<int>, i: nat, v: nat, rows: array2<bool>, cols: array2<bool>, boxes: array2<bool>)
    returns (taken: bool)
    requires IsBoard(b) && i < CELLS && b[i] == 0 && 1 <= v <= 9 && AllMarked(rows, cols, boxes, b)
    ensures taken <==> !IsCandidate(b, Candidate(i, v))
  {
    UnitInRange(1, i);
    UnitInRange(2, i);
    UnitInRange(3, i);
    MarkedIsUsed(rows, b, 1, UnitOf(1, i), v);
    MarkedIsUsed(cols, b, 2, UnitOf(2, i), v);
    MarkedIsUsed(boxes, b, 3, UnitOf(3, i), v);
    taken := rows[UnitOf(1, i), v] || cols[UnitOf(2, i), v] || boxes[UnitOf(3, i), v];
  }

  method AddCandidatesOf(s: Solver, b: seq<int>, i: nat, rows: array2<bool>, cols: array2<bool>, boxes: array2<bool>)
    requires IsBoard(b) && i < CELLS && b[i] == 0 && AllMarked(rows, cols, boxes, b) && RowsUpTo(s, b, i, 1)
    modifies s, s.d.left, s.d.right, s.d.up, s.d.down, s.d.col, s.d.name, s.d.size
    ensures RowsUpTo(s, b, i, 10) && AllMarked(rows, cols, boxes, b)
  {
    var v := 1;
    while v < 10
      invariant 1 <= v <= 10 && RowsUpTo(s, b, i, v) && AllMarked(rows, cols, boxes, b)
    {
      var taken := IsTaken(b, i, v, rows, cols, boxes);
      AddCandidateIf(s, b, i, v, taken);
      v := v + 1;
    }
  }

  method AddCandidates(s: Solver, b: seq<int>, rows: array2<bool>, cols: array2<bool>, boxes: array2<bool>)
    requires IsBoard(b) && AllMarked(rows, cols, boxes, b) && RowsUpTo(s, b, 0, 1)
    modifies s, s.d.left, s.d.right, s.d.up, s.d.down, s.d.col, s.d.name, s.d.size
    ensures RowsUpTo(s, b, CELLS, 1)
  {
    var i := 0;
    while i < CELLS
      invariant 0 <= i <= CELLS && RowsUpTo(s, b, i, 1) && AllMarked(rows, cols, boxes, b)
    {
      if b[i] == 0 {
        AddCandidatesOf(s, b, i, rows, cols, boxes);
      }
      HasRowsNextCell(b, s.layout.cands, i);
      i := i + 1;
    }
  }

  /** The constructor of the solver: the whole layout of a board. */
  method LayBoard(b: seq<int>) returns (s: Solver)
    requires IsBoard(b)
    ensures fresh(s) && fresh(s.columns) && fresh(s.d) && s.d.stack == []
    ensures fresh(s.d.left) && fresh(s.d.right) && fresh(s.d.up) && fresh(s.d.down)
    ensures fresh(s.d.col) && fresh(s.d.name) && fresh(s.d.size)
    ensures s.Laid() && s.columns.Length == CODES && s.cur <= MAX_NODES
    ensures Encodes(b, s.columns[..], s.layout.cands)
  {
    s := new Solver();
    LayAll(s, b);
    EncodesAll(b, s.columns[..], s.layout.cands);
  }

  method LayAll(s: Solver, b: seq<int>)
    requires IsBoard(b) && s.Laid() && s.cur == 1 && s.layout.cands == [] && s.columns.Length == CODES
    requires forall k :: 0 <= k < CODES ==> s.columns[k] == ROOT
    modifies s, s.columns, s.d.left, s.d.right, s.d.up, s.d.down, s.d.col, s.d.name, s.d.size
    ensures RowsUpTo(s, b, CELLS, 1)
  {
    var rows, cols, boxes := MarkAll(b);
    AppendCells(s, b);
    AppendUnits(s, b, rows, cols, boxes);
    AddCandidates(s, b, rows, cols, boxes);
  }

  lemma EncodesAll(b: seq<int>, columns: seq<nat>, cands: seq<Candidate>)
    requires IsBoard(b) && |columns| == CODES && HasColumns(b, columns, 243) && HasRows(b, cands, CELLS, 1)
    ensures Encodes(b, columns, cands)
  {
  }

  // ---------- reading the answer ----------

  /** In the row of candidate `p`, node `a + j` has its name and its right neighbour. */
  lemma RowAt(l: Layout, s: Store, n: nat, names: seq<int>, columns: seq<nat>, r: nat, j: nat)
    requires RowsLaid(l.m, names, columns, l.cands, l.firsts) && r < l.m.rowCount && j < 4
    requires l.m.Valid() && InBounds(s, n) && RowsLinked(l.m, s, n)
    ensures var a, p := l.firsts[r], l.cands[r];
      && InRange(p) && a + j < |names| && a + j < n && names[a + j] == CodeOf(p, j)
      && s.right[a + j] == if j == 3 then a else a + j + 1
  {
    var a, p := l.firsts[r], l.cands[r];
    CodeAtNode(l.m, names, columns, r, a, p, j);
    CodeAtNode(l.m, names, columns, r, a, p, 0);
    RingStep(s.right, s.left, a, l.m.Rest(a), j - 1);
  }

  lemma NameOfCode(p: Candidate, j: nat)
    requires InRange(p) && j < 4
    ensures CodeOf(p, j) < 100 <==> j == 0
    ensures j > 0 ==> CodeOf(p, j) % 10 == p.val
  {
    if j > 0 {
      UnitInRange(j, p.cell);
    }
  }

  /** The inner loop of `solve` at the end of the search: walk a row for its cell and its value. */
  method ReadRow(d: Dancer, x: nat, ghost l: Layout, ghost columns: seq<nat>) returns (cell: int, val: int)
    requires d.Arrays() && l.m.Valid() && InBounds(d.Links(), d.n) && RowsLinked(l.m, d.Links(), d.n)
    requires RowsLaid(l.m, d.name[..], columns, l.cands, l.firsts) && x in l.m.row
    ensures l.m.RowOf(x) < |l.cands|
    ensures var p := l.cands[l.m.RowOf(x)]; InRange(p) && cell == p.cell && val == p.val
  {
    ghost var r := l.m.row[x];
    ghost var a, p, j := l.firsts[r], l.cands[r], x - l.firsts[r];
    cell, val := -1, -1;
    var n := x;
    RowAt(l, d.Links(), d.n, d.name[..], columns, r, j);
    ghost var t := 0;
    while cell == -1 || val == -1
      invariant 0 <= t <= 4 && InRange(p) && n == a + (if j + t < 4 then j + t else j + t - 4)
      invariant cell == if (j == 0 && t > 0) || j + t > 4 then p.cell else -1
      invariant val == if t > 1 || (j > 0 && t > 0) then p.val else -1
      decreases 4 - t
    {
      ghost var i := if j + t < 4 then j + t else j + t - 4;
      RowAt(l, d.Links(), d.n, d.name[..], columns, r, i);
      NameOfCode(p, i);
      if d.name[n] < 100 {
        cell := d.name[n];
      } else {
        val := d.name[n] % 10;
      }
      n := d.right[n];
      t := t + 1;
    }
  }

  /** The board holds the value of every candidate read so far, and the givens elsewhere. */
  ghost predicate ReadSoFar(b: seq<int>, g: seq<int>, l: Layout, picks: seq<nat>, i: nat)
    requires IsBoard(b)
  {
    && |g| == CELLS && i <= |picks|
    && (forall k: nat :: k < CELLS && b[k] != 0 ==> g[k] == b[k])
    && (forall k :: 0 <= k < i ==> Holds(g, l, picks[k]))
  }

  ghost predicate Holds(g: seq<int>, l: Layout, x: nat)
    requires |g| == CELLS
  {
    l.m.RowOf(x) < |l.cands| && var p := l.cands[l.m.RowOf(x)]; p.cell < CELLS && g[p.cell] == p.val
  }

  lemma ReadNext(b: seq<int>, g: seq<int>, l: Layout, picks: seq<nat>, i: nat, cell: nat, val: nat)
    requires IsBoard(b) && ReadSoFar(b, g, l, picks, i) && i < |picks|
    requires l.m.RowOf(picks[i]) < |l.cands| && l.cands[l.m.RowOf(picks[i])] == Candidate(cell, val)
    requires IsCover(b, Chosen(l.cands, RowsOf(l.m, picks))) && cell < CELLS
    ensures ReadSoFar(b, g[cell := val], l, picks, i + 1)
  {
    var ps, p := Chosen(l.cands, RowsOf(l.m, picks)), Candidate(cell, val);
    assert l.m.RowOf(picks[i]) in RowsOf(l.m, picks);
    assert p in ps && IsCandidate(b, p) && Meets(p, cell);
    forall k | 0 <= k < i + 1 ensures Holds(g[cell := val], l, picks[k]) {
      if k < i {
        assert Holds(g, l, picks[k]);
        var q := l.cands[l.m.RowOf(picks[k])];
        assert l.m.RowOf(picks[k]) in RowsOf(l.m, picks);
        assert q in ps && Meets(q, q.cell);
      }
    }
  }

  lemma AllRead(b: seq<int>, g: seq<int>, l: Layout, picks: seq<nat>)
    requires IsBoard(b) && ReadSoFar(b, g, l, picks, |picks|)
    requires IsCover(b, Chosen(l.cands, RowsOf(l.m, picks)))
    ensures Fills(b, Chosen(l.cands, RowsOf(l.m, picks)), g)
  {
    var ps := Chosen(l.cands, RowsOf(l.m, picks));
    forall i: nat | i < CELLS && b[i] == 0 ensures 0 <= g[i] && Candidate(i, g[i]) in ps {
      assert IsOpen(b, i);
      var p :| p in ps && Meets(p, i);
      assert IsCandidate(b, p) && p.cell == i;
      var r: nat :| r in RowsOf(l.m, picks) && r < |l.cands| && l.cands[r] == p;
      var k :| 0 <= k < |picks| && l.m.RowOf(picks[k]) == r;
      assert Holds(g, l, picks[k]);
    }
  }

  /** The loop over the stack: fill in the chosen candidates. */
  method ReadStack(d: Dancer, board: array<int>, ghost l: Layout, ghost columns: seq<nat>)
    requires d.Arrays() && l.m.Valid() && InBounds(d.Links(), d.n) && RowsLinked(l.m, d.Links(), d.n)
    requires RowsLaid(l.m, d.name[..], columns, l.cands, l.firsts)
    requires board as object !in {d.left as object, d.right, d.up, d.down, d.col, d.name, d.size, d}
    requires board.Length == CELLS && IsBoard(board[..])
    requires (forall i :: 0 <= i < |d.stack| ==> d.stack[i] in l.m.row)
    requires IsCover(board[..], Chosen(l.cands, RowsOf(l.m, d.stack)))
    modifies board
    ensures Fills(old(board[..]), Chosen(l.cands, RowsOf(l.m, d.stack)), board[..])
  {
    ghost var b := board[..];
    var i := 0;
    while i < |d.stack|
      invariant 0 <= i <= |d.stack| && ReadSoFar(b, board[..], l, d.stack, i)
      invariant InBounds(d.Links(), d.n) && RowsLinked(l.m, d.Links(), d.n)
      invariant RowsLaid(l.m, d.name[..], columns, l.cands, l.firsts)
    {
      var cell, val := ReadRow(d, d.stack[i], l, columns);
      ReadNext(b, board[..], l, d.stack, i, cell, val);
      ghost var g := board[..][cell := val];
      board[cell] := val;
      assert board[..] == g;
      i := i + 1;
    }
    AllRead(b, board[..], l, d.stack);
  }

  lemma FoundIsCover(b: seq<int>, l: Layout, s: Store, n: nat, names: seq<int>, columns: seq<nat>, cur: nat,
                     picks: seq<nat>)
    requires IsBoard(b) && LaidOut(l, s, n, names, columns, cur) && Encodes(b, columns, l.cands)
    requires IsSolution(l.m, Elements(l.v.heads), picks)
    ensures IsCover(b, Chosen(l.cands, RowsOf(l.m, picks)))
  {
    MatrixCoverIsCover(b, l.m, l.v, names, columns, l.cands, l.firsts, RowsOf(l.m, picks));
  }

  lemma NoneFound(b: seq<int>, l: Layout, s: Store, n: nat, names: seq<int>, columns: seq<nat>, cur: nat, g: seq<int>)
    requires IsBoard(b) && LaidOut(l, s, n, names, columns, cur) && Encodes(b, columns, l.cands)
    requires IsSolved(g) && Extends(g, b)
    ensures E.HasExactCover(l.m.RowSets(), Elements(l.v.heads))
  {
    GridIsCover(b, g);
    CoverIsMatrixCover(b, l.m, l.v, names, columns, l.cands, l.firsts, Choices(b, g));
  }

  ghost predicate HasSolution(b: seq<int>)
    requires IsBoard(b)
  {
    exists g :: IsSolved(g) && Extends(g, b)
  }

  method RunSolve(s: Solver) returns (found: bool, ghost picks: seq<nat>)
    requires s.Laid() && s.d.stack == []
    modifies s.d`stack, s.d.left, s.d.right, s.d.up, s.d.down, s.d.size
    ensures found ==> s.d.stack == picks && IsSolution(s.layout.m, Elements(s.layout.v.heads), picks)
    ensures found ==> InBounds(s.d.Links(), s.d.n) && RowsLinked(s.layout.m, s.d.Links(), s.d.n)
    ensures !found ==> !E.HasExactCover(s.layout.m.RowSets(), Elements(s.layout.v.heads))
  {
    LaidIsRegular(s.layout.m, s.d.Links(), s.d.n, s.layout.v, s.d.name[..], s.columns[..]);
    found, picks := s.d.Solve(s.layout.m, s.layout.v);
  }

  /** The search ends with a cover of the board on the stack, or the board has no solution. */
  method Search(s: Solver, ghost b: seq<int>) returns (found: bool)
    requires IsBoard(b) && s.Laid() && s.d.stack == [] && s.columns.Length == CODES
    requires Encodes(b, s.columns[..], s.layout.cands)
    modifies s.d`stack, s.d.left, s.d.right, s.d.up, s.d.down, s.d.size
    ensures !found ==> !HasSolution(b)
    ensures found ==> Readable(s, b)
  {
    ghost var l, links, names, cols, cur := s.layout, s.d.Links(), s.d.name[..], s.columns[..], s.cur;
    ghost var picks;
    found, picks := RunSolve(s);
    assert s.d.name[..] == names && s.columns[..] == cols;
    if found {
      FoundIsCover(b, l, links, s.d.n, names, cols, cur, picks);
      FoundIsReadable(s, b, l, links, names, cols, cur, picks);
    } else {
      NotFound(b, l, links, s.d.n, names, cols, cur);
    }
  }

  /** The stack holds the rows of a cover of board `b`, and the rows can be walked. */
  ghost predicate Readable(s: Solver, b: seq<int>)
    requires IsBoard(b)
    reads s, s.d, s.columns, s.d.left, s.d.right, s.d.up, s.d.down, s.d.col, s.d.name, s.d.size
  {
    var l, d := s.layout, s.d;
    match l case Layout(m, _, cands, firsts) =>
      && d.Arrays() && m.Valid() && InBounds(d.Links(), d.n) && RowsLinked(m, d.Links(), d.n)
      && RowsLaid(m, d.name[..], s.columns[..], cands, firsts)
      && (forall i :: 0 <= i < |d.stack| ==> d.stack[i] in m.row)
      && IsCover(b, Chosen(cands, RowsOf(m, d.stack)))
  }

  lemma FoundIsReadable(s: Solver, b: seq<int>, l: Layout, links: Store, names: seq<int>, cols: seq<nat>, cur: nat,
                        picks: seq<nat>)
    requires IsBoard(b) && LaidOut(l, links, s.d.n, names, cols, cur) && s.layout == l && s.d.Arrays()
    requires s.d.name[..] == names && s.columns[..] == cols && s.d.stack == picks
    requires InBounds(s.d.Links(), s.d.n) && RowsLinked(l.m, s.d.Links(), s.d.n)
    requires IsSolution(l.m, Elements(l.v.heads), picks) && IsCover(b, Chosen(l.cands, RowsOf(l.m, picks)))
    ensures Readable(s, b)
  {}

  lemma NotFound(b: seq<int>, l: Layout, s: Store, n: nat, names: seq<int>, columns: seq<nat>, cur: nat)
    requires IsBoard(b) && LaidOut(l, s, n, names, columns, cur) && Encodes(b, columns, l.cands)
    requires !E.HasExactCover(l.m.RowSets(), Elements(l.v.heads))
    ensures !HasSolution(b)
  {
    forall g | IsSolved(g) ensures !Extends(g, b) {
      if Extends(g, b) {
        NoneFound(b, l, s, n, names, columns, cur, g);
      }
    }
  }

  /** The search on a laid-out board: the solved grid is written over the board, or there is none. */
  method SolveBoard(s: Solver, board: array<int>) returns (found: bool)
    requires board.Length == CELLS && IsBoard(board[..]) && s.Laid() && s.d.stack == [] && s.columns.Length == CODES
    requires Encodes(board[..], s.columns[..], s.layout.cands)
    requires board as object !in {s.d.left as object, s.d.right, s.d.up, s.d.down, s.d.col, s.d.name, s.d.size, s.d,
                                  s.columns}
    modifies board, s.d`stack, s.d.left, s.d.right, s.d.up, s.d.down, s.d.size
    ensures found <==> HasSolution(old(board[..]))
    ensures found ==> IsSolved(board[..]) && Extends(board[..], old(board[..]))
    ensures !found ==> board[..] == old(board[..])
  {
    ghost var b := board[..];
    found := Search(s, b);
    assert board[..] == b;
    if found {
      WriteBoard(s, board);
    }
  }

  method WriteBoard(s: Solver, board: array<int>)
    requires board.Length == CELLS && IsBoard(board[..]) && Readable(s, board[..])
    requires board as object !in {s.d.left as object, s.d.right, s.d.up, s.d.down, s.d.col, s.d.name, s.d.size, s.d,
                                  s.columns}
    modifies board
    ensures IsSolved(board[..]) && Extends(board[..], old(board[..]))
  {
    ghost var b, l := board[..], s.layout;
    ReadStack(s.d, board, l, s.columns[..]);
    CoverIsGrid(b, Chosen(l.cands, RowsOf(l.m, s.d.stack)), board[..]);
  }

  // ---------- the service ----------

  const NO_SOLUTION: string := "NoSolution"

  ghost predicate IsPuzzle(puzzle: string) {
    |puzzle| == CELLS && forall i :: 0 <= i < CELLS ==> '0' <= puzzle[i] <= '9'
  }

  ghost function BoardOf(puzzle: string): (b: seq<int>)
    requires |puzzle| == CELLS
    ensures |b| == CELLS && forall i :: 0 <= i < CELLS ==> b[i] == puzzle[i] as int - '0' as int
  {
    seq(CELLS, i requires 0 <= i < CELLS => puzzle[i] as int - '0' as int)
  }

  method ParsePuzzle(puzzle: string) returns (board: array<int>, valid: bool)
    requires |puzzle| == CELLS
    ensures fresh(board) && board.Length == CELLS && board[..] == BoardOf(puzzle)
    ensures valid <==> IsPuzzle(puzzle)
    ensures valid ==> IsBoard(board[..])
  {
    board := new int[CELLS](_ => 0);
    valid := true;
    var i := 0;
    while i < CELLS
      invariant 0 <= i <= CELLS && fresh(board) && board.Length == CELLS
      invariant forall k :: 0 <= k < i ==> board[k] == puzzle[k] as int - '0' as int
      invariant valid <==> forall k :: 0 <= k < i ==> 0 <= board[k] <= 9
    {
      board[i] := puzzle[i] as int - '0' as int;
      valid := valid && 0 <= board[i] <= 9;
      i := i + 1;
    }
    assert board[..] == BoardOf(puzzle);
  }

  method FormatBoard(board: array<int>) returns (text: string)
    requires board.Length == CELLS && IsBoard(board[..])
    ensures IsPuzzle(text) && BoardOf(text) == board[..]
  {
    text := "";
    var i := 0;
    while i < CELLS
      invariant 0 <= i <= CELLS && |text| == i
      invariant forall k :: 0 <= k < i ==> '0' <= text[k] <= '9' && text[k] as int - '0' as int == board[k]
    {
      text := text + [(board[i] + '0' as int) as char];
      i := i + 1;
    }
  }

  /** `solveSudoku`: a solved grid that keeps the givens if there is one, else "NoSolution". */
  method SolveSudoku(puzzle: string) returns (result: string)
    requires |puzzle| == CELLS
    ensures IsPuzzle(puzzle) ==> IsBoard(BoardOf(puzzle))
    ensures result == NO_SOLUTION <==> !IsPuzzle(puzzle) || !HasSolution(BoardOf(puzzle))
    ensures result != NO_SOLUTION ==>
      IsPuzzle(result) && IsSolved(BoardOf(result)) && Extends(BoardOf(result), BoardOf(puzzle))
  {
    result := NO_SOLUTION;
    var board, valid := ParsePuzzle(puzzle);
    if valid {
      var s := LayBoard(board[..]);
      var found := SolveBoard(s, board);
      if found {
        result := FormatBoard(board);
      }
    }
  }
}
