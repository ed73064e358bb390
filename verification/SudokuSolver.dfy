/**
 The Sudoku solver: lays out the exact-cover matrix of a board, runs the dancing-links
 search on it, and reads the solution off the stack.
 */
module SudokuSolver {
  import opened Links
  import opened Torus
  import opened Building
  import opened DancingLinks
  import opened SudokuRules
  import opened SudokuLayout

  const MAX_NODES: nat := 1 + 81 * 4 + 9 * 9 * 9 * 4

  class Solver {
    const d: Dancer
    const columns: array<nat>
    var cur: nat

    ghost var layout: Layout

    ghost predicate Apart() {
      match (d, columns) case (d, columns) =>
        && d.Arrays() && d.n == MAX_NODES && columns.Length == CODES
        && columns as object !in {d.left as object, d.right, d.up, d.down, d.col, d.name, d.size}
    }

    ghost predicate Laid()
      reads this, columns, d.left, d.right, d.up, d.down, d.col, d.name, d.size
    {
      Apart() && LaidOut(layout, d.Links(), d.n, d.name[..], columns[..], cur)
    }

    constructor ()
      ensures Laid() && cur == 1 && layout.cands == [] && d.stack == []
      ensures fresh(d) && fresh(columns) && fresh(d.left) && fresh(d.right) && fresh(d.up) && fresh(d.down)
      ensures fresh(d.col) && fresh(d.name) && fresh(d.size)
      ensures forall k :: 0 <= k < CODES ==> columns[k] == ROOT
    {
      d := new Dancer(MAX_NODES);
      columns := new nat[CODES](_ => 0);
      cur := 1;
      layout := Layout(Matrix(0, map[], map[], map[]), View([], map[]), [], []);
      new;
      assert InBounds(d.Links(), d.n);
      assert Elements([]) == {};
    }

    lemma CurPositive()
      requires Laid()
      ensures 0 < cur && columns.Length == CODES
    {}

    /** `append_column`: a column for a code that has none yet. */
    method AppendColumn(code: nat)
      requires Laid() && cur < MAX_NODES && code < CODES && columns[code] == ROOT
      modifies this, columns, d.left, d.right, d.up, d.down, d.col, d.name, d.size
      ensures Laid() && layout.cands == old(layout.cands) && cur == old(cur) + 1
      ensures columns[..] == old(columns[..])[code := old(cur)]
    {
      ghost var l, s, names, cols, c := layout, d.Links(), d.name[..], columns[..], cur;
      NewColumn(code);
      assert columns[..] == cols[code := c];
      LayColumn(l, s, d.n, names, cols, c, code);
      Record(LayoutWithColumn(l, c));
    }

    /** `new_column` and its entry in the header list and in the column table. */
    method NewColumn(code: nat)
      requires Apart() && InBounds(d.Links(), d.n) && cur < MAX_NODES && code < CODES
      modifies this`cur, columns, d.left, d.right, d.up, d.down, d.col, d.name, d.size
      ensures cur == old(cur) + 1 && columns[..] == old(columns[..])[code := old(cur)]
      ensures d.Links() == Building.PutLeft(Alloc(old(d.Links()), old(cur)), ROOT, old(cur))
      ensures d.name[..] == old(d.name[..])[old(cur) := code]
    {
      var c := cur;
      cur := cur + 1;
      AllocInBounds(d.Links(), d.n, c);
      d.InitNode(c, code);
      d.PutLeft(ROOT, c);
      columns[code] := c;
    }

    /** `new_row`: a node at the bottom of the column of `code`. */
    method NewRow(code: nat) returns (x: nat)
      requires Apart() && InBounds(d.Links(), d.n) && cur < MAX_NODES
      requires code < CODES && columns[code] < MAX_NODES
      modifies this`cur, d.left, d.right, d.up, d.down, d.col, d.name, d.size
      ensures x == old(cur) && cur == x + 1 && InBounds(d.Links(), d.n)
      ensures d.Links() == Building.PutUp(Alloc(old(d.Links()), x), columns[code], x)
      ensures d.name[..] == old(d.name[..])[x := code] && columns[..] == old(columns[..])
    {
      x := cur;
      cur := cur + 1;
      AllocInBounds(d.Links(), d.n, x);
      d.InitNode(x, code);
      PutUpInBounds(d.Links(), d.n, columns[code], x);
      d.PutUp(columns[code], x);
    }

    /** The four nodes of a candidate, closed to a row. */
    method AddCandidate(p: Candidate)
      requires Laid() && cur + 4 <= MAX_NODES && HasHeaders(columns[..], p)
      modifies this, d.left, d.right, d.up, d.down, d.col, d.name, d.size
      ensures Laid() && layout.cands == old(layout.cands) + [p] && cur == old(cur) + 4
    {
      ghost var l, s, names, cols, a := layout, d.Links(), d.name[..], columns[..], cur;
      RowStarts(p);
      LinkRow(p, s, names, cols, a);
      LayRow(l, s, d.n, names, cols, a, p);
      Record(LayoutWithRow(l, cols, a, p));
    }

    lemma RowStarts(p: Candidate)
      requires Laid() && cur + 4 <= MAX_NODES && HasHeaders(columns[..], p)
      ensures RowPart(p, d.Links(), d.name[..], columns[..], cur, 0)
    {
    }

    ghost method Record(l: Layout)
      requires Apart() && LaidOut(l, d.Links(), d.n, d.name[..], columns[..], cur)
      modifies this`layout
      ensures Laid() && layout == l
    {
      layout := l;
    }

    /** The first `j` nodes of the row of candidate `p` are in place, from node `a` on. */
    ghost predicate RowPart(p: Candidate, s: Store, names: seq<int>, cols: seq<nat>, a: nat, j: nat)
      reads this, columns, d.left, d.right, d.up, d.down, d.col, d.name, d.size
    {
      match p case Candidate(_, _) =>
        && Apart() && InBounds(d.Links(), d.n) && HasHeaders(cols, p) && j <= 4 && a + 4 <= |names|
        && cur == a + j && columns[..] == cols && d.name[..] == WithNames(names, a, CodesOf(p)[..j])
        && d.Links() == NodesStore(s, a, HeadersOf(cols, p)[..j])
        && (forall i: nat :: i < 4 ==> cols[CodeOf(p, i)] < MAX_NODES)
    }

    method LinkNode(p: Candidate, j: nat, ghost s: Store, ghost names: seq<int>, ghost cols: seq<nat>, ghost a: nat)
      returns (x: nat)
      requires j < 4 && RowPart(p, s, names, cols, a, j) && a + 4 <= MAX_NODES
      modifies this`cur, d.left, d.right, d.up, d.down, d.col, d.name, d.size
      ensures RowPart(p, s, names, cols, a, j + 1) && x == a + j
    {
      NextPart(p, s, names, cols, a, j);
      x := NewRow(CodeOf(p, j));
    }

    method LinkNodes(p: Candidate, ghost s: Store, ghost names: seq<int>, ghost cols: seq<nat>, ghost a: nat)
      returns (n0: nat, nr: nat, nc: nat, nb: nat)
      requires RowPart(p, s, names, cols, a, 0) && a + 4 <= MAX_NODES
      modifies this`cur, d.left, d.right, d.up, d.down, d.col, d.name, d.size
      ensures RowPart(p, s, names, cols, a, 4) && n0 == a && nr == a + 1 && nc == a + 2 && nb == a + 3
    {
      n0 := LinkNode(p, 0, s, names, cols, a);
      nr := LinkNode(p, 1, s, names, cols, a);
      nc := LinkNode(p, 2, s, names, cols, a);
      nb := LinkNode(p, 3, s, names, cols, a);
    }

    method LinkRow(p: Candidate, ghost s: Store, ghost names: seq<int>, ghost cols: seq<nat>, ghost a: nat)
      requires RowPart(p, s, names, cols, a, 0) && a + 4 <= MAX_NODES
      modifies this`cur, d.left, d.right, d.up, d.down, d.col, d.name, d.size
      ensures cur == a + 4 && d.name[..] == WithNames(names, a, CodesOf(p)) && columns[..] == cols
      ensures d.Links() == RowStore(s, a, HeadersOf(cols, p))
    {
      var n0, nr, nc, nb := LinkNodes(p, s, names, cols, a);
      PartIsAll(CodesOf(p), HeadersOf(cols, p));
      CloseRow(n0, nr, nc, nb);
    }

    method CloseRow(n0: nat, nr: nat, nc: nat, nb: nat)
      requires Apart() && InBounds(d.Links(), d.n)
      requires n0 < MAX_NODES && nr < MAX_NODES && nc < MAX_NODES && nb < MAX_NODES
      modifies d.left, d.right
      ensures d.Links() == PutAll(old(d.Links()), n0, [nr, nc, nb])
    {
      PutAllThree(d.Links(), n0, nr, nc, nb);
      PutLeftInBounds(d.Links(), d.n, n0, nr);
      d.PutLeft(n0, nr);
      PutLeftInBounds(d.Links(), d.n, n0, nc);
      d.PutLeft(n0, nc);
      d.PutLeft(n0, nb);
    }
  }

  /** The store and the names with one more node of the row of candidate `p`. */
  lemma NextPart(p: Candidate, s: Store, names: seq<int>, cols: seq<nat>, a: nat, j: nat)
    requires j < 4 && HasHeaders(cols, p) && a + 4 <= |names|
    ensures NodesStore(s, a, HeadersOf(cols, p)[..j + 1])
         == Building.PutUp(Alloc(NodesStore(s, a, HeadersOf(cols, p)[..j]), a + j), cols[CodeOf(p, j)], a + j)
    ensures WithNames(names, a, CodesOf(p)[..j + 1]) == WithNames(names, a, CodesOf(p)[..j])[a + j := CodeOf(p, j)]
  {
    NodesStoreNext(s, a, HeadersOf(cols, p), j);
    NamesNext(names, a, CodesOf(p), j);
  }

  lemma PartIsAll(ks: seq<nat>, cs: seq<nat>)
    requires |ks| == |cs| == 4
    ensures ks[..4] == ks && cs[..4] == cs
  {}

  lemma NamesNext(names: seq<int>, a: nat, ks: seq<nat>, j: nat)
    requires j < |ks| && a + |ks| <= |names|
    ensures WithNames(names, a, ks[..j + 1]) == WithNames(names, a, ks[..j])[a + j := ks[j]]
  {
  }

  lemma AllocInBounds(s: Store, n: nat, x: nat)
    requires InBounds(s, n) && x < n
    ensures InBounds(Alloc(s, x), n)
  {}

  lemma PutUpInBounds(s: Store, n: nat, c: nat, x: nat)
    requires InBounds(s, n) && c < n && x < n
    ensures InBounds(Building.PutUp(s, c, x), n)
  {}
}
