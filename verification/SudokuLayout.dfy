/**
 The exact-cover matrix the Sudoku solver lays out: one column per open code, one row of four
 nodes per candidate. What it is, how it grows, and that its covers are the solved grids.
 */
module SudokuLayout {
  import opened Links
  import opened Torus
  import opened Building
  import opened SudokuRules
  import E = ExactCover

  const CODES: nat := 400

  /** The `j`-th code a candidate meets: its cell, then its row, column and box. */
  function CodeOf(p: Candidate, j: nat): nat {
    if j == 0 then p.cell else Code(j, UnitOf(j, p.cell), p.val)
  }

  ghost predicate InRange(p: Candidate) {
    p.cell < CELLS && 1 <= p.val <= 9
  }

  lemma CodesDiffer(p: Candidate, j: nat, k: nat)
    requires InRange(p) && j < 4 && k < 4
    ensures CodeOf(p, j) < CODES && (CodeOf(p, j) == CodeOf(p, k) ==> j == k)
  {
  }

  lemma MeetsCodes(p: Candidate, k: nat)
    ensures Meets(p, k) <==> exists j: nat :: j < 4 && k == CodeOf(p, j)
  {
    if Meets(p, k) && k != p.cell {
      var u: nat :| 1 <= u <= 3 && k == Code(u, UnitOf(u, p.cell), p.val);
      assert k == CodeOf(p, u);
    }
    if k == p.cell { assert k == CodeOf(p, 0); }
    if j: nat :| j < 4 && k == CodeOf(p, j) {}
  }

  /** `columns` maps each code in use to its header, and each header carries its code as name. */
  ghost predicate Headed(v: View, names: seq<int>, columns: seq<nat>) {
    && |columns| == CODES && Elements(v.heads) == v.lists.Keys && ROOT !in v.lists
    && (forall k :: 0 <= k < CODES && columns[k] != ROOT ==>
          columns[k] in v.lists && columns[k] < |names| && names[columns[k]] == k)
    && (forall c <- v.lists.Keys :: c < |names| && 0 <= names[c] < CODES && columns[names[c]] == c)
  }

  /** Every node is linked in its column. */
  ghost predicate Listed(m: Matrix, v: View) {
    forall x <- m.row.Keys :: m.Col(x) in v.lists && x in v.List(m.Col(x))
  }

  /** Node `x` of row `r` stands in the column of code `k`, and is named by it. */
  ghost predicate NodeIs(m: Matrix, names: seq<int>, columns: seq<nat>, r: nat, x: nat, k: nat) {
    && k < |columns| && columns[k] != ROOT && x < |names| && names[x] == k
    && x in m.row && m.row[x] == r && m.Col(x) == columns[k]
  }

  /** Row `r` is candidate `p`, laid out in the four nodes from `a` on. */
  ghost predicate RowIs(m: Matrix, names: seq<int>, columns: seq<nat>, r: nat, a: nat, p: Candidate) {
    match p case Candidate(_, _) =>
      && |columns| == CODES && InRange(p) && m.Rest(a) == [a + 1, a + 2, a + 3]
      && NodeIs(m, names, columns, r, a, CodeOf(p, 0)) && NodeIs(m, names, columns, r, a + 1, CodeOf(p, 1))
      && NodeIs(m, names, columns, r, a + 2, CodeOf(p, 2)) && NodeIs(m, names, columns, r, a + 3, CodeOf(p, 3))
  }

  ghost predicate RowsLaid(m: Matrix, names: seq<int>, columns: seq<nat>, cands: seq<Candidate>, firsts: seq<nat>) {
    && |cands| == |firsts| == m.rowCount
    && (forall r: nat {:trigger RowIs(m, names, columns, r, firsts[r], cands[r])} :: r < m.rowCount ==>
          RowIs(m, names, columns, r, firsts[r], cands[r]))
    && (forall x <- m.row.Keys :: m.row[x] < m.rowCount && firsts[m.row[x]] <= x < firsts[m.row[x]] + 4)
  }

  /** With every column open, the links are those of the whole matrix. */
  lemma LaidIsRegular(m: Matrix, s: Store, n: nat, v: View, names: seq<int>, columns: seq<nat>)
    requires Shape(m, s, n, v) && Headed(v, names, columns) && Listed(m, v)
    ensures Regular(m, s, n, v)
  {
  }

  // ---------- growing ----------

  lemma HeadedMore(v: View, names: seq<int>, columns: seq<nat>, x: nat, code: nat)
    requires Headed(v, names, columns) && Within(v, x) && x < |names| && code < CODES && columns[code] == ROOT
    ensures Headed(WithHeader(v, x), names[x := code], columns[code := x])
  {
  }

  lemma ListedMore(m: Matrix, v: View, x: nat)
    requires Listed(m, v) && x !in v.lists
    ensures Listed(m, WithHeader(v, x))
  {
  }

  /** Adding a column changes nothing for the rows that are there. */
  lemma RowsLaidMore(m: Matrix, names: seq<int>, columns: seq<nat>, cands: seq<Candidate>, firsts: seq<nat>, x: nat,
                     code: nat)
    requires RowsLaid(m, names, columns, cands, firsts) && |columns| == CODES && x < |names|
    requires code < CODES && columns[code] == ROOT && x != ROOT && forall y <- m.row.Keys :: y < x
    ensures RowsLaid(m, names[x := code], columns[code := x], cands, firsts)
  {
    forall r: nat | r < m.rowCount ensures RowIs(m, names[x := code], columns[code := x], r, firsts[r], cands[r]) {
      assert RowIs(m, names, columns, r, firsts[r], cands[r]);
    }
  }

  /** All four columns candidate `p` meets are there. */
  ghost predicate HasHeaders(columns: seq<nat>, p: Candidate) {
    && |columns| == CODES && InRange(p)
    && forall j: nat :: j < 4 ==> CodeOf(p, j) < CODES && columns[CodeOf(p, j)] != ROOT
  }

  /** The headers of the columns candidate `p` meets. */
  ghost function HeadersOf(columns: seq<nat>, p: Candidate): (cs: seq<nat>)
    requires |columns| == CODES && InRange(p)
    ensures |cs| == 4 && forall j :: 0 <= j < 4 ==> CodeOf(p, j) < CODES && cs[j] == columns[CodeOf(p, j)]
  {
    CodesDiffer(p, 0, 0);
    CodesDiffer(p, 1, 1);
    CodesDiffer(p, 2, 2);
    CodesDiffer(p, 3, 3);
    [columns[CodeOf(p, 0)], columns[CodeOf(p, 1)], columns[CodeOf(p, 2)], columns[CodeOf(p, 3)]]
  }

  lemma HeadersDiffer(v: View, names: seq<int>, columns: seq<nat>, p: Candidate)
    requires Headed(v, names, columns) && HasHeaders(columns, p)
    ensures forall i, k :: 0 <= i < k < 4 ==> HeadersOf(columns, p)[i] != HeadersOf(columns, p)[k]
    ensures forall i :: 0 <= i < 4 ==> HeadersOf(columns, p)[i] in v.lists
  {
  }

  /** The codes candidate `p` meets, in node order. */
  ghost function CodesOf(p: Candidate): seq<nat> {
    [CodeOf(p, 0), CodeOf(p, 1), CodeOf(p, 2), CodeOf(p, 3)]
  }

  /** Nodes `a`, `a + 1`, ... named by the codes `ks`. */
  ghost function WithNames(names: seq<int>, a: nat, ks: seq<nat>): (names': seq<int>)
    requires a + |ks| <= |names|
    ensures |names'| == |names|
    ensures forall i :: 0 <= i < |names| ==> names'[i] == if a <= i < a + |ks| then ks[i - a] else names[i]
  {
    if ks == [] then names else WithNames(names, a, ks[..|ks| - 1])[a + |ks| - 1 := ks[|ks| - 1]]
  }

  lemma HeadedNodes(v: View, names: seq<int>, columns: seq<nat>, a: nat, cs: seq<nat>, p: Candidate)
    requires Headed(v, names, columns) && |cs| == 4 && a + 4 <= |names|
    requires (forall i :: 0 <= i < 4 ==> cs[i] in v.lists) && (forall c <- v.lists.Keys :: c < a)
    ensures Headed(WithNodes(v, a, cs), WithNames(names, a, CodesOf(p)), columns)
  {
    WithNodesKeys(v, a, cs);
  }

  lemma {:induction false} WithNodesKeys(v: View, a: nat, cs: seq<nat>)
    requires forall i :: 0 <= i < |cs| ==> cs[i] in v.lists
    ensures WithNodes(v, a, cs).heads == v.heads && WithNodes(v, a, cs).lists.Keys == v.lists.Keys
  {
    if cs != [] {
      WithNodesKeys(v, a, cs[..|cs| - 1]);
    }
  }

  /** Appending nodes removes none, and each new one is at the end of its column. */
  lemma {:induction false} WithNodesList(v: View, a: nat, cs: seq<nat>, c: nat, y: nat)
    requires y in v.List(c) || (a <= y < a + |cs| && cs[y - a] == c)
    ensures y in WithNodes(v, a, cs).List(c)
  {
    if cs != [] {
      var cs', d, x := cs[..|cs| - 1], cs[|cs| - 1], a + |cs| - 1;
      var w := WithNodes(v, a, cs');
      if y == x && d == c {
        assert WithNode(w, d, x).List(c)[|w.List(c)|] == x;
      } else {
        WithNodesList(v, a, cs', c, y);
      }
    }
  }

  lemma ListedNodes(m: Matrix, v: View, a: nat, cs: seq<nat>)
    requires Listed(m, v) && |cs| == 4 && (forall i :: 0 <= i < 4 ==> cs[i] in v.lists)
    requires forall x <- m.row.Keys :: x < a
    ensures Listed(WithRow(m, a, cs), WithNodes(v, a, cs))
  {
    var m', v' := WithRow(m, a, cs), WithNodes(v, a, cs);
    WithNodesKeys(v, a, cs);
    forall x | x in m'.row ensures m'.Col(x) in v'.lists && x in v'.List(m'.Col(x)) {
      WithRowAt(m, a, cs, x);
      WithNodesList(v, a, cs, m'.Col(x), x);
    }
  }

  lemma NewNodeIs(m: Matrix, names: seq<int>, columns: seq<nat>, a: nat, p: Candidate, j: nat)
    requires HasHeaders(columns, p) && a + 4 <= |names| && j < 4 && forall x <- m.row.Keys :: x < a
    ensures NodeIs(WithRow(m, a, HeadersOf(columns, p)), WithNames(names, a, CodesOf(p)), columns, m.rowCount,
                   a + j, CodeOf(p, j))
  {
    WithRowAt(m, a, HeadersOf(columns, p), a + j);
  }

  lemma NewRowIs(m: Matrix, names: seq<int>, columns: seq<nat>, a: nat, p: Candidate)
    requires HasHeaders(columns, p) && a + 4 <= |names| && forall x <- m.row.Keys :: x < a
    ensures RowIs(WithRow(m, a, HeadersOf(columns, p)), WithNames(names, a, CodesOf(p)), columns, m.rowCount, a, p)
  {
    NewNodeIs(m, names, columns, a, p, 0);
    NewNodeIs(m, names, columns, a, p, 1);
    NewNodeIs(m, names, columns, a, p, 2);
    NewNodeIs(m, names, columns, a, p, 3);
    WithRowAt(m, a, HeadersOf(columns, p), a);
  }

  lemma OldNodeStays(m: Matrix, names: seq<int>, columns: seq<nat>, a: nat, p: Candidate, r: nat, x: nat, k: nat)
    requires HasHeaders(columns, p) && a + 4 <= |names| && (forall x <- m.row.Keys :: x < a)
    requires NodeIs(m, names, columns, r, x, k)
    ensures NodeIs(WithRow(m, a, HeadersOf(columns, p)), WithNames(names, a, CodesOf(p)), columns, r, x, k)
    ensures WithRow(m, a, HeadersOf(columns, p)).Rest(x) == m.Rest(x)
  {
  }

  lemma OldRowStays(m: Matrix, names: seq<int>, columns: seq<nat>, a: nat, p: Candidate, r: nat, b: nat, q: Candidate)
    requires HasHeaders(columns, p) && a + 4 <= |names| && (forall x <- m.row.Keys :: x < a)
    requires RowIs(m, names, columns, r, b, q)
    ensures RowIs(WithRow(m, a, HeadersOf(columns, p)), WithNames(names, a, CodesOf(p)), columns, r, b, q)
  {
    OldNodeStays(m, names, columns, a, p, r, b, CodeOf(q, 0));
    OldNodeStays(m, names, columns, a, p, r, b + 1, CodeOf(q, 1));
    OldNodeStays(m, names, columns, a, p, r, b + 2, CodeOf(q, 2));
    OldNodeStays(m, names, columns, a, p, r, b + 3, CodeOf(q, 3));
  }

  lemma RowsLaidNodes(m: Matrix, names: seq<int>, columns: seq<nat>, cands: seq<Candidate>, firsts: seq<nat>,
                      a: nat, p: Candidate)
    requires RowsLaid(m, names, columns, cands, firsts) && HasHeaders(columns, p) && a + 4 <= |names|
    requires forall x <- m.row.Keys :: x < a
    ensures RowsLaid(WithRow(m, a, HeadersOf(columns, p)), WithNames(names, a, CodesOf(p)), columns, cands + [p],
                     firsts + [a])
  {
    var m', names' := WithRow(m, a, HeadersOf(columns, p)), WithNames(names, a, CodesOf(p));
    forall r: nat | r < m'.rowCount ensures RowIs(m', names', columns, r, (firsts + [a])[r], (cands + [p])[r]) {
      if r < m.rowCount {
        OldRowStays(m, names, columns, a, p, r, firsts[r], cands[r]);
      } else {
        NewRowIs(m, names, columns, a, p);
      }
    }
    forall x | x in m'.row
      ensures m'.row[x] < m'.rowCount && (firsts + [a])[m'.row[x]] <= x < (firsts + [a])[m'.row[x]] + 4
    {
      WithRowAt(m, a, HeadersOf(columns, p), x);
      assert x < a ==> m'.row[x] == m.row[x];
    }
  }

  // ---------- the whole layout ----------

  /** The matrix, its view, and for every row its candidate and first node. */
  datatype Layout = Layout(m: Matrix, v: View, cands: seq<Candidate>, firsts: seq<nat>)

  /** The layout `l` is what stands in the store, the names and the column table, below node `cur`. */
  ghost predicate LaidOut(l: Layout, s: Store, n: nat, names: seq<int>, columns: seq<nat>, cur: nat) {
    match l case Layout(m, v, cands, firsts) =>
      && Shape(m, s, n, v) && Within(v, cur) && (forall x <- m.row.Keys :: x < cur) && cur <= n == |names|
      && Headed(v, names, columns) && Listed(m, v) && RowsLaid(m, names, columns, cands, firsts)
  }

  ghost function LayoutWithColumn(l: Layout, c: nat): Layout {
    l.(v := WithHeader(l.v, c))
  }

  ghost function LayoutWithRow(l: Layout, columns: seq<nat>, a: nat, p: Candidate): Layout
    requires |columns| == CODES && InRange(p)
  {
    Layout(WithRow(l.m, a, HeadersOf(columns, p)), WithNodes(l.v, a, HeadersOf(columns, p)), l.cands + [p],
           l.firsts + [a])
  }

  lemma LayColumn(l: Layout, s: Store, n: nat, names: seq<int>, columns: seq<nat>, c: nat, code: nat)
    requires LaidOut(l, s, n, names, columns, c) && c < n && code < CODES && columns[code] == ROOT
    ensures LaidOut(LayoutWithColumn(l, c), Building.PutLeft(Alloc(s, c), ROOT, c), n, names[c := code],
                    columns[code := c], c + 1)
  {
    AppendHeader(l.m, s, n, l.v, c);
    HeadedMore(l.v, names, columns, c, code);
    ListedMore(l.m, l.v, c);
    RowsLaidMore(l.m, names, columns, l.cands, l.firsts, c, code);
    WithinHeader(l.v, c);
  }

  lemma LayRow(l: Layout, s: Store, n: nat, names: seq<int>, columns: seq<nat>, a: nat, p: Candidate)
    requires LaidOut(l, s, n, names, columns, a) && a + 4 <= n && HasHeaders(columns, p)
    ensures LaidOut(LayoutWithRow(l, columns, a, p), RowStore(s, a, HeadersOf(columns, p)), n,
                    WithNames(names, a, CodesOf(p)), columns, a + 4)
  {
    var cs := HeadersOf(columns, p);
    HeadersDiffer(l.v, names, columns, p);
    AppendRow(l.m, s, n, l.v, a, cs);
    HeadedNodes(l.v, names, columns, a, cs, p);
    ListedNodes(l.m, l.v, a, cs);
    RowsLaidNodes(l.m, names, columns, l.cands, l.firsts, a, p);
    RowColumns(l.m, s, n, l.v, a, cs);
    forall x | x in WithRow(l.m, a, cs).row ensures x < a + 4 {
      WithRowAt(l.m, a, cs, x);
    }
  }

  // ---------- covers of the matrix are covers of the board ----------

  /** The columns are the open codes, and the rows are the candidates. */
  ghost predicate Encodes(b: seq<int>, columns: seq<nat>, cands: seq<Candidate>)
    requires IsBoard(b) && |columns| == CODES
  {
    && (forall k: nat :: k < CODES ==> (columns[k] != ROOT <==> IsOpen(b, k)))
    && (forall p :: IsCandidate(b, p) <==> p in cands)
  }

  lemma CodeAtNode(m: Matrix, names: seq<int>, columns: seq<nat>, r: nat, a: nat, p: Candidate, j: nat)
    requires RowIs(m, names, columns, r, a, p) && j < 4
    ensures |columns| == CODES && NodeIs(m, names, columns, r, a + j, CodeOf(p, j))
  {}

  lemma ColumnIsMet(m: Matrix, v: View, names: seq<int>, columns: seq<nat>, r: nat, a: nat, p: Candidate, k: nat,
                    x: nat)
    requires Headed(v, names, columns) && RowIs(m, names, columns, r, a, p) && k < CODES && columns[k] != ROOT
    requires a <= x < a + 4 && m.Col(x) == columns[k]
    ensures Meets(p, k)
  {
  }

  /** Row `r` meets the header of code `k` exactly when its candidate meets `k`. */
  lemma ColumnsOfRow(m: Matrix, v: View, names: seq<int>, columns: seq<nat>, cands: seq<Candidate>,
                     firsts: seq<nat>, r: nat, k: nat)
    requires Headed(v, names, columns) && RowsLaid(m, names, columns, cands, firsts) && r < m.rowCount
    requires k < CODES && columns[k] != ROOT
    ensures columns[k] in m.Columns(r) <==> Meets(cands[r], k)
  {
    if columns[k] in m.Columns(r) {
      var x :| x in m.row && m.row[x] == r && m.Col(x) == columns[k];
      ColumnIsMet(m, v, names, columns, r, firsts[r], cands[r], k, x);
    }
    if Meets(cands[r], k) {
      MeetsCodes(cands[r], k);
      var j: nat :| j < 4 && k == CodeOf(cands[r], j);
      CodeAtNode(m, names, columns, r, firsts[r], cands[r], j);
    }
  }

  ghost function Chosen(cands: seq<Candidate>, rows: set<nat>): set<Candidate> {
    set r | r in rows && r < |cands| :: cands[r]
  }

  lemma OpenIsMet(b: seq<int>, m: Matrix, v: View, names: seq<int>, columns: seq<nat>,
                  cands: seq<Candidate>, firsts: seq<nat>, rows: set<nat>, k: nat)
    requires IsBoard(b) && Headed(v, names, columns) && RowsLaid(m, names, columns, cands, firsts)
    requires Encodes(b, columns, cands) && E.IsExactCover(m.RowSets(), Elements(v.heads), rows) && IsOpen(b, k)
    ensures exists p :: p in Chosen(cands, rows) && Meets(p, k)
  {
    OpenInRange(b, k);
    assert columns[k] in Elements(v.heads);
    var r :| r in rows && columns[k] in m.RowSets()[r];
    ColumnsOfRow(m, v, names, columns, cands, firsts, r, k);
    assert cands[r] in Chosen(cands, rows);
  }

  lemma MetOnce(b: seq<int>, m: Matrix, v: View, names: seq<int>, columns: seq<nat>,
                cands: seq<Candidate>, firsts: seq<nat>, rows: set<nat>, k: nat, i: nat, j: nat)
    requires IsBoard(b) && Headed(v, names, columns) && RowsLaid(m, names, columns, cands, firsts)
    requires Encodes(b, columns, cands) && E.IsExactCover(m.RowSets(), Elements(v.heads), rows)
    requires i in rows && j in rows && i < |cands| && j < |cands| && Meets(cands[i], k) && Meets(cands[j], k)
    ensures i == j
  {
    assert cands[i] in cands;
    CandidateMeetsOpen(b, cands[i], k);
    RowsShareColumn(m, v, names, columns, cands, firsts, k, i, j);
  }

  /** An exact cover by rows of the matrix is a cover of the board by the rows' candidates. */
  lemma MatrixCoverIsCover(b: seq<int>, m: Matrix, v: View, names: seq<int>, columns: seq<nat>,
                           cands: seq<Candidate>, firsts: seq<nat>, rows: set<nat>)
    requires IsBoard(b) && Headed(v, names, columns) && RowsLaid(m, names, columns, cands, firsts)
    requires Encodes(b, columns, cands) && E.IsExactCover(m.RowSets(), Elements(v.heads), rows)
    ensures IsCover(b, Chosen(cands, rows))
  {
    var ps := Chosen(cands, rows);
    forall k: nat | IsOpen(b, k) ensures exists p :: p in ps && Meets(p, k) {
      OpenIsMet(b, m, v, names, columns, cands, firsts, rows, k);
    }
    forall p, q, k | p in ps && q in ps && Meets(p, k) && Meets(q, k) ensures p == q {
      var i: nat :| i in rows && i < |cands| && cands[i] == p;
      var j: nat :| j in rows && j < |cands| && cands[j] == q;
      MetOnce(b, m, v, names, columns, cands, firsts, rows, k, i, j);
    }
  }

  lemma RowsShareColumn(m: Matrix, v: View, names: seq<int>, columns: seq<nat>, cands: seq<Candidate>, firsts: seq<nat>,
                        k: nat, i: nat, j: nat)
    requires Headed(v, names, columns) && RowsLaid(m, names, columns, cands, firsts)
    requires k < CODES && columns[k] != ROOT && i < m.rowCount && j < m.rowCount
    requires Meets(cands[i], k) && Meets(cands[j], k)
    ensures columns[k] in m.RowSets()[i] && columns[k] in m.RowSets()[j]
  {
    ColumnsOfRow(m, v, names, columns, cands, firsts, i, k);
    ColumnsOfRow(m, v, names, columns, cands, firsts, j, k);
  }

  lemma OpenInRange(b: seq<int>, k: nat)
    requires IsBoard(b) && IsOpen(b, k)
    ensures k < CODES
  {}

  lemma CandidateMeetsOpen(b: seq<int>, p: Candidate, k: nat)
    requires IsBoard(b) && IsCandidate(b, p) && Meets(p, k)
    ensures IsOpen(b, k) && k < CODES
  {
  }

  /** Rows that hold the candidates `ps`, each once. */
  ghost function RowsFor(cands: seq<Candidate>, ps: set<Candidate>): set<nat>
    requires forall p <- ps :: p in cands
  {
    set p | p in ps :: FirstRow(cands, p)
  }

  ghost function FirstRow(cands: seq<Candidate>, p: Candidate): (r: nat)
    requires p in cands
    ensures r < |cands| && cands[r] == p
  {
    var r :| 0 <= r < |cands| && cands[r] == p;
    r
  }

  lemma CoverIsMatrixCover(b: seq<int>, m: Matrix, v: View, names: seq<int>, columns: seq<nat>,
                           cands: seq<Candidate>, firsts: seq<nat>, ps: set<Candidate>)
    requires IsBoard(b) && Headed(v, names, columns) && RowsLaid(m, names, columns, cands, firsts)
    requires Encodes(b, columns, cands) && IsCover(b, ps)
    ensures E.HasExactCover(m.RowSets(), Elements(v.heads))
  {
    var rows := RowsFor(cands, ps);
    forall r | r in rows ensures r < m.rowCount && m.RowSets()[r] <= Elements(v.heads) {
      RowInHeads(m, v, names, columns, cands, firsts, r);
    }
    forall c | c in Elements(v.heads) ensures exists r :: r in rows && c in m.RowSets()[r] {
      var k := names[c];
      assert columns[k] == c && IsOpen(b, k);
      var p :| p in ps && Meets(p, k);
      var r := FirstRow(cands, p);
      ColumnsOfRow(m, v, names, columns, cands, firsts, r, k);
      assert r in rows && c in m.RowSets()[r];
    }
    forall q, r | q in rows && r in rows && q != r ensures m.RowSets()[q] !! m.RowSets()[r] {
      forall c | c in m.RowSets()[q] ensures c !in m.RowSets()[r] {
        RowInHeads(m, v, names, columns, cands, firsts, q);
        ColumnsOfRow(m, v, names, columns, cands, firsts, q, names[c]);
        ColumnsOfRow(m, v, names, columns, cands, firsts, r, names[c]);
      }
    }
    assert E.IsExactCover(m.RowSets(), Elements(v.heads), rows);
  }

  lemma RowInHeads(m: Matrix, v: View, names: seq<int>, columns: seq<nat>, cands: seq<Candidate>, firsts: seq<nat>,
                   r: nat)
    requires Headed(v, names, columns) && RowsLaid(m, names, columns, cands, firsts) && r < m.rowCount
    ensures m.RowSets()[r] <= Elements(v.heads)
  {
    forall c | c in m.Columns(r) ensures c in Elements(v.heads) {
      var x :| x in m.row && m.row[x] == r && m.Col(x) == c;
      CodeAtNode(m, names, columns, r, firsts[r], cands[r], x - firsts[r]);
    }
  }
}
