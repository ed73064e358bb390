/**
 Exact-cover matrices laid out as a torus of links. A matrix fixes rows, their order and
 their columns; a view names the open columns (those in the header list) and, for every
 column, the nodes still linked in it, in list order. Here: what the links of a view look
 like, and what unlinking nodes does to it.
 */
module Torus {
  import opened Links

  const ROOT: nat := 0

  /**
   The fixed part of the structure: for every node its row, the header of its column, and
   the other nodes of its row, from the node to the right and around. Rows are numbered.
   */
  datatype Matrix = Matrix(rowCount: nat, row: map<nat, nat>, col: map<nat, nat>, rest: map<nat, seq<nat>>) {

    ghost function RowOf(x: nat): nat {
      if x in row then row[x] else rowCount
    }

    ghost function Col(x: nat): nat {
      if x in col then col[x] else ROOT
    }

    ghost function Rest(x: nat): seq<nat> {
      if x in rest then rest[x] else []
    }

    ghost predicate SameRow(x: nat, y: nat) {
      x in row && y in row && row[x] == row[y]
    }

    /** Rows are consistent, and no row meets a column twice. */
    ghost predicate Valid() {
      && row.Keys == col.Keys == rest.Keys && ROOT !in row
      && (forall x <- row.Keys :: row[x] < rowCount)
      && (forall x {:trigger Rest(x)} :: x in row ==> Distinct(Rest(x)))
      && (forall x, y {:trigger y in Rest(x)} :: x in row ==> (y in Rest(x) <==> SameRow(x, y) && y != x))
      && (forall x, y {:trigger SameRow(x, y)} :: SameRow(x, y) && x != y ==> Col(x) != Col(y))
    }

    /** The columns row `r` meets. */
    ghost function Columns(r: nat): set<nat> {
      set x | x in row && row[x] == r :: Col(x)
    }

    lemma ColumnInRow(x: nat)
      requires Valid() && x in row
      ensures RowOf(x) < rowCount && Col(x) in Columns(RowOf(x))
    {}

    /** Row `r` meets column `c` in some node. */
    lemma NodeInColumn(r: nat, c: nat) returns (x: nat)
      requires Valid() && c in Columns(r)
      ensures x in row && RowOf(x) == r && Col(x) == c
    {
      x :| x in row && row[x] == r && Col(x) == c;
    }

    /** The matrix as an exact-cover problem. */
    ghost function RowSets(): (rs: seq<set<nat>>)
      ensures |rs| == rowCount && forall r :: 0 <= r < rowCount ==> rs[r] == Columns(r)
    {
      seq(rowCount, r requires 0 <= r < rowCount => Columns(r))
    }
  }

  datatype View = View(heads: seq<nat>, lists: map<nat, seq<nat>>) {
    ghost function List(c: nat): seq<nat> {
      if c in lists then lists[c] else []
    }
  }

  /** Column `c` has exactly the nodes `xs` linked in it, and counts them. */
  ghost predicate Column(m: Matrix, s: Store, n: nat, c: nat, xs: seq<nat>)
    requires InBounds(s, n)
  {
    && c < n && c != ROOT && c !in m.row && s.col[c] == c
    && Ring(s.down, s.up, c, xs) && s.size[c] == |xs|
    && forall i :: 0 <= i < |xs| ==> xs[i] in m.row && m.Col(xs[i]) == c && s.col[xs[i]] == c
  }

  ghost predicate ColumnsLinked(m: Matrix, s: Store, n: nat, v: View)
    requires InBounds(s, n)
  {
    && (forall c <- v.heads :: c in v.lists)
    && (forall c {:trigger Column(m, s, n, c, v.List(c))} :: c in v.lists ==> Column(m, s, n, c, v.List(c)))
  }

  /** Rows are never unlinked sideways: from every node the whole row can be walked both ways. */
  ghost predicate RowsLinked(m: Matrix, s: Store, n: nat)
    requires InBounds(s, n)
  {
    && (forall x <- m.row.Keys :: x < n)
    && (forall x {:trigger s.col[x]} :: x in m.row ==> s.col[x] == m.Col(x))
    && (forall x {:trigger m.Rest(x)} :: x in m.row ==> Ring(s.right, s.left, x, m.Rest(x)))
  }

  /** The links form the rings the view says. */
  ghost predicate Shape(m: Matrix, s: Store, n: nat, v: View) {
    match v case View(heads, _) =>
      && m.Valid() && InBounds(s, n)
      && RowsLinked(m, s, n) && ColumnsLinked(m, s, n, v)
      && Ring(s.right, s.left, ROOT, heads)
  }

  /** The nodes linked in the open columns are exactly those of the rows that meet open columns only. */
  ghost predicate Exact(m: Matrix, v: View) {
    forall c, x {:trigger x in v.List(c)} :: c in v.heads && x in m.row && m.Col(x) == c ==>
      (x in v.List(c) <==> m.Columns(m.RowOf(x)) <= Elements(v.heads))
  }

  /** A store the solver can be called on: every list is what the open columns say it should be. */
  ghost predicate Regular(m: Matrix, s: Store, n: nat, v: View) {
    match v case View(_, _) => Shape(m, s, n, v) && Exact(m, v)
  }

  // ---------- unlinking one node ----------

  ghost function Without(xs: seq<nat>, j: nat): seq<nat> {
    if j in xs then
      var k :| 0 <= k < |xs| && xs[k] == j;
      Drop(xs, k)
    else xs
  }

  ghost function Remove(v: View, d: nat, j: nat): View {
    v.(lists := v.lists[d := Without(v.List(d), j)])
  }

  /** Node `j` is linked in its column. */
  ghost predicate Live(m: Matrix, v: View, n: nat, j: nat) {
    j < n && m.Col(j) in v.lists && j in v.List(m.Col(j))
  }

  lemma UnlinkOwnColumn(m: Matrix, s: Store, n: nat, d: nat, xs: seq<nat>, k: nat)
    requires InBounds(s, n) && Column(m, s, n, d, xs) && k < |xs|
    ensures InBounds(Unlink(s, xs[k]), n) && Column(m, Unlink(s, xs[k]), n, d, Drop(xs, k))
    ensures s.down[s.up[xs[k]]] == xs[k] && s.up[s.down[xs[k]]] == xs[k]
    ensures s.col[s.up[xs[k]]] == d && s.col[s.down[xs[k]]] == d
    ensures Unlink(s, xs[k]).up == s.up[s.down[xs[k]] := s.up[xs[k]]]
    ensures Unlink(s, xs[k]).down == s.down[s.up[xs[k]] := s.down[xs[k]]]
  {
    var j := xs[k];
    RingNeighbours(s.down, s.up, d, xs, k);
    UnlinkInBounds(s, n, j);
    assert Unlink(s, j).up == s.up[s.down[j] := s.up[j]];
    assert Unlink(s, j).down == s.down[s.up[j] := s.down[j]];
    BypassShortensRing(s.down, s.up, d, xs, k);
    DropElements(xs, k);
  }

  lemma UnlinkOtherColumn(m: Matrix, s: Store, n: nat, c: nat, xs: seq<nat>, j: nat)
    requires InBounds(s, n) && Column(m, s, n, c, xs) && j < n
    requires s.col[j] != c && s.col[s.up[j]] != c && s.col[s.down[j]] != c
    ensures InBounds(Unlink(s, j), n) && Column(m, Unlink(s, j), n, c, xs)
  {
    UnlinkInBounds(s, n, j);
    RingFrame(s.down, s.up, Unlink(s, j).down, Unlink(s, j).up, c, xs);
  }

  /** Unlinking a live node only touches its own column, and there removes just this node. */
  lemma UnlinkColumns(m: Matrix, s: Store, n: nat, v: View, j: nat)
    requires InBounds(s, n) && ColumnsLinked(m, s, n, v) && Live(m, v, n, j)
    ensures InBounds(Unlink(s, j), n) && ColumnsLinked(m, Unlink(s, j), n, Remove(v, m.Col(j), j))
    ensures s.down[s.up[j]] == j && s.up[s.down[j]] == j
    ensures Unlink(s, j).up == s.up[s.down[j] := s.up[j]] && Unlink(s, j).down == s.down[s.up[j] := s.down[j]]
    ensures s.col[s.up[j]] == m.Col(j) && s.col[s.down[j]] == m.Col(j)
  {
    var d := m.Col(j);
    var xs := v.List(d);
    var k :| 0 <= k < |xs| && xs[k] == j && Without(xs, j) == Drop(xs, k);
    UnlinkOwnColumn(m, s, n, d, xs, k);
    forall c | c in v.lists && c != d ensures Column(m, Unlink(s, j), n, c, v.List(c)) {
      UnlinkOtherColumn(m, s, n, c, v.List(c), j);
    }
  }

  lemma UnlinkShape(m: Matrix, s: Store, n: nat, v: View, j: nat)
    requires Shape(m, s, n, v) && Live(m, v, n, j)
    ensures Shape(m, Unlink(s, j), n, Remove(v, m.Col(j), j))
  {
    UnlinkColumns(m, s, n, v, j);
  }

  // ---------- unlinking many nodes ----------

  ghost function RemoveAll(m: Matrix, v: View, t: seq<nat>): View {
    if t == [] then v else Remove(RemoveAll(m, v, t[..|t| - 1]), m.Col(t[|t| - 1]), t[|t| - 1])
  }

  /** Nodes that can be unlinked one after the other. */
  ghost predicate AllLive(m: Matrix, v: View, n: nat, t: seq<nat>) {
    Distinct(t) && forall i :: 0 <= i < |t| ==> Live(m, v, n, t[i])
  }

  /** `w` has the columns of `v`, each without the nodes of `gone`. */
  ghost predicate LessBy(v: View, w: View, gone: set<nat>) {
    && w.heads == v.heads && w.lists.Keys == v.lists.Keys
    && (forall c, x {:trigger x in w.List(c)} :: c in v.lists ==>
          (x in w.List(c) <==> x in v.List(c) && x !in gone))
  }

  lemma RemoveElements(m: Matrix, s: Store, n: nat, v: View, j: nat, c: nat, x: nat)
    requires InBounds(s, n) && ColumnsLinked(m, s, n, v) && Live(m, v, n, j) && c in v.lists
    ensures x in Remove(v, m.Col(j), j).List(c) <==> x in v.List(c) && x != j
  {
    assert Column(m, s, n, c, v.List(c));
    if c == m.Col(j) {
      var xs := v.List(c);
      var k :| 0 <= k < |xs| && xs[k] == j && Without(xs, j) == Drop(xs, k);
      DropElements(xs, k);
    }
  }

  lemma RemoveLess(m: Matrix, s: Store, n: nat, v: View, j: nat)
    requires InBounds(s, n) && ColumnsLinked(m, s, n, v) && Live(m, v, n, j)
    ensures LessBy(v, Remove(v, m.Col(j), j), {j})
  {
    var w := Remove(v, m.Col(j), j);
    forall c, x {:trigger x in w.List(c)} | c in v.lists ensures x in w.List(c) <==> x in v.List(c) && x !in {j} {
      RemoveElements(m, s, n, v, j, c, x);
    }
  }

  lemma LessByTransitive(v: View, w: View, u: View, gone: set<nat>, gone': set<nat>)
    requires LessBy(v, w, gone) && LessBy(w, u, gone')
    ensures LessBy(v, u, gone + gone')
  {}

  lemma LastOf(m: Matrix, v: View, n: nat, t: seq<nat>, t': seq<nat>, j: nat)
    requires AllLive(m, v, n, t) && t == t' + [j]
    ensures t' == t[..|t| - 1] && j == t[|t| - 1]
    ensures AllLive(m, v, n, t') && Live(m, v, n, j) && j !in Elements(t')
    ensures Elements(t) == Elements(t') + {j}
  {
  }

  lemma {:induction false} UnlinkAllShape(m: Matrix, s: Store, n: nat, v: View, t: seq<nat>)
    requires Shape(m, s, n, v) && AllLive(m, v, n, t)
    ensures Shape(m, UnlinkAll(s, t), n, RemoveAll(m, v, t))
    ensures LessBy(v, RemoveAll(m, v, t), Elements(t))
  {
    if t != [] {
      var t', j := t[..|t| - 1], t[|t| - 1];
      SplitLast(t);
      LastOf(m, v, n, t, t', j);
      UnlinkAllShape(m, s, n, v, t');
      var u, w := UnlinkAll(s, t'), RemoveAll(m, v, t');
      UnlinkShape(m, u, n, w, j);
      RemoveLess(m, u, n, w, j);
      LessByTransitive(v, w, RemoveAll(m, v, t), Elements(t'), {j});
    }
  }

  /** Relinking in reverse order restores every link and every size. */
  lemma {:induction false} RelinkAllUndoes(m: Matrix, s: Store, n: nat, v: View, t: seq<nat>)
    requires Shape(m, s, n, v) && AllLive(m, v, n, t)
    ensures RelinkAll(UnlinkAll(s, t), t) == s
  {
    if t != [] {
      var t', j := t[..|t| - 1], t[|t| - 1];
      SplitLast(t);
      LastRelinked(m, s, n, v, t, t', j);
      RelinkAllUndoes(m, s, n, v, t');
    }
  }

  lemma LastRelinked(m: Matrix, s: Store, n: nat, v: View, t: seq<nat>, t': seq<nat>, j: nat)
    requires Shape(m, s, n, v) && AllLive(m, v, n, t) && t == t' + [j]
    ensures AllLive(m, v, n, t') && Relink(UnlinkAll(s, t), j) == UnlinkAll(s, t')
  {
    LastOf(m, v, n, t, t', j);
    UnlinkAllShape(m, s, n, v, t');
    UnlinkColumns(m, UnlinkAll(s, t'), n, RemoveAll(m, v, t'), j);
    RelinkUndoesUnlink(UnlinkAll(s, t'), n, j);
  }

  /** A column none of whose nodes is unlinked keeps its list as it is. */
  lemma {:induction false} RemoveAllKeeps(m: Matrix, v: View, t: seq<nat>, c: nat)
    requires forall i :: 0 <= i < |t| ==> m.Col(t[i]) != c
    ensures RemoveAll(m, v, t).List(c) == v.List(c)
  {
    if t != [] {
      RemoveAllKeeps(m, v, t[..|t| - 1], c);
    }
  }
}
