/**
 Covering a column and undoing it, on stores as values: the store after `cover`, the view
 that describes it, and the proof that `uncover` restores the store link by link.
 */
module Covering {
  import opened Links
  import opened Torus

  /** The nodes `cover` unlinks for the rows through `xs`, in the order it unlinks them. */
  ghost function Trace(m: Matrix, xs: seq<nat>): seq<nat> {
    if xs == [] then [] else Trace(m, xs[..|xs| - 1]) + m.Rest(xs[|xs| - 1])
  }

  /** Some other node of `xs` lies in the row of `j`. */
  ghost predicate MeetsRowOf(m: Matrix, xs: seq<nat>, j: nat) {
    exists i :: 0 <= i < |xs| && m.SameRow(xs[i], j) && xs[i] != j
  }

  lemma MeetsRowOfSplit(m: Matrix, xs: seq<nat>, xs': seq<nat>, x: nat, j: nat)
    requires xs == xs' + [x]
    ensures MeetsRowOf(m, xs, j) <==> MeetsRowOf(m, xs', j) || (m.SameRow(x, j) && x != j)
  {
    assert xs[|xs| - 1] == x;
    if MeetsRowOf(m, xs', j) {
      var i :| 0 <= i < |xs'| && m.SameRow(xs'[i], j) && xs'[i] != j;
      assert xs[i] == xs'[i];
    }
    if MeetsRowOf(m, xs, j) {
      var i :| 0 <= i < |xs| && m.SameRow(xs[i], j) && xs[i] != j;
      assert i < |xs'| ==> xs'[i] == xs[i];
    }
  }

  ghost predicate AllPlaced(m: Matrix, xs: seq<nat>) {
    forall i :: 0 <= i < |xs| ==> xs[i] in m.row
  }

  lemma {:induction false} TraceElements(m: Matrix, xs: seq<nat>, j: nat)
    requires m.Valid() && AllPlaced(m, xs)
    ensures j in Trace(m, xs) <==> MeetsRowOf(m, xs, j)
  {
    if xs != [] {
      var xs', x := xs[..|xs| - 1], xs[|xs| - 1];
      SplitLast(xs);
      TraceElements(m, xs', j);
      MeetsRowOfSplit(m, xs, xs', x, j);
    }
  }

  /** The nodes lie in different rows. */
  ghost predicate RowsApart(m: Matrix, xs: seq<nat>) {
    forall i, k :: 0 <= i < k < |xs| ==> !m.SameRow(xs[i], xs[k])
  }

  lemma DistinctAppend(xs: seq<nat>, ys: seq<nat>)
    requires Distinct(xs) && Distinct(ys) && forall x :: x in xs ==> x !in ys
    ensures Distinct(xs + ys)
  {
  }

  lemma {:induction false} TraceDistinct(m: Matrix, xs: seq<nat>)
    requires m.Valid() && AllPlaced(m, xs) && RowsApart(m, xs)
    ensures Distinct(Trace(m, xs))
  {
    if xs != [] {
      var xs', x := xs[..|xs| - 1], xs[|xs| - 1];
      TraceDistinct(m, xs');
      forall j | j in Trace(m, xs') ensures j !in m.Rest(x) {
        TraceElements(m, xs', j);
        var p :| 0 <= p < |xs'| && m.SameRow(xs'[p], j);
        assert !m.SameRow(xs[p], xs[|xs| - 1]);
      }
      DistinctAppend(Trace(m, xs'), m.Rest(x));
    }
  }

  lemma ColumnRowsApart(m: Matrix, s: Store, n: nat, c: nat, xs: seq<nat>)
    requires m.Valid() && InBounds(s, n) && Column(m, s, n, c, xs)
    ensures AllPlaced(m, xs) && RowsApart(m, xs)
  {
  }

  ghost function CloseColumn(v: View, c: nat): View {
    v.(heads := Without(v.heads, c))
  }

  lemma CloseColumnHeads(v: View, c: nat)
    requires c in v.heads && Distinct(v.heads)
    ensures Distinct(CloseColumn(v, c).heads)
    ensures forall d :: d in CloseColumn(v, c).heads <==> d in v.heads && d != c
    ensures Elements(CloseColumn(v, c).heads) == Elements(v.heads) - {c}
  {
    var k :| 0 <= k < |v.heads| && v.heads[k] == c && Without(v.heads, c) == Drop(v.heads, k);
    DropElements(v.heads, k);
  }

  /** Everything `cover` unlinks is linked, in a column other than the covered one. */
  lemma TraceLiveAt(m: Matrix, s: Store, n: nat, v: View, c: nat, j: nat)
    requires Regular(m, s, n, v) && c in v.heads && j in Trace(m, v.List(c))
    ensures Live(m, v, n, j) && m.Col(j) != c
  {
    var xs := v.List(c);
    assert Column(m, s, n, c, xs);
    TraceElements(m, xs, j);
    var p :| 0 <= p < |xs| && m.SameRow(xs[p], j) && xs[p] != j;
    assert m.SameRow(xs[p], j);
    assert xs[p] in v.List(c);
    m.ColumnInRow(j);
    assert m.Col(j) in Elements(v.heads);
    assert j in v.List(m.Col(j)) <==> m.Columns(m.RowOf(j)) <= Elements(v.heads);
  }

  lemma TraceLive(m: Matrix, s: Store, n: nat, v: View, c: nat)
    requires Regular(m, s, n, v) && c in v.heads
    ensures AllLive(m, CloseColumn(v, c), n, Trace(m, v.List(c)))
    ensures forall i :: 0 <= i < |Trace(m, v.List(c))| ==> m.Col(Trace(m, v.List(c))[i]) != c
  {
    var t := Trace(m, v.List(c));
    assert Column(m, s, n, c, v.List(c));
    ColumnRowsApart(m, s, n, c, v.List(c));
    TraceDistinct(m, v.List(c));
    forall i | 0 <= i < |t| ensures Live(m, CloseColumn(v, c), n, t[i]) && m.Col(t[i]) != c {
      TraceLiveAt(m, s, n, v, c, t[i]);
    }
  }

  // ---------- cover ----------

  /** The store after `cover(c)`. */
  ghost function Cover(m: Matrix, s: Store, v: View, c: nat): Store {
    UnlinkAll(UnlinkHeader(s, c), Trace(m, v.List(c)))
  }

  /** What is open and linked after `cover(c)`. */
  ghost function CoverView(m: Matrix, v: View, c: nat): View {
    RemoveAll(m, CloseColumn(v, c), Trace(m, v.List(c)))
  }

  lemma HeadersAreNoNodes(m: Matrix, s: Store, n: nat, v: View, i: int)
    requires Shape(m, s, n, v)
    ensures At(v.heads, i, ROOT) !in m.row
  {
    if 0 <= i < |v.heads| {
      assert v.heads[i] in v.lists;
      assert Column(m, s, n, v.heads[i], v.List(v.heads[i]));
    }
  }

  /** Headers are no row nodes, so changing the header list leaves the rows alone. */
  lemma RowsKeepRings(m: Matrix, s: Store, t: Store, n: nat, p: nat, l: nat, q: nat, r: nat)
    requires m.Valid() && InBounds(s, n) && InBounds(t, n) && RowsLinked(m, s, n) && t.col == s.col
    requires p !in m.row && p < n && t.left == s.left[p := l]
    requires q !in m.row && q < n && t.right == s.right[q := r]
    ensures RowsLinked(m, t, n)
  {
    forall x {:trigger m.Rest(x)} | x in m.row ensures Ring(t.right, t.left, x, m.Rest(x)) {
      RingFrame(s.right, s.left, t.right, t.left, x, m.Rest(x));
    }
  }

  lemma ColumnsKeepRings(m: Matrix, s: Store, t: Store, n: nat, v: View, c: nat)
    requires InBounds(s, n) && InBounds(t, n) && ColumnsLinked(m, s, n, v) && c in v.heads && Distinct(v.heads)
    requires t.up == s.up && t.down == s.down && t.col == s.col && t.size == s.size
    ensures ColumnsLinked(m, t, n, CloseColumn(v, c))
  {
    CloseColumnHeads(v, c);
    forall d | d in v.lists ensures Column(m, t, n, d, v.List(d)) {
      assert Column(m, s, n, d, v.List(d));
    }
  }

  lemma UnlinkHeaderRing(s: Store, n: nat, heads: seq<nat>, k: nat)
    requires InBounds(s, n) && Ring(s.right, s.left, ROOT, heads) && k < |heads|
    ensures var t, c := UnlinkHeader(s, heads[k]), heads[k];
      && InBounds(t, n) && Ring(t.right, t.left, ROOT, Drop(heads, k))
      && s.right[s.left[c]] == c && s.left[s.right[c]] == c
      && t.left == s.left[At(heads, k + 1, ROOT) := s.left[c]]
      && t.right == s.right[At(heads, k - 1, ROOT) := s.right[c]]
  {
    RingNeighbours(s.right, s.left, ROOT, heads, k);
    BypassShortensRing(s.right, s.left, ROOT, heads, k);
    UnlinkHeaderInBounds(s, n, heads[k]);
  }

  lemma UnlinkHeaderShape(m: Matrix, s: Store, n: nat, v: View, c: nat)
    requires Shape(m, s, n, v) && c in v.heads
    ensures c < n && RelinkHeader(UnlinkHeader(s, c), c) == s
    ensures Shape(m, UnlinkHeader(s, c), n, CloseColumn(v, c))
  {
    var k :| 0 <= k < |v.heads| && v.heads[k] == c && Without(v.heads, c) == Drop(v.heads, k);
    UnlinkHeaderRing(s, n, v.heads, k);
    HeadersAreNoNodes(m, s, n, v, k - 1);
    HeadersAreNoNodes(m, s, n, v, k + 1);
    RowsKeepRings(m, s, UnlinkHeader(s, c), n, At(v.heads, k + 1, ROOT), s.left[c],
                  At(v.heads, k - 1, ROOT), s.right[c]);
    ColumnsKeepRings(m, s, UnlinkHeader(s, c), n, v, c);
    RelinkUndoesUnlinkHeader(s, n, c);
  }

  /** After `cover(c)` the links are again exactly what the remaining open columns say. */
  lemma CoverKeepsRegular(m: Matrix, s: Store, n: nat, v: View, c: nat)
    requires Regular(m, s, n, v) && c in v.heads
    ensures Regular(m, Cover(m, s, v, c), n, CoverView(m, v, c))
    ensures Elements(CoverView(m, v, c).heads) == Elements(v.heads) - {c}
  {
    TraceLive(m, s, n, v, c);
    UnlinkHeaderShape(m, s, n, v, c);
    CloseColumnHeads(v, c);
    UnlinkAllShape(m, UnlinkHeader(s, c), n, CloseColumn(v, c), Trace(m, v.List(c)));
    assert Column(m, s, n, c, v.List(c));
    CoverKeepsExact(m, v, c);
  }

  lemma CoverKeepsExact(m: Matrix, v: View, c: nat)
    requires m.Valid() && c in v.heads && Distinct(v.heads) && Exact(m, v)
    requires forall d <- v.heads :: d in v.lists
    requires forall i :: 0 <= i < |v.List(c)| ==> v.List(c)[i] in m.row && m.Col(v.List(c)[i]) == c
    requires LessBy(CloseColumn(v, c), CoverView(m, v, c), Elements(Trace(m, v.List(c))))
    ensures Exact(m, CoverView(m, v, c))
  {
    CloseColumnHeads(v, c);
    var w := CoverView(m, v, c);
    forall d, x {:trigger x in w.List(d)} | d in w.heads && x in m.row && m.Col(x) == d
      ensures x in w.List(d) <==> m.Columns(m.RowOf(x)) <= Elements(w.heads)
    {
      assert d in v.heads && d != c;
      assert x in w.List(d) <==> x in CloseColumn(v, c).List(d) && x !in Elements(Trace(m, v.List(c)));
      assert x in v.List(d) <==> m.Columns(m.RowOf(x)) <= Elements(v.heads);
      if x in v.List(d) {
        TraceElements(m, v.List(c), x);
        RowMeetsCovered(m, v, c, x);
      }
    }
  }

  /** A row of open columns shares a node with column `c` exactly when `c` is one of its columns. */
  lemma RowMeetsCovered(m: Matrix, v: View, c: nat, x: nat)
    requires m.Valid() && c in v.heads && Exact(m, v)
    requires forall i :: 0 <= i < |v.List(c)| ==> v.List(c)[i] in m.row && m.Col(v.List(c)[i]) == c
    requires x in m.row && m.Col(x) != c && m.Columns(m.RowOf(x)) <= Elements(v.heads)
    ensures MeetsRowOf(m, v.List(c), x) <==> c in m.Columns(m.RowOf(x))
  {
    if MeetsRowOf(m, v.List(c), x) {
      var i :| 0 <= i < |v.List(c)| && m.SameRow(v.List(c)[i], x) && v.List(c)[i] != x;
      m.ColumnInRow(v.List(c)[i]);
    }
    if c in m.Columns(m.RowOf(x)) {
      m.ColumnInRow(x);
      var y := m.NodeInColumn(m.RowOf(x), c);
      assert y in v.List(c);
      var i :| 0 <= i < |v.List(c)| && v.List(c)[i] == y;
      assert m.SameRow(v.List(c)[i], x);
    }
  }

  // ---------- uncover ----------

  /** The store after `uncover(c)`, where `xs` is what is linked in column `c`. */
  ghost function Uncover(m: Matrix, s: Store, xs: seq<nat>, c: nat): Store {
    RelinkHeader(RelinkAll(s, Trace(m, xs)), c)
  }

  /** `uncover` right after `cover` restores every link and every size. */
  lemma UncoverUndoesCover(m: Matrix, s: Store, n: nat, v: View, c: nat)
    requires Regular(m, s, n, v) && c in v.heads
    ensures Uncover(m, Cover(m, s, v, c), v.List(c), c) == s
  {
    TraceLive(m, s, n, v, c);
    UnlinkHeaderShape(m, s, n, v, c);
    RelinkAllUndoes(m, UnlinkHeader(s, c), n, CloseColumn(v, c), Trace(m, v.List(c)));
  }

  // ---------- while a column is being covered ----------

  lemma {:induction false} TracePrefix(m: Matrix, xs: seq<nat>, i: nat)
    requires i <= |xs|
    ensures Trace(m, xs[..i]) <= Trace(m, xs)
  {
    if i < |xs| {
      var xs' := xs[..|xs| - 1];
      assert xs'[..i] == xs[..i];
      TracePrefix(m, xs', i);
    } else {
      assert xs[..i] == xs;
    }
  }

  lemma TraceNext(m: Matrix, xs: seq<nat>, i: nat)
    requires i < |xs|
    ensures Trace(m, xs[..i + 1]) == Trace(m, xs[..i]) + m.Rest(xs[i])
  {
    assert xs[..i + 1][..i] == xs[..i];
  }

  lemma AllLivePrefix(m: Matrix, v: View, n: nat, t: seq<nat>, t': seq<nat>)
    requires AllLive(m, v, n, t) && t' <= t
    ensures AllLive(m, v, n, t')
  {
  }

  lemma AllLiveSuffix(m: Matrix, v: View, w: View, n: nat, t: seq<nat>, t': seq<nat>)
    requires AllLive(m, v, n, t + t') && LessBy(v, w, Elements(t))
    ensures AllLive(m, w, n, t')
  {
    DistinctIff(t + t');
    assert forall i :: 0 <= i < |t'| ==> (t + t')[|t| + i] == t'[i];
    DistinctIff(t');
    forall i | 0 <= i < |t'| ensures Live(m, w, n, t'[i]) {
      assert forall k :: 0 <= k < |t| ==> (t + t')[k] == t[k];
      assert t'[i] in w.List(m.Col(t'[i])) <==> t'[i] in v.List(m.Col(t'[i])) && t'[i] !in Elements(t);
    }
  }

  /** The store when `cover(c)` has done the first `i` rows, and its view. */
  ghost function PartCover(m: Matrix, s: Store, v: View, c: nat, i: nat): Store
    requires i <= |v.List(c)|
  {
    UnlinkAll(UnlinkHeader(s, c), Trace(m, v.List(c)[..i]))
  }

  ghost function PartView(m: Matrix, v: View, c: nat, i: nat): View
    requires i <= |v.List(c)|
  {
    RemoveAll(m, CloseColumn(v, c), Trace(m, v.List(c)[..i]))
  }

  lemma PartCoverShape(m: Matrix, s: Store, n: nat, v: View, c: nat, i: nat)
    requires Regular(m, s, n, v) && c in v.heads && i <= |v.List(c)|
    ensures AllLive(m, CloseColumn(v, c), n, Trace(m, v.List(c)[..i]))
    ensures Shape(m, PartCover(m, s, v, c, i), n, PartView(m, v, c, i))
    ensures PartView(m, v, c, i).List(c) == v.List(c)
    ensures LessBy(CloseColumn(v, c), PartView(m, v, c, i), Elements(Trace(m, v.List(c)[..i])))
  {
    TraceLive(m, s, n, v, c);
    UnlinkHeaderShape(m, s, n, v, c);
    TracePrefix(m, v.List(c), i);
    AllLivePrefix(m, CloseColumn(v, c), n, Trace(m, v.List(c)), Trace(m, v.List(c)[..i]));
    UnlinkAllShape(m, UnlinkHeader(s, c), n, CloseColumn(v, c), Trace(m, v.List(c)[..i]));
    RemoveAllKeeps(m, CloseColumn(v, c), Trace(m, v.List(c)[..i]), c);
  }

  /** The column being covered stays linked, so it can be walked while it is covered. */
  lemma PartCoverWalks(m: Matrix, s: Store, n: nat, v: View, c: nat, i: nat)
    requires Regular(m, s, n, v) && c in v.heads && i <= |v.List(c)|
    ensures var u := PartCover(m, s, v, c, i);
      c < n && InBounds(u, n) && Ring(u.down, u.up, c, v.List(c))
    ensures i == 0 ==> PartCover(m, s, v, c, i) == UnlinkHeader(s, c)
    ensures i == |v.List(c)| ==> PartCover(m, s, v, c, i) == Cover(m, s, v, c)
  {
    PartCoverShape(m, s, n, v, c, i);
    assert Column(m, PartCover(m, s, v, c, i), n, c, PartView(m, v, c, i).List(c));
    UnlinkHeaderShape(m, s, n, v, c);
    PartCoverEnds(m, s, v, c);
  }

  lemma PartCoverEnds(m: Matrix, s: Store, v: View, c: nat)
    ensures PartCover(m, s, v, c, 0) == UnlinkHeader(s, c)
    ensures PartCover(m, s, v, c, |v.List(c)|) == Cover(m, s, v, c)
  {
    assert v.List(c)[..|v.List(c)|] == v.List(c);
  }

  /** The walk along that column, one position at a time. */
  lemma PartCoverAt(m: Matrix, s: Store, n: nat, v: View, c: nat, i: nat, p: int)
    requires Regular(m, s, n, v) && c in v.heads && i <= |v.List(c)| && -1 <= p <= |v.List(c)|
    ensures var u, y := PartCover(m, s, v, c, i), At(v.List(c), p, c);
      && c < n && y < n && |u.down| == |u.up| == n && (y == c <==> p == -1 || p == |v.List(c)|)
      && (p < |v.List(c)| ==> u.down[y] == At(v.List(c), p + 1, c))
      && (p > -1 ==> u.up[y] == At(v.List(c), p - 1, c))
  {
    PartCoverWalks(m, s, n, v, c, i);
    RingStep(PartCover(m, s, v, c, i).down, PartCover(m, s, v, c, i).up, c, v.List(c), p);
  }

  /** One row forward by unlinking, one row back by relinking; the row can be walked meanwhile. */
  lemma PartCoverRow(m: Matrix, s: Store, n: nat, v: View, c: nat, i: nat)
    requires Regular(m, s, n, v) && c in v.heads && i < |v.List(c)|
    ensures var x, u, w := v.List(c)[i], PartCover(m, s, v, c, i), PartCover(m, s, v, c, i + 1);
      && InBounds(u, n) && InBounds(w, n)
      && w == UnlinkAll(u, m.Rest(x)) && RelinkAll(w, m.Rest(x)) == u
      && Ring(u.right, u.left, x, m.Rest(x)) && Ring(w.right, w.left, x, m.Rest(x))
  {
    var t, rest := Trace(m, v.List(c)[..i]), m.Rest(v.List(c)[i]);
    PartCoverShape(m, s, n, v, c, i);
    PartCoverShape(m, s, n, v, c, i + 1);
    TraceNext(m, v.List(c), i);
    UnlinkAllAppend(UnlinkHeader(s, c), t, rest);
    AllLiveSuffix(m, CloseColumn(v, c), PartView(m, v, c, i), n, t, rest);
    RelinkAllUndoes(m, PartCover(m, s, v, c, i), n, PartView(m, v, c, i), rest);
    assert Column(m, s, n, c, v.List(c));
  }

  // ---------- covering several columns ----------

  ghost predicate AllOpen(v: View, cs: seq<nat>) {
    Distinct(cs) && forall i :: 0 <= i < |cs| ==> cs[i] in v.heads
  }

  lemma AllOpenLast(v: View, cs: seq<nat>)
    requires AllOpen(v, cs) && cs != []
    ensures AllOpen(v, cs[..|cs| - 1])
    ensures cs[|cs| - 1] in Elements(v.heads) - Elements(cs[..|cs| - 1])
    ensures Elements(cs) == Elements(cs[..|cs| - 1]) + {cs[|cs| - 1]}
  {
  }

  /** The store and view after covering the columns `cs`, first to last. */
  ghost function CoverMany(m: Matrix, s: Store, v: View, cs: seq<nat>): (Store, View) {
    if cs == [] then (s, v)
    else
      var r := CoverMany(m, s, v, cs[..|cs| - 1]);
      (Cover(m, r.0, r.1, cs[|cs| - 1]), CoverView(m, r.1, cs[|cs| - 1]))
  }

  lemma {:induction false} CoverManyRegular(m: Matrix, s: Store, n: nat, v: View, cs: seq<nat>)
    requires Regular(m, s, n, v) && AllOpen(v, cs)
    ensures Regular(m, CoverMany(m, s, v, cs).0, n, CoverMany(m, s, v, cs).1)
    ensures Elements(CoverMany(m, s, v, cs).1.heads) == Elements(v.heads) - Elements(cs)
  {
    if cs != [] {
      AllOpenLast(v, cs);
      CoverManyRegular(m, s, n, v, cs[..|cs| - 1]);
      var r := CoverMany(m, s, v, cs[..|cs| - 1]);
      CoverKeepsRegular(m, r.0, n, r.1, cs[|cs| - 1]);
    }
  }

  /** The view after covering the columns `cs`, which does not depend on the store. */
  ghost function ViewAfter(m: Matrix, v: View, cs: seq<nat>): View {
    if cs == [] then v else CoverView(m, ViewAfter(m, v, cs[..|cs| - 1]), cs[|cs| - 1])
  }

  lemma {:induction false} CoverManyView(m: Matrix, s: Store, v: View, cs: seq<nat>)
    ensures CoverMany(m, s, v, cs).1 == ViewAfter(m, v, cs)
  {
    if cs != [] {
      CoverManyView(m, s, v, cs[..|cs| - 1]);
    }
  }

  /** The store after uncovering the columns `cs`, last to first, each with what is linked in it. */
  ghost function UncoverMany(m: Matrix, u: Store, v: View, cs: seq<nat>): Store
    decreases |cs|
  {
    if cs == [] then u
    else
      var c, cs' := cs[|cs| - 1], cs[..|cs| - 1];
      UncoverMany(m, Uncover(m, u, ViewAfter(m, v, cs').List(c), c), v, cs')
  }

  /** Any sequence of covers undone in reverse order restores every link and every size. */
  lemma {:induction false} UncoverManyUndoes(m: Matrix, s: Store, n: nat, v: View, cs: seq<nat>)
    requires Regular(m, s, n, v) && AllOpen(v, cs)
    ensures UncoverMany(m, CoverMany(m, s, v, cs).0, v, cs) == s
  {
    if cs != [] {
      var c, cs' := cs[|cs| - 1], cs[..|cs| - 1];
      AllOpenLast(v, cs);
      CoverManyRegular(m, s, n, v, cs');
      CoverManyView(m, s, v, cs');
      var r := CoverMany(m, s, v, cs');
      UncoverUndoesCover(m, r.0, n, r.1, c);
      UncoverManyUndoes(m, s, n, v, cs');
    }
  }

  lemma CoverManyNext(m: Matrix, s: Store, n: nat, v: View, cs: seq<nat>, k: nat)
    requires Regular(m, s, n, v) && AllOpen(v, cs) && k < |cs|
    ensures var r := CoverMany(m, s, v, cs[..k]);
      && Regular(m, r.0, n, r.1) && cs[k] in r.1.heads
      && CoverMany(m, s, v, cs[..k + 1]).0 == Cover(m, r.0, r.1, cs[k])
  {
    DistinctIff(cs);
    DistinctIff(cs[..k]);
    assert cs[..k + 1][..k] == cs[..k];
    CoverManyRegular(m, s, n, v, cs[..k]);
    assert cs[k] in Elements(v.heads) - Elements(cs[..k]);
  }

  /** The columns of the other nodes of the row of `x`, in row order. */
  ghost function RestColumns(m: Matrix, x: nat): (cs: seq<nat>)
    ensures |cs| == |m.Rest(x)| && forall i :: 0 <= i < |cs| ==> cs[i] == m.Col(m.Rest(x)[i])
  {
    seq(|m.Rest(x)|, i requires 0 <= i < |m.Rest(x)| => m.Col(m.Rest(x)[i]))
  }

  lemma RestColumnsOpen(m: Matrix, v: View, x: nat)
    requires m.Valid() && x in m.row
    ensures Elements(RestColumns(m, x)) + {m.Col(x)} == m.Columns(m.RowOf(x))
    ensures Distinct(RestColumns(m, x)) && m.Col(x) !in RestColumns(m, x)
  {
    var cs, rest := RestColumns(m, x), m.Rest(x);
    DistinctIff(rest);
    forall i, k | 0 <= i < k < |cs| ensures cs[i] != cs[k] { assert m.SameRow(rest[i], rest[k]); }
    DistinctIff(cs);
    forall i | 0 <= i < |cs| ensures cs[i] != m.Col(x) && cs[i] in m.Columns(m.RowOf(x)) {
      assert m.SameRow(rest[i], x);
      m.ColumnInRow(rest[i]);
    }
    m.ColumnInRow(x);
    forall d | d in m.Columns(m.RowOf(x)) && d != m.Col(x) ensures d in Elements(cs) {
      var y := m.NodeInColumn(m.RowOf(x), d);
      assert y in rest;
      var i :| 0 <= i < |rest| && rest[i] == y;
      assert cs[i] == d;
    }
  }

  /** The store when the first `k` of the other columns of the row of `x` are covered. */
  ghost function RowCover(m: Matrix, s: Store, v: View, x: nat, k: nat): (Store, View)
    requires k <= |m.Rest(x)|
  {
    CoverMany(m, s, v, RestColumns(m, x)[..k])
  }

  lemma RowCoverEnds(m: Matrix, s: Store, v: View, x: nat)
    ensures RowCover(m, s, v, x, 0) == (s, v)
    ensures RowCover(m, s, v, x, |m.Rest(x)|) == CoverMany(m, s, v, RestColumns(m, x))
  {
    assert RestColumns(m, x)[..|m.Rest(x)|] == RestColumns(m, x);
  }

  /** The row can be walked at any point, one position at a time. */
  lemma RowCoverWalks(m: Matrix, s: Store, n: nat, v: View, x: nat, k: nat, p: int)
    requires Regular(m, s, n, v) && x in m.row && AllOpen(v, RestColumns(m, x))
    requires k <= |m.Rest(x)| && -1 <= p <= |m.Rest(x)|
    ensures var u, y := RowCover(m, s, v, x, k).0, At(m.Rest(x), p, x);
      && y < n && |u.left| == |u.right| == |u.col| == n
      && (y == x <==> p == -1 || p == |m.Rest(x)|)
      && (p < |m.Rest(x)| ==> u.right[y] == At(m.Rest(x), p + 1, x))
      && (p > -1 ==> u.left[y] == At(m.Rest(x), p - 1, x))
      && (-1 < p < |m.Rest(x)| ==> u.col[y] == RestColumns(m, x)[p])
  {
    var cs := RestColumns(m, x);
    AllOpenPrefix(v, cs, k);
    CoverManyRegular(m, s, n, v, cs[..k]);
    RowWalks(m, CoverMany(m, s, v, cs[..k]).0, n, x, p);
  }

  lemma AllOpenPrefix(v: View, cs: seq<nat>, k: nat)
    requires AllOpen(v, cs) && k <= |cs|
    ensures AllOpen(v, cs[..k])
  {
  }

  lemma RowWalks(m: Matrix, u: Store, n: nat, x: nat, p: int)
    requires m.Valid() && InBounds(u, n) && RowsLinked(m, u, n) && x in m.row && -1 <= p <= |m.Rest(x)|
    ensures var y := At(m.Rest(x), p, x);
      && y < n && (y == x <==> p == -1 || p == |m.Rest(x)|)
      && (p < |m.Rest(x)| ==> u.right[y] == At(m.Rest(x), p + 1, x))
      && (p > -1 ==> u.left[y] == At(m.Rest(x), p - 1, x))
      && (-1 < p < |m.Rest(x)| ==> u.col[y] == m.Col(y))
  {
  }

  lemma RowCoverNext(m: Matrix, s: Store, n: nat, v: View, x: nat, k: nat)
    requires Regular(m, s, n, v) && x in m.row && AllOpen(v, RestColumns(m, x)) && k < |m.Rest(x)|
    ensures var r, c := RowCover(m, s, v, x, k), RestColumns(m, x)[k];
      && Regular(m, r.0, n, r.1) && c in r.1.heads
      && RowCover(m, s, v, x, k + 1).0 == Cover(m, r.0, r.1, c)
  {
    CoverManyNext(m, s, n, v, RestColumns(m, x), k);
  }

  /** The `k`-th of those covers: the store and view before it, and the column it covers. */
  lemma RowCoverStage(m: Matrix, s: Store, n: nat, v: View, x: nat, k: nat) returns (u: Store, w: View)
    requires Regular(m, s, n, v) && x in m.row && AllOpen(v, RestColumns(m, x)) && k < |m.Rest(x)|
    ensures u == RowCover(m, s, v, x, k).0 && Regular(m, u, n, w)
    ensures RestColumns(m, x)[k] in w.heads && RowCover(m, s, v, x, k + 1).0 == Cover(m, u, w, RestColumns(m, x)[k])
    ensures m.Rest(x)[k] < n && |u.col| == |RowCover(m, s, v, x, k + 1).0.col| == n
    ensures u.col[m.Rest(x)[k]] == RowCover(m, s, v, x, k + 1).0.col[m.Rest(x)[k]] == RestColumns(m, x)[k]
  {
    RowCoverNext(m, s, n, v, x, k);
    RowCoverWalks(m, s, n, v, x, k, k);
    RowCoverWalks(m, s, n, v, x, k + 1, k);
    u, w := RowCover(m, s, v, x, k).0, RowCover(m, s, v, x, k).1;
  }
}
