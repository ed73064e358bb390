/**
 How the solver's link structure is built: fresh nodes, headers appended to the header list,
 nodes appended at the bottom of a column, and rows closed sideways. On stores as values.
 */
module Building {
  import opened Links
  import opened Torus

  /** A freshly allocated node: linked to itself in every direction. */
  ghost function Alloc(s: Store, x: nat): Store {
    Store(Set(s.left, x, x), Set(s.right, x, x), Set(s.up, x, x), Set(s.down, x, x), Set(s.col, x, x),
          if x < |s.size| then s.size[x := 0] else s.size)
  }

  /** `put_left`: node `x` goes to the left of `h`, which is the end of the ring that starts at `h`. */
  ghost function PutLeft(s: Store, h: nat, x: nat): Store {
    var l, r := Set(s.left, x, Get(s.left, h)), Set(s.right, x, h);
    s.(left := Set(l, h, x), right := Set(r, Get(l, h), x))
  }

  /** `put_up`: node `x` goes above header `c`, which is the bottom of its column. */
  ghost function PutUp(s: Store, c: nat, x: nat): Store {
    var u, d := Set(s.up, x, Get(s.up, c)), Set(s.down, x, c);
    s.(up := Set(u, c, x), down := Set(d, Get(u, c), x), size := Add(s.size, c, 1), col := Set(s.col, x, c))
  }

  lemma AppendAt(xs: seq<nat>, x: nat, i: int, h: nat)
    ensures At(xs + [x], i, h) == if i == |xs| then x else At(xs, i, h)
  {}

  lemma AppendDistinct(xs: seq<nat>, x: nat)
    requires Distinct(xs) && x !in xs
    ensures Distinct(xs + [x])
  {
  }

  lemma RingAppendAt(next: seq<nat>, prev: seq<nat>, h: nat, xs: seq<nat>, x: nat, i: nat)
    requires Ring(next, prev, h, xs) && x < |next| && x != h && x !in xs && prev[h] < |next| && i <= |xs|
    ensures var ys := xs + [x];
      && next[x := h][prev[h] := x][ys[i]] == At(ys, i + 1, h)
      && prev[x := prev[h]][h := x][ys[i]] == At(ys, i - 1, h)
  {
  }

  /** Putting a new node before the head lengthens the ring by this node, at its end. */
  lemma RingAppend(next: seq<nat>, prev: seq<nat>, h: nat, xs: seq<nat>, x: nat)
    requires Ring(next, prev, h, xs) && x < |next| && x != h && x !in xs
    ensures prev[h] < |next|
    ensures Ring(next[x := h][prev[h] := x], prev[x := prev[h]][h := x], h, xs + [x])
  {
    var ys, next', prev' := xs + [x], next[x := h][prev[h] := x], prev[x := prev[h]][h := x];
    AppendDistinct(xs, x);
    forall i {:trigger next'[ys[i]]} | 0 <= i < |ys| ensures next'[ys[i]] == At(ys, i + 1, h) {
      RingAppendAt(next, prev, h, xs, x, i);
    }
    forall i {:trigger prev'[ys[i]]} | 0 <= i < |ys| ensures prev'[ys[i]] == At(ys, i - 1, h) {
      RingAppendAt(next, prev, h, xs, x, i);
    }
    AppendAt(xs, x, 0, h);
    AppendAt(xs, x, |xs|, h);
  }

  // ---------- one more header ----------

  /** Everything in use lies below `cur`. */
  ghost predicate Within(v: View, cur: nat) {
    && ROOT < cur
    && (forall c <- v.lists.Keys :: c < cur)
    && (forall c, i {:trigger v.List(c)[i]} :: c in v.lists && 0 <= i < |v.List(c)| ==> v.List(c)[i] < cur)
  }

  lemma ColumnFrame(m: Matrix, s: Store, t: Store, n: nat, c: nat, xs: seq<nat>)
    requires InBounds(s, n) && InBounds(t, n) && Column(m, s, n, c, xs)
    requires t.up[c] == s.up[c] && t.down[c] == s.down[c] && t.col[c] == s.col[c] && t.size[c] == s.size[c]
    requires forall i :: 0 <= i < |xs| ==>
      t.up[xs[i]] == s.up[xs[i]] && t.down[xs[i]] == s.down[xs[i]] && t.col[xs[i]] == s.col[xs[i]]
    ensures Column(m, t, n, c, xs)
  {
    RingFrame(s.down, s.up, t.down, t.up, c, xs);
  }

  /** A fresh node takes part in no column. */
  lemma AllocKeepsColumns(m: Matrix, s: Store, n: nat, v: View, x: nat)
    requires InBounds(s, n) && ColumnsLinked(m, s, n, v) && Within(v, x) && x < n
    ensures InBounds(Alloc(s, x), n) && ColumnsLinked(m, Alloc(s, x), n, v)
  {
    var t := Alloc(s, x);
    forall c {:trigger Column(m, t, n, c, v.List(c))} | c in v.lists ensures Column(m, t, n, c, v.List(c)) {
      assert Column(m, s, n, c, v.List(c));
      ColumnFrame(m, s, t, n, c, v.List(c));
    }
  }

  ghost function WithHeader(v: View, x: nat): View {
    View(v.heads + [x], v.lists[x := []])
  }

  lemma PutLeftInBounds(s: Store, n: nat, h: nat, x: nat)
    requires InBounds(s, n) && h < n && x < n
    ensures InBounds(PutLeft(s, h, x), n)
  {}

  lemma RowsFrame(m: Matrix, s: Store, t: Store, n: nat, cur: nat)
    requires m.Valid() && InBounds(s, n) && InBounds(t, n) && RowsLinked(m, s, n)
    requires forall x <- m.row.Keys :: x < cur
    requires forall x <- m.row.Keys :: t.left[x] == s.left[x] && t.right[x] == s.right[x] && t.col[x] == s.col[x]
    ensures RowsLinked(m, t, n)
  {
    forall x {:trigger m.Rest(x)} | x in m.row ensures Ring(t.right, t.left, x, m.Rest(x)) {
      assert forall i :: 0 <= i < |m.Rest(x)| ==> m.Rest(x)[i] in m.Rest(x);
      RingFrame(s.right, s.left, t.right, t.left, x, m.Rest(x));
    }
  }

  /** `append_column`: a new empty column, last in the header list. */
  lemma AppendHeader(m: Matrix, s: Store, n: nat, v: View, x: nat)
    requires Shape(m, s, n, v) && Within(v, x) && x < n && (forall y <- m.row.Keys :: y < x)
    ensures Shape(m, PutLeft(Alloc(s, x), ROOT, x), n, WithHeader(v, x))
  {
    var s1 := Alloc(s, x);
    var t := PutLeft(s1, ROOT, x);
    AllocKeepsColumns(m, s, n, v, x);
    PutLeftInBounds(s1, n, ROOT, x);
    HeaderRing(s, n, v.heads, x);
    RootNeighbour(m, s, n, v);
    RowsFrame(m, s, t, n, x);
    HeaderColumns(m, s1, t, n, v, x);
  }

  lemma WithinHeader(v: View, x: nat)
    requires Within(v, x)
    ensures Within(WithHeader(v, x), x + 1)
  {
    var w := WithHeader(v, x);
    forall c, i {:trigger w.List(c)[i]} | c in w.lists && 0 <= i < |w.List(c)| ensures w.List(c)[i] < x + 1 {
      assert v.List(c)[i] == w.List(c)[i];
    }
  }

  lemma HeaderColumns(m: Matrix, s: Store, t: Store, n: nat, v: View, x: nat)
    requires InBounds(s, n) && InBounds(t, n) && ColumnsLinked(m, s, n, v) && x < n && x != ROOT && x !in m.row
    requires t.up == s.up && t.down == s.down && t.col == s.col && t.size == s.size
    requires s.up[x] == s.down[x] == s.col[x] == x && s.size[x] == 0
    ensures ColumnsLinked(m, t, n, WithHeader(v, x))
  {
    var w := WithHeader(v, x);
    forall c {:trigger Column(m, t, n, c, w.List(c))} | c in w.lists ensures Column(m, t, n, c, w.List(c)) {
      if c != x {
        assert Column(m, s, n, c, v.List(c));
      }
    }
  }

  lemma RootNeighbour(m: Matrix, s: Store, n: nat, v: View)
    requires Shape(m, s, n, v)
    ensures s.left[ROOT] !in m.row
  {
    RingStep(s.right, s.left, ROOT, v.heads, |v.heads|);
    if v.heads != [] {
      assert Column(m, s, n, v.heads[|v.heads| - 1], v.List(v.heads[|v.heads| - 1]));
    }
  }

  lemma HeaderRing(s: Store, n: nat, heads: seq<nat>, x: nat)
    requires InBounds(s, n) && Ring(s.right, s.left, ROOT, heads) && ROOT < x < n
    requires forall i :: 0 <= i < |heads| ==> heads[i] < x
    ensures var t := PutLeft(Alloc(s, x), ROOT, x); Ring(t.right, t.left, ROOT, heads + [x])
    ensures var t := PutLeft(Alloc(s, x), ROOT, x);
      forall y :: 0 <= y < x && y != ROOT && y != s.left[ROOT] ==> t.left[y] == s.left[y] && t.right[y] == s.right[y]
  {
    var s1 := Alloc(s, x);
    RingStep(s.right, s.left, ROOT, heads, |heads|);
    RingFrame(s.right, s.left, s1.right, s1.left, ROOT, heads);
    RingAppend(s1.right, s1.left, ROOT, heads, x);
    RingStep(s.right, s.left, ROOT, heads, |heads| - 1);
  }

  // ---------- one more row ----------

  /** Node `x` appended to the list of column `c`. */
  ghost function WithNode(v: View, c: nat, x: nat): View {
    v.(lists := v.lists[c := v.List(c) + [x]])
  }

  lemma WithinNode(v: View, c: nat, x: nat)
    requires Within(v, x) && c in v.lists
    ensures Within(WithNode(v, c, x), x + 1)
  {
    var w := WithNode(v, c, x);
    forall d, i {:trigger w.List(d)[i]} | d in w.lists && 0 <= i < |w.List(d)| ensures w.List(d)[i] < x + 1 {
      assert i < |v.List(d)| ==> v.List(d)[i] == w.List(d)[i];
    }
  }

  lemma PutUpLinks(s: Store, n: nat, c: nat, x: nat)
    requires InBounds(s, n) && c < n && x < n && x != c
    ensures var t := PutUp(s, c, x);
      && InBounds(t, n) && t.up == s.up[x := s.up[c]][c := x] && t.down == s.down[x := c][s.up[c] := x]
      && t.col == s.col[x := c] && t.size == s.size[c := s.size[c] + 1]
  {}

  lemma PutUpOwnColumn(m: Matrix, s: Store, n: nat, c: nat, xs: seq<nat>, x: nat)
    requires InBounds(s, n) && Column(m, s, n, c, xs) && x < n && x != c && x !in xs
    requires x in m.row && m.Col(x) == c
    ensures InBounds(PutUp(s, c, x), n) && Column(m, PutUp(s, c, x), n, c, xs + [x])
    ensures s.col[s.up[c]] == c && PutUp(s, c, x).up == s.up[x := s.up[c]][c := x]
    ensures PutUp(s, c, x).down == s.down[x := c][s.up[c] := x]
  {
    PutUpLinks(s, n, c, x);
    RingStep(s.down, s.up, c, xs, |xs|);
    RingAppend(s.down, s.up, c, xs, x);
  }

  /** `new_row`: a fresh node at the bottom of column `c`; the other columns are untouched. */
  lemma AppendNode(m: Matrix, s: Store, n: nat, v: View, c: nat, x: nat)
    requires InBounds(s, n) && ColumnsLinked(m, s, n, v) && Within(v, x) && c in v.lists
    requires x < n && x in m.row && m.Col(x) == c
    ensures InBounds(PutUp(Alloc(s, x), c, x), n)
    ensures ColumnsLinked(m, PutUp(Alloc(s, x), c, x), n, WithNode(v, c, x))
  {
    AllocKeepsColumns(m, s, n, v, x);
    var s1 := Alloc(s, x);
    var t, w := PutUp(s1, c, x), WithNode(v, c, x);
    assert Column(m, s1, n, c, v.List(c));
    PutUpOwnColumn(m, s1, n, c, v.List(c), x);
    forall d {:trigger Column(m, t, n, d, w.List(d))} | d in w.lists ensures Column(m, t, n, d, w.List(d)) {
      if d != c {
        assert Column(m, s1, n, d, v.List(d));
        PutUpOtherColumn(m, s1, t, n, c, x, d, v.List(d));
      }
    }
  }

  lemma PutUpOtherColumn(m: Matrix, s: Store, t: Store, n: nat, c: nat, x: nat, d: nat, xs: seq<nat>)
    requires InBounds(s, n) && InBounds(t, n) && t == PutUp(s, c, x) && c < n && x < n && x != c
    requires Column(m, s, n, d, xs) && d != c && x != d && x !in xs && s.col[s.up[c]] == c
    ensures Column(m, t, n, d, xs)
  {
    PutUpLinks(s, n, c, x);
    ColumnFrame(m, s, t, n, d, xs);
  }

  /** Row `rowCount` added to the matrix: nodes `a` to `a + 3`, in the columns `cs`. */
  ghost function WithRow(m: Matrix, a: nat, cs: seq<nat>): Matrix
    requires |cs| == 4
  {
    var r := m.rowCount;
    Matrix(r + 1,
           m.row[a := r][a + 1 := r][a + 2 := r][a + 3 := r],
           m.col[a := cs[0]][a + 1 := cs[1]][a + 2 := cs[2]][a + 3 := cs[3]],
           m.rest[a := [a + 1, a + 2, a + 3]][a + 1 := [a + 2, a + 3, a]]
                 [a + 2 := [a + 3, a, a + 1]][a + 3 := [a, a + 1, a + 2]])
  }

  lemma Distinct3(x: nat, y: nat, z: nat)
    requires x != y && y != z && x != z
    ensures Distinct([x, y, z])
  {
  }

  lemma WithRowValid(m: Matrix, a: nat, cs: seq<nat>)
    requires m.Valid() && ROOT < a && (forall x <- m.row.Keys :: x < a) && |cs| == 4
    requires forall i, k :: 0 <= i < k < 4 ==> cs[i] != cs[k]
    ensures WithRow(m, a, cs).Valid()
  {
    var w := WithRow(m, a, cs);
    forall x: nat {:trigger w.Rest(x)} | x in w.row ensures Distinct(w.Rest(x)) {
      WithRowRest(m, a, cs, x);
    }
    forall x: nat, y: nat {:trigger w.SameRow(x, y)} | w.SameRow(x, y) && x != y ensures w.Col(x) != w.Col(y) {
      WithRowColumns(m, a, cs, x, y);
    }
    forall x: nat, y: nat {:trigger y in w.Rest(x)} | x in w.row ensures y in w.Rest(x) <==> w.SameRow(x, y) && y != x {
      WithRowNeighbour(m, a, cs, x, y);
    }
  }

  lemma WithRowRest(m: Matrix, a: nat, cs: seq<nat>, x: nat)
    requires m.Valid() && (forall x <- m.row.Keys :: x < a) && |cs| == 4 && x in WithRow(m, a, cs).row
    ensures Distinct(WithRow(m, a, cs).Rest(x))
  {
    WithRowAt(m, a, cs, x);
    Distinct3(a + 1, a + 2, a + 3);
    Distinct3(a + 2, a + 3, a);
    Distinct3(a + 3, a, a + 1);
    Distinct3(a, a + 1, a + 2);
  }

  /** Which nodes share a row: two old ones as before, two new ones, and no others. */
  lemma WithRowSame(m: Matrix, a: nat, cs: seq<nat>, x: nat, y: nat)
    requires m.Valid() && (forall x <- m.row.Keys :: x < a) && |cs| == 4
    ensures x < a && y < a ==> (WithRow(m, a, cs).SameRow(x, y) <==> m.SameRow(x, y))
    ensures a <= x || a <= y ==> (WithRow(m, a, cs).SameRow(x, y) <==> a <= x <= a + 3 && a <= y <= a + 3)
  {
  }

  lemma WithRowColumns(m: Matrix, a: nat, cs: seq<nat>, x: nat, y: nat)
    requires m.Valid() && (forall x <- m.row.Keys :: x < a) && |cs| == 4
    requires forall i, k :: 0 <= i < k < 4 ==> cs[i] != cs[k]
    requires WithRow(m, a, cs).SameRow(x, y) && x != y
    ensures WithRow(m, a, cs).Col(x) != WithRow(m, a, cs).Col(y)
  {
    WithRowSame(m, a, cs, x, y);
    WithRowAt(m, a, cs, x);
    WithRowAt(m, a, cs, y);
  }

  lemma WithRowNeighbour(m: Matrix, a: nat, cs: seq<nat>, x: nat, y: nat)
    requires m.Valid() && (forall x <- m.row.Keys :: x < a) && |cs| == 4 && x in WithRow(m, a, cs).row
    ensures y in WithRow(m, a, cs).Rest(x) <==> WithRow(m, a, cs).SameRow(x, y) && y != x
  {
    WithRowSame(m, a, cs, x, y);
    WithRowAt(m, a, cs, x);
    if x < a {
      assert y in m.Rest(x) <==> m.SameRow(x, y) && y != x;
    }
  }

  /** The rows of the larger matrix, when only the four new nodes have been linked sideways. */
  lemma RowCloses(next: seq<nat>, prev: seq<nat>, h: nat, x: nat, y: nat, z: nat)
    requires |next| == |prev| && h < |next| && x < |next| && y < |next| && z < |next|
    requires h != x && h != y && h != z && x != y && y != z && x != z
    requires next[h] == x && next[x] == y && next[y] == z && next[z] == h
    requires prev[x] == h && prev[y] == x && prev[z] == y && prev[h] == z
    ensures Ring(next, prev, h, [x, y, z])
  {
    Distinct3(x, y, z);
  }

  lemma WithRowAt(m: Matrix, a: nat, cs: seq<nat>, x: nat)
    requires |cs| == 4 && x in WithRow(m, a, cs).row && forall y <- m.row.Keys :: y < a
    ensures x < a ==> x in m.row && WithRow(m, a, cs).Rest(x) == m.Rest(x) && WithRow(m, a, cs).Col(x) == m.Col(x)
    ensures x >= a ==> x <= a + 3 && WithRow(m, a, cs).Col(x) == cs[x - a]
    ensures x == a ==> WithRow(m, a, cs).Rest(x) == [a + 1, a + 2, a + 3]
    ensures x == a + 1 ==> WithRow(m, a, cs).Rest(x) == [a + 2, a + 3, a]
    ensures x == a + 2 ==> WithRow(m, a, cs).Rest(x) == [a + 3, a, a + 1]
    ensures x == a + 3 ==> WithRow(m, a, cs).Rest(x) == [a, a + 1, a + 2]
  {}

  /** The links of four nodes from `a` on, closed into a ring. */
  ghost predicate RowClosed(t: Store, a: nat) {
    && |t.left| == |t.right| && a + 3 < |t.left|
    && t.right[a] == a + 1 && t.right[a + 1] == a + 2 && t.right[a + 2] == a + 3 && t.right[a + 3] == a
    && t.left[a] == a + 3 && t.left[a + 1] == a && t.left[a + 2] == a + 1 && t.left[a + 3] == a + 2
  }

  /** The ring of one node of the new row, seen from this node. */
  lemma RowRing(t: Store, a: nat, x: nat, rest: seq<nat>)
    requires RowClosed(t, a) && a <= x <= a + 3
    requires x == a ==> rest == [a + 1, a + 2, a + 3]
    requires x == a + 1 ==> rest == [a + 2, a + 3, a]
    requires x == a + 2 ==> rest == [a + 3, a, a + 1]
    requires x == a + 3 ==> rest == [a, a + 1, a + 2]
    ensures Ring(t.right, t.left, x, rest)
  {
    if x == a {
      RowCloses(t.right, t.left, a, a + 1, a + 2, a + 3);
    } else if x == a + 1 {
      RowCloses(t.right, t.left, a + 1, a + 2, a + 3, a);
    } else if x == a + 2 {
      RowCloses(t.right, t.left, a + 2, a + 3, a, a + 1);
    } else {
      RowCloses(t.right, t.left, a + 3, a, a + 1, a + 2);
    }
  }

  /** One node of the larger matrix. */
  lemma WithRowNode(m: Matrix, t: Store, n: nat, a: nat, cs: seq<nat>, x: nat)
    requires InBounds(t, n) && RowsLinked(m, t, n) && RowClosed(t, a)
    requires |cs| == 4 && x in WithRow(m, a, cs).row && forall y <- m.row.Keys :: y < a
    requires t.col[a] == cs[0] && t.col[a + 1] == cs[1] && t.col[a + 2] == cs[2] && t.col[a + 3] == cs[3]
    ensures x < n && t.col[x] == WithRow(m, a, cs).Col(x)
    ensures Ring(t.right, t.left, x, WithRow(m, a, cs).Rest(x))
  {
    WithRowAt(m, a, cs, x);
    if x >= a {
      RowRing(t, a, x, WithRow(m, a, cs).Rest(x));
    }
  }

  lemma WithRowLinked(m: Matrix, s: Store, t: Store, n: nat, a: nat, cs: seq<nat>)
    requires m.Valid() && InBounds(s, n) && InBounds(t, n) && RowsLinked(m, s, n)
    requires |cs| == 4 && a + 3 < n && (forall x <- m.row.Keys :: x < a) && RowClosed(t, a)
    requires forall x :: 0 <= x < a ==> t.left[x] == s.left[x] && t.right[x] == s.right[x] && t.col[x] == s.col[x]
    requires t.col[a] == cs[0] && t.col[a + 1] == cs[1] && t.col[a + 2] == cs[2] && t.col[a + 3] == cs[3]
    ensures RowsLinked(WithRow(m, a, cs), t, n)
  {
    var w := WithRow(m, a, cs);
    RowsFrame(m, s, t, n, a);
    forall x: nat {:trigger w.Rest(x)} | x in w.row ensures Ring(t.right, t.left, x, w.Rest(x)) {
      WithRowNode(m, t, n, a, cs, x);
    }
    forall x: nat {:trigger t.col[x]} | x in w.row ensures x < n && t.col[x] == w.Col(x) {
      WithRowNode(m, t, n, a, cs, x);
    }
  }

  /** Nodes `a`, `a + 1`, ... appended to the columns `cs`. */
  ghost function WithNodes(v: View, a: nat, cs: seq<nat>): View {
    if cs == [] then v else WithNode(WithNodes(v, a, cs[..|cs| - 1]), cs[|cs| - 1], a + |cs| - 1)
  }

  /** The store when those nodes have been put into their columns. */
  ghost function NodesStore(s: Store, a: nat, cs: seq<nat>): Store {
    if cs == [] then s
    else PutUp(Alloc(NodesStore(s, a, cs[..|cs| - 1]), a + |cs| - 1), cs[|cs| - 1], a + |cs| - 1)
  }

  /** The store when the nodes `xs` have been put, one after the other, to the left of `h`. */
  ghost function PutAll(s: Store, h: nat, xs: seq<nat>): Store {
    if xs == [] then s else PutLeft(PutAll(s, h, xs[..|xs| - 1]), h, xs[|xs| - 1])
  }

  /** The store with one more row of four nodes. */
  ghost function RowStore(s: Store, a: nat, cs: seq<nat>): Store {
    PutAll(NodesStore(s, a, cs), a, [a + 1, a + 2, a + 3])
  }

  lemma NodesStoreNext(s: Store, a: nat, cs: seq<nat>, j: nat)
    requires j < |cs|
    ensures NodesStore(s, a, cs[..j + 1]) == PutUp(Alloc(NodesStore(s, a, cs[..j]), a + j), cs[j], a + j)
  {
    SliceNext(cs, j);
  }

  lemma SliceNext(cs: seq<nat>, j: nat)
    requires j < |cs|
    ensures |cs[..j + 1]| == j + 1 && cs[..j + 1][..j] == cs[..j] && cs[..j + 1][j] == cs[j]
  {
  }

  lemma ColumnsExtend(m: Matrix, s: Store, n: nat, v: View, a: nat, cs: seq<nat>)
    requires InBounds(s, n) && ColumnsLinked(m, s, n, v) && |cs| == 4 && Within(v, a)
    requires forall x <- m.row.Keys :: x < a
    ensures ColumnsLinked(WithRow(m, a, cs), s, n, v)
  {
    var w := WithRow(m, a, cs);
    forall c {:trigger Column(w, s, n, c, v.List(c))} | c in v.lists ensures Column(w, s, n, c, v.List(c)) {
      assert Column(m, s, n, c, v.List(c));
      forall i | 0 <= i < |v.List(c)| ensures v.List(c)[i] in w.row && w.Col(v.List(c)[i]) == c {
        WithRowAt(m, a, cs, v.List(c)[i]);
      }
    }
  }

  /** Node `x` is in column `c` of the matrix. */
  ghost predicate NodePlaced(w: Matrix, v: View, x: nat, c: nat) {
    c in v.lists && x in w.row && w.Col(x) == c
  }

  /** The matrix has the nodes from `a` on, one in each of the columns `cs`. */
  ghost predicate NodesPlaced(w: Matrix, v: View, a: nat, cs: seq<nat>) {
    forall i: nat :: i < |cs| ==> NodePlaced(w, v, a + i, cs[i])
  }

  lemma NodesPlacedPrefix(w: Matrix, v: View, a: nat, cs: seq<nat>, k: nat)
    requires NodesPlaced(w, v, a, cs) && k < |cs|
    ensures NodesPlaced(w, v, a, cs[..k]) && NodePlaced(w, v, a + k, cs[k])
  {
    var t := cs[..k];
    forall i: nat | i < |t| ensures NodePlaced(w, v, a + i, t[i]) {
      assert t[i] == cs[i];
    }
  }

  lemma {:induction false} NodesColumns(w: Matrix, s: Store, n: nat, v: View, a: nat, cs: seq<nat>)
    requires InBounds(s, n) && ColumnsLinked(w, s, n, v) && Within(v, a) && a + |cs| <= n
    requires NodesPlaced(w, v, a, cs)
    ensures InBounds(NodesStore(s, a, cs), n)
    ensures ColumnsLinked(w, NodesStore(s, a, cs), n, WithNodes(v, a, cs))
    ensures WithNodes(v, a, cs).heads == v.heads && WithNodes(v, a, cs).lists.Keys == v.lists.Keys
    ensures Within(WithNodes(v, a, cs), a + |cs|)
  {
    if cs != [] {
      var k := |cs| - 1;
      NodesPlacedPrefix(w, v, a, cs, k);
      NodesColumns(w, s, n, v, a, cs[..k]);
      var u := WithNodes(v, a, cs[..k]);
      assert cs[k] in u.lists.Keys;
      AppendNode(w, NodesStore(s, a, cs[..k]), n, u, cs[k], a + k);
      WithinNode(u, cs[k], a + k);
    }
  }

  lemma NodeSideways(s: Store, n: nat, c: nat, x: nat)
    requires |s.left| == |s.right| == |s.col| == n && x < n
    ensures var t := PutUp(Alloc(s, x), c, x);
      t.left == s.left[x := x] && t.right == s.right[x := x] && t.col == s.col[x := c]
  {}

  /** The first `k` nodes from `a` on stand alone sideways, in the columns `cs`; those below `a` are as in `s`. */
  ghost predicate Sideways(s: Store, t: Store, n: nat, a: nat, cs: seq<nat>, k: nat) {
    && |s.left| == |s.right| == |s.col| == |t.left| == |t.right| == |t.col| == n && a + k <= n && k <= |cs|
    && (forall x :: 0 <= x < a ==> t.left[x] == s.left[x] && t.right[x] == s.right[x] && t.col[x] == s.col[x])
    && (forall x :: a <= x < a + k ==> t.left[x] == t.right[x] == x && t.col[x] == cs[x - a])
  }

  /** What the allocations do sideways: new nodes are on their own, old ones untouched. */
  lemma {:induction false} NodesSideways(s: Store, n: nat, a: nat, cs: seq<nat>)
    requires |s.left| == |s.right| == |s.col| == n && a + |cs| <= n
    ensures Sideways(s, NodesStore(s, a, cs), n, a, cs, |cs|)
  {
    if cs != [] {
      var k := |cs| - 1;
      NodesSideways(s, n, a, cs[..k]);
      var t := NodesStore(s, a, cs[..k]);
      SidewaysPrefix(s, t, n, a, cs, k);
      SidewaysNext(s, t, n, a, cs, k);
    }
  }

  lemma SidewaysPrefix(s: Store, t: Store, n: nat, a: nat, cs: seq<nat>, k: nat)
    requires k <= |cs| && Sideways(s, t, n, a, cs[..k], k)
    ensures Sideways(s, t, n, a, cs, k)
  {
  }

  lemma SidewaysNext(s: Store, t: Store, n: nat, a: nat, cs: seq<nat>, k: nat)
    requires Sideways(s, t, n, a, cs, k) && k < |cs| && a + k < n
    ensures Sideways(s, PutUp(Alloc(t, a + k), cs[k], a + k), n, a, cs, k + 1)
  {
    NodeSideways(t, n, cs[k], a + k);
  }

  /** Putting `x` before `h` between `h` and its left neighbour `y`, and nothing else. */
  lemma PutLeftAt(s: Store, n: nat, h: nat, x: nat, y: nat)
    requires |s.left| == |s.right| == n && h < n && x < n && y < n && s.left[h] == y && x != h && x != y
    ensures var t := PutLeft(s, h, x);
      && t.up == s.up && t.down == s.down && t.col == s.col && t.size == s.size
      && |t.left| == |t.right| == n
      && t.left[h] == x && t.left[x] == y && t.right[y] == x && t.right[x] == h
      && (forall i :: 0 <= i < n && i != h && i != x ==> t.left[i] == s.left[i])
      && (forall i :: 0 <= i < n && i != x && i != y ==> t.right[i] == s.right[i])
  {}

  lemma PutAllThree(u: Store, h: nat, x: nat, y: nat, z: nat)
    ensures PutAll(u, h, [x, y, z]) == PutLeft(PutLeft(PutLeft(u, h, x), h, y), h, z)
  {
    assert [x][..0] == [] && PutAll(u, h, [x]) == PutLeft(u, h, x);
    assert [x, y][..1] == [x] && PutAll(u, h, [x, y]) == PutLeft(PutLeft(u, h, x), h, y);
    assert [x, y, z][..2] == [x, y];
  }

  lemma ClosesRow(u: Store, n: nat, a: nat)
    requires |u.left| == |u.right| == n && a + 4 <= n && u.left[a] == a && u.right[a] == a
    ensures var t := PutAll(u, a, [a + 1, a + 2, a + 3]);
      && t.up == u.up && t.down == u.down && t.col == u.col && t.size == u.size
      && |t.left| == |t.right| == n && RowClosed(t, a)
      && (forall x :: 0 <= x < a ==> t.left[x] == u.left[x] && t.right[x] == u.right[x])
  {
    PutAllThree(u, a, a + 1, a + 2, a + 3);
    PutLeftAt(u, n, a, a + 1, a);
    var u1 := PutLeft(u, a, a + 1);
    PutLeftAt(u1, n, a, a + 2, a + 1);
    var u2 := PutLeft(u1, a, a + 2);
    PutLeftAt(u2, n, a, a + 3, a + 2);
  }

  lemma {:induction false} PutAllInBounds(u: Store, n: nat, h: nat, xs: seq<nat>)
    requires InBounds(u, n) && h < n && forall i :: 0 <= i < |xs| ==> xs[i] < n
    ensures InBounds(PutAll(u, h, xs), n)
  {
    if xs != [] {
      PutAllInBounds(u, n, h, xs[..|xs| - 1]);
      PutLeftInBounds(PutAll(u, h, xs[..|xs| - 1]), n, h, xs[|xs| - 1]);
    }
  }

  lemma ColumnsSame(m: Matrix, s: Store, t: Store, n: nat, v: View)
    requires InBounds(s, n) && InBounds(t, n) && ColumnsLinked(m, s, n, v)
    requires t.up == s.up && t.down == s.down && t.col == s.col && t.size == s.size
    ensures ColumnsLinked(m, t, n, v)
  {
    forall c {:trigger Column(m, t, n, c, v.List(c))} | c in v.lists ensures Column(m, t, n, c, v.List(c)) {
      assert Column(m, s, n, c, v.List(c));
    }
  }

  lemma HeadsStay(m: Matrix, s: Store, t: Store, n: nat, v: View, a: nat)
    requires Shape(m, s, n, v) && Within(v, a) && |t.left| == |t.right| == n && a <= n
    requires forall x :: 0 <= x < a ==> t.left[x] == s.left[x] && t.right[x] == s.right[x]
    ensures Ring(t.right, t.left, ROOT, v.heads)
  {
  }

  lemma RowColumns(m: Matrix, s: Store, n: nat, v: View, a: nat, cs: seq<nat>)
    requires Shape(m, s, n, v) && |cs| == 4 && Within(v, a) && a + 4 <= n
    requires (forall x <- m.row.Keys :: x < a) && (forall i :: 0 <= i < 4 ==> cs[i] in v.lists)
    ensures InBounds(NodesStore(s, a, cs), n)
    ensures ColumnsLinked(WithRow(m, a, cs), NodesStore(s, a, cs), n, WithNodes(v, a, cs))
    ensures WithNodes(v, a, cs).heads == v.heads && WithNodes(v, a, cs).lists.Keys == v.lists.Keys
    ensures Within(WithNodes(v, a, cs), a + 4)
  {
    ColumnsExtend(m, s, n, v, a, cs);
    forall i: nat | i < 4 ensures NodePlaced(WithRow(m, a, cs), v, a + i, cs[i]) {
      WithRowAt(m, a, cs, a + i);
    }
    NodesColumns(WithRow(m, a, cs), s, n, v, a, cs);
  }

  lemma RowSideways(m: Matrix, s: Store, n: nat, a: nat, cs: seq<nat>)
    requires m.Valid() && InBounds(s, n) && RowsLinked(m, s, n) && |cs| == 4 && a + 4 <= n
    requires InBounds(NodesStore(s, a, cs), n) && forall x <- m.row.Keys :: x < a
    ensures var u, t := NodesStore(s, a, cs), RowStore(s, a, cs);
      && InBounds(t, n) && RowsLinked(WithRow(m, a, cs), t, n)
      && t.up == u.up && t.down == u.down && t.col == u.col && t.size == u.size
      && (forall x :: 0 <= x < a ==> t.left[x] == s.left[x] && t.right[x] == s.right[x])
  {
    RowStoreLinks(s, n, a, cs);
    WithRowLinked(m, s, RowStore(s, a, cs), n, a, cs);
  }

  /** The sideways links and the columns of the store with one more row. */
  lemma RowStoreLinks(s: Store, n: nat, a: nat, cs: seq<nat>)
    requires InBounds(s, n) && |cs| == 4 && a + 4 <= n && InBounds(NodesStore(s, a, cs), n)
    ensures var u, t := NodesStore(s, a, cs), RowStore(s, a, cs);
      && InBounds(t, n) && RowClosed(t, a)
      && t.up == u.up && t.down == u.down && t.col == u.col && t.size == u.size
      && (forall x :: 0 <= x < a ==> t.left[x] == s.left[x] && t.right[x] == s.right[x] && t.col[x] == s.col[x])
      && t.col[a] == cs[0] && t.col[a + 1] == cs[1] && t.col[a + 2] == cs[2] && t.col[a + 3] == cs[3]
  {
    var u := NodesStore(s, a, cs);
    NodesSideways(s, n, a, cs);
    ClosesRow(u, n, a);
    RowStoreInBounds(u, n, a);
  }

  lemma RowStoreInBounds(u: Store, n: nat, a: nat)
    requires InBounds(u, n) && a + 4 <= n
    ensures InBounds(PutAll(u, a, [a + 1, a + 2, a + 3]), n)
  {
    PutAllInBounds(u, n, a, [a + 1, a + 2, a + 3]);
  }

  /** A row of four nodes: the links are those of the matrix with one more row. */
  lemma AppendRow(m: Matrix, s: Store, n: nat, v: View, a: nat, cs: seq<nat>)
    requires Shape(m, s, n, v) && |cs| == 4 && Within(v, a) && a + 4 <= n
    requires (forall x <- m.row.Keys :: x < a) && (forall i :: 0 <= i < 4 ==> cs[i] in v.lists)
    requires forall i, k :: 0 <= i < k < 4 ==> cs[i] != cs[k]
    ensures Shape(WithRow(m, a, cs), RowStore(s, a, cs), n, WithNodes(v, a, cs))
  {
    var u, t := NodesStore(s, a, cs), RowStore(s, a, cs);
    RowColumns(m, s, n, v, a, cs);
    RowSideways(m, s, n, a, cs);
    WithRowValid(m, a, cs);
    ColumnsSame(WithRow(m, a, cs), u, t, n, WithNodes(v, a, cs));
    HeadsStay(m, s, t, n, v, a);
  }
}
