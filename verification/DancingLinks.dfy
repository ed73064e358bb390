/**
 The solver's link structure as it lives in memory: arrays of links rewritten in place by
 `cover` and `uncover`, and the backtracking search over them.
 */
module DancingLinks {
  import opened Links
  import opened Torus
  import opened Covering
  import opened ExactCover
  import B = Building

  /** The rows of the nodes `picks`. */
  ghost function RowsOf(m: Matrix, picks: seq<nat>): set<nat> {
    set i | 0 <= i < |picks| :: m.RowOf(picks[i])
  }

  /** One node of every row of an exact cover. */
  ghost predicate IsSolution(m: Matrix, open: set<nat>, picks: seq<nat>) {
    match m case Matrix(_, row, _, _) =>
      && (forall i :: 0 <= i < |picks| ==> picks[i] in row)
      && IsExactCover(m.RowSets(), open, RowsOf(m, picks))
  }

  /** None of the rows of the first `i` nodes of `xs` is part of an exact cover. */
  ghost predicate Tried(m: Matrix, open: set<nat>, xs: seq<nat>, i: nat) {
    forall k :: 0 <= k < i && k < |xs| ==> !HasExactCover(m.RowSets(), open - m.Columns(m.RowOf(xs[k])))
  }

  class Dancer {
    const n: nat
    const left: array<nat>
    const right: array<nat>
    const up: array<nat>
    const down: array<nat>
    const col: array<nat>
    const name: array<int>
    const size: array<int>
    var stack: seq<nat>

    constructor (n: nat)
      ensures this.n == n && stack == [] && Arrays()
      ensures fresh(left) && fresh(right) && fresh(up) && fresh(down) && fresh(col) && fresh(name) && fresh(size)
      ensures forall i :: 0 <= i < n ==>
        left[i] == right[i] == up[i] == down[i] == col[i] == 0 && name[i] == size[i] == 0
    {
      this.n := n;
      left, right := new nat[n](_ => 0), new nat[n](_ => 0);
      up, down := new nat[n](_ => 0), new nat[n](_ => 0);
      col := new nat[n](_ => 0);
      name, size := new int[n](_ => 0), new int[n](_ => 0);
      stack := [];
    }

    ghost predicate Arrays() {
      match (left, right, up, down, col, name, size) case (l, r, u, d, c, nm, sz) =>
        && l.Length == n && r.Length == n && u.Length == n && d.Length == n
        && c.Length == n && nm.Length == n && sz.Length == n
        && l != r && l != u && l != d && l != c && r != u && r != d && r != c
        && u != d && u != c && d != c && nm != sz
        && sz as object !in {l as object, r, u, d, c}
        && nm as object !in {l as object, r, u, d, c}
    }

    /** The links as a value. */
    ghost function Links(): Store
      reads left, right, up, down, col, size
    {
      Store(left[..], right[..], up[..], down[..], col[..], size[..])
    }

    /** Clear node `x` and link it to itself. */
    method InitNode(x: nat, nm: int)
      requires Arrays() && x < n
      modifies left, right, up, down, col, name, size
      ensures Links() == B.Alloc(old(Links()), x) && name[..] == old(name[..])[x := nm]
    {
      size[x] := 0;
      left[x] := x;
      right[x] := x;
      up[x] := x;
      down[x] := x;
      col[x] := x;
      name[x] := nm;
    }

    method PutLeft(h: nat, x: nat)
      requires Arrays() && InBounds(Links(), n) && h < n && x < n
      modifies left, right
      ensures Links() == B.PutLeft(old(Links()), h, x)
    {
      left[x] := left[h];
      right[x] := h;
      right[left[h]] := x;
      left[h] := x;
    }

    method PutUp(c: nat, x: nat)
      requires Arrays() && InBounds(Links(), n) && c < n && x < n
      modifies up, down, size, col
      ensures Links() == B.PutUp(old(Links()), c, x)
    {
      up[x] := up[c];
      down[x] := c;
      down[up[c]] := x;
      up[c] := x;
      size[c] := size[c] + 1;
      col[x] := c;
    }

    method UnlinkNode(j: nat)
      requires Arrays() && InBounds(Links(), n) && j < n
      modifies up, down, size
      ensures Links() == Unlink(old(Links()), j)
    {
      up[down[j]] := up[j];
      down[up[j]] := down[j];
      size[col[j]] := size[col[j]] - 1;
    }

    method RelinkNode(j: nat)
      requires Arrays() && InBounds(Links(), n) && j < n
      modifies up, down, size
      ensures Links() == Relink(old(Links()), j)
    {
      size[col[j]] := size[col[j]] + 1;
      up[down[j]] := j;
      down[up[j]] := j;
    }

    method UnlinkHead(c: nat)
      requires Arrays() && InBounds(Links(), n) && c < n
      modifies left, right
      ensures Links() == UnlinkHeader(old(Links()), c)
    {
      left[right[c]] := left[c];
      right[left[c]] := right[c];
    }

    method RelinkHead(c: nat)
      requires Arrays() && InBounds(Links(), n) && c < n
      modifies left, right
      ensures Links() == RelinkHeader(old(Links()), c)
    {
      left[right[c]] := c;
      right[left[c]] := c;
    }

    /** The inner loop of `cover`: unlink the other nodes of one row, left to right. */
    method UnlinkRow(row: nat, ghost rest: seq<nat>)
      requires Arrays() && InBounds(Links(), n) && Ring(right[..], left[..], row, rest)
      modifies up, down, size
      ensures Links() == UnlinkAll(old(Links()), rest)
    {
      ghost var s := Links();
      var j := right[row];
      ghost var k := 0;
      while j != row
        invariant 0 <= k <= |rest| && j == At(rest, k, row)
        invariant Links() == UnlinkAll(s, rest[..k])
        decreases |rest| - k
      {
        UnlinkAllFrame(s, n, rest[..k]);
        assert rest[..k + 1][..k] == rest[..k];
        RingStep(s.right, s.left, row, rest, k);
        UnlinkNode(j);
        j := right[j];
        k := k + 1;
      }
      assert rest[..k] == rest;
    }

    /** The inner loop of `uncover`: relink them, right to left. */
    method RelinkRow(row: nat, ghost rest: seq<nat>)
      requires Arrays() && InBounds(Links(), n) && Ring(right[..], left[..], row, rest)
      modifies up, down, size
      ensures Links() == RelinkAll(old(Links()), rest)
    {
      ghost var s := Links();
      var j := left[row];
      ghost var k := |rest|;
      assert rest[..k] == rest;
      while j != row
        invariant 0 <= k <= |rest| && j == At(rest, k - 1, row)
        invariant InBounds(Links(), n) && left[..] == s.left && right[..] == s.right
        invariant RelinkAll(Links(), rest[..k]) == RelinkAll(s, rest)
        decreases k
      {
        assert rest[..k][..k - 1] == rest[..k - 1];
        RingStep(s.right, s.left, row, rest, k - 1);
        UnlinkInBounds(Links(), n, j);
        RelinkNode(j);
        j := left[j];
        k := k - 1;
      }
    }

    method Cover(c: nat, ghost m: Matrix, ghost v: View)
      requires Arrays() && Regular(m, Links(), n, v) && c in v.heads
      modifies left, right, up, down, size
      ensures Links() == Covering.Cover(m, old(Links()), v, c)
    {
      ghost var s := Links();
      CoverHead(c, m, v);
      CoverRows(c, m, s, v);
    }

    method CoverHead(c: nat, ghost m: Matrix, ghost v: View)
      requires Arrays() && Regular(m, Links(), n, v) && c in v.heads
      modifies left, right
      ensures Links() == PartCover(m, old(Links()), v, c, 0)
    {
      UnlinkHeaderShape(m, Links(), n, v, c);
      PartCoverEnds(m, Links(), v, c);
      UnlinkHead(c);
    }

    /** The outer loop of `cover`. */
    method CoverRows(c: nat, ghost m: Matrix, ghost s: Store, ghost v: View)
      requires Arrays() && Regular(m, s, n, v) && c in v.heads && Links() == PartCover(m, s, v, c, 0)
      modifies up, down, size
      ensures Links() == Covering.Cover(m, s, v, c)
    {
      ghost var xs := v.List(c);
      PartCoverAt(m, s, n, v, c, 0, -1);
      var row := down[c];
      ghost var i := 0;
      while row != c
        invariant 0 <= i <= |xs| && row == At(xs, i, c)
        invariant Links() == PartCover(m, s, v, c, i)
        decreases |xs| - i
      {
        row := CoverThrough(row, c, m, s, v, i);
        i := i + 1;
      }
      PartCoverAt(m, s, n, v, c, i, i);
      PartCoverEnds(m, s, v, c);
    }

    method CoverThrough(row: nat, ghost c: nat, ghost m: Matrix, ghost s: Store, ghost v: View, ghost i: nat)
      returns (next: nat)
      requires Arrays() && Regular(m, s, n, v) && c in v.heads && i < |v.List(c)| && row == v.List(c)[i]
      requires Links() == PartCover(m, s, v, c, i)
      modifies up, down, size
      ensures Links() == PartCover(m, s, v, c, i + 1) && next == At(v.List(c), i + 1, c)
    {
      PartCoverRow(m, s, n, v, c, i);
      UnlinkRow(row, m.Rest(row));
      PartCoverAt(m, s, n, v, c, i + 1, i);
      next := down[row];
    }

    method Uncover(c: nat, ghost m: Matrix, ghost s: Store, ghost v: View)
      requires Arrays() && Regular(m, s, n, v) && c in v.heads
      requires Links() == Covering.Cover(m, s, v, c)
      modifies left, right, up, down, size
      ensures Links() == s
    {
      UncoverRows(c, m, s, v);
      UncoverHead(c, m, s, v);
    }

    /** The outer loop of `uncover`. */
    method UncoverRows(c: nat, ghost m: Matrix, ghost s: Store, ghost v: View)
      requires Arrays() && Regular(m, s, n, v) && c in v.heads
      requires Links() == Covering.Cover(m, s, v, c)
      modifies up, down, size
      ensures Links() == PartCover(m, s, v, c, 0)
    {
      ghost var xs := v.List(c);
      ghost var i := |xs|;
      PartCoverEnds(m, s, v, c);
      PartCoverAt(m, s, n, v, c, i, i);
      var row := up[c];
      while row != c
        invariant 0 <= i <= |xs| && row == At(xs, i - 1, c)
        invariant Links() == PartCover(m, s, v, c, i)
        decreases i
      {
        row := UncoverThrough(row, c, m, s, v, i - 1);
        i := i - 1;
      }
      PartCoverAt(m, s, n, v, c, i, i - 1);
    }

    method UncoverThrough(row: nat, ghost c: nat, ghost m: Matrix, ghost s: Store, ghost v: View, ghost i: nat)
      returns (next: nat)
      requires Arrays() && Regular(m, s, n, v) && c in v.heads && i < |v.List(c)| && row == v.List(c)[i]
      requires Links() == PartCover(m, s, v, c, i + 1)
      modifies up, down, size
      ensures Links() == PartCover(m, s, v, c, i) && next == At(v.List(c), i - 1, c)
    {
      PartCoverRow(m, s, n, v, c, i);
      RelinkRow(row, m.Rest(row));
      PartCoverAt(m, s, n, v, c, i, i);
      next := up[row];
    }

    method UncoverHead(c: nat, ghost m: Matrix, ghost s: Store, ghost v: View)
      requires Arrays() && Regular(m, s, n, v) && c in v.heads && Links() == PartCover(m, s, v, c, 0)
      modifies left, right
      ensures Links() == s
    {
      PartCoverEnds(m, s, v, c);
      UnlinkHeaderShape(m, s, n, v, c);
      RelinkHead(c);
    }

    /** The first open column with at most one row, else the first with fewest rows. */
    method GetMinColumn(ghost heads: seq<nat>) returns (c: nat)
      requires Arrays() && Ring(right[..], left[..], ROOT, heads) && heads != []
      ensures c in heads && c < n
      ensures size[c] <= 1 || forall d <- heads :: d < n && size[c] <= size[d]
      ensures exists k :: 0 <= k < |heads| && heads[k] == c && forall j :: 0 <= j < k ==> size[heads[j]] > size[c]
    {
      c := right[ROOT];
      var minSize := size[c];
      if minSize > 1 {
        var cc := right[c];
        ghost var i, k := 1, 0;
        while cc != ROOT
          invariant 1 <= i <= |heads| && cc == At(heads, i, ROOT)
          invariant 0 <= k < i && heads[k] == c && forall j :: 0 <= j < k ==> size[heads[j]] > size[c]
          invariant c in heads && c < n && minSize == size[c] && minSize > 1
          invariant forall k :: 0 <= k < i ==> minSize <= size[heads[k]]
          decreases |heads| - i
        {
          RingStep(right[..], left[..], ROOT, heads, i);
          if minSize > size[cc] {
            c, k := cc, i;
            minSize := size[cc];
            if minSize <= 1 {
              break;
            }
          }
          cc := right[cc];
          i := i + 1;
        }
      }
    }

    /** The loop of `solve` that covers the other columns of the chosen row. */
    method CoverRow(row: nat, ghost m: Matrix, ghost v: View)
      requires Arrays() && Regular(m, Links(), n, v) && row in m.row && AllOpen(v, RestColumns(m, row))
      modifies left, right, up, down, size
      ensures Links() == RowCover(m, old(Links()), v, row, |m.Rest(row)|).0
    {
      ghost var s, rest := Links(), m.Rest(row);
      RowCoverEnds(m, s, v, row);
      RowCoverWalks(m, s, n, v, row, 0, -1);
      var j := right[row];
      ghost var k := 0;
      while j != row
        invariant 0 <= k <= |rest| && j == At(rest, k, row)
        invariant Links() == RowCover(m, s, v, row, k).0
        decreases |rest| - k
      {
        j := CoverOneOf(j, row, m, s, v, k);
        k := k + 1;
      }
      RowCoverWalks(m, s, n, v, row, k, k);
    }

    method CoverOneOf(j: nat, ghost row: nat, ghost m: Matrix, ghost s: Store, ghost v: View, ghost k: nat)
      returns (next: nat)
      requires Arrays() && Regular(m, s, n, v) && row in m.row && AllOpen(v, RestColumns(m, row))
      requires k < |m.Rest(row)| && j == m.Rest(row)[k] && Links() == RowCover(m, s, v, row, k).0
      modifies left, right, up, down, size
      ensures Links() == RowCover(m, s, v, row, k + 1).0 && next == At(m.Rest(row), k + 1, row)
    {
      CoverAt(j, row, m, s, v, k);
      RowCoverWalks(m, s, n, v, row, k + 1, k);
      next := right[j];
    }

    method CoverAt(j: nat, ghost row: nat, ghost m: Matrix, ghost s: Store, ghost v: View, ghost k: nat)
      requires Arrays() && Regular(m, s, n, v) && row in m.row && AllOpen(v, RestColumns(m, row))
      requires k < |m.Rest(row)| && j == m.Rest(row)[k] && Links() == RowCover(m, s, v, row, k).0
      modifies left, right, up, down, size
      ensures Links() == RowCover(m, s, v, row, k + 1).0
    {
      ghost var u, w := RowCoverStage(m, s, n, v, row, k);
      Cover(col[j], m, w);
    }

    /** The loop of `solve` that uncovers them again, in the opposite order. */
    method UncoverRow(row: nat, ghost m: Matrix, ghost s: Store, ghost v: View)
      requires Arrays() && Regular(m, s, n, v) && row in m.row && AllOpen(v, RestColumns(m, row))
      requires Links() == RowCover(m, s, v, row, |m.Rest(row)|).0
      modifies left, right, up, down, size
      ensures Links() == s
    {
      ghost var rest := m.Rest(row);
      ghost var k := |rest|;
      RowCoverEnds(m, s, v, row);
      RowCoverWalks(m, s, n, v, row, k, |rest|);
      var j := left[row];
      while j != row
        invariant 0 <= k <= |rest| && j == At(rest, k - 1, row)
        invariant Links() == RowCover(m, s, v, row, k).0
        decreases k
      {
        j := UncoverOneOf(j, row, m, s, v, k - 1);
        k := k - 1;
      }
      RowCoverWalks(m, s, n, v, row, k, k - 1);
    }

    method UncoverOneOf(j: nat, ghost row: nat, ghost m: Matrix, ghost s: Store, ghost v: View, ghost k: nat)
      returns (next: nat)
      requires Arrays() && Regular(m, s, n, v) && row in m.row && AllOpen(v, RestColumns(m, row))
      requires k < |m.Rest(row)| && j == m.Rest(row)[k] && Links() == RowCover(m, s, v, row, k + 1).0
      modifies left, right, up, down, size
      ensures Links() == RowCover(m, s, v, row, k).0 && next == At(m.Rest(row), k - 1, row)
    {
      UncoverAt(j, row, m, s, v, k);
      RowCoverWalks(m, s, n, v, row, k, k);
      next := left[j];
    }

    method UncoverAt(j: nat, ghost row: nat, ghost m: Matrix, ghost s: Store, ghost v: View, ghost k: nat)
      requires Arrays() && Regular(m, s, n, v) && row in m.row && AllOpen(v, RestColumns(m, row))
      requires k < |m.Rest(row)| && j == m.Rest(row)[k] && Links() == RowCover(m, s, v, row, k + 1).0
      modifies left, right, up, down, size
      ensures Links() == RowCover(m, s, v, row, k).0
    {
      ghost var u, w := RowCoverStage(m, s, n, v, row, k);
      Uncover(col[j], m, u, w);
    }

    /**
     Search for an exact cover of the open columns by rows of open columns. On success the
     stack holds one node of every chosen row; on failure there is none, and every link,
     every size and the stack are as they were.
     */
    method Solve(ghost m: Matrix, ghost v: View) returns (found: bool, ghost picks: seq<nat>)
      requires Arrays() && Regular(m, Links(), n, v)
      modifies left, right, up, down, size, this`stack
      ensures found ==> stack == old(stack) + picks
      ensures found ==> IsSolution(m, Elements(v.heads), picks)
      ensures found ==> InBounds(Links(), n) && RowsLinked(m, Links(), n)
      ensures !found ==> !HasExactCover(m.RowSets(), Elements(v.heads))
      ensures !found ==> Links() == old(Links()) && stack == old(stack)
      decreases Elements(v.heads)
    {
      ghost var s := Links();
      RegularHeads(m, s, n, v);
      if left[ROOT] == ROOT {
        picks := [];
        assert IsExactCover(m.RowSets(), {}, {});
        assert RowsOf(m, picks) == {};
        return true, picks;
      }
      var c := GetMinColumn(v.heads);
      Cover(c, m, v);
      found, picks := TryRows(c, m, s, v);
      if !found {
        Uncover(c, m, s, v);
        NoCoverLeft(m, s, n, v, c);
      }
    }

    /** The loop of `solve` over the rows of the covered column. */
    method TryRows(c: nat, ghost m: Matrix, ghost s: Store, ghost v: View) returns (found: bool, ghost picks: seq<nat>)
      requires Arrays() && Regular(m, s, n, v) && c in v.heads && Links() == Covering.Cover(m, s, v, c)
      modifies left, right, up, down, size, this`stack
      ensures found ==> stack == old(stack) + picks
      ensures found ==> IsSolution(m, Elements(v.heads), picks)
      ensures found ==> InBounds(Links(), n) && RowsLinked(m, Links(), n)
      ensures !found ==> Tried(m, Elements(v.heads), v.List(c), |v.List(c)|)
      ensures !found ==> Links() == old(Links()) && stack == old(stack)
      decreases Elements(v.heads), 1
    {
      ghost var xs := v.List(c);
      ColumnWalks(m, s, n, v, c, -1);
      var row := down[c];
      ghost var i := 0;
      while row != c
        invariant 0 <= i <= |xs| && row == At(xs, i, c)
        invariant Links() == Covering.Cover(m, s, v, c) && stack == old(stack)
        invariant Tried(m, Elements(v.heads), xs, i)
        decreases |xs| - i
      {
        ColumnWalks(m, s, n, v, c, i);
        found, picks := TryRow(row, c, m, s, v, i);
        if found {
          return;
        }
        row := down[row];
        i := i + 1;
      }
      if i < |xs| {
        ColumnWalks(m, s, n, v, c, i);
      }
      found, picks := false, [];
    }

    /** One turn of the loop of `solve`: choose `row`, search on, and take the choice back if that fails. */
    method TryRow(row: nat, ghost c: nat, ghost m: Matrix, ghost s: Store, ghost v: View, ghost i: nat)
      returns (found: bool, ghost picks: seq<nat>)
      requires Arrays() && Regular(m, s, n, v) && c in v.heads && i < |v.List(c)| && row == v.List(c)[i]
      requires Links() == Covering.Cover(m, s, v, c)
      modifies left, right, up, down, size, this`stack
      ensures found ==> stack == old(stack) + picks
      ensures found ==> IsSolution(m, Elements(v.heads), picks)
      ensures found ==> InBounds(Links(), n) && RowsLinked(m, Links(), n)
      ensures !found ==> !HasExactCover(m.RowSets(), Elements(v.heads) - m.Columns(m.RowOf(row)))
      ensures !found ==> Links() == old(Links()) && stack == old(stack)
      decreases Elements(v.heads), 0
    {
      RowOpens(m, s, n, v, c, i);
      ghost var s1, v1 := Links(), CoverView(m, v, c);
      stack := stack + [row];
      CoverRow(row, m, v1);
      ghost var rest;
      found, rest := Solve(m, RowCover(m, s1, v1, row, |m.Rest(row)|).1);
      picks := [row] + rest;
      if found {
        CoverFound(m, Elements(v.heads), c, row, rest);
        PushThenAppend(old(stack), row, rest);
        return;
      }
      stack := stack[..|stack| - 1];
      UncoverRow(row, m, s1, v1);
    }
  }

  lemma PushThenAppend(a: seq<nat>, x: nat, b: seq<nat>)
    ensures (a + [x]) + b == a + ([x] + b)
  {}

  lemma RegularHeads(m: Matrix, s: Store, n: nat, v: View)
    requires Regular(m, s, n, v)
    ensures InBounds(s, n) && RowsLinked(m, s, n) && Ring(s.right, s.left, ROOT, v.heads) && m.Valid()
    ensures s.left[ROOT] == ROOT <==> v.heads == []
  {}

  /** The covered column can be walked downwards. */
  lemma ColumnWalks(m: Matrix, s: Store, n: nat, v: View, c: nat, i: int)
    requires Regular(m, s, n, v) && c in v.heads && -1 <= i < |v.List(c)|
    ensures var u := Covering.Cover(m, s, v, c);
      && c < n && |u.down| == n && At(v.List(c), i, c) < n
      && (At(v.List(c), i, c) == c <==> i == -1)
      && u.down[At(v.List(c), i, c)] == At(v.List(c), i + 1, c)
  {
    PartCoverWalks(m, s, n, v, c, |v.List(c)|);
    RingStep(Covering.Cover(m, s, v, c).down, Covering.Cover(m, s, v, c).up, c, v.List(c), i);
  }

  lemma RowIsCandidate(m: Matrix, s: Store, n: nat, v: View, c: nat, i: nat)
    requires Regular(m, s, n, v) && c in v.heads && i < |v.List(c)|
    ensures m.Valid() && v.List(c)[i] in m.row && m.Col(v.List(c)[i]) == c
    ensures IsCandidate(m.RowSets(), Elements(v.heads), c, m.RowOf(v.List(c)[i]))
  {
    var x := v.List(c)[i];
    assert Column(m, s, n, c, v.List(c));
    assert x in v.List(c);
    m.ColumnInRow(x);
  }

  lemma RestIsOpen(m: Matrix, open: set<nat>, v: View, c: nat, x: nat)
    requires m.Valid() && x in m.row && m.Col(x) == c && Elements(v.heads) == open - {c}
    requires m.Columns(m.RowOf(x)) <= open
    ensures AllOpen(v, RestColumns(m, x))
    ensures Elements(v.heads) - Elements(RestColumns(m, x)) == open - m.Columns(m.RowOf(x))
  {
    RestColumnsOpen(m, v, x);
    var cs := RestColumns(m, x);
    forall k | 0 <= k < |cs| ensures cs[k] in v.heads {
      assert cs[k] in Elements(cs);
      assert cs[k] in Elements(v.heads);
    }
  }

  /** Trying a row of the column leaves exactly the columns that row does not meet. */
  lemma RowOpens(m: Matrix, s: Store, n: nat, v: View, c: nat, i: nat)
    requires Regular(m, s, n, v) && c in v.heads && i < |v.List(c)|
    ensures var x, s1, v1 := v.List(c)[i], Covering.Cover(m, s, v, c), CoverView(m, v, c);
      && x in m.row && IsCandidate(m.RowSets(), Elements(v.heads), c, m.RowOf(x))
      && Regular(m, s1, n, v1) && AllOpen(v1, RestColumns(m, x))
      && var r := RowCover(m, s1, v1, x, |m.Rest(x)|);
      && Regular(m, r.0, n, r.1)
      && Elements(r.1.heads) == Elements(v.heads) - m.Columns(m.RowOf(x))
      && Elements(r.1.heads) < Elements(v.heads)
  {
    var x, v1 := v.List(c)[i], CoverView(m, v, c);
    RowIsCandidate(m, s, n, v, c, i);
    CoverKeepsRegular(m, s, n, v, c);
    RestIsOpen(m, Elements(v.heads), v1, c, x);
    CoverManyRegular(m, Covering.Cover(m, s, v, c), n, v1, RestColumns(m, x));
    RowCoverEnds(m, Covering.Cover(m, s, v, c), v1, x);
  }

  lemma CoverFound(m: Matrix, open: set<nat>, c: nat, x: nat, rest: seq<nat>)
    requires x in m.row && IsCandidate(m.RowSets(), open, c, m.RowOf(x))
    requires IsSolution(m, open - m.Columns(m.RowOf(x)), rest)
    ensures IsSolution(m, open, [x] + rest)
  {
    var picks := [x] + rest;
    ExtendCover(m.RowSets(), open, c, m.RowOf(x), RowsOf(m, rest));
    assert RowsOf(m, picks) == {m.RowOf(x)} + RowsOf(m, rest) by {
      forall q | q in RowsOf(m, picks) ensures q in {m.RowOf(x)} + RowsOf(m, rest) {
        var k :| 0 <= k < |picks| && m.RowOf(picks[k]) == q;
        assert k > 0 ==> rest[k - 1] == picks[k];
      }
      assert picks[0] == x;
      forall q | q in RowsOf(m, rest) ensures q in RowsOf(m, picks) {
        var k :| 0 <= k < |rest| && m.RowOf(rest[k]) == q;
        assert picks[k + 1] == rest[k];
      }
    }
  }

  /** Every row that could be chosen for the column was one of its nodes, so all were tried. */
  lemma NoCoverLeft(m: Matrix, s: Store, n: nat, v: View, c: nat)
    requires Regular(m, s, n, v) && c in v.heads
    requires Tried(m, Elements(v.heads), v.List(c), |v.List(c)|)
    ensures !HasExactCover(m.RowSets(), Elements(v.heads))
  {
    var rows, open := m.RowSets(), Elements(v.heads);
    BranchOnColumn(rows, open, c);
    forall r: nat | IsCandidate(rows, open, c, r) ensures !HasExactCover(rows, open - rows[r]) {
      var x := m.NodeInColumn(r, c);
      assert x in v.List(c);
    }
  }
}
