/**
 The toroidal link structure of the dancing-links solver, as values: nodes are indices,
 a store holds their links, and rings (the header list, the columns, the rows) are what
 the links form. Also the elementary link updates of the solver and their undoing.
 */
module Links {

  datatype Store = Store(left: seq<nat>, right: seq<nat>, up: seq<nat>, down: seq<nat>,
                         col: seq<nat>, size: seq<int>)

  ghost predicate Below(xs: seq<nat>, n: nat) {
    |xs| == n && forall i :: 0 <= i < n ==> xs[i] < n
  }

  /** The store has `n` nodes and every link leads to one of them. */
  ghost predicate InBounds(s: Store, n: nat) {
    match s case Store(left, right, up, down, col, size) =>
      Below(left, n) && Below(right, n) && Below(up, n) && Below(down, n) && Below(col, n) && |size| == n
  }

  // ---------- the elementary updates ----------

  ghost function Get(xs: seq<nat>, i: nat): nat {
    if i < |xs| then xs[i] else 0
  }

  ghost function Set(xs: seq<nat>, i: nat, x: nat): seq<nat> {
    if i < |xs| then xs[i := x] else xs
  }

  ghost function Add(xs: seq<int>, i: nat, d: int): seq<int> {
    if i < |xs| then xs[i := xs[i] + d] else xs
  }

  /** Take node `j` out of its column: its neighbours bypass it, its own links stay. */
  ghost function Unlink(s: Store, j: nat): Store {
    var u := Set(s.up, Get(s.down, j), Get(s.up, j));
    s.(up := u, down := Set(s.down, Get(u, j), Get(s.down, j)), size := Add(s.size, Get(s.col, j), -1))
  }

  /** Put node `j` back between the neighbours its own links still name. */
  ghost function Relink(s: Store, j: nat): Store {
    var u := Set(s.up, Get(s.down, j), j);
    s.(up := u, down := Set(s.down, Get(u, j), j), size := Add(s.size, Get(s.col, j), 1))
  }

  /** Take header `c` out of the header list. */
  ghost function UnlinkHeader(s: Store, c: nat): Store {
    var l := Set(s.left, Get(s.right, c), Get(s.left, c));
    s.(left := l, right := Set(s.right, Get(l, c), Get(s.right, c)))
  }

  ghost function RelinkHeader(s: Store, c: nat): Store {
    var l := Set(s.left, Get(s.right, c), c);
    s.(left := l, right := Set(s.right, Get(l, c), c))
  }

  lemma UnlinkInBounds(s: Store, n: nat, j: nat)
    requires InBounds(s, n) && j < n
    ensures InBounds(Unlink(s, j), n) && InBounds(Relink(s, j), n)
  {}

  lemma UnlinkHeaderInBounds(s: Store, n: nat, c: nat)
    requires InBounds(s, n) && c < n
    ensures InBounds(UnlinkHeader(s, c), n) && InBounds(RelinkHeader(s, c), n)
  {}

  lemma RelinkUndoesUnlink(s: Store, n: nat, j: nat)
    requires InBounds(s, n) && j < n
    requires s.down[s.up[j]] == j && s.up[s.down[j]] == j
    ensures Relink(Unlink(s, j), j) == s
  {
  }

  lemma RelinkUndoesUnlinkHeader(s: Store, n: nat, c: nat)
    requires InBounds(s, n) && c < n
    requires s.right[s.left[c]] == c && s.left[s.right[c]] == c
    ensures RelinkHeader(UnlinkHeader(s, c), c) == s
  {
  }

  lemma SplitLast(t: seq<nat>)
    requires t != []
    ensures t == t[..|t| - 1] + [t[|t| - 1]]
  {}

  /** Unlink the nodes of `t`, first to last. */
  ghost function UnlinkAll(s: Store, t: seq<nat>): Store {
    if t == [] then s else Unlink(UnlinkAll(s, t[..|t| - 1]), t[|t| - 1])
  }

  /** Relink the nodes of `t`, last to first. */
  ghost function RelinkAll(s: Store, t: seq<nat>): Store
    decreases |t|
  {
    if t == [] then s else RelinkAll(Relink(s, t[|t| - 1]), t[..|t| - 1])
  }

  lemma {:induction false} UnlinkAllFrame(s: Store, n: nat, t: seq<nat>)
    requires InBounds(s, n) && forall i :: 0 <= i < |t| ==> t[i] < n
    ensures InBounds(UnlinkAll(s, t), n)
    ensures UnlinkAll(s, t).left == s.left && UnlinkAll(s, t).right == s.right && UnlinkAll(s, t).col == s.col
  {
    if t != [] {
      UnlinkAllFrame(s, n, t[..|t| - 1]);
      UnlinkInBounds(UnlinkAll(s, t[..|t| - 1]), n, t[|t| - 1]);
    }
  }

  lemma {:induction false} UnlinkAllAppend(s: Store, t: seq<nat>, t': seq<nat>)
    ensures UnlinkAll(s, t + t') == UnlinkAll(UnlinkAll(s, t), t')
  {
    if t' == [] {
      assert t + t' == t;
    } else {
      UnlinkAllAppend(s, t, t'[..|t'| - 1]);
      ConcatLast(t, t');
    }
  }

  lemma ConcatLast(t: seq<nat>, t': seq<nat>)
    requires t' != []
    ensures |t + t'| > 0 && (t + t')[|t + t'| - 1] == t'[|t'| - 1]
    ensures (t + t')[..|t + t'| - 1] == t + t'[..|t'| - 1]
  {
  }

  // ---------- rings ----------

  /** A position of `x` in `xs`. */
  ghost function Position(xs: seq<nat>, x: nat): int {
    if x in xs then
      var i :| 0 <= i < |xs| && xs[i] == x;
      i
    else -1
  }

  /** No value occurs twice: every element is found at its own position. */
  ghost predicate Distinct(xs: seq<nat>) {
    forall i :: 0 <= i < |xs| ==> Position(xs, xs[i]) == i
  }

  lemma DistinctIff(xs: seq<nat>)
    ensures Distinct(xs) <==> forall i, k :: 0 <= i < k < |xs| ==> xs[i] != xs[k]
  {
  }

  ghost function Elements(xs: seq<nat>): set<nat> {
    set x | x in xs
  }

  /** The element at position `i` of a ring: the list, closed by its head. */
  ghost function At(xs: seq<nat>, i: int, h: nat): nat {
    if 0 <= i < |xs| then xs[i] else h
  }

  ghost function Drop(xs: seq<nat>, k: nat): seq<nat>
    requires k < |xs|
  {
    xs[..k] + xs[k + 1..]
  }

  /** Following `next` from `h` visits exactly `xs`, each once, and returns; `prev` visits it backwards. */
  ghost predicate Ring(next: seq<nat>, prev: seq<nat>, h: nat, xs: seq<nat>) {
    && |next| == |prev| && h < |next| && Distinct(xs)
    && (forall i :: 0 <= i < |xs| ==> xs[i] < |next| && xs[i] != h)
    && next[h] == At(xs, 0, h) && prev[h] == At(xs, |xs| - 1, h)
    && (forall i {:trigger next[xs[i]]} :: 0 <= i < |xs| ==> next[xs[i]] == At(xs, i + 1, h))
    && (forall i {:trigger prev[xs[i]]} :: 0 <= i < |xs| ==> prev[xs[i]] == At(xs, i - 1, h))
  }

  /** One step of a walk round the ring, either way; position -1 and the end are the head. */
  lemma RingStep(next: seq<nat>, prev: seq<nat>, h: nat, xs: seq<nat>, i: int)
    requires Ring(next, prev, h, xs) && -1 <= i <= |xs|
    ensures At(xs, i, h) < |next| && (At(xs, i, h) == h <==> i == -1 || i == |xs|)
    ensures i < |xs| ==> next[At(xs, i, h)] == At(xs, i + 1, h)
    ensures i > -1 ==> prev[At(xs, i, h)] == At(xs, i - 1, h)
  {}

  lemma RingFrame(next: seq<nat>, prev: seq<nat>, next': seq<nat>, prev': seq<nat>, h: nat, xs: seq<nat>)
    requires Ring(next, prev, h, xs) && |next'| == |prev'| == |next|
    requires next'[h] == next[h] && prev'[h] == prev[h]
    requires forall i :: 0 <= i < |xs| ==> next'[xs[i]] == next[xs[i]] && prev'[xs[i]] == prev[xs[i]]
    ensures Ring(next', prev', h, xs)
  {}

  lemma DropElements(xs: seq<nat>, k: nat)
    requires k < |xs| && Distinct(xs)
    ensures Distinct(Drop(xs, k))
    ensures forall n :: n in Drop(xs, k) <==> n in xs && n != xs[k]
    ensures forall i :: 0 <= i < |xs| - 1 ==> Drop(xs, k)[i] == xs[if i < k then i else i + 1]
  {
  }

  /** In a ring the two directions are inverse at every node. */
  lemma RingNeighbours(next: seq<nat>, prev: seq<nat>, h: nat, xs: seq<nat>, k: nat)
    requires Ring(next, prev, h, xs) && k < |xs|
    ensures prev[xs[k]] == At(xs, k - 1, h) && next[xs[k]] == At(xs, k + 1, h)
    ensures prev[xs[k]] < |next| && next[xs[k]] < |next|
    ensures next[prev[xs[k]]] == xs[k] && prev[next[xs[k]]] == xs[k]
  {
  }

  /** Positions of the list without its `k`-th element. */
  lemma DropAt(xs: seq<nat>, k: nat, i: int, h: nat)
    requires k < |xs|
    ensures At(Drop(xs, k), i, h) == if i < k then At(xs, i, h) else At(xs, i + 1, h)
  {}

  lemma BypassAt(next: seq<nat>, prev: seq<nat>, h: nat, xs: seq<nat>, k: nat, i: nat)
    requires Ring(next, prev, h, xs) && k < |xs| && i < |xs| && i != k
    requires prev[xs[k]] < |next| && next[xs[k]] < |next|
    ensures next[prev[xs[k]] := next[xs[k]]][xs[i]] == if i + 1 == k then At(xs, i + 2, h) else At(xs, i + 1, h)
    ensures prev[next[xs[k]] := prev[xs[k]]][xs[i]] == if i - 1 == k then At(xs, i - 2, h) else At(xs, i - 1, h)
  {}

  lemma BypassDropAt(next: seq<nat>, prev: seq<nat>, h: nat, xs: seq<nat>, k: nat, i: nat)
    requires Ring(next, prev, h, xs) && k < |xs| && i < |xs| - 1
    requires prev[xs[k]] < |next| && next[xs[k]] < |next|
    ensures var ys := Drop(xs, k);
      && ys[i] < |next| && ys[i] != h
      && next[prev[xs[k]] := next[xs[k]]][ys[i]] == At(ys, i + 1, h)
      && prev[next[xs[k]] := prev[xs[k]]][ys[i]] == At(ys, i - 1, h)
  {
    BypassAt(next, prev, h, xs, k, if i < k then i else i + 1);
    DropAt(xs, k, i + 1, h);
    DropAt(xs, k, i - 1, h);
  }

  /** Bypassing the `k`-th node shortens the ring by exactly this node. */
  lemma BypassShortensRing(next: seq<nat>, prev: seq<nat>, h: nat, xs: seq<nat>, k: nat)
    requires Ring(next, prev, h, xs) && k < |xs|
    requires prev[xs[k]] < |next| && next[xs[k]] < |next|
    ensures Ring(next[prev[xs[k]] := next[xs[k]]], prev[next[xs[k]] := prev[xs[k]]], h, Drop(xs, k))
  {
    BypassElements(next, prev, h, xs, k);
    BypassEnds(next, prev, h, xs, k);
    DropElements(xs, k);
  }

  lemma BypassElements(next: seq<nat>, prev: seq<nat>, h: nat, xs: seq<nat>, k: nat)
    requires Ring(next, prev, h, xs) && k < |xs|
    requires prev[xs[k]] < |next| && next[xs[k]] < |next|
    ensures var ys, next', prev' := Drop(xs, k), next[prev[xs[k]] := next[xs[k]]], prev[next[xs[k]] := prev[xs[k]]];
      && (forall i :: 0 <= i < |ys| ==> ys[i] < |next| && ys[i] != h)
      && (forall i {:trigger next'[ys[i]]} :: 0 <= i < |ys| ==> next'[ys[i]] == At(ys, i + 1, h))
      && (forall i {:trigger prev'[ys[i]]} :: 0 <= i < |ys| ==> prev'[ys[i]] == At(ys, i - 1, h))
  {
    var ys, next', prev' := Drop(xs, k), next[prev[xs[k]] := next[xs[k]]], prev[next[xs[k]] := prev[xs[k]]];
    forall i | 0 <= i < |ys| ensures ys[i] < |next| && ys[i] != h {
      BypassDropAt(next, prev, h, xs, k, i);
    }
    forall i {:trigger next'[ys[i]]} | 0 <= i < |ys| ensures next'[ys[i]] == At(ys, i + 1, h) {
      BypassDropAt(next, prev, h, xs, k, i);
    }
    forall i {:trigger prev'[ys[i]]} | 0 <= i < |ys| ensures prev'[ys[i]] == At(ys, i - 1, h) {
      BypassDropAt(next, prev, h, xs, k, i);
    }
  }

  lemma BypassEnds(next: seq<nat>, prev: seq<nat>, h: nat, xs: seq<nat>, k: nat)
    requires Ring(next, prev, h, xs) && k < |xs|
    requires prev[xs[k]] < |next| && next[xs[k]] < |next|
    ensures next[prev[xs[k]] := next[xs[k]]][h] == At(Drop(xs, k), 0, h)
    ensures prev[next[xs[k]] := prev[xs[k]]][h] == At(Drop(xs, k), |xs| - 2, h)
  {
    DropAt(xs, k, 0, h);
    DropAt(xs, k, |xs| - 2, h);
    RingStep(next, prev, h, xs, k);
  }
}
