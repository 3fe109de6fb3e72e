/** What following `next` from a node finds, on rings and on heaps with arbitrary pointers. */
module Walk {
  import opened Links

  predicate Stays(h: Heap, x: Node) {
    On(h, x) ==> On(h, h.next[x]) && On(h, h.prev[x])
  }

  /** Every pointer of the heap leads to a node of the heap; the pointers may be wrong otherwise. */
  ghost predicate Closed(h: Heap) {
    h.next.Keys == h.prev.Keys && forall x {:trigger Stays(h, x)} :: Stays(h, x)
  }

  /** start lies on a ring: its `next`-orbit is a cycle on which `prev` inverts `next`. */
  ghost predicate OnRing(h: Heap, start: Node) {
    exists c :: Cycle(h, c) && c[0] == start
  }

  /** Nothing more than that no pointer dangles makes a heap closed. */
  lemma NoneDangles(h: Heap)
    requires h.next.Keys == h.prev.Keys && h.next.Values + h.prev.Values <= h.next.Keys
    ensures Closed(h)
  {
    forall x ensures Stays(h, x) {
      if On(h, x) {
        assert h.next[x] in h.next.Values && h.prev[x] in h.prev.Values;
        assert h.next[x] in h.next.Keys && h.next[x] in h.prev.Keys && h.prev[x] in h.next.Keys && h.prev[x] in h.prev.Keys;
      }
    }
  }

  /** A node is on a ring exactly when some walk along `next` leads back to it, and `prev` takes every step
      of the walk back. */
  lemma OnRingMeans(h: Heap, start: Node)
    ensures OnRing(h, start) <==>
      exists w: seq<Node> ::
        && w != [] && w[0] == start
        && (forall i | 0 <= i < |w| :: w[i] in h.next && w[i] in h.prev)
        && (forall i | 0 <= i < |w| - 1 :: h.next[w[i]] == w[i + 1] && h.prev[w[i + 1]] == w[i])
        && h.next[w[|w| - 1]] == start && h.prev[start] == w[|w| - 1]
  {
    if c :| Cycle(h, c) && c[0] == start {
      CycleMeans(h, c);
    }
    if w: seq<Node> :|
        && w != [] && w[0] == start
        && (forall i | 0 <= i < |w| :: w[i] in h.next && w[i] in h.prev)
        && (forall i | 0 <= i < |w| - 1 :: h.next[w[i]] == w[i + 1] && h.prev[w[i + 1]] == w[i])
        && h.next[w[|w| - 1]] == start && h.prev[start] == w[|w| - 1] {
      forall i: nat | i + 1 < |w| ensures Adjacent(h, w, i) { assert h.next[w[i]] == w[i + 1]; }
      FirstReturn(h, w, 0);
    }
  }

  /** Follow the walk until it first comes back. */
  lemma {:induction false} FirstReturn(h: Heap, w: seq<Node>, k: nat)
    requires k < |w| && Chain(h, w[..k + 1]) && Linked(h, w) && Link(h, Last(w), w[0])
    ensures OnRing(h, w[0])
    decreases |w| - k
  {
    var v := w[..k + 1];
    if k + 1 == |w| {
      assert v == w;
    } else if w[k + 1] == w[0] {
      assert Adjacent(h, w, k);
      assert Cycle(h, v);
    } else {
      assert Adjacent(h, w, k);
      NotMetBefore(h, v, w[k + 1]);
      ChainJoin(h, v, [w[k + 1]]);
      assert w[..k + 2] == v + [w[k + 1]];
      FirstReturn(h, w, k + 1);
    }
  }

  /** The element after c[i] on a ring, its sentinel's turn included. */
  lemma NextOnCycle(h: Heap, c: seq<Node>, i: nat)
    requires Cycle(h, c) && i < |c|
    ensures var j := if i + 1 < |c| then i + 1 else 0; Link(h, c[i], c[j])
  {
    if i + 1 < |c| { assert Adjacent(h, c, i); }
  }

  lemma PrevOnCycle(h: Heap, c: seq<Node>, i: nat)
    requires Cycle(h, c) && i < |c|
    ensures var j := if i == 0 then |c| - 1 else i - 1; Link(h, c[j], c[i])
  {
    if i > 0 { assert Adjacent(h, c, i - 1); }
  }

  /** A chain that starts where a ring is read from runs along the ring. */
  lemma StaysOnCycle(h: Heap, c: seq<Node>, v: seq<Node>)
    requires Cycle(h, c) && v != [] && Linked(h, v) && v[0] == c[0]
    ensures Last(v) in c
  {
    if |v| == 1 {
    } else {
      var u := v[..|v| - 1];
      assert v == u + [Last(v)];
      LinkedJoin(h, u, [Last(v)]);
      StaysOnCycle(h, c, u);
      var i :| 0 <= i < |c| && c[i] == Last(u);
      NextOnCycle(h, c, i);
    }
  }

  /** A walk that has passed so far can follow both pointers of the node it is at: on a closed heap, and
      on any heap from a node of a ring. */
  lemma CanLook(h: Heap, v: seq<Node>)
    requires Chain(h, v) && (Closed(h) || OnRing(h, v[0]))
    ensures var x := Last(v); On(h, x) && On(h, h.next[x]) && On(h, h.prev[x])
  {
    assert Last(v) in v;
    if Closed(h) {
      assert Stays(h, Last(v));
    } else {
      var c :| Cycle(h, c) && c[0] == v[0];
      StaysOnCycle(h, c, v);
      var i :| 0 <= i < |c| && c[i] == Last(v);
      NextOnCycle(h, c, i);
      PrevOnCycle(h, c, i);
    }
  }

  /** The walk's two assertions at a node. */
  predicate NextReturns(h: Heap, x: Node) {
    On(h, x) && On(h, h.next[x]) && h.prev[h.next[x]] == x
  }

  predicate PrevReturns(h: Heap, x: Node) {
    On(h, x) && On(h, h.prev[x]) && h.next[h.prev[x]] == x
  }

  /** A node that fails either assertion of the consistency walk is on no ring. */
  lemma FailedCheck(h: Heap, v: seq<Node>)
    requires v != [] && Linked(h, v)
    requires !NextReturns(h, Last(v)) || !PrevReturns(h, Last(v))
    ensures !OnRing(h, v[0])
  {
    if c :| Cycle(h, c) && c[0] == v[0] {
      StaysOnCycle(h, c, v);
      var i :| 0 <= i < |c| && c[i] == Last(v);
      NextOnCycle(h, c, i);
      PrevOnCycle(h, c, i);
    }
  }

  /** The first node met twice can only be the start: any other has had its `prev` checked to be
      the node that led to it the first time. */
  lemma NotMetBefore(h: Heap, v: seq<Node>, x: Node)
    requires Chain(h, v) && Link(h, Last(v), x) && x != v[0]
    ensures x !in v
  {
    EndsDiffer(v);
    forall i | 0 <= i < |v| ensures v[i] != x {
      if i > 0 { assert Adjacent(h, v, i - 1); }
    }
  }

  /** The second assertion never decides: a walk whose nodes all pass the first and that returns to
      its start has passed the second everywhere. */
  lemma SecondCheckRedundant(h: Heap, v: seq<Node>)
    requires Chain(h, v) && NextReturns(h, Last(v)) && h.next[Last(v)] == v[0]
    ensures forall x | x in v :: x in h.prev && h.prev[x] in h.next && h.next[h.prev[x]] == x
  {
    forall x | x in v ensures PrevReturns(h, x) {
      var i :| 0 <= i < |v| && v[i] == x;
      PrevOnCycle(h, v, i);
    }
  }

  /** A heap determines the contents of a ring. */
  lemma RingUnique(h: Heap, s: Node, xs: seq<Node>, ys: seq<Node>)
    requires Ring(h, s, xs) && Ring(h, s, ys)
    ensures xs == ys
  {
    var c, d := [s] + xs, [s] + ys;
    if |c| <= |d| { CycleUnique(h, c, d); } else { CycleUnique(h, d, c); }
    assert c[1..] == xs && d[1..] == ys;
  }

  lemma CycleUnique(h: Heap, c: seq<Node>, d: seq<Node>)
    requires Cycle(h, c) && Cycle(h, d) && c[0] == d[0] && |c| <= |d|
    ensures c == d
  {
    var i := 1;
    while i < |c|
      invariant 1 <= i <= |c|
      invariant c[..i] == d[..i]
    {
      assert c[i - 1] == c[..i][i - 1] == d[..i][i - 1] == d[i - 1];
      NextOnCycle(h, c, i - 1);
      NextOnCycle(h, d, i - 1);
      assert c[..i + 1] == c[..i] + [c[i]] && d[..i + 1] == d[..i] + [d[i]];
      i := i + 1;
    }
    EndsDiffer(d);
    assert c[|c| - 1] == c[..i][|c| - 1] == d[|c| - 1];
    NextOnCycle(h, c, |c| - 1);
    NextOnCycle(h, d, |c| - 1);
    assert c == c[..i];
  }
}
