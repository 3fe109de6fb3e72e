/** The pointer assignments of the ring macros, and the laws they obey on chains and rings.
    Every macro reads the pointers it needs before it overwrites them, so each is a function of
    the heap before the call; class Memory performs the assignments one at a time. */
module Splice {
  import opened Links

  /** Every macro only overwrites pointers that exist. */
  predicate SameNodes(h: Heap, h': Heap) {
    h'.next.Keys == h.next.Keys && h'.prev.Keys == h.prev.Keys
  }

  function SelfLink(h: Heap, x: Node): (h': Heap)
    requires On(h, x)
    ensures SameNodes(h, h')
  {
    Heap(h.next[x := x], h.prev[x := x])
  }

  function SpliceBefore(h: Heap, lep: Node, ep1: Node, epN: Node): (h': Heap)
    requires On(h, lep) && On(h, h.prev[lep]) && On(h, ep1) && On(h, epN)
    ensures SameNodes(h, h')
  {
    var p := h.prev[lep];
    Heap(h.next[epN := lep][p := ep1], h.prev[ep1 := p][lep := epN])
  }

  function SpliceAfter(h: Heap, lep: Node, ep1: Node, epN: Node): (h': Heap)
    requires On(h, lep) && On(h, h.next[lep]) && On(h, ep1) && On(h, epN)
    ensures SameNodes(h, h')
  {
    var q := h.next[lep];
    Heap(h.next[epN := q][lep := ep1], h.prev[ep1 := lep][q := epN])
  }

  function Unsplice(h: Heap, ep1: Node, epN: Node): (h': Heap)
    requires On(h, ep1) && On(h, epN) && On(h, h.prev[ep1]) && On(h, h.next[epN])
    ensures SameNodes(h, h')
  {
    var p, q := h.prev[ep1], h.next[epN];
    Heap(h.next[p := q], h.prev[q := p])
  }

  predicate IsEmpty(h: Heap, s: Node)
    requires On(h, s)
  {
    h.next[s] == s
  }

  function Concat(h: Heap, s1: Node, s2: Node): (h': Heap)
    requires On(h, s1) && On(h, s2) && On(h, h.prev[s1]) && On(h, h.next[s2]) && On(h, h.prev[s2])
    ensures SameNodes(h, h')
  {
    if IsEmpty(h, s2) then h else SelfLink(SpliceBefore(h, s1, h.next[s2], h.prev[s2]), s2)
  }

  function Prepend(h: Heap, s1: Node, s2: Node): (h': Heap)
    requires On(h, s1) && On(h, s2) && On(h, h.next[s1]) && On(h, h.next[s2]) && On(h, h.prev[s2])
    ensures SameNodes(h, h')
  {
    if IsEmpty(h, s2) then h else SelfLink(SpliceAfter(h, s1, h.next[s2], h.prev[s2]), s2)
  }

  // ---- Mirror laws ----

  lemma MirrorSplice(h: Heap, lep: Node, ep1: Node, epN: Node)
    requires On(h, lep) && On(h, h.next[lep]) && On(h, ep1) && On(h, epN)
    ensures SpliceAfter(h, lep, ep1, epN) == Mirror(SpliceBefore(Mirror(h), lep, epN, ep1))
  {
  }

  lemma MirrorUnsplice(h: Heap, ep1: Node, epN: Node)
    requires On(h, ep1) && On(h, epN) && On(h, h.prev[ep1]) && On(h, h.next[epN])
    ensures Unsplice(h, ep1, epN) == Mirror(Unsplice(Mirror(h), epN, ep1))
  {
  }

  /** Splicing before a node is splicing after its predecessor, heap for heap. */
  lemma BeforeIsAfterPrev(h: Heap, p: Node, lep: Node, ep1: Node, epN: Node)
    requires Link(h, p, lep) && On(h, ep1) && On(h, epN)
    requires ep1 != lep && epN != p
    ensures SpliceBefore(h, lep, ep1, epN) == SpliceAfter(h, p, ep1, epN)
  {
  }

  // ---- Splicing into a ring ----

  /** A chain spliced before the node a ring is read from ends up last. */
  lemma SpliceAtEnd(h: Heap, xs: seq<Node>, d: seq<Node>)
    requires Cycle(h, xs) && Chain(h, d) && Disjoint(xs, d)
    ensures Cycle(SpliceBefore(h, xs[0], d[0], Last(d)), xs + d)
  {
    var h' := SpliceBefore(h, xs[0], d[0], Last(d));
    EndsDiffer(xs);
    EndsDiffer(d);
    assert (forall i | 0 <= i < |xs| :: xs[i] in xs) && d[0] in d && Last(d) in d;
    assert (forall i | 0 <= i < |d| :: d[i] in d) && xs[0] in xs && Last(xs) in xs;
    ChainFrame(h, h', xs);
    ChainFrame(h, h', d);
    ChainJoin(h', xs, d);
  }

  /** SPLICE_BEFORE at any position of a ring, the sentinel's included: a + b is cut before b[0]. */
  lemma SpliceBeforeRing(h: Heap, a: seq<Node>, b: seq<Node>, d: seq<Node>)
    requires b != [] && Cycle(h, a + b) && Chain(h, d) && Disjoint(a + b, d)
    ensures Cycle(h, b + a) && (b + a)[0] == b[0]
    ensures Cycle(SpliceBefore(h, b[0], d[0], Last(d)), a + d + b)
  {
    Rotate(h, a, b);
    SpliceAtEnd(h, b + a, d);
    assert b + a + d == b + (a + d);
    Rotate(SpliceBefore(h, b[0], d[0], Last(d)), b, a + d);
  }

  /** SPLICE_AFTER at any position of a ring: a + b is cut after the last node of a. */
  lemma SpliceAfterRing(h: Heap, a: seq<Node>, b: seq<Node>, d: seq<Node>)
    requires a != [] && Cycle(h, a + b) && Chain(h, d) && Disjoint(a + b, d)
    ensures Cycle(h, b + a) && Last(b + a) == Last(a)
    ensures Cycle(SpliceAfter(h, Last(a), d[0], Last(d)), a + d + b)
  {
    Rotate(h, a, b);
    var c := b + a;
    BeforeIsAfterPrev(h, Last(c), c[0], d[0], Last(d));
    SpliceAtEnd(h, c, d);
    assert b + a + d == b + (a + d);
    Rotate(SpliceAfter(h, Last(c), d[0], Last(d)), b, a + d);
  }

  /** SPLICE_BEFORE the first element is SPLICE_HEAD, and SPLICE_AFTER the last is SPLICE_TAIL. */
  lemma SpliceAtTheEnds(h: Heap, s: Node, xs: seq<Node>, d: seq<Node>)
    requires Ring(h, s, xs) && xs != [] && Chain(h, d) && Disjoint([s] + xs, d)
    ensures Link(h, s, xs[0]) && Link(h, Last(xs), s)
    ensures SpliceBefore(h, xs[0], d[0], Last(d)) == SpliceAfter(h, s, d[0], Last(d))
    ensures SpliceAfter(h, Last(xs), d[0], Last(d)) == SpliceBefore(h, s, d[0], Last(d))
  {
    EndsOfRing(h, s, xs);
    assert s in [s] + xs && xs[0] in xs && Last(xs) in xs && d[0] in d && Last(d) in d;
    BeforeIsAfterPrev(h, s, xs[0], d[0], Last(d));
    BeforeIsAfterPrev(h, Last(xs), s, d[0], Last(d));
  }

  // ---- Unsplicing ----

  lemma UnspliceFront(h: Heap, d: seq<Node>, xs: seq<Node>)
    requires d != [] && xs != [] && Cycle(h, d + xs)
    ensures Link(h, Last(xs), d[0]) && Link(h, Last(d), xs[0])
    ensures Cycle(Unsplice(h, d[0], Last(d)), xs) && Chain(Unsplice(h, d[0], Last(d)), d)
  {
    ChainJoin(h, d, xs);
    assert Last(d + xs) == Last(xs);
    var h' := Unsplice(h, d[0], Last(d));
    EndsDiffer(xs);
    EndsDiffer(d);
    assert (forall i | 0 <= i < |d| :: d[i] in d) && xs[0] in xs && Last(xs) in xs;
    ChainFrame(h, h', d);
    ChainFrame(h, h', xs);
  }

  /** UNSPLICE takes out exactly the named segment and leaves it a chain. */
  lemma UnspliceRing(h: Heap, a: seq<Node>, d: seq<Node>, b: seq<Node>)
    requires d != [] && a + b != [] && Cycle(h, a + d + b)
    ensures Link(h, Last(b + a), d[0]) && Link(h, Last(d), (b + a)[0])
    ensures Cycle(Unsplice(h, d[0], Last(d)), a + b) && Chain(Unsplice(h, d[0], Last(d)), d)
  {
    assert a + d + b == a + (d + b);
    Rotate(h, a, d + b);
    assert d + b + a == d + (b + a);
    assert b + a != [] by { assert |b + a| == |a + b|; }
    UnspliceFront(h, d, b + a);
    Rotate(Unsplice(h, d[0], Last(d)), b, a);
  }

  /** Unsplicing a whole headless ring changes nothing. */
  lemma UnspliceWhole(h: Heap, c: seq<Node>)
    requires Cycle(h, c)
    ensures Unsplice(h, c[0], Last(c)) == h
  {
  }

  /** UNSPLICE changes nothing exactly when the two outer neighbours of the segment already skip it. */
  lemma UnspliceNothing(h: Heap, ep1: Node, epN: Node)
    requires On(h, ep1) && On(h, epN) && On(h, h.prev[ep1]) && On(h, h.next[epN])
    ensures Unsplice(h, ep1, epN) == h
            <==> h.next[h.prev[ep1]] == h.next[epN] && h.prev[h.next[epN]] == h.prev[ep1]
  {
    var u := Unsplice(h, ep1, epN);
    assert u.next[h.prev[ep1]] == h.next[epN] && u.prev[h.next[epN]] == h.prev[ep1];
  }

  /** A ring survives an UNSPLICE of anything exactly when the written pointers that are its own
      already have the written values. */
  lemma RingSurvives(h: Heap, c: seq<Node>, ep1: Node, epN: Node)
    requires Cycle(h, c) && On(h, ep1) && On(h, epN) && On(h, h.prev[ep1]) && On(h, h.next[epN])
    ensures var p, q := h.prev[ep1], h.next[epN];
            Cycle(Unsplice(h, ep1, epN), c) <==> (p in c ==> h.next[p] == q) && (q in c ==> h.prev[q] == p)
  {
    var p, q, h' := h.prev[ep1], h.next[epN], Unsplice(h, ep1, epN);
    assert forall i | 0 <= i < |c| :: c[i] in c;
    if (p in c ==> h.next[p] == q) && (q in c ==> h.prev[q] == p) {
      ChainFrame(h, h', c);
      assert Last(c) in c;
    }
    if Cycle(h', c) {
      if p in c { SameNeighbours(h, h', c, p); }
      if q in c { SameNeighbours(h, h', c, q); }
    }
  }

  /** The same for a chain, whose own pointers are those inside it. */
  lemma ChainSurvives(h: Heap, c: seq<Node>, ep1: Node, epN: Node)
    requires Chain(h, c) && On(h, ep1) && On(h, epN) && On(h, h.prev[ep1]) && On(h, h.next[epN])
    ensures var p, q := h.prev[ep1], h.next[epN];
            Chain(Unsplice(h, ep1, epN), c) <==>
            (p in c && p != Last(c) ==> h.next[p] == q) && (q in c && q != c[0] ==> h.prev[q] == p)
  {
    var p, q, h' := h.prev[ep1], h.next[epN], Unsplice(h, ep1, epN);
    if (p in c && p != Last(c) ==> h.next[p] == q) && (q in c && q != c[0] ==> h.prev[q] == p) {
      EndsDiffer(c);
      forall i: nat | i + 1 < |c| ensures Adjacent(h', c, i) {
        assert Adjacent(h, c, i) && c[i] in c && c[i + 1] in c;
        assert Differ(c, i, |c| - 1);
      }
    }
    if Chain(h', c) {
      if p in c && p != Last(c) {
        var i :| 0 <= i < |c| && c[i] == p;
        assert Adjacent(h, c, i) && Adjacent(h', c, i);
      }
      if q in c && q != c[0] {
        var i :| 0 <= i < |c| && c[i] == q;
        assert Adjacent(h, c, i - 1) && Adjacent(h', c, i - 1);
      }
    }
  }

  /** Two heaps with the same ring agree on its pointers. */
  lemma SameNeighbours(h: Heap, h': Heap, c: seq<Node>, x: Node)
    requires Cycle(h, c) && Cycle(h', c) && x in c
    ensures On(h, x) && On(h', x) && h'.next[x] == h.next[x] && h'.prev[x] == h.prev[x]
  {
    var i :| 0 <= i < |c| && c[i] == x;
    if i + 1 < |c| { assert Adjacent(h, c, i) && Adjacent(h', c, i); }
    if i > 0 { assert Adjacent(h, c, i - 1) && Adjacent(h', c, i - 1); }
  }

  /** The pointers of a ring's nodes lead to its nodes. */
  lemma NeighboursOnRing(h: Heap, c: seq<Node>, x: Node)
    requires Cycle(h, c) && x in c
    ensures On(h, x) && h.next[x] in c && h.prev[x] in c && On(h, h.next[x]) && On(h, h.prev[x])
  {
    var i :| 0 <= i < |c| && c[i] == x;
    if i + 1 < |c| { assert Adjacent(h, c, i); }
    if i > 0 { assert Adjacent(h, c, i - 1); }
  }

  // ---- Exact restoration ----

  /** Undoing an UNSPLICE by splicing the segment back before its retained successor restores the
      whole heap exactly when the two outer links of the segment were consistent beforehand. */
  lemma UnspliceThenSplice(h: Heap, ep1: Node, epN: Node)
    requires On(h, ep1) && On(h, epN) && On(h, h.prev[ep1]) && On(h, h.next[epN])
    ensures var u := Unsplice(h, ep1, epN);
            u.next[epN] == h.next[epN] && On(u, u.prev[u.next[epN]]) &&
            (SpliceBefore(u, u.next[epN], ep1, epN) == h
             <==> Link(h, h.prev[ep1], ep1) && Link(h, epN, h.next[epN]))
  {
    var u := Unsplice(h, ep1, epN);
    var p, q := h.prev[ep1], h.next[epN];
    var r := SpliceBefore(u, q, ep1, epN);
    assert r.next[p] == ep1 && r.prev[q] == epN;
    if Link(h, p, ep1) && Link(h, epN, q) {
      assert r.next == h.next && r.prev == h.prev;
    }
  }

  /** Undoing a SPLICE_BEFORE by unsplicing the same segment restores every pointer of the heap
      but the segment's own two outer ones, which stay dangling into the ring. */
  lemma SpliceThenUnsplice(h: Heap, p: Node, lep: Node, ep1: Node, epN: Node)
    requires Link(h, p, lep) && On(h, ep1) && On(h, epN)
    requires ep1 != lep && epN != p
    ensures Unsplice(SpliceBefore(h, lep, ep1, epN), ep1, epN)
         == Heap(h.next[epN := lep], h.prev[ep1 := p])
  {
  }

  // ---- Heads: the documented effect of the ring macros ----

  lemma InitRing(h: Heap, s: Node)
    requires On(h, s)
    ensures Ring(SelfLink(h, s), s, [])
  {
    assert [s] + [] == [s];
  }

  lemma EmptyIffNoContents(h: Heap, s: Node, xs: seq<Node>)
    requires Ring(h, s, xs)
    ensures On(h, s) && On(h, h.next[s]) && On(h, h.prev[s])
    ensures IsEmpty(h, s) <==> xs == []
  {
    var c := [s] + xs;
    assert c[0] == s && s in c;
    EndsDiffer(c);
    if xs != [] { assert Adjacent(h, c, 0); }
  }

  /** The first and the last element of a ring are its head's `next` and `prev`. */
  lemma EndsOfRing(h: Heap, s: Node, xs: seq<Node>)
    requires Ring(h, s, xs) && xs != []
    ensures Link(h, s, xs[0]) && Link(h, Last(xs), s) && Chain(h, xs) && s !in xs
  {
    ChainJoin(h, [s], xs);
    assert Last([s] + xs) == Last(xs) && s in [s];
  }

  lemma SpliceTailRing(h: Heap, s: Node, xs: seq<Node>, d: seq<Node>)
    requires Ring(h, s, xs) && Chain(h, d) && Disjoint([s] + xs, d)
    ensures On(h, s) && On(h, h.prev[s])
    ensures Ring(SpliceBefore(h, s, d[0], Last(d)), s, xs + d)
  {
    SpliceAtEnd(h, [s] + xs, d);
    assert [s] + xs + d == [s] + (xs + d);
  }

  lemma SpliceHeadRing(h: Heap, s: Node, xs: seq<Node>, d: seq<Node>)
    requires Ring(h, s, xs) && Chain(h, d) && Disjoint([s] + xs, d)
    ensures On(h, s) && On(h, h.next[s])
    ensures Ring(SpliceAfter(h, s, d[0], Last(d)), s, d + xs)
  {
    EmptyIffNoContents(h, s, xs);
    SpliceAfterRing(h, [s], xs, d);
    assert [s] + d + xs == [s] + (d + xs);
  }

  /** UNSPLICE of a segment of a ring leaves the ring of the rest: the empty ring, if that is all. */
  lemma UnspliceFromRing(h: Heap, s: Node, a: seq<Node>, d: seq<Node>, b: seq<Node>)
    requires d != [] && Ring(h, s, a + d + b)
    ensures On(h, d[0]) && On(h, Last(d)) && On(h, h.prev[d[0]]) && On(h, h.next[Last(d)])
    ensures Link(h, h.prev[d[0]], d[0]) && Link(h, Last(d), h.next[Last(d)])
    ensures var h' := Unsplice(h, d[0], Last(d)); Ring(h', s, a + b) && Chain(h', d)
  {
    assert [s] + (a + d + b) == ([s] + a) + d + b;
    UnspliceRing(h, [s] + a, d, b);
    assert [s] + a + b == [s] + (a + b);
  }

  lemma SelfLinkFrame(h: Heap, s: Node, c: seq<Node>)
    requires Cycle(h, c) && On(h, s) && s !in c
    ensures Cycle(SelfLink(h, s), c)
  {
    ChainFrame(h, SelfLink(h, s), c);
  }

  lemma ConcatRings(h: Heap, s1: Node, xs: seq<Node>, s2: Node, ys: seq<Node>)
    requires Ring(h, s1, xs) && Ring(h, s2, ys) && Disjoint([s1] + xs, [s2] + ys)
    ensures On(h, s1) && On(h, s2) && On(h, h.prev[s1]) && On(h, h.next[s2]) && On(h, h.prev[s2])
    ensures Ring(Concat(h, s1, s2), s1, xs + ys) && Ring(Concat(h, s1, s2), s2, [])
  {
    EmptyIffNoContents(h, s1, xs);
    EmptyIffNoContents(h, s2, ys);
    if ys == [] {
      assert xs + ys == xs;
    } else {
      EndsOfRing(h, s2, ys);
      assert forall x | x in ys :: x in [s2] + ys;
      SpliceTailRing(h, s1, xs, ys);
      var g := SpliceBefore(h, s1, ys[0], Last(ys));
      assert s2 in [s2] + ys;
      SelfLinkFrame(g, s2, [s1] + (xs + ys));
      InitRing(g, s2);
    }
  }

  lemma PrependRings(h: Heap, s1: Node, xs: seq<Node>, s2: Node, ys: seq<Node>)
    requires Ring(h, s1, xs) && Ring(h, s2, ys) && Disjoint([s1] + xs, [s2] + ys)
    ensures On(h, s1) && On(h, s2) && On(h, h.next[s1]) && On(h, h.next[s2]) && On(h, h.prev[s2])
    ensures Ring(Prepend(h, s1, s2), s1, ys + xs) && Ring(Prepend(h, s1, s2), s2, [])
  {
    EmptyIffNoContents(h, s1, xs);
    EmptyIffNoContents(h, s2, ys);
    if ys == [] {
      assert ys + xs == xs;
    } else {
      EndsOfRing(h, s2, ys);
      assert forall x | x in ys :: x in [s2] + ys;
      SpliceHeadRing(h, s1, xs, ys);
      var g := SpliceAfter(h, s1, ys[0], Last(ys));
      assert s2 in [s2] + ys;
      SelfLinkFrame(g, s2, [s1] + (ys + xs));
      InitRing(g, s2);
    }
  }

  // ---- Arguments substituted by name ----

  /** REMOVE of the expression APR_RING_FIRST(hp), read again at each use: the first assignment already
      changes what it denotes in the second. */
  function RemoveFirstByName(h: Heap, s: Node): Heap
    requires On(h, s) && On(h, h.next[s]) && On(h, h.next[h.next[s]]) && On(h, h.prev[h.next[s]])
    requires h.prev[h.next[s]] == s
  {
    var next := h.next[h.prev[h.next[s]] := h.next[h.next[s]]];
    Heap(next, h.prev[next[next[s]] := h.prev[next[s]]])
  }

  /** It never leaves a ring, unless there was nothing to remove. */
  lemma RemoveFirstNeedsAValue(h: Heap, s: Node, xs: seq<Node>)
    requires Ring(h, s, xs)
    ensures On(h, s) && On(h, h.next[s]) && h.prev[h.next[s]] == s && On(h, h.next[h.next[s]])
    ensures (exists ys :: Ring(RemoveFirstByName(h, s), s, ys)) <==> xs == []
    ensures RemoveFirstByName(h, s) ==
            if xs == [] then h
            else if |xs| == 1 then Heap(h.next[s := s], h.prev)
            else Heap(h.next[s := xs[1]], h.prev[(if |xs| > 2 then xs[2] else s) := xs[0]])
  {
    EmptyIffNoContents(h, s, xs);
    var c := [s] + xs;
    if xs == [] {
      assert c == [s];
      assert RemoveFirstByName(h, s) == h;
    } else {
      EndsOfRing(h, s, xs);
      if |xs| > 1 { assert Adjacent(h, c, 1); }
      if |xs| > 2 { assert Adjacent(h, c, 2); }
      var h' := RemoveFirstByName(h, s);
      forall ys ensures !Ring(h', s, ys) { NotLinkedBack(h', s, ys); }
    }
  }

  /** REMOVE of the expression APR_RING_LAST(hp), read again at each use. */
  function RemoveLastByName(h: Heap, s: Node): Heap
    requires On(h, s) && On(h, h.prev[s]) && On(h, h.prev[h.prev[s]]) && On(h, h.next[h.prev[s]])
  {
    var next := h.next[h.prev[h.prev[s]] := h.next[h.prev[s]]];
    Heap(next, h.prev[next[h.prev[s]] := h.prev[h.prev[s]]])
  }

  /** There the name goes on meaning the same element: the last one is taken out. */
  lemma RemoveLastIsSafe(h: Heap, s: Node, xs: seq<Node>)
    requires Ring(h, s, xs)
    ensures On(h, s) && On(h, h.prev[s]) && On(h, h.prev[h.prev[s]]) && On(h, h.next[h.prev[s]])
    ensures RemoveLastByName(h, s) == Unsplice(h, h.prev[s], h.prev[s])
    ensures Ring(RemoveLastByName(h, s), s, if xs == [] then [] else xs[..|xs| - 1])
  {
    EmptyIffNoContents(h, s, xs);
    if xs == [] {
      assert [s] + xs == [s];
      assert RemoveLastByName(h, s) == h;
    } else {
      EndsOfRing(h, s, xs);
      assert xs == xs[..|xs| - 1] + [Last(xs)] + [];
      UnspliceFromRing(h, s, xs[..|xs| - 1], [Last(xs)], []);
      assert xs[..|xs| - 1] + [] == xs[..|xs| - 1];
    }
  }

  lemma NotLinkedBack(h: Heap, s: Node, ys: seq<Node>)
    requires On(h, s) && (On(h, h.next[s]) ==> h.prev[h.next[s]] != s)
    ensures !Ring(h, s, ys)
  {
    if Ring(h, s, ys) {
      EmptyIffNoContents(h, s, ys);
      if ys != [] { EndsOfRing(h, s, ys); }
    }
  }

  // ---- Headless rings ----

  /** Splicing a whole headless ring, entered at any of its nodes, into any point of another
      yields the single ring obtained by cutting both and pasting. */
  lemma SpliceHeadless(h: Heap, a: seq<Node>, b: seq<Node>, c: seq<Node>, d: seq<Node>)
    requires b != [] && d != [] && Cycle(h, a + b) && Cycle(h, c + d) && Disjoint(a + b, c + d)
    ensures Cycle(h, b + a) && (b + a)[0] == b[0] && Cycle(h, d + c) && (d + c)[0] == d[0]
    ensures Cycle(SpliceBefore(h, b[0], d[0], Last(d + c)), a + (d + c) + b)
  {
    Rotate(h, c, d);
    SpliceBeforeRing(h, a, b, d + c);
  }

  /** The mirror image: splicing the whole ring in after any node of the other. */
  lemma SpliceHeadlessAfter(h: Heap, a: seq<Node>, b: seq<Node>, c: seq<Node>, d: seq<Node>)
    requires a != [] && d != [] && Cycle(h, a + b) && Cycle(h, c + d) && Disjoint(a + b, c + d)
    ensures Cycle(h, b + a) && Last(b + a) == Last(a) && Cycle(h, d + c) && (d + c)[0] == d[0]
    ensures Cycle(SpliceAfter(h, Last(a), d[0], Last(d + c)), a + (d + c) + b)
  {
    Rotate(h, c, d);
    SpliceAfterRing(h, a, b, d + c);
  }
}
