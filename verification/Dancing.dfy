/** Dancing links: removals undone in reverse order through the removed nodes' own stale pointers. */
module Dancing {
  import opened Links
  import opened Splice
  import opened Macros
  import opened Layout
  import opened RingMemory
  import opened Options

  /** A segment, by its first and its last node. */
  datatype Segment = Segment(first: Node, last: Node)

  /** When its turn comes, each segment hangs consistently in the heap. */
  predicate Removable(h: Heap, segs: seq<Segment>)
    decreases |segs|
  {
    segs == [] ||
    var Segment(a, b) := segs[0];
    && Defined(h, UnspliceAt(a, b)) && Link(h, h.prev[a], a) && Link(h, b, h.next[b])
    && Removable(Unsplice(h, a, b), segs[1..])
  }

  function RemoveAll(h: Heap, segs: seq<Segment>): Heap
    requires Removable(h, segs)
    decreases |segs|
  {
    if segs == [] then h else RemoveAll(Unsplice(h, segs[0].first, segs[0].last), segs[1..])
  }

  /** Splice the segments back in, last removed first, each before the successor it still points to.
      None: a pointer led out of the heap. */
  function Reinsert(h: Heap, segs: seq<Segment>): Option<Heap> {
    if segs == [] then Some(h) else
    match Reinsert(h, segs[1..])
    case None => None
    case Some(g) =>
      var Segment(a, b) := segs[0];
      if On(g, b) && Defined(g, BeforeAt(g.next[b], a, b)) then Some(SpliceBefore(g, g.next[b], a, b)) else None
  }

  /** Reinsertion restores every pointer of the heap. */
  lemma {:induction false} RemoveThenReinsert(h: Heap, segs: seq<Segment>)
    requires Removable(h, segs)
    ensures Reinsert(RemoveAll(h, segs), segs) == Some(h)
    decreases |segs|
  {
    if segs == [] {
    } else {
      var Segment(a, b) := segs[0];
      RemoveThenReinsert(Unsplice(h, a, b), segs[1..]);
      UnspliceThenSplice(h, a, b);
    }
  }

  /** Removal of one segment joins the neighbours that its ends name; removals in a row add up. */
  lemma RemovalMeans(h: Heap, a: Node, b: Node)
    ensures Removable(h, []) && RemoveAll(h, []) == h
    ensures Removable(h, [Segment(a, b)]) <==>
      && a in h.next && a in h.prev && b in h.next && b in h.prev
      && h.prev[a] in h.next && h.prev[a] in h.prev && h.next[h.prev[a]] == a
      && h.next[b] in h.next && h.next[b] in h.prev && h.prev[h.next[b]] == b
    ensures Removable(h, [Segment(a, b)]) ==>
      RemoveAll(h, [Segment(a, b)]) == Heap(h.next[h.prev[a] := h.next[b]], h.prev[h.next[b] := h.prev[a]])
  {
    var one := [Segment(a, b)];
    assert one[1..] == [];
    if Defined(h, UnspliceAt(a, b)) { assert RemoveAll(Unsplice(h, a, b), []) == Unsplice(h, a, b); }
  }

  lemma {:induction false} RemovalsJoin(h: Heap, s: seq<Segment>, t: seq<Segment>)
    ensures Removable(h, s + t) <==> Removable(h, s) && Removable(RemoveAll(h, s), t)
    ensures Removable(h, s + t) ==> RemoveAll(h, s + t) == RemoveAll(RemoveAll(h, s), t)
    decreases |s|
  {
    if s == [] {
      assert s + t == t;
    } else {
      assert (s + t)[1..] == s[1..] + t;
      if Defined(h, UnspliceAt(s[0].first, s[0].last)) {
        RemovalsJoin(Unsplice(h, s[0].first, s[0].last), s[1..], t);
      }
    }
  }

  /** Reinsertion of one segment puts it before the node that its last node points to; the last of a row
      is reinserted first. */
  lemma ReinsertionMeans(h: Heap, a: Node, b: Node)
    ensures Reinsert(h, []) == Some(h)
    ensures Reinsert(h, [Segment(a, b)]).Some? <==>
      && a in h.next && a in h.prev && b in h.next && b in h.prev
      && h.next[b] in h.next && h.next[b] in h.prev && h.prev[h.next[b]] in h.next && h.prev[h.next[b]] in h.prev
    ensures Reinsert(h, [Segment(a, b)]).Some? ==>
      var q := h.next[b];
      Reinsert(h, [Segment(a, b)]).value == Heap(h.next[b := q][h.prev[q] := a], h.prev[a := h.prev[q]][q := b])
  {
    assert [Segment(a, b)][1..] == [];
  }

  lemma {:induction false} ReinsertionsJoin(h: Heap, s: seq<Segment>, t: seq<Segment>)
    ensures Reinsert(h, s + t) == match Reinsert(h, t) { case None => None case Some(g) => Reinsert(g, s) }
    decreases |s|
  {
    if s == [] {
      assert s + t == t;
    } else {
      assert (s + t)[1..] == s[1..] + t;
      ReinsertionsJoin(h, s[1..], t);
    }
  }

  function Singles(rs: seq<Node>): (segs: seq<Segment>)
    ensures |segs| == |rs| && forall i | 0 <= i < |rs| :: segs[i] == Segment(rs[i], rs[i])
  {
    if rs == [] then [] else [Segment(rs[0], rs[0])] + Singles(rs[1..])
  }

  function Without(xs: seq<Node>, r: Node): seq<Node> {
    if xs == [] then [] else if xs[0] == r then xs[1..] else [xs[0]] + Without(xs[1..], r)
  }

  function WithoutAll(xs: seq<Node>, rs: seq<Node>): seq<Node>
    decreases |rs|
  {
    if rs == [] then xs else WithoutAll(Without(xs, rs[0]), rs[1..])
  }

  /** Those not removed stay, in order. */
  lemma RestMeans(xs: seq<Node>, rs: seq<Node>)
    requires NoDup(xs)
    ensures WithoutAll([], rs) == []
    ensures xs != [] ==> WithoutAll(xs, rs) == (if xs[0] in rs then [] else [xs[0]]) + WithoutAll(xs[1..], rs)
  {
    RestOfNone(rs);
    if xs != [] {
      assert xs == [xs[0]] + xs[1..];
      NoDupJoin([xs[0]], xs[1..]);
      assert xs[0] in [xs[0]];
      FirstOfRest(xs[0], xs[1..], rs);
    }
  }

  lemma {:induction false} RestOfNone(rs: seq<Node>)
    ensures WithoutAll([], rs) == []
    decreases |rs|
  {
    if rs != [] { RestOfNone(rs[1..]); }
  }

  lemma {:induction false} NotThere(xs: seq<Node>, r: Node)
    ensures r !in xs ==> Without(xs, r) == xs
    ensures forall y | y in Without(xs, r) :: y in xs
  {
    if xs != [] {
      NotThere(xs[1..], r);
      assert xs == [xs[0]] + xs[1..];
    }
  }

  lemma {:induction false} FirstOfRest(x: Node, ys: seq<Node>, rs: seq<Node>)
    requires x !in ys
    ensures WithoutAll([x] + ys, rs) == (if x in rs then [] else [x]) + WithoutAll(ys, rs)
    decreases |rs|
  {
    if rs == [] {
    } else {
      var r, rest := rs[0], rs[1..];
      assert ([x] + ys)[0] == x && ([x] + ys)[1..] == ys;
      NotThere(ys, r);
      if x == r {
        assert WithoutAll([x] + ys, rs) == WithoutAll(ys, rest);
      } else {
        assert Without([x] + ys, r) == [x] + Without(ys, r);
        FirstOfRest(x, Without(ys, r), rest);
        assert x in rs <==> x in rest;
      }
    }
  }

  lemma {:induction false} WithoutAt(xs: seq<Node>, i: nat)
    requires i < |xs| && NoDup(xs)
    ensures Without(xs, xs[i]) == xs[..i] + xs[i + 1..]
    ensures forall y | y in xs && y != xs[i] :: y in Without(xs, xs[i])
  {
    EndsDiffer(xs);
    if i == 0 {
    } else {
      assert xs == [xs[0]] + xs[1..];
      NoDupJoin([xs[0]], xs[1..]);
      WithoutAt(xs[1..], i - 1);
      assert xs[1..][i - 1] == xs[i];
      assert xs[..i] + xs[i + 1..] == [xs[0]] + (xs[1..][..i - 1] + xs[1..][i..]);
    }
  }

  lemma RemoveOne(h: Heap, s: Node, xs: seq<Node>, r: Node)
    requires Ring(h, s, xs) && r in xs
    ensures Defined(h, UnspliceAt(r, r)) && Link(h, h.prev[r], r) && Link(h, r, h.next[r])
    ensures Ring(Unsplice(h, r, r), s, Without(xs, r))
    ensures forall y | y in xs && y != r :: y in Without(xs, r)
  {
    var i :| 0 <= i < |xs| && xs[i] == r;
    NoDupJoin([s], xs);
    WithoutAt(xs, i);
    assert xs == xs[..i] + [r] + xs[i + 1..];
    UnspliceFromRing(h, s, xs[..i], [r], xs[i + 1..]);
  }

  /** Any elements of a ring, removed one by one in any order, leave the ring of the rest; putting
      them back in reverse restores the heap. */
  lemma {:induction false} RemoveElements(h: Heap, s: Node, xs: seq<Node>, rs: seq<Node>)
    requires Ring(h, s, xs) && NoDup(rs) && forall r | r in rs :: r in xs
    ensures Removable(h, Singles(rs))
    ensures Ring(RemoveAll(h, Singles(rs)), s, WithoutAll(xs, rs))
    ensures Reinsert(RemoveAll(h, Singles(rs)), Singles(rs)) == Some(h)
    decreases |rs|
  {
    if rs == [] {
    } else {
      var r, rest := rs[0], rs[1..];
      RemoveOne(h, s, xs, r);
      assert rs == [r] + rest;
      NoDupJoin([r], rest);
      assert r in [r];
      RemoveElements(Unsplice(h, r, r), s, Without(xs, r), rest);
      assert Singles(rs)[1..] == Singles(rest);
    }
    RemoveThenReinsert(h, Singles(rs));
  }

  /** However they were carried out: removals and reinsertions that write ring entries only give back
      every cell. */
  lemma MemoryRestored(m: Cells, m': Cells, m'': Cells, link: int, h: Heap, segs: seq<Segment>)
    requires Removable(h, segs) && Reinsert(RemoveAll(h, segs), segs).Some?
    requires Changes(m, m', link, h, RemoveAll(h, segs))
    requires Changes(m', m'', link, RemoveAll(h, segs), Reinsert(RemoveAll(h, segs), segs).value)
    ensures m'' == m
  {
    RemoveThenReinsert(h, segs);
    ChangesTrans(m, m', m'', link, h, RemoveAll(h, segs), h);
    SameMemory(m, m'', link, h);
  }

  /** UNSPLICE the segments of a memory one after another. */
  method RemoveEach(mem: Memory, segs: seq<Segment>, link: int, ghost h: Heap)
    requires Shows(mem.cells, link, h) && Removable(h, segs)
    modifies mem
    ensures Changes(old(mem.cells), mem.cells, link, h, RemoveAll(h, segs))
    decreases |segs|
  {
    if segs != [] {
      var Segment(a, b) := segs[0];
      mem.Unsplice(a, b, link, h);
      RemoveEach(mem, segs[1..], link, Unsplice(h, a, b));
    }
  }

  /** SPLICE_BEFORE the segments in reverse order, each at the successor that its last node's own cell
      still names. */
  method ReinsertEach(mem: Memory, segs: seq<Segment>, link: int, ghost h: Heap)
    requires Shows(mem.cells, link, h) && Reinsert(h, segs).Some?
    modifies mem
    ensures Changes(old(mem.cells), mem.cells, link, h, Reinsert(h, segs).value)
    decreases |segs|
  {
    if segs != [] {
      ReinsertEach(mem, segs[1..], link, h);
      ghost var g := Reinsert(h, segs[1..]).value;
      var Segment(a, b) := segs[0];
      var successor := mem.Next(b, link, g);
      mem.SpliceBefore(successor, a, b, link, g);
    }
  }

  /** Every cell of the memory is as before, although nothing was remembered outside it. */
  method Dance(mem: Memory, segs: seq<Segment>, link: int, ghost h: Heap)
    requires Shows(mem.cells, link, h) && Removable(h, segs)
    modifies mem
    ensures mem.cells == old(mem.cells)
  {
    ghost var before := mem.cells;
    RemoveThenReinsert(h, segs);
    RemoveEach(mem, segs, link, h);
    ghost var between := mem.cells;
    ReinsertEach(mem, segs, link, RemoveAll(h, segs));
    MemoryRestored(before, between, mem.cells, link, h, segs);
  }
}
