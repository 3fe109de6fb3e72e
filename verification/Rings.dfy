/** From raw memory to rings, by runs of macros: elements that each start as a ring of one and are spliced
    into one ring, or that are inserted at a head. */
module Rings {
  import opened Links
  import opened Splice
  import opened Macros
  import opened Layout
  import opened Forests
  import opened Effects
  import opened RingMemory
  import opened Runs

  /** The heap that a memory holds over given nodes. */
  ghost function HeapOf(m: Cells, link: int, nodes: set<Node>): Heap
    requires forall x | x in nodes :: x + link in m && x + link + 8 in m
  {
    Heap(map x | x in nodes :: m[x + link], map x | x in nodes :: m[x + link + 8])
  }

  ghost function Apart(nodes: set<Node>): Forest {
    Forest({}, {}, map x | x in nodes :: [x])
  }

  lemma HeapIsShown(m: Cells, link: int, nodes: set<Node>)
    requires forall x | x in nodes :: x + link in m && x + link + 8 in m
    requires forall x, y | x in nodes && y in nodes && x < y :: x + 16 <= y
    ensures Shows(m, link, HeapOf(m, link, nodes))
  {
    var h := HeapOf(m, link, nodes);
    assert h.next.Keys == nodes && h.prev.Keys == nodes;
    ShowsMeans(m, link, h);
  }

  lemma ApartIsRepresented(h: Heap, nodes: set<Node>)
    requires h.next.Keys == nodes && h.prev.Keys == nodes
    ensures Represents(h, Apart(nodes))
  {
    var f := Apart(nodes);
    forall k | k in f.runs ensures Holds(h, f, k) {
      assert k in h.next.Keys && k in h.prev.Keys;
    }
  }

  /** Any elements with a ring entry each, whatever is in it, are a world to begin with. */
  lemma AnyStart(m: Cells, link: int, nodes: set<Node>)
    requires forall x | x in nodes :: x + link in m && x + link + 8 in m
    requires forall x, y | x in nodes && y in nodes && x < y :: x + 16 <= y
    ensures Valid(World(m, map[link := HeapOf(m, link, nodes)], map[link := Apart(nodes)]))
  {
    var h, f := HeapOf(m, link, nodes), Apart(nodes);
    HeapIsShown(m, link, nodes);
    assert h.next.Keys == nodes && h.prev.Keys == nodes;
    ApartIsRepresented(h, nodes);
    var w := World(m, map[link := h], map[link := f]);
    assert InOrder(w, link);
  }

  /** The elements ns joined into one ring. */
  ghost function Joined(f: Forest, ns: seq<Node>): Forest
    requires ns != []
  {
    f.(loops := f.loops - (set x | x in ns) + {ns[0]}, runs := (f.runs - (set x | x in ns))[ns[0] := ns])
  }

  lemma JoinedFirst(f: Forest, x: Node)
    requires x in f.runs && f.runs[x] == [x]
    ensures Joined(f, [x]) == f.(loops := f.loops + {x}, runs := f.runs[x := [x]])
  {
    assert (set y | y in [x]) == {x};
    assert (f.runs - {x})[x := [x]] == f.runs[x := [x]];
  }

  lemma JoinedNext(f: Forest, ns: seq<Node>, x: Node)
    requires ns != [] && x in f.runs && f.runs[x] == [x] && x !in ns
    ensures var g := Joined(f, ns);
            && x in g.runs && g.runs[x] == [x]
            && Joined(f, ns + [x]) ==
               g.(loops := g.loops + {x} - {x}, runs := (g.runs[x := [x]] - {x})[ns[0] := ns + [x]])
  {
    assert (set y | y in ns + [x]) == (set y | y in ns) + {x};
    var g := Joined(f, ns);
    assert (g.runs[x := [x]] - {x})[ns[0] := ns + [x]] == (f.runs - (set y | y in ns + [x]))[ns[0] := ns + [x]];
  }

  /** In w' the forest of one link field is g, and the others are as in w. */
  ghost predicate Now(w: World, w': World, link: int, g: Forest) {
    && w'.heaps.Keys == w.heaps.Keys && link in w'.forests && w'.forests[link] == g
    && forall l | l in w.forests && l != link :: l in w'.forests && w'.forests[l] == w.forests[l]
  }

  /** APR_RING_ELEM_INIT of each element, and SPLICE_BEFORE of each such ring of one, after the first, at the
      first: they are one headless ring, in order. */
  method RingOf(mem: Memory, ns: seq<Node>, link: int, ghost w: World) returns (ghost w': World)
    requires Valid(w) && mem.cells == w.cells && link in w.heaps && link in w.forests
    requires ns != [] && forall i, j | 0 <= i < j < |ns| :: ns[i] != ns[j]
    requires forall x | x in ns :: x in w.forests[link].runs && w.forests[link].runs[x] == [x] && x !in w.forests[link].heads
    modifies mem
    ensures Valid(w') && mem.cells == w'.cells
    ensures var f, those := w.forests[link], set x | x in ns;
            && link in w'.forests
            && w'.forests[link] == f.(loops := f.loops - those + {ns[0]}, runs := (f.runs - those)[ns[0] := ns])
    ensures forall l | l in w.forests && l != link :: l in w'.forests && w'.forests[l] == w.forests[l]
    ensures forall i | 0 <= i < |ns| ::
              && ns[i] + link in mem.cells && mem.cells[ns[i] + link] == ns[if i + 1 < |ns| then i + 1 else 0]
              && ns[i] + link + 8 in mem.cells && mem.cells[ns[i] + link + 8] == ns[if i > 0 then i - 1 else |ns| - 1]
  {
    ghost var f, done := w.forests[link], [ns[0]];
    w' := InitOne(mem, ns[0], link, w);
    JoinedFirst(f, ns[0]);
    var n := 1;
    while n < |ns|
      invariant 1 <= n <= |ns| && done == ns[..n] && done[0] == ns[0]
      invariant Valid(w') && mem.cells == w'.cells && Now(w, w', link, Joined(f, done))
    {
      NextOne(ns, n);
      w' := JoinOne(mem, ns[0], ns[n], link, done, f, w');
      done, n := done + [ns[n]], n + 1;
    }
    NextOne(ns, n);
    RingInCells(w', link, ns);
  }

  lemma NextOne(ns: seq<Node>, n: nat)
    requires 1 <= n <= |ns| && forall i, j | 0 <= i < j < |ns| :: ns[i] != ns[j]
    ensures n < |ns| ==> ns[n] in ns && ns[n] !in ns[..n] && ns[..n] + [ns[n]] == ns[..n + 1]
    ensures n == |ns| ==> ns[..n] == ns
  {
  }

  method InitOne(mem: Memory, x: Node, link: int, ghost w: World) returns (ghost w': World)
    requires Valid(w) && mem.cells == w.cells && link in w.heaps && link in w.forests
    requires x in w.forests[link].runs && w.forests[link].runs[x] == [x] && x !in w.forests[link].heads
    modifies mem
    ensures Valid(w') && mem.cells == w'.cells
    ensures var f := w.forests[link]; Now(w, w', link, f.(loops := f.loops + {x}, runs := f.runs[x := [x]]))
  {
    ghost var h, f := w.heaps[link], w.forests[link];
    assert InOrder(w, link);
    InitEffect(h, f, x);
    w' := Perform(mem, w, link, InitAt(x), Init(x));
  }

  lemma JoinStep(h: Heap, g: Forest, f: Forest, done: seq<Node>, x: Node)
    requires done != [] && x !in done && x in f.runs && f.runs[x] == [x] && x !in f.heads
    requires var j := Joined(f, done); g == j.(loops := j.loops + {x}, runs := j.runs[x := [x]])
    requires Represents(h, g)
    ensures Enabled(g, Before(done[0], 0, x)) && Call(g, Before(done[0], 0, x)) == BeforeAt(done[0], x, x)
    ensures Post(g, Before(done[0], 0, x)) == Joined(f, done + [x])
  {
    assert x != done[0];
    JoinedNext(f, done, x);
    BeforeEffect(h, g, done[0], 0, x);
  }

  method JoinOne(mem: Memory, first: Node, x: Node, link: int, ghost done: seq<Node>, ghost f: Forest, ghost w: World)
    returns (ghost w': World)
    requires Valid(w) && mem.cells == w.cells && link in w.heaps && link in w.forests
    requires done != [] && first == done[0] && x !in done && x in f.runs && f.runs[x] == [x] && x !in f.heads
    requires w.forests[link] == Joined(f, done)
    modifies mem
    ensures Valid(w') && mem.cells == w'.cells && Now(w, w', link, Joined(f, done + [x]))
  {
    JoinedNext(f, done, x);
    ghost var w1 := InitOne(mem, x, link, w);
    assert InOrder(w1, link);
    JoinStep(w1.heaps[link], w1.forests[link], f, done, x);
    w' := Perform(mem, w1, link, BeforeAt(first, x, x), Before(first, 0, x));
  }

  lemma RingInCells(w: World, link: int, ns: seq<Node>)
    requires Valid(w) && link in w.heaps && link in w.forests && ns != []
    requires var f := w.forests[link]; ns[0] in f.loops && ns[0] in f.runs && f.runs[ns[0]] == ns
    ensures forall i | 0 <= i < |ns| ::
              && ns[i] + link in w.cells && w.cells[ns[i] + link] == ns[if i + 1 < |ns| then i + 1 else 0]
              && ns[i] + link + 8 in w.cells && w.cells[ns[i] + link + 8] == ns[if i > 0 then i - 1 else |ns| - 1]
  {
    assert InOrder(w, link);
    var h := w.heaps[link];
    assert Holds(h, w.forests[link], ns[0]);
    ShowsMeans(w.cells, link, h);
    CycleMeans(h, ns);
    forall i | 0 <= i < |ns|
      ensures h.next[ns[i]] == ns[if i + 1 < |ns| then i + 1 else 0]
      ensures h.prev[ns[i]] == ns[if i > 0 then i - 1 else |ns| - 1]
    {
      if i > 0 { assert h.prev[ns[(i - 1) + 1]] == ns[i - 1]; }
    }
  }
}
