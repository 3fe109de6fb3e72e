/** Whole runs of ring macros over one memory, on any number of link fields at once. */
module Runs {
  import opened Links
  import opened Macros
  import opened Layout
  import opened Forests
  import opened RingMemory
  import opened Walk

  /** A memory, and for each link field (named by its byte offset) its heap and its rings and chains. */
  datatype World = World(cells: Cells, heaps: map<int, Heap>, forests: map<int, Forest>)

  /** Every link field's rings and chains are in order, and no two fields share a cell. */
  ghost predicate Valid(w: World) {
    && w.heaps.Keys == w.forests.Keys
    && (forall l | l in w.heaps :: InOrder(w, l))
    && (forall l, l2 | l in w.heaps && l2 in w.heaps && l != l2 ::
          SeparateEntries(l, w.heaps[l].next.Keys, l2, w.heaps[l2].next.Keys))
  }

  ghost predicate InOrder(w: World, l: int)
    requires l in w.heaps && l in w.forests
  {
    Shows(w.cells, l, w.heaps[l]) && Represents(w.heaps[l], w.forests[l])
  }

  /** What a world holds together by, in terms of its parts. */
  lemma ValidMeans(w: World)
    ensures Valid(w) <==>
      && w.heaps.Keys == w.forests.Keys
      && (forall l | l in w.heaps && l in w.forests :: Shows(w.cells, l, w.heaps[l]) && Represents(w.heaps[l], w.forests[l]))
      && (forall l, l2 | l in w.heaps && l2 in w.heaps && l != l2 ::
            forall x, y | x in w.heaps[l].next && y in w.heaps[l2].next ::
              x + l != y + l2 && x + l != y + l2 + 8 && x + l + 8 != y + l2)
  {
    forall l, l2 | l in w.heaps && l2 in w.heaps && l != l2
      ensures SeparateEntries(l, w.heaps[l].next.Keys, l2, w.heaps[l2].next.Keys) <==>
              forall x, y | x in w.heaps[l].next && y in w.heaps[l2].next ::
                x + l != y + l2 && x + l != y + l2 + 8 && x + l + 8 != y + l2
    {
      SeparateMeans(l, w.heaps[l].next.Keys, l2, w.heaps[l2].next.Keys);
    }
    if Valid(w) {
      forall l | l in w.heaps ensures Shows(w.cells, l, w.heaps[l]) && Represents(w.heaps[l], w.forests[l]) {
        assert InOrder(w, l);
      }
    } else if && w.heaps.Keys == w.forests.Keys
              && (forall l | l in w.heaps && l in w.forests ::
                    Shows(w.cells, l, w.heaps[l]) && Represents(w.heaps[l], w.forests[l])) {
      forall l | l in w.heaps ensures InOrder(w, l) { assert l in w.forests.Keys; }
    }
  }

  /** A macro call on one link field. */
  datatype Event = Event(link: int, step: Step)

  /** The memory changes as the macro's method says; the sequences change as the step says. */
  ghost predicate Happens(w: World, w': World, e: Event) {
    && e.link in w.heaps && e.link in w.forests
    && var h, f := w.heaps[e.link], w.forests[e.link];
    && WellFormed(f) && Enabled(f, e.step) && Safe(h, f, e.step) && Defined(h, Call(f, e.step))
    && var h' := Apply(h, Call(f, e.step));
    && Changes(w.cells, w'.cells, e.link, h, h')
    && w'.heaps == w.heaps[e.link := h']
    && w'.forests == w.forests[e.link := Post(f, e.step)]
  }

  /** A run: the worlds before and after each of its events. */
  ghost predicate Run(ws: seq<World>, es: seq<Event>) {
    |ws| == |es| + 1 && forall i: nat | i < |es| :: HappensAt(ws, es, i)
  }

  ghost predicate HappensAt(ws: seq<World>, es: seq<Event>, i: nat)
    requires i < |es| && i + 1 < |ws|
  {
    Happens(ws[i], ws[i + 1], es[i])
  }

  /** A run is nothing, or a run and one more event. */
  lemma RunMeans(ws: seq<World>, es: seq<Event>, w: World, e: Event)
    requires |ws| == |es| + 1
    ensures Run([w], [])
    ensures Run(ws + [w], es + [e]) <==> Run(ws, es) && Happens(ws[|es|], w, e)
  {
    var ws', es' := ws + [w], es + [e];
    if Run(ws', es') {
      assert HappensAt(ws', es', |es|);
      forall i: nat | i < |es| ensures HappensAt(ws, es, i) { assert HappensAt(ws', es', i); }
    } else if Run(ws, es) && Happens(ws[|es|], w, e) {
      forall i: nat | i < |es'| ensures HappensAt(ws', es', i) { assert i < |es| ==> HappensAt(ws, es, i); }
      assert false;
    }
  }

  /** What no event can change: the link fields there are, and the heads and the nodes of each. */
  ghost predicate SameNodesEverywhere(w: World, w': World) {
    && w'.heaps.Keys == w.heaps.Keys && w'.forests.Keys == w.forests.Keys
    && forall l | l in w.heaps && l in w.forests :: SameNodesAt(w, w', l)
  }

  ghost predicate SameNodesAt(w: World, w': World, l: int) {
    && l in w.heaps && l in w'.heaps && l in w.forests && l in w'.forests
    && w'.heaps[l].next.Keys == w.heaps[l].next.Keys
    && w'.forests[l].heads == w.forests[l].heads
    && Nodes(w'.forests[l]) == Nodes(w.forests[l])
  }

  lemma EventKeepsValid(w: World, w': World, e: Event)
    requires Valid(w) && Happens(w, w', e)
    ensures Valid(w') && SameNodesEverywhere(w, w')
    ensures var h, f := w.heaps[e.link], w.forests[e.link];
            && w'.heaps == w.heaps[e.link := Apply(h, Call(f, e.step))]
            && w'.forests == w.forests[e.link := Post(f, e.step)]
            && Changes(w.cells, w'.cells, e.link, h, Apply(h, Call(f, e.step)))
  {
    forall l | l in w'.heaps ensures InOrder(w', l) && SameNodesAt(w, w', l) { LinkStays(w, w', e, l); }
    forall l, l2 | l in w'.heaps && l2 in w'.heaps && l != l2
      ensures SeparateEntries(l, w'.heaps[l].next.Keys, l2, w'.heaps[l2].next.Keys)
    {
      assert SameNodesAt(w, w', l) && SameNodesAt(w, w', l2);
    }
  }

  /** Every link field stays in order: the one the event names, because its macro refines the step. */
  lemma LinkStays(w: World, w': World, e: Event, l: int)
    requires Valid(w) && Happens(w, w', e) && l in w'.heaps
    ensures w'.heaps.Keys == w.heaps.Keys && w'.forests.Keys == w.forests.Keys
    ensures l in w.heaps && InOrder(w', l) && SameNodesAt(w, w', l)
  {
    if l == e.link { NamedLinkStays(w, w', e); } else { OtherLinkStays(w, w', e, l); }
  }

  lemma NamedLinkStays(w: World, w': World, e: Event)
    requires Valid(w) && Happens(w, w', e)
    ensures e.link in w'.heaps && e.link in w'.forests && InOrder(w', e.link) && SameNodesAt(w, w', e.link)
  {
    assert InOrder(w, e.link);
    StepRefines(w.heaps[e.link], w.forests[e.link], e.step);
  }

  lemma OtherLinkStays(w: World, w': World, e: Event, l: int)
    requires Valid(w) && Happens(w, w', e) && l in w.heaps && l != e.link
    ensures l in w'.heaps && l in w'.forests && InOrder(w', l) && SameNodesAt(w, w', l)
  {
    assert InOrder(w, l);
    OtherLink(w.cells, w'.cells, e.link, w.heaps[e.link].next.Keys, l, w.heaps[l]);
  }

  /** After any run, every head that there was, of every link field, is the head of a well-formed ring
      with the contents that the sequence-level steps give it, no two rings share an element, and each
      link field's nodes are those it began with. */
  lemma {:induction false} RunKeepsValid(ws: seq<World>, es: seq<Event>)
    requires Run(ws, es) && Valid(ws[0])
    ensures Valid(ws[|es|]) && SameNodesEverywhere(ws[0], ws[|es|])
    ensures forall l | l in ws[0].forests ::
              && l in ws[|es|].forests && ws[|es|].forests[l].heads == ws[0].forests[l].heads
              && Nodes(ws[|es|].forests[l]) == Nodes(ws[0].forests[l])
    decreases |es|
  {
    if es == [] {
    } else {
      var n := |es| - 1;
      forall i: nat | i < n ensures HappensAt(ws[..|es|], es[..n], i) { assert HappensAt(ws, es, i); }
      RunKeepsValid(ws[..|es|], es[..n]);
      assert HappensAt(ws, es, n);
      EventKeepsValid(ws[n], ws[n + 1], es[n]);
    }
  }

  /** A run that never names a link field leaves that field's rings, and every pointer of its nodes,
      as they were, although the same elements move on and off the rings of the other fields. */
  lemma {:induction false} RunKeepsOtherLinks(ws: seq<World>, es: seq<Event>, l: int)
    requires Run(ws, es) && Valid(ws[0])
    requires l in ws[0].heaps && l in ws[0].forests && forall i | 0 <= i < |es| :: es[i].link != l
    ensures l in ws[|es|].heaps && l in ws[|es|].forests
    ensures ws[|es|].forests[l] == ws[0].forests[l] && ws[|es|].heaps[l] == ws[0].heaps[l]
    ensures Shows(ws[|es|].cells, l, ws[0].heaps[l])
    decreases |es|
  {
    if es == [] {
      assert InOrder(ws[0], l);
    } else {
      var n := |es| - 1;
      forall i: nat | i < n ensures HappensAt(ws[..|es|], es[..n], i) { assert HappensAt(ws, es, i); }
      RunKeepsOtherLinks(ws[..|es|], es[..n], l);
      assert HappensAt(ws, es, n) && es[n].link != l;
      RunKeepsValid(ws, es);
      assert InOrder(ws[|es|], l);
    }
  }

  /** No element is on two rings of a link field, or twice on one. */
  lemma OnOneRing(w: World, l: int, j: Node, p: nat, k: Node, q: nat)
    requires Valid(w) && l in w.forests && j in w.forests[l].runs && k in w.forests[l].runs
    requires p < |w.forests[l].runs[j]| && q < |w.forests[l].runs[k]|
    requires w.forests[l].runs[j][p] == w.forests[l].runs[k][q]
    ensures j == k && p == q
  {
    assert InOrder(w, l);
    var f := w.forests[l];
    assert Holds(w.heaps[l], f, j);
    assert f.runs[j][p] in f.runs[j] && f.runs[k][q] in f.runs[k];
    if p < q && q < |f.runs[j]| { assert Differ(f.runs[j], p, q); }
    if q < p { assert Differ(f.runs[j], q, p); }
    assert j != k ==> Disjoint(f.runs[j], f.runs[k]);
  }

  /** The macro of an enabled step is defined in memory, and what its method promises is an event. */
  lemma CallIsEvent(w: World, link: int, s: Step)
    requires Valid(w) && link in w.heaps && link in w.forests
    requires WellFormed(w.forests[link]) && Enabled(w.forests[link], s) && Safe(w.heaps[link], w.forests[link], s)
    ensures Represents(w.heaps[link], w.forests[link])
    ensures Defined(w.heaps[link], Call(w.forests[link], s))
  {
    assert InOrder(w, link);
    StepRefines(w.heaps[link], w.forests[link], s);
  }

  /** The world after the step's macro. */
  ghost function After(w: World, m': Cells, e: Event): (w': World)
    requires Valid(w) && e.link in w.heaps && e.link in w.forests
    requires WellFormed(w.forests[e.link]) && Enabled(w.forests[e.link], e.step)
    requires Safe(w.heaps[e.link], w.forests[e.link], e.step) && Defined(w.heaps[e.link], Call(w.forests[e.link], e.step))
    requires Changes(w.cells, m', e.link, w.heaps[e.link], Apply(w.heaps[e.link], Call(w.forests[e.link], e.step)))
    ensures Happens(w, w', e) && Valid(w') && w'.cells == m'
  {
    var h, f := w.heaps[e.link], w.forests[e.link];
    var w' := World(m', w.heaps[e.link := Apply(h, Call(f, e.step))], w.forests[e.link := Post(f, e.step)]);
    EventKeepsValid(w, w', e);
    w'
  }

  /** Class Memory performs any step that the sequences allow: the call of the step's macro, with the
      addresses for its arguments, takes the world to the next one of a run. */
  method Perform(mem: Memory, ghost w: World, link: int, m: Macro, ghost s: Step) returns (ghost w': World)
    requires Valid(w) && mem.cells == w.cells && link in w.heaps && link in w.forests
    requires WellFormed(w.forests[link]) && Enabled(w.forests[link], s) && m == Call(w.forests[link], s)
    requires Safe(w.heaps[link], w.forests[link], s)
    modifies mem
    ensures Happens(w, w', Event(link, s)) && Valid(w') && mem.cells == w'.cells
    ensures w'.heaps == w.heaps[link := Apply(w.heaps[link], m)]
    ensures w'.forests == w.forests[link := Post(w.forests[link], s)]
  {
    CallIsEvent(w, link, s);
    Dispatch(mem, w.heaps[link], w.forests[link], link, m, s);
    w' := After(w, mem.cells, Event(link, s));
  }

  method Dispatch(mem: Memory, ghost h: Heap, ghost f: Forest, link: int, m: Macro, ghost s: Step)
    requires Shows(mem.cells, link, h) && Represents(h, f) && Enabled(f, s) && m == Call(f, s) && Defined(h, m)
    modifies mem
    ensures Changes(old(mem.cells), mem.cells, link, h, Apply(h, m))
  {
    match m {
      case InitAt(x) => mem.ElemInit(x, link, h);
      case BeforeAt(lep, ep1, epN) => mem.SpliceBefore(lep, ep1, epN, link, h);
      case AfterAt(lep, ep1, epN) => mem.SpliceAfter(lep, ep1, epN, link, h);
      case UnspliceAt(ep1, epN) => mem.Unsplice(ep1, epN, link, h);
      case ConcatAt(s1, s2) =>
        EmptyBothWays(h, f, s2);
        mem.Concat(s1 + link, s2 + link, link, h);
      case PrependAt(s1, s2) =>
        EmptyBothWays(h, f, s2);
        mem.Prepend(s1 + link, s2 + link, link, h);
      case Nothing =>
    }
  }

  /** After any run, the consistency check passes from every node of every ring, and every head that
      there was has one, although detached elements may dangle. */
  lemma RingsPassCheck(ws: seq<World>, es: seq<Event>, l: int, s: Node, x: Node)
    requires Run(ws, es) && Valid(ws[0]) && l in ws[0].forests
    ensures l in ws[|es|].forests && l in ws[|es|].heaps
    ensures var f := ws[|es|].forests[l];
            && (s in ws[0].forests[l].heads ==> IsRing(f, s) && s in f.runs && s in f.runs[s])
            && (IsRing(f, s) ==> s in f.runs && (x in f.runs[s] ==> OnRing(ws[|es|].heaps[l], x)))
  {
    RunKeepsValid(ws, es);
    assert InOrder(ws[|es|], l);
    var h, f := ws[|es|].heaps[l], ws[|es|].forests[l];
    if IsRing(f, s) {
      assert Holds(h, f, s) && f.runs[s][0] == s;
      if x in f.runs[s] { AnywhereOnRing(h, f.runs[s], x); }
    }
  }

  lemma AnywhereOnRing(h: Heap, c: seq<Node>, x: Node)
    requires Cycle(h, c) && x in c
    ensures OnRing(h, x)
  {
    var i :| 0 <= i < |c| && c[i] == x;
    assert c == c[..i] + c[i..];
    Rotate(h, c[..i], c[i..]);
    assert (c[i..] + c[..i])[0] == x;
  }
}
