/** The macros that go round a ring: FOREACH, FOREACH_SAFE and the consistency walk. */
module RingLoops {
  import opened Links
  import opened Macros
  import opened Layout
  import opened Forests
  import opened RingMemory
  import opened Walk

  /** APR_RING_CHECK_ELEM_CONSISTENCY: false where an assertion of the macro fails.  On a heap of any
      pointers whatever the walk ends, and it passes exactly from the nodes of rings.  From the node
      of a ring it never leaves the ring, so pointers elsewhere may dangle. */
  method CheckElemConsistency(mem: Memory, ep: Node, link: int, ghost h: Heap) returns (ok: bool)
    requires Shows(mem.cells, link, h) && On(h, ep) && (Closed(h) || OnRing(h, ep))
    ensures ok <==> OnRing(h, ep)
  {
    var start := ep;
    var here := start;
    ghost var v := [start];
    while true
      invariant Chain(h, v) && v[0] == start && here == Last(v)
      decreases h.next.Keys - (set x | x in v)
    {
      CanLook(h, v);
      if mem.Prev(mem.Next(here, link, h), link, h) != here {
        FailedCheck(h, v);
        return false;
      }
      if mem.Next(mem.Prev(here, link, h), link, h) != here {
        FailedCheck(h, v);
        return false;
      }
      here := mem.Next(here, link, h);
      if here == start {
        break;
      }
      NotMetBefore(h, v, here);
      ChainJoin(h, v, [here]);
      assert (set x | x in v + [here]) == (set x | x in v) + {here};
      v := v + [here];
    }
    assert Cycle(h, v);
    return true;
  }

  /** APR_RING_CHECK_CONSISTENCY: passes exactly when the head is the head of a ring. */
  method CheckConsistency(mem: Memory, hp: int, link: int, ghost h: Heap) returns (ok: bool)
    requires Shows(mem.cells, link, h) && On(h, Sentinel(hp, link))
    requires Closed(h) || OnRing(h, Sentinel(hp, link))
    ensures ok <==> exists xs :: Ring(h, Sentinel(hp, link), xs)
  {
    ok := CheckElemConsistency(mem, Sentinel(hp, link), link, h);
    ghost var s := Sentinel(hp, link);
    if c :| Cycle(h, c) && c[0] == s {
      assert c == [s] + c[1..];
      assert Ring(h, s, c[1..]);
    }
  }

  /** APR_RING_FOREACH around a ring that its body does not change: each element once, in order. */
  method Foreach(mem: Memory, hp: int, link: int, ghost h: Heap, ghost xs: seq<Node>) returns (visited: seq<Node>)
    requires Shows(mem.cells, link, h) && Ring(h, Sentinel(hp, link), xs)
    ensures visited == xs
  {
    ghost var c := [Sentinel(hp, link)] + xs;
    assert c[0] in c;
    EndsDiffer(c);
    visited := [];
    NextOnCycle(h, c, 0);
    var ep := mem.First(hp, link, h);
    while ep != Sentinel(hp, link)
      invariant |visited| < |c| && visited == c[1..][..|visited|]
      invariant ep == if |visited| + 1 < |c| then c[|visited| + 1] else c[0]
      decreases |c| - |visited|
    {
      NextOnCycle(h, c, |visited| + 1);
      visited := visited + [ep];
      ep := mem.Next(ep, link, h);
    }
    assert c[1..] == xs;
  }

  // ---- APR_RING_FOREACH_SAFE ----

  /** What the loop body does with the current element.  Each element is visited once, so a body that
      decides by its own state is a function of the element too. */
  datatype Action =
    | Leave
    | Drop   // APR_RING_REMOVE it
    | Move   // APR_RING_REMOVE it and APR_RING_INSERT_TAIL it on another ring

  function Picked(xs: seq<Node>, act: Node -> Action, a: Action): seq<Node> {
    if xs == [] then [] else
    Picked(xs[..|xs| - 1], act, a) + (if act(Last(xs)) == a then [Last(xs)] else [])
  }

  lemma PickedNext(xs: seq<Node>, x: Node, act: Node -> Action, a: Action)
    ensures Picked(xs + [x], act, a) == Picked(xs, act, a) + (if act(x) == a then [x] else [])
  {
    assert (xs + [x])[..|xs|] == xs;
  }

  lemma PickedOne(x: Node, act: Node -> Action, a: Action)
    ensures Picked([x], act, a) == if act(x) == a then [x] else []
  {
    PickedNext([], x, act, a);
    assert [] + [x] == [x];
  }

  /** The elements picked are those with the action, in their order. */
  lemma {:induction false} PickedMeans(xs: seq<Node>, ys: seq<Node>, act: Node -> Action, a: Action)
    ensures Picked(xs + ys, act, a) == Picked(xs, act, a) + Picked(ys, act, a)
    decreases |ys|
  {
    if ys == [] {
      assert xs + ys == xs;
    } else {
      var zs, y := ys[..|ys| - 1], Last(ys);
      assert ys == zs + [y] && xs + ys == (xs + zs) + [y];
      PickedMeans(xs, zs, act, a);
      PickedNext(xs + zs, y, act, a);
      PickedNext(zs, y, act, a);
      var p, q, r := Picked(xs, act, a), Picked(zs, act, a), if act(y) == a then [y] else [];
      assert p + q + r == p + (q + r);
    }
  }

  /** The three actions split the ring: together they account for every element, each by its own action. */
  lemma {:induction false} PickedSplits(xs: seq<Node>, act: Node -> Action)
    ensures multiset(xs)
         == multiset(Picked(xs, act, Leave)) + multiset(Picked(xs, act, Drop)) + multiset(Picked(xs, act, Move))
    ensures forall x | x in Picked(xs, act, Leave) :: act(x) == Leave
    ensures forall x | x in Picked(xs, act, Drop) :: act(x) == Drop
    ensures forall x | x in Picked(xs, act, Move) :: act(x) == Move
  {
    if xs == [] {
    } else {
      var ys, x := xs[..|xs| - 1], Last(xs);
      assert xs == ys + [x];
      PickedSplits(ys, act);
      PickedNext(ys, x, act, Leave);
      PickedNext(ys, x, act, Drop);
      PickedNext(ys, x, act, Move);
    }
  }

  /** The ring s keeps what was left, in order; the ring t gained what was moved, in order; what was
      dropped is detached; every other ring and chain is as it was.  If t is s, there is no other ring. */
  ghost predicate Swept(f: Forest, f': Forest, s: Node, t: Node, xs: seq<Node>, rest: seq<Node>, act: Node -> Action) {
    && s in f.runs && t in f.runs && s in f'.runs && t in f'.runs
    && f'.heads == f.heads && f'.loops == f.loops
    && s !in xs && t !in xs
    && f'.runs[s] == [s] + Picked(xs, act, Leave) + rest
    && (s != t ==> f'.runs[t] == f.runs[t] + Picked(xs, act, Move))
    && (forall k | k in f.runs && k != s && k != t :: k in f'.runs && f'.runs[k] == f.runs[k])
    && (forall x | x in xs && act(x) == Drop :: x in f'.runs && f'.runs[x] == [x])
    && (forall k | k in f'.runs && k !in f.runs :: k in xs && act(k) == Drop)
  }

  /** Unsplicing one element of a ring. */
  lemma TakeOne(h: Heap, f: Forest, s: Node, a: seq<Node>, x: Node, b: seq<Node>)
    requires Represents(h, f) && s in f.heads
    requires s in f.runs && f.runs[s] == a + [x] + b && a != []
    ensures x !in f.runs && Enabled(f, Take(s, |a|, |a| + 1))
    ensures Call(f, Take(s, |a|, |a| + 1)) == UnspliceAt(x, x)
    ensures Post(f, Take(s, |a|, |a| + 1)) == f.(runs := f.runs[s := a + b][x := [x]])
  {
    var c := f.runs[s];
    assert c[|a|] == x && c[|a|..|a| + 1] == [x] && c[..|a|] == a && c[|a| + 1..] == b;
    assert Holds(h, f, s) && c[0] == s;
    EndsDiffer(c);
    OwnKey(f, s, x);
  }

  /** Splicing it in at the tail of another. */
  lemma PutOne(h: Heap, f: Forest, s: Node, t: Node, a: seq<Node>, x: Node, b: seq<Node>)
    requires Represents(h, f) && s in f.heads && t in f.heads && s != t
    requires s in f.runs && f.runs[s] == a + [x] + b && a != []
    ensures x !in f.runs && Enabled(f, Take(s, |a|, |a| + 1))
    ensures var f1 := Post(f, Take(s, |a|, |a| + 1));
            WellFormed(f1) && t in f1.runs && f1.runs[t] == f.runs[t] &&
            Enabled(f1, Before(t, 0, x)) && Call(f1, Before(t, 0, x)) == BeforeAt(t, x, x) &&
            Post(f1, Before(t, 0, x)) == f.(runs := f.runs[s := a + b][t := f.runs[t] + [x]])
  {
    TakeOne(h, f, s, a, x, b);
    StepRefines(h, f, Take(s, |a|, |a| + 1));
    var f1 := Post(f, Take(s, |a|, |a| + 1));
    assert f1.runs[t] + [x] == Insert(f1.runs[t], |f1.runs[t]|, [x]);
    assert (f1.runs - {x})[t := f.runs[t] + [x]] == f.runs[s := a + b][t := f.runs[t] + [x]];
  }

  /** So that what REMOVE writes is not its own `next`. */
  lemma NotItsOwnPrev(h: Heap, f: Forest, s: Node, a: seq<Node>, x: Node, b: seq<Node>)
    requires Represents(h, f) && s in f.heads && s in f.runs && f.runs[s] == a + [x] + b && a != []
    ensures On(h, x) && h.prev[x] != x
  {
    var c := f.runs[s];
    assert Holds(h, f, s) && c[|a|] == x;
    assert Adjacent(h, c, |a| - 1) && Differ(c, |a| - 1, |a|);
  }

  /** What the loop body does with element x.  Its `next` then leads where it did, unless it was moved:
      then to the other ring's sentinel. */
  method Visit(mem: Memory, x: Node, hp2: int, link: int, action: Action, ghost h: Heap, ghost f: Forest,
               ghost s: Node, ghost a: seq<Node>, ghost b: seq<Node>) returns (ghost h': Heap, ghost f': Forest)
    requires Shows(mem.cells, link, h) && Represents(h, f)
    requires s in f.heads && (action == Move ==> Sentinel(hp2, link) in f.heads && s != Sentinel(hp2, link))
    requires s in f.runs && f.runs[s] == a + [x] + b && a != []
    modifies mem
    ensures Changes(old(mem.cells), mem.cells, link, h, h') && Represents(h', f')
    ensures On(h, x) && On(h', x) && h'.next[x] == if action == Move then Sentinel(hp2, link) else h.next[x]
    ensures var t := Sentinel(hp2, link);
            f' == match action
                  case Leave => f
                  case Drop => f.(runs := f.runs[s := a + b][x := [x]])
                  case Move => f.(runs := f.runs[s := a + b][t := f.runs[t] + [x]])
  {
    h', f' := h, f;
    ghost var t := Sentinel(hp2, link);
    ghost var cut, put := Take(s, |a|, |a| + 1), Before(t, 0, x);
    NotItsOwnPrev(h, f, s, a, x, b);
    if action != Leave {
      TakeOne(h, f, s, a, x, b);
      StepRefines(h, f, cut);
      mem.Remove(x, link, h);
      h', f' := Apply(h, UnspliceAt(x, x)), Post(f, cut);
      if action == Move {
        ghost var h1, f1 := h', f';
        PutOne(h, f, s, t, a, x, b);
        StepRefines(h1, f1, put);
        HeadRing(h1, f1, t);
        assert Disjoint(f1.runs[t], f1.runs[x]);
        assert x in f1.runs[x] && Holds(h1, f1, x);
        mem.InsertTail(hp2, x, link, h1, Contents(f1, t));
        h', f' := Apply(h1, BeforeAt(t, x, x)), Post(f1, put);
      }
    }
  }

  /** Where the loop stands, when rest has not been visited. */
  function Front(s: Node, rest: seq<Node>): Node {
    if rest == [] then s else rest[0]
  }

  /** The element that the loop is at, and the one that it reads ahead. */
  lemma AtFront(h: Heap, f: Forest, f': Forest, s: Node, t: Node, xs: seq<Node>, rest: seq<Node>, act: Node -> Action)
    requires Represents(h, f') && s in f.heads && Swept(f, f', s, t, xs, rest, act)
    ensures var x := Front(s, rest);
            On(h, x) && (rest != [] ==> x !in f'.runs && x != s && h.next[x] == Front(s, rest[1..]))
  {
    var a := [s] + Picked(xs, act, Leave);
    var c := f'.runs[s];
    assert Holds(h, f', s) && c == a + rest && c[0] == s && s in c;
    EndsDiffer(c);
    if rest != [] {
      assert c[|a|] == rest[0] && rest[0] in c && c[|a|] != c[0];
      OwnKey(f', s, rest[0]);
      NextOnCycle(h, c, |a|);
    }
  }

  lemma SweptLeave(f: Forest, f': Forest, s: Node, t: Node, xs: seq<Node>, x: Node, rest: seq<Node>, act: Node -> Action)
    requires Swept(f, f', s, t, xs, [x] + rest, act) && x !in f'.runs && act(x) == Leave
    ensures Swept(f, f', s, t, xs + [x], rest, act)
  {
    PickedNext(xs, x, act, Leave);
    PickedNext(xs, x, act, Move);
    var a := [s] + Picked(xs, act, Leave);
    assert a + ([x] + rest) == [s] + (Picked(xs, act, Leave) + [x]) + rest;
  }

  lemma SweptDrop(f: Forest, f': Forest, f'': Forest, s: Node, t: Node, xs: seq<Node>, x: Node, rest: seq<Node>,
                  act: Node -> Action)
    requires Swept(f, f', s, t, xs, [x] + rest, act) && x !in f'.runs && act(x) == Drop
    requires f'' == f'.(runs := f'.runs[s := [s] + Picked(xs, act, Leave) + rest][x := [x]])
    ensures Swept(f, f'', s, t, xs + [x], rest, act)
  {
    PickedNext(xs, x, act, Leave);
    PickedNext(xs, x, act, Move);
  }

  lemma SweptMove(f: Forest, f': Forest, f'': Forest, s: Node, t: Node, xs: seq<Node>, x: Node, rest: seq<Node>,
                  act: Node -> Action)
    requires s != t && Swept(f, f', s, t, xs, [x] + rest, act) && x !in f'.runs && act(x) == Move
    requires f'' == f'.(runs := f'.runs[s := [s] + Picked(xs, act, Leave) + rest][t := f'.runs[t] + [x]])
    ensures Swept(f, f'', s, t, xs + [x], rest, act)
  {
    PickedNext(xs, x, act, Leave);
    PickedNext(xs, x, act, Move);
    var p, u := Picked(xs, act, Move), f.runs[t];
    assert u + p + [x] == u + (p + [x]);
    assert f''.runs[t] == u + Picked(xs + [x], act, Move) && f''.runs[s] == [s] + Picked(xs + [x], act, Leave) + rest;
    assert forall y | y in xs + [x] && act(y) == Drop :: y in xs;
  }

  /** What a completed loop has done. */
  lemma SweptMeans(f: Forest, f': Forest, s: Node, t: Node, xs: seq<Node>, act: Node -> Action)
    requires Swept(f, f', s, t, xs, [], act)
    ensures && f'.heads == f.heads && f'.loops == f.loops
            && s in f.runs && s in f'.runs && f'.runs[s] == [s] + Picked(xs, act, Leave)
            && (s != t ==> t in f.runs && t in f'.runs && f'.runs[t] == f.runs[t] + Picked(xs, act, Move))
            && (forall x | x in xs && act(x) == Drop :: x in f'.runs && f'.runs[x] == [x])
            && (forall k | k in f.runs && k != s && k != t :: k in f'.runs && f'.runs[k] == f.runs[k])
            && (forall k | k in f'.runs && k !in f.runs :: k in xs && act(k) == Drop)
  {
    assert [s] + Picked(xs, act, Leave) + [] == [s] + Picked(xs, act, Leave);
  }

  /** A loop body that leaves the current element, removes it, or moves it to the tail of another ring
      is visited with every element of the original ring once, in order, and the loop ends. */
  method ForeachSafe(mem: Memory, hp: int, hp2: int, link: int, act: Node -> Action, ghost h: Heap, ghost f: Forest)
    returns (visited: seq<Node>, ghost h': Heap, ghost f': Forest)
    requires Shows(mem.cells, link, h) && Represents(h, f)
    requires Sentinel(hp, link) in f.heads && Sentinel(hp2, link) in f.heads
    requires hp == hp2 ==> forall x | x in f.runs[Sentinel(hp, link)][1..] :: act(x) != Move
    modifies mem
    ensures visited == f.runs[Sentinel(hp, link)][1..]
    ensures Changes(old(mem.cells), mem.cells, link, h, h') && Represents(h', f')
    ensures Swept(f, f', Sentinel(hp, link), Sentinel(hp2, link), visited, [], act)
  {
    var s := Sentinel(hp, link);
    ghost var t := Sentinel(hp2, link);
    ghost var xs := Contents(f, s);
    assert s == t ==> NoneMoved(xs, act) by { assert s == t ==> hp == hp2; }
    h', f' := h, f;
    visited := [];
    SweepStart(h, f, s, t, act);
    AtFront(h', f, f', s, t, [], xs, act);
    var ep1 := mem.First(hp, link, h');
    NextOnRing(h', s, xs);
    var ep2 := mem.Next(ep1, link, h');
    ghost var rest := xs;
    while ep1 != s
      invariant visited + rest == xs
      invariant Changes(old(mem.cells), mem.cells, link, h, h') && Represents(h', f')
      invariant Swept(f, f', s, t, visited, rest, act)
      invariant ep1 == Front(s, rest)
      invariant rest != [] ==> ep1 != s && ep2 == Front(s, rest[1..])
      decreases |rest|
    {
      Advance(visited, rest);
      if s == t { NotMoved(xs, act, ep1); }
      h', f' := Turn(mem, ep1, hp2, link, act, h', f, f', s, visited, rest[1..]);
      visited, rest := visited + [ep1], rest[1..];
      ep1 := ep2;
      AtFront(h', f, f', s, t, visited, rest, act);
      ep2 := mem.Next(ep1, link, h');
    }
  }

  /** APR_RING_FOREACH is safe against removal of the current element too, since that keeps its `next`.
      It is not safe against moving it: then the loop would go on at the other ring's sentinel. */
  method ForeachRemoving(mem: Memory, hp: int, link: int, act: Node -> Action, ghost h: Heap, ghost f: Forest)
    returns (visited: seq<Node>, ghost h': Heap, ghost f': Forest)
    requires Shows(mem.cells, link, h) && Represents(h, f) && Sentinel(hp, link) in f.heads
    requires forall x | x in f.runs[Sentinel(hp, link)][1..] :: act(x) != Move
    modifies mem
    ensures visited == f.runs[Sentinel(hp, link)][1..]
    ensures Changes(old(mem.cells), mem.cells, link, h, h') && Represents(h', f')
    ensures Swept(f, f', Sentinel(hp, link), Sentinel(hp, link), visited, [], act)
  {
    var s := Sentinel(hp, link);
    ghost var xs := Contents(f, s);
    h', f' := h, f;
    visited := [];
    SweepStart(h, f, s, s, act);
    AtFront(h', f, f', s, s, [], xs, act);
    var ep := mem.First(hp, link, h');
    ghost var rest := xs;
    while ep != s
      invariant visited + rest == xs
      invariant Changes(old(mem.cells), mem.cells, link, h, h') && Represents(h', f')
      invariant Swept(f, f', s, s, visited, rest, act)
      invariant ep == Front(s, rest) && (rest != [] ==> ep != s)
      decreases |rest|
    {
      Advance(visited, rest);
      AtFront(h', f, f', s, s, visited, rest, act);
      h', f' := Turn(mem, ep, hp, link, act, h', f, f', s, visited, rest[1..]);
      visited, rest := visited + [ep], rest[1..];
      ep := mem.Next(ep, link, h');
      AtFront(h', f, f', s, s, visited, rest, act);
    }
  }

  ghost predicate NoneMoved(xs: seq<Node>, act: Node -> Action) {
    forall x | x in xs :: act(x) != Move
  }

  lemma NotMoved(xs: seq<Node>, act: Node -> Action, x: Node)
    requires NoneMoved(xs, act) && x in xs
    ensures act(x) != Move
  {
  }

  lemma Advance(v: seq<Node>, rest: seq<Node>)
    requires rest != []
    ensures rest == [rest[0]] + rest[1..] && v + rest == v + [rest[0]] + rest[1..] && rest[0] in v + rest
  {
    assert (v + rest)[|v|] == rest[0];
  }

  lemma SweepStart(h: Heap, f: Forest, s: Node, t: Node, act: Node -> Action)
    requires Represents(h, f) && s in f.heads && t in f.heads
    ensures Ring(h, s, Contents(f, s)) && h.next[s] == Front(s, Contents(f, s))
    ensures Swept(f, f, s, t, [], Contents(f, s), act)
  {
    HeadRing(h, f, s);
    NextOnCycle(h, f.runs[s], 0);
    assert f.runs[t] + [] == f.runs[t] && [s] + [] + Contents(f, s) == f.runs[s];
  }

  /** The body of the loop, for the current element x. */
  method Turn(mem: Memory, x: Node, hp2: int, link: int, act: Node -> Action, ghost h: Heap, ghost f: Forest,
              ghost f': Forest, ghost s: Node, ghost xs: seq<Node>, ghost rest: seq<Node>)
    returns (ghost h'': Heap, ghost f'': Forest)
    requires Shows(mem.cells, link, h) && Represents(h, f')
    requires s in f.heads && (act(x) == Move ==> Sentinel(hp2, link) in f.heads && s != Sentinel(hp2, link))
    requires Swept(f, f', s, Sentinel(hp2, link), xs, [x] + rest, act)
    modifies mem
    ensures Changes(old(mem.cells), mem.cells, link, h, h'') && Represents(h'', f'')
    ensures Swept(f, f'', s, Sentinel(hp2, link), xs + [x], rest, act)
    ensures On(h, x) && On(h'', x) && h''.next[x] == if act(x) == Move then Sentinel(hp2, link) else h.next[x]
  {
    ghost var a := [s] + Picked(xs, act, Leave);
    assert f'.runs[s] == a + [x] + rest by { assert a + ([x] + rest) == a + [x] + rest; }
    AtFront(h, f, f', s, Sentinel(hp2, link), xs, [x] + rest, act);
    h'', f'' := Visit(mem, x, hp2, link, act(x), h, f', s, a, rest);
    match act(x) {
      case Leave => SweptLeave(f, f', s, Sentinel(hp2, link), xs, x, rest, act);
      case Drop => SweptDrop(f, f', f'', s, Sentinel(hp2, link), xs, x, rest, act);
      case Move => SweptMove(f, f', f'', s, Sentinel(hp2, link), xs, x, rest, act);
    }
  }
}
