/** Any number of rings and detached chains side by side: the sequence-level state machine that the
    ring macros refine, one macro call at a time and over whole runs. */
module Forests {
  import opened Links
  import opened Splice
  import opened Macros

  /** Every node belongs to one run, filed under the run's first node.  The run of a head starts with
      its sentinel and is closed into a ring; the run of a loop is a ring of elements without a head;
      every other run is a detached chain. */
  datatype Forest = Forest(heads: set<Node>, loops: set<Node>, runs: map<Node, seq<Node>>)

  predicate IsRing(f: Forest, k: Node) {
    k in f.heads || k in f.loops
  }

  ghost predicate WellFormed(f: Forest) {
    && f.heads <= f.runs.Keys && f.loops <= f.runs.Keys && f.heads !! f.loops
    && (forall k | k in f.runs :: f.runs[k] != [] && f.runs[k][0] == k)
    && (forall j, k | j in f.runs && k in f.runs && j != k :: Disjoint(f.runs[j], f.runs[k]))
  }

  ghost predicate Holds(h: Heap, f: Forest, k: Node)
    requires k in f.runs
  {
    if IsRing(f, k) then Cycle(h, f.runs[k]) else Chain(h, f.runs[k])
  }

  /** The heap represents the forest: rings and chains are linked, without repetition, and no two
      of them share a node. */
  ghost predicate Represents(h: Heap, f: Forest) {
    WellFormed(f) && forall k | k in f.runs :: Holds(h, f, k)
  }

  /** What a heap represents, in terms of chains and rings alone. */
  lemma RepresentsMeans(h: Heap, f: Forest)
    ensures Represents(h, f) <==>
      && f.heads <= f.runs.Keys && f.loops <= f.runs.Keys && (forall k | k in f.heads :: k !in f.loops)
      && (forall k | k in f.runs :: Chain(h, f.runs[k]) && f.runs[k][0] == k)
      && (forall k | k in f.runs && (k in f.heads || k in f.loops) :: Cycle(h, f.runs[k]))
      && (forall j, k | j in f.runs && k in f.runs && j != k :: forall x | x in f.runs[j] :: x !in f.runs[k])
  {
    if Represents(h, f) {
      forall k | k in f.runs ensures Chain(h, f.runs[k]) && (k in f.heads || k in f.loops ==> Cycle(h, f.runs[k])) {
        assert Holds(h, f, k);
      }
      forall j, k | j in f.runs && k in f.runs && j != k ensures forall x | x in f.runs[j] :: x !in f.runs[k] {
        assert Disjoint(f.runs[j], f.runs[k]);
      }
    }
    if && (forall k | k in f.runs :: Chain(h, f.runs[k]) && f.runs[k][0] == k)
       && (forall k | k in f.runs && (k in f.heads || k in f.loops) :: Cycle(h, f.runs[k])) {
      forall k | k in f.runs ensures Holds(h, f, k) && f.runs[k] != [] && f.runs[k][0] == k {}
    }
  }

  ghost function Elements(f: Forest, keys: set<Node>): set<Node> {
    set k, x | k in keys && k in f.runs && x in f.runs[k] :: x
  }

  ghost function Nodes(f: Forest): set<Node> {
    Elements(f, f.runs.Keys)
  }

  /** The elements of a ring, its sentinel left out. */
  function Contents(f: Forest, s: Node): seq<Node>
    requires s in f.runs && f.runs[s] != []
  {
    f.runs[s][1..]
  }

  // ---- Steps ----

  /** One macro call, named by its place in the forest. */
  datatype Step =
    | Init(k: Node)                        // APR_RING_INIT of a head, APR_RING_ELEM_INIT of an element
    | Before(k: Node, at: nat, c: Node)    // splice chain or loop c before node number `at` of ring k
    | After(k: Node, at: nat, c: Node)     // splice chain or loop c after node number `at` of ring k
    | Take(k: Node, lo: nat, hi: nat)      // unsplice nodes lo..hi-1 of ring k, or all of a loop
    | Again(c: Node)                       // unsplice chain c once more, by its stale outer pointers
    | Cat(j: Node, k: Node)                // APR_RING_CONCAT
    | Pre(j: Node, k: Node)                // APR_RING_PREPEND
    | Regroup(c: Node, at: nat)            // no macro: regard a chain as two chains
    | Open(k: Node)                        // no macro: regard a loop as a chain
    | Turn(k: Node, at: nat)               // no macro: read a loop from its node number `at`

  ghost predicate Enabled(f: Forest, s: Step) {
    match s
    case Init(k) => k in f.runs
    case Before(k, at, c) => CanSplice(f, k, at, c)
    case After(k, at, c) => CanSplice(f, k, at, c)
    case Take(k, lo, hi) => IsRing(f, k) && k in f.runs && (1 <= lo < hi <= |f.runs[k]| || IsAll(f, k, lo, hi))
    case Again(c) => c in f.runs && !IsRing(f, c) && f.runs[c] != []
    case Cat(j, k) => j in f.heads && k in f.heads && j in f.runs && k in f.runs && j != k
    case Pre(j, k) => j in f.heads && k in f.heads && j in f.runs && k in f.runs && j != k
    case Regroup(c, at) => c in f.runs && !IsRing(f, c) && 1 <= at < |f.runs[c]|
    case Open(k) => k in f.loops && k in f.runs
    case Turn(k, at) => k in f.loops && k in f.runs && at < |f.runs[k]|
  }

  /** A run c that no head holds can go next to any node of another ring. */
  predicate CanSplice(f: Forest, k: Node, at: nat, c: Node) {
    IsRing(f, k) && k in f.runs && at < |f.runs[k]| && c in f.runs && c !in f.heads && c != k
  }

  /** The segment is the whole of a loop. */
  predicate IsAll(f: Forest, k: Node, lo: nat, hi: nat) {
    k in f.loops && k in f.runs && f.runs[k] != [] && lo == 0 && hi == |f.runs[k]|
  }

  function Insert(s: seq<Node>, at: nat, d: seq<Node>): seq<Node>
    requires at <= |s|
  {
    s[..at] + d + s[at..]
  }

  /** The step on sequences. */
  ghost function Post(f: Forest, s: Step): Forest
    requires WellFormed(f) && Enabled(f, s)
  {
    var r := f.runs;
    match s
    case Init(k) =>
      f.(loops := if k in f.heads then f.loops else f.loops + {k},
         runs := if |r[k]| == 1 then r else r[k := [k]][r[k][1] := r[k][1..]])
    case Before(k, at, c) =>
      f.(loops := f.loops - {c}, runs := (r - {c})[k := Insert(r[k], if at == 0 then |r[k]| else at, r[c])])
    case After(k, at, c) =>
      f.(loops := f.loops - {c}, runs := (r - {c})[k := Insert(r[k], at + 1, r[c])])
    case Take(k, lo, hi) =>
      if lo == 0 then f else
      f.(runs := r[k := r[k][..lo] + r[k][hi..]][r[k][lo] := r[k][lo..hi]])
    case Again(_) => f
    case Cat(j, k) =>
      f.(runs := r[j := [j] + (Contents(f, j) + Contents(f, k))][k := [k]])
    case Pre(j, k) =>
      f.(runs := r[j := [j] + (Contents(f, k) + Contents(f, j))][k := [k]])
    case Regroup(c, at) =>
      f.(runs := r[c := r[c][..at]][r[c][at] := r[c][at..]])
    case Open(k) => f.(loops := f.loops - {k})
    case Turn(k, at) =>
      f.(loops := f.loops - {k} + {r[k][at]}, runs := (r - {k})[r[k][at] := r[k][at..] + r[k][..at]])
  }

  /** The macro call, with its pointer arguments. */
  function Call(f: Forest, s: Step): Macro
    requires WellFormed(f) && Enabled(f, s)
  {
    match s
    case Init(k) => InitAt(k)
    case Before(k, at, c) => BeforeAt(f.runs[k][at], c, Last(f.runs[c]))
    case After(k, at, c) => AfterAt(f.runs[k][at], c, Last(f.runs[c]))
    case Take(k, lo, hi) => UnspliceAt(f.runs[k][lo], f.runs[k][hi - 1])
    case Again(c) => UnspliceAt(c, Last(f.runs[c]))
    case Cat(j, k) => ConcatAt(j, k)
    case Pre(j, k) => PrependAt(j, k)
    case Regroup(_, _) => Nothing
    case Open(_) => Nothing
    case Turn(_, _) => Nothing
  }

  /** Where the stale pointers of ep1..epN lead to nodes of run k, those already skip ep1..epN.  The
      outer pointers of a chain mean nothing, and may be overwritten. */
  predicate Skips(h: Heap, f: Forest, k: Node, ep1: Node, epN: Node)
    requires k in f.runs && f.runs[k] != [] && Defined(h, UnspliceAt(ep1, epN))
  {
    var p, q, c := h.prev[ep1], h.next[epN], f.runs[k];
    && (p in c && (IsRing(f, k) || p != Last(c)) ==> h.next[p] == q)
    && (q in c && (IsRing(f, k) || q != c[0]) ==> h.prev[q] == p)
  }

  /** What a step needs of the heap besides: stale pointers that lead to nothing that would change. */
  ghost predicate Safe(h: Heap, f: Forest, s: Step)
    requires WellFormed(f) && Enabled(f, s)
  {
    s.Again? ==>
      && Defined(h, Call(f, s))
      && forall k | k in f.runs :: Skips(h, f, k, s.c, Last(f.runs[s.c]))
  }

  // ---- One step ----

  /** From h to h', only pointers of nodes of xs and ys were written. */
  ghost predicate Only(h: Heap, h': Heap, xs: seq<Node>, ys: seq<Node>) {
    && SameNodes(h, h')
    && forall x | On(h, x) && x !in xs && x !in ys :: h'.next[x] == h.next[x] && h'.prev[x] == h.prev[x]
  }

  ghost predicate HoldsAs(h: Heap, f: Forest, k: Node, c: seq<Node>) {
    c != [] && c[0] == k && if IsRing(f, k) then Cycle(h, c) else Chain(h, c)
  }

  /** The forest f' is f with the runs a and b exchanged for runs u and v over the same nodes. */
  ghost predicate Exchanged(f: Forest, f': Forest, a: Node, b: Node, u: seq<Node>, v: seq<Node>) {
    && a in f.runs && b in f.runs && u != [] && v != []
    && (u == v || Disjoint(u, v))
    && f'.heads == f.heads && f.heads * {a, b} <= {u[0], v[0]}
    && f'.loops - {u[0], v[0]} == f.loops - {a, b} && f'.heads !! f'.loops
    && f'.runs == (f.runs - {a, b})[u[0] := u][v[0] := v]
    && (forall x :: x in u || x in v <==> x in f.runs[a] || x in f.runs[b])
  }

  /** Exchanging runs keeps the representation, when the new ones are linked and only pointers of
      their nodes were written. */
  lemma Exchange(h: Heap, h': Heap, f: Forest, f': Forest, a: Node, b: Node, u: seq<Node>, v: seq<Node>)
    requires Represents(h, f) && Exchanged(f, f', a, b, u, v) && Only(h, h', f.runs[a], f.runs[b])
    requires HoldsAs(h', f', u[0], u) && HoldsAs(h', f', v[0], v)
    ensures Represents(h', f') && Nodes(f') == Nodes(f)
  {
    Apart(f, a, b, u, v);
    StillWellFormed(f, f', a, b, u, v);
    SameElements(f, f', a, b, u, v);
    forall k | k in f'.runs ensures Holds(h', f', k) {
      if k != u[0] && k != v[0] {
        OtherRun(h, h', f, a, b, k);
        assert IsRing(f', k) <==> IsRing(f, k) by { assert k in f'.loops <==> k in f'.loops - {u[0], v[0]}; }
      }
    }
  }

  lemma NodesMeans(f: Forest, x: Node)
    ensures x in Nodes(f) <==> exists k :: k in f.runs && x in f.runs[k]
  {
    if k :| k in f.runs && x in f.runs[k] { InNodes(f, k, x); }
  }

  lemma StillWellFormed(f: Forest, f': Forest, a: Node, b: Node, u: seq<Node>, v: seq<Node>)
    requires WellFormed(f) && Exchanged(f, f', a, b, u, v)
    ensures WellFormed(f')
  {
    Apart(f, a, b, u, v);
    forall k | k in f'.heads ensures k in f'.runs { assert k in f.heads * {a, b} || (k != a && k != b); }
    forall k | k in f'.loops ensures k in f'.runs { assert k in f.loops - {a, b} || k in {u[0], v[0]}; }
  }

  /** The runs left alone share no node, and no key, with the exchanged ones. */
  lemma Apart(f: Forest, a: Node, b: Node, u: seq<Node>, v: seq<Node>)
    requires WellFormed(f) && a in f.runs && b in f.runs && u != [] && v != []
    requires u == v || Disjoint(u, v)
    requires forall x :: x in u || x in v <==> x in f.runs[a] || x in f.runs[b]
    ensures u[0] == v[0] ==> u == v
    ensures forall k | k in f.runs && k != a && k != b ::
              k != u[0] && k != v[0] && Disjoint(f.runs[k], u) && Disjoint(f.runs[k], v)
              && Disjoint(u, f.runs[k]) && Disjoint(v, f.runs[k])
  {
    assert u[0] in u && v[0] in v;
    forall k | k in f.runs && k != a && k != b
      ensures k != u[0] && k != v[0] && Disjoint(f.runs[k], u) && Disjoint(f.runs[k], v)
    {
      assert k in f.runs[k] && Disjoint(f.runs[a], f.runs[k]) && Disjoint(f.runs[b], f.runs[k]);
    }
  }

  lemma OtherRun(h: Heap, h': Heap, f: Forest, a: Node, b: Node, k: Node)
    requires Represents(h, f) && a in f.runs && b in f.runs && k in f.runs && k != a && k != b
    requires Only(h, h', f.runs[a], f.runs[b])
    ensures Holds(h', f, k)
  {
    var c := f.runs[k];
    assert Holds(h, f, k) && Disjoint(c, f.runs[a]) && Disjoint(c, f.runs[b]);
    assert forall i | 0 <= i < |c| :: c[i] in c;
    ChainFrame(h, h', c);
  }

  lemma SameElements(f: Forest, f': Forest, a: Node, b: Node, u: seq<Node>, v: seq<Node>)
    requires WellFormed(f) && Exchanged(f, f', a, b, u, v)
    ensures Nodes(f') == Nodes(f)
  {
    Apart(f, a, b, u, v);
    forall x | x in Nodes(f') ensures x in Nodes(f) {
      var k :| k in f'.runs && x in f'.runs[k];
      InNodes(f, if k in {u[0], v[0]} then (if x in f.runs[a] then a else b) else k, x);
    }
    forall x | x in Nodes(f) ensures x in Nodes(f') {
      var k :| k in f.runs && x in f.runs[k];
      if k == a || k == b {
        assert x in u || x in v;
        InNodes(f', if x in v then v[0] else u[0], x);
      } else {
        InNodes(f', k, x);
      }
    }
  }

  lemma InNodes(f: Forest, k: Node, x: Node)
    requires k in f.runs && x in f.runs[k]
    ensures x in Nodes(f)
  {
    assert k in f.runs.Keys;
  }

  /** A node that names a run lies on that run only. */
  lemma OwnKey(f: Forest, k: Node, x: Node)
    requires WellFormed(f) && k in f.runs && x in f.runs[k]
    ensures x in f.runs ==> x == k
  {
  }

  /** One macro call does to the sequences what the step says. */
  ghost predicate Refined(h: Heap, f: Forest, s: Step)
    requires WellFormed(f) && Enabled(f, s)
  {
    && Defined(h, Call(f, s))
    && Represents(Apply(h, Call(f, s)), Post(f, s))
    && Nodes(Post(f, s)) == Nodes(f)
  }

  lemma HeadRing(h: Heap, f: Forest, s: Node)
    requires Represents(h, f) && s in f.heads
    ensures s in f.runs && f.runs[s] == [s] + Contents(f, s) && Ring(h, s, Contents(f, s))
  {
  }

  /** A head's two pointers agree on whether its ring is empty. */
  lemma EmptyBothWays(h: Heap, f: Forest, s: Node)
    requires Represents(h, f) && s in f.heads
    ensures On(h, s) && (h.prev[s] == s ==> h.next[s] == s)
  {
    HeadRing(h, f, s);
    var xs := Contents(f, s);
    EmptyIffNoContents(h, s, xs);
    if xs != [] {
      EndsOfRing(h, s, xs);
      assert Last(xs) in xs;
    }
  }

  lemma StepInit(h: Heap, f: Forest, k: Node)
    requires Represents(h, f) && k in f.runs
    ensures Refined(h, f, Init(k))
  {
    var c, f' := f.runs[k], Post(f, Init(k));
    assert Holds(h, f, k) && k in c;
    var h' := SelfLink(h, k);
    if |c| == 1 {
      assert c == [k];
      Exchange(h, h', f, f', k, k, [k], [k]);
    } else {
      var d := c[1..];
      assert c == [k] + d;
      InitEnds(h, k, d);
      OwnKey(f, k, d[0]);
      Exchange(h, h', f, f', k, k, [k], d);
    }
  }

  lemma InitEnds(h: Heap, k: Node, d: seq<Node>)
    requires d != [] && Chain(h, [k] + d)
    ensures Cycle(SelfLink(h, k), [k]) && Chain(SelfLink(h, k), d)
    ensures d[0] in d && k !in d && Disjoint([k], d)
  {
    ChainJoin(h, [k], d);
    assert k in [k] && d[0] in d && k !in d;
    assert forall i | 0 <= i < |d| :: d[i] in d;
    ChainFrame(h, SelfLink(h, k), d);
  }

  lemma BeforeExchanges(f: Forest, k: Node, at: nat, c: Node)
    requires WellFormed(f) && CanSplice(f, k, at, c)
    ensures var u := Insert(f.runs[k], if at == 0 then |f.runs[k]| else at, f.runs[c]);
            u != [] && (u[0] == k ==> Exchanged(f, Post(f, Before(k, at, c)), k, c, u, u))
  {
    var xs, d := f.runs[k], f.runs[c];
    var i := if at == 0 then |f.runs[k]| else at;
    assert xs == xs[..i] + xs[i..];
  }

  lemma StepBefore(h: Heap, f: Forest, k: Node, at: nat, c: Node)
    requires Represents(h, f) && Enabled(f, Before(k, at, c))
    ensures Refined(h, f, Before(k, at, c))
  {
    var xs, d := f.runs[k], f.runs[c];
    assert Holds(h, f, k) && Holds(h, f, c) && Disjoint(xs, d);
    BeforeEnds(h, xs, at, d);
    var u := Insert(xs, if at == 0 then |xs| else at, d);
    BeforeExchanges(f, k, at, c);
    Exchange(h, SpliceBefore(h, xs[at], d[0], Last(d)), f, Post(f, Before(k, at, c)), k, c, u, u);
  }

  lemma BeforeEnds(h: Heap, xs: seq<Node>, at: nat, d: seq<Node>)
    requires at < |xs| && Cycle(h, xs) && Chain(h, d) && Disjoint(xs, d)
    ensures Defined(h, BeforeAt(xs[at], d[0], Last(d)))
    ensures var u := Insert(xs, if at == 0 then |xs| else at, d);
            u[0] == xs[0] && (forall x :: x in u <==> x in xs || x in d) &&
            Cycle(SpliceBefore(h, xs[at], d[0], Last(d)), u)
    ensures Only(h, SpliceBefore(h, xs[at], d[0], Last(d)), xs, d)
  {
    var i := if at == 0 then |xs| else at;
    var a, b := xs[..i], xs[i..];
    assert a + b == xs;
    Rotated(h, a, b);
    if at == 0 {
      assert a + d + b == xs + d;
      SpliceAtEnd(h, xs, d);
    } else {
      SpliceBeforeRing(h, a, b, d);
    }
    assert d[0] in d && Last(d) in d && Last(b + a) in xs;
    assert forall x :: x in a + d + b <==> x in xs || x in d;
  }

  lemma AfterExchanges(f: Forest, k: Node, at: nat, c: Node)
    requires WellFormed(f) && CanSplice(f, k, at, c)
    ensures var u := Insert(f.runs[k], at + 1, f.runs[c]);
            u != [] && (u[0] == k ==> Exchanged(f, Post(f, After(k, at, c)), k, c, u, u))
  {
    var xs, d := f.runs[k], f.runs[c];
    var i := at + 1;
    assert xs == xs[..i] + xs[i..];
  }

  lemma StepAfter(h: Heap, f: Forest, k: Node, at: nat, c: Node)
    requires Represents(h, f) && Enabled(f, After(k, at, c))
    ensures Refined(h, f, After(k, at, c))
  {
    var xs, d := f.runs[k], f.runs[c];
    assert Holds(h, f, k) && Holds(h, f, c) && Disjoint(xs, d);
    AfterEnds(h, xs, at, d);
    var u := Insert(xs, at + 1, d);
    AfterExchanges(f, k, at, c);
    Exchange(h, SpliceAfter(h, xs[at], d[0], Last(d)), f, Post(f, After(k, at, c)), k, c, u, u);
  }

  lemma AfterEnds(h: Heap, xs: seq<Node>, at: nat, d: seq<Node>)
    requires at < |xs| && Cycle(h, xs) && Chain(h, d) && Disjoint(xs, d)
    ensures Defined(h, AfterAt(xs[at], d[0], Last(d)))
    ensures var u := Insert(xs, at + 1, d);
            u[0] == xs[0] && (forall x :: x in u <==> x in xs || x in d) &&
            Cycle(SpliceAfter(h, xs[at], d[0], Last(d)), u)
    ensures Only(h, SpliceAfter(h, xs[at], d[0], Last(d)), xs, d)
  {
    var a, b := xs[..at + 1], xs[at + 1..];
    assert a + b == xs && Last(b + a) == xs[at];
    Rotated(h, a, b);
    SpliceAfterRing(h, a, b, d);
    assert d[0] in d && Last(d) in d && (b + a)[0] in xs;
    assert forall x :: x in a + d + b <==> x in xs || x in d;
  }

  /** Both neighbours of the place where a ring is cut are on it. */
  lemma Rotated(h: Heap, a: seq<Node>, b: seq<Node>)
    requires Cycle(h, a + b)
    ensures Cycle(h, b + a) && Link(h, Last(b + a), (b + a)[0])
    ensures Last(b + a) in a + b && (b + a)[0] in a + b
  {
    Rotate(h, a, b);
  }

  lemma StepTake(h: Heap, f: Forest, k: Node, lo: nat, hi: nat)
    requires Represents(h, f) && Enabled(f, Take(k, lo, hi))
    ensures Refined(h, f, Take(k, lo, hi))
  {
    var xs := f.runs[k];
    assert Holds(h, f, k);
    if lo == 0 {
      UnspliceWhole(h, xs);
    } else {
      TakeEnds(h, xs, lo, hi);
      OwnKey(f, k, xs[lo]);
      var u, d := xs[..lo] + xs[hi..], xs[lo..hi];
      Exchange(h, Unsplice(h, xs[lo], xs[hi - 1]), f, Post(f, Take(k, lo, hi)), k, k, u, d);
    }
  }

  lemma TakeEnds(h: Heap, xs: seq<Node>, lo: nat, hi: nat)
    requires Cycle(h, xs) && 1 <= lo < hi <= |xs|
    ensures Defined(h, UnspliceAt(xs[lo], xs[hi - 1]))
    ensures var h' := Unsplice(h, xs[lo], xs[hi - 1]);
            Cycle(h', xs[..lo] + xs[hi..]) && Chain(h', xs[lo..hi])
    ensures Disjoint(xs[..lo] + xs[hi..], xs[lo..hi])
    ensures forall x :: x in xs[..lo] + xs[hi..] || x in xs[lo..hi] <==> x in xs
    ensures Only(h, Unsplice(h, xs[lo], xs[hi - 1]), xs, xs)
  {
    var a, d, b := xs[..lo], xs[lo..hi], xs[hi..];
    assert a + d + b == xs && d[0] == xs[lo] && Last(d) == xs[hi - 1];
    UnspliceRing(h, a, d, b);
    NoDupJoin(a + d, b);
    NoDupJoin(a, d);
    assert forall x :: x in a + b || x in d <==> x in a + d + b;
    assert Last(b + a) in a + b && (b + a)[0] in a + b;
  }

  /** UNSPLICE of anything keeps a ring or chain exactly when that already skips it. */
  lemma RunSurvives(h: Heap, f: Forest, k: Node, ep1: Node, epN: Node)
    requires Represents(h, f) && k in f.runs && Defined(h, UnspliceAt(ep1, epN))
    ensures Holds(Unsplice(h, ep1, epN), f, k) <==> Skips(h, f, k, ep1, epN)
  {
    assert Holds(h, f, k);
    if IsRing(f, k) { RingSurvives(h, f.runs[k], ep1, epN); } else { ChainSurvives(h, f.runs[k], ep1, epN); }
  }

  /** Unsplicing a detached chain again leaves everything in order exactly when it is safe. */
  lemma AgainIsSafe(h: Heap, f: Forest, c: Node)
    requires Represents(h, f) && Enabled(f, Again(c)) && Defined(h, Call(f, Again(c)))
    ensures Represents(Apply(h, Call(f, Again(c))), f) <==> Safe(h, f, Again(c))
  {
    forall k | k in f.runs
      ensures Holds(Unsplice(h, c, Last(f.runs[c])), f, k) <==> Skips(h, f, k, c, Last(f.runs[c]))
    {
      RunSurvives(h, f, k, c, Last(f.runs[c]));
    }
  }

  lemma CatExchanges(f: Forest, j: Node, k: Node)
    requires WellFormed(f) && Enabled(f, Cat(j, k)) && NoDup(f.runs[k])
    ensures Exchanged(f, Post(f, Cat(j, k)), j, k, [j] + (Contents(f, j) + Contents(f, k)), [k])
  {
    var xs, ys := Contents(f, j), Contents(f, k);
    assert f.runs[j] == [j] + xs && f.runs[k] == [k] + ys;
    JoinElements(j, xs, k, ys);
  }

  lemma StepCat(h: Heap, f: Forest, j: Node, k: Node)
    requires Represents(h, f) && Enabled(f, Cat(j, k))
    ensures Refined(h, f, Cat(j, k))
  {
    var xs, ys := Contents(f, j), Contents(f, k);
    HeadRing(h, f, j);
    HeadRing(h, f, k);
    ConcatEnds(h, j, xs, k, ys);
    var u := [j] + (xs + ys);
    CatExchanges(f, j, k);
    Exchange(h, Concat(h, j, k), f, Post(f, Cat(j, k)), j, k, u, [k]);
  }

  /** What CONCAT makes of two rings, and that it writes no other node. */
  lemma ConcatEnds(h: Heap, j: Node, xs: seq<Node>, k: Node, ys: seq<Node>)
    requires Ring(h, j, xs) && Ring(h, k, ys) && Disjoint([j] + xs, [k] + ys)
    ensures On(h, j) && On(h, k) && On(h, h.prev[j]) && On(h, h.next[k]) && On(h, h.prev[k])
    ensures Cycle(Concat(h, j, k), [j] + (xs + ys)) && Cycle(Concat(h, j, k), [k])
    ensures Disjoint([j] + (xs + ys), [k])
    ensures forall x :: x in [j] + (xs + ys) || x in [k] <==> x in [j] + xs || x in [k] + ys
    ensures Only(h, Concat(h, j, k), [j] + xs, [k] + ys)
  {
    NextOnRing(h, j, xs);
    NextOnRing(h, k, ys);
    JoinElements(j, xs, k, ys);
    ConcatRings(h, j, xs, k, ys);
  }

  lemma PreExchanges(f: Forest, j: Node, k: Node)
    requires WellFormed(f) && Enabled(f, Pre(j, k)) && NoDup(f.runs[k])
    ensures Exchanged(f, Post(f, Pre(j, k)), j, k, [j] + (Contents(f, k) + Contents(f, j)), [k])
  {
    var xs, ys := Contents(f, j), Contents(f, k);
    assert f.runs[j] == [j] + xs && f.runs[k] == [k] + ys;
    JoinElements(j, xs, k, ys);
  }

  lemma StepPre(h: Heap, f: Forest, j: Node, k: Node)
    requires Represents(h, f) && Enabled(f, Pre(j, k))
    ensures Refined(h, f, Pre(j, k))
  {
    var xs, ys := Contents(f, j), Contents(f, k);
    HeadRing(h, f, j);
    HeadRing(h, f, k);
    PrependEnds(h, j, xs, k, ys);
    var u := [j] + (ys + xs);
    PreExchanges(f, j, k);
    Exchange(h, Prepend(h, j, k), f, Post(f, Pre(j, k)), j, k, u, [k]);
  }

  /** What PREPEND makes of two rings, and that it writes no other node. */
  lemma PrependEnds(h: Heap, j: Node, xs: seq<Node>, k: Node, ys: seq<Node>)
    requires Ring(h, j, xs) && Ring(h, k, ys) && Disjoint([j] + xs, [k] + ys)
    ensures On(h, j) && On(h, k) && On(h, h.next[j]) && On(h, h.next[k]) && On(h, h.prev[k])
    ensures Cycle(Prepend(h, j, k), [j] + (ys + xs)) && Cycle(Prepend(h, j, k), [k])
    ensures Disjoint([j] + (ys + xs), [k])
    ensures forall x :: x in [j] + (ys + xs) || x in [k] <==> x in [j] + xs || x in [k] + ys
    ensures Only(h, Prepend(h, j, k), [j] + xs, [k] + ys)
  {
    NextOnRing(h, j, xs);
    NextOnRing(h, k, ys);
    JoinElements(j, xs, k, ys);
    PrependRings(h, j, xs, k, ys);
  }

  lemma JoinElements(j: Node, xs: seq<Node>, k: Node, ys: seq<Node>)
    requires Disjoint([j] + xs, [k] + ys) && NoDup([k] + ys)
    ensures [k] + [] == [k]
    ensures Disjoint([j] + (ys + xs), [k]) && Disjoint([j] + (xs + ys), [k])
    ensures forall x :: x in [j] + (ys + xs) || x in [k] <==> x in [j] + xs || x in [k] + ys
    ensures forall x :: x in [j] + (xs + ys) || x in [k] <==> x in [j] + xs || x in [k] + ys
  {
    NoDupJoin([k], ys);
    assert k in [k] && k in [k] + ys;
  }

  lemma NextOnRing(h: Heap, s: Node, xs: seq<Node>)
    requires Ring(h, s, xs)
    ensures On(h, s) && On(h, h.next[s]) && On(h, h.prev[s])
    ensures s in [s] + xs && h.next[s] in [s] + xs && h.prev[s] in [s] + xs
  {
    EmptyIffNoContents(h, s, xs);
    if xs != [] {
      EndsOfRing(h, s, xs);
      assert xs[0] in xs && Last(xs) in xs;
    }
    assert Last([s] + xs) in [s] + xs;
  }

  lemma StepRegroup(h: Heap, f: Forest, c: Node, at: nat)
    requires Represents(h, f) && Enabled(f, Regroup(c, at))
    ensures Refined(h, f, Regroup(c, at))
  {
    var d := f.runs[c];
    assert Holds(h, f, c);
    var u, v := d[..at], d[at..];
    assert d == u + v;
    ChainJoin(h, u, v);
    assert v[0] in d;
    OwnKey(f, c, v[0]);
    Exchange(h, h, f, Post(f, Regroup(c, at)), c, c, u, v);
  }

  lemma StepOpen(h: Heap, f: Forest, k: Node)
    requires Represents(h, f) && Enabled(f, Open(k))
    ensures Refined(h, f, Open(k))
  {
    var f' := Post(f, Open(k));
    forall j | j in f'.runs ensures Holds(h, f', j) { assert Holds(h, f, j); }
  }

  lemma StepTurn(h: Heap, f: Forest, k: Node, at: nat)
    requires Represents(h, f) && Enabled(f, Turn(k, at))
    ensures Refined(h, f, Turn(k, at))
  {
    var c := f.runs[k];
    assert Holds(h, f, k);
    var a, b := c[..at], c[at..];
    assert c == a + b && c[at] in c;
    Rotate(h, a, b);
    OwnKey(f, k, c[at]);
    Exchange(h, h, f, Post(f, Turn(k, at)), k, k, b + a, b + a);
  }

  /** Every macro call keeps every ring and chain in order: it does to the sequences what it is
      documented to do, to the named rings and to nothing else, and loses or invents no node. */
  lemma StepRefines(h: Heap, f: Forest, s: Step)
    requires Represents(h, f) && Enabled(f, s) && Safe(h, f, s)
    ensures Defined(h, Call(f, s)) && Represents(Apply(h, Call(f, s)), Post(f, s)) && Nodes(Post(f, s)) == Nodes(f)
  {
    match s
    case Init(k) => StepInit(h, f, k);
    case Before(k, at, c) => StepBefore(h, f, k, at, c);
    case After(k, at, c) => StepAfter(h, f, k, at, c);
    case Take(k, lo, hi) => StepTake(h, f, k, lo, hi);
    case Again(c) => AgainIsSafe(h, f, c);
    case Cat(j, k) => StepCat(h, f, j, k);
    case Pre(j, k) => StepPre(h, f, j, k);
    case Regroup(c, at) => StepRegroup(h, f, c, at);
    case Open(k) => StepOpen(h, f, k);
    case Turn(k, at) => StepTurn(h, f, k, at);
  }
}
