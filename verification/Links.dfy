/** Doubly linked nodes: what it means for a sequence of nodes to be a chain or a ring
    of a heap of `next` and `prev` pointers.  A ring's sentinel is a node like any other. */
module Links {

  /** A node is the address of an element, or the phantom address of a ring's sentinel. */
  type Node = int

  /** The `next` and `prev` pointers of one link field, for the nodes that carry it. */
  datatype Heap = Heap(next: map<Node, Node>, prev: map<Node, Node>)

  /** Both pointers of x exist. */
  predicate On(h: Heap, x: Node) {
    x in h.next && x in h.prev
  }

  predicate Link(h: Heap, x: Node, y: Node) {
    On(h, x) && On(h, y) && h.next[x] == y && h.prev[y] == x
  }

  predicate Adjacent(h: Heap, p: seq<Node>, i: nat)
    requires i + 1 < |p|
  {
    Link(h, p[i], p[i + 1])
  }

  ghost predicate Linked(h: Heap, p: seq<Node>) {
    forall i: nat | i + 1 < |p| :: Adjacent(h, p, i)
  }

  predicate Differ(s: seq<Node>, i: nat, j: nat)
    requires i < j < |s|
  {
    s[i] != s[j]
  }

  ghost predicate NoDup(s: seq<Node>) {
    forall i: nat, j: nat {:trigger Differ(s, i, j)} | i < j < |s| :: Differ(s, i, j)
  }

  ghost predicate Disjoint(s: seq<Node>, t: seq<Node>) {
    forall x | x in s :: x !in t
  }

  function Last(s: seq<Node>): Node
    requires s != []
  {
    s[|s| - 1]
  }

  /** A detached run of elements: linked inside, with no promise about its two outer pointers. */
  ghost predicate Chain(h: Heap, c: seq<Node>) {
    c != [] && NoDup(c) && (forall x | x in c :: On(h, x)) && Linked(h, c)
  }

  /** A ring read from c[0]: a chain whose ends are linked to each other. */
  ghost predicate Cycle(h: Heap, c: seq<Node>) {
    Chain(h, c) && Link(h, Last(c), c[0])
  }

  /** The ring of sentinel s has the contents xs. */
  ghost predicate Ring(h: Heap, s: Node, xs: seq<Node>) {
    Cycle(h, [s] + xs)
  }

  /** What a chain is, in terms of the pointers alone. */
  lemma ChainMeans(h: Heap, c: seq<Node>)
    ensures Chain(h, c) <==>
      && c != [] && (forall i, j | 0 <= i < j < |c| :: c[i] != c[j])
      && (forall i | 0 <= i < |c| :: c[i] in h.next && c[i] in h.prev)
      && (forall i | 0 <= i < |c| - 1 :: h.next[c[i]] == c[i + 1] && h.prev[c[i + 1]] == c[i])
  {
    if Chain(h, c) {
      forall i, j | 0 <= i < j < |c| ensures c[i] != c[j] { assert Differ(c, i, j); }
      forall i | 0 <= i < |c| ensures On(h, c[i]) { assert c[i] in c; }
      forall i: nat | i < |c| - 1 ensures Link(h, c[i], c[i + 1]) { assert Adjacent(h, c, i); }
    }
  }

  /** What a ring is, in terms of the pointers alone: of a sentinel and its contents, or headless. */
  lemma CycleMeans(h: Heap, c: seq<Node>)
    ensures Cycle(h, c) <==>
      && c != [] && (forall i, j | 0 <= i < j < |c| :: c[i] != c[j])
      && (forall i | 0 <= i < |c| :: c[i] in h.next && c[i] in h.prev)
      && (forall i | 0 <= i < |c| - 1 :: h.next[c[i]] == c[i + 1] && h.prev[c[i + 1]] == c[i])
      && h.next[c[|c| - 1]] == c[0] && h.prev[c[0]] == c[|c| - 1]
    ensures forall s, xs: seq<Node> | c == [s] + xs :: Ring(h, s, xs) <==> Cycle(h, c)
  {
    ChainMeans(h, c);
  }

  lemma LinkedJoin(h: Heap, a: seq<Node>, b: seq<Node>)
    requires a != [] && b != []
    ensures Linked(h, a + b) <==> Linked(h, a) && Linked(h, b) && Link(h, Last(a), b[0])
  {
    var c := a + b;
    if Linked(h, c) {
      forall i: nat | i + 1 < |a| ensures Adjacent(h, a, i) { assert Adjacent(h, c, i); }
      forall i: nat | i + 1 < |b| ensures Adjacent(h, b, i) { assert Adjacent(h, c, |a| + i); }
      assert Adjacent(h, c, |a| - 1);
    }
    if Linked(h, a) && Linked(h, b) && Link(h, Last(a), b[0]) {
      forall i: nat | i + 1 < |c| ensures Adjacent(h, c, i) {
        if i + 1 < |a| {
          assert Adjacent(h, a, i);
        } else if i >= |a| {
          assert Adjacent(h, b, i - |a|);
        }
      }
    }
  }

  lemma NoDupJoin(a: seq<Node>, b: seq<Node>)
    ensures NoDup(a + b) <==> NoDup(a) && NoDup(b) && Disjoint(a, b)
  {
    var c := a + b;
    if NoDup(c) {
      forall i: nat, j: nat | i < j < |a| ensures Differ(a, i, j) { assert Differ(c, i, j); }
      forall i: nat, j: nat | i < j < |b| ensures Differ(b, i, j) { assert Differ(c, |a| + i, |a| + j); }
      forall x | x in a ensures x !in b {
        var i :| 0 <= i < |a| && a[i] == x;
        forall j | 0 <= j < |b| ensures b[j] != x { assert Differ(c, i, |a| + j); }
      }
    }
    if NoDup(a) && NoDup(b) && Disjoint(a, b) {
      forall i: nat, j: nat | i < j < |c| ensures Differ(c, i, j) {
        if j < |a| {
          assert Differ(a, i, j);
        } else if i >= |a| {
          assert Differ(b, i - |a|, j - |a|);
        } else {
          assert a[i] in a && b[j - |a|] in b;
        }
      }
    }
  }

  lemma EndsDiffer(c: seq<Node>)
    requires NoDup(c) && c != []
    ensures forall i | 0 <= i < |c| - 1 :: c[i] != Last(c)
    ensures forall i | 1 <= i < |c| :: c[i] != c[0]
  {
    forall i | 0 <= i < |c| - 1 ensures c[i] != Last(c) { assert Differ(c, i, |c| - 1); }
    forall i | 1 <= i < |c| ensures c[i] != c[0] { assert Differ(c, 0, i); }
  }

  /** The pointers a chain depends on: `next` of all but its last node, `prev` of all but its first. */
  lemma ChainFrame(h: Heap, h': Heap, c: seq<Node>)
    requires Chain(h, c) && h.next.Keys <= h'.next.Keys && h.prev.Keys <= h'.prev.Keys
    requires forall i | 0 <= i < |c| - 1 :: On(h, c[i]) ==> h'.next[c[i]] == h.next[c[i]]
    requires forall i | 1 <= i < |c| :: On(h, c[i]) ==> h'.prev[c[i]] == h.prev[c[i]]
    ensures Chain(h', c)
  {
    forall i: nat | i + 1 < |c| ensures Adjacent(h', c, i) { assert Adjacent(h, c, i); }
  }

  lemma ChainJoin(h: Heap, a: seq<Node>, b: seq<Node>)
    requires a != [] && b != []
    ensures Chain(h, a + b) <==> Chain(h, a) && Chain(h, b) && Disjoint(a, b) && Link(h, Last(a), b[0])
  {
    LinkedJoin(h, a, b);
    NoDupJoin(a, b);
    assert forall x :: x in a + b <==> x in a || x in b;
  }

  /** Where a ring is read from does not matter. */
  lemma Rotate(h: Heap, a: seq<Node>, b: seq<Node>)
    requires Cycle(h, a + b)
    ensures Cycle(h, b + a)
  {
    if a == [] || b == [] {
      assert a + b == b + a;
    } else {
      ChainJoin(h, a, b);
      ChainJoin(h, b, a);
    }
  }

  /** The heap read backwards. */
  function Mirror(h: Heap): Heap {
    Heap(h.prev, h.next)
  }

  function Reverse(s: seq<Node>): (r: seq<Node>)
    ensures |r| == |s|
    ensures forall i | 0 <= i < |s| :: r[i] == s[|s| - 1 - i]
  {
    if s == [] then [] else Reverse(s[1..]) + [s[0]]
  }

  /** A ring read backwards is a ring. */
  lemma MirrorCycle(h: Heap, c: seq<Node>)
    requires Cycle(h, c)
    ensures Cycle(Mirror(h), Reverse(c))
  {
    var r := Reverse(c);
    forall i: nat | i + 1 < |r| ensures Adjacent(Mirror(h), r, i) { assert Adjacent(h, c, |c| - 2 - i); }
    forall i: nat, j: nat | i < j < |r| ensures Differ(r, i, j) { assert Differ(c, |c| - 1 - j, |c| - 1 - i); }
    forall x | x in r ensures On(Mirror(h), x) {
      var i :| 0 <= i < |r| && r[i] == x;
      assert c[|c| - 1 - i] in c;
    }
  }

  /** Following `prev` runs through a ring's contents in reverse. */
  lemma MirrorRing(h: Heap, s: Node, xs: seq<Node>)
    requires Ring(h, s, xs)
    ensures Ring(Mirror(h), s, Reverse(xs))
  {
    var c := [s] + xs;
    MirrorCycle(h, c);
    assert Reverse(c) == Reverse(xs) + [s] by { assert c[0] == s && c[1..] == xs; }
    Rotate(Mirror(h), Reverse(xs), [s]);
  }
}
