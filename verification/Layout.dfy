/** Flat memory: pointer cells at addresses, and the heap that one link field of it amounts to. */
module Layout {
  import opened Links
  import opened Splice
  import opened Macros

  /** The word at each address that holds one. */
  type Cells = map<int, int>

  /** Distance from a ring entry's `next` to its `prev`: the size of a pointer. */
  const WORD: int := 8

  /** Address a holds one of the two pointers of a node, for the link field at byte offset `link`. */
  predicate InEntry(link: int, nodes: set<Node>, a: int) {
    a - link in nodes || a - link - WORD in nodes
  }

  predicate NoOverlap(x: Node, y: Node) {
    x != y ==> x + 2 * WORD <= y || y + 2 * WORD <= x
  }

  ghost predicate Separate(nodes: set<Node>) {
    forall x, y {:trigger NoOverlap(x, y)} | x in nodes && y in nodes :: NoOverlap(x, y)
  }

  predicate Stored(m: Cells, link: int, h: Heap, x: Node)
    requires On(h, x)
  {
    && x + link in m && m[x + link] == h.next[x]
    && x + link + WORD in m && m[x + link + WORD] == h.prev[x]
  }

  /** Memory m holds the heap h in the link field at byte offset `link`: the two pointer cells of each
      node are where that offset says, and entries do not overlap.  Of a sentinel nothing else exists. */
  ghost predicate Shows(m: Cells, link: int, h: Heap) {
    && h.next.Keys == h.prev.Keys && Separate(h.next.Keys)
    && forall x {:trigger Stored(m, link, h, x)} | x in h.next :: On(h, x) && Stored(m, link, h, x)
  }

  /** From m to m', only pointers of the nodes' ring entries were written. */
  ghost predicate OnlyEntries(m: Cells, m': Cells, link: int, nodes: set<Node>) {
    && m'.Keys == m.Keys
    && forall a {:trigger InEntry(link, nodes, a)} :: a in m && !InEntry(link, nodes, a) ==> m'[a] == m[a]
  }

  /** m' is m after a macro took the link field's heap from h to h'. */
  ghost predicate Changes(m: Cells, m': Cells, link: int, h: Heap, h': Heap) {
    && Shows(m, link, h) && Shows(m', link, h') && SameNodes(h, h')
    && OnlyEntries(m, m', link, h.next.Keys)
  }

  /** What a memory shows, in terms of its cells alone: `next` at the link offset, `prev` a pointer of
      8 bytes further, and no two entries over one another. */
  lemma ShowsMeans(m: Cells, link: int, h: Heap)
    ensures Shows(m, link, h) <==>
      && h.next.Keys == h.prev.Keys
      && (forall x | x in h.next :: x + link in m && m[x + link] == h.next[x])
      && (forall x | x in h.prev :: x + link + 8 in m && m[x + link + 8] == h.prev[x])
      && (forall x, y | x in h.next && y in h.next && x < y :: x + 16 <= y)
  {
    if Shows(m, link, h) {
      forall x | x in h.next
        ensures x + link in m && m[x + link] == h.next[x] && x + link + 8 in m && m[x + link + 8] == h.prev[x]
      {
        assert Stored(m, link, h, x);
      }
      forall x, y | x in h.next && y in h.next && x < y ensures x + 16 <= y { assert NoOverlap(x, y); }
    }
    if && h.next.Keys == h.prev.Keys
       && (forall x | x in h.next :: x + link in m && m[x + link] == h.next[x])
       && (forall x | x in h.prev :: x + link + 8 in m && m[x + link + 8] == h.prev[x])
       && (forall x, y | x in h.next && y in h.next && x < y :: x + 16 <= y) {
      forall x | x in h.next ensures On(h, x) && Stored(m, link, h, x) { assert x in h.prev.Keys; }
    }
  }

  /** Cells that hold no pointer of a node are left alone. */
  lemma ChangesMeans(m: Cells, m': Cells, link: int, h: Heap, h': Heap)
    ensures Changes(m, m', link, h, h') <==>
      && Shows(m, link, h) && Shows(m', link, h') && h'.next.Keys == h.next.Keys && m'.Keys == m.Keys
      && forall a | a in m && a - link !in h.next && a - link - 8 !in h.next :: m'[a] == m[a]
  {
    forall a | a in m ensures InEntry(link, h.next.Keys, a) <==> a - link in h.next || a - link - 8 in h.next {}
  }

  lemma WriteNext(m: Cells, link: int, h: Heap, x: Node, v: int)
    requires Shows(m, link, h) && x in h.next
    ensures Changes(m, m[x + link := v], link, h, Heap(h.next[x := v], h.prev))
  {
    var m', h' := m[x + link := v], Heap(h.next[x := v], h.prev);
    forall y | y in h'.next ensures Stored(m', link, h', y) {
      assert Stored(m, link, h, y) && Stored(m, link, h, x) && NoOverlap(x, y);
    }
    assert h'.next.Keys == h.next.Keys;
    assert InEntry(link, h.next.Keys, x + link);
    assert x + link in m by { assert Stored(m, link, h, x); }
  }

  lemma WritePrev(m: Cells, link: int, h: Heap, x: Node, v: int)
    requires Shows(m, link, h) && x in h.next
    ensures Changes(m, m[x + link + WORD := v], link, h, Heap(h.next, h.prev[x := v]))
  {
    var m', h' := m[x + link + WORD := v], Heap(h.next, h.prev[x := v]);
    forall y | y in h'.next ensures Stored(m', link, h', y) {
      assert Stored(m, link, h, y) && Stored(m, link, h, x) && NoOverlap(x, y);
    }
    assert h'.prev.Keys == h.prev.Keys;
    assert InEntry(link, h.next.Keys, x + link + WORD);
    assert x + link + WORD in m by { assert Stored(m, link, h, x); }
  }

  lemma ChangesTrans(m: Cells, m': Cells, m'': Cells, link: int, h: Heap, h': Heap, h'': Heap)
    requires Changes(m, m', link, h, h') && Changes(m', m'', link, h', h'')
    ensures Changes(m, m'', link, h, h'')
  {
  }

  /** A memory that was changed only within the entries of the nodes and holds the same heap again is
      the same memory. */
  lemma SameMemory(m: Cells, m': Cells, link: int, h: Heap)
    requires Changes(m, m', link, h, h)
    ensures m' == m
  {
    forall a | a in m ensures m'[a] == m[a] {
      var x, y := a - link, a - link - WORD;
      assert InEntry(link, h.next.Keys, a) <==> x in h.next || y in h.next;
      if x in h.next {
        assert Stored(m, link, h, x) && Stored(m', link, h, x);
      } else if y in h.next {
        assert Stored(m, link, h, y) && Stored(m', link, h, y);
      }
    }
  }

  /** A memory and the heap that it comes to hold determine what it becomes. */
  lemma OneMemory(m: Cells, m': Cells, m'': Cells, link: int, h: Heap, h': Heap)
    requires Changes(m, m', link, h, h') && Changes(m, m'', link, h, h')
    ensures m' == m''
  {
    SameMemory(m', m'', link, h');
  }

  /** The cells that a SPLICE_BEFORE writes. */
  lemma BeforeCells(m: Cells, link: int, h: Heap, lep: Node, ep1: Node, epN: Node)
    requires Shows(m, link, h) && Defined(h, BeforeAt(lep, ep1, epN))
    ensures var p := h.prev[lep];
            Changes(m, m[epN + link := lep][ep1 + link + 8 := p][p + link := ep1][lep + link + 8 := epN], link, h,
                    SpliceBefore(h, lep, ep1, epN))
  {
    var p := h.prev[lep];
    var h1 := Heap(h.next[epN := lep], h.prev);
    var h2 := Heap(h1.next, h.prev[ep1 := p]);
    var h3 := Heap(h1.next[p := ep1], h2.prev);
    var m1 := m[epN + link := lep];
    var m2 := m1[ep1 + link + WORD := p];
    var m3 := m2[p + link := ep1];
    WriteNext(m, link, h, epN, lep);
    WritePrev(m1, link, h1, ep1, p);
    WriteNext(m2, link, h2, p, ep1);
    WritePrev(m3, link, h3, lep, epN);
  }

  /** The cells that a SPLICE_AFTER writes. */
  lemma AfterCells(m: Cells, link: int, h: Heap, lep: Node, ep1: Node, epN: Node)
    requires Shows(m, link, h) && Defined(h, AfterAt(lep, ep1, epN))
    ensures var q := h.next[lep];
            Changes(m, m[ep1 + link + 8 := lep][epN + link := q][q + link + 8 := epN][lep + link := ep1], link, h,
                    SpliceAfter(h, lep, ep1, epN))
  {
    var q := h.next[lep];
    var h1 := Heap(h.next, h.prev[ep1 := lep]);
    var h2 := Heap(h.next[epN := q], h1.prev);
    var h3 := Heap(h2.next, h1.prev[q := epN]);
    var m1 := m[ep1 + link + WORD := lep];
    var m2 := m1[epN + link := q];
    var m3 := m2[q + link + WORD := epN];
    WritePrev(m, link, h, ep1, lep);
    WriteNext(m1, link, h1, epN, q);
    WritePrev(m2, link, h2, q, epN);
    WriteNext(m3, link, h3, lep, ep1);
  }

  ghost predicate SeparateEntries(link: int, nodes: set<Node>, link2: int, nodes2: set<Node>) {
    forall a {:trigger InEntry(link2, nodes2, a)} :: InEntry(link2, nodes2, a) ==> !InEntry(link, nodes, a)
  }

  /** Entries are separate when no cell holds a pointer of both. */
  lemma SeparateMeans(link: int, nodes: set<Node>, link2: int, nodes2: set<Node>)
    ensures SeparateEntries(link, nodes, link2, nodes2) <==>
      forall x, y | x in nodes && y in nodes2 ::
        x + link != y + link2 && x + link != y + link2 + 8 && x + link + 8 != y + link2
  {
    if SeparateEntries(link, nodes, link2, nodes2) {
      forall x, y | x in nodes && y in nodes2
        ensures x + link != y + link2 && x + link != y + link2 + 8 && x + link + 8 != y + link2
      {
        assert InEntry(link2, nodes2, y + link2) && InEntry(link2, nodes2, y + link2 + 8);
      }
    }
  }

  /** A macro on one link field leaves every heap of separate entries as it was. */
  lemma OtherLink(m: Cells, m': Cells, link: int, nodes: set<Node>, link2: int, h2: Heap)
    requires OnlyEntries(m, m', link, nodes)
    requires Shows(m, link2, h2) && SeparateEntries(link, nodes, link2, h2.next.Keys)
    ensures Shows(m', link2, h2)
  {
    forall x | x in h2.next ensures Stored(m', link2, h2, x) {
      assert Stored(m, link2, h2, x);
      assert InEntry(link2, h2.next.Keys, x + link2) && InEntry(link2, h2.next.Keys, x + link2 + WORD);
    }
  }

  /** The nodes of a link field: elements, and the phantom sentinels of heads. */
  function WithSentinels(elements: set<Node>, heads: set<int>, link: int): set<Node> {
    elements + set hp | hp in heads :: hp - link
  }

  /** The byte ranges from x, of length n, and from y, of length k, do not overlap. */
  predicate NoneShared(x: int, n: int, y: int, k: int) {
    x + n <= y || y + k <= x
  }

  /** A struct of `size` bytes with ring entries at `link` and `link2`, and the heads of their rings:
      nothing overlaps. */
  ghost predicate Structs(elements: set<Node>, size: int, link: int, link2: int, heads: set<int>, heads2: set<int>) {
    && 0 <= link && 0 <= link2 && link + 2 * WORD <= size && link2 + 2 * WORD <= size
    && NoneShared(link, 2 * WORD, link2, 2 * WORD)
    && (forall x, y | x in elements && y in elements && x != y :: NoneShared(x, size, y, size))
    && (forall hp, x | hp in heads + heads2 && x in elements :: NoneShared(hp, 2 * WORD, x, size))
    && (forall hp, hp2 | hp in heads && hp2 in heads2 :: NoneShared(hp, 2 * WORD, hp2, 2 * WORD))
  }

  lemma EntriesApart(elements: set<Node>, size: int, link: int, link2: int, heads: set<int>, heads2: set<int>,
                     x: Node, y: Node)
    requires Structs(elements, size, link, link2, heads, heads2)
    requires x in WithSentinels(elements, heads, link) && y in WithSentinels(elements, heads2, link2)
    ensures NoneShared(x + link, 2 * WORD, y + link2, 2 * WORD)
  {
    assert x in elements || x + link in heads + heads2;
    assert y in elements || y + link2 in heads + heads2;
    if x in elements {
      assert y in elements && x != y ==> NoneShared(x, size, y, size);
      assert y !in elements ==> NoneShared(y + link2, 2 * WORD, x, size);
    } else if y in elements {
      assert NoneShared(x + link, 2 * WORD, y, size);
    }
  }

  /** Rings of two link fields of a struct share no cell, sentinels included: so an element may be on a
      ring of each. */
  lemma FieldsAreSeparate(elements: set<Node>, size: int, link: int, link2: int, heads: set<int>, heads2: set<int>)
    requires 0 <= link && 0 <= link2 && link + 16 <= size && link2 + 16 <= size
    requires link + 16 <= link2 || link2 + 16 <= link
    requires forall x, y | x in elements && y in elements && x < y :: x + size <= y
    requires forall hp, x | hp in heads + heads2 && x in elements :: hp + 16 <= x || x + size <= hp
    requires forall hp, hp2 | hp in heads && hp2 in heads2 :: hp + 16 <= hp2 || hp2 + 16 <= hp
    ensures SeparateEntries(link, elements + (set hp | hp in heads :: hp - link),
                            link2, elements + (set hp | hp in heads2 :: hp - link2))
  {
    assert Structs(elements, size, link, link2, heads, heads2);
    var nodes, nodes2 := WithSentinels(elements, heads, link), WithSentinels(elements, heads2, link2);
    forall a | InEntry(link2, nodes2, a) ensures !InEntry(link, nodes, a) {
      var y := if a - link2 in nodes2 then a - link2 else a - link2 - WORD;
      forall x | x in nodes ensures x != a - link && x != a - link - WORD {
        EntriesApart(elements, size, link, link2, heads, heads2, x, y);
      }
    }
  }
}
