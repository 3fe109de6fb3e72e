/** The ring macros as they run: ordered assignments to cells of a flat memory, through a link field
    at a byte offset and a sentinel that is the head's address less that offset.  The ghost argument
    h of a macro is the heap that the memory holds for that link field when the macro starts. */
module RingMemory {
  import opened Links
  import opened Splice
  import opened Macros
  import opened Layout

  /** APR_RING_SENTINEL: the address of the element whose ring entry the head would be. */
  function Sentinel(hp: int, link: int): Node {
    hp - link
  }

  lemma TailCells(m: Cells, m': Cells, hp: int, link: int, h: Heap, f: Node, l: Node)
    requires Defined(h, BeforeAt(Sentinel(hp, link), f, l))
    requires Changes(m, m', link, h, SpliceBefore(h, Sentinel(hp, link), f, l))
    ensures var p := h.prev[Sentinel(hp, link)];
            m' == m[l + link := hp - link][f + link + 8 := p][p + link := f][hp + 8 := l]
  {
    var s := Sentinel(hp, link);
    BeforeCells(m, link, h, s, f, l);
    OneMemory(m, m', m[l + link := s][f + link + 8 := h.prev[s]][h.prev[s] + link := f][s + link + 8 := l], link, h,
              SpliceBefore(h, s, f, l));
  }

  lemma HeadCells(m: Cells, m': Cells, hp: int, link: int, h: Heap, f: Node, l: Node)
    requires Defined(h, AfterAt(Sentinel(hp, link), f, l))
    requires Changes(m, m', link, h, SpliceAfter(h, Sentinel(hp, link), f, l))
    ensures var q := h.next[Sentinel(hp, link)];
            m' == m[f + link + 8 := hp - link][l + link := q][q + link + 8 := l][hp := f]
  {
    var s := Sentinel(hp, link);
    AfterCells(m, link, h, s, f, l);
    OneMemory(m, m', m[f + link + 8 := s][l + link := h.next[s]][h.next[s] + link + 8 := l][s + link := f], link, h,
              SpliceAfter(h, s, f, l));
  }

  class Memory {
    var cells: Cells

    function Next(ep: Node, link: int, ghost h: Heap): (v: int)
      requires Shows(cells, link, h) && ep in h.next
      reads this
      ensures v == h.next[ep] && ep + link in cells && v == cells[ep + link]
    {
      assert Stored(cells, link, h, ep);
      cells[ep + link]
    }

    function Prev(ep: Node, link: int, ghost h: Heap): (v: int)
      requires Shows(cells, link, h) && ep in h.next
      reads this
      ensures v == h.prev[ep] && ep + link + 8 in cells && v == cells[ep + link + 8]
    {
      assert Stored(cells, link, h, ep);
      cells[ep + link + WORD]
    }

    /** The head's own two cells are the pointers of its sentinel. */
    function First(hp: int, link: int, ghost h: Heap): (v: int)
      requires Shows(cells, link, h) && Sentinel(hp, link) in h.next
      reads this
      ensures v == h.next[Sentinel(hp, link)] && hp in cells && v == cells[hp]
    {
      assert Stored(cells, link, h, Sentinel(hp, link));
      cells[hp]
    }

    function Last(hp: int, link: int, ghost h: Heap): (v: int)
      requires Shows(cells, link, h) && Sentinel(hp, link) in h.next
      reads this
      ensures v == h.prev[Sentinel(hp, link)] && hp + 8 in cells && v == cells[hp + 8]
    {
      assert Stored(cells, link, h, Sentinel(hp, link));
      cells[hp + WORD]
    }

    method SetNext(ep: Node, link: int, v: int, ghost h: Heap)
      requires Shows(cells, link, h) && ep in h.next
      modifies this
      ensures Changes(old(cells), cells, link, h, Heap(h.next[ep := v], h.prev))
      ensures cells == old(cells)[ep + link := v]
    {
      WriteNext(cells, link, h, ep, v);
      cells := cells[ep + link := v];
    }

    method SetPrev(ep: Node, link: int, v: int, ghost h: Heap)
      requires Shows(cells, link, h) && ep in h.next
      modifies this
      ensures Changes(old(cells), cells, link, h, Heap(h.next, h.prev[ep := v]))
      ensures cells == old(cells)[ep + link + 8 := v]
    {
      WritePrev(cells, link, h, ep, v);
      cells := cells[ep + link + WORD := v];
    }

    method Init(hp: int, link: int, ghost h: Heap)
      requires Shows(cells, link, h) && Defined(h, InitAt(Sentinel(hp, link)))
      modifies this
      ensures Changes(old(cells), cells, link, h, Apply(h, InitAt(Sentinel(hp, link))))
      ensures cells == old(cells)[hp := hp - link][hp + 8 := hp - link]
    {
      var s := Sentinel(hp, link);
      SetNext(s, link, s, h);
      SetPrev(s, link, s, Heap(h.next[s := s], h.prev));
    }

    /** APR_RING_EMPTY: what it tells on any heap, and of a ring. */
    method IsEmpty(hp: int, link: int, ghost h: Heap) returns (empty: bool)
      requires Shows(cells, link, h) && On(h, Sentinel(hp, link))
      ensures empty == Splice.IsEmpty(h, Sentinel(hp, link))
      ensures forall xs :: Ring(h, Sentinel(hp, link), xs) ==> (empty <==> xs == [])
      ensures hp in cells && (empty <==> cells[hp] == hp - link)
    {
      empty := First(hp, link, h) == Sentinel(hp, link);
      forall xs | Ring(h, Sentinel(hp, link), xs) ensures empty <==> xs == [] {
        EmptyIffNoContents(h, Sentinel(hp, link), xs);
      }
    }

    method ElemInit(ep: Node, link: int, ghost h: Heap)
      requires Shows(cells, link, h) && Defined(h, InitAt(ep))
      modifies this
      ensures Changes(old(cells), cells, link, h, Apply(h, InitAt(ep)))
      ensures cells == old(cells)[ep + link := ep][ep + link + 8 := ep]
    {
      SetNext(ep, link, ep, h);
      SetPrev(ep, link, ep, Heap(h.next[ep := ep], h.prev));
    }

    method SpliceBefore(lep: Node, ep1: Node, epN: Node, link: int, ghost h: Heap)
      requires Shows(cells, link, h) && Defined(h, BeforeAt(lep, ep1, epN))
      modifies this
      ensures Changes(old(cells), cells, link, h, Apply(h, BeforeAt(lep, ep1, epN)))
      ensures lep + link + 8 in old(cells)
      ensures var p := old(cells)[lep + link + 8];
              cells == old(cells)[epN + link := lep][ep1 + link + 8 := p][p + link := ep1][lep + link + 8 := epN]
    {
      ghost var p := Prev(lep, link, h);
      ghost var h1 := Heap(h.next[epN := lep], h.prev);
      ghost var h2 := Heap(h1.next, h.prev[ep1 := p]);
      ghost var h3 := Heap(h1.next[p := ep1], h2.prev);
      SetNext(epN, link, lep, h);
      SetPrev(ep1, link, Prev(lep, link, h1), h1);
      SetNext(Prev(lep, link, h2), link, ep1, h2);
      SetPrev(lep, link, epN, h3);
    }

    method SpliceAfter(lep: Node, ep1: Node, epN: Node, link: int, ghost h: Heap)
      requires Shows(cells, link, h) && Defined(h, AfterAt(lep, ep1, epN))
      modifies this
      ensures Changes(old(cells), cells, link, h, Apply(h, AfterAt(lep, ep1, epN)))
      ensures lep + link in old(cells)
      ensures var q := old(cells)[lep + link];
              cells == old(cells)[ep1 + link + 8 := lep][epN + link := q][q + link + 8 := epN][lep + link := ep1]
    {
      ghost var q := Next(lep, link, h);
      ghost var h1 := Heap(h.next, h.prev[ep1 := lep]);
      ghost var h2 := Heap(h.next[epN := q], h1.prev);
      ghost var h3 := Heap(h2.next, h1.prev[q := epN]);
      SetPrev(ep1, link, lep, h);
      SetNext(epN, link, Next(lep, link, h1), h1);
      SetPrev(Next(lep, link, h2), link, epN, h2);
      SetNext(lep, link, ep1, h3);
    }

    method InsertBefore(lep: Node, nep: Node, link: int, ghost h: Heap)
      requires Shows(cells, link, h) && Defined(h, BeforeAt(lep, nep, nep))
      modifies this
      ensures Changes(old(cells), cells, link, h, Apply(h, BeforeAt(lep, nep, nep)))
      ensures lep + link + 8 in old(cells)
      ensures var p := old(cells)[lep + link + 8];
              cells == old(cells)[nep + link := lep][nep + link + 8 := p][p + link := nep][lep + link + 8 := nep]
    {
      SpliceBefore(lep, nep, nep, link, h);
    }

    method InsertAfter(lep: Node, nep: Node, link: int, ghost h: Heap)
      requires Shows(cells, link, h) && Defined(h, AfterAt(lep, nep, nep))
      modifies this
      ensures Changes(old(cells), cells, link, h, Apply(h, AfterAt(lep, nep, nep)))
      ensures lep + link in old(cells)
      ensures var q := old(cells)[lep + link];
              cells == old(cells)[nep + link + 8 := lep][nep + link := q][q + link + 8 := nep][lep + link := nep]
    {
      SpliceAfter(lep, nep, nep, link, h);
    }

    /** A chain d spliced in at the head of a ring comes before its contents xs. */
    method SpliceHead(hp: int, ep1: Node, epN: Node, link: int, ghost h: Heap, ghost xs: seq<Node>, ghost d: seq<Node>)
      requires Shows(cells, link, h) && Ring(h, Sentinel(hp, link), xs) && Chain(h, d)
      requires ep1 == d[0] && epN == Links.Last(d) && Disjoint([Sentinel(hp, link)] + xs, d)
      modifies this
      ensures Defined(h, AfterAt(Sentinel(hp, link), ep1, epN))
      ensures var h' := Apply(h, AfterAt(Sentinel(hp, link), ep1, epN));
              Changes(old(cells), cells, link, h, h') && Ring(h', Sentinel(hp, link), d + xs)
      ensures hp in old(cells)
      ensures var q := old(cells)[hp];
              cells == old(cells)[ep1 + link + 8 := hp - link][epN + link := q][q + link + 8 := epN][hp := ep1]
    {
      SpliceHeadRing(h, Sentinel(hp, link), xs, d);
      SpliceAfter(Sentinel(hp, link), ep1, epN, link, h);
    }

    method SpliceTail(hp: int, ep1: Node, epN: Node, link: int, ghost h: Heap, ghost xs: seq<Node>, ghost d: seq<Node>)
      requires Shows(cells, link, h) && Ring(h, Sentinel(hp, link), xs) && Chain(h, d)
      requires ep1 == d[0] && epN == Links.Last(d) && Disjoint([Sentinel(hp, link)] + xs, d)
      modifies this
      ensures Defined(h, BeforeAt(Sentinel(hp, link), ep1, epN))
      ensures var h' := Apply(h, BeforeAt(Sentinel(hp, link), ep1, epN));
              Changes(old(cells), cells, link, h, h') && Ring(h', Sentinel(hp, link), xs + d)
      ensures hp + 8 in old(cells)
      ensures var p := old(cells)[hp + 8];
              cells == old(cells)[epN + link := hp - link][ep1 + link + 8 := p][p + link := ep1][hp + 8 := epN]
    {
      SpliceTailRing(h, Sentinel(hp, link), xs, d);
      SpliceBefore(Sentinel(hp, link), ep1, epN, link, h);
    }

    method InsertHead(hp: int, nep: Node, link: int, ghost h: Heap, ghost xs: seq<Node>)
      requires Shows(cells, link, h) && Ring(h, Sentinel(hp, link), xs)
      requires On(h, nep) && nep !in [Sentinel(hp, link)] + xs
      modifies this
      ensures Defined(h, AfterAt(Sentinel(hp, link), nep, nep))
      ensures var h' := Apply(h, AfterAt(Sentinel(hp, link), nep, nep));
              Changes(old(cells), cells, link, h, h') && Ring(h', Sentinel(hp, link), [nep] + xs)
      ensures hp in old(cells)
      ensures var q := old(cells)[hp];
              cells == old(cells)[nep + link + 8 := hp - link][nep + link := q][q + link + 8 := nep][hp := nep]
    {
      SpliceHead(hp, nep, nep, link, h, xs, [nep]);
    }

    method InsertTail(hp: int, nep: Node, link: int, ghost h: Heap, ghost xs: seq<Node>)
      requires Shows(cells, link, h) && Ring(h, Sentinel(hp, link), xs)
      requires On(h, nep) && nep !in [Sentinel(hp, link)] + xs
      modifies this
      ensures Defined(h, BeforeAt(Sentinel(hp, link), nep, nep))
      ensures var h' := Apply(h, BeforeAt(Sentinel(hp, link), nep, nep));
              Changes(old(cells), cells, link, h, h') && Ring(h', Sentinel(hp, link), xs + [nep])
      ensures hp + 8 in old(cells)
      ensures var p := old(cells)[hp + 8];
              cells == old(cells)[nep + link := hp - link][nep + link + 8 := p][p + link := nep][hp + 8 := nep]
    {
      SpliceTail(hp, nep, nep, link, h, xs, [nep]);
    }

    /** SPLICE_BEFORE(s1, FIRST(hp2), LAST(hp2)) with its arguments substituted by name: they are read
        again at each use, between the writes. */
    method SpliceTailByName(hp1: int, hp2: int, link: int, ghost h: Heap)
      requires Shows(cells, link, h) && Defined(h, ConcatAt(Sentinel(hp1, link), Sentinel(hp2, link)))
      requires var s2 := Sentinel(hp2, link); h.next[s2] != s2 && h.prev[s2] != s2
      modifies this
      ensures var s1, s2 := Sentinel(hp1, link), Sentinel(hp2, link);
              Changes(old(cells), cells, link, h, Splice.SpliceBefore(h, s1, h.next[s2], h.prev[s2]))
    {
      var s1 := Sentinel(hp1, link);
      ghost var f, l, p := First(hp2, link, h), Last(hp2, link, h), Last(hp1, link, h);
      ghost var h1 := Heap(h.next[l := s1], h.prev);
      ghost var h2 := Heap(h1.next, h.prev[f := p]);
      ghost var h3 := Heap(h1.next[p := f], h2.prev);
      SetNext(Last(hp2, link, h), link, s1, h);
      SetPrev(First(hp2, link, h1), link, Prev(s1, link, h1), h1);
      SetNext(Prev(s1, link, h2), link, First(hp2, link, h2), h2);
      SetPrev(s1, link, Last(hp2, link, h3), h3);
    }

    /** SPLICE_AFTER(s1, FIRST(hp2), LAST(hp2)), by name likewise. */
    method SpliceHeadByName(hp1: int, hp2: int, link: int, ghost h: Heap)
      requires Shows(cells, link, h) && Defined(h, PrependAt(Sentinel(hp1, link), Sentinel(hp2, link)))
      requires var s2 := Sentinel(hp2, link); h.next[s2] != s2 && h.prev[s2] != s2
      modifies this
      ensures var s1, s2 := Sentinel(hp1, link), Sentinel(hp2, link);
              Changes(old(cells), cells, link, h, Splice.SpliceAfter(h, s1, h.next[s2], h.prev[s2]))
    {
      var s1 := Sentinel(hp1, link);
      ghost var f, l, q := First(hp2, link, h), Last(hp2, link, h), First(hp1, link, h);
      ghost var h1 := Heap(h.next, h.prev[f := s1]);
      ghost var h2 := Heap(h.next[l := q], h1.prev);
      ghost var h3 := Heap(h2.next, h1.prev[q := l]);
      SetPrev(First(hp2, link, h), link, s1, h);
      SetNext(Last(hp2, link, h1), link, Next(s1, link, h1), h1);
      SetPrev(Next(s1, link, h2), link, Last(hp2, link, h2), h2);
      SetNext(s1, link, First(hp2, link, h3), h3);
    }

    /** Although FIRST(h2) and LAST(h2) are read again at each use, the result is that of reading them
        once, unless h2's two pointers disagree on whether it is empty. */
    method Concat(hp1: int, hp2: int, link: int, ghost h: Heap)
      requires Shows(cells, link, h) && Defined(h, ConcatAt(Sentinel(hp1, link), Sentinel(hp2, link)))
      requires var s2 := Sentinel(hp2, link); h.prev[s2] == s2 ==> h.next[s2] == s2
      modifies this
      ensures Changes(old(cells), cells, link, h, Apply(h, ConcatAt(Sentinel(hp1, link), Sentinel(hp2, link))))
      ensures hp2 in old(cells) && hp2 + 8 in old(cells) && hp1 + 8 in old(cells)
      ensures var f, l, p := old(cells)[hp2], old(cells)[hp2 + 8], old(cells)[hp1 + 8];
              cells == if f == hp2 - link then old(cells) else
                old(cells)[l + link := hp1 - link][f + link + 8 := p][p + link := f][hp1 + 8 := l]
                          [hp2 := hp2 - link][hp2 + 8 := hp2 - link]
    {
      ghost var f, l, p := First(hp2, link, h), Last(hp2, link, h), Last(hp1, link, h);
      if First(hp2, link, h) != Sentinel(hp2, link) {
        SpliceTailByName(hp1, hp2, link, h);
        TailCells(old(cells), cells, hp1, link, h, f, l);
        Init(hp2, link, Splice.SpliceBefore(h, Sentinel(hp1, link), f, l));
      }
    }

    method Prepend(hp1: int, hp2: int, link: int, ghost h: Heap)
      requires Shows(cells, link, h) && Defined(h, PrependAt(Sentinel(hp1, link), Sentinel(hp2, link)))
      requires var s2 := Sentinel(hp2, link); h.prev[s2] == s2 ==> h.next[s2] == s2
      modifies this
      ensures Changes(old(cells), cells, link, h, Apply(h, PrependAt(Sentinel(hp1, link), Sentinel(hp2, link))))
      ensures hp2 in old(cells) && hp2 + 8 in old(cells) && hp1 in old(cells)
      ensures var f, l, q := old(cells)[hp2], old(cells)[hp2 + 8], old(cells)[hp1];
              cells == if f == hp2 - link then old(cells) else
                old(cells)[f + link + 8 := hp1 - link][l + link := q][q + link + 8 := l][hp1 := f]
                          [hp2 := hp2 - link][hp2 + 8 := hp2 - link]
    {
      ghost var f, l, q := First(hp2, link, h), Last(hp2, link, h), First(hp1, link, h);
      if First(hp2, link, h) != Sentinel(hp2, link) {
        SpliceHeadByName(hp1, hp2, link, h);
        HeadCells(old(cells), cells, hp1, link, h, f, l);
        Init(hp2, link, Splice.SpliceAfter(h, Sentinel(hp1, link), f, l));
      }
    }

    method Unsplice(ep1: Node, epN: Node, link: int, ghost h: Heap)
      requires Shows(cells, link, h) && Defined(h, UnspliceAt(ep1, epN))
      modifies this
      ensures Changes(old(cells), cells, link, h, Apply(h, UnspliceAt(ep1, epN)))
      ensures ep1 + link + 8 in old(cells) && epN + link in old(cells)
      ensures var p, q := old(cells)[ep1 + link + 8], old(cells)[epN + link];
              cells == old(cells)[p + link := q][q + link + 8 := p]
    {
      ghost var p, q := h.prev[ep1], h.next[epN];
      ghost var h1 := Heap(h.next[p := q], h.prev);
      SetNext(Prev(ep1, link, h), link, Next(epN, link, h), h);
      SetPrev(Next(epN, link, h1), link, Prev(ep1, link, h1), h1);
    }

    method Remove(ep: Node, link: int, ghost h: Heap)
      requires Shows(cells, link, h) && Defined(h, UnspliceAt(ep, ep))
      modifies this
      ensures Changes(old(cells), cells, link, h, Apply(h, UnspliceAt(ep, ep)))
      ensures ep + link + 8 in old(cells) && ep + link in old(cells)
      ensures var p, q := old(cells)[ep + link + 8], old(cells)[ep + link];
              cells == old(cells)[p + link := q][q + link + 8 := p]
    {
      Unsplice(ep, ep, link, h);
    }

    /** REMOVE of the expression APR_RING_FIRST(hp), read again at each use. */
    method RemoveFirstByName(hp: int, link: int, ghost h: Heap, ghost xs: seq<Node>)
      requires Shows(cells, link, h) && Ring(h, Sentinel(hp, link), xs)
      modifies this
      ensures var s := Sentinel(hp, link);
              && On(h, s) && On(h, h.next[s]) && h.prev[h.next[s]] == s && On(h, h.next[h.next[s]])
              && Changes(old(cells), cells, link, h, Splice.RemoveFirstByName(h, s))
    {
      var s := Sentinel(hp, link);
      RemoveFirstNeedsAValue(h, s, xs);
      ghost var h1 := Heap(h.next[h.prev[h.next[s]] := h.next[h.next[s]]], h.prev);
      ghost var c := [s] + xs;
      assert c[0] in c;
      NeighboursOnRing(h, c, s);
      NeighboursOnRing(h, c, h.next[s]);
      NeighboursOnRing(h, c, h.next[h.next[s]]);
      SetNext(Prev(First(hp, link, h), link, h), link, Next(First(hp, link, h), link, h), h);
      SetPrev(Next(First(hp, link, h1), link, h1), link, Prev(First(hp, link, h1), link, h1), h1);
    }

    /** REMOVE of the expression APR_RING_LAST(hp), read again at each use. */
    method RemoveLastByName(hp: int, link: int, ghost h: Heap, ghost xs: seq<Node>)
      requires Shows(cells, link, h) && Ring(h, Sentinel(hp, link), xs)
      modifies this
      ensures var s := Sentinel(hp, link);
              && On(h, s) && On(h, h.prev[s]) && On(h, h.prev[h.prev[s]]) && On(h, h.next[h.prev[s]])
              && Changes(old(cells), cells, link, h, Splice.RemoveLastByName(h, s))
    {
      var s := Sentinel(hp, link);
      RemoveLastIsSafe(h, s, xs);
      ghost var h1 := Heap(h.next[h.prev[h.prev[s]] := h.next[h.prev[s]]], h.prev);
      SetNext(Prev(Last(hp, link, h), link, h), link, Next(Last(hp, link, h), link, h), h);
      SetPrev(Next(Last(hp, link, h1), link, h1), link, Prev(Last(hp, link, h1), link, h1), h1);
    }
  }
}
