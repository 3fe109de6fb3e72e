/** The ring macros that write memory, as data, and their meaning on a heap. */
module Macros {
  import opened Links
  import opened Splice

  /** A macro call with its arguments evaluated.  Heads appear as their sentinels.  APR_RING_INIT
      and APR_RING_ELEM_INIT make the same two assignments, to a sentinel and to an element. */
  datatype Macro =
    | InitAt(x: Node)
    | BeforeAt(lep: Node, ep1: Node, epN: Node)
    | AfterAt(lep: Node, ep1: Node, epN: Node)
    | UnspliceAt(ep1: Node, epN: Node)
    | ConcatAt(s1: Node, s2: Node)
    | PrependAt(s1: Node, s2: Node)
    | Nothing

  /** Every pointer the macro follows or overwrites exists. */
  predicate Defined(h: Heap, m: Macro) {
    match m
    case InitAt(x) => On(h, x)
    case BeforeAt(lep, ep1, epN) => On(h, lep) && On(h, h.prev[lep]) && On(h, ep1) && On(h, epN)
    case AfterAt(lep, ep1, epN) => On(h, lep) && On(h, h.next[lep]) && On(h, ep1) && On(h, epN)
    case UnspliceAt(ep1, epN) => On(h, ep1) && On(h, epN) && On(h, h.prev[ep1]) && On(h, h.next[epN])
    case ConcatAt(s1, s2) =>
      On(h, s1) && On(h, s2) && On(h, h.prev[s1]) && On(h, h.next[s2]) && On(h, h.prev[s2])
    case PrependAt(s1, s2) =>
      On(h, s1) && On(h, s2) && On(h, h.next[s1]) && On(h, h.next[s2]) && On(h, h.prev[s2])
    case Nothing => true
  }

  function Apply(h: Heap, m: Macro): (h': Heap)
    requires Defined(h, m)
    ensures SameNodes(h, h')
  {
    match m
    case InitAt(x) => SelfLink(h, x)
    case BeforeAt(lep, ep1, epN) => SpliceBefore(h, lep, ep1, epN)
    case AfterAt(lep, ep1, epN) => SpliceAfter(h, lep, ep1, epN)
    case UnspliceAt(ep1, epN) => Unsplice(h, ep1, epN)
    case ConcatAt(s1, s2) => Concat(h, s1, s2)
    case PrependAt(s1, s2) => Prepend(h, s1, s2)
    case Nothing => h
  }
}
