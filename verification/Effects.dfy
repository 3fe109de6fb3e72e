/** What each step does, spelled out: when it can be taken, the pointers that its macro writes, and the
    rings and chains afterwards. */
module Effects {
  import opened Links
  import opened Splice
  import opened Macros
  import opened Forests

  /** APR_RING_INIT empties a head's ring; APR_RING_ELEM_INIT makes an element a ring of its own.  The
      elements that were with it are left behind as a chain. */
  lemma InitEffect(h: Heap, f: Forest, k: Node)
    requires Represents(h, f) && k in f.runs
    ensures Enabled(f, Init(k)) && Defined(h, Call(f, Init(k))) && f.runs[k] != []
    ensures Apply(h, Call(f, Init(k))) == Heap(h.next[k := k], h.prev[k := k])
    ensures var f', rest := Post(f, Init(k)), f.runs[k][1..];
            && f'.heads == f.heads && f'.loops == (if k in f.heads then f.loops else f.loops + {k})
            && f'.runs == if rest == [] then f.runs[k := [k]] else f.runs[k := [k]][rest[0] := rest]
    ensures var rest := f.runs[k][1..]; rest != [] ==> rest[0] !in f.runs
  {
    StepRefines(h, f, Init(k));
    assert Holds(h, f, k);
    if |f.runs[k]| > 1 {
      EndsDiffer(f.runs[k]);
      OwnKey(f, k, f.runs[k][1]);
    } else {
      assert f.runs[k] == [k];
    }
  }

  /** SPLICE_BEFORE: the run filed under c comes before node number `at` of ring k, which is last before
      node number 0. */
  lemma BeforeEffect(h: Heap, f: Forest, k: Node, at: nat, c: Node)
    requires Represents(h, f) && (k in f.heads || k in f.loops) && k in f.runs && at < |f.runs[k]|
    requires c in f.runs && c !in f.heads && c != k
    ensures Enabled(f, Before(k, at, c)) && Defined(h, Call(f, Before(k, at, c))) && f.runs[c] != []
    ensures var x, l := f.runs[k][at], f.runs[c][|f.runs[c]| - 1];
            && x in h.prev
            && Apply(h, Call(f, Before(k, at, c))) ==
               Heap(h.next[l := x][h.prev[x] := c], h.prev[c := h.prev[x]][x := l])
    ensures var xs := f.runs[k];
            && Post(f, Before(k, at, c)).heads == f.heads && Post(f, Before(k, at, c)).loops == f.loops - {c}
            && Post(f, Before(k, at, c)).runs ==
               (f.runs - {c})[k := if at == 0 then xs + f.runs[c] else xs[..at] + f.runs[c] + xs[at..]]
  {
    StepRefines(h, f, Before(k, at, c));
    var xs := f.runs[k];
    assert Insert(xs, |xs|, f.runs[c]) == xs + f.runs[c];
  }

  /** SPLICE_AFTER: the run filed under c comes after node number `at` of ring k. */
  lemma AfterEffect(h: Heap, f: Forest, k: Node, at: nat, c: Node)
    requires Represents(h, f) && (k in f.heads || k in f.loops) && k in f.runs && at < |f.runs[k]|
    requires c in f.runs && c !in f.heads && c != k
    ensures Enabled(f, After(k, at, c)) && Defined(h, Call(f, After(k, at, c))) && f.runs[c] != []
    ensures var x, l := f.runs[k][at], f.runs[c][|f.runs[c]| - 1];
            && x in h.next
            && Apply(h, Call(f, After(k, at, c))) ==
               Heap(h.next[l := h.next[x]][x := c], h.prev[c := x][h.next[x] := l])
    ensures var xs := f.runs[k];
            && Post(f, After(k, at, c)).heads == f.heads && Post(f, After(k, at, c)).loops == f.loops - {c}
            && Post(f, After(k, at, c)).runs == (f.runs - {c})[k := xs[..at + 1] + f.runs[c] + xs[at + 1..]]
  {
    StepRefines(h, f, After(k, at, c));
  }

  /** UNSPLICE: nodes lo to hi - 1 of ring k become a chain. */
  lemma TakeEffect(h: Heap, f: Forest, k: Node, lo: nat, hi: nat)
    requires Represents(h, f) && (k in f.heads || k in f.loops) && k in f.runs && 1 <= lo < hi <= |f.runs[k]|
    ensures Enabled(f, Take(k, lo, hi)) && Defined(h, Call(f, Take(k, lo, hi)))
    ensures var x, y := f.runs[k][lo], f.runs[k][hi - 1];
            && x in h.prev && y in h.next && x !in f.runs
            && Apply(h, Call(f, Take(k, lo, hi))) == Heap(h.next[h.prev[x] := h.next[y]], h.prev[h.next[y] := h.prev[x]])
            && Post(f, Take(k, lo, hi)) ==
               f.(runs := f.runs[k := f.runs[k][..lo] + f.runs[k][hi..]][x := f.runs[k][lo..hi]])
  {
    StepRefines(h, f, Take(k, lo, hi));
    assert Holds(h, f, k);
    EndsDiffer(f.runs[k]);
    OwnKey(f, k, f.runs[k][lo]);
  }

  /** UNSPLICE of all of a headless ring. */
  lemma TakeAllEffect(h: Heap, f: Forest, k: Node)
    requires Represents(h, f) && k in f.loops && k in f.runs
    ensures var s := Take(k, 0, |f.runs[k]|);
            Enabled(f, s) && Defined(h, Call(f, s)) && Apply(h, Call(f, s)) == h && Post(f, s) == f
  {
    StepRefines(h, f, Take(k, 0, |f.runs[k]|));
    assert Holds(h, f, k);
    UnspliceWhole(h, f.runs[k]);
  }

  /** UNSPLICE of a chain that is on no ring writes where its outer pointers lead. */
  lemma AgainEffect(h: Heap, f: Forest, c: Node)
    requires Represents(h, f) && c in f.runs && c !in f.heads && c !in f.loops
    requires var l := f.runs[c][|f.runs[c]| - 1];
             c in h.prev && l in h.next && On(h, h.prev[c]) && On(h, h.next[l])
    ensures Enabled(f, Again(c)) && Post(f, Again(c)) == f && Defined(h, Call(f, Again(c)))
    ensures var l := f.runs[c][|f.runs[c]| - 1];
            Apply(h, Call(f, Again(c))) == Heap(h.next[h.prev[c] := h.next[l]], h.prev[h.next[l] := h.prev[c]])
  {
    assert Holds(h, f, c) && c in f.runs[c] && Last(f.runs[c]) in f.runs[c];
  }

  /** CONCAT: what ring k held follows what ring j held. */
  lemma CatEffect(h: Heap, f: Forest, j: Node, k: Node)
    requires Represents(h, f) && j in f.heads && k in f.heads && j in f.runs && k in f.runs && j != k
    ensures Enabled(f, Cat(j, k)) && Defined(h, Call(f, Cat(j, k))) && f.runs[k] != []
    ensures Post(f, Cat(j, k)) == f.(runs := f.runs[j := f.runs[j] + f.runs[k][1..]][k := [k]])
    ensures k in h.next && k in h.prev && j in h.prev
    ensures var x, l, p := h.next[k], h.prev[k], h.prev[j];
            Apply(h, Call(f, Cat(j, k))) == if x == k then h else
              Heap(h.next[l := j][p := x][k := k], h.prev[x := p][j := l][k := k])
  {
    StepRefines(h, f, Cat(j, k));
    assert f.runs[j] + f.runs[k][1..] == [j] + (Contents(f, j) + Contents(f, k));
  }

  /** PREPEND: what ring k held precedes what ring j held. */
  lemma PreEffect(h: Heap, f: Forest, j: Node, k: Node)
    requires Represents(h, f) && j in f.heads && k in f.heads && j in f.runs && k in f.runs && j != k
    ensures Enabled(f, Pre(j, k)) && Defined(h, Call(f, Pre(j, k))) && f.runs[j] != [] && f.runs[k] != []
    ensures Post(f, Pre(j, k)) == f.(runs := f.runs[j := [j] + f.runs[k][1..] + f.runs[j][1..]][k := [k]])
    ensures k in h.next && k in h.prev && j in h.next
    ensures var x, l, q := h.next[k], h.prev[k], h.next[j];
            Apply(h, Call(f, Pre(j, k))) == if x == k then h else
              Heap(h.next[l := q][j := x][k := k], h.prev[x := j][q := l][k := k])
  {
    StepRefines(h, f, Pre(j, k));
    assert [j] + f.runs[k][1..] + f.runs[j][1..] == [j] + (Contents(f, k) + Contents(f, j));
  }

  /** The steps without a macro write no pointer: a chain is regarded as two, a headless ring as a chain,
      or read from another of its nodes. */
  lemma RegardEffect(h: Heap, f: Forest, k: Node, at: nat)
    requires Represents(h, f) && k in f.runs && k !in f.heads && at < |f.runs[k]|
    ensures k !in f.loops && at > 0 ==>
      && Enabled(f, Regroup(k, at)) && Apply(h, Call(f, Regroup(k, at))) == h && f.runs[k][at] !in f.runs
      && Post(f, Regroup(k, at)) == f.(runs := f.runs[k := f.runs[k][..at]][f.runs[k][at] := f.runs[k][at..]])
    ensures k in f.loops ==>
      && Enabled(f, Open(k)) && Apply(h, Call(f, Open(k))) == h && Post(f, Open(k)) == f.(loops := f.loops - {k})
    ensures k in f.loops ==>
      && Enabled(f, Turn(k, at)) && Apply(h, Call(f, Turn(k, at))) == h
      && Post(f, Turn(k, at)) == f.(loops := f.loops - {k} + {f.runs[k][at]},
                                    runs := (f.runs - {k})[f.runs[k][at] := f.runs[k][at..] + f.runs[k][..at]])
  {
    if at > 0 {
      assert Holds(h, f, k);
      EndsDiffer(f.runs[k]);
      OwnKey(f, k, f.runs[k][at]);
    }
  }
}
