/** Bucket brigades: rings of buckets that carry a length, and the macros that wrap the ring macros. */
module Brigades {
  import opened Links
  import opened Splice
  import opened Macros
  import opened Layout
  import opened Forests
  import opened RingMemory

  /** A bucket's ring entry is its first field; its length field follows the entry and the type pointer. */
  const LINK: int := 0
  const LENGTH: int := 24
  const BUCKET_SIZE: int := 64

  /** (apr_size_t)(-1): the length of the bucket's data is not known. */
  const UNKNOWN: int := 0xFFFF_FFFF_FFFF_FFFF

  /** A brigade's list head lies behind its pool pointer. */
  const LIST: int := 8

  function ListHead(b: int): Node {
    Sentinel(b + LIST, LINK)
  }

  /** The memory, and the heap and the forest of brigades and detached buckets that are in it. */
  datatype State = State(m: Cells, h: Heap, f: Forest)

  /** Every node that is not a brigade's head is a bucket, and a bucket's bytes belong to nothing else. */
  ghost predicate Valid(s: State) {
    && Shows(s.m, LINK, s.h) && Represents(s.h, s.f)
    && forall e {:trigger IsBucket(s, e)} | e in s.h.next && e !in s.f.heads :: IsBucket(s, e)
  }

  ghost predicate IsBucket(s: State, e: Node) {
    && e + LENGTH in s.m && 0 <= s.m[e + LENGTH] <= UNKNOWN
    && forall x {:trigger Clear(e, x)} | x in s.h.next && x != e :: Clear(e, x)
  }

  /** The ring entry at x lies outside the bucket at e. */
  predicate Clear(e: Node, x: Node) {
    x + 2 * WORD <= e || e + BUCKET_SIZE <= x
  }

  /** What a state holds together by: a bucket is 64 bytes, its ring entry first and its length at 24, and
      no other ring entry lies in it. */
  lemma ValidMeans(s: State)
    ensures Valid(s) <==>
      && Shows(s.m, 0, s.h) && Represents(s.h, s.f)
      && (forall e | e in s.h.next && e !in s.f.heads :: e + 24 in s.m && 0 <= s.m[e + 24] <= 0xFFFF_FFFF_FFFF_FFFF)
      && (forall e, x | e in s.h.next && e !in s.f.heads && x in s.h.next && x != e :: x + 16 <= e || e + 64 <= x)
  {
    if Valid(s) {
      forall e | e in s.h.next && e !in s.f.heads ensures IsBucket(s, e) {}
      forall e, x | e in s.h.next && e !in s.f.heads && x in s.h.next && x != e ensures x + 16 <= e || e + 64 <= x {
        assert IsBucket(s, e) && Clear(e, x);
      }
    }
  }

  function KnownLength(m: Cells, e: Node): int {
    if e + LENGTH in m && 0 <= m[e + LENGTH] < UNKNOWN then m[e + LENGTH] else 0
  }

  /** The bytes known to be in a list of buckets. */
  function Known(m: Cells, es: seq<Node>): int {
    if es == [] then 0 else KnownLength(m, es[0]) + Known(m, es[1..])
  }

  /** A bucket's length is known unless its length field holds -1; and what is known of a list adds up. */
  lemma KnownMeans(m: Cells, e: Node, es: seq<Node>)
    requires e + 24 in m && 0 <= m[e + 24] <= 0xFFFF_FFFF_FFFF_FFFF
    ensures Known(m, []) == 0
    ensures Known(m, es + [e]) == Known(m, es) + if m[e + 24] == 0xFFFF_FFFF_FFFF_FFFF then 0 else m[e + 24]
  {
    KnownJoin(m, es, [e]);
    assert Known(m, [e]) == KnownLength(m, e) + Known(m, [e][1..]);
  }

  lemma {:induction false} KnownJoin(m: Cells, a: seq<Node>, b: seq<Node>)
    ensures Known(m, a + b) == Known(m, a) + Known(m, b)
  {
    if a == [] {
      assert a + b == b;
    } else {
      KnownJoin(m, a[1..], b);
      assert (a + b)[1..] == a[1..] + b;
    }
  }

  lemma {:induction false} KnownSame(m: Cells, m': Cells, es: seq<Node>)
    requires forall e | e in es :: KnownLength(m', e) == KnownLength(m, e)
    ensures Known(m', es) == Known(m, es)
  {
    if es == [] {
    } else {
      assert es[0] in es && forall e | e in es[1..] :: e in es;
      KnownSame(m, m', es[1..]);
    }
  }

  // ---- Steps ----

  datatype BrigadeStep =
    | Relink(step: Step)    // a ring macro on the buckets' entries
    | Destroy(e: Node)      // apr_bucket_destroy of a detached bucket

  ghost predicate CanDo(f: Forest, b: BrigadeStep) {
    match b
    case Relink(step) => Enabled(f, step)
    case Destroy(e) => Detached(f, e)
  }

  /** A bucket by itself: on no brigade, and on no chain or loop with another. */
  ghost predicate Detached(f: Forest, e: Node) {
    e in f.runs && e !in f.heads && f.runs[e] == [e]
  }

  function Drop(f: Forest, e: Node): Forest {
    f.(loops := f.loops - {e}, runs := f.runs - {e})
  }

  /** free(): the bucket's cells are gone. */
  function Free(m: Cells, e: Node): Cells {
    map a | a in m && !(e <= a < e + BUCKET_SIZE) :: m[a]
  }

  function Forget(h: Heap, e: Node): Heap {
    Heap(h.next - {e}, h.prev - {e})
  }

  ghost predicate Happens(s: State, s': State, b: BrigadeStep)
    requires Valid(s) && CanDo(s.f, b)
  {
    match b
    case Relink(step) =>
      && Safe(s.h, s.f, step) && Defined(s.h, Call(s.f, step))
      && s'.h == Apply(s.h, Call(s.f, step)) && s'.f == Post(s.f, step)
      && Changes(s.m, s'.m, LINK, s.h, s'.h)
    case Destroy(e) =>
      s' == State(Free(s.m, e), Forget(s.h, e), Drop(s.f, e))
  }

  lemma BucketStays(s: State, s': State, e: Node)
    requires Valid(s) && e in s.h.next && e !in s.f.heads
    requires OnlyEntries(s.m, s'.m, LINK, s.h.next.Keys) && s'.h.next.Keys == s.h.next.Keys
    ensures IsBucket(s', e) && KnownLength(s'.m, e) == KnownLength(s.m, e)
  {
    LengthCell(s, e);
    assert IsBucket(s, e);
  }

  /** What every relinking step has in common. */
  ghost predicate Relinked(s: State, s': State) {
    && Changes(s.m, s'.m, LINK, s.h, s'.h) && Represents(s'.h, s'.f)
    && s'.f.heads == s.f.heads
  }

  lemma StepIsRelinked(s: State, s': State, step: Step)
    requires Valid(s) && Enabled(s.f, step) && Happens(s, s', Relink(step))
    ensures Relinked(s, s')
  {
    StepRefines(s.h, s.f, step);
  }

  /** Relinking leaves every bucket's length alone. */
  lemma RelinkKeepsValid(s: State, s': State)
    requires Valid(s) && Relinked(s, s')
    ensures Valid(s')
    ensures forall e | e in s.h.next && e !in s.f.heads :: KnownLength(s'.m, e) == KnownLength(s.m, e)
  {
    forall e | e in s.h.next && e !in s.f.heads
      ensures IsBucket(s', e) && KnownLength(s'.m, e) == KnownLength(s.m, e)
    {
      BucketStays(s, s', e);
    }
  }

  /** No ring macro can write a bucket's length. */
  lemma LengthCell(s: State, e: Node)
    requires Valid(s) && e in s.h.next && e !in s.f.heads
    ensures e + LENGTH in s.m && !InEntry(LINK, s.h.next.Keys, e + LENGTH)
  {
    assert IsBucket(s, e);
    var a := e + LENGTH;
    assert Clear(e, a - LINK) || a - LINK !in s.h.next;
    assert Clear(e, a - LINK - WORD) || a - LINK - WORD !in s.h.next;
  }

  // ---- Destroying a bucket ----

  lemma ForgetRun(h: Heap, e: Node, c: seq<Node>)
    requires Chain(h, c) && e !in c
    ensures Chain(Forget(h, e), c) && (Cycle(h, c) ==> Cycle(Forget(h, e), c))
  {
    var h' := Forget(h, e);
    assert forall i | 0 <= i < |c| :: c[i] in c;
    forall i: nat | i + 1 < |c| ensures Adjacent(h', c, i) { assert Adjacent(h, c, i); }
  }

  lemma ForgetRuns(h: Heap, f: Forest, e: Node)
    requires Represents(h, f) && Detached(f, e)
    ensures Represents(Forget(h, e), Drop(f, e))
  {
    var f' := Drop(f, e);
    assert e in f.runs[e];
    forall k | k in f'.runs ensures Holds(Forget(h, e), f', k) && e !in f'.runs[k] {
      assert Holds(h, f, k) && Disjoint(f.runs[e], f.runs[k]);
      ForgetRun(h, e, f.runs[k]);
    }
  }

  lemma FreedCells(s: State, e: Node)
    requires Valid(s) && e in s.h.next && e !in s.f.heads
    ensures Shows(Free(s.m, e), LINK, Forget(s.h, e))
  {
    var m', h' := Free(s.m, e), Forget(s.h, e);
    assert IsBucket(s, e);
    assert h'.next.Keys == s.h.next.Keys - {e} && h'.prev.Keys == s.h.prev.Keys - {e};
    forall x | x in h'.next ensures On(h', x) && Stored(m', LINK, h', x) {
      assert Stored(s.m, LINK, s.h, x) && Clear(e, x);
    }
    forall x, y | x in h'.next.Keys && y in h'.next.Keys ensures NoOverlap(x, y) {}
  }

  lemma BucketSurvives(s: State, s': State, e: Node, x: Node)
    requires Valid(s) && e in s.h.next && e !in s.f.heads && x in s.h.next && x !in s.f.heads && x != e
    requires s'.m == Free(s.m, e) && s'.h.next.Keys <= s.h.next.Keys
    ensures IsBucket(s', x) && KnownLength(s'.m, x) == KnownLength(s.m, x)
  {
    assert IsBucket(s, x) && IsBucket(s, e);
    assert Clear(x, e) && Clear(e, x);
  }

  /** A freed bucket takes nothing with it: all other buckets, their order and their lengths stay. */
  lemma DestroyKeepsValid(s: State, s': State, e: Node)
    requires Valid(s) && e in s.f.runs && e !in s.f.heads && s.f.runs[e] == [e]
    requires s' == State(Free(s.m, e), Forget(s.h, e), Drop(s.f, e))
    ensures CanDo(s.f, Destroy(e)) && Happens(s, s', Destroy(e)) && Valid(s')
    ensures forall a :: a in s'.m <==> a in s.m && !(e <= a < e + 64)
    ensures forall a | a in s'.m :: s'.m[a] == s.m[a]
    ensures s'.h == Heap(s.h.next - {e}, s.h.prev - {e})
    ensures s'.f == Forest(s.f.heads, s.f.loops - {e}, s.f.runs - {e})
    ensures s'.h.next.Keys == s.h.next.Keys - {e}
    ensures forall x | x in s.h.next && x !in s.f.heads && x != e :: KnownLength(s'.m, x) == KnownLength(s.m, x)
  {
    ForgetRuns(s.h, s.f, e);
    assert Holds(s.h, s.f, e) && e in s.f.runs[e];
    FreedCells(s, e);
    forall x | x in s.h.next && x !in s.f.heads && x != e
      ensures IsBucket(s', x) && KnownLength(s'.m, x) == KnownLength(s.m, x)
    {
      BucketSurvives(s, s', e, x);
    }
  }

  // ---- Accounts ----

  /** The bytes by which a step changes what brigade r is known to hold. */
  ghost function Gain(s: State, b: BrigadeStep, r: Node): int
    requires WellFormed(s.f) && CanDo(s.f, b) && r in s.f.heads
  {
    if b.Destroy? then 0 else
    match b.step
    case Init(k) => if r == k then -Known(s.m, Contents(s.f, k)) else 0
    case Before(k, _, c) => if r == k then Known(s.m, s.f.runs[c]) else 0
    case After(k, _, c) => if r == k then Known(s.m, s.f.runs[c]) else 0
    case Take(k, lo, hi) => if r == k then -Known(s.m, s.f.runs[k][lo..hi]) else 0
    case Again(_) => 0
    case Cat(j, k) => if r == j then Known(s.m, Contents(s.f, k)) else if r == k then -Known(s.m, Contents(s.f, k)) else 0
    case Pre(j, k) => if r == j then Known(s.m, Contents(s.f, k)) else if r == k then -Known(s.m, Contents(s.f, k)) else 0
    case Regroup(_, _) => 0
    case Open(_) => 0
    case Turn(_, _) => 0
  }

  /** On unchanged lengths, the sequence-level step changes brigade r's known bytes by its gain. */
  ghost predicate Gains(s: State, step: Step, r: Node)
    requires WellFormed(s.f) && Enabled(s.f, step) && r in s.f.heads
  {
    var f' := Post(s.f, step);
    && r in f'.runs && f'.runs[r] != []
    && Known(s.m, Contents(f', r)) == Known(s.m, Contents(s.f, r)) + Gain(s, Relink(step), r)
  }

  lemma PostGain(s: State, step: Step, r: Node)
    requires Represents(s.h, s.f) && Enabled(s.f, step) && r in s.f.heads
    ensures Gains(s, step, r)
  {
    match step
    case Init(k) => InitGain(s, k, r);
    case Before(k, at, c) => SpliceGain(s, k, at, c, r);
    case After(k, at, c) => SpliceGain(s, k, at, c, r);
    case Take(k, lo, hi) => TakeGain(s, k, lo, hi, r);
    case Again(_) =>
    case Cat(j, k) => KnownJoin(s.m, Contents(s.f, j), Contents(s.f, k));
    case Pre(j, k) => KnownJoin(s.m, Contents(s.f, k), Contents(s.f, j));
    case Regroup(c, at) => NotAKey(s.h, s.f, c, at);
    case Open(_) =>
    case Turn(k, at) => if at > 0 { NotAKey(s.h, s.f, k, at); }
  }

  lemma InitGain(s: State, k: Node, r: Node)
    requires Represents(s.h, s.f) && k in s.f.runs && r in s.f.heads
    ensures Gains(s, Init(k), r)
  {
    if |s.f.runs[k]| > 1 { NotAKey(s.h, s.f, k, 1); }
  }

  lemma SpliceGain(s: State, k: Node, at: nat, c: Node, r: Node)
    requires Represents(s.h, s.f) && CanSplice(s.f, k, at, c) && r in s.f.heads
    ensures Gains(s, Before(k, at, c), r) && Gains(s, After(k, at, c), r)
  {
    if r == k {
      var xs, d := s.f.runs[k], s.f.runs[c];
      InsertKnown(s.m, xs, if at == 0 then |xs| else at, d);
      InsertKnown(s.m, xs, at + 1, d);
    }
  }

  lemma TakeGain(s: State, k: Node, lo: nat, hi: nat, r: Node)
    requires Represents(s.h, s.f) && Enabled(s.f, Take(k, lo, hi)) && r in s.f.heads
    ensures Gains(s, Take(k, lo, hi), r)
  {
    if lo > 0 {
      NotAKey(s.h, s.f, k, lo);
      if r == k { CutKnown(s.m, s.f.runs[k], lo, hi); }
    }
  }

  lemma NotAKey(h: Heap, f: Forest, k: Node, i: nat)
    requires Represents(h, f) && k in f.runs && 1 <= i < |f.runs[k]|
    ensures f.runs[k][i] !in f.runs
  {
    assert Holds(h, f, k);
    EndsDiffer(f.runs[k]);
    OwnKey(f, k, f.runs[k][i]);
  }

  lemma InsertKnown(m: Cells, c: seq<Node>, at: nat, d: seq<Node>)
    requires 1 <= at <= |c|
    ensures Insert(c, at, d) != [] && Known(m, Insert(c, at, d)[1..]) == Known(m, c[1..]) + Known(m, d)
  {
    var a, b := c[1..at], c[at..];
    assert Insert(c, at, d)[1..] == (a + d) + b && c[1..] == a + b;
    KnownJoin(m, a + d, b);
    KnownJoin(m, a, d);
    KnownJoin(m, a, b);
  }

  lemma CutKnown(m: Cells, c: seq<Node>, lo: nat, hi: nat)
    requires 1 <= lo < hi <= |c|
    ensures Known(m, c[1..]) == Known(m, (c[..lo] + c[hi..])[1..]) + Known(m, c[lo..hi])
  {
    var a, d, b := c[1..lo], c[lo..hi], c[hi..];
    assert c[1..] == (a + d) + b && (c[..lo] + c[hi..])[1..] == a + b;
    KnownJoin(m, a + d, b);
    KnownJoin(m, a, d);
    KnownJoin(m, a, b);
  }

  lemma ContentsAreBuckets(h: Heap, f: Forest, r: Node)
    requires Represents(h, f) && r in f.runs
    ensures f.runs[r] != []
    ensures forall e | e in Contents(f, r) :: e in h.next && e !in f.heads && e in f.runs[r]
  {
    assert Holds(h, f, r);
    forall e | e in Contents(f, r) ensures e in h.next && e !in f.heads && e in f.runs[r] {
      var i :| 0 <= i < |Contents(f, r)| && Contents(f, r)[i] == e;
      NotAKey(h, f, r, i + 1);
      assert f.runs[r][i + 1] == e && On(h, f.runs[r][i + 1]);
    }
  }

  /** Every step keeps the brigades in order and changes what each is known to hold by its gain: an
      insertion adds the bucket's bytes, CONCAT and PREPEND move one brigade's sum to the other,
      removal takes away exactly the removed bucket's, and destroying a detached bucket costs nothing. */
  lemma StepGain(s: State, s': State, b: BrigadeStep, r: Node)
    requires Valid(s) && CanDo(s.f, b) && Happens(s, s', b) && r in s.f.heads
    ensures Valid(s') && s'.f.heads == s.f.heads
    ensures r in s.f.runs && s.f.runs[r] != [] && r in s'.f.runs && s'.f.runs[r] != []
    ensures Known(s'.m, s'.f.runs[r][1..]) == Known(s.m, s.f.runs[r][1..]) + Gain(s, b, r)
  {
    match b
    case Relink(step) =>
      PostGain(s, step, r);
      StepIsRelinked(s, s', step);
      RelinkKeepsValid(s, s');
      ContentsAreBuckets(s'.h, s'.f, r);
      KnownSame(s.m, s'.m, Contents(s'.f, r));
    case Destroy(e) =>
      DestroyKeepsValid(s, s', e);
      ContentsAreBuckets(s.h, s.f, r);
      assert Disjoint(s.f.runs[e], s.f.runs[r]) && e in s.f.runs[e];
      KnownSame(s.m, s'.m, Contents(s.f, r));
  }

  ghost predicate Run(ss: seq<State>, bs: seq<BrigadeStep>) {
    |ss| == |bs| + 1 && Valid(ss[0]) && forall i: nat | i < |bs| :: HappensAt(ss, bs, i)
  }

  /** A run is a state, or a run and one more step. */
  lemma RunMeans(ss: seq<State>, bs: seq<BrigadeStep>, s: State, b: BrigadeStep)
    requires |ss| == |bs| + 1
    ensures Valid(s) ==> Run([s], [])
    ensures Run(ss + [s], bs + [b]) <==>
      Run(ss, bs) && (Valid(ss[|bs|]) ==> CanDo(ss[|bs|].f, b) && Happens(ss[|bs|], s, b))
  {
    var ss', bs' := ss + [s], bs + [b];
    if Run(ss', bs') {
      assert HappensAt(ss', bs', |bs|);
      forall i: nat | i < |bs| ensures HappensAt(ss, bs, i) { assert HappensAt(ss', bs', i); }
    } else if Run(ss, bs) && (Valid(ss[|bs|]) ==> CanDo(ss[|bs|].f, b) && Happens(ss[|bs|], s, b)) {
      forall i: nat | i < |bs'| ensures HappensAt(ss', bs', i) { assert i < |bs| ==> HappensAt(ss, bs, i); }
      assert false;
    }
  }

  ghost predicate HappensAt(ss: seq<State>, bs: seq<BrigadeStep>, i: nat)
    requires i < |bs| && i + 1 < |ss|
  {
    Valid(ss[i]) ==> CanDo(ss[i].f, bs[i]) && Happens(ss[i], ss[i + 1], bs[i])
  }

  /** Brigade r is there before step i, and the step is possible. */
  ghost predicate Counts(ss: seq<State>, bs: seq<BrigadeStep>, r: Node, i: nat)
    requires i < |bs| && i < |ss|
  {
    WellFormed(ss[i].f) && CanDo(ss[i].f, bs[i]) && r in ss[i].f.heads
  }

  /** The gains of the first n steps. */
  ghost function TotalGain(ss: seq<State>, bs: seq<BrigadeStep>, r: Node, n: nat): int
    requires n <= |bs| && n <= |ss| && forall i: nat | i < n :: Counts(ss, bs, r, i)
  {
    if n == 0 then 0 else
    assert Counts(ss, bs, r, n - 1);
    TotalGain(ss, bs, r, n - 1) + Gain(ss[n - 1], bs[n - 1], r)
  }

  /** Brigade r exists, and is known to hold this many bytes. */
  ghost predicate Holding(s: State, r: Node, bytes: int) {
    Valid(s) && r in s.f.heads && r in s.f.runs && s.f.runs[r] != [] && Known(s.m, Contents(s.f, r)) == bytes
  }

  lemma StepHolding(ss: seq<State>, bs: seq<BrigadeStep>, r: Node, n: nat, bytes: int)
    requires n < |bs| && |ss| == |bs| + 1 && HappensAt(ss, bs, n) && Holding(ss[n], r, bytes)
    ensures Counts(ss, bs, r, n) && Holding(ss[n + 1], r, bytes + Gain(ss[n], bs[n], r))
  {
    StepGain(ss[n], ss[n + 1], bs[n], r);
  }

  /** The total is the sum of the gains. */
  lemma NextGain(ss: seq<State>, bs: seq<BrigadeStep>, r: Node, n: nat)
    requires n < |bs| && n < |ss| && (forall i: nat | i < n :: Counts(ss, bs, r, i)) && Counts(ss, bs, r, n)
    ensures forall i: nat | i < n + 1 :: Counts(ss, bs, r, i)
    ensures TotalGain(ss, bs, r, 0) == 0
    ensures TotalGain(ss, bs, r, n + 1) == TotalGain(ss, bs, r, n) + Gain(ss[n], bs[n], r)
  {
  }

  lemma {:induction false} RunHolding(ss: seq<State>, bs: seq<BrigadeStep>, r: Node, bytes: int, n: nat)
    requires Run(ss, bs) && Holding(ss[0], r, bytes) && n <= |bs|
    ensures forall i: nat | i < n :: Counts(ss, bs, r, i)
    ensures Holding(ss[n], r, bytes + TotalGain(ss, bs, r, n))
  {
    if n == 0 {
    } else {
      RunHolding(ss, bs, r, bytes, n - 1);
      assert HappensAt(ss, bs, n - 1);
      StepHolding(ss, bs, r, n - 1, bytes + TotalGain(ss, bs, r, n - 1));
      NextGain(ss, bs, r, n - 1);
    }
  }

  /** Throughout any run the brigades stay in order, and at every moment a brigade's known bytes are
      what it started with and what the steps so far brought it. */
  lemma RunGain(ss: seq<State>, bs: seq<BrigadeStep>, r: Node, n: nat)
    requires Run(ss, bs) && r in ss[0].f.heads && n <= |bs|
    ensures r in ss[0].f.runs && ss[0].f.runs[r] != []
    ensures Valid(ss[n]) && r in ss[n].f.heads && r in ss[n].f.runs && ss[n].f.runs[r] != []
    ensures forall i: nat | i < n :: Counts(ss, bs, r, i)
    ensures Known(ss[n].m, ss[n].f.runs[r][1..]) == Known(ss[0].m, ss[0].f.runs[r][1..]) + TotalGain(ss, bs, r, n)
  {
    RunHolding(ss, bs, r, Known(ss[0].m, Contents(ss[0].f, r)), n);
  }

  // ---- The macros ----

  /** The state after a ring macro on the buckets' entries. */
  ghost function Relinking(s: State, m': Cells, step: Step): (s': State)
    requires Valid(s) && Enabled(s.f, step) && Safe(s.h, s.f, step) && Defined(s.h, Call(s.f, step))
    requires Changes(s.m, m', LINK, s.h, Apply(s.h, Call(s.f, step)))
    ensures Happens(s, s', Relink(step)) && s'.m == m' && s'.f == Post(s.f, step)
    ensures Valid(s')
  {
    var s' := State(m', Apply(s.h, Call(s.f, step)), Post(s.f, step));
    StepIsRelinked(s, s', step);
    RelinkKeepsValid(s, s');
    s'
  }

  /** APR_BRIGADE_INSERT_HEAD */
  method InsertHead(mem: Memory, b: int, e: Node, ghost s: State) returns (ghost s': State)
    requires mem.cells == s.m && Valid(s) && ListHead(b) in s.f.heads
    requires e in s.f.runs && e !in s.f.heads && s.f.runs[e] == [e]
    modifies mem
    ensures mem.cells == s'.m && Valid(s') && Happens(s, s', Relink(After(ListHead(b), 0, e)))
    ensures ListHead(b) in s.f.runs && ListHead(b) in s'.f.runs
    ensures s'.f.runs[ListHead(b)] == [b + 8, e] + s.f.runs[b + 8][1..]
    ensures b + 8 in mem.cells && mem.cells[b + 8] == e
  {
    ghost var k, step := ListHead(b), After(ListHead(b), 0, e);
    StepRefines(s.h, s.f, step);
    var apb := e;
    mem.SpliceAfter(Sentinel(b + LIST, LINK), apb, apb, LINK, s.h);
    s' := Relinking(s, mem.cells, step);
    assert Insert(s.f.runs[k], 1, [e]) == [k, e] + Contents(s.f, k);
  }

  /** APR_BRIGADE_INSERT_TAIL */
  method InsertTail(mem: Memory, b: int, e: Node, ghost s: State) returns (ghost s': State)
    requires mem.cells == s.m && Valid(s) && ListHead(b) in s.f.heads
    requires e in s.f.runs && e !in s.f.heads && s.f.runs[e] == [e]
    modifies mem
    ensures mem.cells == s'.m && Valid(s') && Happens(s, s', Relink(Before(ListHead(b), 0, e)))
    ensures ListHead(b) in s.f.runs && ListHead(b) in s'.f.runs
    ensures s'.f.runs[ListHead(b)] == s.f.runs[b + 8] + [e]
    ensures b + 16 in mem.cells && mem.cells[b + 16] == e
  {
    ghost var c, step := s.f.runs[ListHead(b)], Before(ListHead(b), 0, e);
    StepRefines(s.h, s.f, step);
    var apb := e;
    mem.SpliceBefore(Sentinel(b + LIST, LINK), apb, apb, LINK, s.h);
    s' := Relinking(s, mem.cells, step);
    assert Insert(c, |c|, [e]) == c + [e];
  }

  /** APR_BRIGADE_CONCAT: brigade b's buckets follow brigade a's, and b is empty. */
  method Concat(mem: Memory, a: int, b: int, ghost s: State) returns (ghost s': State)
    requires mem.cells == s.m && Valid(s) && ListHead(a) in s.f.heads && ListHead(b) in s.f.heads && a != b
    modifies mem
    ensures mem.cells == s'.m && Valid(s') && Happens(s, s', Relink(Cat(ListHead(a), ListHead(b))))
    ensures ListHead(a) in s.f.runs && ListHead(b) in s.f.runs
    ensures s'.f.runs == s.f.runs[a + 8 := [a + 8] + (s.f.runs[a + 8][1..] + s.f.runs[b + 8][1..])][b + 8 := [b + 8]]
    ensures b + 8 in mem.cells && mem.cells[b + 8] == b + 8
  {
    ghost var step := Cat(ListHead(a), ListHead(b));
    StepRefines(s.h, s.f, step);
    EmptyBothWays(s.h, s.f, ListHead(b));
    mem.Concat(a + LIST, b + LIST, LINK, s.h);
    s' := Relinking(s, mem.cells, step);
  }

  /** APR_BRIGADE_PREPEND: brigade b's buckets come before brigade a's, and b is empty. */
  method Prepend(mem: Memory, a: int, b: int, ghost s: State) returns (ghost s': State)
    requires mem.cells == s.m && Valid(s) && ListHead(a) in s.f.heads && ListHead(b) in s.f.heads && a != b
    modifies mem
    ensures mem.cells == s'.m && Valid(s') && Happens(s, s', Relink(Pre(ListHead(a), ListHead(b))))
    ensures ListHead(a) in s.f.runs && ListHead(b) in s.f.runs
    ensures s'.f.runs == s.f.runs[a + 8 := [a + 8] + (s.f.runs[b + 8][1..] + s.f.runs[a + 8][1..])][b + 8 := [b + 8]]
    ensures b + 8 in mem.cells && mem.cells[b + 8] == b + 8
  {
    ghost var step := Pre(ListHead(a), ListHead(b));
    StepRefines(s.h, s.f, step);
    EmptyBothWays(s.h, s.f, ListHead(b));
    mem.Prepend(a + LIST, b + LIST, LINK, s.h);
    s' := Relinking(s, mem.cells, step);
  }

  /** APR_BUCKET_INSERT_BEFORE: a is node number `at` of ring k, a bucket or the brigade's sentinel. */
  method InsertBefore(mem: Memory, a: Node, b: Node, ghost s: State, ghost k: Node, ghost at: nat)
    returns (ghost s': State)
    requires mem.cells == s.m && Valid(s)
    requires IsRing(s.f, k) && k in s.f.runs && at < |s.f.runs[k]| && s.f.runs[k][at] == a
    requires b in s.f.runs && b !in s.f.heads && s.f.runs[b] == [b] && b != k
    modifies mem
    ensures mem.cells == s'.m && Valid(s') && Happens(s, s', Relink(Before(k, at, b)))
    ensures k in s'.f.runs && s'.f.runs[k] == if at == 0 then s.f.runs[k] + [b] else s.f.runs[k][..at] + [b] + s.f.runs[k][at..]
  {
    ghost var step := Before(k, at, b);
    StepRefines(s.h, s.f, step);
    var apa, apb := a, b;
    mem.InsertBefore(apa, apb, LINK, s.h);
    s' := Relinking(s, mem.cells, step);
    assert Insert(s.f.runs[k], |s.f.runs[k]|, [b]) == s.f.runs[k] + [b];
  }

  /** APR_BUCKET_INSERT_AFTER: a is node number `at` of ring k, a bucket or the brigade's sentinel. */
  method InsertAfter(mem: Memory, a: Node, b: Node, ghost s: State, ghost k: Node, ghost at: nat)
    returns (ghost s': State)
    requires mem.cells == s.m && Valid(s)
    requires IsRing(s.f, k) && k in s.f.runs && at < |s.f.runs[k]| && s.f.runs[k][at] == a
    requires b in s.f.runs && b !in s.f.heads && s.f.runs[b] == [b] && b != k
    modifies mem
    ensures mem.cells == s'.m && Valid(s') && Happens(s, s', Relink(After(k, at, b)))
    ensures k in s'.f.runs && s'.f.runs[k] == s.f.runs[k][..at + 1] + [b] + s.f.runs[k][at + 1..]
  {
    ghost var step := After(k, at, b);
    StepRefines(s.h, s.f, step);
    var apa, apb := a, b;
    mem.InsertAfter(apa, apb, LINK, s.h);
    s' := Relinking(s, mem.cells, step);
  }

  /** The step that takes one bucket out of a ring. */
  lemma TakeOneStep(h: Heap, f: Forest, k: Node, at: nat, e: Node)
    requires Represents(h, f) && IsRing(f, k) && k in f.runs && 1 <= at < |f.runs[k]| && f.runs[k][at] == e
    ensures Enabled(f, Take(k, at, at + 1)) && Call(f, Take(k, at, at + 1)) == UnspliceAt(e, e) && Defined(h, UnspliceAt(e, e))
    ensures e !in f.runs
    ensures Post(f, Take(k, at, at + 1)) == f.(runs := f.runs[k := f.runs[k][..at] + f.runs[k][at + 1..]][e := [e]])
  {
    StepRefines(h, f, Take(k, at, at + 1));
    NotAKey(h, f, k, at);
    assert f.runs[k][at..at + 1] == [e];
  }

  /** APR_BUCKET_REMOVE: e is bucket number `at` of ring k. */
  method Remove(mem: Memory, e: Node, ghost s: State, ghost k: Node, ghost at: nat) returns (ghost s': State)
    requires mem.cells == s.m && Valid(s) && IsRing(s.f, k)
    requires k in s.f.runs && 1 <= at < |s.f.runs[k]| && s.f.runs[k][at] == e
    modifies mem
    ensures mem.cells == s'.m && Valid(s') && Happens(s, s', Relink(Take(k, at, at + 1)))
    ensures e !in s.f.runs
    ensures s'.f == s.f.(runs := s.f.runs[k := s.f.runs[k][..at] + s.f.runs[k][at + 1..]][e := [e]])
  {
    TakeOneStep(s.h, s.f, k, at, e);
    mem.Remove(e, LINK, s.h);
    s' := Relinking(s, mem.cells, Take(k, at, at + 1));
  }

  /** apr_bucket_delete: the bucket leaves its brigade and its memory is freed; its brigade is known to
      hold less by exactly that bucket's length, and no other brigade is touched. */
  method Delete(mem: Memory, e: Node, ghost s: State, ghost k: Node, ghost at: nat) returns (ghost s': State)
    requires mem.cells == s.m && Valid(s) && IsRing(s.f, k)
    requires k in s.f.runs && 1 <= at < |s.f.runs[k]| && s.f.runs[k][at] == e
    modifies mem
    ensures mem.cells == s'.m && Valid(s')
    ensures e + 24 in s.m
    ensures forall a :: a in mem.cells <==> a in s.m && !(e <= a < e + 64)
    ensures forall a {:trigger mem.cells[a]} ::
              a in mem.cells && a !in s.h.next && a - 8 !in s.h.next ==> mem.cells[a] == s.m[a]
    ensures s'.f == s.f.(runs := s.f.runs[k := s.f.runs[k][..at] + s.f.runs[k][at + 1..]])
    ensures forall r | r in s.f.heads ::
              r in s.f.runs && r in s'.f.runs && s.f.runs[r] != [] && s'.f.runs[r] != [] &&
              Known(s'.m, s'.f.runs[r][1..]) == Known(s.m, s.f.runs[r][1..]) -
              (if r == k && s.m[e + 24] != 0xFFFF_FFFF_FFFF_FFFF then s.m[e + 24] else 0)
  {
    BucketAt(s, k, at);
    ghost var s1 := Remove(mem, e, s, k, at);
    EntriesOnly(s.m, s1.m, s.h.next.Keys);
    mem.cells := Free(mem.cells, e);
    s' := State(Free(s1.m, e), Forget(s1.h, e), Drop(s1.f, e));
    DeleteAccounts(s, s1, s', e, k, at);
  }

  lemma EntriesOnly(m: Cells, m': Cells, nodes: set<Node>)
    requires OnlyEntries(m, m', LINK, nodes)
    ensures forall a {:trigger m'[a]} | a in m && a !in nodes && a - 8 !in nodes :: m'[a] == m[a]
  {
    forall a | a in m && a !in nodes && a - 8 !in nodes ensures m'[a] == m[a] { assert !InEntry(LINK, nodes, a); }
  }

  /** An element of a ring is a bucket. */
  lemma BucketAt(s: State, k: Node, at: nat)
    requires Valid(s) && k in s.f.runs && 1 <= at < |s.f.runs[k]|
    ensures var e := s.f.runs[k][at];
            && e + 24 in s.m && 0 <= s.m[e + 24] <= 0xFFFF_FFFF_FFFF_FFFF
            && KnownLength(s.m, e) == if s.m[e + 24] != 0xFFFF_FFFF_FFFF_FFFF then s.m[e + 24] else 0
  {
    var e := s.f.runs[k][at];
    NotAKey(s.h, s.f, k, at);
    assert Holds(s.h, s.f, k) && e in s.f.runs[k];
    assert IsBucket(s, e);
  }

  lemma AddThenDrop(runs: map<Node, seq<Node>>, e: Node, c: seq<Node>)
    requires e !in runs
    ensures runs[e := c] - {e} == runs
  {
  }

  lemma DeleteAccounts(s: State, s1: State, s': State, e: Node, k: Node, at: nat)
    requires Valid(s) && IsRing(s.f, k) && k in s.f.runs && 1 <= at < |s.f.runs[k]| && s.f.runs[k][at] == e
    requires Happens(s, s1, Relink(Take(k, at, at + 1))) && Valid(s1)
    requires e !in s.f.runs
    requires s1.f == s.f.(runs := s.f.runs[k := s.f.runs[k][..at] + s.f.runs[k][at + 1..]][e := [e]])
    requires s' == State(Free(s1.m, e), Forget(s1.h, e), Drop(s1.f, e))
    ensures Valid(s')
    ensures s'.f.runs == s.f.runs[k := s.f.runs[k][..at] + s.f.runs[k][at + 1..]]
    ensures forall r | r in s.f.heads ::
              r in s.f.runs && r in s'.f.runs && s.f.runs[r] != [] && s'.f.runs[r] != [] &&
              Known(s'.m, Contents(s'.f, r)) == Known(s.m, Contents(s.f, r)) - (if r == k then KnownLength(s.m, e) else 0)
  {
    DestroyKeepsValid(s1, s', e);
    AddThenDrop(s.f.runs[k := s.f.runs[k][..at] + s.f.runs[k][at + 1..]], e, [e]);
    forall r | r in s.f.heads
      ensures r in s.f.runs && r in s'.f.runs && s.f.runs[r] != [] && s'.f.runs[r] != []
      ensures Known(s'.m, Contents(s'.f, r)) == Known(s.m, Contents(s.f, r)) - (if r == k then KnownLength(s.m, e) else 0)
    {
      TakeOneGain(s, s1, e, k, at, r);
      StepGain(s1, s', Destroy(e), r);
    }
  }

  lemma TakeOneGain(s: State, s1: State, e: Node, k: Node, at: nat, r: Node)
    requires Valid(s) && Enabled(s.f, Take(k, at, at + 1)) && 1 <= at && s.f.runs[k][at] == e && r in s.f.heads
    requires Happens(s, s1, Relink(Take(k, at, at + 1)))
    ensures Valid(s1) && s1.f.heads == s.f.heads
    ensures r in s.f.runs && s.f.runs[r] != [] && r in s1.f.runs && s1.f.runs[r] != []
    ensures Known(s1.m, Contents(s1.f, r)) == Known(s.m, Contents(s.f, r)) - (if r == k then KnownLength(s.m, e) else 0)
  {
    StepGain(s, s1, Relink(Take(k, at, at + 1)), r);
    assert s.f.runs[k][at..at + 1] == [e];
    assert Known(s.m, [e]) == KnownLength(s.m, e);
  }

  // ---- Deleting a bucket that is on no brigade ----

  ghost predicate OnBrigade(f: Forest, x: Node) {
    exists r :: r in f.heads && r in f.runs && x in f.runs[r]
  }

  lemma OnTheBrigade(f: Forest, r: Node, x: Node)
    requires r in f.heads && r in f.runs && x in f.runs[r]
    ensures OnBrigade(f, x)
  {
  }

  /** Where e's own pointers lead to nodes of a brigade, those nodes already skip e. */
  ghost predicate Harmless(h: Heap, f: Forest, e: Node)
    requires Defined(h, UnspliceAt(e, e))
  {
    var p, q := h.prev[e], h.next[e];
    (OnBrigade(f, p) ==> h.next[p] == q) && (OnBrigade(f, q) ==> h.prev[q] == p)
  }

  /** Removing a bucket leaves every brigade's ring as it was exactly when the bucket's pointers are
      harmless, and any other ring or chain exactly when that skips the bucket. */
  lemma RemoveDetached(h: Heap, f: Forest, e: Node)
    requires Represents(h, f) && Defined(h, UnspliceAt(e, e))
    ensures (forall r | r in f.heads && r in f.runs :: Cycle(Unsplice(h, e, e), f.runs[r])) <==> Harmless(h, f, e)
    ensures forall k | k in f.runs ::
              Skips(h, f, k, e, e) <==> if k in f.heads || k in f.loops then Cycle(Unsplice(h, e, e), f.runs[k])
                                        else Chain(Unsplice(h, e, e), f.runs[k])
  {
    forall k | k in f.runs ensures Holds(Unsplice(h, e, e), f, k) <==> Skips(h, f, k, e, e) {
      RunSurvives(h, f, k, e, e);
    }
    forall r | r in f.heads && r in f.runs
      ensures var p, q, c := h.prev[e], h.next[e], f.runs[r];
              Cycle(Unsplice(h, e, e), c) <==> (p in c ==> h.next[p] == q) && (q in c ==> h.prev[q] == p)
    {
      assert Holds(h, f, r);
      RingSurvives(h, f.runs[r], e, e);
    }
  }

  /** After APR_BUCKET_INIT a bucket's pointers are harmless: removing it changes nothing. */
  lemma InitIsHarmless(h: Heap, e: Node)
    requires On(h, e)
    ensures Unsplice(SelfLink(h, e), e, e) == SelfLink(h, e)
  {
    UnspliceNothing(SelfLink(h, e), e, e);
  }

  /** Inserting an element into an empty ring and removing it leaves its pointers on the sentinel. */
  lemma InsertThenRemove(h: Heap, s: Node, e: Node)
    requires Ring(h, s, []) && On(h, e) && s != e
    ensures On(h, h.prev[s])
    ensures var h1 := SpliceBefore(h, s, e, e);
            && Ring(h1, s, [e]) && h1.prev[e] == s && h1.next[e] == s && On(h1, e) && On(h1, s)
            && var h2 := Unsplice(h1, e, e);
            Ring(h2, s, []) && h2.prev[e] == s && h2.next[e] == s
  {
    SpliceTailRing(h, s, [], [e]);
    var h1 := SpliceBefore(h, s, e, e);
    assert [] + [e] == [e] && [] + [e] + [] == [e];
    EndsOfRing(h1, s, [e]);
    UnspliceFromRing(h1, s, [], [e], []);
    var none: seq<Node> := [];
    assert none + none == none;
  }

  /** They are not after the bucket was removed from a brigade that has since gained another in its
      place: removing it a second time drops the other one. */
  lemma SecondRemoveDropsAnother(h: Heap, s: Node, e: Node, y: Node)
    requires Ring(h, s, []) && On(h, e) && On(h, y) && s != e && s != y && e != y
    ensures On(h, h.prev[s])
    ensures var h1 := SpliceBefore(h, s, e, e);
            && Ring(h1, s, [e]) && Defined(h1, UnspliceAt(e, e))
            && var h2 := Unsplice(h1, e, e);
            && Ring(h2, s, []) && Defined(h2, BeforeAt(s, y, y))
            && var h3 := SpliceBefore(h2, s, y, y);
            && Ring(h3, s, [y]) && Defined(h3, UnspliceAt(e, e)) && Ring(Unsplice(h3, e, e), s, [])
  {
    InsertThenRemove(h, s, e);
    var h2 := Unsplice(SpliceBefore(h, s, e, e), e, e);
    InsertThenRemove(h2, s, y);
    var h3 := SpliceBefore(h2, s, y, y);
    assert Unsplice(h3, e, e) == Unsplice(h3, y, y);
  }

  /** A run without e that skips e. */
  ghost predicate Kept(h: Heap, f: Forest, e: Node, k: Node)
    requires WellFormed(f) && Defined(h, UnspliceAt(e, e))
  {
    k in f.runs && e !in f.runs[k] && Skips(h, f, k, e, e)
  }

  /** A run is kept exactly when it does not have e, and the removal of e leaves it as it is. */
  lemma KeptMeans(h: Heap, f: Forest, e: Node, k: Node)
    requires Represents(h, f) && Defined(h, UnspliceAt(e, e)) && k in f.runs
    ensures Kept(h, f, e, k) <==> e !in f.runs[k] && if k in f.heads || k in f.loops then Cycle(Unsplice(h, e, e), f.runs[k])
                                                       else Chain(Unsplice(h, e, e), f.runs[k])
  {
    RunSurvives(h, f, k, e, e);
  }

  ghost predicate OnKept(h: Heap, f: Forest, e: Node, x: Node)
    requires WellFormed(f) && Defined(h, UnspliceAt(e, e))
  {
    exists k :: Kept(h, f, e, k) && x in f.runs[k]
  }

  /** The forest with every run that is not kept broken up, each of its nodes taken by itself. */
  ghost function Loosen(h: Heap, f: Forest, e: Node): Forest
    requires WellFormed(f) && Defined(h, UnspliceAt(e, e))
  {
    Forest(f.heads, set k | k in f.loops && Kept(h, f, e, k),
           (map k | k in f.runs && Kept(h, f, e, k) :: f.runs[k]) + (map x | x in h.next && !OnKept(h, f, e, x) :: [x]))
  }

  /** What Loosen files under a key. */
  lemma LoosenAt(h: Heap, f: Forest, e: Node, k: Node)
    requires WellFormed(f) && Defined(h, UnspliceAt(e, e)) && k in Loosen(h, f, e).runs
    ensures Kept(h, f, e, k) ==> Loosen(h, f, e).runs[k] == f.runs[k]
    ensures !Kept(h, f, e, k) ==> Loosen(h, f, e).runs[k] == [k] && k in h.next && !OnKept(h, f, e, k)
  {
    if Kept(h, f, e, k) {
      assert f.runs[k][0] == k && k in f.runs[k];
      assert OnKept(h, f, e, k);
    }
  }

  lemma LoosenApart(h: Heap, f: Forest, e: Node, j: Node, k: Node)
    requires WellFormed(f) && Defined(h, UnspliceAt(e, e)) && j != k
    requires j in Loosen(h, f, e).runs && k in Loosen(h, f, e).runs
    ensures Disjoint(Loosen(h, f, e).runs[j], Loosen(h, f, e).runs[k])
  {
    LoosenAt(h, f, e, j);
    LoosenAt(h, f, e, k);
  }

  /** With harmless pointers every brigade is kept. */
  lemma BrigadeIsKept(h: Heap, f: Forest, e: Node, r: Node)
    requires Represents(h, f) && Defined(h, UnspliceAt(e, e)) && Harmless(h, f, e) && !OnBrigade(f, e) && r in f.heads
    ensures Kept(h, f, e, r)
  {
    var p, q := h.prev[e], h.next[e];
    if e in f.runs[r] { OnTheBrigade(f, r, e); }
    if p in f.runs[r] { OnTheBrigade(f, r, p); }
    if q in f.runs[r] { OnTheBrigade(f, r, q); }
  }

  /** A bucket that is on no brigade, and whose pointers are harmless, can be removed as a step,
      once the headless rings and chains that the removal would tear are given up. */
  lemma LoosenIsSafe(h: Heap, f: Forest, e: Node)
    requires Represents(h, f) && Defined(h, UnspliceAt(e, e)) && Harmless(h, f, e) && !OnBrigade(f, e)
    requires h.next.Keys == h.prev.Keys
    ensures var g := Loosen(h, f, e);
            Represents(h, g) && Detached(g, e) && !IsRing(g, e) && Enabled(g, Again(e)) && Safe(h, g, Again(e))
  {
    var g := Loosen(h, f, e);
    forall r | r in f.heads ensures Kept(h, f, e, r) { BrigadeIsKept(h, f, e, r); }
    forall k | k in g.runs
      ensures Holds(h, g, k) && g.runs[k] != [] && g.runs[k][0] == k && Skips(h, g, k, e, e)
    {
      LoosenAt(h, f, e, k);
      if Kept(h, f, e, k) { assert Holds(h, f, k); } else { assert k in h.next.Keys; }
    }
    forall j, k | j in g.runs && k in g.runs && j != k ensures Disjoint(g.runs[j], g.runs[k]) {
      LoosenApart(h, f, e, j, k);
    }
    assert e in g.runs;
    LoosenAt(h, f, e, e);
    assert e in f.runs ==> f.runs[e][0] == e && f.runs[e][0] in f.runs[e];
  }

  /** apr_bucket_delete of a bucket that is on no brigade, with harmless pointers: it is freed, every
      brigade keeps its buckets and its known bytes, and so does every other ring and chain that the
      bucket's pointers do not tear. */
  method DeleteDetached(mem: Memory, e: Node, ghost s: State) returns (ghost s': State)
    requires mem.cells == s.m && Valid(s) && On(s.h, e) && !OnBrigade(s.f, e)
    requires Defined(s.h, UnspliceAt(e, e)) && Harmless(s.h, s.f, e)
    modifies mem
    ensures mem.cells == s'.m && Valid(s') && s'.f.heads == s.f.heads
    ensures forall a :: a in mem.cells <==> a in s.m && !(e <= a < e + 64)
    ensures forall a {:trigger mem.cells[a]} ::
              a in mem.cells && a !in s.h.next && a - 8 !in s.h.next ==> mem.cells[a] == s.m[a]
    ensures forall k | Kept(s.h, s.f, e, k) ::
              && k in s'.f.runs && s'.f.runs[k] == s.f.runs[k] && (k in s.f.loops ==> k in s'.f.loops)
              && Known(s'.m, s'.f.runs[k][1..]) == Known(s.m, s.f.runs[k][1..])
    ensures forall r | r in s.f.heads :: Kept(s.h, s.f, e, r)
  {
    LoosenIsSafe(s.h, s.f, e);
    ghost var s0 := State(s.m, s.h, Loosen(s.h, s.f, e));
    RelinkKeepsValid(s, s0);
    mem.Remove(e, LINK, s.h);
    ghost var s1 := Relinking(s0, mem.cells, Again(e));
    EntriesOnly(s.m, s1.m, s.h.next.Keys);
    mem.cells := Free(mem.cells, e);
    s' := State(Free(s1.m, e), Forget(s1.h, e), Drop(s1.f, e));
    DetachedAccounts(s, s1, s', e);
  }

  lemma DetachedAccounts(s: State, s1: State, s': State, e: Node)
    requires Valid(s) && On(s.h, e) && !OnBrigade(s.f, e) && Defined(s.h, UnspliceAt(e, e)) && Harmless(s.h, s.f, e)
    requires s1.f == Loosen(s.h, s.f, e) && Valid(s1) && Changes(s.m, s1.m, LINK, s.h, s1.h)
    requires Detached(s1.f, e)
    requires s' == State(Free(s1.m, e), Forget(s1.h, e), Drop(s1.f, e))
    ensures Valid(s') && s'.f.heads == s.f.heads
    ensures forall k | Kept(s.h, s.f, e, k) ::
              && k in s'.f.runs && s'.f.runs[k] == s.f.runs[k] && (k in s.f.loops ==> k in s'.f.loops)
              && Known(s'.m, Contents(s'.f, k)) == Known(s.m, Contents(s.f, k))
    ensures forall r | r in s.f.heads :: Kept(s.h, s.f, e, r)
  {
    forall r | r in s.f.heads ensures Kept(s.h, s.f, e, r) { BrigadeIsKept(s.h, s.f, e, r); }
    RelinkKeepsValid(s, s1);
    DestroyKeepsValid(s1, s', e);
    forall k | Kept(s.h, s.f, e, k)
      ensures k in s'.f.runs && s'.f.runs[k] == s.f.runs[k] && (k in s.f.loops ==> k in s'.f.loops)
      ensures Known(s'.m, Contents(s'.f, k)) == Known(s.m, Contents(s.f, k))
    {
      KeptAccounts(s, s'.m, s'.f, e, k);
    }
  }

  lemma KeptAccounts(s: State, m': Cells, f': Forest, e: Node, k: Node)
    requires Represents(s.h, s.f) && Defined(s.h, UnspliceAt(e, e)) && Kept(s.h, s.f, e, k)
    requires f' == Drop(Loosen(s.h, s.f, e), e)
    requires forall x | x in s.h.next && x !in s.f.heads && x != e :: KnownLength(m', x) == KnownLength(s.m, x)
    ensures k in f'.runs && f'.runs[k] == s.f.runs[k] && (k in s.f.loops ==> k in f'.loops)
    ensures Known(m', Contents(f', k)) == Known(s.m, Contents(s.f, k))
  {
    assert s.f.runs[k][0] in s.f.runs[k];
    LoosenAt(s.h, s.f, e, k);
    ContentsAreBuckets(s.h, s.f, k);
    KnownSame(s.m, m', Contents(s.f, k));
  }
}
