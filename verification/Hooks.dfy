/** Hooks: registration, the three runners with their probe points, and the optional-hook runner. */
module Hooks {
  import opened Options

  /** A function pointer. */
  type Function = int

  /** The code that function pointers lead to: a hook function takes and changes the state that hooks
      share (their arguments included) and returns a value. */
  type Code<!S, !R> = (Function, S) -> (S, R)

  /** A registered hook. */
  datatype HookLink = HookLink(
    func: Function, name: string,
    predecessors: Option<seq<string>>, successors: Option<seq<string>>, order: int)

  /** The array of one hook name; None until something is registered. */
  class HookTable {
    var links: Option<seq<HookLink>>

    constructor ()
      ensures links == None
    {
      links := None;
    }

    /** The registration function of APR_IMPLEMENT_EXTERNAL_HOOK_BASE. */
    method Register(func: Function, predecessors: Option<seq<string>>, successors: Option<seq<string>>,
                    order: int, debugCurrent: string)
      modifies this
      ensures links == Some((if old(links).Some? then old(links).value else [])
                          + [HookLink(func, debugCurrent, predecessors, successors, order)])
    {
      if links == None {
        links := Some([]);
      }
      links := Some(links.value + [HookLink(func, debugCurrent, predecessors, successors, order)]);
    }
  }

  /** The hooks of an array that may be missing. */
  function Registered(links: Option<seq<HookLink>>): (hooks: seq<HookLink>)
    ensures links == Some(hooks) || (links == None && hooks == [])
  {
    if links.Some? then links.value else []
  }

  /** What the probe macros see.  For a hook without a value, the unit stands for the 0 they are given. */
  datatype Probe<R> = Entry | Invoke(name: string) | Complete(name: string, value: R) | Return(result: R)

  // ---- Meaning ----

  /** The shared state after the first n hooks, called in order. */
  function After<S, R>(code: Code<S, R>, hooks: seq<HookLink>, s: S, n: nat): S
    requires n <= |hooks|
  {
    if n == 0 then s else code(hooks[n - 1].func, After(code, hooks, s, n - 1)).0
  }

  /** What hook i returns when the hooks before it have run. */
  function Result<S, R>(code: Code<S, R>, hooks: seq<HookLink>, s: S, i: nat): R
    requires i < |hooks|
  {
    code(hooks[i].func, After(code, hooks, s, i)).1
  }

  predicate Passes<R(==)>(value: R, ok: R, decline: R) {
    value == ok || value == decline
  }

  /** The number of hooks called, from number i on, when a value that does not pass ends the run:
      all of them, or those up to the first whose value does not. */
  function Calls<S, R(==)>(code: Code<S, R>, hooks: seq<HookLink>, s: S, ok: R, decline: R, i: nat): (n: nat)
    requires i <= |hooks|
    ensures i <= n <= |hooks|
    ensures forall j | i <= j < n - 1 :: Passes(Result(code, hooks, s, j), ok, decline)
    ensures n < |hooks| ==> i < n && !Passes(Result(code, hooks, s, n - 1), ok, decline)
    decreases |hooks| - i
  {
    if i == |hooks| then i
    else if !Passes(Result(code, hooks, s, i), ok, decline) then i + 1
    else Calls(code, hooks, s, ok, decline, i + 1)
  }

  /** Some hook ended the run. */
  predicate Stopped<S, R(==)>(code: Code<S, R>, hooks: seq<HookLink>, s: S, ok: R, decline: R) {
    var n := Calls(code, hooks, s, ok, decline, 0);
    n > 0 && !Passes(Result(code, hooks, s, n - 1), ok, decline)
  }

  /** A run: the state it leaves, the value it returns, and how many hooks it called. */
  datatype Outcome<S, R> = Outcome(state: S, value: R, calls: nat)

  function AllOutcome<S, R(==)>(code: Code<S, R>, hooks: seq<HookLink>, s: S, ok: R, decline: R): Outcome<S, R> {
    var n := Calls(code, hooks, s, ok, decline, 0);
    Outcome(After(code, hooks, s, n), if Stopped(code, hooks, s, ok, decline) then Result(code, hooks, s, n - 1) else ok, n)
  }

  function FirstOutcome<S, R(==)>(code: Code<S, R>, hooks: seq<HookLink>, s: S, decline: R): Outcome<S, R> {
    var n := Calls(code, hooks, s, decline, decline, 0);
    Outcome(After(code, hooks, s, n), if n > 0 then Result(code, hooks, s, n - 1) else decline, n)
  }

  /** The probe points passed around the first n hooks. */
  function Pairs<S, R>(code: Code<S, R>, hooks: seq<HookLink>, s: S, n: nat): seq<Probe<R>>
    requires n <= |hooks|
  {
    if n == 0 then [] else
    Pairs(code, hooks, s, n - 1) +
    [Invoke(hooks[n - 1].name), Complete(hooks[n - 1].name, Result(code, hooks, s, n - 1))]
  }

  /** The trace grows by the pair of the next hook. */
  lemma TraceNext<S, R>(code: Code<S, R>, hooks: seq<HookLink>, s: S, n: nat)
    requires n < |hooks|
    ensures [Entry] + Pairs(code, hooks, s, n) + [Invoke(hooks[n].name)]
            + [Complete(hooks[n].name, Result(code, hooks, s, n))]
         == [Entry] + Pairs(code, hooks, s, n + 1)
  {
  }

  /** The first n hooks all returned values that pass. */
  ghost predicate Passed<S, R>(code: Code<S, R>, hooks: seq<HookLink>, s: S, ok: R, decline: R, n: nat) {
    n <= |hooks| && forall j | 0 <= j < n :: Passes(Result(code, hooks, s, j), ok, decline)
  }

  /** A run ends with the first hook whose value does not pass. */
  lemma StopsAt<S, R>(code: Code<S, R>, hooks: seq<HookLink>, s: S, ok: R, decline: R, n: nat)
    requires Passed(code, hooks, s, ok, decline, n) && n < |hooks| && !Passes(Result(code, hooks, s, n), ok, decline)
    ensures Calls(code, hooks, s, ok, decline, 0) == n + 1 && Stopped(code, hooks, s, ok, decline)
    ensures AllOutcome(code, hooks, s, ok, decline) ==
            Outcome(After(code, hooks, s, n + 1), Result(code, hooks, s, n), n + 1)
  {
  }

  /** A run in which every value passes calls every hook. */
  lemma RunsOut<S, R>(code: Code<S, R>, hooks: seq<HookLink>, s: S, ok: R, decline: R)
    requires Passed(code, hooks, s, ok, decline, |hooks|)
    ensures Calls(code, hooks, s, ok, decline, 0) == |hooks| && !Stopped(code, hooks, s, ok, decline)
    ensures AllOutcome(code, hooks, s, ok, decline) == Outcome(After(code, hooks, s, |hooks|), ok, |hooks|)
  {
  }

  // ---- What the outcomes are, for the states that the hooks go through and the values they return ----

  lemma {:induction false} CourseMeans<S, R>(code: Code<S, R>, hooks: seq<HookLink>, states: seq<S>, values: seq<R>, n: nat)
    requires |states| == |hooks| + 1 && |values| == |hooks| && n <= |hooks|
    requires forall i | 0 <= i < |hooks| :: code(hooks[i].func, states[i]) == (states[i + 1], values[i])
    ensures After(code, hooks, states[0], n) == states[n]
    ensures n < |hooks| ==> Result(code, hooks, states[0], n) == values[n]
  {
    if n > 0 {
      CourseMeans(code, hooks, states, values, n - 1);
      assert code(hooks[n - 1].func, states[n - 1]) == (states[n], values[n - 1]);
    }
    if n < |hooks| { assert code(hooks[n].func, states[n]) == (states[n + 1], values[n]); }
  }

  /** RUN_ALL stops at the first value that is neither ok nor decline, or returns ok. */
  lemma RunAllMeans<S, R>(code: Code<S, R>, hooks: seq<HookLink>, states: seq<S>, values: seq<R>, ok: R, decline: R, n: nat)
    requires |states| == |hooks| + 1 && |values| == |hooks| && n <= |hooks|
    requires forall i | 0 <= i < |hooks| :: code(hooks[i].func, states[i]) == (states[i + 1], values[i])
    requires forall i | 0 <= i < n :: values[i] == ok || values[i] == decline
    ensures n == |hooks| ==> AllOutcome(code, hooks, states[0], ok, decline) == Outcome(states[n], ok, n)
    ensures n < |hooks| && values[n] != ok && values[n] != decline ==>
              AllOutcome(code, hooks, states[0], ok, decline) == Outcome(states[n + 1], values[n], n + 1)
  {
    forall i | 0 <= i < n ensures Passes(Result(code, hooks, states[0], i), ok, decline) {
      CourseMeans(code, hooks, states, values, i);
    }
    CourseMeans(code, hooks, states, values, n);
    if n == |hooks| {
      RunsOut(code, hooks, states[0], ok, decline);
    } else if values[n] != ok && values[n] != decline {
      CourseMeans(code, hooks, states, values, n + 1);
      StopsAt(code, hooks, states[0], ok, decline, n);
    }
  }

  /** RUN_FIRST stops at the first value that is not decline, or returns decline. */
  lemma RunFirstMeans<S, R>(code: Code<S, R>, hooks: seq<HookLink>, states: seq<S>, values: seq<R>, decline: R, n: nat)
    requires |states| == |hooks| + 1 && |values| == |hooks| && n <= |hooks|
    requires forall i | 0 <= i < |hooks| :: code(hooks[i].func, states[i]) == (states[i + 1], values[i])
    requires forall i | 0 <= i < n :: values[i] == decline
    ensures n == |hooks| ==> FirstOutcome(code, hooks, states[0], decline) == Outcome(states[n], decline, n)
    ensures n < |hooks| && values[n] != decline ==>
              FirstOutcome(code, hooks, states[0], decline) == Outcome(states[n + 1], values[n], n + 1)
  {
    RunAllMeans(code, hooks, states, values, decline, decline, n);
    FirstIsAll(code, hooks, states[0], decline);
  }

  /** The probes around the first n hooks: INVOKE then COMPLETE for each, with its name and value. */
  lemma TraceMeans<S, R>(code: Code<S, R>, hooks: seq<HookLink>, states: seq<S>, values: seq<R>, n: nat, i: nat)
    requires |states| == |hooks| + 1 && |values| == |hooks| && i < n <= |hooks|
    requires forall i | 0 <= i < |hooks| :: code(hooks[i].func, states[i]) == (states[i + 1], values[i])
    ensures Pairs(code, hooks, states[0], 0) == []
    ensures var trace := Pairs(code, hooks, states[0], n);
            |trace| == 2 * n && trace[2 * i] == Invoke(hooks[i].name) && trace[2 * i + 1] == Complete(hooks[i].name, values[i])
  {
    PairAt(code, hooks, states[0], n, i);
    CourseMeans(code, hooks, states, values, i);
  }

  // ---- The runners ----

  /** What the runners with probes do for hook n: INVOKE, the call, COMPLETE. */
  method CallHook<S, R>(code: Code<S, R>, hooks: seq<HookLink>, n: nat, s: S, trace: seq<Probe<R>>, ghost s0: S)
    returns (s': S, rv: R, trace': seq<Probe<R>>)
    requires n < |hooks| && s == After(code, hooks, s0, n) && trace == [Entry] + Pairs(code, hooks, s0, n)
    ensures s' == After(code, hooks, s0, n + 1) && rv == Result(code, hooks, s0, n)
    ensures trace' == [Entry] + Pairs(code, hooks, s0, n + 1)
  {
    trace' := trace + [Invoke(hooks[n].name)];
    var (s1, r) := code(hooks[n].func, s);
    s', rv := s1, r;
    trace' := trace' + [Complete(hooks[n].name, rv)];
    TraceNext(code, hooks, s0, n);
  }

  /** APR_IMPLEMENT_EXTERNAL_HOOK_RUN_ALL */
  method RunAll<S, R(==)>(code: Code<S, R>, links: Option<seq<HookLink>>, s0: S, ok: R, decline: R)
    returns (s: S, rv: R, trace: seq<Probe<R>>)
    ensures var hooks := Registered(links);
            var o := AllOutcome(code, hooks, s0, ok, decline);
            s == o.state && rv == o.value && trace == [Entry] + Pairs(code, hooks, s0, o.calls) + [Return(rv)]
  {
    s, rv, trace := s0, ok, [Entry];
    if links.Some? {
      var hooks := links.value;
      var n := 0;
      while n < |hooks|
        invariant Passed(code, hooks, s0, ok, decline, n) && rv == ok
        invariant s == After(code, hooks, s0, n) && trace == [Entry] + Pairs(code, hooks, s0, n)
      {
        s, rv, trace := CallHook(code, hooks, n, s, trace, s0);
        if rv != ok && rv != decline {
          StopsAt(code, hooks, s0, ok, decline, n);
          break;
        }
        rv := ok;
        n := n + 1;
      }
      if n == |hooks| { RunsOut(code, hooks, s0, ok, decline); }
    }
    trace := trace + [Return(rv)];
  }

  /** APR_IMPLEMENT_OPTIONAL_HOOK_RUN_ALL: the same loop written with early returns, and no probes. */
  method RunAllOptional<S, R(==)>(code: Code<S, R>, links: Option<seq<HookLink>>, s0: S, ok: R, decline: R)
    returns (s: S, rv: R, ghost calls: nat)
    ensures var hooks := Registered(links);
            AllOutcome(code, hooks, s0, ok, decline) == Outcome(s, rv, calls)
  {
    s, calls := s0, 0;
    if links == None {
      return s, ok, calls;
    }
    var hooks := links.value;
    var n := 0;
    while n < |hooks|
      invariant Passed(code, hooks, s0, ok, decline, n) && calls == n && s == After(code, hooks, s0, n)
    {
      var (s', r) := code(hooks[n].func, s);
      s, rv, calls := s', r, n + 1;
      if rv != ok && rv != decline {
        StopsAt(code, hooks, s0, ok, decline, n);
        return s, rv, calls;
      }
      n := n + 1;
    }
    RunsOut(code, hooks, s0, ok, decline);
    return s, ok, calls;
  }

  /** APR_IMPLEMENT_EXTERNAL_HOOK_RUN_FIRST */
  method RunFirst<S, R(==)>(code: Code<S, R>, links: Option<seq<HookLink>>, s0: S, decline: R)
    returns (s: S, rv: R, trace: seq<Probe<R>>)
    ensures var hooks := Registered(links);
            var o := FirstOutcome(code, hooks, s0, decline);
            s == o.state && rv == o.value && trace == [Entry] + Pairs(code, hooks, s0, o.calls) + [Return(rv)]
  {
    s, rv, trace := s0, decline, [Entry];
    if links.Some? {
      var hooks := links.value;
      var n := 0;
      while n < |hooks|
        invariant Passed(code, hooks, s0, decline, decline, n) && rv == decline
        invariant s == After(code, hooks, s0, n) && trace == [Entry] + Pairs(code, hooks, s0, n)
      {
        s, rv, trace := CallHook(code, hooks, n, s, trace, s0);
        if rv != decline {
          StopsAt(code, hooks, s0, decline, decline, n);
          break;
        }
        n := n + 1;
      }
      if n == |hooks| { RunsOut(code, hooks, s0, decline, decline); }
    }
    trace := trace + [Return(rv)];
  }

  /** APR_IMPLEMENT_EXTERNAL_HOOK_VOID: every hook runs. */
  method RunVoid<S>(code: Code<S, ()>, links: Option<seq<HookLink>>, s0: S) returns (s: S, trace: seq<Probe<()>>)
    ensures var hooks := Registered(links);
            s == After(code, hooks, s0, |hooks|) && trace == [Entry] + Pairs(code, hooks, s0, |hooks|) + [Return(())]
  {
    s, trace := s0, [Entry];
    if links.Some? {
      var hooks := links.value;
      var n := 0;
      while n < |hooks|
        invariant n <= |hooks|
        invariant s == After(code, hooks, s0, n) && trace == [Entry] + Pairs(code, hooks, s0, n)
      {
        var r: ();
        s, r, trace := CallHook(code, hooks, n, s, trace, s0);
        n := n + 1;
      }
    }
    trace := trace + [Return(())];
  }

  // ---- Laws ----

  /** RUN_FIRST is RUN_ALL with the decline value as both its values. */
  lemma FirstIsAll<S, R>(code: Code<S, R>, hooks: seq<HookLink>, s: S, d: R)
    ensures FirstOutcome(code, hooks, s, d) == AllOutcome(code, hooks, s, d, d)
  {
  }

  /** RUN_ALL returns ok when no hook stops it, also when none is registered or all decline; it never
      returns the decline value unless that is the ok value. */
  lemma AllValue<S, R>(code: Code<S, R>, hooks: seq<HookLink>, s: S, ok: R, decline: R)
    ensures var o := AllOutcome(code, hooks, s, ok, decline);
            (o.value == ok <==> forall i | 0 <= i < |hooks| :: Passes(Result(code, hooks, s, i), ok, decline))
            && (o.value == decline ==> decline == ok)
  {
  }

  lemma {:induction false} AfterFirst<S, R>(code: Code<S, R>, a: seq<HookLink>, b: seq<HookLink>, s: S, n: nat)
    requires n <= |a|
    ensures After(code, a + b, s, n) == After(code, a, s, n)
    ensures n < |a| ==> Result(code, a + b, s, n) == Result(code, a, s, n)
  {
    if n == 0 {
    } else {
      AfterFirst(code, a, b, s, n - 1);
    }
  }

  lemma {:induction false} AfterSecond<S, R>(code: Code<S, R>, a: seq<HookLink>, b: seq<HookLink>, s: S, m: nat)
    requires m <= |b|
    ensures After(code, a + b, s, |a| + m) == After(code, b, After(code, a, s, |a|), m)
    ensures m < |b| ==> Result(code, a + b, s, |a| + m) == Result(code, b, After(code, a, s, |a|), m)
  {
    if m == 0 { AfterFirst(code, a, b, s, |a|); } else { AfterSecond(code, a, b, s, m - 1); }
  }

  lemma AllPassed<S, R>(code: Code<S, R>, hooks: seq<HookLink>, s: S, ok: R, decline: R)
    requires !Stopped(code, hooks, s, ok, decline)
    ensures Passed(code, hooks, s, ok, decline, |hooks|) && Calls(code, hooks, s, ok, decline, 0) == |hooks|
  {
  }

  lemma PassedJoin<S, R>(code: Code<S, R>, a: seq<HookLink>, b: seq<HookLink>, s: S, ok: R, decline: R, m: nat)
    requires Passed(code, a, s, ok, decline, |a|) && Passed(code, b, After(code, a, s, |a|), ok, decline, m)
    ensures Passed(code, a + b, s, ok, decline, |a| + m)
  {
    forall j | 0 <= j < |a| + m ensures Passes(Result(code, a + b, s, j), ok, decline) {
      if j < |a| {
        AfterFirst(code, a, b, s, j);
      } else {
        AfterSecond(code, a, b, s, j - |a|);
        assert Passes(Result(code, b, After(code, a, s, |a|), j - |a|), ok, decline);
      }
    }
  }

  /** A run that the first array stops never reaches the second. */
  lemma StoppedEarly<S, R>(code: Code<S, R>, a: seq<HookLink>, b: seq<HookLink>, s: S, ok: R, decline: R)
    requires Stopped(code, a, s, ok, decline)
    ensures AllOutcome(code, a + b, s, ok, decline) == AllOutcome(code, a, s, ok, decline)
  {
    var n := Calls(code, a, s, ok, decline, 0) - 1;
    forall j | 0 <= j < n ensures Passes(Result(code, a + b, s, j), ok, decline) { AfterFirst(code, a, b, s, j); }
    AfterFirst(code, a, b, s, n);
    AfterFirst(code, a, b, s, n + 1);
    StopsAt(code, a + b, s, ok, decline, n);
  }

  /** A run that passes through the first array stops where the second array does. */
  lemma StoppedLate<S, R>(code: Code<S, R>, a: seq<HookLink>, b: seq<HookLink>, s: S, t: S, ok: R, decline: R, m: nat)
    requires Passed(code, a, s, ok, decline, |a|) && t == After(code, a, s, |a|)
    requires Passed(code, b, t, ok, decline, m) && m < |b| && !Passes(Result(code, b, t, m), ok, decline)
    ensures AllOutcome(code, a + b, s, ok, decline) ==
            Outcome(After(code, b, t, m + 1), Result(code, b, t, m), |a| + (m + 1))
  {
    PassedJoin(code, a, b, s, ok, decline, m);
    AfterSecond(code, a, b, s, m);
    StopsAt(code, a + b, s, ok, decline, |a| + m);
    AfterSecond(code, a, b, s, m + 1);
  }

  lemma NeverStopped<S, R>(code: Code<S, R>, a: seq<HookLink>, b: seq<HookLink>, s: S, t: S, ok: R, decline: R)
    requires Passed(code, a, s, ok, decline, |a|) && t == After(code, a, s, |a|)
    requires Passed(code, b, t, ok, decline, |b|)
    ensures AllOutcome(code, a + b, s, ok, decline) == Outcome(After(code, b, t, |b|), ok, |a| + |b|)
  {
    PassedJoin(code, a, b, s, ok, decline, |b|);
    RunsOut(code, a + b, s, ok, decline);
    AfterSecond(code, a, b, s, |b|);
  }

  lemma ContinueJoin<S, R>(code: Code<S, R>, a: seq<HookLink>, b: seq<HookLink>, s: S, ok: R, decline: R)
    requires !Stopped(code, a, s, ok, decline)
    ensures var rest := AllOutcome(code, b, After(code, a, s, |a|), ok, decline);
            AllOutcome(code, a + b, s, ok, decline) == Outcome(rest.state, rest.value, |a| + rest.calls)
  {
    var t := After(code, a, s, |a|);
    AllPassed(code, a, s, ok, decline);
    if Stopped(code, b, t, ok, decline) {
      StoppedLate(code, a, b, s, t, ok, decline, Calls(code, b, t, ok, decline, 0) - 1);
    } else {
      AllPassed(code, b, t, ok, decline);
      NeverStopped(code, a, b, s, t, ok, decline);
    }
  }

  /** Running two arrays in a row is running the first and then, only if nothing stopped it, the
      second from the state the first left. */
  lemma AllJoin<S, R>(code: Code<S, R>, a: seq<HookLink>, b: seq<HookLink>, s: S, ok: R, decline: R)
    ensures var rest := AllOutcome(code, b, After(code, a, s, |a|), ok, decline);
            AllOutcome(code, a + b, s, ok, decline) ==
            if Stopped(code, a, s, ok, decline) then AllOutcome(code, a, s, ok, decline)
            else Outcome(rest.state, rest.value, |a| + rest.calls)
  {
    if Stopped(code, a, s, ok, decline) {
      StoppedEarly(code, a, b, s, ok, decline);
    } else {
      ContinueJoin(code, a, b, s, ok, decline);
    }
  }

  /** Between ENTRY and RETURN the probes come in pairs, INVOKE then COMPLETE, one pair for each hook
      called, in the order of the array and with the value it returned. */
  lemma {:induction false} PairAt<S, R>(code: Code<S, R>, hooks: seq<HookLink>, s: S, n: nat, i: nat)
    requires i < n <= |hooks|
    ensures |Pairs(code, hooks, s, n)| == 2 * n
    ensures Pairs(code, hooks, s, n)[2 * i] == Invoke(hooks[i].name)
    ensures Pairs(code, hooks, s, n)[2 * i + 1] == Complete(hooks[i].name, Result(code, hooks, s, i))
  {
    if n == 1 {
    } else {
      PairAt(code, hooks, s, n - 1, if i < n - 1 then i else 0);
    }
  }
}
