/** The suspicion timer of suspicion.go over discrete time, measured in nanoseconds.

    A timer is armed at `start` and calls back once. Each confirmation by a further
    peer may bring the deadline forward. */
module Suspicion {
  import opened Base

  const MILLISECOND: int := 1_000_000

  /** What the code uses of the natural logarithm: it is zero at one and strictly increasing. */
  ghost predicate LogLike(f: nat -> real)
  {
    f(1) == 0.0 && forall a: nat, b: nat :: 1 <= a < b ==> f(a) < f(b)
  }

  type LogFn = f: nat -> real | LogLike(f) witness (n: nat) => n as real - 1.0

  /** `Armed` is a running Go timer, `Fired` one whose function has been called. */
  datatype Timer = Armed(deadline: int) | Fired(at: int)

  datatype Susp = Susp(k: int, n: nat, confirmed: set<string>, start: int, min: nat, max: nat, timer: Timer)

  /** The overall timeout after `n` of `k` confirmations, rounded down to milliseconds. */
  function Timeout(n: nat, k: nat, min: nat, max: nat, ln: LogFn): (t: int)
    requires 1 <= k
  {
    assert ln(1) < ln(k + 1);
    var t := Interpolate(ln(n + 1) / ln(k + 1), max as real, (max - min) as real);
    if t < min then min else t
  }

  /** The point a fraction `frac` of the span below `max`, in whole milliseconds. */
  function Interpolate(frac: real, max: real, span: real): (t: int)
  {
    RoundDown(max - frac * span)
  }

  /** The largest whole number of milliseconds in `t`, in nanoseconds. */
  function RoundDown(t: real): (r: int)
  {
    (t / MILLISECOND as real).Floor * MILLISECOND
  }

  function Remaining(n: nat, k: nat, elapsed: int, min: nat, max: nat, ln: LogFn): (t: int)
    requires 1 <= k
  {
    Timeout(n, k, min, max, ln) - elapsed
  }

  function Start(from: string, k: int, min: nat, max: nat, now: int): (s: Susp)
  {
    Susp(k, 0, {from}, now, min, max, Armed(now + if k < 1 then min else max))
  }

  /** Confirm returns the new timer and whether the confirmation was news. */
  function Confirm(s: Susp, from: string, now: int, ln: LogFn): (r: (Susp, bool))
  {
    if s.n >= s.k || from in s.confirmed then (s, false)
    else
      var n := s.n + 1;
      var remaining := Remaining(n, s.k, now - s.start, s.min, s.max, ln);
      var timer := if s.timer.Fired? then s.timer
                   else if remaining > 0 then Armed(now + remaining) else Fired(now);
      (s.(n := n, confirmed := s.confirmed + {from}, timer := timer), true)
  }

  // ---------------------------------------------------------------- timeouts

  lemma FracBounds(n: nat, k: nat, ln: LogFn)
    requires 0 <= n <= k && 1 <= k
    ensures ln(k + 1) > 0.0
    ensures 0.0 <= ln(n + 1) / ln(k + 1) <= 1.0
  {
    assert ln(1) < ln(k + 1);
    assert n == 0 || ln(1) < ln(n + 1);
    assert n == k || ln(n + 1) < ln(k + 1);
    var a, b := ln(n + 1), ln(k + 1);
    assert 0.0 <= a <= b;
    DivMono(0.0, a, b);
    DivMono(a, b, b);
  }

  lemma DivMono(x: real, y: real, b: real)
    requires x <= y && b > 0.0
    ensures x / b <= y / b
  {}

  lemma ScaleMono(f: real, g: real, d: real)
    requires f <= g && d >= 0.0
    ensures f * d <= g * d
  {}

  lemma RoundDownMono(x: real, y: real)
    requires x <= y
    ensures RoundDown(x) <= RoundDown(y)
  {
    DivMono(x, y, MILLISECOND as real);
  }

  lemma RoundDownBelow(x: real)
    ensures RoundDown(x) as real <= x
  {
    var f := (x / MILLISECOND as real).Floor;
    ScaleMono(f as real, x / MILLISECOND as real, MILLISECOND as real);
  }

  /** Every timeout lies between the minimum and the maximum. */
  lemma TimeoutInRange(n: nat, k: nat, min: nat, max: nat, ln: LogFn)
    requires n <= k && 1 <= k && min <= max
    ensures min <= Timeout(n, k, min, max, ln) <= max
  {
    FracBounds(n, k, ln);
    InterpolateBelow(ln(n + 1) / ln(k + 1), max as real, (max - min) as real);
  }

  lemma InterpolateBelow(frac: real, max: real, span: real)
    requires 0.0 <= frac && 0.0 <= span
    ensures Interpolate(frac, max, span) as real <= max
  {
    ScaleMono(0.0, frac, span);
    RoundDownBelow(max - frac * span);
  }

  /** A further confirmation never lengthens the timeout. */
  lemma TimeoutDecreases(m: nat, n: nat, k: nat, min: nat, max: nat, ln: LogFn)
    requires m <= n <= k && 1 <= k && min <= max
    ensures Timeout(n, k, min, max, ln) <= Timeout(m, k, min, max, ln)
  {
    FracBounds(k, k, ln);
    assert m == n || ln(m + 1) < ln(n + 1);
    DivMono(ln(m + 1), ln(n + 1), ln(k + 1));
    InterpolateMono(ln(m + 1) / ln(k + 1), ln(n + 1) / ln(k + 1), max as real, (max - min) as real);
  }

  lemma InterpolateMono(f: real, g: real, max: real, span: real)
    requires f <= g && 0.0 <= span
    ensures Interpolate(g, max, span) <= Interpolate(f, max, span)
  {
    ScaleMono(f, g, span);
    RoundDownMono(max - g * span, max - f * span);
  }

  /** With all `k` confirmations the timeout is the minimum. */
  lemma TimeoutAtK(k: nat, min: nat, max: nat, ln: LogFn)
    requires 1 <= k && min <= max
    ensures Timeout(k, k, min, max, ln) == min
  {
    FracBounds(k, k, ln);
    var l := ln(k + 1);
    assert l / l == 1.0;
    RoundDownBelow(min as real);
  }

  /** The timeout that the logarithms call for, not rounded and not cut off at the minimum. */
  function Exact(n: nat, k: nat, min: nat, max: nat, ln: LogFn): real
    requires 1 <= k
  {
    assert ln(1) < ln(k + 1);
    Point(ln(n + 1) / ln(k + 1), max as real, (max - min) as real)
  }

  function Point(frac: real, max: real, span: real): real { max - frac * span }

  /** A timeout is the exact one, less at most a millisecond, and at least the minimum. */
  lemma TimeoutIsExact(n: nat, k: nat, min: nat, max: nat, ln: LogFn)
    requires n <= k && 1 <= k && min <= max
    ensures var t, exact := Timeout(n, k, min, max, ln) as real, Exact(n, k, min, max, ln);
            && exact - MILLISECOND as real < t
            && (t <= exact || t == min as real)
  {
    FracBounds(n, k, ln);
    hide RoundDown;
    RoundDownBelow(Exact(n, k, min, max, ln));
    RoundDownAbove(Exact(n, k, min, max, ln));
  }

  /** Without a confirmation the exact timeout is the maximum, and each confirmation shortens it. */
  lemma ExactShrinks(n: nat, k: nat, min: nat, max: nat, ln: LogFn)
    requires n < k && min < max
    ensures Exact(0, k, min, max, ln) == max as real
    ensures Exact(n + 1, k, min, max, ln) < Exact(n, k, min, max, ln)
  {
    FracBounds(0, k, ln);
    var b, span := ln(k + 1), (max - min) as real;
    assert ln(n + 1) < ln(n + 2);
    DivStrict(ln(n + 1), ln(n + 2), b);
    PointStrict(ln(n + 1) / b, ln(n + 2) / b, max as real, span);
    DivZero(ln(1), b);
  }

  lemma DivZero(x: real, b: real)
    requires x == 0.0 && b > 0.0
    ensures x / b == 0.0
  {}

  lemma DivStrict(x: real, y: real, b: real)
    requires x < y && b > 0.0
    ensures x / b < y / b
  {}

  lemma PointStrict(f: real, g: real, max: real, span: real)
    requires f < g && span > 0.0
    ensures Point(g, max, span) < Point(f, max, span)
  {}

  lemma RoundDownAbove(x: real)
    ensures x - MILLISECOND as real < RoundDown(x) as real
  {
    var q := x / MILLISECOND as real;
    ScaleMono(q - 1.0, q.Floor as real, MILLISECOND as real);
    assert q * MILLISECOND as real == x;
    assert q - 1.0 < q.Floor as real;
  }

  // ---------------------------------------------------------------- runs

  /** What can happen to a timer: a peer confirms, the clock moves, or the timer expires.
      Go calls the timer's function when its time has come, so the clock does not run past
      an armed deadline. */
  datatype Step = ConfirmBy(from: string) | Tick(to: int) | Expire

  datatype Run = Run(now: int, s: Susp, calls: seq<int>)

  predicate Enabled(r: Run, step: Step)
  {
    match step
    case ConfirmBy(_) => true
    case Tick(to) => r.now <= to && (r.s.timer.Armed? ==> to <= r.s.timer.deadline)
    case Expire => r.s.timer.Armed? && r.s.timer.deadline <= r.now
  }

  /** `calls` records the times at which the timeout function was called. */
  function Next(r: Run, step: Step, ln: LogFn): (r': Run)
    requires Enabled(r, step)
  {
    match step
    case Tick(to) => r.(now := to)
    case Expire => r.(s := r.s.(timer := Fired(r.now)), calls := r.calls + [r.now])
    case ConfirmBy(from) =>
      var s := Confirm(r.s, from, r.now, ln).0;
      r.(s := s, calls := if r.s.timer.Armed? && s.timer.Fired? then r.calls + [r.now] else r.calls)
  }

  predicate Executable(r: Run, steps: seq<Step>, ln: LogFn)
    decreases |steps|
  {
    steps == [] || (Enabled(r, steps[0]) && Executable(Next(r, steps[0], ln), steps[1..], ln))
  }

  function Execute(r: Run, steps: seq<Step>, ln: LogFn): (r': Run)
    requires Executable(r, steps, ln)
    decreases |steps|
  {
    if steps == [] then r else Execute(Next(r, steps[0], ln), steps[1..], ln)
  }

  /** The peers that tried to confirm during a run. */
  function Confirmers(steps: seq<Step>): (c: set<string>)
  {
    set i | 0 <= i < |steps| && steps[i].ConfirmBy? :: steps[i].from
  }

  /** The deadline that the confirmations so far call for. */
  function Due(s: Susp, ln: LogFn): (t: int)
  {
    s.start + if s.k < 1 then s.min else if s.n == 0 then s.max else Timeout(s.n, s.k, s.min, s.max, ln)
  }

  ghost predicate RunInv(r: Run, from: string, ln: LogFn)
  {
    && r.s.min <= r.s.max
    && from in r.s.confirmed
    && |r.s.confirmed| == r.s.n + 1
    && (r.s.n == 0 || r.s.n <= r.s.k)
    && (match r.s.timer
        case Armed(d) => d == Due(r.s, ln) && r.s.start <= r.now <= d && r.calls == []
        case Fired(t) => r.calls == [t] && Due(r.s, ln) <= t <= r.s.start + r.s.max && t <= r.now)
  }

  lemma DueInRange(s: Susp, ln: LogFn)
    requires s.min <= s.max && (s.n == 0 || s.n <= s.k)
    ensures s.start + s.min <= Due(s, ln) <= s.start + s.max
  {
    if s.k >= 1 && s.n > 0 { TimeoutInRange(s.n, s.k, s.min, s.max, ln); }
  }

  lemma DueAfterConfirm(s: Susp, s': Susp, ln: LogFn)
    requires s.min <= s.max && s.n < s.k
    requires s' == s.(n := s.n + 1, confirmed := s'.confirmed, timer := s'.timer)
    ensures Due(s', ln) <= Due(s, ln)
  {
    if s.n == 0 {
      TimeoutInRange(1, s.k, s.min, s.max, ln);
    } else {
      TimeoutDecreases(s.n, s.n + 1, s.k, s.min, s.max, ln);
    }
  }

  lemma StepKeepsInv(r: Run, step: Step, from: string, ln: LogFn)
    requires RunInv(r, from, ln) && Enabled(r, step)
    ensures var r' := Next(r, step, ln);
            && RunInv(r', from, ln)
            && r'.s.start == r.s.start && r'.s.min == r.s.min && r'.s.max == r.s.max && r'.s.k == r.s.k
            && Due(r'.s, ln) <= Due(r.s, ln)
  {
    var r' := Next(r, step, ln);
    DueInRange(r.s, ln);
    match step
    case Tick(_) =>
    case Expire =>
    case ConfirmBy(p) =>
      if r'.s != r.s {
        assert r.s.n < r.s.k;
        DueAfterConfirm(r.s, r'.s, ln);
        DueInRange(r'.s, ln);
      }
  }

  lemma {:induction false} ExecuteKeepsInv(r: Run, steps: seq<Step>, from: string, ln: LogFn)
    requires RunInv(r, from, ln) && Executable(r, steps, ln)
    ensures var r' := Execute(r, steps, ln);
            && RunInv(r', from, ln)
            && r'.s.start == r.s.start && r'.s.min == r.s.min && r'.s.max == r.s.max && r'.s.k == r.s.k
            && Due(r'.s, ln) <= Due(r.s, ln)
    decreases |steps|
  {
    if steps != [] {
      StepKeepsInv(r, steps[0], from, ln);
      ExecuteKeepsInv(Next(r, steps[0], ln), steps[1..], from, ln);
    }
  }

  /** For any order and timing of confirmations, the timeout function is called at most once,
      never before `start + min`, never after `start + max`, and the deadline only moves forward. */
  lemma DeadlineTheorem(from: string, k: int, min: nat, max: nat, now: int,
                        before: seq<Step>, after: seq<Step>, ln: LogFn)
    requires min <= max
    requires var r := Run(now, Start(from, k, min, max, now), []);
             Executable(r, before, ln) && Executable(Execute(r, before, ln), after, ln)
    ensures var r1 := Execute(Run(now, Start(from, k, min, max, now), []), before, ln);
            var r2 := Execute(r1, after, ln);
            && |r2.calls| <= 1
            && (r2.calls == [] <==> r2.s.timer.Armed?)
            && (forall t :: t in r2.calls ==> now + min <= t <= now + max)
            && (r1.s.timer.Armed? && r2.s.timer.Armed? ==> r2.s.timer.deadline <= r1.s.timer.deadline)
            && (r2.s.timer.Armed? ==> now + min <= r2.s.timer.deadline <= now + max)
            && (k >= 1 && r2.s.n == k && r2.s.timer.Armed? ==> r2.s.timer.deadline == now + min)
  {
    var r := Run(now, Start(from, k, min, max, now), []);
    ExecuteKeepsInv(r, before, from, ln);
    var r1 := Execute(r, before, ln);
    ExecuteKeepsInv(r1, after, from, ln);
    var r2 := Execute(r1, after, ln);
    DueInRange(r2.s, ln);
    if k >= 1 { TimeoutAtK(k, min, max, ln); }
  }

  /** As long as the timer runs, its deadline is the timeout that the confirmations so far call for:
      the minimum if none are wanted, the maximum if none have come. */
  lemma DeadlineIs(from: string, k: int, min: nat, max: nat, now: int, steps: seq<Step>, ln: LogFn)
    requires min <= max && Executable(Run(now, Start(from, k, min, max, now), []), steps, ln)
    ensures var s := Execute(Run(now, Start(from, k, min, max, now), []), steps, ln).s;
            s.timer.Armed? ==>
              s.timer.deadline == now + if k < 1 then min else if s.n == 0 then max else Timeout(s.n, k, min, max, ln)
  {
    ExecuteKeepsInv(Run(now, Start(from, k, min, max, now), []), steps, from, ln);
  }

  /** `heard` are the peers that tried to confirm so far, the originator among them. */
  ghost predicate Counted(s: Susp, heard: set<string>)
  {
    s.confirmed <= heard && (s.n < s.k ==> s.confirmed == heard)
  }

  function Heard(heard: set<string>, step: Step): (h: set<string>)
  {
    if step.ConfirmBy? then heard + {step.from} else heard
  }

  lemma StepKeepsCount(r: Run, step: Step, heard: set<string>, ln: LogFn)
    requires Enabled(r, step) && Counted(r.s, heard)
    ensures Counted(Next(r, step, ln).s, Heard(heard, step))
  {}

  lemma {:induction false} CountInduction(r: Run, steps: seq<Step>, from: string, heard: set<string>, ln: LogFn)
    requires RunInv(r, from, ln) && Executable(r, steps, ln) && Counted(r.s, heard)
    ensures Counted(Execute(r, steps, ln).s, heard + Confirmers(steps))
    decreases |steps|
  {
    if steps == [] {
      assert heard + Confirmers(steps) == heard;
    } else {
      StepKeepsInv(r, steps[0], from, ln);
      StepKeepsCount(r, steps[0], heard, ln);
      CountInduction(Next(r, steps[0], ln), steps[1..], from, Heard(heard, steps[0]), ln);
      ConfirmersSplit(steps);
      assert Heard(heard, steps[0]) + Confirmers(steps[1..]) == heard + Confirmers(steps);
    }
  }

  lemma ConfirmersSplit(steps: seq<Step>)
    requires steps != []
    ensures Confirmers(steps) ==
            (if steps[0].ConfirmBy? then {steps[0].from} else {}) + Confirmers(steps[1..])
  {
    var lhs := Confirmers(steps);
    var rhs := (if steps[0].ConfirmBy? then {steps[0].from} else {}) + Confirmers(steps[1..]);
    forall x ensures x in lhs <==> x in rhs {
      if x in lhs {
        var i :| 0 <= i < |steps| && steps[i].ConfirmBy? && steps[i].from == x;
        if i > 0 { assert steps[1..][i - 1] == steps[i]; }
      }
      if x in Confirmers(steps[1..]) {
        var i :| 0 <= i < |steps[1..]| && steps[1..][i].ConfirmBy? && steps[1..][i].from == x;
        assert steps[i + 1].from == x;
      }
    }
  }

  /** The number of confirmations counted is the number of distinct peers, other than the one
      whose message armed the timer, that confirmed; and it stops at `k`. */
  lemma CountTheorem(from: string, k: int, min: nat, max: nat, now: int, steps: seq<Step>, ln: LogFn)
    requires min <= max
    requires Executable(Run(now, Start(from, k, min, max, now), []), steps, ln)
    ensures var n := Execute(Run(now, Start(from, k, min, max, now), []), steps, ln).s.n;
            var distinct := |Confirmers(steps) - {from}|;
            n == if k < 0 then 0 else if distinct <= k then distinct else k
  {
    var r := Run(now, Start(from, k, min, max, now), []);
    CountInduction(r, steps, from, {from}, ln);
    ExecuteKeepsInv(r, steps, from, ln);
    CountedSize(Execute(r, steps, ln).s, from, Confirmers(steps));
  }

  lemma CountedSize(s: Susp, from: string, confirmers: set<string>)
    requires Counted(s, {from} + confirmers)
    requires from in s.confirmed && |s.confirmed| == s.n + 1 && (s.n == 0 || s.n <= s.k)
    ensures var distinct := |confirmers - {from}|;
            s.n == if s.k < 0 then 0 else if distinct <= s.k then distinct else s.k
  {
    var others := confirmers - {from};
    assert {from} + confirmers == {from} + others;
    assert s.confirmed == (s.confirmed - {from}) + {from};
    SubsetSize(s.confirmed - {from}, others);
  }

  // ---------------------------------------------------------------- the object

  /** A suspicion as the code keeps it. `node` is what its timeout function is about, and `id` its
      place among all suspicions ever started. */
  class SuspicionTimer {
    const node: string
    const id: nat
    const k: int
    const min: nat
    const max: nat
    const start: int
    var n: nat
    var confirmations: set<string>
    var timer: Timer

    function View(): Susp
      reads this
    {
      Susp(k, n, confirmations, start, min, max, timer)
    }

    constructor (node: string, id: nat, from: string, k: int, min: nat, max: nat, now: int)
      ensures View() == Start(from, k, min, max, now) && this.node == node && this.id == id
    {
      this.node, this.id, this.k, this.min, this.max := node, id, k, min, max;
      n, confirmations := 0, {from};
      var timeout := max;
      if k < 1 { timeout := min; }
      timer := Armed(now + timeout);
      start := now;
    }

    /** Count a confirmation by a further peer and move the deadline; a timer that has expired
        can no longer be stopped. */
    method ConfirmFrom(from: string, now: int, ln: LogFn) returns (news: bool)
      modifies this
      ensures (View(), news) == Confirm(old(View()), from, now, ln)
    {
      if n >= k { return false; }
      if from in confirmations { return false; }
      confirmations := confirmations + {from};
      n := n + 1;
      var elapsed := now - start;
      var remaining := Remaining(n, k, elapsed, min, max, ln);
      if timer.Armed? {
        if remaining > 0 { timer := Armed(now + remaining); } else { timer := Fired(now); }
      }
      return true;
    }
  }
}
