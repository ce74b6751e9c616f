/** The round-robin prober of state.go, on values: one call as a scan of the node list with at most
    one reset, and what every sequence of calls probes while the membership does not change. */
module Prober {
  import opened Base

  // ---------------------------------------------------------------- one call

  /** The node list and the next index to look at. */
  datatype Cursor = Cursor(nodes: seq<string>, index: nat)

  datatype Outcome = Outcome(cursor: Cursor, probed: Option<string>, reset: bool)

  /** The first index from `i` on, but before `j`, of a node to probe; `j` if there is none. */
  function FirstLive(nodes: seq<string>, live: set<string>, i: nat, j: nat): (k: nat)
    requires i <= j <= |nodes|
    ensures i <= k <= j && (k < j ==> nodes[k] in live)
    ensures forall n :: i <= n < k ==> nodes[n] !in live
    decreases j - i
  {
    if i == j || nodes[i] in live then i else FirstLive(nodes, live, i + 1, j)
  }

  /** Look at the nodes from `i` on, but before `j`. */
  function Scan(nodes: seq<string>, live: set<string>, i: nat, j: nat, reset: bool): Outcome
    requires i <= j <= |nodes|
  {
    var k := FirstLive(nodes, live, i, j);
    if k < j then Outcome(Cursor(nodes, k + 1), Some(nodes[k]), reset)
    else Outcome(Cursor(nodes, j), None, reset)
  }

  /** One call of probe. `live` are the names to probe, neither our own nor dead; `shuffled` is
      what resetNodes would make of the list. A call looks at no more indices than there are
      nodes, and a wrap-around counts as one. */
  function Call(c: Cursor, live: set<string>, shuffled: seq<string>): (o: Outcome)
  {
    var n := |c.nodes|;
    if n == 0 then Outcome(c, None, false)
    else if c.index < n && FirstLive(c.nodes, live, c.index, n) < n then Scan(c.nodes, live, c.index, n, false)
    else if c.index == 0 then Outcome(c.(index := n), None, false)
    else AfterReset(shuffled, live, if c.index < n then n - c.index + 1 else 1)
  }

  function AfterReset(shuffled: seq<string>, live: set<string>, checked: nat): (o: Outcome)
  {
    if |shuffled| <= checked then Outcome(Cursor(shuffled, 0), None, true)
    else Scan(shuffled, live, 0, |shuffled| - checked, true)
  }

  // ---------------------------------------------------------------- the loop

  /** What the wrap-around costs: the indices looked at before it, and one more. */
  function Before(order: seq<string>, index: nat): nat
  {
    if index < |order| then |order| - index + 1 else 1
  }

  /** The loop of a call that began at `index` of `start`, when it is at `i` of `order` and has
      looked at `checks` indices; `reset` says that it has wrapped around. */
  ghost predicate Scanning(start: seq<string>, index: nat, live: set<string>,
                           order: seq<string>, i: nat, checks: nat, reset: bool)
  {
    if !reset then
      && order == start && i == index + checks && (checks > 0 ==> i <= |start|)
      && forall k :: index <= k < i && k < |start| ==> start[k] !in live
    else
      && start != [] && index > 0
      && (index < |start| ==> FirstLive(start, live, index, |start|) == |start|)
      && checks == Before(start, index) + i && (i > 0 ==> checks <= |order|)
      && forall k :: 0 <= k < i && k < |order| ==> order[k] !in live
  }

  lemma ScanGivesUp(start: seq<string>, index: nat, live: set<string>,
                    order: seq<string>, i: nat, checks: nat, reset: bool)
    requires Scanning(start, index, live, order, i, checks, reset) && checks >= |order|
    ensures Call(Cursor(start, index), live, order) == Outcome(Cursor(order, i), None, reset)
  {}

  lemma ScanWraps(start: seq<string>, index: nat, live: set<string>,
                  order: seq<string>, i: nat, checks: nat, reset: bool, shuffled: seq<string>)
    requires Scanning(start, index, live, order, i, checks, reset) && checks < |order| <= i
    ensures !reset && Scanning(start, index, live, shuffled, 0, checks + 1, true)
  {}

  lemma ScanMoves(start: seq<string>, index: nat, live: set<string>,
                  order: seq<string>, i: nat, checks: nat, reset: bool)
    requires Scanning(start, index, live, order, i, checks, reset) && checks < |order| && i < |order|
    ensures order[i] in live ==>
              Call(Cursor(start, index), live, order) == Outcome(Cursor(order, i + 1), Some(order[i]), reset)
    ensures order[i] !in live ==> Scanning(start, index, live, order, i + 1, checks + 1, reset)
  {}

  /** Every name to probe is listed, and no name twice. */
  ghost predicate Covers(c: Cursor, live: set<string>)
  {
    Distinct(c.nodes) && live <= Elements(c.nodes)
  }

  /** What resetNodes does to the list while the membership does not change: dead nodes may go,
      the others stay, in any order. */
  ghost predicate Shuffle(nodes: seq<string>, shuffled: seq<string>, live: set<string>)
  {
    Distinct(shuffled) && Elements(shuffled) <= Elements(nodes) && live <= Elements(shuffled)
  }

  /** No two calls in a row probe nobody. */
  lemma NeverIdleTwice(c: Cursor, live: set<string>, shuffled: seq<string>, again: seq<string>)
    requires Covers(c, live) && Shuffle(c.nodes, shuffled, live) && live != {}
    requires Call(c, live, shuffled).probed.None?
    ensures Call(Call(c, live, shuffled).cursor, live, again).probed.Some?
  {}

  // ---------------------------------------------------------------- runs

  /** `log` lists the probes so far, `rounds` the probes between one wrap-around and the next, and
      `round` those since the last wrap-around, if there was one. */
  datatype History = History(c: Cursor, log: seq<string>, rounds: seq<seq<string>>, round: Option<seq<string>>)

  function Listed(x: Option<string>): seq<string> { if x.Some? then [x.value] else [] }

  function Wrapped(h: History, shuffled: seq<string>): History
  {
    h.(c := Cursor(shuffled, 0), rounds := if h.round.Some? then h.rounds + [h.round.value] else h.rounds,
       round := Some([]))
  }

  function Moved(h: History, index: nat, probed: Option<string>): History
  {
    h.(c := h.c.(index := index), log := h.log + Listed(probed),
       round := if h.round.Some? then Some(h.round.value + Listed(probed)) else None)
  }

  /** A call, noted in the history. */
  function Next(h: History, live: set<string>, shuffled: seq<string>): (h': History)
  {
    var o := Call(h.c, live, shuffled);
    Moved(if o.reset then Wrapped(h, shuffled) else h, o.cursor.index, o.probed)
  }

  ghost predicate IsRun(hs: seq<History>, shuffles: seq<seq<string>>, live: set<string>)
  {
    && |hs| == |shuffles| + 1
    && Covers(hs[0].c, live) && hs[0].c.index <= |hs[0].c.nodes|
    && hs[0].log == [] && hs[0].rounds == [] && hs[0].round.None?
    && forall k :: 0 <= k < |shuffles| ==>
         Shuffle(hs[k].c.nodes, shuffles[k], live) && hs[k + 1] == Next(hs[k], live, shuffles[k])
  }

  // ---------------------------------------------------------------- what a round probes

  /** The nodes to probe among the first `j`, in list order. */
  function Visited(nodes: seq<string>, live: set<string>, j: nat): (r: seq<string>)
    requires j <= |nodes|
  {
    if j == 0 then []
    else Visited(nodes, live, j - 1) + (if nodes[j - 1] in live then [nodes[j - 1]] else [])
  }

  lemma {:induction false} VisitedIs(nodes: seq<string>, live: set<string>, j: nat)
    requires Distinct(nodes) && j <= |nodes|
    ensures var r := Visited(nodes, live, j);
            Distinct(r) && forall x :: x in r <==> x in live && x in nodes[..j]
  {
    if j > 0 {
      VisitedIs(nodes, live, j - 1);
      var x := nodes[j - 1];
      assert nodes[..j] == nodes[..j - 1] + [x];
      if x in live { DistinctAppend(Visited(nodes, live, j - 1), x); }
    }
  }

  lemma {:induction false} VisitedSkip(nodes: seq<string>, live: set<string>, i: nat, k: nat)
    requires i <= k <= |nodes| && forall n :: i <= n < k ==> nodes[n] !in live
    ensures Visited(nodes, live, k) == Visited(nodes, live, i)
    decreases k
  {
    if i < k { VisitedSkip(nodes, live, i, k - 1); }
  }

  lemma {:induction false} VisitedMonotone(nodes: seq<string>, live: set<string>, i: nat, k: nat)
    requires i <= k <= |nodes|
    ensures |Visited(nodes, live, i)| <= |Visited(nodes, live, k)|
    decreases k
  {
    if i < k { VisitedMonotone(nodes, live, i, k - 1); }
  }

  lemma VisitedAtMost(nodes: seq<string>, live: set<string>, j: nat)
    requires Distinct(nodes) && j <= |nodes|
    ensures |Visited(nodes, live, j)| <= |live|
  {
    VisitedIs(nodes, live, j);
    var r := Visited(nodes, live, j);
    DistinctLength(r);
    SubsetSize(Elements(r), live);
  }

  // ---------------------------------------------------------------- how long a peer waits

  /** How many probes ago `x` was probed; all of them if never. */
  function Since(log: seq<string>, x: string): (n: nat)
  {
    if log == [] || log[|log| - 1] == x then 0 else Since(log[..|log| - 1], x) + 1
  }

  /** The wait of the node at index `p`: one that was passed in this round waits for those passed
      after it, one still ahead also for those of the round before. */
  function Wait(c: Cursor, live: set<string>, p: nat): int
    requires c.index <= |c.nodes| && p < |c.nodes|
  {
    var seen := |Visited(c.nodes, live, c.index)|;
    if p < c.index then seen - |Visited(c.nodes, live, p + 1)| else |live| - 1 + seen
  }

  ghost predicate Waits(h: History, live: set<string>)
    requires h.c.index <= |h.c.nodes|
  {
    forall p :: 0 <= p < |h.c.nodes| && h.c.nodes[p] in live ==> Since(h.log, h.c.nodes[p]) <= Wait(h.c, live, p)
  }

  ghost predicate Complete(round: seq<string>, live: set<string>)
  {
    Distinct(round) && Elements(round) == live
  }

  ghost predicate Inv(h: History, live: set<string>)
  {
    && Covers(h.c, live) && h.c.index <= |h.c.nodes|
    && (forall x :: x in h.log ==> x in live)
    && (forall r :: r in h.rounds ==> Complete(r, live))
    && (h.round.Some? ==> h.round.value == Visited(h.c.nodes, live, h.c.index))
    && Waits(h, live)
  }

  /** Passing nodes that are not to be probed. */
  lemma SkipInv(h: History, live: set<string>, k: nat)
    requires Inv(h, live) && h.c.index <= k <= |h.c.nodes|
    requires forall n :: h.c.index <= n < k ==> h.c.nodes[n] !in live
    ensures Inv(Moved(h, k, None), live)
  {
    VisitedSkip(h.c.nodes, live, h.c.index, k);
    assert h.log + [] == h.log;
    if h.round.Some? { assert h.round.value + [] == h.round.value; }
  }

  /** Probing the node at the index. */
  lemma ProbeInv(h: History, live: set<string>)
    requires Inv(h, live) && h.c.index < |h.c.nodes| && h.c.nodes[h.c.index] in live
    ensures Inv(Moved(h, h.c.index + 1, Some(h.c.nodes[h.c.index])), live)
  {}

  /** Wrapping around, when all nodes have been passed. */
  lemma WrapInv(h: History, live: set<string>, shuffled: seq<string>)
    requires Inv(h, live) && h.c.index == |h.c.nodes| && Shuffle(h.c.nodes, shuffled, live)
    ensures Inv(Wrapped(h, shuffled), live)
  {
    var nodes, n := h.c.nodes, |h.c.nodes|;
    VisitedIs(nodes, live, n);
    assert nodes[..n] == nodes;
    assert Complete(Visited(nodes, live, n), live);
    forall q | 0 <= q < |shuffled| && shuffled[q] in live ensures Since(h.log, shuffled[q]) <= |live| - 1 {
      assert shuffled[q] in Elements(nodes);
      var p :| 0 <= p < n && nodes[p] == shuffled[q];
      assert Since(h.log, nodes[p]) <= Wait(h.c, live, p);
      VisitedAtMost(nodes, live, n);
    }
  }

  lemma ScanInv(h: History, live: set<string>, j: nat, reset: bool)
    requires Inv(h, live) && h.c.index <= j <= |h.c.nodes|
    ensures var o := Scan(h.c.nodes, live, h.c.index, j, reset);
            Inv(Moved(h, o.cursor.index, o.probed), live)
  {
    var k := FirstLive(h.c.nodes, live, h.c.index, j);
    SkipInv(h, live, k);
    var h1 := Moved(h, k, None);
    assert h.log + [] == h.log;
    if h.round.Some? { assert h.round.value + [] == h.round.value; }
    assert h1 == h.(c := h.c.(index := k));
    if k < j {
      hide Inv;
      ProbeInv(h1, live);
    }
  }

  lemma NextInv(h: History, live: set<string>, shuffled: seq<string>)
    requires Inv(h, live) && Shuffle(h.c.nodes, shuffled, live)
    ensures Inv(Next(h, live, shuffled), live)
  {
    var c, n := h.c, |h.c.nodes|;
    var o := Call(c, live, shuffled);
    if n == 0 {
      SkipInv(h, live, 0);
    } else if FirstLive(c.nodes, live, c.index, n) < n {
      ScanInv(h, live, n, false);
    } else {
      SkipInv(h, live, n);
      var h1 := Moved(h, n, None);
      assert h.log + [] == h.log;
      if h.round.Some? { assert h.round.value + [] == h.round.value; }
      if c.index > 0 {
        WrapInv(h1, live, shuffled);
        var h2 := Wrapped(h, shuffled);
        assert h2 == Wrapped(h1, shuffled);
        var checked := n - c.index + 1;
        ScanInv(h2, live, if |shuffled| <= checked then 0 else |shuffled| - checked, true);
      }
    }
  }

  lemma {:induction false} RunInv(hs: seq<History>, shuffles: seq<seq<string>>, live: set<string>, k: nat)
    requires IsRun(hs, shuffles, live) && k < |hs|
    ensures Inv(hs[k], live)
  {
    if k > 0 {
      RunInv(hs, shuffles, live, k - 1);
      NextInv(hs[k - 1], live, shuffles[k - 1]);
      assert hs[k - 1 + 1] == Next(hs[k - 1], live, shuffles[k - 1]);
    } else {
      var c := hs[0].c;
      forall p | 0 <= p < |c.nodes| && c.nodes[p] in live ensures 0 <= Wait(c, live, p) {
        if p < c.index { VisitedMonotone(c.nodes, live, p + 1, c.index); }
        assert live != {};
      }
    }
  }

  // ---------------------------------------------------------------- completeness

  /** Only nodes to probe are probed, and each round between two wrap-arounds probes every one of
      them exactly once. */
  lemma RoundsComplete(hs: seq<History>, shuffles: seq<seq<string>>, live: set<string>, k: nat)
    requires IsRun(hs, shuffles, live) && k < |hs|
    ensures forall x :: x in hs[k].log ==> x in live
    ensures forall r :: r in hs[k].rounds ==> Distinct(r) && Elements(r) == live
  {
    RunInv(hs, shuffles, live, k);
  }

  lemma WaitAtMost(h: History, live: set<string>, x: string)
    requires Inv(h, live) && x in live
    ensures Since(h.log, x) <= 2 * |live| - 2
  {
    var c := h.c;
    assert x in Elements(c.nodes);
    var p :| 0 <= p < |c.nodes| && c.nodes[p] == x;
    assert Since(h.log, c.nodes[p]) <= Wait(c, live, p);
    if p < c.index {
      VisitedAtMost(c.nodes, live, c.index);
      assert |Visited(c.nodes, live, p + 1)| >= 1;
    } else {
      VisitedMonotone(c.nodes, live, c.index, p);
      VisitedAtMost(c.nodes, live, p + 1);
    }
  }

  /** Every earlier state of the log was the log of an earlier state. */
  lemma {:induction false} EarlierLog(hs: seq<History>, shuffles: seq<seq<string>>, live: set<string>, k: nat, t: nat)
    returns (j: nat)
    requires IsRun(hs, shuffles, live) && k < |hs| && t <= |hs[k].log|
    ensures j <= k && hs[j].log == hs[k].log[..t]
  {
    j := k;
    if t < |hs[k].log| {
      assert k > 0 && hs[k - 1 + 1] == Next(hs[k - 1], live, shuffles[k - 1]);
      j := EarlierLog(hs, shuffles, live, k - 1, t);
      assert hs[k].log[..t] == hs[k - 1].log[..t];
    }
  }

  lemma {:induction false} SinceAbsent(log: seq<string>, x: string, s: nat)
    requires s <= |log| && x !in log[s..]
    ensures Since(log, x) >= |log| - s
    decreases |log|
  {
    if s < |log| {
      var n := |log| - 1;
      assert log[n] == log[s..][n - s];
      assert log[s..] == log[..n][s..] + [log[n]];
      SinceAbsent(log[..n], x, s);
    }
  }

  /** Of any 2L - 1 probes in a row, one is of any given one of the L nodes to probe. */
  lemma ProbedAgain(hs: seq<History>, shuffles: seq<seq<string>>, live: set<string>, k: nat, x: string, s: nat)
    requires IsRun(hs, shuffles, live) && k < |hs| && x in live && s + 2 * |live| - 1 <= |hs[k].log|
    ensures s <= s + 2 * |live| - 1 && x in hs[k].log[s..s + 2 * |live| - 1]
  {
    var log := hs[k].log;
    SubsetSize({x}, live);
    var t := s + 2 * |live| - 1;
    var j := EarlierLog(hs, shuffles, live, k, t);
    RunInv(hs, shuffles, live, j);
    WaitAtMost(hs[j], live, x);
    if x !in log[s..t] {
      assert log[..t][s..] == log[s..t];
      SinceAbsent(log[..t], x, s);
    }
  }

  lemma TwoCalls(h: History, live: set<string>, shuffled: seq<string>, again: seq<string>)
    requires Inv(h, live) && Shuffle(h.c.nodes, shuffled, live) && live != {}
    ensures |Next(Next(h, live, shuffled), live, again).log| > |h.log|
  {}

  lemma RunStep(hs: seq<History>, shuffles: seq<seq<string>>, live: set<string>, k: nat)
    requires IsRun(hs, shuffles, live) && k < |shuffles|
    ensures |hs| == |shuffles| + 1
    ensures Shuffle(hs[k].c.nodes, shuffles[k], live) && hs[k + 1] == Next(hs[k], live, shuffles[k])
  {}

  lemma TwoProbe(hs: seq<History>, shuffles: seq<seq<string>>, live: set<string>, m: nat)
    requires IsRun(hs, shuffles, live) && m + 2 < |hs| && live != {}
    ensures |hs[m + 2].log| > |hs[m].log|
  {
    RunInv(hs, shuffles, live, m);
    RunStep(hs, shuffles, live, m);
    RunStep(hs, shuffles, live, m + 1);
    TwoCalls(hs[m], live, shuffles[m], shuffles[m + 1]);
  }

  /** Two calls in a row make at least one probe. */
  lemma {:induction false} CallsProbe(hs: seq<History>, shuffles: seq<seq<string>>, live: set<string>, k: nat, n: nat)
    requires IsRun(hs, shuffles, live) && k + 2 * n < |hs| && live != {}
    ensures |hs[k + 2 * n].log| >= |hs[k].log| + n
    decreases n
  {
    if n > 0 {
      hide *;
      CallsProbe(hs, shuffles, live, k, n - 1);
      TwoProbe(hs, shuffles, live, k + 2 * n - 2);
    }
  }

  lemma {:induction false} LogGrows(hs: seq<History>, shuffles: seq<seq<string>>, live: set<string>, k: nat, n: nat)
    requires IsRun(hs, shuffles, live) && k + n < |hs|
    ensures hs[k].log <= hs[k + n].log
    decreases n
  {
    if n > 0 {
      LogGrows(hs, shuffles, live, k, n - 1);
      hide IsRun;
      RunStep(hs, shuffles, live, k + n - 1);
    }
  }

  /** Any 4L - 2 calls in a row probe every one of the L nodes to probe. */
  lemma CallsProbeAll(hs: seq<History>, shuffles: seq<seq<string>>, live: set<string>, k: nat, x: string)
    requires IsRun(hs, shuffles, live) && x in live && k + 4 * |live| - 2 < |hs|
    ensures |live| > 0 && hs[k].log <= hs[k + 4 * |live| - 2].log
    ensures x in hs[k + 4 * |live| - 2].log[|hs[k].log|..]
  {
    hide IsRun;
    SubsetSize({x}, live);
    var n, s := 2 * |live| - 1, |hs[k].log|;
    LogGrows(hs, shuffles, live, k, 2 * n);
    CallsProbe(hs, shuffles, live, k, n);
    ProbedAgain(hs, shuffles, live, k + 2 * n, x, s);
    var log := hs[k + 2 * n].log;
    assert log[s..s + n] <= log[s..];
  }

  // ---------------------------------------------------------------- which node a call probes

  /** A call probes the first live node at or after the cursor, which moves past it. */
  lemma NextLiveProbed(c: Cursor, live: set<string>, shuffled: seq<string>, k: nat)
    requires c.index <= k < |c.nodes| && c.nodes[k] in live
    requires forall i :: c.index <= i < k ==> c.nodes[i] !in live
    ensures Call(c, live, shuffled) == Outcome(Cursor(c.nodes, k + 1), Some(c.nodes[k]), false)
  {
    assert FirstLive(c.nodes, live, c.index, |c.nodes|) == k;
  }

  /** If there is none, and the cursor is not at the start, it is the first live one of the reshuffled list,
      unless the call has looked at as many nodes as there are before it gets there. */
  lemma ReshuffledProbed(c: Cursor, live: set<string>, shuffled: seq<string>, k: nat)
    requires c.index > 0 && c.nodes != [] && forall i :: c.index <= i < |c.nodes| ==> c.nodes[i] !in live
    requires k < |shuffled| && shuffled[k] in live && forall i :: 0 <= i < k ==> shuffled[i] !in live
    ensures var looked := if c.index < |c.nodes| then |c.nodes| - c.index + 1 else 1;
            Call(c, live, shuffled) ==
            if looked + k < |shuffled| then Outcome(Cursor(shuffled, k + 1), Some(shuffled[k]), true)
            else Outcome(Cursor(shuffled, if looked < |shuffled| then |shuffled| - looked else 0), None, true)
  {
    if c.index < |c.nodes| { assert FirstLive(c.nodes, live, c.index, |c.nodes|) == |c.nodes|; }
  }
}
