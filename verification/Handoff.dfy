/** The hand-over of messages from the packet listener to the packet handler in net.go: two bounded
    queues behind a lock, and a wake-up channel of capacity one. */
module Handoff {
  import opened Base

  datatype Kind = Alive | Suspect | Dead | User

  datatype Message = Message(kind: Kind, payload: Bytes)

  // ---------------------------------------------------------------- the queues

  datatype Queues = Queues(high: seq<Message>, low: seq<Message>)

  /** Alive messages have a queue of their own. A full queue drops the message. */
  predicate Dropped(q: Queues, m: Message, depth: int)
  {
    if m.kind.Alive? then |q.high| >= depth else |q.low| >= depth
  }

  function Push(q: Queues, m: Message, depth: int): (r: Queues)
  {
    if Dropped(q, m, depth) then q
    else if m.kind.Alive? then q.(high := q.high + [m])
    else q.(low := q.low + [m])
  }

  /** The newest alive message, or else the newest other one. */
  function Pop(q: Queues): (r: Option<(Message, Queues)>)
  {
    if q.high != [] then Some((q.high[|q.high| - 1], q.(high := q.high[..|q.high| - 1])))
    else if q.low != [] then Some((q.low[|q.low| - 1], q.(low := q.low[..|q.low| - 1])))
    else None
  }

  /** The queues as the code keeps them. */
  class MessageQueues {
    var high: seq<Message>
    var low: seq<Message>
    const depth: int

    function View(): Queues
      reads this
    {
      Queues(high, low)
    }

    constructor (depth: int)
      ensures View() == Queues([], []) && this.depth == depth
    {
      high, low, this.depth := [], [], depth;
    }

    /** Append to the queue of the message's kind, unless it is full. */
    method PushBack(m: Message) returns (full: bool)
      modifies this
      ensures View() == Push(old(View()), m, depth) && full == Dropped(old(View()), m, depth)
    {
      var queue := low;
      if m.kind.Alive? { queue := high; }
      full := |queue| >= depth;
      if !full {
        queue := queue + [m];
        if m.kind.Alive? { high := queue; } else { low := queue; }
      }
    }

    method GetNextMessage() returns (m: Option<Message>)
      modifies this
      ensures match Pop(old(View()))
              case Some((x, rest)) => m == Some(x) && View() == rest
              case None => m == None && View() == old(View())
    {
      if |high| > 0 {
        m := Some(high[|high| - 1]);
        high := high[..|high| - 1];
      } else if |low| > 0 {
        m := Some(low[|low| - 1]);
        low := low[..|low| - 1];
      } else {
        m := None;
      }
    }

    /** The handler's inner loop, when no producer interferes: everything queued is handled, alive
        messages first, and of each kind the newest first. */
    method Drain() returns (handled: seq<Message>)
      modifies this
      ensures View() == Queues([], [])
      ensures handled == Reversed(old(high)) + Reversed(old(low))
    {
      handled := [];
      ghost var hs, ls := high, low;
      while true
        invariant handled + Reversed(high) + Reversed(low) == Reversed(hs) + Reversed(ls)
        decreases |high| + |low|
      {
        ghost var h, l := high, low;
        var m := GetNextMessage();
        if m.None? {
          assert high == [] && low == [];
          assert handled + [] + [] == handled;
          break;
        }
        ghost var was := handled;
        handled := handled + [m.value];
        if h != [] {
          assert was + ([m.value] + Reversed(high)) + Reversed(l) == handled + Reversed(high) + Reversed(l);
        } else {
          assert was + [] + ([m.value] + Reversed(low)) == handled + [] + Reversed(low);
        }
      }
    }
  }

  function Reversed(s: seq<Message>): seq<Message>
  {
    if s == [] then [] else [s[|s| - 1]] + Reversed(s[..|s| - 1])
  }

  // ---------------------------------------------------------------- the protocol

  /** What the handler goroutine is doing. */
  datatype Handler = Waiting | Draining | Busy(m: Message) | Stopped

  /** `signalling` are the producers that have released the lock, but not yet tried to send the
      token. The last three fields keep books. */
  datatype Hub = Hub(q: Queues, token: bool, handler: Handler, signalling: set<nat>,
                     arrived: seq<Message>, dropped: seq<Message>, handled: seq<Message>)

  datatype Step =
    | Arrive(producer: nat, m: Message)
    | Signal(producer: nat)
    | Wake
    | Take
    | Done
    | Stop

  const START := Hub(Queues([], []), false, Waiting, {}, [], [], [])

  predicate Enabled(s: Hub, step: Step)
  {
    match step
    case Arrive(p, _) => p !in s.signalling
    case Signal(p) => p in s.signalling
    case Wake => s.handler.Waiting? && s.token
    case Take => s.handler.Draining?
    case Done => s.handler.Busy?
    case Stop => s.handler.Waiting?
  }

  function Next(s: Hub, step: Step, depth: int): (s': Hub)
    requires Enabled(s, step)
  {
    match step
    case Arrive(p, m) =>
      s.(q := Push(s.q, m, depth), signalling := s.signalling + {p}, arrived := s.arrived + [m],
         dropped := if Dropped(s.q, m, depth) then s.dropped + [m] else s.dropped)
    case Signal(p) => s.(token := true, signalling := s.signalling - {p})
    case Wake => s.(token := false, handler := Draining)
    case Take =>
      (match Pop(s.q)
       case Some((m, rest)) => s.(q := rest, handler := Busy(m))
       case None => s.(handler := Waiting))
    case Done => s.(handler := Draining, handled := s.handled + [s.handler.m])
    case Stop => s.(handler := Stopped)
  }

  ghost predicate IsRun(states: seq<Hub>, steps: seq<Step>, depth: int)
  {
    && |states| == |steps| + 1 && states[0] == START
    && forall k :: 0 <= k < |steps| ==>
         Enabled(states[k], steps[k]) && states[k + 1] == Next(states[k], steps[k], depth)
  }

  // ---------------------------------------------------------------- invariants

  /** A queued message is known to somebody who will act on it. */
  predicate Attended(s: Hub)
  {
    s.q != Queues([], []) ==>
      s.token || s.handler.Draining? || s.handler.Busy? || s.signalling != {} || s.handler.Stopped?
  }

  ghost predicate Bounded(s: Hub, depth: int)
  {
    var most := if depth < 0 then 0 else depth;
    && |s.q.high| <= most && |s.q.low| <= most
    && (forall m :: m in s.q.high ==> m.kind.Alive?) && (forall m :: m in s.q.low ==> !m.kind.Alive?)
  }

  /** In how many places a message is: queued, being handled, handled, or dropped. */
  function Places(s: Hub, m: Message): nat
  {
    multiset(s.q.high)[m] + multiset(s.q.low)[m] + (if s.handler == Busy(m) then 1 else 0)
    + multiset(s.handled)[m] + multiset(s.dropped)[m]
  }

  ghost predicate Accounted(s: Hub)
  {
    forall m :: Places(s, m) == multiset(s.arrived)[m]
  }

  ghost predicate Inv(s: Hub, depth: int)
  {
    Attended(s) && Bounded(s, depth) && Accounted(s)
  }

  lemma PushPlaces(q: Queues, x: Message, depth: int, m: Message)
    ensures var r := Push(q, x, depth);
            multiset(r.high)[m] + multiset(r.low)[m]
            == multiset(q.high)[m] + multiset(q.low)[m] + (if m == x && !Dropped(q, x, depth) then 1 else 0)
  {}

  lemma PopPlaces(q: Queues, m: Message)
    requires Pop(q).Some?
    ensures var (x, r) := Pop(q).value;
            multiset(r.high)[m] + multiset(r.low)[m] + (if m == x then 1 else 0)
            == multiset(q.high)[m] + multiset(q.low)[m]
  {
    if q.high != [] {
      assert q.high == q.high[..|q.high| - 1] + [q.high[|q.high| - 1]];
    } else {
      assert q.low == q.low[..|q.low| - 1] + [q.low[|q.low| - 1]];
    }
  }

  lemma PlacesStep(s: Hub, step: Step, depth: int, m: Message)
    requires Enabled(s, step) && Places(s, m) == multiset(s.arrived)[m]
    ensures Places(Next(s, step, depth), m) == multiset(Next(s, step, depth).arrived)[m]
  {
    match step
    case Arrive(_, x) => PushPlaces(s.q, x, depth, m);
    case Take => if Pop(s.q).Some? { PopPlaces(s.q, m); }
    case Signal(_) =>
    case Wake =>
    case Done =>
    case Stop =>
  }

  lemma StepInv(s: Hub, step: Step, depth: int)
    requires Inv(s, depth) && Enabled(s, step)
    ensures Inv(Next(s, step, depth), depth)
  {
    var s' := Next(s, step, depth);
    forall m ensures Places(s', m) == multiset(s'.arrived)[m] {
      PlacesStep(s, step, depth, m);
    }
  }

  lemma {:induction false} RunInv(states: seq<Hub>, steps: seq<Step>, depth: int, k: nat)
    requires IsRun(states, steps, depth) && k < |states|
    ensures Inv(states[k], depth)
  {
    if k > 0 {
      RunInv(states, steps, depth, k - 1);
      assert states[k - 1 + 1] == Next(states[k - 1], steps[k - 1], depth);
      StepInv(states[k - 1], steps[k - 1], depth);
    }
  }

  // ---------------------------------------------------------------- theorems

  /** In every interleaving a queued message has a token, an active handler or a producer about to
      signal; the queues keep to their depth; and every arrival is in exactly one place. */
  lemma NoLostWakeup(states: seq<Hub>, steps: seq<Step>, depth: int, k: nat)
    requires IsRun(states, steps, depth) && k < |states|
    ensures var s := states[k];
            && (s.q != Queues([], []) ==>
                  s.token || s.handler.Draining? || s.handler.Busy? || s.signalling != {} || s.handler.Stopped?)
            && (|s.q.high| <= depth || s.q.high == []) && (|s.q.low| <= depth || s.q.low == [])
            && (forall m :: Places(s, m) == multiset(s.arrived)[m])
  {
    RunInv(states, steps, depth, k);
  }

  /** No other message is taken while an alive message is queued. */
  lemma AliveFirst(states: seq<Hub>, steps: seq<Step>, depth: int, k: nat)
    requires IsRun(states, steps, depth) && k < |steps| && steps[k].Take?
    ensures states[k + 1].handler.Busy? && !states[k + 1].handler.m.kind.Alive?
            ==> forall m :: m in states[k].q.high + states[k].q.low ==> !m.kind.Alive?
  {
    RunInv(states, steps, depth, k);
  }

  /** What is left to do without a new arrival. */
  function Work(s: Hub): nat
  {
    2 * (|s.q.high| + |s.q.low|) + 3 * |s.signalling| + (if s.token then 2 else 0)
    + (match s.handler case Waiting => 1 case Draining => 2 case Busy(_) => 3 case Stopped => 0)
  }

  lemma WorkShrinks(s: Hub, step: Step, depth: int)
    requires Enabled(s, step) && !step.Arrive?
    ensures Work(Next(s, step, depth)) < Work(s)
  {}

  /** Once arrivals cease, the steps that remain are bounded, whatever their order. */
  lemma {:induction false} Settles(states: seq<Hub>, steps: seq<Step>, depth: int, i: nat, j: nat)
    requires IsRun(states, steps, depth) && i <= j < |states|
    requires forall k :: i <= k < j ==> !steps[k].Arrive?
    ensures j - i + Work(states[j]) <= Work(states[i])
    decreases j - i
  {
    if i < j {
      Settles(states, steps, depth, i, j - 1);
      hide Work, Next, Enabled;
      assert states[j - 1 + 1] == Next(states[j - 1], steps[j - 1], depth);
      WorkShrinks(states[j - 1], steps[j - 1], depth);
    }
  }

  /** When nothing is left to do but to wait for arrivals, every arrival has been handled or dropped. */
  lemma SettledIsDone(states: seq<Hub>, steps: seq<Step>, depth: int, k: nat, m: Message)
    requires IsRun(states, steps, depth) && k < |states|
    requires !states[k].handler.Stopped?
    requires forall step :: Enabled(states[k], step) ==> step.Arrive? || step.Stop?
    ensures multiset(states[k].handled)[m] + multiset(states[k].dropped)[m] == multiset(states[k].arrived)[m]
  {
    var s := states[k];
    RunInv(states, steps, depth, k);
    assert !Enabled(s, Wake) && !Enabled(s, Take) && !Enabled(s, Done);
    if s.signalling != {} {
      var p :| p in s.signalling;
      assert Enabled(s, Signal(p));
    }
    assert Places(s, m) == multiset(s.arrived)[m];
  }

  /** In every run an arrival is queued at the end of its own queue, or dropped exactly if that has
      reached its depth. */
  lemma ArrivalExactly(states: seq<Hub>, steps: seq<Step>, depth: int, k: nat, p: nat, m: Message)
    requires IsRun(states, steps, depth) && k < |steps| && steps[k] == Arrive(p, m)
    ensures var s, s' := states[k], states[k + 1];
            if (if m.kind == Alive then |s.q.high| else |s.q.low|) >= depth then
              s'.q == s.q && s'.dropped == s.dropped + [m]
            else
              && s'.dropped == s.dropped
              && s'.q == (if m.kind == Alive then Queues(s.q.high + [m], s.q.low) else Queues(s.q.high, s.q.low + [m]))
  {
    assert states[k + 1] == Next(states[k], steps[k], depth);
  }

  /** In every run the handler takes the newest alive message, or else the newest other one, and waits
      only if there is none. */
  lemma TakeExactly(states: seq<Hub>, steps: seq<Step>, depth: int, k: nat)
    requires IsRun(states, steps, depth) && k < |steps| && steps[k].Take?
    ensures var s, s' := states[k], states[k + 1];
            var h, l := |s.q.high|, |s.q.low|;
            if h > 0 then s'.handler == Busy(s.q.high[h - 1]) && s'.q == Queues(s.q.high[..h - 1], s.q.low)
            else if l > 0 then s'.handler == Busy(s.q.low[l - 1]) && s'.q == Queues([], s.q.low[..l - 1])
            else s'.handler == Waiting && s'.q == s.q
  {
    assert states[k + 1] == Next(states[k], steps[k], depth);
  }
}
