/** What a run never undoes: entries only move forward, the local node defends itself, and
    merging the same remote state twice is merging it once. */
module Progress {
  import opened Base
  import opened Membership
  import opened NodeRun

  // ---------------------------------------------------------------- forward only

  /** Entries are ordered by incarnation first and by Alive < Suspect < Dead, Left second. */
  predicate Above(e': Entry, e: Entry)
  {
    e'.inc > e.inc || (e'.inc == e.inc && e'.status.Rank() > e.status.Rank())
  }

  predicate AtLeast(e': Entry, e: Entry)
  {
    e'.inc > e.inc || (e'.inc == e.inc && e'.status.Rank() >= e.status.Rank())
  }

  /** Two states agree on what they hold about one node. */
  ghost predicate Agree(st: Node, st': Node, n: string)
  {
    && st.left == st'.left
    && (n in st.entries <==> n in st'.entries)
    && (n in st.entries ==> st.entries[n] == st'.entries[n])
    && (n in st.timers <==> n in st'.timers)
    && (n in st.timers ==> st.timers[n] == st'.timers[n])
  }

  lemma AcceptFrame(cfg: Config, env: Env, st: Node, a: Msg, bootstrap: bool, updates: bool, n: string)
    requires a.AliveMsg? && MsgOk(a) && a.node in st.entries && n != a.node
    ensures Agree(st, AcceptAlive(cfg, env, st, a, bootstrap, updates), n)
  {}

  lemma AliveFrame(cfg: Config, env: Env, st: Node, a: Msg, bootstrap: bool, n: string)
    requires a.AliveMsg? && MsgOk(a) && n != a.node
    ensures Agree(st, AliveNode(cfg, env, st, a, bootstrap), n)
  {
    hide AcceptAlive;
    if a.node !in st.entries {
      AcceptFrame(cfg, env, Insert(env, st, a), a, bootstrap, false, n);
    } else {
      AcceptFrame(cfg, env, st, a, bootstrap, false, n);
      AcceptFrame(cfg, env, st, a, bootstrap, true, n);
    }
  }

  lemma SuspectFrame(cfg: Config, env: Env, st: Node, m: Msg, n: string)
    requires m.SuspectMsg? && n != m.node
    ensures Agree(st, SuspectNode(cfg, env, st, m), n)
  {}

  lemma DeadFrame(cfg: Config, env: Env, st: Node, m: Msg, n: string)
    requires m.DeadMsg? && n != m.node
    ensures Agree(st, DeadNode(cfg, env, st, m), n)
  {}

  /** A message changes what is held about its own subject only. */
  lemma HandleFrame(cfg: Config, env: Env, st: Node, m: Msg, n: string)
    requires MsgOk(m) && n != m.node
    ensures Agree(st, Handle(cfg, env, st, m), n)
  {
    hide Agree, AliveNode, SuspectNode, DeadNode;
    match m
    case AliveMsg(_, _, _) => AliveFrame(cfg, env, st, m, false, n);
    case SuspectMsg(_, _, _) => SuspectFrame(cfg, env, st, m, n);
    case DeadMsg(_, _, _) => DeadFrame(cfg, env, st, m, n);
  }

  lemma AliveProgress(cfg: Config, env: Env, st: Node, a: Msg, bootstrap: bool)
    requires a.AliveMsg? && MsgOk(a) && a.node in st.entries && a.node != cfg.name
    ensures var st' := AliveNode(cfg, env, st, a, bootstrap);
            && a.node in st'.entries
            && var e, e' := st.entries[a.node], st'.entries[a.node];
            SameAddress(e.profile, e'.profile) ==> e' == e || Above(e', e)
  {}

  /** No message lets an entry fall back: a change to a peer's entry raises it, unless the
      address was reclaimed. */
  lemma HandleProgress(cfg: Config, env: Env, st: Node, m: Msg, n: string)
    requires MsgOk(m) && n in st.entries && n != cfg.name
    ensures var st' := Handle(cfg, env, st, m);
            && n in st'.entries
            && (SameAddress(st.entries[n].profile, st'.entries[n].profile) ==>
                  st'.entries[n] == st.entries[n] || Above(st'.entries[n], st.entries[n]))
  {
    if n != m.node {
      HandleFrame(cfg, env, st, m, n);
    } else if m.AliveMsg? {
      AliveProgress(cfg, env, st, m, false);
    }
    hide AliveNode;
  }

  /** The entry of `n` and its address stay in place over the states from `i` to `j`. */
  ghost predicate Stays(states: seq<Proc>, i: nat, j: nat, n: string)
    requires i <= j < |states|
  {
    forall k :: i <= k <= j ==>
      && n in states[k].node.entries && n in states[i].node.entries
      && SameAddress(states[i].node.entries[n].profile, states[k].node.entries[n].profile)
  }

  /** A refutation beats the accusation and every earlier announcement exactly when the 32-bit
      counter does not wrap around. */
  lemma RefutationBeats(counter: u32, accused: u32)
    ensures (RefuteInc(counter, accused) > accused && RefuteInc(counter, accused) > counter)
            <==> (accused < MAX_U32 && counter < MAX_U32)
    ensures RefuteInc(counter, accused) > accused <==> accused < MAX_U32
  {}

  /** The counter wraps: accused at the largest incarnation, a node answers with incarnation zero. */
  lemma RefutationWraps(counter: u32)
    ensures RefuteInc(counter, MAX_U32) == 0
  {}

  /** A message that disputes the local node's announcement: current or newer, and for an alive
      message from the same address with other contents. */
  predicate Accuses(cfg: Config, env: Env, st: Node, m: Msg)
    requires cfg.name in st.entries
  {
    var me := st.entries[cfg.name];
    && m.node == cfg.name
    && m.inc >= me.inc
    && (m.AliveMsg? ==>
          && !Ignored(cfg, env, st, m)
          && SameAddress(me.profile, m.profile)
          && !(m.inc == me.inc && m.profile.meta == me.profile.meta && m.profile.vsn == me.profile.vsn))
  }

  /** A message that the local node answers with a new incarnation. */
  predicate Refuted(cfg: Config, env: Env, st: Node, m: Msg)
    requires cfg.name in st.entries
  {
    Accuses(cfg, env, st, m) && st.entries[cfg.name].status.Alive? && !(m.DeadMsg? && st.left)
  }

  /** What a message does to the local entry: an answer changes the incarnation only, and nothing
      else lets the entry fall back. */
  lemma OwnHandled(cfg: Config, env: Env, st: Node, m: Msg)
    requires SelfAlive(cfg, st) && cfg.name in st.entries && cfg.name !in st.timers && MsgOk(m)
    ensures var st', me := Handle(cfg, env, st, m), st.entries[cfg.name];
            && cfg.name in st'.entries
            && (if Refuted(cfg, env, st, m) then st'.entries[cfg.name] == me.(inc := RefuteInc(st.counter, m.inc))
                else AtLeast(st'.entries[cfg.name], me))
  {
    if m.node != cfg.name {
      HandleFrame(cfg, env, st, m, cfg.name);
      hide Handle;
    }
  }

  /** An announcement of our own, applied later, does not let the entry fall back, either. */
  lemma OwnAnnounced(cfg: Config, env: Env, st: Node, a: Msg)
    requires SelfAlive(cfg, st) && cfg.name in st.entries && a.AliveMsg? && MsgOk(a) && a.node == cfg.name
    ensures var st' := AliveNode(cfg, env, st, a, true);
            cfg.name in st'.entries && AtLeast(st'.entries[cfg.name], st.entries[cfg.name])
  {}

  /** The local node answers an accusation at the largest incarnation, and so starts anew at zero. */
  predicate WrapsAt(cfg: Config, env: Env, st: Node, m: Msg)
  {
    && cfg.name in st.entries && st.entries[cfg.name].inc > 0
    && Refuted(cfg, env, st, m) && m.inc == MAX_U32
  }

  predicate Wraps(cfg: Config, p: Proc, step: Step)
  {
    match step
    case Receive(env, _) => WrapsAt(cfg, env, p.node, Applied(cfg, step).value)
    case Merge(env, r) => WrapsAt(cfg, env, p.node, RecordMsg(cfg, r))
    case Finish(env, m) => !m.AliveMsg? && WrapsAt(cfg, env, p.node, m)
    case _ => false
  }

  lemma HandleOwn(cfg: Config, env: Env, st: Node, m: Msg)
    requires SelfAlive(cfg, st) && cfg.name in st.entries && cfg.name !in st.timers && MsgOk(m)
    ensures var st' := Handle(cfg, env, st, m);
            && cfg.name in st'.entries
            && (AtLeast(st'.entries[cfg.name], st.entries[cfg.name]) <==> !WrapsAt(cfg, env, st, m))
  {
    OwnHandled(cfg, env, st, m);
    RefutationBeats(st.counter, m.inc);
    RefutationWraps(st.counter);
    hide Handle, RefuteInc;
  }

  /** The local entry falls back exactly in the steps that wrap. */
  lemma StepOwn(cfg: Config, p: Proc, step: Step)
    requires Inv(cfg, p) && Enabled(cfg, p, step)
    requires cfg.name in p.node.entries && cfg.name in Next(cfg, p, step).node.entries
    ensures AtLeast(Next(cfg, p, step).node.entries[cfg.name], p.node.entries[cfg.name]) <==> !Wraps(cfg, p, step)
  {
    hide Handle, AliveNode, WrapsAt;
    match step
    case Receive(env, _) => HandleOwn(cfg, env, p.node, Applied(cfg, step).value);
    case Merge(env, r) => HandleOwn(cfg, env, p.node, RecordMsg(cfg, r));
    case Finish(env, m) =>
      if m.AliveMsg? { OwnAnnounced(cfg, env, p.node, m); } else { HandleOwn(cfg, env, p.node, m); }
    case ProbeBegin(_) =>
    case TimerBegin(_) =>
    case UpdateBegin(_) =>
    case LeaveBegin =>
    case Reset(_, _) =>
  }

  lemma StepProgress(cfg: Config, p: Proc, step: Step, n: string)
    requires Inv(cfg, p) && Enabled(cfg, p, step) && n != cfg.name
    requires n in p.node.entries && n in Next(cfg, p, step).node.entries
    requires SameAddress(p.node.entries[n].profile, Next(cfg, p, step).node.entries[n].profile)
    ensures var e, e' := p.node.entries[n], Next(cfg, p, step).node.entries[n];
            e' == e || Above(e', e)
  {
    match step
    case Receive(env, _) => HandleProgress(cfg, env, p.node, Applied(cfg, step).value, n);
    case Merge(env, r) => HandleProgress(cfg, env, p.node, RecordMsg(cfg, r), n);
    case Finish(env, m) =>
      if m.AliveMsg? { AliveFrame(cfg, env, p.node, m, true, n); } else { HandleProgress(cfg, env, p.node, m, n); }
    case ProbeBegin(_) =>
    case TimerBegin(_) =>
    case UpdateBegin(_) =>
    case LeaveBegin =>
    case Reset(_, _) =>
  }

  lemma StaysWithin(states: seq<Proc>, i: nat, j: nat, a: nat, b: nat, n: string)
    requires i <= a <= b <= j < |states| && Stays(states, i, j, n)
    ensures Stays(states, a, b, n)
  {}

  /** The local node does not answer at the largest incarnation in the steps from `i` up to `j`. */
  predicate Unwrapped(cfg: Config, states: seq<Proc>, steps: seq<Step>, i: nat, j: nat)
  {
    j <= |states| && j <= |steps| && forall k :: i <= k < j ==> !Wraps(cfg, states[k], steps[k])
  }

  lemma UnwrappedWithin(cfg: Config, states: seq<Proc>, steps: seq<Step>, i: nat, j: nat)
    requires i < j && Unwrapped(cfg, states, steps, i, j)
    ensures j <= |states| && j <= |steps|
    ensures Unwrapped(cfg, states, steps, i, j - 1) && !Wraps(cfg, states[j - 1], steps[j - 1])
  {}

  lemma RunSize(cfg: Config, states: seq<Proc>, steps: seq<Step>)
    requires IsRun(cfg, states, steps)
    ensures |states| == |steps| + 1
  {}

  lemma RunProgress(cfg: Config, states: seq<Proc>, steps: seq<Step>, k: nat, n: string)
    requires IsRun(cfg, states, steps) && k < |steps|
    requires Stays(states, k, k + 1, n) && (n == cfg.name ==> !Wraps(cfg, states[k], steps[k]))
    ensures var e, e' := states[k].node.entries[n], states[k + 1].node.entries[n];
            AtLeast(e', e) && (n != cfg.name && e' != e ==> Above(e', e))
  {
    hide IsRun, Next, Inv, Wraps, Enabled;
    RunStep(cfg, states, steps, k);
    RunInv(cfg, states, steps, k);
    assert n in states[k].node.entries && n in states[k + 1].node.entries;
    if n == cfg.name {
      StepOwn(cfg, states[k], steps[k]);
    } else {
      StepProgress(cfg, states[k], steps[k], n);
    }
  }

  /** Over any stretch of a run in which an entry is neither reaped nor reclaimed, the pair of
      incarnation and rank never decreases, unless it is the local one and the incarnation wraps;
      and every change to a peer's entry raises it. */
  lemma {:induction false} LexicographicProgress(cfg: Config, states: seq<Proc>, steps: seq<Step>,
                                                 i: nat, j: nat, n: string)
    requires IsRun(cfg, states, steps) && i <= j < |states|
    requires Stays(states, i, j, n)
    requires n == cfg.name ==> Unwrapped(cfg, states, steps, i, j)
    ensures AtLeast(states[j].node.entries[n], states[i].node.entries[n])
    ensures n != cfg.name && i < j && states[j].node.entries[n] != states[j - 1].node.entries[n] ==>
              Above(states[j].node.entries[n], states[j - 1].node.entries[n])
    decreases j - i
  {
    if i < j {
      hide IsRun, Stays, Wraps, Unwrapped;
      RunSize(cfg, states, steps);
      StaysWithin(states, i, j, i, j - 1, n);
      StaysWithin(states, i, j, j - 1, j, n);
      if n == cfg.name { UnwrappedWithin(cfg, states, steps, i, j); }
      LexicographicProgress(cfg, states, steps, i, j - 1, n);
      RunProgress(cfg, states, steps, j - 1, n);
    }
  }

  /** The local pair falls back in a step of a run exactly if the step wraps. */
  lemma LocalFallsExactly(cfg: Config, states: seq<Proc>, steps: seq<Step>, k: nat)
    requires IsRun(cfg, states, steps) && k < |steps|
    requires cfg.name in states[k].node.entries && cfg.name in states[k + 1].node.entries
    ensures AtLeast(states[k + 1].node.entries[cfg.name], states[k].node.entries[cfg.name])
            <==> !Wraps(cfg, states[k], steps[k])
  {
    RunInv(cfg, states, steps, k);
    StepOwn(cfg, states[k], steps[k]);
  }

  /** An alive message accepted between a suspicion callback's look at the state and its death
      report always wins: the report then changes nothing. */
  lemma AliveWins(cfg: Config, states: seq<Proc>, steps: seq<Step>, i: nat, j: nat, l: nat, id: nat, env: Env, a: Msg)
    requires IsRun(cfg, states, steps) && i < j < l < |steps|
    requires steps[i] == TimerBegin(id) && id < |states[i].node.started|
    requires Stays(states, i, l, states[i].node.started[id].node)
    requires CallbackHolds(states[i].node, states[i].node.started[id])
    requires steps[l] == Finish(env, CallbackMsg(cfg, states[i].node, states[i].node.started[id]))
    requires a.AliveMsg? && a.node == states[i].node.started[id].node && Applied(cfg, steps[j]) == Some(a)
    requires states[j + 1].node.entries[a.node] != states[j].node.entries[a.node]
    ensures states[l + 1].node == states[l].node
  {
    var n := a.node;
    RunInv(cfg, states, steps, i);
    assert n != cfg.name;
    LexicographicProgress(cfg, states, steps, i, j, n);
    assert Stays(states, j + 1, l, n);
    LexicographicProgress(cfg, states, steps, j + 1, l, n);
    RunInv(cfg, states, steps, j);
    assert states[j + 1] == Next(cfg, states[j], steps[j]);
    StepProgress(cfg, states[j], steps[j], n);
    assert states[j + 1].node.entries[n].inc > states[j].node.entries[n].inc by {
      AliveRaises(cfg, states[j], steps[j], a);
    }
    var d := CallbackMsg(cfg, states[i].node, states[i].node.started[id]);
    assert states[l].node.entries[n].inc > d.inc;
    assert states[l + 1] == Next(cfg, states[l], steps[l]);
  }

  lemma AliveRaises(cfg: Config, p: Proc, step: Step, a: Msg)
    requires Inv(cfg, p) && Enabled(cfg, p, step) && Applied(cfg, step) == Some(a) && a.AliveMsg?
    requires a.node != cfg.name && a.node in p.node.entries
    requires a.node in Next(cfg, p, step).node.entries
    requires Next(cfg, p, step).node.entries[a.node] != p.node.entries[a.node]
    requires SameAddress(p.node.entries[a.node].profile, Next(cfg, p, step).node.entries[a.node].profile)
    ensures Next(cfg, p, step).node.entries[a.node].inc > p.node.entries[a.node].inc
  {}

  // ---------------------------------------------------------------- self-defence

  /** No message about the local node carries the largest incarnation, and the counter is below it. */
  predicate NoWrap(cfg: Config, p: Proc, step: Step)
  {
    && p.node.counter < MAX_U32
    && match Applied(cfg, step)
       case Some(m) => m.node == cfg.name ==> m.inc < MAX_U32
       case None => true
  }

  /** The counter is at least every incarnation that the node has used for itself. */
  ghost predicate OwnBelow(cfg: Config, p: Proc)
  {
    && UsedBelow(cfg, p.node)
    && (forall m :: m in p.pending && m.AliveMsg? && m.node == cfg.name ==> m.inc <= p.node.counter)
  }

  ghost predicate UsedBelow(cfg: Config, st: Node)
  {
    && (!st.left && cfg.name in st.entries ==> st.entries[cfg.name].inc <= st.counter)
    && (forall b :: b in st.queued && b.msg.AliveMsg? && b.msg.node == cfg.name ==> b.msg.inc <= st.counter)
  }

  lemma RefuteBelow(cfg: Config, st: Node, accused: u32)
    requires UsedBelow(cfg, st) && cfg.name in st.entries && st.counter < MAX_U32 && accused < MAX_U32
    ensures UsedBelow(cfg, Refute(cfg, st, accused)) && Refute(cfg, st, accused).counter > st.counter
  {}

  lemma AcceptBelow(cfg: Config, env: Env, st: Node, a: Msg, bootstrap: bool, updates: bool)
    requires UsedBelow(cfg, st) && a.AliveMsg? && MsgOk(a) && a.node in st.entries && st.counter < MAX_U32
    requires a.node == cfg.name ==> a.inc < MAX_U32 && (bootstrap ==> a.inc <= st.counter)
    ensures var st' := AcceptAlive(cfg, env, st, a, bootstrap, updates);
            UsedBelow(cfg, st') && st'.counter >= st.counter
  {}

  lemma AliveBelow(cfg: Config, env: Env, st: Node, a: Msg, bootstrap: bool)
    requires UsedBelow(cfg, st) && a.AliveMsg? && MsgOk(a) && st.counter < MAX_U32
    requires a.node == cfg.name ==> a.inc < MAX_U32 && (bootstrap ==> a.inc <= st.counter)
    ensures var st' := AliveNode(cfg, env, st, a, bootstrap);
            UsedBelow(cfg, st') && st'.counter >= st.counter
  {
    if a.node !in st.entries {
      AcceptBelow(cfg, env, Insert(env, st, a), a, bootstrap, false);
    } else {
      AcceptBelow(cfg, env, st, a, bootstrap, false);
      AcceptBelow(cfg, env, st, a, bootstrap, true);
    }
  }

  lemma HandleBelow(cfg: Config, env: Env, st: Node, m: Msg)
    requires UsedBelow(cfg, st) && MsgOk(m) && st.counter < MAX_U32 && (m.node == cfg.name ==> m.inc < MAX_U32)
    ensures var st' := Handle(cfg, env, st, m);
            UsedBelow(cfg, st') && st'.counter >= st.counter
  {
    if m.AliveMsg? {
      AliveBelow(cfg, env, st, m, false);
    } else if m.node == cfg.name && cfg.name in st.entries {
      RefuteBelow(cfg, st, m.inc);
      RefuteBelow(cfg, st.(timers := st.timers - {m.node}), m.inc);
    }
  }

  lemma StepOwnBelow(cfg: Config, p: Proc, step: Step)
    requires Inv(cfg, p) && OwnBelow(cfg, p) && Enabled(cfg, p, step) && NoWrap(cfg, p, step)
    ensures OwnBelow(cfg, Next(cfg, p, step))
  {
    match step
    case Receive(env, _) => HandleBelow(cfg, env, p.node, Applied(cfg, step).value);
    case Merge(env, r) => HandleBelow(cfg, env, p.node, RecordMsg(cfg, r));
    case Finish(env, m) =>
      if m.AliveMsg? { AliveBelow(cfg, env, p.node, m, true); } else { HandleBelow(cfg, env, p.node, m); }
    case ProbeBegin(_) =>
    case TimerBegin(_) =>
    case UpdateBegin(_) =>
    case LeaveBegin =>
    case Reset(_, _) =>
  }

  lemma {:induction false} RunOwnBelow(cfg: Config, states: seq<Proc>, steps: seq<Step>, k: nat)
    requires IsRun(cfg, states, steps) && k < |states|
    requires forall i :: 0 <= i < k ==> NoWrap(cfg, states[i], steps[i])
    ensures OwnBelow(cfg, states[k])
  {
    if k == 0 {
      BootOwnBelow(cfg, states[0]);
    } else {
      RunOwnBelow(cfg, states, steps, k - 1);
      RunInv(cfg, states, steps, k - 1);
      assert states[k - 1 + 1] == Next(cfg, states[k - 1], steps[k - 1]);
      StepOwnBelow(cfg, states[k - 1], steps[k - 1]);
    }
  }

  lemma BootOwnBelow(cfg: Config, p: Proc)
    requires exists env, self :: Boot(cfg, env, self, p)
    ensures OwnBelow(cfg, p)
  {}

  /** What the theorem below says of one message. */
  lemma SelfAnswers(cfg: Config, env: Env, st: Node, m: Msg)
    requires cfg.name in st.entries && st.entries[cfg.name].status.Alive? && !st.left && cfg.name !in st.timers
    requires UsedBelow(cfg, st) && st.counter < MAX_U32
    requires MsgOk(m) && m.node == cfg.name && m.inc < MAX_U32
    ensures var st' := Handle(cfg, env, st, m);
            var me := st.entries[cfg.name];
            if Accuses(cfg, env, st, m) then
              && st'.entries == st.entries[cfg.name := me.(inc := st'.counter)]
              && st'.queued
                 == st.queued + [Broadcast(AddrKey(me.profile.addr), AliveMsg(st'.counter, cfg.name, me.profile))]
              && st'.counter > m.inc && st'.counter > st.counter
              && (forall b :: b in st.queued && b.msg.AliveMsg? && b.msg.node == cfg.name ==> st'.counter > b.msg.inc)
            else st' == st
  {}

  /** Until Leave, and as long as the counter does not wrap, the local entry stays alive and at or
      below the counter; every accusation is answered by an announcement that exceeds the accusation
      and all earlier announcements; and news about itself that is no accusation changes nothing. */
  lemma SelfPreservation(cfg: Config, states: seq<Proc>, steps: seq<Step>, k: nat, env: Env, m: Msg)
    requires IsRun(cfg, states, steps) && k < |states| && !states[k].node.left
    requires forall i :: 0 <= i < k ==> NoWrap(cfg, states[i], steps[i])
    requires MsgOk(m) && m.node == cfg.name && m.inc < MAX_U32 && states[k].node.counter < MAX_U32
    ensures var st := states[k].node;
            && cfg.name in st.entries
            && st.entries[cfg.name].status.Alive?
            && st.entries[cfg.name].inc <= st.counter
    ensures var st := states[k].node;
            var st' := Handle(cfg, env, st, m);
            var me := st.entries[cfg.name];
            if Accuses(cfg, env, st, m) then
              && st'.entries == st.entries[cfg.name := me.(inc := st'.counter)]
              && st'.queued
                 == st.queued + [Broadcast(AddrKey(me.profile.addr), AliveMsg(st'.counter, cfg.name, me.profile))]
              && st'.counter > m.inc && st'.counter > st.counter
              && (forall b :: b in st.queued && b.msg.AliveMsg? && b.msg.node == cfg.name ==> st'.counter > b.msg.inc)
            else st' == st
  {
    RunOwnBelow(cfg, states, steps, k);
    RunInv(cfg, states, steps, k);
    hide Handle, Accuses, IsRun;
    SelfAnswers(cfg, env, states[k].node, m);
  }

  // ---------------------------------------------------------------- merging twice

  /** Whether a message still changes anything depends only on what is held about its subject. */
  lemma SettledTransfer(cfg: Config, env: Env, st: Node, st': Node, m: Msg)
    requires MsgOk(m) && Handle(cfg, env, st, m) == st && Agree(st, st', m.node)
    ensures Handle(cfg, env, st', m) == st'
  {
    assert forall b: Broadcast :: st.queued + [b] != st.queued by {
      forall b: Broadcast ensures st.queued + [b] != st.queued {
        assert |st.queued + [b]| == |st.queued| + 1;
      }
    }
    match m
    case AliveMsg(_, _, _) => SettledAlive(cfg, env, st, st', m);
    case SuspectMsg(_, _, _) => SettledSuspect(cfg, env, st, st', m);
    case DeadMsg(_, _, _) => SettledDead(cfg, env, st, st', m);
  }

  lemma SettledAlive(cfg: Config, env: Env, st: Node, st': Node, m: Msg)
    requires m.AliveMsg? && MsgOk(m) && AliveNode(cfg, env, st, m, false) == st && Agree(st, st', m.node)
    requires forall b: Broadcast :: st.queued + [b] != st.queued
    ensures AliveNode(cfg, env, st', m, false) == st'
  {}

  lemma SettledSuspect(cfg: Config, env: Env, st: Node, st': Node, m: Msg)
    requires m.SuspectMsg? && SuspectNode(cfg, env, st, m) == st && Agree(st, st', m.node)
    requires forall b: Broadcast :: st.queued + [b] != st.queued
    ensures SuspectNode(cfg, env, st', m) == st'
  {}

  lemma SettledDead(cfg: Config, env: Env, st: Node, st': Node, m: Msg)
    requires m.DeadMsg? && DeadNode(cfg, env, st, m) == st && Agree(st, st', m.node)
    requires forall b: Broadcast :: st.queued + [b] != st.queued
    ensures DeadNode(cfg, env, st', m) == st'
  {}

  /** A message that has taken effect changes nothing the second time. */
  lemma HandleTwice(cfg: Config, env: Env, st: Node, m: Msg)
    requires MsgOk(m) && (m.node == cfg.name ==> m.inc < MAX_U32)
    ensures var st' := Handle(cfg, env, st, m); Handle(cfg, env, st', m) == st'
  {
    var st' := Handle(cfg, env, st, m);
    RefutationBeats(st.counter, m.inc);
    if m.DeadMsg? && m.node in st.entries && m.inc >= st.entries[m.node].inc {
      assert (st.timers - {m.node}) - {m.node} == st.timers - {m.node};
    }
    if m.AliveMsg? {
      AliveTwice(cfg, env, st, m);
    }
    if m.SuspectMsg? && m.node in st'.timers {
      assert st'.timers[m.node := st'.timers[m.node]] == st'.timers;
    }
  }

  /** Once accepted, an alive message is old news. */
  lemma AcceptTwice(cfg: Config, env: Env, st: Node, a: Msg, updates: bool)
    requires a.AliveMsg? && MsgOk(a) && (a.node == cfg.name ==> a.inc < MAX_U32) && a.node in st.entries
    requires updates || SameAddress(st.entries[a.node].profile, a.profile)
    ensures var st' := AcceptAlive(cfg, env, st, a, false, updates);
            && a.node in st'.entries && st'.left == st.left
            && AcceptAlive(cfg, env, st', a, false, false) == st'
            && (a.node == cfg.name ==> AcceptAlive(cfg, env, st', a, false, true) == st')
            && (a.node != cfg.name ==> SameAddress(st'.entries[a.node].profile, a.profile))
  {}

  lemma AliveTwice(cfg: Config, env: Env, st: Node, a: Msg)
    requires a.AliveMsg? && MsgOk(a) && (a.node == cfg.name ==> a.inc < MAX_U32)
    ensures var st' := AliveNode(cfg, env, st, a, false); AliveNode(cfg, env, st', a, false) == st'
  {
    if Ignored(cfg, env, st, a) {
    } else if a.node !in st.entries {
      if env.ipAllowed(a.profile.addr) {
        AcceptTwice(cfg, env, Insert(env, st, a), a, false);
      }
    } else if SameAddress(st.entries[a.node].profile, a.profile) {
      AcceptTwice(cfg, env, st, a, false);
    } else {
      AcceptTwice(cfg, env, st, a, true);
    }
  }

  ghost predicate DistinctNames(remote: seq<Record>)
  {
    forall i, j :: 0 <= i < j < |remote| ==> remote[i].name != remote[j].name
  }

  ghost predicate Mergeable(cfg: Config, remote: seq<Record>)
  {
    && DistinctNames(remote)
    && forall i :: 0 <= i < |remote| ==> RecordOk(remote[i]) && (remote[i].name == cfg.name ==> remote[i].inc < MAX_U32)
  }

  lemma {:induction false} MergeSettles(cfg: Config, env: Env, st: Node, remote: seq<Record>, i: nat)
    requires Mergeable(cfg, remote) && i < |remote|
    ensures var st' := MergeState(cfg, env, st, remote);
            Handle(cfg, env, st', RecordMsg(cfg, remote[i])) == st'
    decreases |remote|
  {
    var front, r := remote[..|remote| - 1], remote[|remote| - 1];
    var st1 := MergeState(cfg, env, st, front);
    if i == |remote| - 1 {
      HandleTwice(cfg, env, st1, RecordMsg(cfg, r));
    } else {
      MergeSettles(cfg, env, st, front, i);
      HandleFrame(cfg, env, st1, RecordMsg(cfg, r), remote[i].name);
      SettledTransfer(cfg, env, st1, MergeState(cfg, env, st, remote), RecordMsg(cfg, remote[i]));
    }
  }

  lemma {:induction false} MergeOfSettled(cfg: Config, env: Env, st: Node, remote: seq<Record>)
    requires forall i :: 0 <= i < |remote| ==>
               RecordOk(remote[i]) && Handle(cfg, env, st, RecordMsg(cfg, remote[i])) == st
    ensures MergeState(cfg, env, st, remote) == st
    decreases |remote|
  {
    if remote != [] {
      MergeOfSettled(cfg, env, st, remote[..|remote| - 1]);
    }
  }

  /** Merging a remote state a second time, at the same clock reading and with the same verdicts,
      changes nothing: entries, timers, counter, health and broadcast queue stay as they are. */
  lemma MergeIdempotent(cfg: Config, env: Env, st: Node, remote: seq<Record>)
    requires Mergeable(cfg, remote)
    ensures var st' := MergeState(cfg, env, st, remote);
            MergeState(cfg, env, st', remote) == st'
  {
    var st' := MergeState(cfg, env, st, remote);
    forall i | 0 <= i < |remote| ensures Handle(cfg, env, st', RecordMsg(cfg, remote[i])) == st' {
      MergeSettles(cfg, env, st, remote, i);
    }
    MergeOfSettled(cfg, env, st', remote);
  }
}
