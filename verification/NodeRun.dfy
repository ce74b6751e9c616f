/** Runs of one member against arbitrary messages.

    Probing, UpdateNode, Leave and the suspicion callback read the state first and apply a
    message to it later, with other calls in between; such a message waits in `pending`. */
module NodeRun {
  import opened Base
  import opened Membership

  datatype Proc = Proc(node: Node, pending: set<Msg>, clock: int)

  datatype Step =
    | Receive(env: Env, m: Msg)
    | Merge(env: Env, r: Record)
    | ProbeBegin(name: string)
    | TimerBegin(id: nat)
    | UpdateBegin(meta: Bytes)
    | LeaveBegin
    | Finish(env: Env, m: Msg)
    | Reset(now: int, order: seq<string>)

  /** The clock gives a new time to every step that may stamp an entry. */
  ghost predicate Enabled(cfg: Config, p: Proc, step: Step)
  {
    match step
    case Receive(env, m) => MsgOk(m) && p.clock < env.now
    case Merge(env, r) => RecordOk(r) && p.clock < env.now
    case ProbeBegin(name) => name in p.node.entries && name != cfg.name && !p.node.entries[name].status.DeadOrLeft()
    case TimerBegin(id) => id < |p.node.started| && CallbackHolds(p.node, p.node.started[id])
    case UpdateBegin(_) => cfg.name in p.node.entries
    case LeaveBegin => !p.node.left && cfg.name in p.node.entries
    case Finish(env, m) => m in p.pending && MsgOk(m) && p.clock < env.now
    case Reset(now, order) => GoodOrder(cfg, now, p.node, order)
  }

  /** The message that a step applies to the node, if it applies one. */
  function Applied(cfg: Config, step: Step): (m: Option<Msg>)
  {
    match step
    case Receive(_, m) => Some(if m.AliveMsg? then m.(profile := WithPort(cfg, m.profile)) else m)
    case Merge(_, r) => Some(RecordMsg(cfg, r))
    case Finish(_, m) => Some(m)
    case _ => None
  }

  function Next(cfg: Config, p: Proc, step: Step): (p': Proc)
    requires Enabled(cfg, p, step)
  {
    match step
    case Receive(env, m) => p.(node := Handle(cfg, env, p.node, Applied(cfg, step).value), clock := env.now)
    case Merge(env, r) => p.(node := Handle(cfg, env, p.node, RecordMsg(cfg, r)), clock := env.now)
    case ProbeBegin(name) => p.(pending := p.pending + {SuspectMsg(p.node.entries[name].inc, name, cfg.name)})
    case TimerBegin(id) => p.(pending := p.pending + {CallbackMsg(cfg, p.node, p.node.started[id])})
    case UpdateBegin(meta) =>
      p.(node := p.node.(counter := Add32(p.node.counter, 1)), pending := p.pending + {UpdateMsg(cfg, p.node, meta)})
    case LeaveBegin =>
      p.(node := p.node.(left := true), pending := p.pending + {LeaveMsg(cfg, p.node)})
    case Finish(env, m) =>
      var st := if m.AliveMsg? then AliveNode(cfg, env, p.node, m, true) else Handle(cfg, env, p.node, m);
      p.(node := st, pending := p.pending - {m}, clock := env.now)
    case Reset(now, order) => p.(node := Reap(cfg, now, p.node, order))
  }

  /** A member right after Create: setAlive was not turned away. */
  ghost predicate Boot(cfg: Config, env: Env, self: Contact, p: Proc)
  {
    && ConfigOk(cfg)
    && env.ipAllowed(self.addr)
    && (cfg.aliveDelegate ==> env.notifyAlive(cfg.name, OwnProfile(cfg, self)))
    && p == Proc(SetAlive(cfg, env, self), {}, env.now)
  }

  ghost predicate IsRun(cfg: Config, states: seq<Proc>, steps: seq<Step>)
  {
    && |states| == |steps| + 1
    && (exists env, self :: Boot(cfg, env, self, states[0]))
    && Chain(cfg, states, steps)
  }

  ghost predicate Chain(cfg: Config, states: seq<Proc>, steps: seq<Step>)
  {
    && |states| == |steps| + 1
    && forall k :: 0 <= k < |steps| ==>
         Enabled(cfg, states[k], steps[k]) && states[k + 1] == Next(cfg, states[k], steps[k])
  }

  // ---------------------------------------------------------------- invariant

  /** `nodes` lists every key of `nodeMap` exactly once. */
  ghost predicate Indexed(st: Node)
  {
    Distinct(st.order) && Elements(st.order) == st.entries.Keys
  }

  /** Exactly the suspected nodes have a timer, and it is the one started by the current suspicion. */
  ghost predicate TimersMatch(st: Node)
  {
    && (forall n :: n in st.timers <==> n in st.entries && st.entries[n].status.Suspect?)
    && (forall n :: n in st.timers ==>
          && st.timers[n].id < |st.started|
          && st.started[st.timers[n].id].node == n
          && st.entries[n].since == At(st.started[st.timers[n].id].stamp))
  }

  ghost predicate StampsIncrease(started: seq<Callback>)
  {
    forall i, j :: 0 <= i < j < |started| ==> started[i].stamp < started[j].stamp
  }

  /** Until Leave the local node is alive in its own eyes, and it never suspects itself. */
  ghost predicate SelfAlive(cfg: Config, st: Node)
  {
    && (!st.left ==> cfg.name in st.entries && st.entries[cfg.name].status.Alive?)
    && (cfg.name in st.entries ==> !st.entries[cfg.name].status.Suspect?)
  }

  /** Replaying all notifications gives the members; `None` means an impossible notification. */
  function Replay(es: seq<Event>): (m: Option<map<string, Contact>>)
  {
    if es == [] then Some(map[])
    else
      match Replay(es[..|es| - 1])
      case None => None
      case Some(m) => Observe(m, es[|es| - 1])
  }

  function Observe(m: map<string, Contact>, e: Event): (r: Option<map<string, Contact>>)
  {
    match e
    case Join(n, c) => if n in m then None else Some(m[n := c])
    case Update(n, c) => if n in m then Some(m[n := c]) else None
    case Leave(n) => if n in m then Some(m - {n}) else None
  }

  ghost predicate EventsMatch(st: Node)
  {
    Replay(st.events) == Some(MemberMap(st.entries))
  }

  ghost predicate Good(cfg: Config, st: Node)
  {
    Indexed(st) && TimersMatch(st) && StampsIncrease(st.started) && SelfAlive(cfg, st) && EventsMatch(st)
  }

  /** Announcements under way concern the node itself, at its own address. */
  ghost predicate PendingOk(cfg: Config, p: Proc)
  {
    forall m :: m in p.pending ==>
      && MsgOk(m)
      && (m.AliveMsg? ==>
            && m.node == cfg.name && m.profile.vsn == cfg.vsn
            && (cfg.name in p.node.entries ==> SameAddress(p.node.entries[cfg.name].profile, m.profile)))
  }

  ghost predicate Inv(cfg: Config, p: Proc)
  {
    && ConfigOk(cfg)
    && Good(cfg, p.node)
    && (forall i :: 0 <= i < |p.node.started| ==> p.node.started[i].stamp <= p.clock)
    && PendingOk(cfg, p)
  }

  // ---------------------------------------------------------------- single changes

  lemma ReplayAppend(es: seq<Event>, e: Event)
    ensures Replay(es + [e]) ==
            match Replay(es) { case None => None case Some(m) => Observe(m, e) }
  {}

  lemma MemberMapSet(entries: map<string, Entry>, n: string, e: Entry)
    ensures MemberMap(entries[n := e]) ==
            if e.status.DeadOrLeft() then MemberMap(entries) - {n} else MemberMap(entries)[n := ContactOf(e.profile)]
  {}

  /** Overwriting an entry, with the notification that goes with it, keeps replay and members equal. */
  lemma EventsAfterAlive(st: Node, n: string, e': Entry)
    requires EventsMatch(st) && n in st.entries && e'.status == Alive
    requires !st.entries[n].status.DeadOrLeft() ==> SameAddress(st.entries[n].profile, e'.profile)
    ensures EventsMatch(st.(entries := st.entries[n := e'], events := Notify(st.events, n, st.entries[n], e'.profile)))
  {
    MemberMapSet(st.entries, n, e');
    ReplayAppend(st.events, Join(n, ContactOf(e'.profile)));
    ReplayAppend(st.events, Update(n, ContactOf(e'.profile)));
    if !st.entries[n].status.DeadOrLeft() && st.entries[n].profile.meta == e'.profile.meta {
      assert MemberMap(st.entries)[n := ContactOf(e'.profile)] == MemberMap(st.entries);
    }
  }

  /** A change of incarnation or from alive to suspect is not an event. */
  lemma EventsUnchanged(st: Node, st': Node, n: string)
    requires EventsMatch(st) && n in st.entries && st'.events == st.events
    requires exists e: Entry :: st'.entries == st.entries[n := e] && e.profile == st.entries[n].profile
               && !e.status.DeadOrLeft() && !st.entries[n].status.DeadOrLeft()
    ensures EventsMatch(st')
  {
    var e: Entry :| st'.entries == st.entries[n := e] && e.profile == st.entries[n].profile
                    && !e.status.DeadOrLeft() && !st.entries[n].status.DeadOrLeft();
    MemberMapSet(st.entries, n, e);
    assert MemberMap(st.entries)[n := ContactOf(e.profile)] == MemberMap(st.entries);
  }

  lemma RefuteGood(cfg: Config, st: Node, accused: u32)
    requires Good(cfg, st) && cfg.name in st.entries && st.entries[cfg.name].status.Alive?
    ensures Good(cfg, Refute(cfg, st, accused))
    ensures Refute(cfg, st, accused).started == st.started
  {
    var st' := Refute(cfg, st, accused);
    var e := st.entries[cfg.name].(inc := st'.counter);
    assert st'.entries == st.entries[cfg.name := e];
    assert st'.entries.Keys == st.entries.Keys;
    EventsUnchanged(st, st', cfg.name);
  }

  lemma InsertAtElements<T>(s: seq<T>, x: T, random: nat)
    requires Distinct(s) && x !in s
    ensures Distinct(InsertAt(s, x, random))
    ensures Elements(InsertAt(s, x, random)) == Elements(s) + {x}
  {
    DistinctAppend(s, x);
    DistinctSwap(s + [x], RandomOffset(random, |s|), |s|);
  }

  lemma InsertGood(cfg: Config, env: Env, st: Node, a: Msg)
    requires Good(cfg, st) && a.AliveMsg? && a.node !in st.entries && (a.node == cfg.name ==> st.left)
    ensures Good(cfg, Insert(env, st, a))
    ensures Insert(env, st, a).started == st.started
  {
    var st' := Insert(env, st, a);
    assert a.node !in Elements(st.order);
    InsertAtElements(st.order, a.node, env.random(a.node));
    assert st'.entries.Keys == st.entries.Keys + {a.node};
    MemberMapSet(st.entries, a.node, NewEntry(a.profile));
    assert MemberMap(st.entries) - {a.node} == MemberMap(st.entries);
  }

  lemma ReviveGood(cfg: Config, env: Env, st: Node, a: Msg)
    requires Good(cfg, st) && a.AliveMsg? && MsgOk(a) && a.node in st.entries
    requires !st.entries[a.node].status.DeadOrLeft() ==> SameAddress(st.entries[a.node].profile, a.profile)
    ensures var e := st.entries[a.node];
            Good(cfg, st.(timers := st.timers - {a.node}, entries := st.entries[a.node := Revived(e, a, env.now)],
                          queued := st.queued + [Broadcast(NodeKey(a.node), a)],
                          events := Notify(st.events, a.node, e, Revived(e, a, env.now).profile)))
  {
    hide Replay, MemberMap, Notify;
    var e := st.entries[a.node];
    var e' := Revived(e, a, env.now);
    EventsAfterAlive(st, a.node, e');
    assert st.entries[a.node := e'].Keys == st.entries.Keys;
  }

  lemma AcceptAliveGood(cfg: Config, env: Env, st: Node, a: Msg, bootstrap: bool, updates: bool)
    requires Good(cfg, st) && a.AliveMsg? && MsgOk(a) && a.node in st.entries
    requires a.node == cfg.name ==> !st.left
    requires !st.entries[a.node].status.DeadOrLeft() ==> SameAddress(st.entries[a.node].profile, a.profile)
    ensures Good(cfg, AcceptAlive(cfg, env, st, a, bootstrap, updates))
    ensures AcceptAlive(cfg, env, st, a, bootstrap, updates).started == st.started
  {
    var st' := AcceptAlive(cfg, env, st, a, bootstrap, updates);
    if st' != st {
      if !bootstrap && a.node == cfg.name {
        assert st.timers - {a.node} == st.timers;
        RefuteGood(cfg, st, a.inc);
      } else {
        ReviveGood(cfg, env, st, a);
      }
    }
  }

  lemma AliveNodeGood(cfg: Config, env: Env, st: Node, a: Msg, bootstrap: bool)
    requires Good(cfg, st) && a.AliveMsg? && MsgOk(a)
    ensures Good(cfg, AliveNode(cfg, env, st, a, bootstrap))
    ensures AliveNode(cfg, env, st, a, bootstrap).started == st.started
  {
    if Ignored(cfg, env, st, a) {
    } else if a.node !in st.entries {
      if env.ipAllowed(a.profile.addr) {
        InsertGood(cfg, env, st, a);
        AcceptAliveGood(cfg, env, Insert(env, st, a), a, bootstrap, false);
      }
    } else if SameAddress(st.entries[a.node].profile, a.profile) {
      AcceptAliveGood(cfg, env, st, a, bootstrap, false);
    } else if env.ipAllowed(a.profile.addr) && Reclaimable(cfg, st.entries[a.node], env.now) {
      AcceptAliveGood(cfg, env, st, a, bootstrap, true);
    }
  }

  lemma StartSuspicionGood(cfg: Config, env: Env, st: Node, s: Msg)
    requires Good(cfg, st) && s.SuspectMsg? && s.node in st.entries && st.entries[s.node].status.Alive?
    requires s.node != cfg.name
    requires forall i :: 0 <= i < |st.started| ==> st.started[i].stamp < env.now
    ensures Good(cfg, StartSuspicion(cfg, env, st, s))
  {
    var st' := StartSuspicion(cfg, env, st, s);
    StartTimersMatch(cfg, env, st, s);
    hide TimersMatch, EventsMatch;
    assert st'.entries.Keys == st.entries.Keys;
    EventsUnchanged(st, st', s.node);
  }

  lemma StartTimersMatch(cfg: Config, env: Env, st: Node, s: Msg)
    requires TimersMatch(st) && s.SuspectMsg? && s.node in st.entries
    ensures TimersMatch(StartSuspicion(cfg, env, st, s))
  {}

  lemma SuspectNodeGood(cfg: Config, env: Env, st: Node, s: Msg)
    requires Good(cfg, st) && s.SuspectMsg?
    requires forall i :: 0 <= i < |st.started| ==> st.started[i].stamp < env.now
    ensures var st' := SuspectNode(cfg, env, st, s);
            Good(cfg, st') && (st'.started == st.started || st'.started == st.started + [Callback(s.node, env.now)])
  {
    if s.node !in st.entries || s.inc < st.entries[s.node].inc {
    } else if s.node in st.timers {
    } else if st.entries[s.node].status.Alive? {
      if s.node == cfg.name {
        RefuteGood(cfg, st, s.inc);
      } else {
        StartSuspicionGood(cfg, env, st, s);
      }
    }
  }

  lemma BuryGood(cfg: Config, env: Env, st: Node, d: Msg)
    requires Good(cfg, st) && d.DeadMsg? && d.node in st.entries && !st.entries[d.node].status.DeadOrLeft()
    requires d.node == cfg.name ==> st.left
    ensures Good(cfg, Bury(env, st.(timers := st.timers - {d.node}), d))
  {
    var st' := Bury(env, st.(timers := st.timers - {d.node}), d);
    var e := st'.entries[d.node];
    assert st'.entries == st.entries[d.node := e];
    assert st'.entries.Keys == st.entries.Keys;
    MemberMapSet(st.entries, d.node, e);
    ReplayAppend(st.events, Leave(d.node));
  }

  lemma DeadNodeGood(cfg: Config, env: Env, st: Node, d: Msg)
    requires Good(cfg, st) && d.DeadMsg?
    ensures Good(cfg, DeadNode(cfg, env, st, d))
    ensures DeadNode(cfg, env, st, d).started == st.started
  {
    if d.node !in st.entries || d.inc < st.entries[d.node].inc {
    } else if st.entries[d.node].status.DeadOrLeft() {
      assert st.timers - {d.node} == st.timers;
    } else if d.node == cfg.name && !st.left {
      assert st.timers - {d.node} == st.timers;
      RefuteGood(cfg, st, d.inc);
    } else {
      BuryGood(cfg, env, st, d);
    }
  }

  lemma ReapGood(cfg: Config, now: int, st: Node, order: seq<string>)
    requires Good(cfg, st) && GoodOrder(cfg, now, st, order)
    ensures Good(cfg, Reap(cfg, now, st, order))
  {
    var st' := Reap(cfg, now, st, order);
    assert st'.entries.Keys == Elements(order);
    assert MemberMap(st'.entries) == MemberMap(st.entries);
  }

  lemma HandleGood(cfg: Config, env: Env, st: Node, m: Msg)
    requires Good(cfg, st) && MsgOk(m)
    requires forall i :: 0 <= i < |st.started| ==> st.started[i].stamp < env.now
    ensures var st' := Handle(cfg, env, st, m);
            Good(cfg, st') && (st'.started == st.started || st'.started == st.started + [Callback(m.node, env.now)])
  {
    match m
    case AliveMsg(_, _, _) => AliveNodeGood(cfg, env, st, m, false);
    case SuspectMsg(_, _, _) => SuspectNodeGood(cfg, env, st, m);
    case DeadMsg(_, _, _) => DeadNodeGood(cfg, env, st, m);
  }

  /** Nothing but setAlive decides the local address. */
  lemma OwnAddressFixed(cfg: Config, env: Env, st: Node, m: Msg)
    requires SelfAlive(cfg, st) && MsgOk(m)
    ensures var st' := Handle(cfg, env, st, m);
            cfg.name in st'.entries ==>
              cfg.name in st.entries && SameAddress(st.entries[cfg.name].profile, st'.entries[cfg.name].profile)
    ensures m.AliveMsg? ==>
              var st' := AliveNode(cfg, env, st, m, true);
              cfg.name in st'.entries ==>
                cfg.name in st.entries && SameAddress(st.entries[cfg.name].profile, st'.entries[cfg.name].profile)
  {
    if m.AliveMsg? {
      AliveOwnAddress(cfg, env, st, m, false);
      AliveOwnAddress(cfg, env, st, m, true);
    }
    hide AliveNode;
  }

  lemma AliveOwnAddress(cfg: Config, env: Env, st: Node, a: Msg, bootstrap: bool)
    requires SelfAlive(cfg, st) && a.AliveMsg? && MsgOk(a)
    ensures var st' := AliveNode(cfg, env, st, a, bootstrap);
            cfg.name in st'.entries ==>
              cfg.name in st.entries && SameAddress(st.entries[cfg.name].profile, st'.entries[cfg.name].profile)
  {
    hide AcceptAlive;
    if a.node !in st.entries {
      AcceptOwnAddress(cfg, env, Insert(env, st, a), a, bootstrap, false);
    } else {
      AcceptOwnAddress(cfg, env, st, a, bootstrap, false);
      AcceptOwnAddress(cfg, env, st, a, bootstrap, true);
    }
  }

  lemma AcceptOwnAddress(cfg: Config, env: Env, st: Node, a: Msg, bootstrap: bool, updates: bool)
    requires a.AliveMsg? && MsgOk(a) && a.node in st.entries
    ensures var st' := AcceptAlive(cfg, env, st, a, bootstrap, updates);
            && st'.entries.Keys == st.entries.Keys
            && (cfg.name in st.entries && (a.node != cfg.name || SameAddress(st.entries[a.node].profile, a.profile)) ==>
                  SameAddress(st.entries[cfg.name].profile, st'.entries[cfg.name].profile))
  {}

  // ---------------------------------------------------------------- runs

  lemma BootInv(cfg: Config, env: Env, self: Contact, p: Proc)
    requires Boot(cfg, env, self, p)
    ensures Inv(cfg, p)
  {
    var st0 := EMPTY.(counter := 1);
    var a := AliveMsg(1, cfg.name, OwnProfile(cfg, self));
    assert !Ignored(cfg, env, st0, a);
    var st1 := Insert(env, st0, a);
    assert p.node == AcceptAlive(cfg, env, st1, a, true, false);
    assert st1.order == [cfg.name];
    var e' := Revived(NewEntry(a.profile), a, env.now);
    assert p.node.entries == map[cfg.name := e'];
    assert p.node.events == [] + [Join(cfg.name, ContactOf(e'.profile))];
    ReplayAppend([], Join(cfg.name, ContactOf(e'.profile)));
    MemberMapSet(map[], cfg.name, e');
    assert MemberMap(map[]) == map[];
    assert Elements([cfg.name]) == {cfg.name};
  }

  lemma StepInv(cfg: Config, p: Proc, step: Step)
    requires Inv(cfg, p) && Enabled(cfg, p, step)
    ensures Inv(cfg, Next(cfg, p, step))
  {
    match step
    case Receive(env, _) => ApplyInv(cfg, p, env, Applied(cfg, step).value);
    case Merge(env, r) => ApplyInv(cfg, p, env, RecordMsg(cfg, r));
    case ProbeBegin(_) =>
    case TimerBegin(_) =>
    case UpdateBegin(_) =>
    case LeaveBegin =>
    case Finish(env, m) =>
      ApplyInv(cfg, p, env, m);
      if m.AliveMsg? {
        AliveNodeGood(cfg, env, p.node, m, true);
        OwnAddressFixed(cfg, env, p.node, m);
      }
    case Reset(now, order) => ReapGood(cfg, now, p.node, order);
  }

  lemma ApplyInv(cfg: Config, p: Proc, env: Env, m: Msg)
    requires Inv(cfg, p) && MsgOk(m) && p.clock < env.now
    ensures Inv(cfg, p.(node := Handle(cfg, env, p.node, m), clock := env.now))
  {
    hide Handle, Good;
    assert SelfAlive(cfg, p.node) by { GoodSelf(cfg, p.node); }
    HandleGood(cfg, env, p.node, m);
    OwnAddressFixed(cfg, env, p.node, m);
  }

  lemma GoodSelf(cfg: Config, st: Node)
    requires Good(cfg, st)
    ensures SelfAlive(cfg, st)
  {}

  lemma {:induction false} ChainInv(cfg: Config, states: seq<Proc>, steps: seq<Step>, k: nat)
    requires Chain(cfg, states, steps) && Inv(cfg, states[0]) && k < |states|
    ensures Inv(cfg, states[k])
  {
    if k > 0 {
      ChainInv(cfg, states, steps, k - 1);
      StepInv(cfg, states[k - 1], steps[k - 1]);
      assert states[k - 1 + 1] == states[k];
    }
  }

  lemma RunInv(cfg: Config, states: seq<Proc>, steps: seq<Step>, k: nat)
    requires IsRun(cfg, states, steps) && k < |states|
    ensures Inv(cfg, states[k])
  {
    var env, self :| Boot(cfg, env, self, states[0]);
    BootInv(cfg, env, self, states[0]);
    ChainInv(cfg, states, steps, k);
  }

  lemma RunStep(cfg: Config, states: seq<Proc>, steps: seq<Step>, k: nat)
    requires IsRun(cfg, states, steps) && k < |steps|
    ensures |states| == |steps| + 1
    ensures Enabled(cfg, states[k], steps[k]) && states[k + 1] == Next(cfg, states[k], steps[k])
  {}

  /** At every point of every run, `nodes` and `nodeMap` agree. */
  lemma IndexAgreement(cfg: Config, states: seq<Proc>, steps: seq<Step>, k: nat)
    requires IsRun(cfg, states, steps) && k < |states|
    ensures var st := states[k].node;
            && Distinct(st.order) && |st.order| == |st.entries|
            && (forall n :: n in st.order <==> n in st.entries)
  {
    RunInv(cfg, states, steps, k);
    var st := states[k].node;
    DistinctLength(st.order);
    assert forall n :: n in Elements(st.order) <==> n in st.order;
  }

  /** Exactly the suspected nodes have a timer, and of all timers ever started only the one in
      the map can still take effect when it expires. */
  lemma TimerIdentity(cfg: Config, states: seq<Proc>, steps: seq<Step>, k: nat, id: nat)
    requires IsRun(cfg, states, steps) && k < |states| && id < |states[k].node.started|
    ensures var st := states[k].node;
            && (forall n :: n in st.timers <==> n in st.entries && st.entries[n].status.Suspect?)
            && (CallbackHolds(st, st.started[id]) <==>
                  st.started[id].node in st.timers && st.timers[st.started[id].node].id == id)
  {
    RunInv(cfg, states, steps, k);
  }

  // ---------------------------------------------------------------- events

  datatype Kind = J | U | L

  function KindsOf(es: seq<Event>, name: string): (ks: seq<Kind>)
  {
    if es == [] then []
    else
      var ks := KindsOf(es[..|es| - 1], name);
      var e := es[|es| - 1];
      if e.name != name then ks
      else ks + [match e case Join(_, _) => J case Update(_, _) => U case Leave(_) => L]
  }

  /** The beginnings of (Join Update* Leave)*; `inside` means that a Join is still open. */
  predicate InGrammar(ks: seq<Kind>, inside: bool)
  {
    || ks == []
    || (!inside && ks[0] == J && InGrammar(ks[1..], true))
    || (inside && ks[0] == U && InGrammar(ks[1..], true))
    || (inside && ks[0] == L && InGrammar(ks[1..], false))
  }

  /** Whether a Join is open at the end. */
  function EndsInside(ks: seq<Kind>, inside: bool): (r: bool)
  {
    if ks == [] then inside else ks[|ks| - 1] != L
  }

  lemma {:induction false} GrammarAppend(ks: seq<Kind>, inside: bool, k: Kind)
    requires InGrammar(ks, inside)
    requires if EndsInside(ks, inside) then k != J else k == J
    ensures InGrammar(ks + [k], inside)
    decreases |ks|
  {
    if ks == [] {
      assert ([k])[1..] == [];
    } else {
      assert (ks + [k])[1..] == ks[1..] + [k];
      GrammarAppend(ks[1..], ks[0] != L, k);
    }
  }

  lemma {:induction false} ReplayGrammar(es: seq<Event>, name: string)
    requires Replay(es).Some?
    ensures InGrammar(KindsOf(es, name), false)
    ensures EndsInside(KindsOf(es, name), false) == (name in Replay(es).value)
    decreases |es|
  {
    if es != [] {
      var front, e := es[..|es| - 1], es[|es| - 1];
      assert es == front + [e];
      ReplayAppend(front, e);
      ReplayGrammar(front, name);
      if e.name == name {
        GrammarAppend(KindsOf(front, name), false,
                      match e case Join(_, _) => J case Update(_, _) => U case Leave(_) => L);
      }
    }
  }

  /** At every point of every run the notifications sent so far, replayed, give exactly what
      Members reports, and each node's notifications follow (Join Update* Leave)*. */
  lemma EventReplay(cfg: Config, states: seq<Proc>, steps: seq<Step>, k: nat, name: string)
    requires IsRun(cfg, states, steps) && k < |states|
    ensures Replay(states[k].node.events) == Some(MemberMap(states[k].node.entries))
    ensures InGrammar(KindsOf(states[k].node.events, name), false)
  {
    RunInv(cfg, states, steps, k);
    ReplayGrammar(states[k].node.events, name);
  }
}
