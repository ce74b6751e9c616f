/** What each kind of news does to a member, case by case and without the functions that handle it:
    deaths, suspicions, announcements, records, reaping and the local calls. */
module Effects {
  import opened Base
  import S = Suspicion
  import opened Membership
  import opened NodeRun
  import opened Progress

  // ---------------------------------------------------------------- deaths

  /** A peer that is held at or below an incarnation, and neither dead nor left. */
  predicate Standing(st: Node, n: string, inc: u32)
  {
    n in st.entries && st.entries[n].inc <= inc && (st.entries[n].status == Alive || st.entries[n].status == Suspect)
  }

  /** A death report about a standing peer buries it, ends its timer, is passed on and announced to the
      delegate; any other changes nothing. */
  lemma DeathTakesEffect(cfg: Config, env: Env, st: Node, d: Msg)
    requires TimersMatch(st) && d.DeadMsg? && d.node != cfg.name
    ensures Handle(cfg, env, st, d) ==
            if Standing(st, d.node, d.inc) then
              var e := Entry(st.entries[d.node].profile, d.inc, if d.from == d.node then Left else Dead, At(env.now));
              st.(entries := st.entries[d.node := e], timers := st.timers - {d.node},
                  queued := st.queued + [Broadcast(NodeKey(d.node), d)], events := st.events + [Event.Leave(d.node)])
            else st
  {
    if d.node !in st.timers { assert st.timers - {d.node} == st.timers; }
  }

  /** In every run, a prepared report about a peer buries it exactly if it still stands. */
  lemma ReportTakesEffect(cfg: Config, states: seq<Proc>, steps: seq<Step>, k: nat, env: Env, d: Msg)
    requires IsRun(cfg, states, steps) && k < |steps| && steps[k] == Finish(env, d)
    requires d.DeadMsg? && d.node != cfg.name
    ensures var st, st' := states[k].node, states[k + 1].node;
            if Standing(st, d.node, d.inc) then
              var e := Entry(st.entries[d.node].profile, d.inc, if d.from == d.node then Left else Dead, At(env.now));
              && st'.entries == st.entries[d.node := e] && d.node !in st'.timers
              && st'.queued == st.queued + [Broadcast(NodeKey(d.node), d)]
              && st'.events == st.events + [Event.Leave(d.node)]
            else st' == st
  {
    hide Handle, IsRun;
    RunStep(cfg, states, steps, k);
    RunInv(cfg, states, steps, k);
    DeathTakesEffect(cfg, env, states[k].node, d);
  }

  /** A step that does not apply an alive message about `n`, or changes nothing by it. */
  predicate NotRevived(cfg: Config, p: Proc, step: Step, p': Proc, n: string)
  {
    match Applied(cfg, step)
    case Some(m) => m.AliveMsg? && m.node == n && n in p.node.entries && n in p'.node.entries ==>
                      p'.node.entries[n] == p.node.entries[n]
    case None => true
  }

  /** Suspect at an incarnation, or dead or left. */
  predicate Doomed(st: Node, n: string, inc: u32)
  {
    && n in st.entries
    && ((st.entries[n].status == Suspect && st.entries[n].inc == inc) || st.entries[n].status.DeadOrLeft())
  }

  lemma HandleDoomed(cfg: Config, env: Env, st: Node, m: Msg, n: string, inc: u32)
    requires TimersMatch(st) && MsgOk(m) && n != cfg.name && Doomed(st, n, inc)
    requires m.AliveMsg? && m.node == n ==> Handle(cfg, env, st, m).entries[n] == st.entries[n]
    ensures Doomed(Handle(cfg, env, st, m), n, inc)
  {
    HandleProgress(cfg, env, st, m, n);
    if m.node != n {
      HandleFrame(cfg, env, st, m, n);
    } else if m.DeadMsg? {
      DeathTakesEffect(cfg, env, st, m);
    } else if m.SuspectMsg? {
      SuspicionTakesEffect(cfg, env, st, m);
    }
    hide Handle;
  }

  lemma StepDoomed(cfg: Config, p: Proc, step: Step, n: string, inc: u32)
    requires Inv(cfg, p) && Enabled(cfg, p, step) && n != cfg.name && Doomed(p.node, n, inc)
    requires n in Next(cfg, p, step).node.entries && NotRevived(cfg, p, step, Next(cfg, p, step), n)
    ensures Doomed(Next(cfg, p, step).node, n, inc)
  {
    hide Handle, AliveNode;
    match step
    case Receive(env, _) => HandleDoomed(cfg, env, p.node, Applied(cfg, step).value, n, inc);
    case Merge(env, r) => HandleDoomed(cfg, env, p.node, RecordMsg(cfg, r), n, inc);
    case Finish(env, m) =>
      if m.AliveMsg? { AliveFrame(cfg, env, p.node, m, true, n); } else { HandleDoomed(cfg, env, p.node, m, n, inc); }
    case ProbeBegin(_) =>
    case TimerBegin(_) =>
    case UpdateBegin(_) =>
    case LeaveBegin =>
    case Reset(_, _) =>
  }

  /** From `i` up to `j` the peer stays listed and no alive message about it is accepted. */
  ghost predicate Unanswered(cfg: Config, states: seq<Proc>, steps: seq<Step>, i: nat, j: nat, n: string)
  {
    && j < |states| && j <= |steps|
    && (forall k :: i <= k <= j ==> n in states[k].node.entries)
    && forall k :: i <= k < j ==> NotRevived(cfg, states[k], steps[k], states[k + 1], n)
  }

  lemma UnansweredWithin(cfg: Config, states: seq<Proc>, steps: seq<Step>, i: nat, j: nat, n: string)
    requires i < j && Unanswered(cfg, states, steps, i, j, n)
    ensures j < |states| && j <= |steps| && n in states[j].node.entries
    ensures Unanswered(cfg, states, steps, i, j - 1, n)
    ensures NotRevived(cfg, states[j - 1], steps[j - 1], states[j], n)
  {
    assert NotRevived(cfg, states[j - 1], steps[j - 1], states[j - 1 + 1], n);
  }

  lemma RunDoomed(cfg: Config, states: seq<Proc>, steps: seq<Step>, k: nat, n: string, inc: u32)
    requires IsRun(cfg, states, steps) && k < |steps| && k + 1 < |states| && n != cfg.name
    requires n in states[k + 1].node.entries && NotRevived(cfg, states[k], steps[k], states[k + 1], n)
    requires Doomed(states[k].node, n, inc)
    ensures Doomed(states[k + 1].node, n, inc)
  {
    hide Inv, Next, NotRevived, Doomed, Enabled, IsRun;
    RunStep(cfg, states, steps, k);
    RunInv(cfg, states, steps, k);
    StepDoomed(cfg, states[k], steps[k], n, inc);
  }

  lemma {:induction false} StaysDoomed(cfg: Config, states: seq<Proc>, steps: seq<Step>,
                                       i: nat, j: nat, n: string, inc: u32)
    requires IsRun(cfg, states, steps) && i <= j < |states| && n != cfg.name
    requires Unanswered(cfg, states, steps, i, j, n) && Doomed(states[i].node, n, inc)
    ensures Doomed(states[j].node, n, inc)
    decreases j - i
  {
    hide *;
    if i < j {
      UnansweredWithin(cfg, states, steps, i, j, n);
      StaysDoomed(cfg, states, steps, i, j - 1, n, inc);
      RunDoomed(cfg, states, steps, j - 1, n, inc);
    }
  }

  /** The other half of AliveWins: if no alive message about the peer is accepted between a suspicion
      callback's look at the state and its report, the peer is dead or left after the report. */
  lemma CallbackBuries(cfg: Config, states: seq<Proc>, steps: seq<Step>, i: nat, l: nat, id: nat, env: Env)
    requires IsRun(cfg, states, steps) && i < l < |steps|
    requires steps[i] == TimerBegin(id) && id < |states[i].node.started|
    requires CallbackHolds(states[i].node, states[i].node.started[id])
    requires steps[l] == Finish(env, CallbackMsg(cfg, states[i].node, states[i].node.started[id]))
    requires Unanswered(cfg, states, steps, i, l, states[i].node.started[id].node)
    ensures var n := states[i].node.started[id].node;
            n in states[l + 1].node.entries && states[l + 1].node.entries[n].status.DeadOrLeft()
  {
    var n := states[i].node.started[id].node;
    var d := CallbackMsg(cfg, states[i].node, states[i].node.started[id]);
    RunInv(cfg, states, steps, i);
    StaysDoomed(cfg, states, steps, i, l, n, d.inc);
    hide IsRun, Inv, Unanswered;
    ReportTakesEffect(cfg, states, steps, l, env, d);
  }

  // ---------------------------------------------------------------- suspicions

  /** A suspicion about a standing peer starts one, with a timer for the size of the cluster, if the peer
      is alive; it counts as a confirmation if it is suspect already and the confirmation is news; and
      any other changes nothing. */
  lemma SuspicionTakesEffect(cfg: Config, env: Env, st: Node, s: Msg)
    requires TimersMatch(st) && s.SuspectMsg? && s.node != cfg.name
    ensures var st' := Handle(cfg, env, st, s);
            if !Standing(st, s.node, s.inc) then st' == st
            else if st.entries[s.node].status == Alive then
              && st'.entries == st.entries[s.node := Entry(st.entries[s.node].profile, s.inc, Suspect, At(env.now))]
              && st'.queued == st.queued + [Broadcast(NodeKey(s.node), s)] && st'.events == st.events
              && st'.started == st.started + [Callback(s.node, env.now)]
              && st'.timers == st.timers[s.node := st'.timers[s.node]] && st'.timers[s.node].id == |st.started|
              && Fresh(cfg, env, |st.order|, s.from, st'.timers[s.node].susp)
            else
              var t := st.timers[s.node].susp;
              if t.n < t.k && s.from !in t.confirmed then
                && st' == st.(timers := st.timers[s.node := st'.timers[s.node]],
                              queued := st.queued + [Broadcast(NodeKey(s.node), s)])
                && st'.timers[s.node].susp.confirmed == t.confirmed + {s.from}
                && st'.timers[s.node].susp.n == t.n + 1
              else st' == st
  {
    if s.node in st.timers { assert st.timers[s.node := st.timers[s.node]] == st.timers; }
  }

  /** A suspicion that has just begun: as many confirmations wanted as the multiplier allows, unless the
      cluster is too small for them, and the timeouts for its size. */
  predicate Fresh(cfg: Config, env: Env, size: nat, from: string, t: S.Susp)
  {
    && t.n == 0 && t.confirmed == {from} && t.start == env.now
    && t.k == (if size < cfg.suspicionMult then 0 else cfg.suspicionMult - 2)
    && t.min == env.minTimeout && t.max == cfg.suspicionMaxMult * env.minTimeout
    && t.timer == S.Armed(env.now + if t.k < 1 then t.min else t.max)
  }

  /** In every run, what a failed probe has prepared makes the peer suspect in the local node's name, at the
      incarnation that was probed, or confirms a suspicion so, exactly if the peer still stands. */
  lemma ProbeTakesEffect(cfg: Config, states: seq<Proc>, steps: seq<Step>, k: nat, l: nat, env: Env,
                         name: string, s: Msg)
    requires IsRun(cfg, states, steps) && k < l < |steps|
    requires steps[k] == ProbeBegin(name) && steps[l] == Finish(env, s)
    requires s in states[k + 1].pending && s !in states[k].pending
    ensures name in states[k].node.entries && name != cfg.name
    ensures var st, st', inc := states[l].node, states[l + 1].node, states[k].node.entries[name].inc;
            if !Standing(st, name, inc) then st' == st
            else if st.entries[name].status == Alive then
              && st'.entries == st.entries[name := Entry(st.entries[name].profile, inc, Suspect, At(env.now))]
              && st'.queued == st.queued + [Broadcast(NodeKey(name), SuspectMsg(inc, name, cfg.name))]
              && name in st'.timers && Fresh(cfg, env, |st.order|, cfg.name, st'.timers[name].susp)
            else
              && st'.entries == st.entries && name in st.timers && name in st'.timers
              && var t, t' := st.timers[name].susp, st'.timers[name].susp;
                 t'.confirmed == if t.n < t.k then t.confirmed + {cfg.name} else t.confirmed
  {
    hide Handle, IsRun;
    RunStep(cfg, states, steps, k);
    RunStep(cfg, states, steps, l);
    RunInv(cfg, states, steps, l);
    SuspicionTakesEffect(cfg, env, states[l].node, s);
  }

  /** An accusation that the local node answers costs it one point of health, down to the worst score. */
  lemma AnswerCostsHealth(cfg: Config, env: Env, st: Node, m: Msg)
    requires cfg.name in st.entries && st.entries[cfg.name].status.Alive? && !st.left && cfg.name !in st.timers
    requires MsgOk(m) && Accuses(cfg, env, st, m) && 0 <= st.health < cfg.healthMax
    ensures Handle(cfg, env, st, m).health == if st.health + 1 < cfg.healthMax then st.health + 1 else st.health
  {}

  // ---------------------------------------------------------------- announcements

  /** Versions that make sense, and a delegate that agrees. */
  predicate Heard(cfg: Config, env: Env, a: Msg)
    requires a.AliveMsg?
  {
    var vsn := a.profile.vsn;
    && (|vsn| >= 3 ==> 1 <= vsn[0] <= vsn[1])
    && (cfg.aliveDelegate ==> |vsn| >= 6 && env.notifyAlive(a.node, a.profile))
  }

  /** The name of a node that has left, or that has been dead for long enough if that is allowed at all,
      may be taken over from another address. */
  predicate Vacant(cfg: Config, e: Entry, now: int)
  {
    || e.status == Left
    || (e.status == Dead && cfg.reclaimTime > 0 && (e.since == Never || now - e.since.time > cfg.reclaimTime))
  }

  /** A peer's announcement is accepted if it is heard and comes from a new node at an allowed address,
      from the known address with a higher incarnation, or from another allowed address for a vacant name. */
  predicate Accepted(cfg: Config, env: Env, st: Node, a: Msg)
    requires a.AliveMsg?
  {
    Heard(cfg, env, a) &&
    if a.node !in st.entries then env.ipAllowed(a.profile.addr) && a.inc > 0
    else
      var e := st.entries[a.node];
      if e.profile.addr == a.profile.addr && e.profile.port == a.profile.port then a.inc > e.inc
      else env.ipAllowed(a.profile.addr) && Vacant(cfg, e, env.now)
  }

  /** The versions that an entry ends up with: those announced, or else those it had. */
  function Versions(st: Node, a: Msg): Bytes
    requires a.AliveMsg? && MsgOk(a)
  {
    if |a.profile.vsn| > 0 then a.profile.vsn[..6]
    else if a.node in st.entries then st.entries[a.node].profile.vsn
    else [0, 0, 0, 0, 0, 0]
  }

  /** An accepted announcement makes the peer alive, ends its timer, is passed on and told to the delegate
      as a join or a change; the first one of a new node at incarnation zero only enters it as dead;
      and any other changes nothing. */
  lemma AnnouncementTakesEffect(cfg: Config, env: Env, st: Node, a: Msg)
    requires a.AliveMsg? && MsgOk(a) && a.node != cfg.name
    ensures var st', n, p := Handle(cfg, env, st, a), a.node, a.profile.(vsn := Versions(st, a));
            if Accepted(cfg, env, st, a) then
              var back := n !in st.entries || st.entries[n].status == Dead || st.entries[n].status == Left;
              var since := if !back && st.entries[n].status == Alive then st.entries[n].since else At(env.now);
              && st'.entries == st.entries[n := Entry(p, a.inc, Alive, since)]
              && st'.timers == st.timers - {n} && st'.queued == st.queued + [Broadcast(NodeKey(n), a)]
              && st'.events == st.events + (if back then [Join(n, Contact(p.addr, p.port, p.meta))]
                                            else if st.entries[n].profile.meta != p.meta
                                            then [Update(n, Contact(p.addr, p.port, p.meta))] else [])
            else if n !in st.entries && Heard(cfg, env, a) && env.ipAllowed(p.addr) then
              && st'.entries == st.entries[n := Entry(p, 0, Dead, Never)]
              && st'.timers == st.timers && st'.queued == st.queued && st'.events == st.events
            else st' == st
  {
    assert st.events + [] == st.events;
    if a.node !in st.entries && Heard(cfg, env, a) && env.ipAllowed(a.profile.addr) {
      NewTakesEffect(cfg, env, st, a);
    }
  }

  lemma NewTakesEffect(cfg: Config, env: Env, st: Node, a: Msg)
    requires a.AliveMsg? && MsgOk(a) && a.node != cfg.name && a.node !in st.entries
    requires Heard(cfg, env, a) && env.ipAllowed(a.profile.addr)
    ensures var st', p := Handle(cfg, env, st, a), a.profile.(vsn := Versions(st, a));
            if a.inc > 0 then
              && st'.entries == st.entries[a.node := Entry(p, a.inc, Alive, At(env.now))]
              && st'.timers == st.timers - {a.node} && st'.queued == st.queued + [Broadcast(NodeKey(a.node), a)]
              && st'.events == st.events + [Join(a.node, Contact(p.addr, p.port, p.meta))]
            else
              && st'.entries == st.entries[a.node := Entry(p, 0, Dead, Never)]
              && st'.timers == st.timers && st'.queued == st.queued && st'.events == st.events
  {
    var e := NewEntry(a.profile);
    if a.inc > 0 {
      var e' := Revived(e, a, env.now);
      assert st.entries[a.node := e][a.node := e'] == st.entries[a.node := e'];
    }
  }

  /** From another address or port, a known peer's entry changes only if the address is allowed and the
      name is vacant; and then it is alive with the new address and incarnation. */
  lemma ReclaimExactly(cfg: Config, env: Env, st: Node, a: Msg)
    requires a.AliveMsg? && MsgOk(a) && a.node != cfg.name && a.node in st.entries && Heard(cfg, env, a)
    requires var p := st.entries[a.node].profile; p.addr != a.profile.addr || p.port != a.profile.port
    ensures var st', e := Handle(cfg, env, st, a), st.entries[a.node];
            && (st' != st <==>
                  && env.ipAllowed(a.profile.addr)
                  && (e.status == Left || (e.status == Dead && cfg.reclaimTime > 0
                                           && (e.since == Never || env.now - e.since.time > cfg.reclaimTime))))
            && (st' != st ==>
                  var e' := st'.entries[a.node];
                  && e'.status == Alive && e'.inc == a.inc
                  && e'.profile.addr == a.profile.addr && e'.profile.port == a.profile.port)
  {
    AnnouncementTakesEffect(cfg, env, st, a);
  }

  /** After Leave, no announcement about the local node has any effect. */
  lemma LeftForGood(cfg: Config, env: Env, st: Node, a: Msg, bootstrap: bool)
    requires a.AliveMsg? && MsgOk(a) && a.node == cfg.name && st.left
    ensures AliveNode(cfg, env, st, a, bootstrap) == st
  {}

  /** A new node goes to the random place, and the node that was there to the end. */
  lemma InsertPlaces<T>(s: seq<T>, x: T, random: nat)
    ensures var r := InsertAt(s, x, random);
            |r| == |s| + 1
            && (if s == [] then r == [x]
                else var k := random % |s|;
                     r[k] == x && r[|s|] == s[k] && forall i :: 0 <= i < |s| && i != k ==> r[i] == s[i])
  {}

  /** A packet's announcement without a port, or under an old protocol, gets the configured one. */
  lemma PortFilled(cfg: Config, env: Env, m: Msg)
    requires m.AliveMsg?
    ensures Applied(cfg, Receive(env, m))
            == Some(AliveMsg(m.inc, m.node, Profile(m.profile.addr,
                                                    if cfg.protocol < 2 || m.profile.port == 0 then cfg.bindPort
                                                    else m.profile.port,
                                                    m.profile.meta, m.profile.vsn)))
  {}

  // ---------------------------------------------------------------- push/pull

  /** What one record does to a peer: left is taken at its word, dead or suspect only starts a suspicion,
      and alive is an announcement. */
  lemma RecordTakesEffect(cfg: Config, env: Env, st: Node, r: Record)
    requires TimersMatch(st) && RecordOk(r) && r.name != cfg.name
    ensures var st' := MergeState(cfg, env, st, [r]);
            match r.status
            case Left =>
              if Standing(st, r.name, r.inc) then
                && st'.entries == st.entries[r.name := Entry(st.entries[r.name].profile, r.inc, Left, At(env.now))]
                && r.name !in st'.timers && st'.events == st.events + [Event.Leave(r.name)]
              else st' == st
            case Alive =>
              if Accepted(cfg, env, st, AliveMsg(r.inc, r.name, r.profile)) then
                && r.name in st'.entries && st'.entries[r.name].status == Alive && st'.entries[r.name].inc == r.inc
                && ContactOf(st'.entries[r.name].profile) == Contact(r.profile.addr, r.profile.port, r.profile.meta)
              else r.name in st.entries ==> st' == st
            case _ =>
              if Standing(st, r.name, r.inc) && st.entries[r.name].status == Alive then
                && st'.entries == st.entries[r.name := Entry(st.entries[r.name].profile, r.inc, Suspect, At(env.now))]
                && r.name in st'.timers && Fresh(cfg, env, |st.order|, cfg.name, st'.timers[r.name].susp)
              else st'.entries == st.entries && st'.events == st.events
  {
    MergeOne(cfg, env, st, r);
    hide Handle, MergeState;
    match r.status
    case Left => DeathTakesEffect(cfg, env, st, DeadMsg(r.inc, r.name, r.name));
    case Alive => AnnouncementTakesEffect(cfg, env, st, AliveMsg(r.inc, r.name, r.profile));
    case Dead => SuspicionTakesEffect(cfg, env, st, SuspectMsg(r.inc, r.name, cfg.name));
    case Suspect => SuspicionTakesEffect(cfg, env, st, SuspectMsg(r.inc, r.name, cfg.name));
  }

  lemma MergeOne(cfg: Config, env: Env, st: Node, r: Record)
    requires RecordOk(r)
    ensures MergeState(cfg, env, st, [r]) == Handle(cfg, env, st, RecordMsg(cfg, r))
  {
    assert [r][..0] == [];
  }

  /** What a message makes of a peer's entry depends on what is held about that peer only. */
  lemma HandleLocal(cfg: Config, env: Env, st1: Node, st2: Node, m: Msg)
    requires MsgOk(m) && m.node != cfg.name && Agree(st1, st2, m.node)
    ensures var r1, r2 := Handle(cfg, env, st1, m), Handle(cfg, env, st2, m);
            && (m.node in r1.entries <==> m.node in r2.entries)
            && (m.node in r1.entries ==> r1.entries[m.node] == r2.entries[m.node])
  {
    if m.AliveMsg? {
      AnnouncementTakesEffect(cfg, env, st1, m);
      AnnouncementTakesEffect(cfg, env, st2, m);
      hide Handle, Accepted, Heard;
      AcceptedLocal(cfg, env, st1, st2, m);
    }
  }

  lemma AcceptedLocal(cfg: Config, env: Env, st1: Node, st2: Node, a: Msg)
    requires a.AliveMsg? && Agree(st1, st2, a.node)
    ensures Accepted(cfg, env, st1, a) == Accepted(cfg, env, st2, a)
  {}

  lemma {:induction false} MergeFrame(cfg: Config, env: Env, st: Node, remote: seq<Record>, n: string)
    requires forall i :: 0 <= i < |remote| ==> RecordOk(remote[i]) && remote[i].name != n
    ensures Agree(st, MergeState(cfg, env, st, remote), n)
    decreases |remote|
  {
    if remote != [] {
      var front, r := remote[..|remote| - 1], remote[|remote| - 1];
      MergeFrame(cfg, env, st, front, n);
      HandleFrame(cfg, env, MergeState(cfg, env, st, front), RecordMsg(cfg, r), n);
      hide Handle;
    }
  }

  /** In a whole exchange, each record has on its peer the effect it has alone. */
  lemma {:induction false} MergeEach(cfg: Config, env: Env, st: Node, remote: seq<Record>, i: nat)
    requires DistinctNames(remote) && i < |remote| && remote[i].name != cfg.name
    requires forall j :: 0 <= j < |remote| ==> RecordOk(remote[j])
    ensures var n, st' := remote[i].name, MergeState(cfg, env, st, remote);
            var alone := MergeState(cfg, env, st, [remote[i]]);
            (n in st'.entries <==> n in alone.entries) && (n in st'.entries ==> st'.entries[n] == alone.entries[n])
    decreases |remote|
  {
    var front, r, n := remote[..|remote| - 1], remote[|remote| - 1], remote[i].name;
    var st1 := MergeState(cfg, env, st, front);
    hide Handle, Agree;
    if i == |remote| - 1 {
      MergeFrame(cfg, env, st, front, n);
      MergeOne(cfg, env, st, r);
      HandleLocal(cfg, env, st, st1, RecordMsg(cfg, r));
    } else {
      MergeEach(cfg, env, st, front, i);
      HandleFrame(cfg, env, st1, RecordMsg(cfg, r), n);
      AgreeEntry(st1, Handle(cfg, env, st1, RecordMsg(cfg, r)), n);
    }
  }

  lemma AgreeEntry(st: Node, st': Node, n: string)
    requires Agree(st, st', n)
    ensures (n in st.entries <==> n in st'.entries) && (n in st.entries ==> st.entries[n] == st'.entries[n])
  {}

  // ---------------------------------------------------------------- reaping

  /** resetNodes drops a node exactly if it is dead or left and has been for longer than it is gossiped to. */
  lemma ReapTakesEffect(cfg: Config, at: int, st: Node, order: seq<string>, n: string)
    ensures var st', e := Reap(cfg, at, st, order), if n in st.entries then Some(st.entries[n]) else None;
            && (n in st'.entries <==>
                  e.Some? && !((e.value.status == Dead || e.value.status == Left)
                               && (e.value.since == Never || at - e.value.since.time > cfg.gossipToTheDead)))
            && (n in st'.entries ==> st'.entries[n] == st.entries[n])
            && st' == st.(entries := st'.entries, order := order)
  {}

  // ---------------------------------------------------------------- local calls

  /** A new member knows itself, alive at incarnation one, has announced that and told its delegate. */
  lemma SetAliveTakesEffect(cfg: Config, env: Env, self: Contact)
    requires ConfigOk(cfg) && env.ipAllowed(self.addr)
    requires var p := Profile(self.addr, self.port, self.meta, cfg.vsn);
             cfg.aliveDelegate ==> env.notifyAlive(cfg.name, p)
    ensures var p := Profile(self.addr, self.port, self.meta, cfg.vsn);
            SetAlive(cfg, env, self)
            == Node(map[cfg.name := Entry(p, 1, Alive, At(env.now))], [cfg.name], map[], [], 1, false, 0,
                    [Broadcast(NodeKey(cfg.name), AliveMsg(1, cfg.name, p))],
                    [Join(cfg.name, self)])
  {
    var p := Profile(self.addr, self.port, self.meta, cfg.vsn);
    var a := AliveMsg(1, cfg.name, p);
    var st := Insert(env, EMPTY.(counter := 1), a);
    assert SetAlive(cfg, env, self) == AcceptAlive(cfg, env, st, a, true, false);
    assert cfg.vsn[..6] == cfg.vsn;
    assert st.order == [cfg.name];
    assert st.entries[cfg.name := Entry(p, 1, Alive, At(env.now))] == map[cfg.name := Entry(p, 1, Alive, At(env.now))];
  }

  /** UpdateNode, undisturbed: the next incarnation and the new meta, announced. */
  lemma UpdateEffect(cfg: Config, env: Env, st: Node, meta: Bytes)
    requires ConfigOk(cfg) && SelfAlive(cfg, st) && cfg.name !in st.timers && !st.left
    requires st.counter < MAX_U32 && st.entries[cfg.name].inc <= st.counter
    requires var p := st.entries[cfg.name].profile;
             cfg.aliveDelegate ==> env.notifyAlive(cfg.name, Profile(p.addr, p.port, meta, cfg.vsn))
    ensures var st' := AliveNode(cfg, env, st.(counter := Add32(st.counter, 1)), UpdateMsg(cfg, st, meta), true);
            var e := st.entries[cfg.name];
            var p := Profile(e.profile.addr, e.profile.port, meta, cfg.vsn);
            && st'.counter == st.counter + 1
            && st'.entries == st.entries[cfg.name := Entry(p, st.counter + 1, Alive, e.since)]
            && st'.queued == st.queued + [Broadcast(NodeKey(cfg.name), AliveMsg(st.counter + 1, cfg.name, p))]
  {
    assert cfg.vsn[..6] == cfg.vsn;
  }

  /** Leave, undisturbed: the local entry is left at its incarnation, and the farewell is announced. */
  lemma LeaveEffect(cfg: Config, env: Env, st: Node)
    requires SelfAlive(cfg, st) && !st.left
    ensures var st' := DeadNode(cfg, env, st.(left := true), LeaveMsg(cfg, st));
            var e := st.entries[cfg.name];
            && st'.left && st'.entries == st.entries[cfg.name := Entry(e.profile, e.inc, Left, At(env.now))]
            && st'.queued == st.queued + [Broadcast(NodeKey(cfg.name), DeadMsg(e.inc, cfg.name, cfg.name))]
            && st'.events == st.events + [Event.Leave(cfg.name)]
  {}
}
