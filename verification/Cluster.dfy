/** Runs of a whole cluster: members with distinct names that never restart, and a network that
    loses, duplicates, delays and reorders what is sent. */
module Cluster {
  import opened Base
  import opened Membership
  import R = NodeRun

  /** What travels: a gossiped message, or one node's state in a push/pull exchange. */
  datatype Packet = Gossip(m: Msg) | State(r: Record)

  /** What has happened so far, kept for the theorems only: every member's address, counter and
      announcements, who called Leave, and at which incarnation suspicion timers expired. */
  datatype History = History(
    address: map<string, (Bytes, u16)>,
    counter: map<string, u32>,
    issued: map<string, map<u32, Profile>>,
    left: set<string>,
    expired: set<(string, u32)>)

  /** `net` holds everything ever sent, so delivery may come late, repeatedly, or not at all. */
  datatype System = System(cfgs: map<string, Config>, procs: map<string, R.Proc>, net: set<Packet>, h: History)

  datatype Action =
    | Start(cfg: Config, env: Env, self: Contact, p: R.Proc)
    | Act(i: string, step: R.Step)
    | Push(i: string)

  const NOBODY := System(map[], map[], {}, History(map[], map[], map[], {}, {}))

  ghost predicate Enabled(c: System, a: Action)
  {
    match a
    case Start(cfg, env, self, p) =>
      cfg.name !in c.procs && cfg.protocol >= 2 && self.port != 0 && R.Boot(cfg, env, self, p)
    case Act(i, step) =>
      && i in c.procs && i in c.cfgs
      && R.Enabled(c.cfgs[i], c.procs[i], step)
      && c.procs[i].node.counter < MAX_U32
      && (step.Receive? ==> Gossip(step.m) in c.net)
      && (step.Merge? ==> State(step.r) in c.net)
    case Push(i) => i in c.procs
  }

  function Sent(st: Node): set<Packet>
  {
    set b | b in st.queued :: Gossip(b.msg)
  }

  /** A probe of a node that is not alive carries a suspect message along. */
  function Hint(cfg: Config, p: R.Proc, step: R.Step): set<Packet>
  {
    match step
    case ProbeBegin(name) =>
      if name in p.node.entries && !p.node.entries[name].status.Alive?
      then {Gossip(SuspectMsg(p.node.entries[name].inc, name, cfg.name))} else {}
    case _ => {}
  }

  function Snapshot(st: Node): set<Packet>
  {
    set n | n in st.entries :: State(RecordOf(n, st.entries[n]))
  }

  const NO_PROFILE := Profile([], 0, [], [])

  function Issue(issued: map<string, map<u32, Profile>>, i: string, inc: u32, p: Profile)
    : (r: map<string, map<u32, Profile>>)
    requires i in issued
  {
    var own: map<u32, Profile> := issued[i] + map[inc := p];
    issued[i := own]
  }

  /** The history after member `i` went from `p` to `p'`. */
  function Chronicle(h: History, i: string, p: R.Proc, step: R.Step, p': R.Proc): (h': History)
    requires i in h.issued
  {
    h.(counter := h.counter[i := p'.node.counter],
       issued := if p'.node.counter == p.node.counter then h.issued
                 else Issue(h.issued, i, p'.node.counter, Announced(i, p, step, p')),
       left := if p'.node.left then h.left + {i} else h.left,
       expired := match step
                  case TimerBegin(id) =>
                    if id < |p.node.started| && p.node.started[id].node in p.node.entries then
                      var n := p.node.started[id].node;
                      h.expired + {(n, p.node.entries[n].inc)}
                    else h.expired
                  case _ => h.expired)
  }

  /** What a member announces under a new incarnation: its entry, or the new meta of UpdateNode. */
  function Announced(i: string, p: R.Proc, step: R.Step, p': R.Proc): Profile
  {
    match step
    case UpdateBegin(meta) => if i in p.node.entries then p.node.entries[i].profile.(meta := meta) else NO_PROFILE
    case _ => if i in p'.node.entries then p'.node.entries[i].profile else NO_PROFILE
  }

  ghost predicate Next(c: System, a: Action, c': System)
  {
    && Enabled(c, a)
    && match a
       case Start(cfg, env, self, p) =>
         c' == System(c.cfgs[cfg.name := cfg], c.procs[cfg.name := p], c.net + Sent(p.node),
                      c.h.(address := c.h.address[cfg.name := (self.addr, self.port)],
                           counter := c.h.counter[cfg.name := 1],
                           issued := c.h.issued[cfg.name := map[1 := OwnProfile(cfg, self)]]))
       case Act(i, step) =>
         var p := c.procs[i];
         var p' := R.Next(c.cfgs[i], p, step);
         && i in c.h.issued
         && c' == System(c.cfgs, c.procs[i := p'], c.net + Sent(p'.node) + Hint(c.cfgs[i], p, step),
                         Chronicle(c.h, i, p, step, p'))
       case Push(i) => c' == c.(net := c.net + Snapshot(c.procs[i].node))
  }

  ghost predicate IsRun(states: seq<System>, actions: seq<Action>)
  {
    && |states| == |actions| + 1
    && states[0] == NOBODY
    && forall k :: 0 <= k < |actions| ==> Next(states[k], actions[k], states[k + 1])
  }

  // ---------------------------------------------------------------- truth with respect to history

  ghost predicate Claim(h: History, n: string, inc: u32, p: Profile)
  {
    n in h.issued && inc in h.issued[n] && h.issued[n][inc] == p
  }

  ghost predicate Known(h: History, n: string, inc: u32)
  {
    n in h.counter && 1 <= inc <= h.counter[n]
  }

  ghost predicate MsgTrue(h: History, m: Msg)
  {
    && Known(h, m.node, m.inc)
    && match m
       case AliveMsg(inc, n, p) => Claim(h, n, inc, p)
       case SuspectMsg(_, _, _) => true
       case DeadMsg(inc, n, from) => if from == n then n in h.left else (n, inc) in h.expired
  }

  ghost predicate EntryTrue(h: History, n: string, e: Entry)
  {
    && Known(h, n, e.inc)
    && n in h.address && (e.profile.addr, e.profile.port) == h.address[n]
    && (e.status.Alive? ==> Claim(h, n, e.inc, e.profile))
    && (e.status.Left? ==> n in h.left)
    && (e.status.Dead? ==> (n, e.inc) in h.expired)
  }

  ghost predicate RecordTrue(h: History, r: Record)
  {
    && Known(h, r.name, r.inc)
    && (r.status.Alive? ==> Claim(h, r.name, r.inc, r.profile))
    && (r.status.Left? ==> r.name in h.left)
  }

  ghost predicate EntriesTrue(h: History, st: Node)
  {
    forall n :: n in st.entries ==> EntryTrue(h, n, st.entries[n])
  }

  ghost predicate QueueTrue(h: History, st: Node)
  {
    forall b :: b in st.queued ==> MsgTrue(h, b.msg)
  }

  ghost predicate ProcTrue(h: History, p: R.Proc)
  {
    && EntriesTrue(h, p.node) && QueueTrue(h, p.node)
    && forall m :: m in p.pending ==> MsgTrue(h, m)
  }

  ghost predicate NetTrue(h: History, net: set<Packet>)
  {
    forall k :: k in net ==> match k case Gossip(m) => MsgTrue(h, m) case State(r) => RecordTrue(h, r)
  }

  /** Announcements are at or below the counter, from a fixed address with a port, with versions. */
  ghost predicate HistoryOk(h: History)
  {
    && h.issued.Keys == h.counter.Keys == h.address.Keys
    && (forall n :: n in h.address ==> h.address[n].1 != 0)
    && forall n, k :: n in h.issued && k in h.issued[n] ==>
         && 1 <= k <= h.counter[n]
         && (h.issued[n][k].addr, h.issued[n][k].port) == h.address[n]
         && |h.issued[n][k].vsn| == 6
  }

  ghost predicate MemberOk(c: System, i: string)
  {
    && i in c.cfgs && i in c.procs && i in c.h.counter
    && c.cfgs[i].name == i && c.cfgs[i].protocol >= 2
    && R.Inv(c.cfgs[i], c.procs[i])
    && c.h.counter[i] == c.procs[i].node.counter
    && (c.procs[i].node.left ==> i in c.h.left)
    && ProcTrue(c.h, c.procs[i])
    && (i in c.procs[i].node.entries ==> c.procs[i].node.entries[i].profile.vsn == c.cfgs[i].vsn)
  }

  ghost predicate Inv(c: System)
  {
    && HistoryOk(c.h)
    && c.procs.Keys == c.h.counter.Keys
    && (forall i :: i in c.procs ==> MemberOk(c, i))
    && NetTrue(c.h, c.net)
  }

  // ---------------------------------------------------------------- growing histories

  ghost predicate Grows(h: History, h': History)
  {
    && (forall n :: n in h.counter ==> n in h'.counter && h.counter[n] <= h'.counter[n])
    && (forall n :: n in h.address ==> n in h'.address && h.address[n] == h'.address[n])
    && (forall n, k, p :: Claim(h, n, k, p) ==> Claim(h', n, k, p))
    && h.left <= h'.left && h.expired <= h'.expired
  }

  lemma TruthGrows(h: History, h': History, p: R.Proc)
    requires Grows(h, h') && ProcTrue(h, p)
    ensures ProcTrue(h', p)
  {}

  lemma NetGrows(h: History, h': History, net: set<Packet>)
    requires Grows(h, h') && NetTrue(h, net)
    ensures NetTrue(h', net)
  {}

  // ---------------------------------------------------------------- one message

  /** The history after a message: a refutation announces the entry under the next incarnation. */
  function After(h: History, i: string, st: Node, st': Node): (h': History)
    requires i in h.issued
  {
    h.(counter := h.counter[i := st'.counter],
       issued := if st'.counter == st.counter then h.issued
                 else Issue(h.issued, i, st'.counter, if i in st'.entries then st'.entries[i].profile else NO_PROFILE))
  }

  /** What a member's node satisfies between messages. */
  ghost predicate Sound(h: History, cfg: Config, st: Node)
  {
    && HistoryOk(h) && cfg.name in h.counter && h.counter[cfg.name] == st.counter
    && R.SelfAlive(cfg, st)
    && EntriesTrue(h, st) && QueueTrue(h, st)
    && (st.left ==> cfg.name in h.left)
    && (cfg.name in st.entries ==> st.entries[cfg.name].profile.vsn == cfg.vsn)
    && |cfg.vsn| == 6
  }

  /** Announcing something under an unused incarnation contradicts nothing announced before. */
  lemma IssueGrows(h: History, i: string, inc: u32, p: Profile)
    requires HistoryOk(h) && i in h.counter && h.counter[i] < inc
    requires (p.addr, p.port) == h.address[i] && |p.vsn| == 6
    ensures var h' := h.(counter := h.counter[i := inc], issued := Issue(h.issued, i, inc, p));
            HistoryOk(h') && Grows(h, h') && Claim(h', i, inc, p)
  {
    var h' := h.(counter := h.counter[i := inc], issued := Issue(h.issued, i, inc, p));
    IssuedOk(h, i, inc, p);
    hide HistoryOk;
    forall n, k, q | Claim(h, n, k, q) ensures Claim(h', n, k, q) {
      ClaimKept(h, i, inc, p, n, k, q);
    }
  }

  lemma IssuedOk(h: History, i: string, inc: u32, p: Profile)
    requires HistoryOk(h) && i in h.counter && h.counter[i] < inc
    requires (p.addr, p.port) == h.address[i] && |p.vsn| == 6
    ensures HistoryOk(h.(counter := h.counter[i := inc], issued := Issue(h.issued, i, inc, p)))
  {}

  lemma ClaimKept(h: History, i: string, inc: u32, p: Profile, n: string, k: u32, q: Profile)
    requires HistoryOk(h) && i in h.counter && h.counter[i] < inc && Claim(h, n, k, q)
    ensures Claim(h.(counter := h.counter[i := inc], issued := Issue(h.issued, i, inc, p)), n, k, q)
  {}

  /** An accusation at or below the counter is refuted with the very next incarnation. */
  lemma RefuteNext(counter: u32, accused: u32)
    requires accused <= counter < MAX_U32
    ensures RefuteInc(counter, accused) == counter + 1
  {}

  lemma RefuteSound(h: History, cfg: Config, st: Node, accused: u32)
    requires Sound(h, cfg, st) && cfg.name in st.entries && st.entries[cfg.name].status.Alive?
    requires accused <= st.counter < MAX_U32
    ensures var st' := Refute(cfg, st, accused);
            var h' := After(h, cfg.name, st, st');
            Grows(h, h') && Sound(h', cfg, st') && st'.counter == st.counter + 1
  {
    RefuteNext(st.counter, accused);
    hide RefuteInc, HistoryOk, Grows, EntriesTrue, QueueTrue;
    var i := cfg.name;
    var st' := Refute(cfg, st, accused);
    var h' := After(h, i, st, st');
    OwnEntryTrue(h, i, st);
    IssueGrows(h, i, st'.counter, st.entries[i].profile);
    TruthGrows(h, h', R.Proc(st, {}, 0));
    RefuteTrue(h', cfg, st, accused);
  }

  lemma OwnEntryTrue(h: History, i: string, st: Node)
    requires HistoryOk(h) && EntriesTrue(h, st) && i in st.entries && st.entries[i].status.Alive?
    ensures var p := st.entries[i].profile; i in h.address && (p.addr, p.port) == h.address[i] && |p.vsn| == 6
  {}

  /** An announcement that the history knows can be entered and queued. */
  lemma RefuteTrue(h: History, cfg: Config, st: Node, accused: u32)
    requires EntriesTrue(h, st) && QueueTrue(h, st) && cfg.name in st.entries && st.entries[cfg.name].status.Alive?
    requires var inc := RefuteInc(st.counter, accused);
             Known(h, cfg.name, inc) && Claim(h, cfg.name, inc, st.entries[cfg.name].profile)
    ensures var st' := Refute(cfg, st, accused); EntriesTrue(h, st') && QueueTrue(h, st')
  {}

  /** As long as the counter stays, so does the history. */
  lemma AfterSame(h: History, cfg: Config, st: Node, st': Node)
    requires Sound(h, cfg, st) && st'.counter == st.counter
    ensures After(h, cfg.name, st, st') == h && Grows(h, h)
  {}

  lemma ClaimAddress(h: History, n: string, inc: u32, p: Profile, e: Entry)
    requires HistoryOk(h) && Claim(h, n, inc, p) && EntryTrue(h, n, e)
    ensures SameAddress(e.profile, p)
  {}

  lemma ReviveSound(h: History, cfg: Config, env: Env, st: Node, a: Msg, e: Entry, st': Node)
    requires Sound(h, cfg, st) && a.AliveMsg? && MsgTrue(h, a) && MsgOk(a)
    requires st'.entries == st.entries[a.node := Revived(e, a, env.now)]
    requires st'.queued == st.queued + [Broadcast(NodeKey(a.node), a)]
    requires st'.left == st.left && st'.counter == st.counter
    requires a.node == cfg.name ==> a.profile.vsn == cfg.vsn
    ensures Sound(h, cfg, st')
  {
    assert |a.profile.vsn| == 6;
    assert a.profile.vsn[..6] == a.profile.vsn;
    assert Revived(e, a, env.now).profile == a.profile;
  }

  /** Gossip about oneself repeats an announcement, so it is never a reason to refute beyond the next incarnation. */
  lemma AliveSound(h: History, cfg: Config, env: Env, st: Node, a: Msg, bootstrap: bool)
    requires Sound(h, cfg, st) && a.AliveMsg? && MsgOk(a) && MsgTrue(h, a) && st.counter < MAX_U32
    requires bootstrap ==> a.node == cfg.name && a.profile.vsn == cfg.vsn
    ensures var st' := AliveNode(cfg, env, st, a, bootstrap);
            var h' := After(h, cfg.name, st, st');
            Grows(h, h') && Sound(h', cfg, st')
  {
    var st' := AliveNode(cfg, env, st, a, bootstrap);
    var i := cfg.name;
    if st'.counter == st.counter { AfterSame(h, cfg, st, st'); }
    hide Grows, HistoryOk;
    if Ignored(cfg, env, st, a) {
    } else if a.node !in st.entries {
      assert a.node != i;
      if env.ipAllowed(a.profile.addr) {
        assert st'.entries == st.entries[a.node := Revived(NewEntry(a.profile), a, env.now)];
        ReviveSound(h, cfg, env, st, a, NewEntry(a.profile), st');
      }
    } else {
      ClaimAddress(h, a.node, a.inc, a.profile, st.entries[a.node]);
      AcceptSound(h, cfg, env, st, a, bootstrap);
    }
  }

  lemma AcceptSound(h: History, cfg: Config, env: Env, st: Node, a: Msg, bootstrap: bool)
    requires Sound(h, cfg, st) && a.AliveMsg? && MsgOk(a) && MsgTrue(h, a) && st.counter < MAX_U32
    requires bootstrap ==> a.node == cfg.name && a.profile.vsn == cfg.vsn
    requires a.node in st.entries && (a.node == cfg.name ==> !st.left)
    ensures var st' := AcceptAlive(cfg, env, st, a, bootstrap, false);
            var h' := After(h, cfg.name, st, st');
            Grows(h, h') && Sound(h', cfg, st')
  {
    var st' := AcceptAlive(cfg, env, st, a, bootstrap, false);
    if st'.counter == st.counter { AfterSame(h, cfg, st, st'); }
    hide Grows, HistoryOk;
    if st' == st || st' == st.(timers := st.timers - {a.node}) {
    } else if !bootstrap && a.node == cfg.name {
      var st1 := st.(timers := st.timers - {a.node});
      assert Sound(h, cfg, st1);
      RefuteSound(h, cfg, st1, a.inc);
    } else {
      ReviveSound(h, cfg, env, st, a, st.entries[a.node], st');
    }
  }

  lemma SuspectSound(h: History, cfg: Config, env: Env, st: Node, s: Msg)
    requires Sound(h, cfg, st) && s.SuspectMsg? && MsgTrue(h, s) && st.counter < MAX_U32
    requires forall n :: n in st.timers ==> n in st.entries && st.entries[n].status.Suspect?
    ensures var st' := SuspectNode(cfg, env, st, s);
            var h' := After(h, cfg.name, st, st');
            Grows(h, h') && Sound(h', cfg, st')
  {
    hide Grows, HistoryOk;
    var st' := SuspectNode(cfg, env, st, s);
    var i := cfg.name;
    if st'.counter == st.counter { AfterSame(h, cfg, st, st'); }
    if s.node !in st.entries || s.inc < st.entries[s.node].inc {
    } else if s.node in st.timers || !st.entries[s.node].status.Alive? {
    } else if s.node == i {
      RefuteSound(h, cfg, st, s.inc);
    } else {
      assert EntryTrue(h, s.node, st.entries[s.node]);
    }
  }

  lemma DeadSound(h: History, cfg: Config, env: Env, st: Node, d: Msg)
    requires Sound(h, cfg, st) && d.DeadMsg? && MsgTrue(h, d) && st.counter < MAX_U32
    ensures var st' := DeadNode(cfg, env, st, d);
            var h' := After(h, cfg.name, st, st');
            Grows(h, h') && Sound(h', cfg, st')
  {
    hide Grows, HistoryOk;
    var st' := DeadNode(cfg, env, st, d);
    var i := cfg.name;
    if st'.counter == st.counter { AfterSame(h, cfg, st, st'); }
    if d.node !in st.entries || d.inc < st.entries[d.node].inc || st.entries[d.node].status.DeadOrLeft() {
    } else if d.node == i && !st.left {
      var st1 := st.(timers := st.timers - {d.node});
      assert Sound(h, cfg, st1);
      RefuteSound(h, cfg, st1, d.inc);
    } else {
      assert EntryTrue(h, d.node, st.entries[d.node]);
    }
  }

  lemma HandleSound(h: History, cfg: Config, env: Env, st: Node, m: Msg)
    requires Sound(h, cfg, st) && MsgOk(m) && MsgTrue(h, m) && st.counter < MAX_U32
    requires forall n :: n in st.timers ==> n in st.entries && st.entries[n].status.Suspect?
    ensures var st' := Handle(cfg, env, st, m);
            var h' := After(h, cfg.name, st, st');
            Grows(h, h') && Sound(h', cfg, st')
  {
    hide AliveNode, SuspectNode, DeadNode, Sound, Grows, After;
    match m
    case AliveMsg(_, _, _) => AliveSound(h, cfg, env, st, m, false);
    case SuspectMsg(_, _, _) => SuspectSound(h, cfg, env, st, m);
    case DeadMsg(_, _, _) => DeadSound(h, cfg, env, st, m);
  }

  // ---------------------------------------------------------------- one step

  /** After a step of member `i`, everything it holds, means to do or sends is true. */
  ghost predicate StepTrue(h: History, h': History, cfg: Config, p': R.Proc)
  {
    && Grows(h, h') && Sound(h', cfg, p'.node)
    && forall m :: m in p'.pending ==> MsgTrue(h', m)
  }

  ghost predicate Ready(h: History, cfg: Config, p: R.Proc)
  {
    && Sound(h, cfg, p.node) && R.Inv(cfg, p) && p.node.counter < MAX_U32 && cfg.protocol >= 2
    && (forall m :: m in p.pending ==> MsgTrue(h, m))
  }

  lemma MessageStepTrue(h: History, cfg: Config, p: R.Proc, step: R.Step)
    requires Ready(h, cfg, p) && R.Enabled(cfg, p, step) && cfg.name in h.issued
    requires step.Receive? || step.Merge? || step.Finish?
    requires step.Receive? ==> MsgTrue(h, step.m)
    requires step.Merge? ==> RecordTrue(h, step.r)
    ensures var p' := R.Next(cfg, p, step);
            StepTrue(h, Chronicle(h, cfg.name, p, step, p'), cfg, p')
  {
    hide AliveNode, Handle, Grows;
    var p' := R.Next(cfg, p, step);
    var h' := Chronicle(h, cfg.name, p, step, p');
    var m := R.Applied(cfg, step).value;
    AppliedTrue(h, cfg, p, step);
    LeftKept(cfg, step.env, p.node, m);
    if step.Finish? && m.AliveMsg? {
      AliveSound(h, cfg, step.env, p.node, m, true);
    } else {
      HandleSound(h, cfg, step.env, p.node, m);
    }
    assert h' == After(h, cfg.name, p.node, p'.node) by {
      if p'.node.left { assert h.left + {cfg.name} == h.left; }
    }
    PendingGrows(h, h', p.pending);
  }

  lemma PendingGrows(h: History, h': History, pending: set<Msg>)
    requires Grows(h, h') && forall m :: m in pending ==> MsgTrue(h, m)
    ensures forall m :: m in pending ==> MsgTrue(h', m)
  {}

  /** The message that a step applies is true; in these runs no port has to be filled in. */
  lemma AppliedTrue(h: History, cfg: Config, p: R.Proc, step: R.Step)
    requires Ready(h, cfg, p) && R.Enabled(cfg, p, step)
    requires step.Receive? || step.Merge? || step.Finish?
    requires step.Receive? ==> MsgTrue(h, step.m)
    requires step.Merge? ==> RecordTrue(h, step.r)
    ensures MsgTrue(h, R.Applied(cfg, step).value)
    ensures step.Finish? && step.m.AliveMsg? ==> step.m.node == cfg.name && step.m.profile.vsn == cfg.vsn
  {
    hide R.Good, Sound;
    if step.Receive? && step.m.AliveMsg? {
      assert HistoryOk(h) by { hide R.Inv; assert Sound(h, cfg, p.node); HistoryOfSound(h, cfg, p.node); }
      assert step.m.profile.port != 0;
    }
  }

  lemma HistoryOfSound(h: History, cfg: Config, st: Node)
    requires Sound(h, cfg, st)
    ensures HistoryOk(h)
  {}

  lemma LeftKept(cfg: Config, env: Env, st: Node, m: Msg)
    requires MsgOk(m)
    ensures Handle(cfg, env, st, m).left == st.left
    ensures m.AliveMsg? ==> AliveNode(cfg, env, st, m, true).left == st.left
  {}

  /** More history keeps a node sound, also when it takes an incarnation or decides to leave. */
  lemma SoundGrows(h: History, h': History, cfg: Config, st: Node, st': Node)
    requires Sound(h, cfg, st) && Grows(h, h') && HistoryOk(h')
    requires st' == st.(counter := st'.counter, left := st'.left) && (st.left ==> st'.left)
    requires cfg.name in h'.counter && h'.counter[cfg.name] == st'.counter && (st'.left ==> cfg.name in h'.left)
    ensures Sound(h', cfg, st')
  {
    hide HistoryOk;
    TruthGrows(h, h', R.Proc(st, {}, 0));
  }

  lemma ProbeStepTrue(h: History, cfg: Config, p: R.Proc, name: string)
    requires Ready(h, cfg, p) && R.Enabled(cfg, p, R.ProbeBegin(name)) && cfg.name in h.issued
    ensures var p' := R.Next(cfg, p, R.ProbeBegin(name));
            StepTrue(h, Chronicle(h, cfg.name, p, R.ProbeBegin(name), p'), cfg, p')
  {
    hide R.Inv;
    SameHistory(h, cfg, p.node);
    assert EntryTrue(h, name, p.node.entries[name]);
  }

  lemma SameHistory(h: History, cfg: Config, st: Node)
    requires Sound(h, cfg, st)
    ensures h.counter[cfg.name := st.counter] == h.counter
    ensures st.left ==> h.left + {cfg.name} == h.left
  {}

  lemma TimerStepTrue(h: History, cfg: Config, p: R.Proc, id: nat)
    requires Ready(h, cfg, p) && R.Enabled(cfg, p, R.TimerBegin(id)) && cfg.name in h.issued
    ensures var p' := R.Next(cfg, p, R.TimerBegin(id));
            StepTrue(h, Chronicle(h, cfg.name, p, R.TimerBegin(id), p'), cfg, p')
  {
    hide R.Inv;
    var p' := R.Next(cfg, p, R.TimerBegin(id));
    var h' := Chronicle(h, cfg.name, p, R.TimerBegin(id), p');
    var n := p.node.started[id].node;
    assert EntryTrue(h, n, p.node.entries[n]);
    assert n != cfg.name;
    SameHistory(h, cfg, p.node);
    assert h' == h.(expired := h.expired + {(n, p.node.entries[n].inc)});
    SoundGrows(h, h', cfg, p.node, p'.node);
    PendingGrows(h, h', p.pending);
    assert MsgTrue(h', CallbackMsg(cfg, p.node, p.node.started[id]));
  }

  lemma LeaveStepTrue(h: History, cfg: Config, p: R.Proc)
    requires Ready(h, cfg, p) && R.Enabled(cfg, p, R.LeaveBegin) && cfg.name in h.issued
    ensures var p' := R.Next(cfg, p, R.LeaveBegin);
            StepTrue(h, Chronicle(h, cfg.name, p, R.LeaveBegin, p'), cfg, p')
  {
    hide R.Inv;
    var p' := R.Next(cfg, p, R.LeaveBegin);
    var h' := Chronicle(h, cfg.name, p, R.LeaveBegin, p');
    assert EntryTrue(h, cfg.name, p.node.entries[cfg.name]);
    SameHistory(h, cfg, p.node);
    assert h' == h.(left := h.left + {cfg.name});
    SoundGrows(h, h', cfg, p.node, p'.node);
    PendingGrows(h, h', p.pending);
    assert MsgTrue(h', LeaveMsg(cfg, p.node));
  }

  lemma ResetStepTrue(h: History, cfg: Config, p: R.Proc, step: R.Step)
    requires Ready(h, cfg, p) && step.Reset? && R.Enabled(cfg, p, step) && cfg.name in h.issued
    ensures var p' := R.Next(cfg, p, step);
            StepTrue(h, Chronicle(h, cfg.name, p, step, p'), cfg, p')
  {
    hide R.Inv;
    SameHistory(h, cfg, p.node);
    var st := R.Next(cfg, p, step).node;
    assert R.SelfAlive(cfg, st);
  }

  /** UpdateNode takes the next incarnation and prepares to announce the new meta under it. */
  lemma UpdateHistory(h: History, cfg: Config, p: R.Proc, meta: Bytes)
    requires R.Enabled(cfg, p, R.UpdateBegin(meta)) && cfg.name in h.issued && p.node.counter < MAX_U32
    requires p.node.left ==> cfg.name in h.left
    requires p.node.entries[cfg.name].profile.vsn == cfg.vsn
    ensures var i, inc := cfg.name, p.node.counter + 1;
            var profile := p.node.entries[i].profile.(meta := meta);
            var p' := R.Next(cfg, p, R.UpdateBegin(meta));
            && p' == p.(node := p.node.(counter := inc), pending := p.pending + {AliveMsg(inc, i, profile)})
            && Chronicle(h, i, p, R.UpdateBegin(meta), p') ==
                 h.(counter := h.counter[i := inc], issued := Issue(h.issued, i, inc, profile))
  {}

  lemma UpdateStepTrue(h: History, cfg: Config, p: R.Proc, meta: Bytes)
    requires Ready(h, cfg, p) && R.Enabled(cfg, p, R.UpdateBegin(meta)) && cfg.name in h.issued
    ensures var p' := R.Next(cfg, p, R.UpdateBegin(meta));
            StepTrue(h, Chronicle(h, cfg.name, p, R.UpdateBegin(meta), p'), cfg, p')
  {
    hide R.Inv, Handle, AliveNode, Reap;
    UpdateHistory(h, cfg, p, meta);
    var i := cfg.name;
    var p' := R.Next(cfg, p, R.UpdateBegin(meta));
    var profile := p.node.entries[i].profile.(meta := meta);
    assert EntryTrue(h, i, p.node.entries[i]);
    hide R.Next, Chronicle, MsgTrue;
    var h' := Chronicle(h, i, p, R.UpdateBegin(meta), p');
    IssueGrows(h, i, p.node.counter + 1, profile);
    AnnouncementTrue(h', i, p.node.counter + 1, profile);
    UpdateTrue(h, h', cfg, p, p', AliveMsg(p.node.counter + 1, i, profile));
  }

  lemma AnnouncementTrue(h: History, n: string, inc: u32, p: Profile)
    requires HistoryOk(h) && Claim(h, n, inc, p)
    ensures MsgTrue(h, AliveMsg(inc, n, p))
  {}

  lemma UpdateTrue(h: History, h': History, cfg: Config, p: R.Proc, p': R.Proc, a: Msg)
    requires Ready(h, cfg, p) && Grows(h, h') && HistoryOk(h')
    requires p' == p.(node := p.node.(counter := p'.node.counter), pending := p.pending + {a})
    requires cfg.name in h'.counter && h'.counter[cfg.name] == p'.node.counter && MsgTrue(h', a)
    ensures StepTrue(h, h', cfg, p')
  {
    hide R.Inv, HistoryOk;
    SoundGrows(h, h', cfg, p.node, p'.node);
    PendingGrows(h, h', p.pending);
  }

  lemma StepIsTrue(h: History, cfg: Config, p: R.Proc, step: R.Step)
    requires Ready(h, cfg, p) && R.Enabled(cfg, p, step) && cfg.name in h.issued
    requires step.Receive? ==> MsgTrue(h, step.m)
    requires step.Merge? ==> RecordTrue(h, step.r)
    ensures var p' := R.Next(cfg, p, step);
            StepTrue(h, Chronicle(h, cfg.name, p, step, p'), cfg, p')
  {
    hide Ready, R.Enabled, R.Next, Chronicle, StepTrue;
    match step
    case ProbeBegin(name) => ProbeStepTrue(h, cfg, p, name);
    case TimerBegin(id) => TimerStepTrue(h, cfg, p, id);
    case UpdateBegin(meta) => UpdateStepTrue(h, cfg, p, meta);
    case LeaveBegin => LeaveStepTrue(h, cfg, p);
    case Reset(_, _) => ResetStepTrue(h, cfg, p, step);
    case _ => MessageStepTrue(h, cfg, p, step);
  }

  lemma MemberReady(c: System, i: string)
    requires Inv(c) && i in c.procs && c.procs[i].node.counter < MAX_U32
    ensures Ready(c.h, c.cfgs[i], c.procs[i])
  {
    assert MemberOk(c, i);
  }

  /** A step leaves the acting member in order. */
  lemma ActorOk(c: System, i: string, step: R.Step, c': System)
    requires MemberOk(c, i) && Next(c, Act(i, step), c') && i in c'.h.counter
    requires StepTrue(c.h, c'.h, c.cfgs[i], c'.procs[i]) && R.Inv(c.cfgs[i], c'.procs[i])
    ensures MemberOk(c', i)
  {}

  lemma OthersOk(c: System, c': System, j: string)
    requires MemberOk(c, j) && Grows(c.h, c'.h)
    requires j in c'.cfgs && j in c'.procs && c'.cfgs[j] == c.cfgs[j] && c'.procs[j] == c.procs[j]
    requires c'.h.counter[j] == c.h.counter[j]
    ensures MemberOk(c', j)
  {}

  lemma ActInv(c: System, i: string, step: R.Step, c': System)
    requires Inv(c) && Next(c, Act(i, step), c')
    ensures Inv(c')
  {
    hide R.Inv, R.Next, R.Enabled, StepTrue, MemberOk, Next, Sent, Hint;
    ActShape(c, i, step, c');
    ActTrue(c, i, step, c');
    hide Grows, HistoryOk, NetTrue, QueueTrue, ProcTrue;
    NetAfter(c.h, c'.h, c.cfgs[i], c.procs[i], step, c'.procs[i], c.net);
    ActMembers(c, i, step, c');
  }

  lemma ActMembers(c: System, i: string, step: R.Step, c': System)
    requires Inv(c) && Next(c, Act(i, step), c')
    ensures forall j :: j in c'.procs ==> MemberOk(c', j)
  {
    hide R.Inv, R.Next, R.Enabled, StepTrue, MemberOk, Next, HistoryOk, NetTrue, QueueTrue, ProcTrue;
    ActShape(c, i, step, c');
    ActTrue(c, i, step, c');
    hide Grows;
    forall j | j in c'.procs ensures MemberOk(c', j) {
      assert MemberOk(c, j);
      if j == i {
        ActorOk(c, i, step, c');
      } else {
        MemberParts(c, j);
        OthersOk(c, c', j);
      }
    }
  }

  lemma ActShape(c: System, i: string, step: R.Step, c': System)
    requires Next(c, Act(i, step), c')
    ensures i in c.cfgs && i in c.procs && c'.cfgs == c.cfgs && i in c'.procs && c'.procs == c.procs[i := c'.procs[i]]
    ensures c'.net == c.net + Sent(c'.procs[i].node) + Hint(c.cfgs[i], c.procs[i], step)
    ensures c'.h.counter == c.h.counter[i := c'.procs[i].node.counter]
  {}

  lemma NetAfter(h: History, h': History, cfg: Config, p: R.Proc, step: R.Step, p': R.Proc, net: set<Packet>)
    requires Grows(h, h') && NetTrue(h, net) && ProcTrue(h, p) && QueueTrue(h', p'.node)
    ensures NetTrue(h', net + Sent(p'.node) + Hint(cfg, p, step))
  {}

  lemma ActTrue(c: System, i: string, step: R.Step, c': System)
    requires Inv(c) && Next(c, Act(i, step), c')
    ensures i in c.cfgs && c.cfgs[i].name == i && ProcTrue(c.h, c.procs[i])
    ensures StepTrue(c.h, c'.h, c.cfgs[i], c'.procs[i]) && R.Inv(c.cfgs[i], c'.procs[i])
    ensures Grows(c.h, c'.h) && HistoryOk(c'.h) && QueueTrue(c'.h, c'.procs[i].node)
  {
    MemberReady(c, i);
    assert MemberOk(c, i);
    hide R.Inv, R.Next, R.Enabled, R.Boot, Ready, StepTrue, MemberOk, MsgTrue, RecordTrue;
    MemberParts(c, i);
    if step.Receive? { assert Gossip(step.m) in c.net; }
    if step.Merge? { assert State(step.r) in c.net; }
    StepIsTrue(c.h, c.cfgs[i], c.procs[i], step);
    R.StepInv(c.cfgs[i], c.procs[i], step);
    StepParts(c.h, c'.h, c.cfgs[i], c'.procs[i]);
  }

  lemma MemberParts(c: System, i: string)
    requires MemberOk(c, i)
    ensures i in c.cfgs && i in c.procs && i in c.h.counter
    ensures c.cfgs[i].name == i && R.Inv(c.cfgs[i], c.procs[i]) && ProcTrue(c.h, c.procs[i])
  {}

  lemma StepParts(h: History, h': History, cfg: Config, p: R.Proc)
    requires StepTrue(h, h', cfg, p)
    ensures Grows(h, h') && HistoryOk(h') && QueueTrue(h', p.node)
  {}

  /** What a member holds and sends right after setAlive. */
  lemma BootState(cfg: Config, env: Env, self: Contact, p: R.Proc)
    requires R.Boot(cfg, env, self, p)
    ensures var own := OwnProfile(cfg, self);
            && p.node.entries == map[cfg.name := Entry(own, 1, Alive, At(env.now))]
            && p.node.queued == [Broadcast(NodeKey(cfg.name), AliveMsg(1, cfg.name, own))]
            && p.node.counter == 1 && !p.node.left && p.pending == {}
  {
    var own := OwnProfile(cfg, self);
    var m := AliveMsg(1, cfg.name, own);
    assert p.node == AcceptAlive(cfg, env, Insert(env, EMPTY.(counter := 1), m), m, true, false);
    assert own.vsn[..6] == own.vsn;
  }

  lemma StartGrows(h: History, n: string, addr: (Bytes, u16), own: Profile)
    requires HistoryOk(h) && n !in h.counter && addr.1 != 0 && (own.addr, own.port) == addr && |own.vsn| == 6
    ensures var h' := h.(address := h.address[n := addr], counter := h.counter[n := 1],
                         issued := h.issued[n := map[1 := own]]);
            HistoryOk(h') && Grows(h, h') && Claim(h', n, 1, own)
  {}

  lemma StartInv(c: System, a: Action, c': System)
    requires Inv(c) && a.Start? && Next(c, a, c')
    ensures Inv(c')
  {
    hide R.Inv, R.Boot, R.Next, R.Enabled, MemberOk, Sent;
    var own := OwnProfile(a.cfg, a.self);
    StartHistory(c, a, c');
    hide HistoryOk, Claim, Grows, NetTrue;
    NetGrows(c.h, c'.h, c.net);
    StartNet(c'.h, a.cfg.name, own, a.p.node, c.net);
    StartMembers(c, a, c');
  }

  lemma StartHistory(c: System, a: Action, c': System)
    requires Inv(c) && a.Start? && Next(c, a, c')
    ensures var own := OwnProfile(a.cfg, a.self);
            && HistoryOk(c'.h) && Grows(c.h, c'.h) && Claim(c'.h, a.cfg.name, 1, own)
            && a.p.node.queued == [Broadcast(NodeKey(a.cfg.name), AliveMsg(1, a.cfg.name, own))]
  {
    BootState(a.cfg, a.env, a.self, a.p);
    assert |a.cfg.vsn| == 6;
    hide R.Inv, R.Next, R.Enabled, MemberOk;
    StartGrows(c.h, a.cfg.name, (a.self.addr, a.self.port), OwnProfile(a.cfg, a.self));
  }

  lemma StartNet(h: History, n: string, own: Profile, st: Node, net: set<Packet>)
    requires HistoryOk(h) && Claim(h, n, 1, own) && NetTrue(h, net)
    requires st.queued == [Broadcast(NodeKey(n), AliveMsg(1, n, own))]
    ensures NetTrue(h, net + Sent(st))
  {}

  lemma StartMembers(c: System, a: Action, c': System)
    requires Inv(c) && a.Start? && Next(c, a, c')
    ensures forall j :: j in c'.procs ==> MemberOk(c', j)
  {
    var n := a.cfg.name;
    StartHistory(c, a, c');
    R.BootInv(a.cfg, a.env, a.self, a.p);
    BootState(a.cfg, a.env, a.self, a.p);
    hide R.Inv, R.Boot, R.Next, R.Enabled, MemberOk, HistoryOk, Grows, NetTrue;
    StarterOk(c', n, a.env, OwnProfile(a.cfg, a.self));
    forall j | j in c'.procs ensures MemberOk(c', j) {
      if j != n {
        MemberParts(c, j);
        OthersOk(c, c', j);
      }
    }
  }

  lemma StarterOk(c: System, n: string, env: Env, own: Profile)
    requires n in c.cfgs && n in c.procs && n in c.h.counter && c.cfgs[n].name == n && c.cfgs[n].protocol >= 2
    requires R.Inv(c.cfgs[n], c.procs[n]) && c.h.counter[n] == 1 && own.vsn == c.cfgs[n].vsn
    requires Claim(c.h, n, 1, own) && n in c.h.address && c.h.address[n] == (own.addr, own.port)
    requires var p := c.procs[n];
             && p.node.entries == map[n := Entry(own, 1, Alive, At(env.now))]
             && p.node.queued == [Broadcast(NodeKey(n), AliveMsg(1, n, own))]
             && p.node.counter == 1 && !p.node.left && p.pending == {}
    ensures MemberOk(c, n)
  {}

  lemma PushInv(c: System, i: string, c': System)
    requires Inv(c) && Next(c, Push(i), c')
    ensures Inv(c')
  {
    hide R.Inv, HistoryOk, Claim, Known;
    assert MemberOk(c, i);
    forall k | k in Snapshot(c.procs[i].node) ensures k.State? && RecordTrue(c.h, k.r) {
      var n :| n in c.procs[i].node.entries && k == State(RecordOf(n, c.procs[i].node.entries[n]));
      assert EntryTrue(c.h, n, c.procs[i].node.entries[n]);
    }
    forall j | j in c'.procs ensures MemberOk(c', j) {
      assert MemberOk(c, j);
    }
  }

  lemma {:induction false} RunInv(states: seq<System>, actions: seq<Action>, k: nat)
    requires IsRun(states, actions) && k < |states|
    ensures Inv(states[k])
  {
    if k > 0 {
      RunInv(states, actions, k - 1);
      assert Next(states[k - 1], actions[k - 1], states[k - 1 + 1]);
      hide Inv, Next;
      match actions[k - 1]
      case Start(_, _, _, _) => StartInv(states[k - 1], actions[k - 1], states[k]);
      case Act(i, step) => ActInv(states[k - 1], i, step, states[k]);
      case Push(i) => PushInv(states[k - 1], i, states[k]);
    }
  }

  // ---------------------------------------------------------------- theorems

  /** The subject and incarnation of what travels. */
  function Subject(k: Packet): string { match k case Gossip(m) => m.node case State(r) => r.name }

  function IncOf(k: Packet): u32 { match k case Gossip(m) => m.inc case State(r) => r.inc }

  /** Nobody holds anything about a member above that member's own counter ... */
  lemma IncarnationOwnership(states: seq<System>, actions: seq<Action>, k: nat, i: string, x: string)
    requires IsRun(states, actions) && k < |states|
    requires i in states[k].procs && x in states[k].procs[i].node.entries
    ensures var c := states[k];
            x in c.procs && c.procs[i].node.entries[x].inc <= c.procs[x].node.counter
  {
    RunInv(states, actions, k);
    OwnedByMember(states[k], i, x);
  }

  /** ... or is about to act on it ... */
  lemma PendingOwnership(states: seq<System>, actions: seq<Action>, k: nat, i: string, m: Msg)
    requires IsRun(states, actions) && k < |states|
    requires i in states[k].procs && m in states[k].procs[i].pending
    ensures var c := states[k];
            m.node in c.procs && m.inc <= c.procs[m.node].node.counter
  {
    RunInv(states, actions, k);
    PendingOwned(states[k], i, m);
  }

  /** ... or sends it. Hence no refutation ever has to skip beyond the next incarnation. */
  lemma PacketOwnership(states: seq<System>, actions: seq<Action>, k: nat, q: Packet)
    requires IsRun(states, actions) && k < |states| && q in states[k].net
    ensures var c, x := states[k], Subject(q);
            && x in c.procs
            && IncOf(q) <= c.procs[x].node.counter
            && (c.procs[x].node.counter < MAX_U32 ==>
                  RefuteInc(c.procs[x].node.counter, IncOf(q)) == c.procs[x].node.counter + 1)
  {
    RunInv(states, actions, k);
    PacketOwned(states[k], q);
  }

  lemma MemberCounter(c: System, i: string)
    requires Inv(c) && i in c.procs
    ensures i in c.h.counter && c.h.counter[i] == c.procs[i].node.counter
  {}

  lemma OwnedByMember(c: System, i: string, x: string)
    requires Inv(c) && i in c.procs && x in c.procs[i].node.entries
    ensures x in c.procs && c.procs[i].node.entries[x].inc <= c.procs[x].node.counter
  {
    assert MemberOk(c, i);
    assert EntryTrue(c.h, x, c.procs[i].node.entries[x]);
    MemberCounter(c, x);
  }

  lemma PendingOwned(c: System, i: string, m: Msg)
    requires Inv(c) && i in c.procs && m in c.procs[i].pending
    ensures m.node in c.procs && m.inc <= c.procs[m.node].node.counter
  {
    assert MemberOk(c, i);
    assert MsgTrue(c.h, m);
    MemberCounter(c, m.node);
  }

  lemma PacketOwned(c: System, q: Packet)
    requires Inv(c) && q in c.net
    ensures Subject(q) in c.procs && IncOf(q) <= c.procs[Subject(q)].node.counter
  {}

  /** Two members that hold a third as alive at the same incarnation hold the same address, port,
      meta and versions for it. */
  lemma AgreementOfLiveViews(states: seq<System>, actions: seq<Action>, k: nat, i: string, j: string, x: string)
    requires IsRun(states, actions) && k < |states|
    requires i in states[k].procs && j in states[k].procs
    requires x in states[k].procs[i].node.entries && x in states[k].procs[j].node.entries
    requires var e, f := states[k].procs[i].node.entries[x], states[k].procs[j].node.entries[x];
             e.status.Alive? && f.status.Alive? && e.inc == f.inc
    ensures states[k].procs[i].node.entries[x].profile == states[k].procs[j].node.entries[x].profile
  {
    RunInv(states, actions, k);
    var c := states[k];
    assert MemberOk(c, i) && MemberOk(c, j);
    assert EntryTrue(c.h, x, c.procs[i].node.entries[x]);
    assert EntryTrue(c.h, x, c.procs[j].node.entries[x]);
  }

  /** What a peer's latest announcement does, when it is neither ignored nor turned away. */
  lemma NewsTaken(cfg: Config, env: Env, st: Node, a: Msg)
    requires a.AliveMsg? && MsgOk(a) && |a.profile.vsn| == 6 && a.inc >= 1 && a.node != cfg.name
    requires !Ignored(cfg, env, st, a)
    requires if a.node in st.entries then
               SameAddress(st.entries[a.node].profile, a.profile) && st.entries[a.node].inc <= a.inc
             else env.ipAllowed(a.profile.addr)
    ensures var st' := AliveNode(cfg, env, st, a, false);
            && a.node in st'.entries && st'.entries[a.node].inc == a.inc
            && (if a.node in st.entries && st.entries[a.node].inc == a.inc then st' == st
                else st'.entries[a.node].status.Alive? && st'.entries[a.node].profile == a.profile)
  {
    assert a.profile.vsn[..6] == a.profile.vsn;
  }

  lemma NewsFits(c: System, i: string, m: Msg)
    requires Inv(c) && i in c.procs && Gossip(m) in c.net && m.AliveMsg?
    ensures m.node in c.procs && 1 <= m.inc <= c.procs[m.node].node.counter
    ensures i in c.cfgs && c.cfgs[i].name == i
    ensures MsgOk(m) && |m.profile.vsn| == 6 && WithPort(c.cfgs[i], m.profile) == m.profile
    ensures m.node in c.procs[i].node.entries ==> SameAddress(c.procs[i].node.entries[m.node].profile, m.profile)
  {
    assert MemberOk(c, i) && MsgTrue(c.h, m);
    MemberCounter(c, m.node);
  }

  lemma ReceiveIs(states: seq<System>, actions: seq<Action>, k: nat, i: string, env: Env, m: Msg)
    requires IsRun(states, actions) && k < |actions| && actions[k] == Act(i, R.Receive(env, m)) && m.AliveMsg?
    ensures |states| == |actions| + 1
    ensures var c, c' := states[k], states[k + 1];
            && i in c.procs && i in c.cfgs && i in c'.procs && Gossip(m) in c.net && MsgOk(m)
            && var a := m.(profile := WithPort(c.cfgs[i], m.profile));
            && c'.procs == c.procs[i := c'.procs[i]]
            && c'.procs[i].node == AliveNode(c.cfgs[i], env, c.procs[i].node, a, false)
  {
    assert Next(states[k], actions[k], states[k + 1]);
  }

  /** News arrives: a member that receives a peer's announcement at the peer's own counter, and neither
      ignores it nor turns its address away, then holds the peer at exactly that incarnation, as alive
      if it held it lower or not at all; and as alive only with what was announced. */
  lemma NewsArrives(states: seq<System>, actions: seq<Action>, k: nat, i: string, env: Env, m: Msg)
    requires IsRun(states, actions) && k < |actions| && actions[k] == Act(i, R.Receive(env, m))
    requires m.AliveMsg? && m.node != i && m.node in states[k].procs
    requires m.inc == states[k].procs[m.node].node.counter
    requires i in states[k].cfgs && i in states[k].procs && !Ignored(states[k].cfgs[i], env, states[k].procs[i].node, m)
    requires m.node !in states[k].procs[i].node.entries ==> env.ipAllowed(m.profile.addr)
    ensures var st, st' := states[k].procs[i].node, states[k + 1].procs[i].node;
            && m.node in st'.entries && st'.entries[m.node].inc == m.inc == states[k + 1].procs[m.node].node.counter
            && (m.node !in st.entries || st.entries[m.node].inc < m.inc ==> st'.entries[m.node].status.Alive?)
            && (st'.entries[m.node].status.Alive? ==> st'.entries[m.node].profile == m.profile)
  {
    hide AliveNode, Ignored, Inv, WithPort, IsRun;
    ReceiveIs(states, actions, k, i, env, m);
    var c := states[k];
    RunInv(states, actions, k);
    NewsFits(c, i, m);
    if m.node in c.procs[i].node.entries {
      OwnedByMember(c, i, m.node);
      AliveNews(c, i, m);
    }
    NewsTaken(c.cfgs[i], env, c.procs[i].node, m);
  }

  /** An entry that is alive at an announced incarnation is what was announced. */
  lemma AliveNews(c: System, i: string, m: Msg)
    requires Inv(c) && i in c.procs && Gossip(m) in c.net && m.AliveMsg? && m.node in c.procs[i].node.entries
    ensures var e := c.procs[i].node.entries[m.node];
            e.status.Alive? && e.inc == m.inc ==> e.profile == m.profile
  {
    assert MemberOk(c, i) && MsgTrue(c.h, m);
    assert EntryTrue(c.h, m.node, c.procs[i].node.entries[m.node]);
  }

  /** Member `x` called Leave before the `k`-th state. */
  ghost predicate CalledLeave(actions: seq<Action>, k: nat, x: string)
    requires k <= |actions|
  {
    exists a :: 0 <= a < k && actions[a] == Act(x, R.LeaveBegin)
  }

  /** Before the `k`-th state, a suspicion timer about `x` expired at some member that held `x`
      as suspect at incarnation `inc`. */
  ghost predicate TimerExpired(states: seq<System>, actions: seq<Action>, k: nat, x: string, inc: u32)
    requires k <= |actions| && |states| == |actions| + 1
  {
    exists a, i, id :: 0 <= a < k && actions[a] == Act(i, R.TimerBegin(id)) && ExpiresAt(states[a], i, id, x, inc)
  }

  ghost predicate ExpiresAt(c: System, i: string, id: nat, x: string, inc: u32)
  {
    && i in c.procs && id < |c.procs[i].node.started|
    && c.procs[i].node.started[id].node == x
    && CallbackHolds(c.procs[i].node, c.procs[i].node.started[id])
    && c.procs[i].node.entries[x].inc == inc
  }

  lemma {:induction false} LeaveExplained(states: seq<System>, actions: seq<Action>, k: nat, x: string)
    requires IsRun(states, actions) && k < |states| && x in states[k].h.left
    ensures CalledLeave(actions, k, x)
  {
    if k > 0 {
      var c, a := states[k - 1], actions[k - 1];
      assert Next(c, a, states[k - 1 + 1]);
      if x in c.h.left {
        LeaveExplained(states, actions, k - 1, x);
      } else {
        RunInv(states, actions, k - 1);
        forall i | i in c.procs && c.procs[i].node.left ensures i in c.h.left { assert MemberOk(c, i); }
        LeftMeansLeave(c, a, states[k], x);
        assert actions[k - 1] == Act(x, R.LeaveBegin);
      }
    }
  }

  lemma LeftMeansLeave(c: System, a: Action, c': System, x: string)
    requires Next(c, a, c') && x !in c.h.left && x in c'.h.left
    requires forall i :: i in c.procs && c.procs[i].node.left ==> i in c.h.left
    ensures a == Act(x, R.LeaveBegin)
  {
    LeftOnlyByLeave(c.cfgs[x], c.procs[x], a.step);
  }

  lemma {:induction false} ExpiryExplained(states: seq<System>, actions: seq<Action>, k: nat, x: string, inc: u32)
    requires IsRun(states, actions) && k < |states| && (x, inc) in states[k].h.expired
    ensures TimerExpired(states, actions, k, x, inc)
  {
    if k > 0 {
      var c, a := states[k - 1], actions[k - 1];
      assert Next(c, a, states[k - 1 + 1]);
      if (x, inc) in c.h.expired {
        ExpiryExplained(states, actions, k - 1, x, inc);
      } else {
        ExpiryMeansTimer(c, a, states[k], x, inc);
        assert actions[k - 1] == Act(a.i, R.TimerBegin(a.step.id));
      }
    }
  }

  lemma ExpiryMeansTimer(c: System, a: Action, c': System, x: string, inc: u32)
    requires Next(c, a, c') && (x, inc) !in c.h.expired && (x, inc) in c'.h.expired
    ensures a.Act? && a.step.TimerBegin? && ExpiresAt(c, a.i, a.step.id, x, inc)
  {}

  lemma LeftOnlyByLeave(cfg: Config, p: R.Proc, step: R.Step)
    requires R.Enabled(cfg, p, step) && !p.node.left && R.Next(cfg, p, step).node.left
    ensures step == R.LeaveBegin
  {
    hide AliveNode, Handle;
    if step.Receive? || step.Merge? || step.Finish? {
      LeftKept(cfg, step.env, p.node, R.Applied(cfg, step).value);
    }
  }

  /** Bad news has a cause. Whoever holds `x` as left, `x` called Leave; whoever holds `x` as dead
      at some incarnation, a suspicion timer expired for `x` at that incarnation somewhere. */
  lemma ProvenanceOfBadNews(states: seq<System>, actions: seq<Action>, k: nat, i: string, x: string)
    requires IsRun(states, actions) && k < |states|
    requires i in states[k].procs && x in states[k].procs[i].node.entries
    ensures var e := states[k].procs[i].node.entries[x];
            && (e.status.Left? ==> CalledLeave(actions, k, x))
            && (e.status.Dead? ==> TimerExpired(states, actions, k, x, e.inc))
  {
    RunInv(states, actions, k);
    var e := states[k].procs[i].node.entries[x];
    assert EntryTrue(states[k].h, x, e) by { assert MemberOk(states[k], i); }
    if e.status.Left? { LeaveExplained(states, actions, k, x); }
    if e.status.Dead? { ExpiryExplained(states, actions, k, x, e.inc); }
  }
}
