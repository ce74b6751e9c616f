/** UpdateNode and Leave prepare a message and apply it later. When that still has its effect, and
    when something that came in between makes it late. */
module Prepared {
  import opened Base
  import opened Membership
  import opened NodeRun
  import opened Progress

  // ---------------------------------------------------------------- UpdateNode

  /** Nobody has left or been turned away, and the entry has not been raised above the announcement. */
  predicate Timely(cfg: Config, env: Env, st: Node, a: Msg)
    requires a.AliveMsg?
  {
    && !st.left && (cfg.aliveDelegate ==> env.notifyAlive(a.node, a.profile))
    && cfg.name in st.entries && st.entries[cfg.name].inc <= a.inc
  }

  lemma AnnounceExactly(cfg: Config, env: Env, st: Node, a: Msg)
    requires ConfigOk(cfg) && SelfAlive(cfg, st) && cfg.name !in st.timers
    requires a.AliveMsg? && a.node == cfg.name && a.profile.vsn == cfg.vsn
    requires cfg.name in st.entries ==> SameAddress(st.entries[cfg.name].profile, a.profile)
    ensures var st' := AliveNode(cfg, env, st, a, true);
            if Timely(cfg, env, st, a) then
              && st'.entries == st.entries[cfg.name := st.entries[cfg.name].(profile := a.profile, inc := a.inc)]
              && st'.queued == st.queued + [Broadcast(NodeKey(cfg.name), a)]
            else st' == st
  {
    assert st.timers - {cfg.name} == st.timers;
    assert a.profile.vsn[..6] == a.profile.vsn;
  }

  /** In every run, a prepared update changes the entry and is announced exactly if it is timely;
      otherwise it changes nothing. */
  lemma UpdateTakesEffect(cfg: Config, states: seq<Proc>, steps: seq<Step>, k: nat, env: Env, a: Msg)
    requires IsRun(cfg, states, steps) && k < |steps| && steps[k] == Finish(env, a) && a.AliveMsg?
    ensures var st, st' := states[k].node, states[k + 1].node;
            if Timely(cfg, env, st, a) then
              && st'.entries == st.entries[cfg.name := st.entries[cfg.name].(profile := a.profile, inc := a.inc)]
              && st'.queued == st.queued + [Broadcast(NodeKey(cfg.name), a)]
            else st' == st
  {
    RunInv(cfg, states, steps, k);
    assert states[k + 1] == Next(cfg, states[k], steps[k]);
    hide AliveNode, Timely, IsRun;
    AnnounceExactly(cfg, env, states[k].node, a);
  }

  /** A suspicion about the local node, between the halves of UpdateNode, raises the entry above
      the prepared announcement: the new meta is never announced. */
  lemma UpdateLost(cfg: Config, p: Proc, meta: Bytes, env: Env, s: Msg, env': Env)
    requires Inv(cfg, p) && !p.node.left && p.node.counter + 2 <= MAX_U32
    requires s.SuspectMsg? && s.node == cfg.name && p.node.entries[cfg.name].inc <= s.inc < MAX_U32
    requires p.clock < env.now < env'.now
    ensures var p1 := Next(cfg, p, UpdateBegin(meta));
            var p2 := Next(cfg, p1, Receive(env, s));
            var a := UpdateMsg(cfg, p.node, meta);
            Enabled(cfg, p2, Finish(env', a)) && Next(cfg, p2, Finish(env', a)).node == p2.node
            && p2.node.entries[cfg.name].profile == p.node.entries[cfg.name].profile
  {
    var p1 := Next(cfg, p, UpdateBegin(meta));
    RefutationBeats(p1.node.counter, s.inc);
  }

  // ---------------------------------------------------------------- Leave

  lemma LeftStays(cfg: Config, p: Proc, step: Step)
    requires Enabled(cfg, p, step)
    ensures p.node.left ==> Next(cfg, p, step).node.left
  {}

  ghost predicate FarewellsOk(cfg: Config, p: Proc)
  {
    forall m :: m in p.pending && m.DeadMsg? && m.node == cfg.name ==> p.node.left
  }

  /** A death report of our own about ourselves is the farewell of Leave. */
  lemma {:induction false} FarewellMeansLeft(cfg: Config, states: seq<Proc>, steps: seq<Step>, k: nat)
    requires IsRun(cfg, states, steps) && k < |states|
    ensures FarewellsOk(cfg, states[k])
  {
    if k > 0 {
      FarewellMeansLeft(cfg, states, steps, k - 1);
      RunInv(cfg, states, steps, k - 1);
      assert states[k - 1 + 1] == Next(cfg, states[k - 1], steps[k - 1]);
      LeftStays(cfg, states[k - 1], steps[k - 1]);
      hide Handle, AliveNode;
    }
  }

  lemma BuryExactly(cfg: Config, env: Env, st: Node, d: Msg)
    requires SelfAlive(cfg, st) && cfg.name !in st.timers && st.left
    requires d.DeadMsg? && d.node == d.from == cfg.name
    ensures var st' := Handle(cfg, env, st, d);
            if cfg.name in st.entries && st.entries[cfg.name].inc <= d.inc && st.entries[cfg.name].status.Alive? then
              var e' := st.entries[cfg.name].(inc := d.inc, status := Left, since := At(env.now));
              && st'.entries == st.entries[cfg.name := e']
              && st'.queued == st.queued + [Broadcast(NodeKey(cfg.name), d)]
              && st'.events == st.events + [Leave(cfg.name)]
            else st' == st
  {
    assert st.timers - {cfg.name} == st.timers;
  }

  /** In every run, a prepared farewell marks the local entry as left and is announced exactly if
      the entry is alive and has not been raised above it; otherwise it changes nothing. */
  lemma FarewellTakesEffect(cfg: Config, states: seq<Proc>, steps: seq<Step>, k: nat, env: Env, d: Msg)
    requires IsRun(cfg, states, steps) && k < |steps| && steps[k] == Finish(env, d)
    requires d.DeadMsg? && d.node == d.from == cfg.name
    ensures var st, st' := states[k].node, states[k + 1].node;
            if cfg.name in st.entries && st.entries[cfg.name].inc <= d.inc && st.entries[cfg.name].status.Alive? then
              var e' := st.entries[cfg.name].(inc := d.inc, status := Left, since := At(env.now));
              && st'.entries == st.entries[cfg.name := e']
              && st'.queued == st.queued + [Broadcast(NodeKey(cfg.name), d)]
              && st'.events == st.events + [Leave(cfg.name)]
            else st' == st
  {
    RunInv(cfg, states, steps, k);
    FarewellMeansLeft(cfg, states, steps, k);
    assert states[k + 1] == Next(cfg, states[k], steps[k]);
    hide Handle, IsRun;
    BuryExactly(cfg, env, states[k].node, d);
  }

  /** A suspicion between the halves of Leave raises the entry above the farewell: the node has left,
      but stays alive in its own eyes and never says so. */
  lemma FarewellLost(cfg: Config, p: Proc, env: Env, s: Msg, env': Env)
    requires Inv(cfg, p) && !p.node.left
    requires s.SuspectMsg? && s.node == cfg.name && p.node.entries[cfg.name].inc <= s.inc < MAX_U32
    requires p.clock < env.now < env'.now
    ensures var p1 := Next(cfg, p, LeaveBegin);
            var p2 := Next(cfg, p1, Receive(env, s));
            var d := LeaveMsg(cfg, p.node);
            Enabled(cfg, p2, Finish(env', d)) && Next(cfg, p2, Finish(env', d)).node == p2.node
            && p2.node.left && p2.node.entries[cfg.name].status.Alive?
  {
    RefutationBeats(p.node.counter, s.inc);
  }
}
