/** One member as the code keeps it (state.go, memberlist.go): nodeState objects shared by a list
    and a name index, and a map of suspicion timers. Every method is proved against the function
    of Membership that the run theorems are about. */
module MemberlistObject {
  import opened Base
  import opened Suspicion
  import opened Membership
  import Prober

  class NodeState {
    const name: string
    var profile: Profile
    var inc: u32
    var status: Status
    var since: Stamp

    function View(): Entry
      reads this
    {
      Entry(profile, inc, status, since)
    }

    constructor (name: string, profile: Profile)
      ensures this.name == name && View() == Entry(profile, 0, Dead, Never)
    {
      this.name, this.profile, inc, status, since := name, profile, 0, Dead, Never;
    }
  }

  // ---------------------------------------------------------------- lists of nodes

  function Names(nodes: seq<NodeState>): (r: seq<string>)
    ensures |r| == |nodes| && forall i :: 0 <= i < |nodes| ==> r[i] == nodes[i].name
  {
    if nodes == [] then [] else Names(nodes[..|nodes| - 1]) + [nodes[|nodes| - 1].name]
  }

  /** The list and the index hold the same nodes, each once and under its name. */
  ghost predicate Linked(nodes: seq<NodeState>, nodeMap: map<string, NodeState>)
  {
    && (forall n :: n in nodeMap ==> nodeMap[n].name == n && nodeMap[n] in nodes)
    && (forall x :: x in nodes ==> x.name in nodeMap && nodeMap[x.name] == x)
    && Distinct(nodes)
  }

  /** Every timer is kept under the name of its node. */
  ghost predicate TimersNamed(timers: map<string, SuspicionTimer>)
  {
    forall n :: n in timers ==> timers[n].node == n
  }

  lemma TimersNamedAdd(timers: map<string, SuspicionTimer>, t: SuspicionTimer)
    requires TimersNamed(timers)
    ensures TimersNamed(timers[t.node := t])
  {}

  lemma LinkedInsert(nodes: seq<NodeState>, nodeMap: map<string, NodeState>, x: NodeState, random: nat)
    requires Linked(nodes, nodeMap) && x.name !in nodeMap
    ensures Linked(InsertAt(nodes, x, random), nodeMap[x.name := x])
  {
    InsertDistinct(nodes, x, random);
    hide InsertAt;
  }

  lemma NamesInsert(nodes: seq<NodeState>, x: NodeState, random: nat)
    ensures Names(InsertAt(nodes, x, random)) == InsertAt(Names(nodes), x.name, random)
  {}

  lemma InsertDistinct(nodes: seq<NodeState>, x: NodeState, random: nat)
    requires Distinct(nodes) && x !in nodes
    ensures Distinct(InsertAt(nodes, x, random))
    ensures forall y :: y in InsertAt(nodes, x, random) <==> y in nodes || y == x
  {
    DistinctAppend(nodes, x);
    DistinctSwap(nodes + [x], RandomOffset(random, |nodes|), |nodes|);
    assert forall y :: y in InsertAt(nodes, x, random) <==> y in Elements(InsertAt(nodes, x, random));
    assert forall y :: y in nodes + [x] <==> y in Elements(nodes + [x]);
  }

  class Memberlist {
    const cfg: Config
    var nodes: seq<NodeState>
    var nodeMap: map<string, NodeState>
    var nodeTimers: map<string, SuspicionTimer>
    var numNodes: nat
    var incarnation: u32
    var leave: bool
    var probeIndex: nat
    var health: int

    /** The timeout functions of all suspicions ever started, the broadcasts queued and the
        delegate's events so far. */
    var started: seq<Callback>
    var broadcasts: seq<Broadcast>
    var events: seq<Event>

    /** The list and the index agree, and timers are kept under the names of their nodes. */
    ghost predicate Valid()
      reads this`nodes, this`nodeMap, this`nodeTimers, this`numNodes
    {
      Linked(nodes, nodeMap) && numNodes == |nodes| && TimersNamed(nodeTimers)
    }

    ghost function Entries(): map<string, Entry>
      reads this`nodeMap, nodeMap.Values
    {
      map n | n in nodeMap :: nodeMap[n].View()
    }

    ghost function Timers(): map<string, Pending>
      reads this`nodeTimers, nodeTimers.Values
    {
      map n | n in nodeTimers :: Pending(nodeTimers[n].id, nodeTimers[n].View())
    }

    ghost function View(): Node
      reads this`nodes, this`nodeMap, this`nodeTimers, nodeMap.Values, nodeTimers.Values
      reads this`started, this`incarnation, this`leave, this`health, this`broadcasts, this`events
    {
      Node(Entries(), Names(nodes), Timers(), started, incarnation, leave, health, broadcasts, events)
    }

    constructor (cfg: Config)
      ensures Valid() && View() == EMPTY && this.cfg == cfg && nodeMap == map[] && nodeTimers == map[]
    {
      this.cfg := cfg;
      nodes, nodeMap, nodeTimers, numNodes := [], map[], map[], 0;
      incarnation, leave, probeIndex, health := 0, false, 0, 0;
      started, broadcasts, events := [], [], [];
    }

    lemma EntryIs(n: string)
      requires Valid()
      ensures n in nodeMap <==> n in View().entries
      ensures n in nodeMap ==> View().entries[n] == nodeMap[n].View() && nodeMap[n].name == n
    {}

    lemma FieldsAre()
      requires Valid()
      ensures View().left == leave && |View().order| == numNodes && View().counter == incarnation
    {}

    /** Changing one node changes its entry and no other. */
    twostate lemma EntryChanged(x: NodeState)
      requires Valid() && nodeMap == old(nodeMap)
      requires x.name in nodeMap && nodeMap[x.name] == x
      requires forall n :: n in nodeMap && n != x.name ==> nodeMap[n].View() == old(nodeMap[n].View())
      ensures Entries() == old(Entries())[x.name := x.View()]
    {}

    twostate lemma TimersGone(gone: set<string>)
      requires nodeTimers == old(nodeTimers) - gone
      requires forall n :: n in nodeTimers ==> nodeTimers[n].View() == old(nodeTimers[n].View())
      ensures Timers() == old(Timers()) - gone
    {}

    /** The view after changes to one node and to the plain fields, and the end of some timers. */
    twostate lemma NodeChanged(x: NodeState, new gone: set<string>)
      requires Valid() && nodes == old(nodes) && nodeMap == old(nodeMap) && nodeTimers == old(nodeTimers) - gone
      requires x.name in nodeMap && nodeMap[x.name] == x
      requires forall y: NodeState :: y in nodeMap.Values && y != x ==> y.View() == old(y.View())
      requires forall n :: n in nodeTimers ==> nodeTimers[n].View() == old(nodeTimers[n].View())
      ensures var v := old(View());
              View() == Node(v.entries[x.name := x.View()], v.order, v.timers - gone, started, incarnation, leave,
                             health, broadcasts, events)
    {
      hide Entries, Timers;
      forall n | n in nodeMap && n != x.name ensures nodeMap[n].View() == old(nodeMap[n].View()) {
        assert nodeMap[n] in nodeMap.Values && nodeMap[n] != x;
      }
      EntryChanged(x);
      TimersGone(gone);
    }

    // -------------------------------------------------------------- refutation

    method Refute(me: NodeState, accused: u32)
      requires Valid() && cfg.name in nodeMap && nodeMap[cfg.name] == me
      modifies this`incarnation, this`health, this`broadcasts, me
      ensures Valid() && View() == Membership.Refute(cfg, old(View()), accused)
      ensures me.profile == old(me.profile)
    {
      hide Valid, Entries, Timers;
      EntryIs(cfg.name);
      incarnation := Add32(incarnation, 1);
      var inc := incarnation;
      if accused >= inc {
        incarnation := Add32(incarnation, Add32(accused - inc, 1));
        inc := incarnation;
      }
      me.inc := inc;
      health := Clamp(health + 1, cfg.healthMax);
      broadcasts := broadcasts + [Broadcast(AddrKey(me.profile.addr), AliveMsg(inc, me.name, me.profile))];
      NodeChanged(me, {});
    }

    // -------------------------------------------------------------- alive

    /** Forget the suspicion timer of a node; it is not stopped. */
    method ClearTimer(name: string)
      requires Valid()
      modifies this`nodeTimers
      ensures Valid() && nodeTimers == old(nodeTimers) - {name}
      ensures View() == old(View()).(timers := old(View()).timers - {name})
    {
      hide Linked, Entries, Timers;
      nodeTimers := nodeTimers - {name};
      TimersGone({name});
    }

    /** Tell the delegate that a node has joined or changed. */
    method NotifyChange(state: NodeState, oldStatus: Status, oldMeta: Bytes, ghost was: Entry)
      requires was.status == oldStatus && was.profile.meta == oldMeta
      modifies this`events
      ensures events == Notify(old(events), state.name, was, state.profile)
    {
      if oldStatus.DeadOrLeft() {
        events := events + [Join(state.name, ContactOf(state.profile))];
      } else if oldMeta != state.profile.meta {
        events := events + [Update(state.name, ContactOf(state.profile))];
      }
    }

    /** An alive message about ourselves that we did not send: refute it unless it says what we say. */
    method AnswerAlive(state: NodeState, a: Msg)
      requires Valid() && a.AliveMsg? && a.node in nodeMap && nodeMap[a.node] == state && a.node == cfg.name
      modifies this`incarnation, this`health, this`broadcasts, this`events, state
      ensures Valid()
      ensures var v, e := old(View()), old(state.View());
              View() == if a.inc == e.inc && a.profile.meta == e.profile.meta && a.profile.vsn == e.profile.vsn then v
                        else var r := Membership.Refute(cfg, v, a.inc);
                             r.(events := Notify(r.events, a.node, e, e.profile))
    {
      hide Valid, Entries, Timers, Notify;
      ghost var e := state.View();
      EntryIs(a.node);
      var oldStatus, oldMeta := state.status, state.profile.meta;
      if a.inc == state.inc && a.profile.meta == state.profile.meta && a.profile.vsn == state.profile.vsn { return; }
      Refute(state, a.inc);
      NotifyChange(state, oldStatus, oldMeta, e);
    }

    /** The node is alive again, or says something new about itself. */
    method TakeAlive(state: NodeState, a: Msg, env: Env)
      requires Valid() && a.AliveMsg? && MsgOk(a) && a.node in nodeMap && nodeMap[a.node] == state
      modifies this`broadcasts, this`events, state
      ensures Valid()
      ensures var v, e := old(View()), old(state.View());
              var e' := Revived(e, a, env.now);
              View() == v.(entries := v.entries[a.node := e'], queued := v.queued + [Broadcast(NodeKey(a.node), a)],
                           events := Notify(v.events, a.node, e, e'.profile))
    {
      hide Valid, Entries, Timers, Notify;
      EntryIs(a.node);
      ghost var e := state.View();
      var oldStatus, oldMeta := state.status, state.profile.meta;
      broadcasts := broadcasts + [Broadcast(NodeKey(a.node), a)];
      var vsn := state.profile.vsn;
      if |a.profile.vsn| > 0 { vsn := a.profile.vsn[..6]; }
      state.inc, state.profile := a.inc, a.profile.(vsn := vsn);
      if !state.status.Alive? { state.status, state.since := Alive, At(env.now); }
      NotifyChange(state, oldStatus, oldMeta, e);
      NodeChanged(state, {});
    }

    /** aliveNode from the incarnation checks on. */
    method AcceptAlive(state: NodeState, a: Msg, bootstrap: bool, updatesNode: bool, env: Env)
      requires Valid() && a.AliveMsg? && MsgOk(a) && a.node in nodeMap && nodeMap[a.node] == state
      modifies this`nodeTimers, this`incarnation, this`health, this`broadcasts, this`events, state
      ensures Valid() && nodeTimers.Values <= old(nodeTimers.Values)
      ensures View() == Membership.AcceptAlive(cfg, env, old(View()), a, bootstrap, updatesNode)
    {
      hide Valid, View;
      EntryIs(a.node);
      var isLocalNode := state.name == cfg.name;
      if a.inc <= state.inc && !isLocalNode && !updatesNode { return; }
      if a.inc < state.inc && isLocalNode { return; }
      ClearTimer(a.node);
      if !bootstrap && isLocalNode {
        AnswerAlive(state, a);
      } else {
        TakeAlive(state, a, env);
      }
    }

    /** Store a node that was never seen before, at a random place of the list. */
    method AddNode(a: Msg, env: Env) returns (state: NodeState)
      requires Valid() && a.AliveMsg? && a.node !in nodeMap
      modifies this`nodes, this`nodeMap, this`numNodes
      ensures Valid() && fresh(state) && nodeMap == old(nodeMap)[a.node := state]
      ensures View() == Insert(env, old(View()), a)
    {
      hide Valid, View, InsertAt;
      var vsn := [0, 0, 0, 0, 0, 0];
      if |a.profile.vsn| > 5 { vsn := a.profile.vsn[..6]; }
      state := new NodeState(a.node, a.profile.(vsn := vsn));
      assert state.View() == NewEntry(a.profile);
      StoreNode(state, env.random(a.node));
    }

    method StoreNode(state: NodeState, random: nat)
      requires Valid() && state.name !in nodeMap
      modifies this`nodes, this`nodeMap, this`numNodes
      ensures Valid() && nodeMap == old(nodeMap)[state.name := state]
      ensures var v := old(View());
              View() == v.(entries := v.entries[state.name := state.View()],
                           order := InsertAt(v.order, state.name, random))
    {
      hide Linked, TimersNamed, Entries, Timers;
      nodeMap := nodeMap[state.name := state];
      var n := |nodes|;
      var offset := RandomOffset(random, n);
      nodes := nodes + [state];
      nodes := nodes[offset := nodes[n]][n := nodes[offset]];
      numNodes := numNodes + 1;
      assert nodes == InsertAt(old(nodes), state, random);
      LinkedInsert(old(nodes), old(nodeMap), state, random);
      NamesInsert(old(nodes), state, random);
      NodeAdded(state);
    }

    twostate lemma NodeAdded(new x: NodeState)
      requires x.name !in old(nodeMap) && nodeMap == old(nodeMap)[x.name := x]
      requires forall n :: n in old(nodeMap) ==> nodeMap[n].View() == old(nodeMap[n].View())
      ensures Entries() == old(Entries())[x.name := x.View()]
    {}

    method AliveNode(a: Msg, bootstrap: bool, env: Env)
      requires Valid() && a.AliveMsg? && MsgOk(a)
      modifies this, nodeMap.Values
      ensures Valid() && fresh(nodeMap.Values - old(nodeMap.Values)) && nodeTimers.Values <= old(nodeTimers.Values)
      ensures View() == Membership.AliveNode(cfg, env, old(View()), a, bootstrap)
    {
      hide Valid, View, Membership.AcceptAlive, Insert;
      EntryIs(a.node);
      FieldsAre();
      if leave && a.node == cfg.name { return; }
      if |a.profile.vsn| >= 3 {
        var pMin, pMax := a.profile.vsn[0], a.profile.vsn[1];
        if pMin == 0 || pMax == 0 || pMin > pMax { return; }
      }
      if cfg.aliveDelegate {
        if |a.profile.vsn| < 6 { return; }
        if !env.notifyAlive(a.node, a.profile) { return; }
      }
      var updatesNode := false;
      var state;
      if a.node !in nodeMap {
        if !env.ipAllowed(a.profile.addr) { return; }
        state := AddNode(a, env);
      } else {
        state := nodeMap[a.node];
        if state.profile.addr != a.profile.addr || state.profile.port != a.profile.port {
          if !env.ipAllowed(a.profile.addr) { return; }
          var canReclaim := cfg.reclaimTime > 0 && state.since.OlderThan(cfg.reclaimTime, env.now);
          if state.status.Left? || (state.status.Dead? && canReclaim) {
            updatesNode := true;
          } else {
            return;
          }
        }
      }
      AcceptAlive(state, a, bootstrap, updatesNode, env);
    }

    /** An alive message as it arrives in a packet: dropped if the sender, or the address it is
        about, is not allowed; old protocol versions send no port. */
    method HandleAlive(m: Msg, senderAllowed: bool, checkAddress: bool, env: Env)
      requires Valid() && m.AliveMsg? && MsgOk(m)
      modifies this, nodeMap.Values
      ensures Valid() && fresh(nodeMap.Values - old(nodeMap.Values)) && nodeTimers.Values <= old(nodeTimers.Values)
      ensures View() == if !senderAllowed || (checkAddress && m.profile.addr != [] && !env.ipAllowed(m.profile.addr))
                        then old(View())
                        else
                          var port := if cfg.protocol < 2 || m.profile.port == 0 then cfg.bindPort else m.profile.port;
                          Handle(cfg, env, old(View()), m.(profile := m.profile.(port := port)))
    {
      hide Valid, View, Membership.AliveNode;
      if !senderAllowed { return; }
      var profile := m.profile;
      if checkAddress {
        if profile.addr != [] {
          if !env.ipAllowed(profile.addr) { return; }
        }
      }
      if cfg.protocol < 2 || profile.port == 0 { profile := profile.(port := cfg.bindPort); }
      AliveNode(AliveMsg(m.inc, m.node, profile), false, env);
    }

    // -------------------------------------------------------------- suspect

    twostate lemma TimerSet(new t: SuspicionTimer)
      requires nodeTimers == old(nodeTimers)[t.node := t]
      requires forall n :: n in old(nodeTimers) && n != t.node ==> nodeTimers[n].View() == old(nodeTimers[n].View())
      ensures Timers() == old(Timers())[t.node := Pending(t.id, t.View())]
    {}

    twostate lemma EntriesSame()
      requires nodeMap == old(nodeMap) && forall n :: n in nodeMap ==> nodeMap[n].View() == old(nodeMap[n].View())
      ensures Entries() == old(Entries())
    {}

    lemma TimerIs(n: string)
      requires Valid()
      ensures n in nodeTimers <==> n in View().timers
      ensures n in nodeTimers ==>
                View().timers[n] == Pending(nodeTimers[n].id, nodeTimers[n].View()) && nodeTimers[n].node == n
    {}

    /** Count a further suspicion, and pass it on if it was news. */
    method ConfirmSuspicion(timer: SuspicionTimer, m: Msg, env: Env)
      requires Valid() && m.SuspectMsg? && m.node in nodeTimers && nodeTimers[m.node] == timer
      modifies this`broadcasts, timer
      ensures Valid()
      ensures View() == Membership.ConfirmSuspicion(env, old(View()), m)
    {
      hide Valid, Entries, Timers, Confirm;
      TimerIs(m.node);
      ghost var t := Pending(timer.id, timer.View());
      var news := timer.ConfirmFrom(m.from, env.now, env.ln);
      if news { broadcasts := broadcasts + [Broadcast(NodeKey(m.node), m)]; }
      EntriesSame();
      TimerConfirmed(timer);
    }

    twostate lemma TimerConfirmed(t: SuspicionTimer)
      requires Valid() && nodeTimers == old(nodeTimers) && t.node in nodeTimers && nodeTimers[t.node] == t
      requires forall u: SuspicionTimer :: u in nodeTimers.Values && u != t ==> u.View() == old(u.View())
      ensures Timers() == old(Timers())[t.node := Pending(t.id, t.View())]
    {
      forall n | n in nodeTimers && n != t.node ensures nodeTimers[n].View() == old(nodeTimers[n].View()) {
        assert nodeTimers[n] in nodeTimers.Values && nodeTimers[n] != t;
      }
    }

    method MarkSuspect(state: NodeState, m: Msg, env: Env)
      requires Valid() && m.SuspectMsg? && m.node in nodeMap && nodeMap[m.node] == state
      modifies this`broadcasts, state
      ensures Valid()
      ensures var v, e := old(View()), old(state.View());
              View() == v.(entries := v.entries[m.node := e.(inc := m.inc, status := Suspect, since := At(env.now))],
                           queued := v.queued + [Broadcast(NodeKey(m.node), m)])
    {
      hide Valid, Entries, Timers;
      EntryIs(m.node);
      broadcasts := broadcasts + [Broadcast(NodeKey(m.node), m)];
      state.inc, state.status, state.since := m.inc, Suspect, At(env.now);
      NodeChanged(state, {});
    }

    method StartTimer(m: Msg, k: int, min: nat, max: nat, now: int)
      requires Valid() && m.SuspectMsg?
      modifies this`nodeTimers, this`started
      ensures Valid() && fresh(nodeTimers.Values - old(nodeTimers.Values))
      ensures var v := old(View());
              View() == v.(timers := v.timers[m.node := Pending(|v.started|, Start(m.from, k, min, max, now))],
                           started := v.started + [Callback(m.node, now)])
    {
      hide Linked, TimersNamed, Entries, Timers, Start;
      var timer := new SuspicionTimer(m.node, |started|, m.from, k, min, max, now);
      started := started + [Callback(m.node, now)];
      nodeTimers := nodeTimers[m.node := timer];
      TimersNamedAdd(old(nodeTimers), timer);
      TimerSet(timer);
    }

    method StartSuspicion(state: NodeState, m: Msg, env: Env)
      requires Valid() && m.SuspectMsg? && m.node in nodeMap && nodeMap[m.node] == state
      modifies this`broadcasts, this`nodeTimers, this`started, state
      ensures Valid() && fresh(nodeTimers.Values - old(nodeTimers.Values))
      ensures View() == Membership.StartSuspicion(cfg, env, old(View()), m)
    {
      hide Valid, View, Start;
      EntryIs(m.node);
      FieldsAre();
      MarkSuspect(state, m, env);
      var k := cfg.suspicionMult - 2;
      var n := numNodes;
      if n - 2 < k { k := 0; }
      var min := env.minTimeout;
      var max := cfg.suspicionMaxMult * min;
      StartTimer(m, k, min, max, env.now);
    }

    method SuspectNode(m: Msg, env: Env)
      requires Valid() && m.SuspectMsg?
      modifies this, nodeMap.Values, nodeTimers.Values
      ensures Valid() && nodeMap == old(nodeMap) && fresh(nodeTimers.Values - old(nodeTimers.Values))
      ensures View() == Membership.SuspectNode(cfg, env, old(View()), m)
    {
      hide Valid, View, Membership.Refute, Membership.ConfirmSuspicion, Membership.StartSuspicion;
      EntryIs(m.node);
      TimerIs(m.node);
      if m.node !in nodeMap { return; }
      var state := nodeMap[m.node];
      if m.inc < state.inc { return; }
      if m.node in nodeTimers {
        ConfirmSuspicion(nodeTimers[m.node], m, env);
        return;
      }
      if !state.status.Alive? { return; }
      if state.name == cfg.name {
        Refute(state, m.inc);
      } else {
        StartSuspicion(state, m, env);
      }
    }

    // -------------------------------------------------------------- dead

    method BuryNode(state: NodeState, d: Msg, env: Env)
      requires Valid() && d.DeadMsg? && d.node in nodeMap && nodeMap[d.node] == state
      modifies this`broadcasts, this`events, state
      ensures Valid()
      ensures View() == Bury(env, old(View()), d)
    {
      hide Valid, Entries, Timers;
      EntryIs(d.node);
      broadcasts := broadcasts + [Broadcast(NodeKey(d.node), d)];
      state.inc := d.inc;
      if d.node == d.from { state.status := Left; } else { state.status := Dead; }
      state.since := At(env.now);
      events := events + [Event.Leave(state.name)];
      NodeChanged(state, {});
    }

    method DeadNode(d: Msg, env: Env)
      requires Valid() && d.DeadMsg?
      modifies this, nodeMap.Values
      ensures Valid() && nodeMap == old(nodeMap) && nodeTimers.Values <= old(nodeTimers.Values)
      ensures View() == Membership.DeadNode(cfg, env, old(View()), d)
    {
      hide Valid, View, Membership.Refute, Bury;
      EntryIs(d.node);
      FieldsAre();
      if d.node !in nodeMap { return; }
      var state := nodeMap[d.node];
      if d.inc < state.inc { return; }
      ClearTimer(d.node);
      if state.status.DeadOrLeft() { return; }
      if state.name == cfg.name && !leave {
        Refute(state, d.inc);
        return;
      }
      BuryNode(state, d, env);
    }

    // -------------------------------------------------------------- push/pull

    method MergeState(remote: seq<Record>, env: Env)
      requires Valid() && forall i :: 0 <= i < |remote| ==> RecordOk(remote[i])
      modifies this, nodeMap.Values, nodeTimers.Values
      ensures Valid()
      ensures View() == Membership.MergeState(cfg, env, old(View()), remote)
    {
      hide Valid, View, Membership.AliveNode, Membership.SuspectNode, Membership.DeadNode;
      for i := 0 to |remote|
        invariant Valid()
        invariant fresh(nodeMap.Values - old(nodeMap.Values)) && fresh(nodeTimers.Values - old(nodeTimers.Values))
        invariant View() == Membership.MergeState(cfg, env, old(View()), remote[..i])
      {
        var r := remote[i];
        assert remote[..i + 1][..i] == remote[..i];
        match r.status {
          case Alive => AliveNode(AliveMsg(r.inc, r.name, r.profile), false, env);
          case Left => DeadNode(DeadMsg(r.inc, r.name, r.name), env);
          case Dead => SuspectNode(SuspectMsg(r.inc, r.name, cfg.name), env);
          case Suspect => SuspectNode(SuspectMsg(r.inc, r.name, cfg.name), env);
        }
      }
      assert remote[..|remote|] == remote;
    }

    // -------------------------------------------------------------- reaping

    twostate lemma NodesGone(new gone: set<string>)
      requires nodeMap == old(nodeMap) - gone
      requires forall n :: n in nodeMap ==> nodeMap[n].View() == old(nodeMap[n].View())
      ensures Entries() == old(Entries()) - gone
    {}

    /** Swap two nodes of the list, again and again, as the library's shuffle does. */
    method ShuffleNodes(swaps: seq<(nat, nat)>)
      requires Valid()
      modifies this`nodes
      ensures Valid()
      ensures View() == old(View()).(order := View().order)
    {
      hide Linked, TimersNamed, Entries, Timers, Names;
      for k := 0 to |swaps|
        invariant Valid()
      {
        if |nodes| > 0 {
          var i, j := swaps[k].0 % |nodes|, swaps[k].1 % |nodes|;
          LinkedSwap(nodes, nodeMap, i, j);
          nodes := nodes[i := nodes[j]][j := nodes[i]];
        }
      }
    }

    /** Drop the nodes that have been dead for long enough, from the list and from the index, and
        shuffle the others. */
    method ResetNodes(now: int, swaps: seq<(nat, nat)>)
      requires Valid()
      modifies this`nodes, this`nodeMap, this`numNodes
      ensures Valid() && nodeMap.Values <= old(nodeMap.Values)
      ensures GoodOrder(cfg, now, old(View()), View().order)
      ensures View() == Reap(cfg, now, old(View()), View().order)
    {
      hide Linked, TimersNamed, View, Names, ExpiredNames;
      ghost var v := View();
      TrimNodes(now);
      ShuffleNodes(swaps);
      OrderIs();
    }

    lemma OrderIs()
      requires Valid()
      ensures Distinct(View().order) && Elements(View().order) == View().entries.Keys
    {}

    /** The nodes that resetNodes drops. */
    ghost function DeadNodes(now: int): set<NodeState>
      reads this`nodes, nodes
    {
      set x | x in nodes && Expired(cfg, x.View(), now)
    }

    /** Their names are those of the expired entries. */
    lemma DeadNames(now: int, rest: seq<NodeState>)
      requires Valid() && forall x :: x in rest <==> x in DeadNodes(now)
      ensures NameSet(rest) == ExpiredNames(cfg, now, View())
    {}

    /** The list, partitioned: first the nodes that stay. */
    method Partition(now: int) returns (kept: seq<NodeState>, rest: seq<NodeState>)
      requires Valid()
      ensures Permutation(kept + rest, nodes)
      ensures forall x :: x in rest <==> x in DeadNodes(now)
    {
      hide Valid, Permutation, Expired;
      var list := nodes;
      var a := new NodeState[|list|](i requires 0 <= i < |list| => list[i]);
      assert a[..] == list;
      var deadIdx := MoveDeadNodes(cfg, a, now, DeadNodes(now));
      kept, rest := a[..deadIdx], a[deadIdx..];
      assert a[..] == kept + rest;
      forall x ensures x in rest <==> x in DeadNodes(now) {
        if x in DeadNodes(now) {
          PermutationFlip(a[..], list);
          PermutationMember(list, a[..], x);
        }
      }
    }

    method TrimNodes(now: int)
      requires Valid()
      modifies this`nodes, this`nodeMap, this`numNodes
      ensures Valid() && nodeMap.Values <= old(nodeMap.Values)
      ensures var v := old(View());
              View() == v.(entries := v.entries - ExpiredNames(cfg, now, v), order := View().order)
    {
      hide Linked, TimersNamed, Entries, Timers, Names, ExpiredNames, Permutation, DeadNodes;
      var kept, rest := Partition(now);
      DeadNames(now, rest);
      LinkedTrim(nodes, nodeMap, kept, rest);
      for i := 0 to |rest|
        invariant nodeMap == old(nodeMap) - NameSet(rest[..i])
      {
        assert rest[..i + 1] == rest[..i] + [rest[i]];
        nodeMap := nodeMap - {rest[i].name};
      }
      assert rest[..|rest|] == rest;
      nodes := kept;
      numNodes := |kept|;
      NodesGone(NameSet(rest));
    }

    // -------------------------------------------------------------- probing

    lemma OrderSize()
      requires Valid()
      ensures |View().order| == |nodes|
    {}

    lemma NameIs(i: nat)
      requires Valid() && i < |nodes|
      ensures i < |View().order| && View().order[i] == nodes[i].name
    {}

    /** Whether the node at an index is one to probe. */
    method ShouldProbe(i: nat) returns (yes: bool)
      requires Valid() && i < |nodes|
      ensures i < |View().order| && yes == (View().order[i] in LiveNames(cfg, View().entries))
    {
      hide TimersNamed;
      EntryIs(nodes[i].name);
      assert nodes[i] in nodes;
      var node := nodes[i];
      var skip := false;
      if node.name == cfg.name {
        skip := true;
      } else if node.status.DeadOrLeft() {
        skip := true;
      }
      return !skip;
    }

    /** The next node to probe, if there is one. It is what Prober.Call says, for the list that
        resetNodes leaves behind if it is called; it is called at most once. */
    method Probe(now: int, swaps: seq<(nat, nat)>) returns (probed: Option<string>, ghost reset: bool)
      requires Valid()
      modifies this`nodes, this`nodeMap, this`numNodes, this`probeIndex
      ensures Valid()
      ensures var v, v' := old(View()), View();
              && (if reset then GoodOrder(cfg, now, v, v'.order) && v' == Reap(cfg, now, v, v'.order) else v' == v)
              && Prober.Call(Prober.Cursor(v.order, old(probeIndex)), LiveNames(cfg, v.entries), v'.order)
                 == Prober.Outcome(Prober.Cursor(v'.order, probeIndex), probed, reset)
              && (probed.Some? ==> probed.value in LiveNames(cfg, v.entries))
      ensures var live := LiveNames(cfg, old(View()).entries);
              forall n :: n in live <==>
                && n in old(View()).entries && n != cfg.name
                && (old(View()).entries[n].status == Alive || old(View()).entries[n].status == Suspect)
    {
      hide Valid, View, LiveNames, GoodOrder, Reap;
      LiveNamesAre(cfg, View().entries);
      ghost var v, index, live := View(), probeIndex, LiveNames(cfg, View().entries);
      var numCheck := 0;
      reset := false;
      OrderSize();
      while true
        invariant Valid() && |nodes| == |View().order|
        invariant LiveNames(cfg, View().entries) == live
        invariant if reset then GoodOrder(cfg, now, v, View().order) && View() == Reap(cfg, now, v, View().order)
                  else View() == v
        invariant Prober.Scanning(v.order, index, live, View().order, probeIndex, numCheck, reset)
        decreases !reset, |nodes| - numCheck
      {
        if numCheck >= |nodes| {
          Prober.ScanGivesUp(v.order, index, live, View().order, probeIndex, numCheck, reset);
          return None, reset;
        }
        if probeIndex >= |nodes| {
          ghost var i, order := probeIndex, View().order;
          ResetNodes(now, swaps);
          LiveStays(cfg, now, v, View().order);
          Prober.ScanWraps(v.order, index, live, order, i, numCheck, reset, View().order);
          OrderSize();
          probeIndex := 0;
          numCheck := numCheck + 1;
          reset := true;
          continue;
        }
        var found := ShouldProbe(probeIndex);
        var name := nodes[probeIndex].name;
        NameIs(probeIndex);
        Prober.ScanMoves(v.order, index, live, View().order, probeIndex, numCheck, reset);
        probeIndex := probeIndex + 1;
        if found { return Some(name), reset; }
        numCheck := numCheck + 1;
      }
    }

    // -------------------------------------------------------------- local operations

    method NextIncarnation() returns (inc: u32)
      requires Valid()
      modifies this`incarnation
      ensures Valid() && inc == Add32(old(incarnation), 1) && View() == old(View()).(counter := inc)
    {
      hide Valid, Entries, Timers;
      incarnation := Add32(incarnation, 1);
      return incarnation;
    }

    method SetAlive(self: Contact, env: Env)
      requires Valid() && ConfigOk(cfg) && View() == EMPTY
      modifies this, nodeMap.Values
      ensures Valid() && View() == Membership.SetAlive(cfg, env, self)
    {
      hide Valid, View, Membership.AliveNode;
      FieldsAre();
      var inc := NextIncarnation();
      AliveNode(AliveMsg(inc, cfg.name, OwnProfile(cfg, self)), true, env);
    }

    /** The code reads the local node from the index, so it must be there. */
    method UpdateNode(meta: Bytes, env: Env)
      requires Valid() && ConfigOk(cfg) && cfg.name in nodeMap
      modifies this, nodeMap.Values
      ensures Valid()
      ensures var v := old(View());
              var v1 := v.(counter := Add32(v.counter, 1));
              View() == Membership.AliveNode(cfg, env, v1, UpdateMsg(cfg, v, meta), true)
    {
      hide Valid, View, Membership.AliveNode;
      FieldsAre();
      EntryIs(cfg.name);
      var state := nodeMap[cfg.name];
      var p := state.profile;
      var inc := NextIncarnation();
      AliveNode(AliveMsg(inc, cfg.name, Profile(p.addr, p.port, meta, cfg.vsn)), true, env);
    }

    method MarkLeft()
      requires Valid()
      modifies this`leave
      ensures Valid() && View() == old(View()).(left := true)
    {
      hide Valid, Entries, Timers;
      leave := true;
    }

    method Leave(env: Env)
      requires Valid()
      modifies this, nodeMap.Values
      ensures Valid()
      ensures var v := old(View());
              View() == if v.left then v
                        else if cfg.name !in v.entries then v.(left := true)
                        else Membership.DeadNode(cfg, env, v.(left := true), LeaveMsg(cfg, v))
    {
      hide Valid, View, Membership.DeadNode;
      FieldsAre();
      EntryIs(cfg.name);
      if !leave {
        MarkLeft();
        if cfg.name !in nodeMap { return; }
        var state := nodeMap[cfg.name];
        DeadNode(DeadMsg(state.inc, state.name, state.name), env);
      }
    }

    /** The timeout function of a suspicion, when nothing happens between its two steps. */
    method TimeOut(cb: Callback, env: Env)
      requires Valid()
      modifies this, nodeMap.Values
      ensures Valid()
      ensures var v := old(View());
              View() == if CallbackHolds(v, cb) then Membership.DeadNode(cfg, env, v, CallbackMsg(cfg, v, cb)) else v
    {
      hide Valid, View, Membership.DeadNode;
      EntryIs(cb.node);
      if cb.node in nodeMap {
        var state := nodeMap[cb.node];
        if state.status.Suspect? && state.since == At(cb.stamp) {
          DeadNode(DeadMsg(state.inc, state.name, cfg.name), env);
        }
      }
    }

    /** The nodes that are neither dead nor left, in list order. */
    method Members() returns (members: seq<(string, Contact)>)
      requires Valid()
      ensures forall n, c :: (n, c) in members <==> n in MemberMap(View().entries) && MemberMap(View().entries)[n] == c
      ensures Distinct(members)
    {
      members := [];
      for i := 0 to |nodes|
        invariant Distinct(members)
        invariant forall n, c :: (n, c) in members <==>
                    exists k :: 0 <= k < i && !nodes[k].status.DeadOrLeft()
                                && (n, c) == (nodes[k].name, ContactOf(nodes[k].profile))
      {
        var node := nodes[i];
        if !node.status.DeadOrLeft() {
          members := members + [(node.name, ContactOf(node.profile))];
        }
      }
    }
  }

  /** The names to probe: neither our own nor dead or left. */
  ghost function LiveNames(cfg: Config, entries: map<string, Entry>): set<string>
  {
    set n | n in entries && n != cfg.name && !entries[n].status.DeadOrLeft()
  }

  lemma LiveNamesAre(cfg: Config, entries: map<string, Entry>)
    ensures forall n :: n in LiveNames(cfg, entries) <==>
              n in entries && n != cfg.name && (entries[n].status == Alive || entries[n].status == Suspect)
  {}

  /** resetNodes does not drop a node that is to be probed. */
  lemma LiveStays(cfg: Config, now: int, v: Node, order: seq<string>)
    ensures LiveNames(cfg, Reap(cfg, now, v, order).entries) == LiveNames(cfg, v.entries)
  {}

  /** What resetNodes makes of the list is what the theorems on probing ask for. */
  lemma ReapShuffles(cfg: Config, now: int, v: Node, order: seq<string>)
    requires Distinct(v.order) && Elements(v.order) == v.entries.Keys && GoodOrder(cfg, now, v, order)
    ensures Prober.Shuffle(v.order, order, LiveNames(cfg, v.entries))
    ensures Prober.Covers(Prober.Cursor(v.order, 0), LiveNames(cfg, v.entries))
  {}

  lemma PermutationFlip<T>(s: seq<T>, t: seq<T>)
    requires Permutation(s, t)
    ensures Permutation(t, s)
  {}

  lemma LinkedSwap(nodes: seq<NodeState>, nodeMap: map<string, NodeState>, i: nat, j: nat)
    requires Linked(nodes, nodeMap) && i < |nodes| && j < |nodes|
    ensures Linked(nodes[i := nodes[j]][j := nodes[i]], nodeMap)
  {
    var r := nodes[i := nodes[j]][j := nodes[i]];
    DistinctSwap(nodes, i, j);
    assert forall x :: x in r <==> x in Elements(r);
    assert forall x :: x in nodes <==> x in Elements(nodes);
  }

  function NameSet(nodes: seq<NodeState>): (r: set<string>) { set x | x in nodes :: x.name }

  /** Leaving out some nodes, in the list and in the index. */
  lemma LinkedTrim(nodes: seq<NodeState>, nodeMap: map<string, NodeState>, kept: seq<NodeState>, rest: seq<NodeState>)
    requires Linked(nodes, nodeMap) && Permutation(kept + rest, nodes)
    ensures Linked(kept, nodeMap - NameSet(rest))
  {
    var list := kept + rest;
    DistinctPermutation(nodes, list);
    assert forall x :: x in nodes <==> x in Elements(nodes);
    assert forall x :: x in list <==> x in Elements(list);
    forall x | x in kept ensures x.name !in NameSet(rest) {
      var i :| 0 <= i < |kept| && kept[i] == x;
      assert list[i] == x;
      forall y | y in rest ensures y.name != x.name {
        var j :| 0 <= j < |rest| && rest[j] == y;
        assert list[|kept| + j] == y && x in nodes && y in nodes;
      }
    }
    forall i, j | 0 <= i < j < |kept| ensures kept[i] != kept[j] { assert list[i] == kept[i] && list[j] == kept[j]; }
    forall n | n in nodeMap && n !in NameSet(rest) ensures nodeMap[n] in kept {
      assert nodeMap[n] in list;
    }
  }

  /** The same elements, each as often. */
  ghost predicate Permutation<T>(s: seq<T>, t: seq<T>) { multiset(s) == multiset(t) }

  lemma SwapPermutes<T>(s: seq<T>, i: nat, j: nat, t: seq<T>)
    requires i < |s| && j < |s| && Permutation(s, t)
    ensures Permutation(s[i := s[j]][j := s[i]], t)
  {}

  lemma PermutationMember<T>(s: seq<T>, t: seq<T>, x: T)
    requires Permutation(s, t) && x in s
    ensures x in t
  {
    assert x in multiset(s);
  }

  /** Move the nodes that have been dead or left for long enough to the end of the list, in place. */
  method MoveDeadNodes(cfg: Config, nodes: array<NodeState>, now: int, ghost dead: set<NodeState>)
    returns (deadIdx: nat)
    requires forall x :: x in nodes[..] ==> (x in dead <==> Expired(cfg, x.View(), now))
    modifies nodes
    ensures deadIdx <= nodes.Length && Permutation(nodes[..], old(nodes[..]))
    ensures forall i :: 0 <= i < deadIdx ==> nodes[i] !in dead
    ensures forall i :: deadIdx <= i < nodes.Length ==> nodes[i] in dead
  {
    hide Permutation;
    ghost var list := nodes[..];
    assert Permutation(list, list) by { PermutationRefl(list); }
    var numDead, n := 0, nodes.Length;
    var i := 0;
    while i < n - numDead
      invariant 0 <= i <= n - numDead <= n
      invariant Permutation(nodes[..], list)
      invariant forall k :: 0 <= k < i ==> nodes[k] !in dead
      invariant forall k :: n - numDead <= k < n ==> nodes[k] in dead
    {
      ghost var was := nodes[..];
      PermutationMember(was, list, was[i]);
      assert nodes[i] in dead <==> Expired(cfg, nodes[i].View(), now);
      if !nodes[i].status.DeadOrLeft() || !nodes[i].since.OlderThan(cfg.gossipToTheDead, now) {
        i := i + 1;
        continue;
      }
      var last := n - numDead - 1;
      SwapPermutes(was, i, last, list);
      nodes[i], nodes[last] := nodes[last], nodes[i];
      assert nodes[..] == was[i := was[last]][last := was[i]];
      numDead := numDead + 1;
    }
    return n - numDead;
  }

  lemma PermutationRefl<T>(s: seq<T>)
    ensures Permutation(s, s)
  {}
}
