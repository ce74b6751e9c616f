/** What one member knows and how messages change it: the value-level meaning of
    aliveNode, suspectNode, deadNode, mergeState and refute of state.go. The class in
    MemberlistObject.dfy is proved against these functions; the run theorems are about them. */
module Membership {
  import opened Base
  import opened Suspicion

  // ---------------------------------------------------------------- data

  datatype Status = Alive | Suspect | Dead | Left {
    predicate DeadOrLeft() { Dead? || Left? }

    /** The order in which news about one incarnation overrides older news. */
    function Rank(): nat { if Alive? then 0 else if Suspect? then 1 else 2 }
  }

  /** What a node says about itself. In a message `vsn` is empty or at least six long. */
  datatype Profile = Profile(addr: Bytes, port: u16, meta: Bytes, vsn: Bytes)

  /** The time of the last status change; a new entry has none (Go's zero time). */
  datatype Stamp = Never | At(time: int) {
    predicate OlderThan(age: int, now: int) { Never? || now - time > age }
  }

  datatype Entry = Entry(profile: Profile, inc: u32, status: Status, since: Stamp)

  datatype Msg =
    | AliveMsg(inc: u32, node: string, profile: Profile)
    | SuspectMsg(inc: u32, node: string, from: string)
    | DeadMsg(inc: u32, node: string, from: string)

  /** One node as sent in a push/pull exchange. */
  datatype Record = Record(name: string, profile: Profile, inc: u32, status: Status)

  /** Broadcasts are queued under a node name, except refutations, which use the address. */
  datatype Key = NodeKey(name: string) | AddrKey(addr: Bytes)

  datatype Broadcast = Broadcast(key: Key, msg: Msg)

  datatype Contact = Contact(addr: Bytes, port: u16, meta: Bytes)

  datatype Event = Join(name: string, contact: Contact) | Update(name: string, contact: Contact) | Leave(name: string)

  /** A suspicion timer in `nodeTimers`; `id` is its place among all timers ever started. */
  datatype Pending = Pending(id: nat, susp: Susp)

  /** A started timer calls back about `node`, having recorded the time of its suspicion. */
  datatype Callback = Callback(node: string, stamp: int)

  datatype Node = Node(
    entries: map<string, Entry>,
    order: seq<string>,
    timers: map<string, Pending>,
    started: seq<Callback>,
    counter: u32,
    left: bool,
    health: int,
    queued: seq<Broadcast>,
    events: seq<Event>)

  datatype Config = Config(
    name: string, vsn: Bytes, protocol: nat, bindPort: u16,
    suspicionMult: int, suspicionMaxMult: nat,
    reclaimTime: nat, gossipToTheDead: nat,
    aliveDelegate: bool, healthMax: int)

  /** What the surroundings decide during one call: the clock, the delegates' verdicts,
      random numbers and the suspicion timeout for the current cluster size. */
  datatype Env = Env(
    now: int,
    ipAllowed: Bytes -> bool,
    notifyAlive: (string, Profile) -> bool,
    random: string -> nat,
    minTimeout: nat,
    ln: LogFn)

  const EMPTY := Node(map[], [], map[], [], 0, false, 0, [], [])

  /** The version array of BuildVsnArray: six bytes, a proper protocol range first. */
  predicate ConfigOk(cfg: Config) { |cfg.vsn| == 6 && 1 <= cfg.vsn[0] <= cfg.vsn[1] }

  predicate VsnOk(vsn: Bytes) { |vsn| == 0 || |vsn| >= 6 }

  predicate MsgOk(m: Msg) { m.AliveMsg? ==> VsnOk(m.profile.vsn) }

  // ---------------------------------------------------------------- refutation

  /** The incarnation that a refutation of `accused` uses: the next one, or one past the accusation. */
  function RefuteInc(counter: u32, accused: u32): (inc: u32)
  {
    var inc := Add32(counter, 1);
    if accused >= inc then Add32(inc, Add32(accused - inc, 1)) else inc
  }

  /** A health score, kept from zero to below the maximum. */
  function Clamp(score: int, max: int): (r: int)
    ensures 0 <= score < max ==> r == score
    ensures 1 <= max ==> 0 <= r < max && (score < 0 ==> r == 0) && (score >= max ==> r == max - 1)
  {
    if score < 0 then 0 else if score > max - 1 then max - 1 else score
  }

  function Refute(cfg: Config, st: Node, accused: u32): (r: Node)
    requires cfg.name in st.entries
  {
    var me := st.entries[cfg.name];
    var inc := RefuteInc(st.counter, accused);
    st.(counter := inc,
        entries := st.entries[cfg.name := me.(inc := inc)],
        health := Clamp(st.health + 1, cfg.healthMax),
        queued := st.queued + [Broadcast(AddrKey(me.profile.addr), AliveMsg(inc, cfg.name, me.profile))])
  }

  // ---------------------------------------------------------------- alive

  function NewEntry(p: Profile): (e: Entry)
  {
    Entry(p.(vsn := if |p.vsn| > 5 then p.vsn[..6] else [0, 0, 0, 0, 0, 0]), 0, Dead, Never)
  }

  function RandomOffset(random: nat, n: nat): (k: nat)
    ensures n > 0 ==> k < n
    ensures n == 0 ==> k == 0
  {
    if n == 0 then 0 else random % n
  }

  /** Appends, then swaps the new element with the one at a random position. */
  function InsertAt<T>(s: seq<T>, x: T, random: nat): (r: seq<T>)
  {
    var n := |s|;
    var s' := s + [x];
    var k := RandomOffset(random, n);
    s'[k := s'[n]][n := s'[k]]
  }

  function Insert(env: Env, st: Node, a: Msg): (r: Node)
    requires a.AliveMsg?
  {
    st.(entries := st.entries[a.node := NewEntry(a.profile)],
        order := InsertAt(st.order, a.node, env.random(a.node)))
  }

  predicate SameAddress(p: Profile, q: Profile) { p.addr == q.addr && p.port == q.port }

  function ContactOf(p: Profile): Contact { Contact(p.addr, p.port, p.meta) }

  /** NotifyJoin for a node that was dead or left, NotifyUpdate for a changed meta. */
  function Notify(events: seq<Event>, name: string, was: Entry, now: Profile): (r: seq<Event>)
  {
    if was.status.DeadOrLeft() then events + [Join(name, ContactOf(now))]
    else if was.profile.meta != now.meta then events + [Update(name, ContactOf(now))]
    else events
  }

  /** The entry that an accepted alive message leaves behind. */
  function Revived(e: Entry, a: Msg, now: int): (r: Entry)
    requires a.AliveMsg? && VsnOk(a.profile.vsn)
  {
    Entry(a.profile.(vsn := if |a.profile.vsn| > 0 then a.profile.vsn[..6] else e.profile.vsn),
          a.inc, Alive, if e.status.Alive? then e.since else At(now))
  }

  /** aliveNode from the incarnation checks on; `updates` says that the address is being reclaimed. */
  function AcceptAlive(cfg: Config, env: Env, st: Node, a: Msg, bootstrap: bool, updates: bool): (r: Node)
    requires a.AliveMsg? && MsgOk(a) && a.node in st.entries
  {
    var e := st.entries[a.node];
    var local := a.node == cfg.name;
    if a.inc <= e.inc && !local && !updates then st
    else if a.inc < e.inc && local then st
    else
      var st1 := st.(timers := st.timers - {a.node});
      if !bootstrap && local then
        if a.inc == e.inc && a.profile.meta == e.profile.meta && a.profile.vsn == e.profile.vsn then st1
        else
          var st2 := Refute(cfg, st1, a.inc);
          st2.(events := Notify(st2.events, a.node, e, e.profile))
      else
        var e' := Revived(e, a, env.now);
        st1.(entries := st.entries[a.node := e'],
             queued := st.queued + [Broadcast(NodeKey(a.node), a)],
             events := Notify(st.events, a.node, e, e'.profile))
  }

  /** The checks that come before the node map is consulted. */
  predicate Ignored(cfg: Config, env: Env, st: Node, a: Msg)
    requires a.AliveMsg?
  {
    var vsn := a.profile.vsn;
    || (st.left && a.node == cfg.name)
    || (|vsn| >= 3 && (vsn[0] == 0 || vsn[1] == 0 || vsn[0] > vsn[1]))
    || (cfg.aliveDelegate && (|vsn| < 6 || !env.notifyAlive(a.node, a.profile)))
  }

  predicate Reclaimable(cfg: Config, e: Entry, now: int)
  {
    || e.status.Left?
    || (e.status.Dead? && cfg.reclaimTime > 0 && e.since.OlderThan(cfg.reclaimTime, now))
  }

  function AliveNode(cfg: Config, env: Env, st: Node, a: Msg, bootstrap: bool): (r: Node)
    requires a.AliveMsg? && MsgOk(a)
  {
    if Ignored(cfg, env, st, a) then st
    else if a.node !in st.entries then
      if !env.ipAllowed(a.profile.addr) then st
      else AcceptAlive(cfg, env, Insert(env, st, a), a, bootstrap, false)
    else if SameAddress(st.entries[a.node].profile, a.profile) then
      AcceptAlive(cfg, env, st, a, bootstrap, false)
    else if env.ipAllowed(a.profile.addr) && Reclaimable(cfg, st.entries[a.node], env.now) then
      AcceptAlive(cfg, env, st, a, bootstrap, true)
    else st
  }

  /** handleAlive fills in a missing port before the message takes effect. */
  function WithPort(cfg: Config, p: Profile): (q: Profile)
  {
    if cfg.protocol < 2 || p.port == 0 then p.(port := cfg.bindPort) else p
  }

  // ---------------------------------------------------------------- suspect

  /** The number of confirmations asked for, given the estimated cluster size. */
  function Confirmations(mult: int, n: nat): (k: int)
  {
    if n - 2 < mult - 2 then 0 else mult - 2
  }

  function ConfirmSuspicion(env: Env, st: Node, s: Msg): (r: Node)
    requires s.SuspectMsg? && s.node in st.timers
  {
    var t := st.timers[s.node];
    var (susp, news) := Confirm(t.susp, s.from, env.now, env.ln);
    st.(timers := st.timers[s.node := t.(susp := susp)],
        queued := if news then st.queued + [Broadcast(NodeKey(s.node), s)] else st.queued)
  }

  function StartSuspicion(cfg: Config, env: Env, st: Node, s: Msg): (r: Node)
    requires s.SuspectMsg? && s.node in st.entries
  {
    var k := Confirmations(cfg.suspicionMult, |st.order|);
    var susp := Start(s.from, k, env.minTimeout, cfg.suspicionMaxMult * env.minTimeout, env.now);
    st.(entries := st.entries[s.node := st.entries[s.node].(inc := s.inc, status := Suspect, since := At(env.now))],
        timers := st.timers[s.node := Pending(|st.started|, susp)],
        started := st.started + [Callback(s.node, env.now)],
        queued := st.queued + [Broadcast(NodeKey(s.node), s)])
  }

  function SuspectNode(cfg: Config, env: Env, st: Node, s: Msg): (r: Node)
    requires s.SuspectMsg?
  {
    if s.node !in st.entries || s.inc < st.entries[s.node].inc then st
    else if s.node in st.timers then ConfirmSuspicion(env, st, s)
    else if !st.entries[s.node].status.Alive? then st
    else if s.node == cfg.name then Refute(cfg, st, s.inc)
    else StartSuspicion(cfg, env, st, s)
  }

  // ---------------------------------------------------------------- dead

  function Bury(env: Env, st: Node, d: Msg): (r: Node)
    requires d.DeadMsg? && d.node in st.entries
  {
    var status := if d.node == d.from then Left else Dead;
    st.(entries := st.entries[d.node := st.entries[d.node].(inc := d.inc, status := status, since := At(env.now))],
        queued := st.queued + [Broadcast(NodeKey(d.node), d)],
        events := st.events + [Leave(d.node)])
  }

  function DeadNode(cfg: Config, env: Env, st: Node, d: Msg): (r: Node)
    requires d.DeadMsg?
  {
    if d.node !in st.entries || d.inc < st.entries[d.node].inc then st
    else
      var st1 := st.(timers := st.timers - {d.node});
      if st.entries[d.node].status.DeadOrLeft() then st1
      else if d.node == cfg.name && !st.left then Refute(cfg, st1, d.inc)
      else Bury(env, st1, d)
  }

  // ---------------------------------------------------------------- push/pull

  /** The message that a remote record stands for; a remote death is only taken as a suspicion. */
  function RecordMsg(cfg: Config, r: Record): (m: Msg)
  {
    match r.status
    case Alive => AliveMsg(r.inc, r.name, r.profile)
    case Left => DeadMsg(r.inc, r.name, r.name)
    case Dead => SuspectMsg(r.inc, r.name, cfg.name)
    case Suspect => SuspectMsg(r.inc, r.name, cfg.name)
  }

  function Handle(cfg: Config, env: Env, st: Node, m: Msg): (r: Node)
    requires MsgOk(m)
  {
    match m
    case AliveMsg(_, _, _) => AliveNode(cfg, env, st, m, false)
    case SuspectMsg(_, _, _) => SuspectNode(cfg, env, st, m)
    case DeadMsg(_, _, _) => DeadNode(cfg, env, st, m)
  }

  predicate RecordOk(r: Record) { VsnOk(r.profile.vsn) }

  function MergeState(cfg: Config, env: Env, st: Node, remote: seq<Record>): (r: Node)
    requires forall i :: 0 <= i < |remote| ==> RecordOk(remote[i])
  {
    if remote == [] then st
    else
      var st1 := MergeState(cfg, env, st, remote[..|remote| - 1]);
      assert RecordOk(remote[|remote| - 1]);
      Handle(cfg, env, st1, RecordMsg(cfg, remote[|remote| - 1]))
  }

  /** The record that sendLocalState makes of an entry. */
  function RecordOf(name: string, e: Entry): Record { Record(name, e.profile, e.inc, e.status) }

  // ---------------------------------------------------------------- local operations

  /** setAlive: the first announcement of the local node. */
  function SetAlive(cfg: Config, env: Env, self: Contact): (r: Node)
    requires ConfigOk(cfg)
  {
    AliveNode(cfg, env, EMPTY.(counter := 1), AliveMsg(1, cfg.name, OwnProfile(cfg, self)), true)
  }

  function OwnProfile(cfg: Config, self: Contact): Profile { Profile(self.addr, self.port, self.meta, cfg.vsn) }

  /** The announcement UpdateNode prepares, after taking the next incarnation. */
  function UpdateMsg(cfg: Config, st: Node, meta: Bytes): (a: Msg)
    requires cfg.name in st.entries
  {
    var p := st.entries[cfg.name].profile;
    AliveMsg(Add32(st.counter, 1), cfg.name, Profile(p.addr, p.port, meta, cfg.vsn))
  }

  /** The farewell Leave prepares: a death reported by the node itself. */
  function LeaveMsg(cfg: Config, st: Node): (d: Msg)
    requires cfg.name in st.entries
  {
    DeadMsg(st.entries[cfg.name].inc, cfg.name, cfg.name)
  }

  /** Whether a timer's callback still finds the suspicion it was started for. */
  predicate CallbackHolds(st: Node, cb: Callback)
  {
    && cb.node in st.entries
    && st.entries[cb.node].status.Suspect?
    && st.entries[cb.node].since == At(cb.stamp)
  }

  function CallbackMsg(cfg: Config, st: Node, cb: Callback): (d: Msg)
    requires CallbackHolds(st, cb)
  {
    DeadMsg(st.entries[cb.node].inc, cb.node, cfg.name)
  }

  /** The nodes that resetNodes drops: dead or left, and past the gossip-to-the-dead interval. */
  predicate Expired(cfg: Config, e: Entry, now: int)
  {
    e.status.DeadOrLeft() && e.since.OlderThan(cfg.gossipToTheDead, now)
  }

  function ExpiredNames(cfg: Config, now: int, st: Node): (r: set<string>)
  {
    set n | n in st.entries && Expired(cfg, st.entries[n], now)
  }

  /** resetNodes, for the order that the shuffle came up with. */
  function Reap(cfg: Config, now: int, st: Node, order: seq<string>): (r: Node)
  {
    st.(entries := st.entries - ExpiredNames(cfg, now, st), order := order)
  }

  /** The shuffled order lists exactly the nodes that are left, each once. */
  ghost predicate GoodOrder(cfg: Config, now: int, st: Node, order: seq<string>)
  {
    Distinct(order) && Elements(order) == st.entries.Keys - ExpiredNames(cfg, now, st)
  }

  /** What Members reports: the nodes that are neither dead nor left. */
  function MemberMap(entries: map<string, Entry>): (m: map<string, Contact>)
  {
    map n | n in entries && !entries[n].status.DeadOrLeft() :: ContactOf(entries[n].profile)
  }
}
