/** Device sessions, handshake threads and pairing as one state machine. Each handshake
    goes through separate steps, so that several of them, the io threads of the sessions,
    the local calls and shutting down interleave freely; each pair handler is one step. */
module Sessions {
  import opened Bytes

  type Id = string
  type Sid = nat
  type Tid = nat

  const PAIRING_WINDOW := 1800

  datatype PairState = NotPaired | Requested | RequestedByPeer | Paired

  /** A session object; running tells whether its io thread still runs. */
  datatype Session = Session(device: Id, state: PairState, paired: bool, cert: string, timestamp: int,
                             disconnected: bool, running: bool)

  /** How far a handshake thread is. Dropped: it ran out of memory after starting the io thread of
      its session and before the session was in the map. */
  datatype Thread =
    | Started(device: Id)
    | Checked(device: Id)
    | Loaded(device: Id, stored: bool)
    | Created(device: Id, sid: Sid)
    | Replaced(prev: Sid)
    | Joining(prev: Sid)
    | Dropped(sid: Sid)
    | Finished

  /** Stopping: told to stop; NetJoined: no new connections; Collected: the sessions to
      disconnect are taken out of the map; Draining: they are disconnected and their io
      threads awaited; Stopped: stop has returned. */
  datatype Phase = Running | Stopping | NetJoined | Collected(sids: set<Sid>) | Draining(sids: set<Sid>) | Stopped

  /** delivered: the sessions whose packets went to their plugins, packet by packet. */
  datatype State = State(self: Id, phase: Phase, threads: map<Tid, Thread>, table: map<Sid, Session>,
                         sessions: map<Id, Sid>, storage: map<Id, string>, delivered: seq<Sid>)

  datatype Event =
    | Begin(t: Tid, device: Id)
    | Check(t: Tid)
    | Load(t: Tid)
    | Fail(t: Tid)
    | Create(t: Tid, sid: Sid, cert: string)
    | Drop(t: Tid)
    | Install(t: Tid)
    | Teardown(t: Tid)
    | Join(t: Tid)
    | PairPacket(sid: Sid, wants: bool, timestamp: int, now: int)
    | PluginPacket(sid: Sid)
    | IoEnd(sid: Sid)
    | RequestPair(device: Id, now: int)
    | AcceptPair(device: Id)
    | RejectPair(device: Id)
    | Unpair(device: Id)
    | StopCalled
    | StopNet
    | StopCollect
    | StopDisconnect
    | StopReturn

  ghost predicate Initial(s: State) {
    s.phase == Running && s.threads == map[] && s.table == map[] && s.sessions == map[] && s.delivered == []
  }

  predicate Live(s: State, sid: Sid) {
    sid in s.table && !s.table[sid].disconnected
  }

  /** The session object a device id leads to. */
  function Lookup(s: State, d: Id): Option<Sid> {
    if d in s.sessions && s.sessions[d] in s.table then Some(s.sessions[d]) else None
  }

  /** Queueing a packet fails without a session or once it is disconnected. */
  predicate CanSend(s: State, d: Id) {
    Lookup(s, d).Some? && !s.table[Lookup(s, d).value].disconnected
  }

  function Abs(x: int): int {
    if x < 0 then -x else x
  }

  predicate Ended(th: Thread) {
    th.Finished? || th.Dropped?
  }

  // ----- When a step is possible

  ghost predicate Enabled(s: State, e: Event) {
    match e
    case Begin(t, _) => s.phase in {Running, Stopping} && t !in s.threads
    case Check(t) => t in s.threads && s.threads[t].Started?
    case Load(t) => t in s.threads && s.threads[t].Checked?
    case Fail(t) => t in s.threads && s.threads[t].Loaded?
    case Create(t, sid, _) => t in s.threads && s.threads[t].Loaded? && sid !in s.table
    case Drop(t) => t in s.threads && s.threads[t].Created?
    case Install(t) => t in s.threads && s.threads[t].Created? && s.threads[t].sid in s.table
    case Teardown(t) => t in s.threads && s.threads[t].Replaced? && s.threads[t].prev in s.table
    case Join(t) =>
      t in s.threads && s.threads[t].Joining? && s.threads[t].prev in s.table && !s.table[s.threads[t].prev].running
    case PairPacket(sid, _, _, _) => sid in s.table && s.table[sid].running
    case PluginPacket(sid) => sid in s.table && s.table[sid].running
    case IoEnd(sid) => sid in s.table && s.table[sid].running
    case StopCalled => s.phase == Running
    case StopNet => s.phase == Stopping
    case StopCollect => s.phase == NetJoined && forall t :: t in s.threads ==> Ended(s.threads[t])
    case StopDisconnect => s.phase.Collected?
    case StopReturn => s.phase.Draining? && forall sid :: sid in s.phase.sids && sid in s.table ==> !s.table[sid].running
    case _ => true
  }

  // ----- What a step does

  function SetThread(s: State, t: Tid, th: Thread): State {
    s.(threads := s.threads[t := th])
  }

  function SetSession(s: State, sid: Sid, x: Session): State {
    s.(table := s.table[sid := x])
  }

  function Disconnected(s: State, sid: Sid): State
    requires sid in s.table
  {
    SetSession(s, sid, s.table[sid].(disconnected := true))
  }

  function Save(s: State, d: Id, cert: string): State {
    s.(storage := s.storage[d := cert])
  }

  function Remove(s: State, d: Id): State {
    s.(storage := s.storage - {d})
  }

  function PairedNow(s: State, sid: Sid): State
    requires sid in s.table
  {
    var x := s.table[sid];
    Save(SetSession(s, sid, x.(state := Paired, paired := true)), x.device, x.cert)
  }

  function UnpairedNow(s: State, sid: Sid): State
    requires sid in s.table
  {
    var x := s.table[sid];
    Remove(SetSession(s, sid, x.(state := NotPaired, paired := false)), x.device)
  }

  /** A pair packet from the peer. */
  function OnPairPacket(s: State, sid: Sid, wants: bool, timestamp: int, now: int): State
    requires sid in s.table
  {
    var x := s.table[sid];
    if !wants then UnpairedNow(s, sid)
    else if timestamp != 0 && Abs(now - timestamp) > PAIRING_WINDOW then s
    else if x.state == Requested then if x.cert == "" then s else PairedNow(s, sid)
    else SetSession(s, sid, x.(state := RequestedByPeer, timestamp := timestamp))
  }

  /** Any other packet goes to the plugins of a paired session, installed or not. */
  function OnPluginPacket(s: State, sid: Sid): State
    requires sid in s.table
  {
    if s.table[sid].paired then s.(delivered := s.delivered + [sid]) else s
  }

  function OnRequestPair(s: State, d: Id, now: int): State {
    if Lookup(s, d).None? then s
    else
      var sid := Lookup(s, d).value;
      if s.table[sid].paired || !CanSend(s, d) then s
      else SetSession(s, sid, s.table[sid].(state := Requested, timestamp := now))
  }

  function OnAcceptPair(s: State, d: Id): State {
    if Lookup(s, d).None? then s
    else
      var sid := Lookup(s, d).value;
      if s.table[sid].cert == "" || !CanSend(s, d) then s else PairedNow(s, sid)
  }

  function OnRejectPair(s: State, d: Id): State {
    if Lookup(s, d).None? || !CanSend(s, d) then s else UnpairedNow(s, Lookup(s, d).value)
  }

  function OnUnpair(s: State, d: Id): State {
    var l := Lookup(s, d);
    if l.None? then Remove(s, d)
    else if s.table[l.value].disconnected then
      var x := s.table[l.value];
      SetSession(Remove(s, d), l.value, x.(state := NotPaired, paired := false))
    else if !s.table[l.value].paired then s
    else UnpairedNow(s, l.value)
  }

  function Disconnecting(s: State, sids: set<Sid>): State {
    s.(table := map sid | sid in s.table ::
         if sid in sids then s.table[sid].(disconnected := true) else s.table[sid])
  }

  function Next(s: State, e: Event): State
    requires Enabled(s, e)
  {
    match e
    case Begin(t, d) => SetThread(s, t, Started(d))
    case Check(t) =>
      var d := s.threads[t].device;
      var busy := Lookup(s, d).Some? && !s.table[Lookup(s, d).value].disconnected;
      SetThread(s, t, if d == "" || d == s.self || busy then Finished else Checked(d))
    case Load(t) =>
      var d := s.threads[t].device;
      SetThread(s, t, Loaded(d, d in s.storage))
    case Fail(t) => SetThread(s, t, Finished)
    case Create(t, sid, cert) =>
      var th := s.threads[t];
      var x := Session(th.device, if th.stored then Paired else NotPaired, th.stored, cert, 0, false, true);
      SetThread(SetSession(s, sid, x), t, Created(th.device, sid))
    case Drop(t) => SetThread(s, t, Dropped(s.threads[t].sid))
    case Install(t) =>
      var d := s.threads[t].device;
      var th := if d in s.sessions then Replaced(s.sessions[d]) else Finished;
      SetThread(s.(sessions := s.sessions[d := s.threads[t].sid]), t, th)
    case Teardown(t) =>
      var prev := s.threads[t].prev;
      SetThread(Disconnected(s, prev), t, Joining(prev))
    case Join(t) => SetThread(s, t, Finished)
    case PairPacket(sid, wants, timestamp, now) => OnPairPacket(s, sid, wants, timestamp, now)
    case PluginPacket(sid) => OnPluginPacket(s, sid)
    case IoEnd(sid) => SetSession(s, sid, s.table[sid].(disconnected := true, running := false))
    case RequestPair(d, now) => OnRequestPair(s, d, now)
    case AcceptPair(d) => OnAcceptPair(s, d)
    case RejectPair(d) => OnRejectPair(s, d)
    case Unpair(d) => OnUnpair(s, d)
    case StopCalled => s.(phase := Stopping)
    case StopNet => s.(phase := NetJoined)
    case StopCollect => s.(phase := Collected(s.sessions.Values), sessions := map[])
    case StopDisconnect => Disconnecting(s, s.phase.sids).(phase := Draining(s.phase.sids))
    case StopReturn => s.(phase := Stopped)
  }
}
