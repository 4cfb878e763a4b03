/** What a handshake has looked at before its session gets into the map, and what stop has
    waited for when it returns. */
module HandshakeSafety {
  import opened Sessions
  import opened SessionSafety
  import opened PairingSafety

  // ----- The look for a live session

  /** A handshake that has passed its check and whose session is not in the map. */
  predicate Passed(th: Thread) {
    th.Checked? || th.Loaded? || th.Created?
  }

  /** The map leads to a live session of the device. */
  ghost predicate Connected(s: State, d: Id) {
    d in s.sessions && s.sessions[d] in s.table && !s.table[s.sessions[d]].disconnected
  }

  /** The check finds neither a missing id nor the client's own id nor a live session in the map. */
  ghost predicate MayConnect(s: State, d: Id) {
    d != "" && d != s.self && !Connected(s, d)
  }

  /** A thread is past its check because this step was the check and found nothing against it,
      or it was past it before. */
  lemma PassedBecause(s: State, e: Event, t: Tid)
    requires Enabled(s, e) && t in Next(s, e).threads && Passed(Next(s, e).threads[t])
    ensures var d := Next(s, e).threads[t].device;
            if e == Check(t) then t in s.threads && s.threads[t] == Started(d) && MayConnect(s, d)
            else t in s.threads && Passed(s.threads[t]) && s.threads[t].device == d
  {
    hide OnPairPacket, OnRequestPair, OnAcceptPair, OnRejectPair, OnUnpair;
    if e.RequestPair? || e.AcceptPair? || e.RejectPair? || e.Unpair? {
      CallShape(s, e);
    } else if e.PairPacket? {
      PacketShape(s, e.sid, e.wants, e.timestamp, e.now);
    }
  }

  /** A check passes whenever it may. */
  lemma CheckPasses(s: State, t: Tid)
    requires Enabled(s, Check(t))
    ensures Next(s, Check(t)) == s.(threads := s.threads[t := Next(s, Check(t)).threads[t]])
    ensures var th := Next(s, Check(t)).threads[t];
            if MayConnect(s, s.threads[t].device) then th == Checked(s.threads[t].device) else th == Finished
  {
  }

  lemma SelfKept(s: State, e: Event)
    requires Enabled(s, e)
    ensures Next(s, e).self == s.self
  {
    hide CanSend, Lookup;
  }

  /** Thread t made its check of device d in step k. */
  ghost predicate CheckedIn(r: Run, k: nat, n: nat, t: Tid, d: Id)
    requires n <= |r.events| < |r.states|
  {
    k < n && r.events[k] == Check(t) && t in r.states[k].threads && r.states[k].threads[t] == Started(d)
    && MayConnect(r.states[k], d)
  }

  lemma {:induction false} PassedHasCheck(r: Run, n: nat, t: Tid) returns (k: nat)
    requires IsRun(r) && n < |r.states| && t in r.states[n].threads && Passed(r.states[n].threads[t])
    ensures CheckedIn(r, k, n, t, r.states[n].threads[t].device)
  {
    hide Next, Enabled, Initial, MayConnect;
    if n == 0 {
      InitialThreads(r.states[0]);
    } else {
      var e := r.events[n - 1];
      PassedBecause(r.states[n - 1], e, t);
      if e == Check(t) {
        k := n - 1;
      } else {
        k := PassedHasCheck(r, n - 1, t);
      }
    }
  }

  /** Sessions stay in the table as sessions of their device. */
  lemma DeviceKept(s: State, e: Event, sid: Sid)
    requires Enabled(s, e) && WellLinked(s) && sid in s.table
    ensures sid in Next(s, e).table && Next(s, e).table[sid].device == s.table[sid].device
  {
    hide Enabled, Next, WellLinked;
    SessionChange(s, e, sid);
  }

  lemma {:induction false} DeviceStays(r: Run, k: nat, n: nat, sid: Sid)
    requires IsRun(r) && k <= n < |r.states| && sid in r.states[k].table
    ensures sid in r.states[n].table && r.states[n].table[sid].device == r.states[k].table[sid].device
    decreases n
  {
    hide Next, Enabled, Initial, WellLinked;
    if k < n {
      DeviceStays(r, k, n - 1, sid);
      RunLinked(r, n - 1);
      DeviceKept(r.states[n - 1], r.events[n - 1], sid);
    }
  }

  /** A session gets into the map only after its handshake has looked for a live session of its device
      there and found none: a session that it replaces was not both in the map and live at that time. */
  lemma ReplacedAfterCheck(r: Run, n: nat, t: Tid) returns (k: nat)
    requires IsRun(r) && n < |r.events| && r.events[n] == Install(t) && t in r.states[n].threads && r.states[n].threads[t].Created?
    ensures var d := r.states[n].threads[t].device;
            && CheckedIn(r, k, n, t, d)
            && (d in r.states[n].sessions && r.states[n].sessions[d] in r.states[k].sessions.Values
                ==> !Live(r.states[k], r.states[n].sessions[d]))
  {
    hide Next, Enabled, Initial;
    var d := r.states[n].threads[t].device;
    k := PassedHasCheck(r, n, t);
    RunLinked(r, k);
    RunLinked(r, n);
    if d in r.states[n].sessions && r.states[n].sessions[d] in r.states[k].sessions.Values {
      var prev := r.states[n].sessions[d];
      var e :| e in r.states[k].sessions && r.states[k].sessions[e] == prev;
      DeviceStays(r, k, n, prev);
    }
  }

  // ----- No session with oneself

  /** A device that a session can be with. */
  ghost predicate Foreign(s: State, d: Id) {
    d != "" && d != s.self
  }

  lemma CreatedForeign(r: Run, n: nat, sid: Sid)
    requires IsRun(r) && n < |r.events| && sid !in r.states[n].table && sid in r.states[n + 1].table
    ensures Foreign(r.states[n + 1], r.states[n + 1].table[sid].device)
  {
    hide Next, Enabled, Initial;
    var s, e := r.states[n], r.events[n];
    CreatedByThread(s, e, sid);
    var k := PassedHasCheck(r, n, e.t);
    SameSelf(r, k, n + 1);
  }

  lemma CreatedByThread(s: State, e: Event, sid: Sid)
    requires Enabled(s, e) && sid !in s.table && sid in Next(s, e).table
    ensures e.Create? && e.t in s.threads && s.threads[e.t].Loaded? && Next(s, e).table[sid].device == s.threads[e.t].device
  {
    hide OnPairPacket, OnRequestPair, OnAcceptPair, OnRejectPair, OnUnpair, Lookup;
    OldSessions(s, e, sid);
  }

  lemma {:induction false} SameSelf(r: Run, k: nat, n: nat)
    requires IsRun(r) && k <= n < |r.states|
    ensures r.states[n].self == r.states[k].self
    decreases n
  {
    hide Next, Enabled, Initial;
    if k < n {
      SameSelf(r, k, n - 1);
      SelfKept(r.states[n - 1], r.events[n - 1]);
    }
  }

  /** No session of any run is with a device without an id or with the client itself. */
  lemma {:induction false} NoSessionWithSelf(r: Run, n: nat, sid: Sid)
    requires IsRun(r) && n < |r.states| && sid in r.states[n].table
    ensures Foreign(r.states[n], r.states[n].table[sid].device)
  {
    hide Next, Enabled, Initial, WellLinked;
    if n == 0 {
      InitialThreads(r.states[0]);
    } else if sid !in r.states[n - 1].table {
      CreatedForeign(r, n - 1, sid);
    } else {
      NoSessionWithSelf(r, n - 1, sid);
      DeviceStays(r, n - 1, n, sid);
      SameSelf(r, n - 1, n);
    }
  }

  // ----- Waiting for io threads

  ghost predicate Held(s: State, sid: Sid) {
    exists t :: Holds(s, t, sid)
  }

  /** Someone knows or holds every session whose io thread runs. */
  ghost predicate Awaited(s: State) {
    forall sid :: sid in s.table && s.table[sid].running ==> Known(s, sid) || Held(s, sid)
  }

  /** Nothing is known or held through another thread than before. */
  lemma StillKnown(s: State, n: State, t: Tid, sid: Sid)
    requires n.sessions == s.sessions && n.phase == s.phase
    requires forall u :: u in s.threads && u != t ==> u in n.threads && n.threads[u] == s.threads[u]
    ensures Known(s, sid) ==>
              Known(n, sid) || (t in s.threads && (s.threads[t].Replaced? || s.threads[t].Joining?) && s.threads[t].prev == sid)
    ensures Held(s, sid) ==> Held(n, sid) || Holds(s, t, sid)
  {
    if Held(s, sid) {
      var u :| Holds(s, u, sid);
      assert u != t ==> Holds(n, u, sid);
    }
    if u :| u in s.threads && u != t && (s.threads[u].Replaced? || s.threads[u].Joining?) && s.threads[u].prev == sid {
      assert n.threads[u] == s.threads[u];
    }
  }

  /** A thread that holds no session moves on. */
  lemma ThreadAwaited(s: State, t: Tid, th: Thread)
    requires Awaited(s)
    requires t in s.threads && s.threads[t].Joining? ==> s.threads[t].prev in s.table && !s.table[s.threads[t].prev].running
    requires t in s.threads ==> !s.threads[t].Created? && !s.threads[t].Dropped? && !s.threads[t].Replaced?
    ensures Awaited(SetThread(s, t, th))
  {
    hide Known, Held;
    var n := SetThread(s, t, th);
    forall sid | sid in n.table && n.table[sid].running ensures Known(n, sid) || Held(n, sid) {
      StillKnown(s, n, t, sid);
    }
  }

  lemma CreateAwaited(s: State, t: Tid, sid: Sid, cert: string)
    requires Awaited(s) && Enabled(s, Create(t, sid, cert))
    ensures Awaited(Next(s, Create(t, sid, cert)))
  {
    hide Known, Held;
    var n := Next(s, Create(t, sid, cert));
    HoldsIs(n, t, sid);
    forall x | x in n.table && n.table[x].running ensures Known(n, x) || Held(n, x) {
      StillKnown(s, n, t, x);
    }
  }

  lemma HoldsIs(s: State, t: Tid, sid: Sid)
    requires Holds(s, t, sid)
    ensures Held(s, sid)
  {
  }

  lemma DropAwaited(s: State, t: Tid)
    requires Awaited(s) && Enabled(s, Drop(t))
    ensures Awaited(Next(s, Drop(t)))
  {
    hide Known, Held;
    var n := Next(s, Drop(t));
    HoldsIs(n, t, s.threads[t].sid);
    forall x | x in n.table && n.table[x].running ensures Known(n, x) || Held(n, x) {
      StillKnown(s, n, t, x);
    }
  }

  lemma TeardownAwaited(s: State, t: Tid)
    requires Awaited(s) && Enabled(s, Teardown(t))
    ensures Awaited(Next(s, Teardown(t)))
  {
    hide Held;
    var n := Next(s, Teardown(t));
    assert n.threads[t].Joining? && n.threads[t].prev == s.threads[t].prev;
    forall x | x in n.table && n.table[x].running ensures Known(n, x) || Held(n, x) {
      StillKnown(s, n, t, x);
    }
  }

  lemma InstallAwaited(s: State, t: Tid)
    requires Awaited(s) && Enabled(s, Install(t))
    ensures Awaited(Next(s, Install(t)))
  {
    hide Held;
    var n, d := Next(s, Install(t)), s.threads[t].device;
    var m := s.(threads := n.threads);
    assert n.sessions[d] == s.threads[t].sid;
    forall x | x in n.table && n.table[x].running ensures Known(n, x) || Held(n, x) {
      StillKnown(s, m, t, x);
      HeldSame(m, n, x);
      if x in s.sessions.Values {
        var e :| e in s.sessions && s.sessions[e] == x;
        if e == d {
          assert n.threads[t].Replaced? && n.threads[t].prev == x;
        } else {
          assert n.sessions[e] == x;
        }
      } else if Known(m, x) {
        if u :| u in m.threads && (m.threads[u].Replaced? || m.threads[u].Joining?) && m.threads[u].prev == x {
          assert n.threads[u] == m.threads[u];
        }
      }
    }
  }

  lemma HeldSame(m: State, n: State, x: Sid)
    requires n.threads == m.threads
    ensures Held(m, x) ==> Held(n, x)
  {
    if Held(m, x) {
      var t :| Holds(m, t, x);
      assert Holds(n, t, x);
    }
  }

  /** Steps that leave threads and map alone and start no io thread. */
  lemma QuietAwaited(s: State, n: State)
    requires Awaited(s) && n.threads == s.threads && n.sessions == s.sessions && n.phase == s.phase
    requires n.table.Keys == s.table.Keys && forall sid :: sid in s.table && n.table[sid].running ==> s.table[sid].running
    ensures Awaited(n)
  {
    hide Held;
    forall x | x in n.table && n.table[x].running ensures Known(n, x) || Held(n, x) {
      assert s.table[x].running;
      HeldSame(s, n, x);
    }
  }

  lemma PacketAwaited(s: State, e: Event)
    requires Awaited(s) && Enabled(s, e) && (e.PairPacket? || e.PluginPacket? || e.IoEnd?)
    ensures Awaited(Next(s, e))
  {
    hide Awaited;
    QuietAwaited(s, Next(s, e));
  }

  lemma CallAwaited(s: State, e: Event)
    requires Awaited(s) && (e.RequestPair? || e.AcceptPair? || e.RejectPair? || e.Unpair?)
    ensures Awaited(Next(s, e))
  {
    hide Awaited;
    CallAwaits(s, e);
    QuietAwaited(s, Next(s, e));
  }

  lemma CallAwaits(s: State, e: Event)
    requires e.RequestPair? || e.AcceptPair? || e.RejectPair? || e.Unpair?
    ensures var n := Next(s, e); n.threads == s.threads && n.sessions == s.sessions && n.phase == s.phase
    ensures var n := Next(s, e); n.table.Keys == s.table.Keys && forall sid :: sid in s.table ==> n.table[sid].running == s.table[sid].running
  {
    var l, n := Lookup(s, e.device), Next(s, e);
    if l.Some? {
      assert n.table == s.table[l.value := n.table[l.value]] && n.table[l.value].running == s.table[l.value].running;
    } else {
      assert n.table == s.table;
    }
  }

  lemma StopAwaited(s: State, e: Event)
    requires Awaited(s) && Enabled(s, e)
    requires e.StopCalled? || e.StopNet? || e.StopCollect? || e.StopDisconnect? || e.StopReturn?
    ensures Awaited(Next(s, e))
  {
    hide Held;
    var n := Next(s, e);
    forall x | x in n.table && n.table[x].running ensures Known(n, x) || Held(n, x) {
      assert s.table[x].running;
      HeldSame(s, n, x);
    }
  }

  lemma StepAwaited(s: State, e: Event)
    requires Awaited(s) && Enabled(s, e)
    ensures Awaited(Next(s, e))
  {
    hide Awaited;
    match e
    case Begin(t, d) => ThreadAwaited(s, t, Started(d));
    case Check(t) => ThreadAwaited(s, t, Next(s, e).threads[t]);
    case Load(t) => ThreadAwaited(s, t, Next(s, e).threads[t]);
    case Fail(t) => ThreadAwaited(s, t, Finished);
    case Join(t) => ThreadAwaited(s, t, Finished);
    case Create(t, sid, cert) => CreateAwaited(s, t, sid, cert);
    case Drop(t) => DropAwaited(s, t);
    case Install(t) => InstallAwaited(s, t);
    case Teardown(t) => TeardownAwaited(s, t);
    case PairPacket(_, _, _, _) => PacketAwaited(s, e);
    case PluginPacket(_) => PacketAwaited(s, e);
    case IoEnd(_) => PacketAwaited(s, e);
    case RequestPair(_, _) => CallAwaited(s, e);
    case AcceptPair(_) => CallAwaited(s, e);
    case RejectPair(_) => CallAwaited(s, e);
    case Unpair(_) => CallAwaited(s, e);
    case _ => StopAwaited(s, e);
  }

  lemma {:induction false} RunAwaited(r: Run, n: nat)
    requires IsRun(r) && n < |r.states|
    ensures Awaited(r.states[n])
  {
    hide Awaited, Enabled, Next;
    if n == 0 {
      NoneAwaited(r.states[0]);
    } else {
      RunAwaited(r, n - 1);
      StepAwaited(r.states[n - 1], r.events[n - 1]);
    }
  }

  lemma NoneAwaited(s: State)
    requires Initial(s)
    ensures Awaited(s)
  {
  }

  /** When stop has returned, no io thread runs except those of sessions that a handshake left behind. */
  lemma StoppedJoinsAll(r: Run, n: nat, sid: Sid)
    requires IsRun(r) && n < |r.states| && r.states[n].phase.Stopped? && sid in r.states[n].table
    ensures r.states[n].table[sid].running ==> Orphaned(r.states[n], sid)
  {
    hide Enabled, Next, Initial;
    RunInv(r, n);
    RunAwaited(r, n);
    var s := r.states[n];
    if s.table[sid].running {
      assert Known(s, sid) || Held(s, sid);
      assert !Known(s, sid);
      var t :| Holds(s, t, sid);
      assert s.threads[t].Dropped?;
    }
  }

  /** Once stop has waited for those who accept and make connections, no handshake begins. */
  lemma {:induction false} NoNewHandshakes(r: Run, m: nat, n: nat)
    requires IsRun(r) && m <= n < |r.states| && !r.states[m].phase.Running? && !r.states[m].phase.Stopping?
    ensures r.states[n].threads.Keys == r.states[m].threads.Keys
    ensures !r.states[n].phase.Running? && !r.states[n].phase.Stopping?
    decreases n
  {
    hide Enabled, Next, Initial;
    if m < n {
      NoNewHandshakes(r, m, n - 1);
      KeysKept(r.states[n - 1], r.events[n - 1]);
    }
  }

  lemma KeysKept(s: State, e: Event)
    requires Enabled(s, e) && !s.phase.Running? && !s.phase.Stopping?
    ensures Next(s, e).threads.Keys == s.threads.Keys && !Next(s, e).phase.Running? && !Next(s, e).phase.Stopping?
  {
    hide OnPairPacket, OnPluginPacket, OnRequestPair, OnAcceptPair, OnRejectPair, OnUnpair, Lookup;
    if e.PairPacket? || e.PluginPacket? || e.IoEnd? || e.RequestPair? || e.AcceptPair? || e.RejectPair? || e.Unpair? {
      PairingIsQuieter(s, e);
    }
  }
}
