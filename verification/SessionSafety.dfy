/** Session replacement: which sessions can be live, over every interleaving of the steps. */
module SessionSafety {
  import opened Bytes
  import opened Sessions

  /** The thread that created the session has not installed it yet. */
  ghost predicate Uninstalled(s: State, sid: Sid) {
    exists t :: t in s.threads && s.threads[t].Created? && s.threads[t].sid == sid
  }

  /** The thread that replaced the session has not disconnected it yet. */
  ghost predicate HeldForTeardown(s: State, sid: Sid) {
    exists t :: t in s.threads && s.threads[t].Replaced? && s.threads[t].prev == sid
  }

  /** stop has taken the session out of the map and has not disconnected it yet. */
  ghost predicate HeldByStop(s: State, sid: Sid) {
    s.phase.Collected? && sid in s.phase.sids
  }

  /** The handshake that created the session gave up before it could install it. */
  ghost predicate Orphaned(s: State, sid: Sid) {
    exists t :: t in s.threads && s.threads[t].Dropped? && s.threads[t].sid == sid
  }

  ghost predicate Accounted(s: State, sid: Sid) {
    sid in s.sessions.Values || Uninstalled(s, sid) || HeldForTeardown(s, sid) || HeldByStop(s, sid)
  }

  /** No live session is lost track of, except by a handshake that gave up. */
  ghost predicate NoneLost(s: State) {
    forall sid :: Live(s, sid) ==> Accounted(s, sid) || Orphaned(s, sid)
  }

  /** Map entries lead to sessions of their device; threads hold sessions that exist. */
  ghost predicate WellLinked(s: State) {
    && (forall d :: d in s.sessions ==> s.sessions[d] in s.table && s.table[s.sessions[d]].device == d)
    && (forall t :: t in s.threads && s.threads[t].Created? ==>
          s.threads[t].sid in s.table && s.table[s.threads[t].sid].device == s.threads[t].device)
    && (forall t :: t in s.threads && s.threads[t].Replaced? ==> s.threads[t].prev in s.table)
    && (forall t :: t in s.threads && s.threads[t].Joining? ==> s.threads[t].prev in s.table)
  }

  /** Once stop has waited for the handshake threads, none is left and the map stays empty. */
  ghost predicate Quiet(s: State) {
    s.phase.Collected? || s.phase.Draining? || s.phase.Stopped? ==>
      s.sessions == map[] && forall t :: t in s.threads ==> Ended(s.threads[t])
  }

  ghost predicate Inv(s: State) {
    NoneLost(s) && WellLinked(s) && Quiet(s)
  }

  lemma InitialInv(s: State)
    requires Initial(s)
    ensures Inv(s)
  {
  }

  // ----- Steps

  /** Steps that change no handshake thread, no map entry, no phase and create no session,
      and disconnect sessions at most. */
  ghost predicate Quieter(s: State, n: State) {
    && n.phase == s.phase && n.threads == s.threads && n.sessions == s.sessions
    && n.table.Keys == s.table.Keys
    && forall sid :: sid in s.table ==>
         n.table[sid].device == s.table[sid].device && (s.table[sid].disconnected ==> n.table[sid].disconnected)
  }

  lemma QuieterKeeps(s: State, n: State)
    requires Inv(s) && Quieter(s, n)
    ensures Inv(n)
  {
    forall sid | Live(n, sid) ensures Accounted(n, sid) || Orphaned(n, sid) {
      assert Live(s, sid);
      assert Uninstalled(s, sid) ==> Uninstalled(n, sid);
      assert HeldForTeardown(s, sid) ==> HeldForTeardown(n, sid);
      assert Orphaned(s, sid) ==> Orphaned(n, sid);
    }
  }

  /** One session's pairing fields change, and the storage. */
  lemma OneSessionIsQuieter(s: State, n: State, sid: Sid)
    requires sid in s.table && sid in n.table && n.table == s.table[sid := n.table[sid]]
    requires n.phase == s.phase && n.threads == s.threads && n.sessions == s.sessions
    requires n.table[sid].device == s.table[sid].device && (s.table[sid].disconnected ==> n.table[sid].disconnected)
    ensures Quieter(s, n)
  {
  }

  lemma PacketIsQuieter(s: State, sid: Sid, wants: bool, timestamp: int, now: int)
    requires sid in s.table
    ensures Quieter(s, OnPairPacket(s, sid, wants, timestamp, now))
  {
    OneSessionIsQuieter(s, OnPairPacket(s, sid, wants, timestamp, now), sid);
  }

  lemma PluginIsQuieter(s: State, sid: Sid)
    requires sid in s.table
    ensures Quieter(s, OnPluginPacket(s, sid))
  {
  }

  lemma CallIsQuieter(s: State, e: Event)
    requires e.RequestPair? || e.AcceptPair? || e.RejectPair? || e.Unpair?
    ensures Quieter(s, Next(s, e))
  {
    var l := Lookup(s, e.device);
    if l.Some? { OneSessionIsQuieter(s, Next(s, e), l.value); }
  }

  lemma PairingIsQuieter(s: State, e: Event)
    requires Enabled(s, e)
    requires e.PairPacket? || e.PluginPacket? || e.IoEnd? || e.RequestPair? || e.AcceptPair? || e.RejectPair? || e.Unpair?
    ensures Quieter(s, Next(s, e))
  {
    hide Quieter;
    if e.PairPacket? {
      PacketIsQuieter(s, e.sid, e.wants, e.timestamp, e.now);
    } else if e.PluginPacket? {
      PluginIsQuieter(s, e.sid);
    } else if e.IoEnd? {
      OneSessionIsQuieter(s, Next(s, e), e.sid);
    } else {
      CallIsQuieter(s, e);
    }
  }

  /** A thread moves on without holding or having held a session. */
  lemma ThreadStepInv(s: State, t: Tid, th: Thread)
    requires Inv(s) && (t in s.threads ==> !s.threads[t].Created? && !s.threads[t].Replaced? && !s.threads[t].Dropped?)
    requires th.Started? || th.Checked? || th.Loaded? || th.Finished?
    requires th.Finished? || s.phase in {Running, Stopping, NetJoined}
    ensures Inv(SetThread(s, t, th))
  {
    var n := SetThread(s, t, th);
    forall sid | Live(n, sid) ensures Accounted(n, sid) || Orphaned(n, sid) {
      assert Live(s, sid);
      OthersKept(s, n, t, sid);
    }
  }

  /** An unfinished thread means that stop has not got past waiting for it. */
  lemma ThreadsRunEarly(s: State, t: Tid)
    requires Quiet(s) && t in s.threads && !Ended(s.threads[t])
    ensures s.phase in {Running, Stopping, NetJoined}
  {
  }

  lemma CreateInv(s: State, t: Tid, sid: Sid, cert: string)
    requires Inv(s) && Enabled(s, Create(t, sid, cert))
    ensures Inv(Next(s, Create(t, sid, cert)))
  {
    var n := Next(s, Create(t, sid, cert));
    ThreadsRunEarly(s, t);
    assert n.threads[t].Created? && n.threads[t].sid == sid;
    forall x | Live(n, x) ensures Accounted(n, x) || Orphaned(n, x) {
      if x != sid {
        assert Live(s, x);
        OthersKept(s, n, t, x);
      }
    }
  }

  /** What other threads hold, they still hold. */
  lemma OthersKept(s: State, n: State, t: Tid, x: Sid)
    requires forall u :: u in s.threads && u != t ==> u in n.threads && n.threads[u] == s.threads[u]
    ensures Uninstalled(s, x) ==> Uninstalled(n, x) || (t in s.threads && s.threads[t].Created? && s.threads[t].sid == x)
    ensures HeldForTeardown(s, x) ==>
              HeldForTeardown(n, x) || (t in s.threads && s.threads[t].Replaced? && s.threads[t].prev == x)
    ensures Orphaned(s, x) ==> Orphaned(n, x) || (t in s.threads && s.threads[t].Dropped? && s.threads[t].sid == x)
  {
    if Orphaned(s, x) {
      var u :| u in s.threads && s.threads[u].Dropped? && s.threads[u].sid == x;
      if u != t { assert n.threads[u].Dropped?; }
    }
    if Uninstalled(s, x) {
      var u :| u in s.threads && s.threads[u].Created? && s.threads[u].sid == x;
      if u != t { assert n.threads[u].Created?; }
    }
    if HeldForTeardown(s, x) {
      var u :| u in s.threads && s.threads[u].Replaced? && s.threads[u].prev == x;
      if u != t { assert n.threads[u].Replaced?; }
    }
  }

  /** Installing: the new session becomes the map entry and the old entry is held. */
  lemma InstallInv(s: State, t: Tid)
    requires Inv(s) && Enabled(s, Install(t))
    ensures Inv(Next(s, Install(t)))
  {
    var n := Next(s, Install(t));
    var d, sid := s.threads[t].device, s.threads[t].sid;
    ThreadsRunEarly(s, t);
    assert n.sessions[d] == sid && sid in n.sessions.Values;
    forall x | Live(n, x) ensures Accounted(n, x) || Orphaned(n, x) {
      assert Live(s, x);
      OthersKept(s, n, t, x);
      if x in s.sessions.Values {
        var e :| e in s.sessions && s.sessions[e] == x;
        if e == d {
          assert n.threads[t].Replaced? && n.threads[t].prev == x;
          assert HeldForTeardown(n, x);
        } else {
          assert n.sessions[e] == x && x in n.sessions.Values;
        }
      }
    }
  }

  lemma TeardownInv(s: State, t: Tid)
    requires Inv(s) && Enabled(s, Teardown(t))
    ensures Inv(Next(s, Teardown(t)))
  {
    var n := Next(s, Teardown(t));
    ThreadsRunEarly(s, t);
    forall x | Live(n, x) ensures Accounted(n, x) || Orphaned(n, x) {
      assert Live(s, x);
      OthersKept(s, n, t, x);
    }
  }

  /** Threads hold what they held. */
  lemma SameThreadsHold(s: State, n: State, x: Sid)
    requires n.threads == s.threads
    ensures Uninstalled(s, x) ==> Uninstalled(n, x)
    ensures HeldForTeardown(s, x) ==> HeldForTeardown(n, x)
    ensures Orphaned(s, x) ==> Orphaned(n, x)
  {
  }

  lemma StopInv(s: State, e: Event)
    requires Inv(s) && Enabled(s, e)
    requires e.StopCalled? || e.StopNet? || e.StopCollect? || e.StopDisconnect? || e.StopReturn?
    ensures Inv(Next(s, e))
  {
    hide NoneLost, WellLinked, Quiet, Enabled, Next;
    StopNoneLost(s, e);
    StopLinked(s, e);
  }

  lemma StopNoneLost(s: State, e: Event)
    requires NoneLost(s) && Enabled(s, e)
    requires e.StopCalled? || e.StopNet? || e.StopCollect? || e.StopDisconnect? || e.StopReturn?
    ensures NoneLost(Next(s, e))
  {
    hide Uninstalled, HeldForTeardown, Orphaned;
    var n := Next(s, e);
    forall x | Live(n, x) ensures Accounted(n, x) || Orphaned(n, x) {
      assert Live(s, x);
      SameThreadsHold(s, n, x);
    }
  }

  lemma StopLinked(s: State, e: Event)
    requires WellLinked(s) && Quiet(s) && Enabled(s, e)
    requires e.StopCalled? || e.StopNet? || e.StopCollect? || e.StopDisconnect? || e.StopReturn?
    ensures WellLinked(Next(s, e)) && Quiet(Next(s, e))
  {
  }

  /** A handshake that gives up leaves its session to itself. */
  lemma DropInv(s: State, t: Tid)
    requires Inv(s) && Enabled(s, Drop(t))
    ensures Inv(Next(s, Drop(t)))
  {
    var n := Next(s, Drop(t));
    ThreadsRunEarly(s, t);
    forall x | Live(n, x) ensures Accounted(n, x) || Orphaned(n, x) {
      assert Live(s, x);
      OthersKept(s, n, t, x);
      if s.threads[t].sid == x { assert n.threads[t].Dropped?; }
    }
  }

  /** Every step of every thread keeps the invariant. */
  lemma StepInv(s: State, e: Event)
    requires Inv(s) && Enabled(s, e)
    ensures Inv(Next(s, e))
  {
    hide Inv;
    match e
    case Begin(t, d) => BeginInv(s, t, d);
    case Check(t) => CheckInv(s, e, t);
    case Load(t) => CheckInv(s, e, t);
    case Fail(t) => CheckInv(s, e, t);
    case Join(t) => CheckInv(s, e, t);
    case Create(t, sid, cert) => CreateInv(s, t, sid, cert);
    case Drop(t) => DropInv(s, t);
    case Install(t) => InstallInv(s, t);
    case Teardown(t) => TeardownInv(s, t);
    case StopCalled => StopInv(s, e);
    case StopNet => StopInv(s, e);
    case StopCollect => StopInv(s, e);
    case StopDisconnect => StopInv(s, e);
    case StopReturn => StopInv(s, e);
    case _ =>
      PairingIsQuieter(s, e);
      QuieterKeeps(s, Next(s, e));
  }

  lemma BeginInv(s: State, t: Tid, d: Id)
    requires Inv(s) && Enabled(s, Begin(t, d))
    ensures Inv(Next(s, Begin(t, d)))
  {
    ThreadStepInv(s, t, Started(d));
  }

  lemma CheckInv(s: State, e: Event, t: Tid)
    requires Inv(s) && Enabled(s, e)
    requires e == Check(t) || e == Load(t) || e == Fail(t) || e == Join(t)
    ensures Inv(Next(s, e))
  {
    ThreadsRunEarly(s, t);
    ThreadStepInv(s, t, Next(s, e).threads[t]);
  }

  // ----- Whole runs

  /** A run: states and the steps between them. */
  datatype Run = Run(states: seq<State>, events: seq<Event>)

  ghost predicate IsRun(r: Run) {
    && |r.states| == |r.events| + 1 && Initial(r.states[0])
    && forall i :: 0 <= i < |r.events| ==> Enabled(r.states[i], r.events[i]) && r.states[i + 1] == Next(r.states[i], r.events[i])
  }

  lemma {:induction false} RunInv(r: Run, n: nat)
    requires IsRun(r) && n < |r.states|
    ensures Inv(r.states[n])
  {
    hide Inv, Enabled, Initial;
    if n == 0 {
      InitialInv(r.states[0]);
    } else {
      RunInv(r, n - 1);
      StepInv(r.states[n - 1], r.events[n - 1]);
    }
  }

  /** A run of n steps that ends in this state. */
  ghost predicate Reaches(r: Run, n: nat, last: State) {
    IsRun(r) && |r.events| == n && r.states[n] == last
  }

  /** A run with one more step. */
  lemma RunMore(r: Run, n: nat, last: State, e: Event, next: State) returns (more: Run)
    requires Reaches(r, n, last) && Enabled(last, e) && Next(last, e) == next
    ensures Reaches(more, n + 1, next) && |more.events| == n + 1 && |more.states| == n + 2
    ensures more.events[n] == e && more.states[n] == last && more.states[n + 1] == next
  {
    hide Enabled, Next, Initial;
    more := Run(r.states + [next], r.events + [e]);
  }

  lemma RunStart(s: State) returns (r: Run)
    requires Initial(s)
    ensures Reaches(r, 0, s)
  {
    r := Run([s], []);
  }

  lemma ReachesRun(r: Run, n: nat, last: State)
    requires Reaches(r, n, last)
    ensures IsRun(r)
  {
  }

  /** No handshake is under way. */
  ghost predicate Idle(s: State) {
    forall t :: t in s.threads ==> !s.threads[t].Created? && !s.threads[t].Replaced?
  }

  /** In every state of every run: a live session is the map entry, not yet installed by
      its creator, held for disconnection by the thread that replaced it or by stop, or
      left behind by a handshake that ran out of memory. */
  lemma LiveSessionsAccounted(r: Run, n: nat, sid: Sid)
    requires IsRun(r) && n < |r.states| && Live(r.states[n], sid)
    ensures Accounted(r.states[n], sid) || Orphaned(r.states[n], sid)
  {
    RunInv(r, n);
  }

  /** When no handshake is past creating its session and stop is not in the middle of
      disconnecting, a device has at most one live session, the one in the map, not
      counting sessions left behind by handshakes that ran out of memory. */
  lemma OneLiveSession(r: Run, n: nat, x: Sid, y: Sid)
    requires IsRun(r) && n < |r.states| && Idle(r.states[n]) && !r.states[n].phase.Collected?
    requires !Orphaned(r.states[n], x) && !Orphaned(r.states[n], y)
    requires Live(r.states[n], x) && Live(r.states[n], y) && r.states[n].table[x].device == r.states[n].table[y].device
    ensures x == y && Lookup(r.states[n], r.states[n].table[x].device) == Some(x)
  {
    RunInv(r, n);
    var s := r.states[n];
    assert Accounted(s, x) && Accounted(s, y);
    var d :| d in s.sessions && s.sessions[d] == x;
    var e :| e in s.sessions && s.sessions[e] == y;
  }

  // ----- Sessions that nobody else knows

  /** The map, a replacing thread or stop knows the session. */
  ghost predicate Known(s: State, sid: Sid) {
    || sid in s.sessions.Values
    || (exists t :: t in s.threads && (s.threads[t].Replaced? || s.threads[t].Joining?) && s.threads[t].prev == sid)
    || ((s.phase.Collected? || s.phase.Draining?) && sid in s.phase.sids)
  }

  /** Thread t created the session and has not installed it. */
  ghost predicate Holds(s: State, t: Tid, sid: Sid) {
    t in s.threads && (s.threads[t].Created? || s.threads[t].Dropped?) && s.threads[t].sid == sid
  }

  /** A session that is not installed is known to its creator alone and disconnects only
      when its io thread ends. */
  ghost predicate Apart(s: State) {
    forall t, sid :: Holds(s, t, sid) ==>
      && sid in s.table && !Known(s, sid) && (s.table[sid].running <==> !s.table[sid].disconnected)
      && forall u :: Holds(s, u, sid) ==> u == t
  }

  /** Io threads end only with the session disconnected. */
  ghost predicate EndedAreDisconnected(s: State) {
    forall sid :: sid in s.table && !s.table[sid].running ==> s.table[sid].disconnected
  }

  lemma InitialApart(s: State)
    requires Initial(s)
    ensures Apart(s) && EndedAreDisconnected(s)
  {
  }

  /** Nobody knows or holds more sessions than before, and a session runs and is connected as before
      or its io thread has ended. */
  ghost predicate SameOwners(s: State, n: State) {
    && (forall t, sid :: Holds(n, t, sid) ==> Holds(s, t, sid))
    && (forall sid :: Known(n, sid) ==> Known(s, sid))
    && s.table.Keys == n.table.Keys
    && (forall sid :: sid in s.table ==>
         || (n.table[sid].running == s.table[sid].running && n.table[sid].disconnected == s.table[sid].disconnected)
         || (!n.table[sid].running && n.table[sid].disconnected)
         || (Known(s, sid) && n.table[sid].disconnected))
  }

  lemma SameOwnersApart(s: State, n: State)
    requires Apart(s) && EndedAreDisconnected(s) && SameOwners(s, n)
    ensures Apart(n) && EndedAreDisconnected(n)
  {
    hide Holds, Known;
  }

  /** Steps of packets, io threads and local calls. */
  lemma OneSessionApart(s: State, n: State, sid: Sid)
    requires n.phase == s.phase && n.threads == s.threads && n.sessions == s.sessions
    requires sid in s.table && sid in n.table && n.table == s.table[sid := n.table[sid]]
    requires || (n.table[sid].running == s.table[sid].running && n.table[sid].disconnected == s.table[sid].disconnected)
             || (!n.table[sid].running && n.table[sid].disconnected)
    ensures SameOwners(s, n)
  {
    hide Holds, Known;
    SameHolders(s, n);
  }

  lemma SameHolders(s: State, n: State)
    requires n.phase == s.phase && n.threads == s.threads && n.sessions == s.sessions
    ensures forall t, sid :: Holds(n, t, sid) ==> Holds(s, t, sid)
    ensures forall sid :: Known(n, sid) ==> Known(s, sid)
  {
  }

  lemma CallApart(s: State, e: Event)
    requires e.RequestPair? || e.AcceptPair? || e.RejectPair? || e.Unpair?
    ensures SameOwners(s, Next(s, e))
  {
    hide SameOwners;
    var l, n := Lookup(s, e.device), Next(s, e);
    if l.Some? {
      OneSessionApart(s, n, l.value);
    } else {
      UntouchedApart(s, n);
    }
  }

  lemma UntouchedApart(s: State, n: State)
    requires n.phase == s.phase && n.threads == s.threads && n.sessions == s.sessions && n.table == s.table
    ensures SameOwners(s, n)
  {
    hide Holds, Known;
    SameHolders(s, n);
  }

  lemma PacketApart(s: State, e: Event)
    requires Enabled(s, e) && (e.PairPacket? || e.PluginPacket? || e.IoEnd?)
    ensures SameOwners(s, Next(s, e))
  {
    hide SameOwners;
    OneSessionApart(s, Next(s, e), e.sid);
  }

  /** A thread that holds and knows no session moves on to a state in which it does neither. */
  lemma ThreadApart(s: State, t: Tid, th: Thread)
    requires t in s.threads ==> !s.threads[t].Dropped?
    requires th.Started? || th.Checked? || th.Loaded? || th.Finished?
    ensures SameOwners(s, SetThread(s, t, th))
  {
    var n := SetThread(s, t, th);
    forall sid | Known(n, sid) ensures Known(s, sid) {
      if u :| u in n.threads && (n.threads[u].Replaced? || n.threads[u].Joining?) && n.threads[u].prev == sid {
        assert s.threads[u] == n.threads[u];
      }
    }
  }

  lemma CreateApart(s: State, t: Tid, sid: Sid, cert: string)
    requires Inv(s) && Apart(s) && EndedAreDisconnected(s) && Enabled(s, Create(t, sid, cert))
    ensures var n := Next(s, Create(t, sid, cert)); Apart(n) && EndedAreDisconnected(n)
  {
    var n := Next(s, Create(t, sid, cert));
    ThreadsRunEarly(s, t);
    forall x | Known(n, x) ensures Known(s, x) && x in s.table {
      if x !in s.sessions.Values {
        var u :| u in n.threads && (n.threads[u].Replaced? || n.threads[u].Joining?) && n.threads[u].prev == x;
        assert s.threads[u] == n.threads[u];
      }
    }
    forall u, x | Holds(n, u, x) ensures if u == t then x == sid else x != sid && Holds(s, u, x) {
      if u != t { assert Holds(s, u, x); }
    }
  }

  /** Giving up keeps the session to its creator. */
  lemma DropApart(s: State, t: Tid)
    requires Enabled(s, Drop(t))
    ensures SameOwners(s, Next(s, Drop(t)))
  {
    var n := Next(s, Drop(t));
    forall sid | Known(n, sid) ensures Known(s, sid) {
      if u :| u in n.threads && (n.threads[u].Replaced? || n.threads[u].Joining?) && n.threads[u].prev == sid {
        assert s.threads[u] == n.threads[u];
      }
    }
  }

  lemma InstallApart(s: State, t: Tid)
    requires Apart(s) && EndedAreDisconnected(s) && Enabled(s, Install(t))
    ensures var n := Next(s, Install(t)); Apart(n) && EndedAreDisconnected(n)
  {
    var n, own := Next(s, Install(t)), s.threads[t].sid;
    assert Holds(s, t, own);
    forall x | Known(n, x) ensures x == own || Known(s, x) {
      if x in n.sessions.Values {
        var d :| d in n.sessions && n.sessions[d] == x;
        assert x == own || s.sessions[d] == x;
      } else if u :| u in n.threads && (n.threads[u].Replaced? || n.threads[u].Joining?) && n.threads[u].prev == x {
        if u != t { assert s.threads[u] == n.threads[u]; }
      }
    }
    forall u, x | Holds(n, u, x) ensures Holds(s, u, x) && x != own {
      assert u != t && Holds(s, u, x);
    }
  }

  lemma TeardownApart(s: State, t: Tid)
    requires Enabled(s, Teardown(t))
    ensures SameOwners(s, Next(s, Teardown(t)))
  {
    var n := Next(s, Teardown(t));
    assert Known(s, s.threads[t].prev);
    forall sid | Known(n, sid) ensures Known(s, sid) {
      if u :| u in n.threads && (n.threads[u].Replaced? || n.threads[u].Joining?) && n.threads[u].prev == sid {
        if u != t { assert s.threads[u] == n.threads[u]; }
      }
    }
  }

  lemma StopApart(s: State, e: Event)
    requires Enabled(s, e)
    requires e.StopCalled? || e.StopNet? || e.StopCollect? || e.StopDisconnect? || e.StopReturn?
    ensures SameOwners(s, Next(s, e))
  {
  }

  lemma StepApart(s: State, e: Event)
    requires Inv(s) && Apart(s) && EndedAreDisconnected(s) && Enabled(s, e)
    ensures Apart(Next(s, e)) && EndedAreDisconnected(Next(s, e))
  {
    hide Inv, Apart, EndedAreDisconnected, SameOwners;
    match e
    case Create(t, sid, cert) => CreateApart(s, t, sid, cert);
    case Install(t) => InstallApart(s, t);
    case _ =>
      OwnersStep(s, e);
      SameOwnersApart(s, Next(s, e));
  }

  lemma OwnersStep(s: State, e: Event)
    requires Enabled(s, e) && !e.Create? && !e.Install?
    ensures SameOwners(s, Next(s, e))
  {
    hide SameOwners;
    match e
    case Begin(t, d) => ThreadApart(s, t, Started(d));
    case Check(t) => ThreadApart(s, t, Next(s, e).threads[t]);
    case Load(t) => ThreadApart(s, t, Next(s, e).threads[t]);
    case Fail(t) => ThreadApart(s, t, Finished);
    case Join(t) => ThreadApart(s, t, Finished);
    case Drop(t) => DropApart(s, t);
    case Teardown(t) => TeardownApart(s, t);
    case PairPacket(_, _, _, _) => PacketApart(s, e);
    case PluginPacket(_) => PacketApart(s, e);
    case IoEnd(_) => PacketApart(s, e);
    case RequestPair(_, _) => CallApart(s, e);
    case AcceptPair(_) => CallApart(s, e);
    case RejectPair(_) => CallApart(s, e);
    case Unpair(_) => CallApart(s, e);
    case _ => StopApart(s, e);
  }

  lemma {:induction false} RunApart(r: Run, n: nat)
    requires IsRun(r) && n < |r.states|
    ensures Apart(r.states[n]) && EndedAreDisconnected(r.states[n])
  {
    hide Inv, Enabled, Initial, Apart, EndedAreDisconnected;
    if n == 0 {
      InitialApart(r.states[0]);
    } else {
      RunInv(r, n - 1);
      RunApart(r, n - 1);
      StepApart(r.states[n - 1], r.events[n - 1]);
    }
  }

  /** When stop has returned, every session ever created is disconnected, except exactly those that
      a handshake left behind when it ran out of memory and whose io thread has not ended by then. */
  lemma StoppedDisconnectsAll(r: Run, n: nat, sid: Sid)
    requires IsRun(r) && n < |r.states| && r.states[n].phase.Stopped? && sid in r.states[n].table
    ensures r.states[n].table[sid].disconnected <==> !(Orphaned(r.states[n], sid) && r.states[n].table[sid].running)
  {
    RunInv(r, n);
    RunApart(r, n);
    var s := r.states[n];
    assert NoneLost(s) && !Accounted(s, sid);
    if Orphaned(s, sid) {
      var t :| t in s.threads && s.threads[t].Dropped? && s.threads[t].sid == sid;
      assert Holds(s, t, sid);
    }
  }

  /** A session left behind outlives stop: its handshake runs out of memory before it is in the map,
      and nobody disconnects it. */
  lemma OrphanOutlivesStop() returns (r: Run)
    ensures IsRun(r) && |r.states| == 11 && r.states[10].phase.Stopped? && Live(r.states[10], 0)
    ensures !Accounted(r.states[10], 0) && Orphaned(r.states[10], 0)
  {
    hide Enabled, Next, Reaches;
    var s0 := State("me", Running, map[], map[], map[], map[], []);
    var s1, s2, s3 := s0.(threads := map[0 := Started("d")]), s0.(threads := map[0 := Checked("d")]), s0.(threads := map[0 := Loaded("d", false)]);
    var s4 := s0.(threads := map[0 := Created("d", 0)], table := map[0 := Session("d", NotPaired, false, "pem", 0, false, true)]);
    var s5 := s4.(threads := map[0 := Dropped(0)]);
    OrphanSteps(s0, s4, s5);
    r := RunStart(s0);
    r := RunMore(r, 0, s0, Begin(0, "d"), s1);
    r := RunMore(r, 1, s1, Check(0), s2);
    r := RunMore(r, 2, s2, Load(0), s3);
    r := RunMore(r, 3, s3, Create(0, 0, "pem"), s4);
    r := RunMore(r, 4, s4, Drop(0), s5);
    assert s5.threads[0].Dropped?;
    r := RunStopped(r, 5, s5);
    OrphanIs(r.states[10], s5.table);
    ReachesRun(r, 10, r.states[10]);
  }

  lemma OrphanIs(s: State, table: map<Sid, Session>)
    requires s.phase == Stopped && s.sessions == map[] && s.threads == map[0 := Dropped(0)] && s.table == table
    requires 0 in table && !table[0].disconnected
    ensures Live(s, 0) && Orphaned(s, 0) && !Accounted(s, 0)
  {
    assert s.threads[0].Dropped?;
  }

  /** Stopping when nothing is in the map. */
  lemma RunStopped(r: Run, n: nat, s: State) returns (more: Run)
    requires Reaches(r, n, s) && s.phase == Running && s.sessions == map[]
    requires forall t :: t in s.threads ==> Ended(s.threads[t])
    ensures Reaches(more, n + 5, s.(phase := Stopped)) && |more.states| == n + 6 && more.states[n + 5] == s.(phase := Stopped)
  {
    hide Enabled, Next, Reaches;
    StopSteps(s);
    DrainSteps(s);
    more := RunMore(r, n, s, StopCalled, s.(phase := Stopping));
    more := RunMore(more, n + 1, s.(phase := Stopping), StopNet, s.(phase := NetJoined));
    more := RunMore(more, n + 2, s.(phase := NetJoined), StopCollect, s.(phase := Collected({})));
    more := RunMore(more, n + 3, s.(phase := Collected({})), StopDisconnect, s.(phase := Draining({})));
    more := RunMore(more, n + 4, s.(phase := Draining({})), StopReturn, s.(phase := Stopped));
  }

  lemma OrphanSteps(s0: State, s4: State, s5: State)
    requires s0 == State("me", Running, map[], map[], map[], map[], [])
    requires s4 == s0.(threads := map[0 := Created("d", 0)],
                       table := map[0 := Session("d", NotPaired, false, "pem", 0, false, true)])
    requires s5 == s4.(threads := map[0 := Dropped(0)])
    ensures Enabled(s0, Begin(0, "d")) && Next(s0, Begin(0, "d")) == s0.(threads := map[0 := Started("d")])
    ensures var s1 := s0.(threads := map[0 := Started("d")]);
            Enabled(s1, Check(0)) && Next(s1, Check(0)) == s0.(threads := map[0 := Checked("d")])
    ensures var s2 := s0.(threads := map[0 := Checked("d")]);
            Enabled(s2, Load(0)) && Next(s2, Load(0)) == s0.(threads := map[0 := Loaded("d", false)])
    ensures var s3 := s0.(threads := map[0 := Loaded("d", false)]);
            Enabled(s3, Create(0, 0, "pem")) && Next(s3, Create(0, 0, "pem")) == s4
    ensures Enabled(s4, Drop(0)) && Next(s4, Drop(0)) == s5
  {
  }

  lemma StopSteps(s: State)
    requires s.phase == Running && s.sessions == map[] && forall t :: t in s.threads ==> Ended(s.threads[t])
    ensures Enabled(s, StopCalled) && Next(s, StopCalled) == s.(phase := Stopping)
    ensures var a := s.(phase := Stopping); Enabled(a, StopNet) && Next(a, StopNet) == s.(phase := NetJoined)
    ensures var a := s.(phase := NetJoined); Enabled(a, StopCollect) && Next(a, StopCollect) == s.(phase := Collected({}))
  {
    assert s.sessions.Values == {};
  }

  lemma DrainSteps(s: State)
    ensures var a := s.(phase := Collected({})); Enabled(a, StopDisconnect) && Next(a, StopDisconnect) == s.(phase := Draining({}))
    ensures var a := s.(phase := Draining({})); Enabled(a, StopReturn) && Next(a, StopReturn) == s.(phase := Stopped)
  {
  }
}
