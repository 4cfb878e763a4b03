/** Paired flags and stored pairings: who writes which, when they agree in a run, and which
    packets reach the plugins. */
module PairingStorage {
  import opened Bytes
  import opened Sessions
  import opened SessionSafety
  import opened PairingSafety

  // ----- Who writes the storage

  predicate InWindow(timestamp: int, now: int) {
    timestamp == 0 || Abs(now - timestamp) <= PAIRING_WINDOW
  }

  /** What a step does to the storage of a device: it saves or removes the device, and sets
      the paired flag of one session, if any, at the same time. */
  datatype Write = Write(saved: bool, sets: Option<Sid>)

  function WriteOf(s: State, e: Event, d: Id): Option<Write> {
    match e
    case PairPacket(sid, wants, timestamp, now) =>
      if sid !in s.table || s.table[sid].device != d then None
      else if !wants then Some(Write(false, Some(sid)))
      else if InWindow(timestamp, now) && s.table[sid].state == Requested && s.table[sid].cert != "" then
        Some(Write(true, Some(sid)))
      else None
    case AcceptPair(x) =>
      if x == d && CanSend(s, d) && s.table[Lookup(s, d).value].cert != "" then Some(Write(true, Lookup(s, d))) else None
    case RejectPair(x) =>
      if x == d && CanSend(s, d) then Some(Write(false, Lookup(s, d))) else None
    case Unpair(x) =>
      if x == d && (!CanSend(s, d) || s.table[Lookup(s, d).value].paired) then Some(Write(false, Lookup(s, d))) else None
    case _ => None
  }

  /** The storage of d and the paired flag of its session sid are what this write makes of them. */
  ghost predicate Written(s: State, n: State, w: Option<Write>, d: Id, sid: Sid)
    requires sid in s.table
  {
    && (d in n.storage <==> if w.Some? then w.value.saved else d in s.storage)
    && sid in n.table && n.table[sid].device == d
    && (n.table[sid].paired <==> if w.Some? && w.value.sets == Some(sid) then w.value.saved else s.table[sid].paired)
  }

  lemma PacketWritten(s: State, e: Event, d: Id, sid: Sid)
    requires Enabled(s, e) && e.PairPacket? && sid in s.table && s.table[sid].device == d
    ensures Written(s, Next(s, e), WriteOf(s, e, d), d, sid)
  {
    hide OnRequestPair, OnAcceptPair, OnRejectPair, OnUnpair, CanSend, Lookup;
  }

  lemma AcceptWritten(s: State, x: Id, d: Id, sid: Sid)
    requires WellLinked(s) && sid in s.table && s.table[sid].device == d
    ensures Written(s, OnAcceptPair(s, x), WriteOf(s, AcceptPair(x), d), d, sid)
  {
  }

  lemma RejectWritten(s: State, x: Id, d: Id, sid: Sid)
    requires WellLinked(s) && sid in s.table && s.table[sid].device == d
    ensures Written(s, OnRejectPair(s, x), WriteOf(s, RejectPair(x), d), d, sid)
  {
  }

  lemma UnpairWritten(s: State, x: Id, d: Id, sid: Sid)
    requires WellLinked(s) && sid in s.table && s.table[sid].device == d
    ensures Written(s, OnUnpair(s, x), WriteOf(s, Unpair(x), d), d, sid)
  {
  }

  lemma RequestWritten(s: State, x: Id, now: int, d: Id, sid: Sid)
    requires WellLinked(s) && sid in s.table && s.table[sid].device == d
    ensures Written(s, OnRequestPair(s, x, now), WriteOf(s, RequestPair(x, now), d), d, sid)
  {
  }

  lemma OtherWritten(s: State, e: Event, d: Id, sid: Sid)
    requires Enabled(s, e) && sid in s.table && s.table[sid].device == d
    requires !e.PairPacket? && !e.RequestPair? && !e.AcceptPair? && !e.RejectPair? && !e.Unpair?
    ensures Written(s, Next(s, e), WriteOf(s, e, d), d, sid)
  {
    hide OnPairPacket, OnRequestPair, OnAcceptPair, OnRejectPair, OnUnpair, Lookup;
  }

  /** These steps and no others write the storage of d and the flags of its sessions. */
  lemma StepWrites(s: State, e: Event, d: Id, sid: Sid)
    requires Enabled(s, e) && WellLinked(s) && sid in s.table && s.table[sid].device == d
    ensures Written(s, Next(s, e), WriteOf(s, e, d), d, sid)
  {
    hide WriteOf, WellLinked, Written, OnPairPacket, OnRequestPair, OnAcceptPair, OnRejectPair, OnUnpair;
    match e
    case PairPacket(_, _, _, _) => PacketWritten(s, e, d, sid);
    case RequestPair(x, now) => RequestWritten(s, x, now, d, sid);
    case AcceptPair(x) => AcceptWritten(s, x, d, sid);
    case RejectPair(x) => RejectWritten(s, x, d, sid);
    case Unpair(x) => UnpairWritten(s, x, d, sid);
    case _ => OtherWritten(s, e, d, sid);
  }

  /** The storage of d changes in no other way, whether or not d has a session. */
  lemma StorageWrites(s: State, e: Event, d: Id)
    requires Enabled(s, e) && WellLinked(s)
    ensures var w := WriteOf(s, e, d); d in Next(s, e).storage <==> if w.Some? then w.value.saved else d in s.storage
  {
    hide CanSend, OnPairPacket, OnAcceptPair, OnRejectPair, OnUnpair;
    if e.AcceptPair? || e.RejectPair? || e.Unpair? || e.RequestPair? {
      StorageCall(s, e, d);
    } else if e.PairPacket? {
      StoragePacket(s, e, d);
    }
  }

  lemma StoragePacket(s: State, e: Event, d: Id)
    requires e.PairPacket? && Enabled(s, e)
    ensures var w := WriteOf(s, e, d); d in Next(s, e).storage <==> if w.Some? then w.value.saved else d in s.storage
  {
    hide OnRequestPair, OnAcceptPair, OnRejectPair, OnUnpair, CanSend, Lookup;
  }

  lemma StorageCall(s: State, e: Event, d: Id)
    requires (e.RequestPair? || e.AcceptPair? || e.RejectPair? || e.Unpair?) && WellLinked(s)
    ensures var w := WriteOf(s, e, d); d in Next(s, e).storage <==> if w.Some? then w.value.saved else d in s.storage
  {
    var l := Lookup(s, e.device);
    if l.Some? { assert s.table[l.value].device == e.device; }
  }

  /** The last of the first n steps that wrote the storage of d. */
  ghost function LastWrite(r: Run, n: nat, d: Id): (k: Option<nat>)
    requires n <= |r.events| < |r.states|
    ensures k.Some? ==> k.value < n && WriteOf(r.states[k.value], r.events[k.value], d).Some?
    ensures forall i :: 0 <= i < n && WriteOf(r.states[i], r.events[i], d).Some? ==> k.Some? && i <= k.value
  {
    if n == 0 then None
    else if WriteOf(r.states[n - 1], r.events[n - 1], d).Some? then Some(n - 1)
    else LastWrite(r, n - 1, d)
  }

  /** The step in which thread t looked into the storage. */
  ghost function LoadStep(r: Run, n: nat, t: Tid): (j: nat)
    requires n <= |r.events|
    ensures j <= n
    ensures j < n ==> r.events[j] == Load(t)
  {
    if n == 0 then 0 else if r.events[n - 1] == Load(t) then n - 1
    else
      var j := LoadStep(r, n - 1, t);
      if j == n - 1 then n else j
  }

  /** The step that settled whether session sid of device d is paired: the last one that set
      its flag and the storage together or, if there is none since it was created, the look
      into the storage of the handshake that created it. */
  ghost function SettledBy(r: Run, n: nat, d: Id, sid: Sid): (j: nat)
    requires n <= |r.events| < |r.states|
    ensures j <= n
  {
    if n == 0 then 0
    else
      var s, e := r.states[n - 1], r.events[n - 1];
      var w := WriteOf(s, e, d);
      if sid !in s.table then (if e.Create? then LoadStep(r, n - 1, e.t) else n)
      else if w.Some? && w.value.sets == Some(sid) then n - 1
      else SettledBy(r, n - 1, d, sid)
  }

  /** Since the paired flag of the session was settled, another session of the device or a
      local call has written the storage, and the last such write went the other way. */
  ghost predicate Outdated(r: Run, n: nat, d: Id, sid: Sid)
    requires n <= |r.events| < |r.states|
  {
    var j, k := SettledBy(r, n, d, sid), LastWrite(r, n, d);
    && k.Some? && j < k.value
    && WriteOf(r.states[k.value], r.events[k.value], d).value.saved != SettledAs(r, j, d)
  }

  /** What a settling step found or put into the storage. */
  ghost predicate SettledAs(r: Run, j: nat, d: Id)
    requires j < |r.events| < |r.states|
  {
    if r.events[j].Load? then d in r.states[j].storage
    else
      var w := WriteOf(r.states[j], r.events[j], d);
      w.Some? && w.value.saved
  }

  lemma {:induction false} StorageSince(r: Run, m: nat, n: nat, d: Id)
    requires IsRun(r) && m <= n <= |r.events|
    ensures var k := LastWrite(r, n, d);
            d in r.states[n].storage <==>
            if k.Some? && m <= k.value then WriteOf(r.states[k.value], r.events[k.value], d).value.saved
            else d in r.states[m].storage
    decreases n
  {
    hide Next, Enabled, Initial, WriteOf, WellLinked;
    if m < n {
      StorageSince(r, m, n - 1, d);
      RunLinked(r, n - 1);
      StorageWrites(r.states[n - 1], r.events[n - 1], d);
    }
  }

  lemma {:induction false} LoadStepIs(r: Run, n: nat, t: Tid)
    requires IsRun(r) && n <= |r.events| && t in r.states[n].threads && r.states[n].threads[t].Loaded?
    ensures LoadStep(r, n, t) < n && LoadedAt(r, LoadStep(r, n, t), n, t)
  {
    hide Next, Enabled, Initial;
    if n == 0 {
      InitialThreads(r.states[0]);
    } else {
      var s, e := r.states[n - 1], r.events[n - 1];
      LoadedBecause(s, e, t);
      if e != Load(t) { LoadStepIs(r, n - 1, t); }
    }
  }

  /** Nobody else changes a session's paired flag. */
  lemma {:induction false} FlagSettled(r: Run, n: nat, sid: Sid)
    requires IsRun(r) && n <= |r.events| && sid in r.states[n].table
    ensures var d := r.states[n].table[sid].device; var j := SettledBy(r, n, d, sid);
            && j < n && (r.states[n].table[sid].paired <==> SettledAs(r, j, d))
            && (r.events[j].Load? || WriteOf(r.states[j], r.events[j], d).Some?)
    decreases n
  {
    hide Next, Enabled, Initial, WriteOf, WellLinked;
    if n == 0 {
      InitialThreads(r.states[0]);
    } else {
      var s, e := r.states[n - 1], r.events[n - 1];
      RunLinked(r, n - 1);
      if sid !in s.table {
        CreatedFrom(s, e, sid);
        LoadStepIs(r, n - 1, e.t);
      } else {
        StepWrites(s, e, s.table[sid].device, sid);
        FlagSettled(r, n - 1, sid);
        LoadsDoNotWrite(s, e, s.table[sid].device);
      }
    }
  }

  lemma CreatedFrom(s: State, e: Event, sid: Sid)
    requires Enabled(s, e) && sid !in s.table && sid in Next(s, e).table
    ensures e.Create? && e.t in s.threads && s.threads[e.t].Loaded?
    ensures var y := Next(s, e).table[sid]; y.device == s.threads[e.t].device && y.paired == s.threads[e.t].stored
  {
    hide OnPairPacket, OnRequestPair, OnAcceptPair, OnRejectPair, OnUnpair, Lookup;
    OldSessions(s, e, sid);
  }

  lemma LoadsDoNotWrite(s: State, e: Event, d: Id)
    ensures e.Load? ==> WriteOf(s, e, d).None?
  {
  }

  /** In every state of every run and for every session, installed, replaced or not yet
      installed: it is paired exactly when its device is in storage, unless it is outdated. */
  lemma FlagIsStored(r: Run, n: nat, sid: Sid)
    requires IsRun(r) && n <= |r.events| && sid in r.states[n].table
    ensures var x := r.states[n].table[sid];
            (x.paired <==> x.device in r.states[n].storage) <==> !Outdated(r, n, x.device, sid)
  {
    hide Next, Enabled, Initial, WriteOf;
    var d := r.states[n].table[sid].device;
    FlagSettled(r, n, sid);
    var j := SettledBy(r, n, d, sid);
    StorageSince(r, j, n, d);
    LoadsDoNotWrite(r.states[j], r.events[j], d);
  }

  /** The installed session of d is paired exactly when d is in storage. */
  ghost predicate Agrees(s: State, d: Id) {
    Lookup(s, d).Some? ==> (s.table[Lookup(s, d).value].paired <==> d in s.storage)
  }

  /** Flag and storage agree for d throughout the first n steps exactly when at no time the
      installed session is outdated. */
  lemma AgreementRun(r: Run, n: nat, d: Id)
    requires IsRun(r) && n <= |r.events|
    ensures (forall i :: 0 <= i <= n ==> Agrees(r.states[i], d)) <==>
            (forall i :: 0 <= i <= n ==> Lookup(r.states[i], d).Some? ==> !Outdated(r, i, d, Lookup(r.states[i], d).value))
  {
    hide Outdated, WellLinked, Next, Enabled, Initial;
    forall i | 0 <= i <= n
      ensures Agrees(r.states[i], d) <==> (Lookup(r.states[i], d).Some? ==> !Outdated(r, i, d, Lookup(r.states[i], d).value))
    {
      RunLinked(r, i);
      InstalledDevice(r.states[i], d);
      if Lookup(r.states[i], d).Some? { FlagIsStored(r, i, Lookup(r.states[i], d).value); }
    }
  }

  lemma InstalledDevice(s: State, d: Id)
    requires WellLinked(s)
    ensures Lookup(s, d).Some? ==> Lookup(s, d).value in s.table && s.table[Lookup(s, d).value].device == d
  {
  }

  /** A packet for the plugins is delivered to them exactly when its device is in storage,
      unless the session it came through is outdated, and then exactly when it is not. */
  lemma PluginsSeeStoredDevices(r: Run, k: nat)
    requires IsRun(r) && k < |r.events| && r.events[k].PluginPacket?
    ensures var sid := r.events[k].sid;
            && sid in r.states[k].table
            && var d := r.states[k].table[sid].device;
            && (r.states[k + 1].delivered == r.states[k].delivered + [sid] || r.states[k + 1].delivered == r.states[k].delivered)
            && ((r.states[k + 1].delivered == r.states[k].delivered + [sid] <==> d in r.states[k].storage)
                <==> !Outdated(r, k, d, sid))
  {
    hide Outdated;
    var s, sid := r.states[k], r.events[k].sid;
    assert Enabled(s, r.events[k]);
    FlagIsStored(r, k, sid);
    assert s.delivered + [sid] != s.delivered;
  }

  // ----- Sessions that are not installed yet

  /** A session that its handshake has not installed is nobody else's, and no local call reaches it. */
  ghost predicate Fresh(s: State) {
    forall t :: t in s.threads && s.threads[t].Created? ==>
      && s.threads[t].sid in s.table && s.table[s.threads[t].sid].state != Requested
      && s.threads[t].sid !in s.sessions.Values
      && forall u :: u in s.threads && s.threads[u].Created? && u != t ==> s.threads[u].sid != s.threads[t].sid
  }

  lemma FreshCall(s: State, e: Event)
    requires (e.RequestPair? || e.AcceptPair? || e.RejectPair? || e.Unpair?) && Fresh(s)
    ensures Fresh(Next(s, e))
  {
    hide CanSend;
    CallShape(s, e);
    var l := Lookup(s, e.device);
    if l.Some? { assert l.value in s.sessions.Values; }
  }

  lemma FreshPacket(s: State, e: Event)
    requires e.PairPacket? && Enabled(s, e) && Fresh(s)
    ensures Fresh(Next(s, e))
  {
    hide OnRequestPair, OnAcceptPair, OnRejectPair, OnUnpair;
    var n := Next(s, e);
    assert n.table == s.table[e.sid := n.table[e.sid]] && n.threads == s.threads && n.sessions == s.sessions;
  }

  lemma FreshCreate(s: State, e: Event)
    requires e.Create? && Enabled(s, e) && WellLinked(s) && Fresh(s)
    ensures Fresh(Next(s, e))
  {
    var n := Next(s, e);
    assert n.sessions == s.sessions && n.threads == s.threads[e.t := n.threads[e.t]];
  }

  lemma FreshInstall(s: State, e: Event)
    requires e.Install? && Enabled(s, e) && Fresh(s)
    ensures Fresh(Next(s, e))
  {
    var n := Next(s, e);
    var sid := s.threads[e.t].sid;
    assert n.table == s.table && n.threads == s.threads[e.t := n.threads[e.t]] && !n.threads[e.t].Created?;
    assert forall x :: x in n.sessions.Values ==> x in s.sessions.Values || x == sid;
  }

  lemma FreshOther(s: State, e: Event)
    requires Enabled(s, e) && Fresh(s) && !e.Create? && !e.Install? && !e.PairPacket?
    requires !e.RequestPair? && !e.AcceptPair? && !e.RejectPair? && !e.Unpair?
    ensures Fresh(Next(s, e))
  {
    hide OnPairPacket, OnRequestPair, OnAcceptPair, OnRejectPair, OnUnpair, Lookup, Next, Enabled;
    OtherShape(s, e);
  }

  /** Such a step adds no map entry, creates no session and leaves the pairing states alone. */
  lemma OtherShape(s: State, e: Event)
    requires Enabled(s, e) && !e.Create? && !e.Install? && !e.PairPacket?
    requires !e.RequestPair? && !e.AcceptPair? && !e.RejectPair? && !e.Unpair?
    ensures var n := Next(s, e);
            && (forall x :: x in n.sessions.Values ==> x in s.sessions.Values)
            && (forall t :: t in n.threads && n.threads[t].Created? ==> t in s.threads && n.threads[t] == s.threads[t])
            && (forall sid :: sid in s.table ==> sid in n.table && n.table[sid].state == s.table[sid].state)
  {
    hide OnPairPacket, OnRequestPair, OnAcceptPair, OnRejectPair, OnUnpair, Lookup;
    var n := Next(s, e);
    assert n.sessions == s.sessions || n.sessions == map[];
  }

  lemma {:induction false} RunFresh(r: Run, n: nat)
    requires IsRun(r) && n < |r.states|
    ensures Fresh(r.states[n])
  {
    hide Fresh, Next, Enabled, Initial, WellLinked;
    if n == 0 {
      InitiallyFresh(r.states[0]);
    } else {
      var s, e := r.states[n - 1], r.events[n - 1];
      RunFresh(r, n - 1);
      RunLinked(r, n - 1);
      if e.Create? {
        FreshCreate(s, e);
      } else if e.Install? {
        FreshInstall(s, e);
      } else if e.PairPacket? {
        FreshPacket(s, e);
      } else if e.RequestPair? || e.AcceptPair? || e.RejectPair? || e.Unpair? {
        FreshCall(s, e);
      } else {
        FreshOther(s, e);
      }
    }
  }

  lemma InitiallyFresh(s: State)
    requires Initial(s)
    ensures Fresh(s)
  {
  }

  /** How a thread comes to hold a session it has created. */
  lemma CreatedBefore(s: State, e: Event, t: Tid)
    requires Enabled(s, e) && t in Next(s, e).threads && Next(s, e).threads[t].Created?
    ensures var sid := Next(s, e).threads[t].sid;
            (e.Create? && e.t == t && e.sid == sid && sid !in s.table)
            || (t in s.threads && s.threads[t] == Next(s, e).threads[t])
  {
    hide OnPairPacket, OnRequestPair, OnAcceptPair, OnRejectPair, OnUnpair, Lookup;
    if e.RequestPair? || e.AcceptPair? || e.RejectPair? || e.Unpair? {
      CallShape(s, e);
    } else if e.PairPacket? {
      PacketThreads(s, e);
    }
  }

  lemma PacketThreads(s: State, e: Event)
    requires Enabled(s, e) && e.PairPacket?
    ensures Next(s, e).threads == s.threads
  {
    hide OnRequestPair, OnAcceptPair, OnRejectPair, OnUnpair;
  }

  /** What writes the flag of a session that is not installed is its peer's unpair packet. */
  lemma FreshWrite(s: State, e: Event, d: Id, t: Tid)
    requires Enabled(s, e) && Fresh(s) && t in s.threads && s.threads[t].Created?
    requires WriteOf(s, e, d).Some? && WriteOf(s, e, d).value.sets == Some(s.threads[t].sid)
    ensures e.PairPacket? && e.sid == s.threads[t].sid && !e.wants
  {
    hide CanSend;
    assert s.threads[t].sid !in s.sessions.Values && s.table[s.threads[t].sid].state != Requested;
  }

  /** Until a session is installed, what settles its paired flag is the look into the storage
      at the start of its handshake or an unpair packet of its own peer. So an outdated session
      is installed exactly if, between that step and the installation, another session or a
      local call wrote the storage and the last such write went the other way. */
  lemma {:induction false} SettledBeforeInstall(r: Run, n: nat, t: Tid)
    requires IsRun(r) && n <= |r.events| && t in r.states[n].threads && r.states[n].threads[t].Created?
    ensures var sid := r.states[n].threads[t].sid;
            var j := SettledBy(r, n, r.states[n].threads[t].device, sid);
            j < n && (r.events[j] == Load(t) || (r.events[j].PairPacket? && r.events[j].sid == sid && !r.events[j].wants))
  {
    hide Next, Enabled, Initial, WriteOf, WellLinked, Fresh;
    if n == 0 {
      InitialThreads(r.states[0]);
    } else {
      var s, e := r.states[n - 1], r.events[n - 1];
      CreatedBefore(s, e, t);
      var d, sid := r.states[n].threads[t].device, r.states[n].threads[t].sid;
      if sid !in s.table {
        CreatedStep(r, n, t);
      } else {
        RunFresh(r, n - 1);
        SettledBeforeInstall(r, n - 1, t);
        var w := WriteOf(s, e, d);
        if w.Some? && w.value.sets == Some(sid) { FreshWrite(s, e, d, t); }
      }
    }
  }

  lemma CreatedStep(r: Run, n: nat, t: Tid)
    requires IsRun(r) && 0 < n <= |r.events| && t in r.states[n].threads && r.states[n].threads[t].Created?
    requires r.states[n].threads[t].sid !in r.states[n - 1].table
    ensures r.events[n - 1].Create? && r.events[n - 1].t == t && LoadStep(r, n - 1, t) < n - 1
  {
    hide Next, Enabled, WriteOf, Initial;
    var s, e := r.states[n - 1], r.events[n - 1];
    CreatedBefore(s, e, t);
    if t in s.threads && s.threads[t] == r.states[n].threads[t] {
      RunFresh(r, n - 1);
    }
    CreatesLoaded(s, e);
    LoadStepIs(r, n - 1, t);
  }

  lemma CreatesLoaded(s: State, e: Event)
    requires Enabled(s, e) && e.Create?
    ensures e.t in s.threads && s.threads[e.t].Loaded?
  {
  }

  // ----- Two runs

  /** Steps can be overtaken: a stored device is unpaired while its handshake is under way,
      and the session installed afterwards is paired although nothing is stored. */
  lemma UnpairDuringHandshake() returns (r: Run)
    ensures IsRun(r) && |r.states| == 7 && Lookup(r.states[6], "d") == Some(0)
    ensures r.states[6].table[0].paired && "d" !in r.states[6].storage && !Agrees(r.states[6], "d")
  {
    var s0 := State("me", Running, map[], map[], map[], map["d" := "pem"], []);
    var s1 := s0.(threads := map[0 := Started("d")]);
    var s2 := s0.(threads := map[0 := Checked("d")]);
    var s3 := s0.(threads := map[0 := Loaded("d", true)]);
    var s4 := s3.(storage := map[]);
    var x := Session("d", Paired, true, "pem", 0, false, true);
    var s5 := s4.(threads := map[0 := Created("d", 0)], table := map[0 := x]);
    var s6 := s5.(threads := map[0 := Finished], sessions := map["d" := 0]);
    hide Enabled, Next, Reaches;
    HandshakeStarts(s0, s1, s2, s3);
    HandshakeOvertaken(s3, s4);
    HandshakeEnds(s4, s5, s6);
    r := RunStart(s0);
    r := RunMore(r, 0, s0, Begin(0, "d"), s1);
    r := RunMore(r, 1, s1, Check(0), s2);
    r := RunMore(r, 2, s2, Load(0), s3);
    r := RunMore(r, 3, s3, Unpair("d"), s4);
    r := RunMore(r, 4, s4, Create(0, 0, "pem"), s5);
    r := RunMore(r, 5, s5, Install(0), s6);
    ReachesRun(r, 6, s6);
  }

  lemma HandshakeOvertaken(s3: State, s4: State)
    requires s3 == State("me", Running, map[0 := Loaded("d", true)], map[], map[], map["d" := "pem"], [])
    requires s4 == s3.(storage := map[])
    ensures Enabled(s3, Unpair("d")) && Next(s3, Unpair("d")) == s4
  {
    assert Lookup(s3, "d") == None && map["d" := "pem"] - {"d"} == map[];
  }

  lemma HandshakeStarts(s0: State, s1: State, s2: State, s3: State)
    requires s0 == State("me", Running, map[], map[], map[], map["d" := "pem"], [])
    requires s1 == s0.(threads := map[0 := Started("d")]) && s2 == s0.(threads := map[0 := Checked("d")])
    requires s3 == s0.(threads := map[0 := Loaded("d", true)])
    ensures Enabled(s0, Begin(0, "d")) && Next(s0, Begin(0, "d")) == s1
    ensures Enabled(s1, Check(0)) && Next(s1, Check(0)) == s2
    ensures Enabled(s2, Load(0)) && Next(s2, Load(0)) == s3
  {
  }

  lemma HandshakeEnds(s4: State, s5: State, s6: State)
    requires s4 == State("me", Running, map[0 := Loaded("d", true)], map[], map[], map[], [])
    requires s5 == s4.(threads := map[0 := Created("d", 0)],
                       table := map[0 := Session("d", Paired, true, "pem", 0, false, true)])
    requires s6 == s5.(threads := map[0 := Finished], sessions := map["d" := 0])
    ensures Enabled(s4, Create(0, 0, "pem")) && Next(s4, Create(0, 0, "pem")) == s5
    ensures Enabled(s5, Install(0)) && Next(s5, Install(0)) == s6
  {
  }

  const PAIRED_SESSION := Session("d", Paired, true, "pem", 0, false, true)

  /** Two handshakes of a stored device, up to their looks into the storage. */
  ghost function Shaking(zero: Thread, one: Thread): State {
    State("me", Running, map[0 := zero, 1 := one], map[], map[], map["d" := "pem"], [])
  }

  lemma BothStart(s0: State, s1: State)
    requires s0 == State("me", Running, map[], map[], map[], map["d" := "pem"], [])
    requires s1 == s0.(threads := map[0 := Started("d")])
    ensures Enabled(s0, Begin(0, "d")) && Next(s0, Begin(0, "d")) == s1
    ensures Enabled(s1, Begin(1, "d")) && Next(s1, Begin(1, "d")) == Shaking(Started("d"), Started("d"))
  {
  }

  lemma BothLook()
    ensures var s := Shaking(Started("d"), Started("d")); Enabled(s, Check(0)) && Next(s, Check(0)) == Shaking(Checked("d"), Started("d"))
    ensures var s := Shaking(Checked("d"), Started("d")); Enabled(s, Check(1)) && Next(s, Check(1)) == Shaking(Checked("d"), Checked("d"))
    ensures var s := Shaking(Checked("d"), Checked("d"));
            Enabled(s, Load(0)) && Next(s, Load(0)) == Shaking(Loaded("d", true), Checked("d"))
    ensures var s := Shaking(Loaded("d", true), Checked("d"));
            Enabled(s, Load(1)) && Next(s, Load(1)) == Shaking(Loaded("d", true), Loaded("d", true))
  {
  }

  lemma BothCreate(s7: State, s8: State)
    requires s7 == Shaking(Created("d", 0), Loaded("d", true)).(table := map[0 := PAIRED_SESSION])
    requires s8 == Shaking(Created("d", 0), Created("d", 1)).(table := map[0 := PAIRED_SESSION, 1 := PAIRED_SESSION])
    ensures var s := Shaking(Loaded("d", true), Loaded("d", true)); Enabled(s, Create(0, 0, "pem")) && Next(s, Create(0, 0, "pem")) == s7
    ensures Enabled(s7, Create(1, 1, "pem")) && Next(s7, Create(1, 1, "pem")) == s8
  {
  }

  lemma BothInstall(s8: State, s9: State, s10: State)
    requires s8 == Shaking(Created("d", 0), Created("d", 1)).(table := map[0 := PAIRED_SESSION, 1 := PAIRED_SESSION])
    requires s9 == s8.(threads := map[0 := Finished, 1 := Created("d", 1)], sessions := map["d" := 0])
    requires s10 == s9.(threads := map[0 := Finished, 1 := Replaced(0)], sessions := map["d" := 1])
    ensures Enabled(s8, Install(0)) && Next(s8, Install(0)) == s9
    ensures Enabled(s9, Install(1)) && Next(s9, Install(1)) == s10
  {
  }

  lemma UnpairsSecond(s10: State, s11: State, s12: State)
    requires s10.table == map[0 := PAIRED_SESSION, 1 := PAIRED_SESSION] && s10.sessions == map["d" := 1] && s10.storage == map["d" := "pem"]
    requires s10.delivered == []
    requires s11 == s10.(table := map[0 := PAIRED_SESSION, 1 := PAIRED_SESSION.(state := NotPaired, paired := false)], storage := map[])
    requires s12 == s11.(delivered := [0])
    ensures Enabled(s10, Unpair("d")) && Next(s10, Unpair("d")) == s11
    ensures Enabled(s11, PluginPacket(0)) && Next(s11, PluginPacket(0)) == s12
  {
    assert map["d" := "pem"] - {"d"} == map[];
    assert s11.delivered + [0] == [0];
  }

  /** The two handshakes before either session is created. */
  lemma BothLoaded(s0: State) returns (r: Run)
    requires s0 == State("me", Running, map[], map[], map[], map["d" := "pem"], [])
    ensures Reaches(r, 6, Shaking(Loaded("d", true), Loaded("d", true)))
  {
    hide Enabled, Next, Shaking, Reaches;
    r := RunStart(s0);
    var s1 := s0.(threads := map[0 := Started("d")]);
    BothStart(s0, s1);
    BothLook();
    r := RunMore(r, 0, s0, Begin(0, "d"), s1);
    r := RunMore(r, 1, s1, Begin(1, "d"), Shaking(Started("d"), Started("d")));
    r := RunMore(r, 2, Shaking(Started("d"), Started("d")), Check(0), Shaking(Checked("d"), Started("d")));
    r := RunMore(r, 3, Shaking(Checked("d"), Started("d")), Check(1), Shaking(Checked("d"), Checked("d")));
    r := RunMore(r, 4, Shaking(Checked("d"), Checked("d")), Load(0), Shaking(Loaded("d", true), Checked("d")));
    r := RunMore(r, 5, Shaking(Loaded("d", true), Checked("d")), Load(1), Shaking(Loaded("d", true), Loaded("d", true)));
  }

  /** The first session has been replaced by the second one and is not yet disconnected. */
  ghost function BothInstalled(): State {
    State("me", Running, map[0 := Finished, 1 := Replaced(0)], map[0 := PAIRED_SESSION, 1 := PAIRED_SESSION],
          map["d" := 1], map["d" := "pem"], [])
  }

  lemma RunInstalled() returns (r: Run)
    ensures Reaches(r, 10, BothInstalled())
  {
    hide Enabled, Next, Reaches;
    var s6 := Shaking(Loaded("d", true), Loaded("d", true));
    var s7 := Shaking(Created("d", 0), Loaded("d", true)).(table := map[0 := PAIRED_SESSION]);
    var s8 := Shaking(Created("d", 0), Created("d", 1)).(table := map[0 := PAIRED_SESSION, 1 := PAIRED_SESSION]);
    var s9 := s8.(threads := map[0 := Finished, 1 := Created("d", 1)], sessions := map["d" := 0]);
    r := BothLoaded(State("me", Running, map[], map[], map[], map["d" := "pem"], []));
    BothCreate(s7, s8);
    BothInstall(s8, s9, BothInstalled());
    r := RunMore(r, 6, s6, Create(0, 0, "pem"), s7);
    r := RunMore(r, 7, s7, Create(1, 1, "pem"), s8);
    r := RunMore(r, 8, s8, Install(0), s9);
    r := RunMore(r, 9, s9, Install(1), BothInstalled());
  }

  /** A replaced session outlives an unpairing: two handshakes of a stored device install one
      session after the other, the device is unpaired before the first session is disconnected,
      and a packet through that session still goes to the plugins. */
  lemma ReplacedStaysPaired() returns (r: Run)
    ensures IsRun(r) && |r.events| == 12 && r.events[11] == PluginPacket(0)
    ensures Lookup(r.states[11], "d") == Some(1) && Live(r.states[11], 0) && "d" !in r.states[11].storage
    ensures r.states[12].delivered == r.states[11].delivered + [0]
    ensures Agrees(r.states[11], "d") && Outdated(r, 11, "d", 0)
  {
    hide Enabled, Next, Reaches, Outdated, BothInstalled, IsRun;
    var s10 := BothInstalled();
    assert s10.storage == map["d" := "pem"] && s10.delivered == [] && s10.sessions == map["d" := 1]
        && s10.table == map[0 := PAIRED_SESSION, 1 := PAIRED_SESSION] by { InstalledState(); }
    var s11 := s10.(table := map[0 := PAIRED_SESSION, 1 := PAIRED_SESSION.(state := NotPaired, paired := false)], storage := map[]);
    var s12 := s11.(delivered := [0]);
    UnpairsSecond(s10, s11, s12);
    r := RunInstalled();
    r := RunMore(r, 10, s10, Unpair("d"), s11);
    r := RunMore(r, 11, s11, PluginPacket(0), s12);
    ReachesRun(r, 12, s12);
    FlagIsStored(r, 11, 0);
  }

  lemma InstalledState()
    ensures var s := BothInstalled();
            && s.storage == map["d" := "pem"] && s.delivered == [] && s.sessions == map["d" := 1]
            && s.table == map[0 := PAIRED_SESSION, 1 := PAIRED_SESSION]
  {
  }
}
