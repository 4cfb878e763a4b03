/** Pairing: how a device can come to be paired, and what always holds of the flags of its sessions. */
module PairingSafety {
  import opened Bytes
  import opened Sessions
  import opened SessionSafety

  // ----- Flags of a session

  /** The pairing state and the paired flag go together; a session the peer asked to pair
      again may be either. */
  ghost predicate FlagsAgree(x: Session) {
    (x.state == Paired ==> x.paired) && (x.state == Requested || x.state == NotPaired ==> !x.paired)
  }

  ghost predicate AllFlagsAgree(s: State) {
    forall sid :: sid in s.table ==> FlagsAgree(s.table[sid])
  }

  lemma FlagsCall(s: State, e: Event)
    requires (e.RequestPair? || e.AcceptPair? || e.RejectPair? || e.Unpair?) && AllFlagsAgree(s)
    ensures AllFlagsAgree(Next(s, e))
  {
    var l, n := Lookup(s, e.device), Next(s, e);
    if l.Some? {
      assert n.table == s.table[l.value := n.table[l.value]] && FlagsAgree(n.table[l.value]);
    } else {
      assert n.table == s.table;
    }
  }

  lemma FlagsPacket(s: State, sid: Sid, wants: bool, timestamp: int, now: int)
    requires sid in s.table && AllFlagsAgree(s)
    ensures AllFlagsAgree(OnPairPacket(s, sid, wants, timestamp, now))
  {
    var n := OnPairPacket(s, sid, wants, timestamp, now);
    assert n.table == s.table[sid := n.table[sid]] && FlagsAgree(n.table[sid]);
  }

  lemma FlagsOther(s: State, e: Event)
    requires Enabled(s, e) && AllFlagsAgree(s)
    requires !e.PairPacket? && !e.RequestPair? && !e.AcceptPair? && !e.RejectPair? && !e.Unpair?
    ensures AllFlagsAgree(Next(s, e))
  {
    hide OnPairPacket, OnRequestPair, OnAcceptPair, OnRejectPair, OnUnpair;
  }

  lemma FlagsStep(s: State, e: Event)
    requires Enabled(s, e) && AllFlagsAgree(s)
    ensures AllFlagsAgree(Next(s, e))
  {
    hide AllFlagsAgree, OnPairPacket, OnRequestPair, OnAcceptPair, OnRejectPair, OnUnpair;
    if e.PairPacket? {
      FlagsPacket(s, e.sid, e.wants, e.timestamp, e.now);
    } else if e.RequestPair? || e.AcceptPair? || e.RejectPair? || e.Unpair? {
      FlagsCall(s, e);
    } else {
      FlagsOther(s, e);
    }
  }

  /** In every reachable state, whatever interleaves. */
  lemma {:induction false} FlagsAlwaysAgree(r: Run, n: nat, sid: Sid)
    requires IsRun(r) && n < |r.states| && sid in r.states[n].table
    ensures FlagsAgree(r.states[n].table[sid])
  {
    FlagsRun(r, n);
  }

  lemma {:induction false} FlagsRun(r: Run, n: nat)
    requires IsRun(r) && n < |r.states|
    ensures AllFlagsAgree(r.states[n])
  {
    hide AllFlagsAgree, Enabled, Next;
    if n == 0 {
      NoSessions(r.states[0]);
    } else {
      FlagsRun(r, n - 1);
      FlagsStep(r.states[n - 1], r.events[n - 1]);
    }
  }

  lemma NoSessions(s: State)
    requires Initial(s)
    ensures AllFlagsAgree(s)
  {
  }

  // ----- Runs of peer and network steps only

  /** A local call that can lead to pairing with d. */
  predicate LocalCall(e: Event, d: Id) {
    e == AcceptPair(d) || (e.RequestPair? && e.device == d)
  }

  /** Nothing so far has anything to do with a pairing of d. */
  ghost predicate Unpaired(s: State, d: Id) {
    && d !in s.storage
    && (forall sid :: sid in s.table && s.table[sid].device == d ==>
          !s.table[sid].paired && s.table[sid].state != Requested)
    && (forall t :: t in s.threads && s.threads[t].Loaded? && s.threads[t].device == d ==> !s.threads[t].stored)
  }

  /** Sessions and threads of d stay as they are, or are new and unpaired. */
  lemma UnpairedStep(s: State, e: Event, d: Id)
    requires Enabled(s, e) && WellLinked(s) && Unpaired(s, d) && !LocalCall(e, d)
    ensures Unpaired(Next(s, e), d)
  {
    if e.PairPacket? {
      UnpairedPacket(s, e.sid, e.wants, e.timestamp, e.now, d);
    } else if e.RequestPair? || e.AcceptPair? || e.RejectPair? || e.Unpair? {
      UnpairedCall(s, e, d);
    } else {
      UnpairedHandshake(s, e, d);
    }
  }

  lemma UnpairedPacket(s: State, sid: Sid, wants: bool, timestamp: int, now: int, d: Id)
    requires sid in s.table && Unpaired(s, d)
    ensures Unpaired(OnPairPacket(s, sid, wants, timestamp, now), d)
  {
    PacketShape(s, sid, wants, timestamp, now);
  }

  lemma PacketShape(s: State, sid: Sid, wants: bool, timestamp: int, now: int)
    requires sid in s.table
    ensures var n := OnPairPacket(s, sid, wants, timestamp, now);
            n.threads == s.threads && sid in n.table && n.table == s.table[sid := n.table[sid]]
  {
  }

  /** A call changes at most the session its device leads to, and what is stored for that device. */
  lemma CallShape(s: State, e: Event)
    requires e.RequestPair? || e.AcceptPair? || e.RejectPair? || e.Unpair?
    ensures var l, n := Lookup(s, e.device), Next(s, e);
            && n.threads == s.threads && n.sessions == s.sessions
            && (l.None? ==> n.table == s.table)
            && (l.Some? ==> l.value in n.table && n.table == s.table[l.value := n.table[l.value]]
                            && n.table[l.value].device == s.table[l.value].device)
  {
    hide CanSend, OnRequestPair, OnAcceptPair, OnRejectPair, OnUnpair, Lookup;
    match e
    case RequestPair(d, now) => RequestShape(s, d, now);
    case AcceptPair(d) => AcceptShape(s, d);
    case RejectPair(d) => RejectShape(s, d);
    case Unpair(d) => UnpairShape(s, d);
  }

  /** At most this session changes, and what is stored. */
  ghost predicate OneChanged(s: State, n: State, l: Option<Sid>) {
    && n.threads == s.threads && n.sessions == s.sessions
    && (l.None? ==> n.table == s.table)
    && (l.Some? ==> l.value in s.table && l.value in n.table && n.table == s.table[l.value := n.table[l.value]]
                    && n.table[l.value].device == s.table[l.value].device)
  }

  lemma RequestShape(s: State, d: Id, now: int)
    ensures OneChanged(s, OnRequestPair(s, d, now), Lookup(s, d))
  {
    hide CanSend;
  }

  lemma AcceptShape(s: State, d: Id)
    ensures OneChanged(s, OnAcceptPair(s, d), Lookup(s, d))
  {
    hide CanSend;
  }

  lemma RejectShape(s: State, d: Id)
    ensures OneChanged(s, OnRejectPair(s, d), Lookup(s, d))
  {
    hide CanSend;
  }

  lemma UnpairShape(s: State, d: Id)
    ensures OneChanged(s, OnUnpair(s, d), Lookup(s, d))
  {
    hide CanSend;
  }

  lemma UnpairedCall(s: State, e: Event, d: Id)
    requires WellLinked(s) && Unpaired(s, d) && !LocalCall(e, d)
    requires e.RequestPair? || e.AcceptPair? || e.RejectPair? || e.Unpair?
    ensures Unpaired(Next(s, e), d)
  {
    hide CanSend, OnRequestPair, OnAcceptPair, OnRejectPair, OnUnpair;
    CallShape(s, e);
    CallStores(s, e, d);
    if e.device == d { CallPairsNobody(s, e); }
    var l := Lookup(s, e.device);
    if l.Some? { assert s.table[l.value].device == e.device; }
  }

  /** Rejecting and unpairing pair no session, nor make one ask. */
  lemma CallPairsNobody(s: State, e: Event)
    requires e.RejectPair? || e.Unpair?
    ensures var l, n := Lookup(s, e.device), Next(s, e);
            l.Some? ==> l.value in n.table
                        && (n.table[l.value].paired ==> s.table[l.value].paired)
                        && (n.table[l.value].state == s.table[l.value].state || n.table[l.value].state == NotPaired)
  {
    hide CanSend;
  }

  /** A call stores nothing for another device. */
  lemma CallStores(s: State, e: Event, d: Id)
    requires WellLinked(s) && !LocalCall(e, d)
    requires e.RequestPair? || e.AcceptPair? || e.RejectPair? || e.Unpair?
    ensures d in Next(s, e).storage ==> d in s.storage
  {
    hide CanSend;
    var l := Lookup(s, e.device);
    if l.Some? { assert s.table[l.value].device == e.device; }
  }

  lemma UnpairedHandshake(s: State, e: Event, d: Id)
    requires Enabled(s, e) && Unpaired(s, d)
    requires !e.PairPacket? && !e.RequestPair? && !e.AcceptPair? && !e.RejectPair? && !e.Unpair?
    ensures Unpaired(Next(s, e), d)
  {
    assert Next(s, e).storage == s.storage;
  }

  /** Without a local request or accept, no run pairs a device that was not stored: not in
      the flags of any of its sessions, and not in the storage. */
  lemma {:induction false} PeersCannotPair(r: Run, n: nat, d: Id)
    requires IsRun(r) && n < |r.states| && d !in r.states[0].storage
    requires forall i :: 0 <= i < n ==> !LocalCall(r.events[i], d)
    ensures Unpaired(r.states[n], d)
  {
    hide Unpaired, Enabled, Next, Inv;
    if n == 0 {
      InitiallyUnpaired(r.states[0], d);
    } else {
      PeersCannotPair(r, n - 1, d);
      RunLinked(r, n - 1);
      UnpairedStep(r.states[n - 1], r.events[n - 1], d);
    }
  }

  lemma InitiallyUnpaired(s: State, d: Id)
    requires Initial(s) && d !in s.storage
    ensures Unpaired(s, d)
  {
  }

  lemma RunLinked(r: Run, n: nat)
    requires IsRun(r) && n < |r.states|
    ensures WellLinked(r.states[n])
  {
    RunInv(r, n);
  }

  // ----- Why a session is paired

  /** Unpairs the session: its peer says so, or a local reject or unpair reaches it. */
  ghost predicate Unpairs(s: State, e: Event, sid: Sid)
    requires Enabled(s, e)
  {
    sid in s.table && s.table[sid].paired && sid in Next(s, e).table && !Next(s, e).table[sid].paired
  }

  /** Withdraws a local request: the session leaves the requested state unpaired. */
  ghost predicate Withdraws(s: State, e: Event, sid: Sid)
    requires Enabled(s, e)
  {
    sid in s.table && s.table[sid].state == Requested && sid in Next(s, e).table && Next(s, e).table[sid].state == NotPaired
  }

  /** The session was created paired, because its device was in storage when its
      handshake looked. */
  ghost predicate CreatedPaired(r: Run, k: nat, sid: Sid)
    requires IsRun(r) && k < |r.events|
  {
    r.events[k].Create? && r.events[k].sid == sid
    && exists j :: 0 <= j < k && r.events[j] == Load(r.events[k].t)
                   && r.states[j].threads[r.events[k].t].device in r.states[j].storage
                   && r.states[j].threads[r.events[k].t].device == r.states[k].threads[r.events[k].t].device
  }

  /** A local request or accept reached the session. */
  ghost predicate AskedFor(r: Run, k: nat, sid: Sid)
    requires IsRun(r) && k < |r.events|
  {
    sid in r.states[k].table && LocalCall(r.events[k], r.states[k].table[sid].device)
    && Lookup(r.states[k], r.states[k].table[sid].device) == Some(sid)
  }

  /** Step k is a reason for the session to be paired in state n, not undone since. */
  ghost predicate Reason(r: Run, k: nat, n: nat, sid: Sid)
    requires IsRun(r) && n < |r.states|
  {
    k < n && (CreatedPaired(r, k, sid) || AskedFor(r, k, sid))
    && forall j :: k < j < n ==> !Unpairs(r.states[j], r.events[j], sid) && !Withdraws(r.states[j], r.events[j], sid)
  }

  /** A pending request goes back to a local call, not withdrawn since. */
  ghost predicate Asked(r: Run, k: nat, n: nat, sid: Sid)
    requires IsRun(r) && n < |r.states|
  {
    k < n && AskedFor(r, k, sid)
    && forall j :: k < j < n ==> !Unpairs(r.states[j], r.events[j], sid) && !Withdraws(r.states[j], r.events[j], sid)
  }

  /** What a thread read from storage goes back to its load step. */
  ghost predicate LoadedAt(r: Run, j: nat, n: nat, t: Tid)
    requires IsRun(r) && n < |r.states|
  {
    j < n && r.events[j] == Load(t) && t in r.states[n].threads && r.states[n].threads[t].Loaded?
    && r.states[j].threads[t].device == r.states[n].threads[t].device
    && r.states[n].threads[t].stored == (r.states[n].threads[t].device in r.states[j].storage)
  }

  // ----- Every paired session has a reason

  /** How a session appears in the table. */
  lemma NewSession(s: State, e: Event, sid: Sid)
    requires Enabled(s, e) && sid !in s.table && sid in Next(s, e).table
    ensures e.Create? && e.sid == sid && Next(s, e).table[sid].paired == s.threads[e.t].stored
    ensures Next(s, e).table[sid].state != Requested
  {
    hide OnPairPacket, OnRequestPair, OnAcceptPair, OnRejectPair, OnUnpair, Lookup;
    OldSessions(s, e, sid);
  }

  /** Packets and local calls create no session. */
  lemma OldSessions(s: State, e: Event, sid: Sid)
    requires Enabled(s, e) && sid !in s.table
    ensures e.PairPacket? || e.RequestPair? || e.AcceptPair? || e.RejectPair? || e.Unpair? ==> sid !in Next(s, e).table
  {
    hide OnPairPacket, OnRequestPair, OnAcceptPair, OnRejectPair, OnUnpair, Lookup;
    if e.PairPacket? {
      PacketShape(s, e.sid, e.wants, e.timestamp, e.now);
    } else if e.RequestPair? || e.AcceptPair? || e.RejectPair? || e.Unpair? {
      CallShape(s, e);
      LookupInside(s, e.device);
    }
  }

  lemma LookupInside(s: State, d: Id)
    ensures Lookup(s, d).Some? ==> Lookup(s, d).value in s.table
  {
  }

  /** Session sid of device d after a step: what can have turned it paired, or into one that has asked. */
  ghost predicate Changed(s: State, e: Event, sid: Sid, x: Session, y: Session) {
    && y.device == x.device
    && (!x.paired && y.paired ==> (e == AcceptPair(x.device) && Lookup(s, x.device) == Some(sid))
                                  || (x.state == Requested && y.state == Paired))
    && (x.state != Requested && y.state == Requested ==> LocalCall(e, x.device) && Lookup(s, x.device) == Some(sid))
  }

  lemma CallChange(s: State, e: Event, sid: Sid)
    requires (e.RequestPair? || e.AcceptPair? || e.RejectPair? || e.Unpair?) && WellLinked(s) && sid in s.table
    ensures sid in Next(s, e).table && Changed(s, e, sid, s.table[sid], Next(s, e).table[sid])
  {
    hide OnRequestPair, OnAcceptPair, OnRejectPair, OnUnpair;
    match e
    case RequestPair(d, now) => RequestChange(s, d, now, sid);
    case AcceptPair(d) => AcceptChange(s, d, sid);
    case RejectPair(d) => RejectChange(s, d, sid);
    case Unpair(d) => UnpairChange(s, d, sid);
  }

  lemma RequestChange(s: State, d: Id, now: int, sid: Sid)
    requires WellLinked(s) && sid in s.table
    ensures var n := OnRequestPair(s, d, now); sid in n.table && Changed(s, RequestPair(d, now), sid, s.table[sid], n.table[sid])
  {
    hide CanSend;
  }

  lemma AcceptChange(s: State, d: Id, sid: Sid)
    requires WellLinked(s) && sid in s.table
    ensures var n := OnAcceptPair(s, d); sid in n.table && Changed(s, AcceptPair(d), sid, s.table[sid], n.table[sid])
  {
    hide CanSend;
  }

  lemma RejectChange(s: State, d: Id, sid: Sid)
    requires WellLinked(s) && sid in s.table
    ensures var n := OnRejectPair(s, d); sid in n.table && Changed(s, RejectPair(d), sid, s.table[sid], n.table[sid])
  {
    hide CanSend;
  }

  lemma UnpairChange(s: State, d: Id, sid: Sid)
    requires WellLinked(s) && sid in s.table
    ensures var n := OnUnpair(s, d); sid in n.table && Changed(s, Unpair(d), sid, s.table[sid], n.table[sid])
  {
    hide CanSend;
  }

  lemma PacketChange(s: State, sid: Sid, e: Event)
    requires e.PairPacket? && Enabled(s, e) && sid in s.table
    ensures sid in Next(s, e).table && Changed(s, e, sid, s.table[sid], Next(s, e).table[sid])
  {
    hide OnRequestPair, OnAcceptPair, OnRejectPair, OnUnpair, Lookup;
  }

  lemma OtherChange(s: State, e: Event, sid: Sid)
    requires Enabled(s, e) && sid in s.table
    requires !e.PairPacket? && !e.RequestPair? && !e.AcceptPair? && !e.RejectPair? && !e.Unpair?
    ensures sid in Next(s, e).table && Changed(s, e, sid, s.table[sid], Next(s, e).table[sid])
  {
    hide OnPairPacket, OnRequestPair, OnAcceptPair, OnRejectPair, OnUnpair, Lookup;
  }

  /** What can turn a session paired, or into one that has asked. */
  lemma SessionChange(s: State, e: Event, sid: Sid)
    requires Enabled(s, e) && WellLinked(s) && sid in s.table
    ensures sid in Next(s, e).table && Changed(s, e, sid, s.table[sid], Next(s, e).table[sid])
  {
    hide Enabled, Next, Changed, WellLinked;
    if e.RequestPair? || e.AcceptPair? || e.RejectPair? || e.Unpair? {
      CallChange(s, e, sid);
    } else if e.PairPacket? {
      PacketChange(s, sid, e);
    } else {
      OtherChange(s, e, sid);
    }
  }

  lemma {:induction false} LoadedHasLoad(r: Run, n: nat, t: Tid) returns (j: nat)
    requires IsRun(r) && n < |r.states| && t in r.states[n].threads && r.states[n].threads[t].Loaded?
    ensures LoadedAt(r, j, n, t)
  {
    hide Next, Enabled, Initial;
    if n == 0 {
      InitialThreads(r.states[0]);
    } else {
      var s, e := r.states[n - 1], r.events[n - 1];
      LoadedBecause(s, e, t);
      if e == Load(t) {
        j := n - 1;
      } else {
        j := LoadedHasLoad(r, n - 1, t);
      }
    }
  }

  lemma InitialThreads(s: State)
    requires Initial(s)
    ensures s.threads == map[] && s.table == map[]
  {
  }

  lemma LoadedBecause(s: State, e: Event, t: Tid)
    requires Enabled(s, e) && t in Next(s, e).threads && Next(s, e).threads[t].Loaded?
    ensures if e == Load(t)
            then t in s.threads && s.threads[t].Checked? && Next(s, e).threads[t].device == s.threads[t].device
                 && Next(s, e).threads[t].stored == (s.threads[t].device in s.storage)
            else t in s.threads && s.threads[t] == Next(s, e).threads[t]
  {
    hide OnPairPacket, OnRequestPair, OnAcceptPair, OnRejectPair, OnUnpair, Lookup;
    if e.RequestPair? || e.AcceptPair? || e.RejectPair? || e.Unpair? {
      CallShape(s, e);
    } else if e.PairPacket? {
      PacketShape(s, e.sid, e.wants, e.timestamp, e.now);
    }
  }

  /** A session that has asked to pair does so because of a local call. */
  lemma {:induction false} RequestHasReason(r: Run, n: nat, sid: Sid) returns (k: nat)
    requires IsRun(r) && n < |r.states| && sid in r.states[n].table && r.states[n].table[sid].state == Requested
    ensures Asked(r, k, n, sid)
  {
    hide Next, Enabled, Initial, AskedFor, WellLinked;
    if n == 0 {
      InitialThreads(r.states[0]);
    } else {
      var s, e := r.states[n - 1], r.events[n - 1];
      RunLinked(r, n - 1);
      if sid !in s.table {
        NewSession(s, e, sid);
      } else {
        SessionChange(s, e, sid);
        if s.table[sid].state == Requested {
          k := RequestHasReason(r, n - 1, sid);
          FlagsAlwaysAgree(r, n - 1, sid);
        } else {
          k := n - 1;
          AskedForIs(r, k, sid);
        }
      }
    }
  }

  lemma AskedForIs(r: Run, k: nat, sid: Sid)
    requires IsRun(r) && k < |r.events| && sid in r.states[k].table
    requires LocalCall(r.events[k], r.states[k].table[sid].device)
    requires Lookup(r.states[k], r.states[k].table[sid].device) == Some(sid)
    ensures AskedFor(r, k, sid)
  {
  }

  lemma CreatedPairedIs(r: Run, k: nat, sid: Sid)
    requires IsRun(r) && k < |r.events| && r.events[k].Create? && r.events[k].sid == sid
    requires Enabled(r.states[k], r.events[k]) && r.states[k].threads[r.events[k].t].stored
    ensures CreatedPaired(r, k, sid)
  {
    hide Next, Initial;
    var j := LoadedHasLoad(r, k, r.events[k].t);
  }

  /** Pairing safety: in every state of every run, a paired session was created from a
      stored pairing, or a local request or accept reached it, and neither has been
      withdrawn or undone since. */
  lemma {:induction false} PairedHasReason(r: Run, n: nat, sid: Sid) returns (k: nat)
    requires IsRun(r) && n < |r.states| && sid in r.states[n].table && r.states[n].table[sid].paired
    ensures Reason(r, k, n, sid)
  {
    hide Next, Enabled, Initial, AskedFor, CreatedPaired, WellLinked;
    if n == 0 {
      InitialThreads(r.states[0]);
    } else {
      var s, e := r.states[n - 1], r.events[n - 1];
      RunLinked(r, n - 1);
      if sid !in s.table {
        NewSession(s, e, sid);
        k := n - 1;
        CreatedPairedIs(r, k, sid);
      } else {
        SessionChange(s, e, sid);
        FlagsAlwaysAgree(r, n - 1, sid);
        if s.table[sid].paired {
          k := PairedHasReason(r, n - 1, sid);
        } else if s.table[sid].state == Requested {
          k := RequestHasReason(r, n - 1, sid);
          FlagsAlwaysAgree(r, n, sid);
        } else {
          k := n - 1;
          AskedForIs(r, k, sid);
        }
      }
    }
  }
}
