/** The pairing state of a session, its timestamp and the stored certificates, told from the
    packets, calls and handshakes of a run. */
module PairingHistory {
  import opened Bytes
  import opened Sessions
  import opened SessionSafety
  import opened PairingSafety

  // ----- What sets the pairing state of a session

  /** A local call for the device reaches this session. */
  ghost predicate Reached(s: State, d: Id, sid: Sid) {
    d in s.sessions && s.sessions[d] == sid && sid in s.table
  }

  /** A packet without a timestamp, or from half an hour around now. */
  predicate Timely(timestamp: int, now: int) {
    timestamp == 0 || -1800 <= now - timestamp <= 1800
  }

  /** The peer asks to pair, and we have not. */
  ghost predicate PeerAsks(s: State, e: Event, sid: Sid) {
    e.PairPacket? && e.sid == sid && sid in s.table && e.wants && Timely(e.timestamp, e.now) && s.table[sid].state != Requested
  }

  /** A local request that can be sent to the unpaired session. */
  ghost predicate WeAsk(s: State, e: Event, sid: Sid) {
    e.RequestPair? && Reached(s, e.device, sid) && !s.table[sid].paired && !s.table[sid].disconnected
  }

  /** The peer grants our request, or we accept, with a certificate at hand. */
  ghost predicate Agrees(s: State, e: Event, sid: Sid) {
    match e
    case PairPacket(x, wants, timestamp, now) =>
      x == sid && sid in s.table && wants && Timely(timestamp, now) && s.table[sid].state == Requested && s.table[sid].cert != ""
    case AcceptPair(d) => Reached(s, d, sid) && s.table[sid].cert != "" && !s.table[sid].disconnected
    case _ => false
  }

  /** The peer says no, we reject, or we unpair a session that is paired or disconnected. */
  ghost predicate Parts(s: State, e: Event, sid: Sid) {
    match e
    case PairPacket(x, wants, _, _) => x == sid && sid in s.table && !wants
    case RejectPair(d) => Reached(s, d, sid) && !s.table[sid].disconnected
    case Unpair(d) => Reached(s, d, sid) && (s.table[sid].paired || s.table[sid].disconnected)
    case _ => false
  }

  /** The session is created by a handshake that found its device stored, or did not. */
  ghost predicate Created(s: State, e: Event, sid: Sid, stored: bool) {
    e.Create? && e.sid == sid && e.t in s.threads && s.threads[e.t].Loaded? && s.threads[e.t].stored == stored
  }

  ghost predicate Sets(s: State, e: Event, sid: Sid) {
    || PeerAsks(s, e, sid) || WeAsk(s, e, sid) || Agrees(s, e, sid) || Parts(s, e, sid)
    || Created(s, e, sid, true) || Created(s, e, sid, false)
  }

  /** The pairing state and the timestamp that such a step leaves. */
  ghost predicate SetBy(s: State, e: Event, sid: Sid, y: Session) {
    && (PeerAsks(s, e, sid) ==> y.state == RequestedByPeer && y.timestamp == e.timestamp)
    && (WeAsk(s, e, sid) ==> y.state == Requested && y.timestamp == e.now)
    && (Agrees(s, e, sid) || Created(s, e, sid, true) ==> y.state == Paired)
    && (Parts(s, e, sid) || Created(s, e, sid, false) ==> y.state == NotPaired)
  }

  /** Session x becomes y: its state and timestamp are set as the step says, or stay. */
  ghost predicate Moves(s: State, e: Event, sid: Sid, x: Session, y: Session) {
    && SetBy(s, e, sid, y) && y.device == x.device && y.cert == x.cert
    && (!Sets(s, e, sid) ==> y.state == x.state && y.timestamp == x.timestamp)
  }

  lemma PacketMoves(s: State, x: Sid, wants: bool, timestamp: int, now: int, sid: Sid)
    requires x in s.table && sid in s.table
    ensures var n := OnPairPacket(s, x, wants, timestamp, now);
            sid in n.table && Moves(s, PairPacket(x, wants, timestamp, now), sid, s.table[sid], n.table[sid])
  {
    hide Lookup, Moves;
    if sid == x {
      OwnPacketMoves(s, x, wants, timestamp, now);
    } else {
      OtherPacketMoves(s, x, wants, timestamp, now, sid);
    }
  }

  lemma OwnPacketMoves(s: State, sid: Sid, wants: bool, timestamp: int, now: int)
    requires sid in s.table
    ensures var n := OnPairPacket(s, sid, wants, timestamp, now);
            sid in n.table && Moves(s, PairPacket(sid, wants, timestamp, now), sid, s.table[sid], n.table[sid])
  {
    hide OnPairPacket;
    OwnPacket(s, sid, wants, timestamp, now);
  }

  /** What a pair packet makes of its session. */
  lemma OwnPacket(s: State, sid: Sid, wants: bool, timestamp: int, now: int)
    requires sid in s.table
    ensures var x, n := s.table[sid], OnPairPacket(s, sid, wants, timestamp, now);
            sid in n.table && n.table[sid] ==
            if !wants then x.(state := NotPaired, paired := false)
            else if !Timely(timestamp, now) then x
            else if x.state != Requested then x.(state := RequestedByPeer, timestamp := timestamp)
            else if x.cert != "" then x.(state := Paired, paired := true) else x
  {
  }

  lemma OtherPacketMoves(s: State, x: Sid, wants: bool, timestamp: int, now: int, sid: Sid)
    requires x in s.table && sid in s.table && sid != x
    ensures var n := OnPairPacket(s, x, wants, timestamp, now);
            sid in n.table && Moves(s, PairPacket(x, wants, timestamp, now), sid, s.table[sid], n.table[sid])
  {
    hide Lookup;
    PacketShape(s, x, wants, timestamp, now);
    assert OnPairPacket(s, x, wants, timestamp, now).table[sid] == s.table[sid];
  }

  lemma RequestMoves(s: State, d: Id, now: int, sid: Sid)
    requires sid in s.table
    ensures var n := OnRequestPair(s, d, now); sid in n.table && Moves(s, RequestPair(d, now), sid, s.table[sid], n.table[sid])
  {
  }

  lemma AcceptMoves(s: State, d: Id, sid: Sid)
    requires sid in s.table
    ensures var n := OnAcceptPair(s, d); sid in n.table && Moves(s, AcceptPair(d), sid, s.table[sid], n.table[sid])
  {
  }

  lemma RejectMoves(s: State, d: Id, sid: Sid)
    requires sid in s.table
    ensures var n := OnRejectPair(s, d); sid in n.table && Moves(s, RejectPair(d), sid, s.table[sid], n.table[sid])
  {
  }

  lemma UnpairMoves(s: State, d: Id, sid: Sid)
    requires sid in s.table
    ensures var n := OnUnpair(s, d); sid in n.table && Moves(s, Unpair(d), sid, s.table[sid], n.table[sid])
  {
  }

  lemma OtherMoves(s: State, e: Event, sid: Sid)
    requires Enabled(s, e) && sid in s.table
    requires !e.PairPacket? && !e.RequestPair? && !e.AcceptPair? && !e.RejectPair? && !e.Unpair?
    ensures sid in Next(s, e).table && Moves(s, e, sid, s.table[sid], Next(s, e).table[sid])
  {
    hide Next, Reached;
    OtherSame(s, e, sid);
  }

  lemma OtherSame(s: State, e: Event, sid: Sid)
    requires Enabled(s, e) && sid in s.table
    requires !e.PairPacket? && !e.RequestPair? && !e.AcceptPair? && !e.RejectPair? && !e.Unpair?
    ensures sid in Next(s, e).table
    ensures var x, y := s.table[sid], Next(s, e).table[sid];
            y.state == x.state && y.timestamp == x.timestamp && y.device == x.device && y.cert == x.cert
    ensures e.Create? ==> e.sid != sid
  {
    hide OnPairPacket, OnRequestPair, OnAcceptPair, OnRejectPair, OnUnpair, Lookup;
  }

  lemma PacketInside(s: State, sid: Sid, wants: bool, timestamp: int, now: int)
    requires Enabled(s, PairPacket(sid, wants, timestamp, now))
    ensures sid in s.table
  {
  }

  lemma StepMoves(s: State, e: Event, sid: Sid)
    requires Enabled(s, e) && sid in s.table
    ensures sid in Next(s, e).table && Moves(s, e, sid, s.table[sid], Next(s, e).table[sid])
  {
    hide Enabled, Moves, OnPairPacket, OnRequestPair, OnAcceptPair, OnRejectPair, OnUnpair;
    match e
    case PairPacket(x, wants, timestamp, now) =>
      PacketInside(s, x, wants, timestamp, now);
      PacketMoves(s, x, wants, timestamp, now, sid);
    case RequestPair(d, now) => RequestMoves(s, d, now, sid);
    case AcceptPair(d) => AcceptMoves(s, d, sid);
    case RejectPair(d) => RejectMoves(s, d, sid);
    case Unpair(d) => UnpairMoves(s, d, sid);
    case _ => OtherMoves(s, e, sid);
  }

  lemma CreationMoves(s: State, e: Event, sid: Sid)
    requires Enabled(s, e) && sid !in s.table && sid in Next(s, e).table
    ensures var y := Next(s, e).table[sid];
            e.Create? && e.sid == sid && Sets(s, e, sid) && SetBy(s, e, sid, y) && y.cert == e.cert
            && e.t in s.threads && s.threads[e.t].Loaded? && y.device == s.threads[e.t].device
  {
    hide OnPairPacket, OnRequestPair, OnAcceptPair, OnRejectPair, OnUnpair, Lookup;
    OldSessions(s, e, sid);
  }

  // ----- Whole runs

  /** Step k is the last of the first n that set the pairing state of the session. */
  ghost predicate LastSet(r: Run, k: nat, n: nat, sid: Sid)
    requires n <= |r.events| < |r.states|
  {
    k < n && Sets(r.states[k], r.events[k], sid)
    && forall j :: k < j < n ==> !Sets(r.states[j], r.events[j], sid)
  }

  /** In every state of every run, the last step to set the pairing state of a session tells it:
      the peer has a request open exactly if that step was a timely pair packet received while we had
      none open, and we have one open exactly if it was a local request that went out; the timestamp
      is then the packet's or the time of the request. */
  lemma {:induction false} PairingState(r: Run, n: nat, sid: Sid) returns (k: nat)
    requires IsRun(r) && n < |r.states| && sid in r.states[n].table
    ensures LastSet(r, k, n, sid)
    ensures var x, s, e := r.states[n].table[sid], r.states[k], r.events[k];
            && (x.state == RequestedByPeer <==> PeerAsks(s, e, sid)) && (x.state == RequestedByPeer ==> x.timestamp == e.timestamp)
            && (x.state == Requested <==> WeAsk(s, e, sid)) && (x.state == Requested ==> x.timestamp == e.now)
            && (x.state == Paired <==> Agrees(s, e, sid) || Created(s, e, sid, true))
            && (x.state == NotPaired <==> Parts(s, e, sid) || Created(s, e, sid, false))
  {
    hide Next, Enabled, Initial, PeerAsks, WeAsk, Agrees, Parts, Created;
    if n == 0 {
      InitialThreads(r.states[0]);
    } else {
      var s, e := r.states[n - 1], r.events[n - 1];
      if sid !in s.table {
        CreationMoves(s, e, sid);
        k := n - 1;
      } else {
        StepMoves(s, e, sid);
        if Sets(s, e, sid) {
          k := n - 1;
        } else {
          k := PairingState(r, n - 1, sid);
        }
      }
    }
  }

  /** Session sid was created in step c and keeps its device and certificate. */
  lemma {:induction false} CreatedOnce(r: Run, n: nat, sid: Sid) returns (c: nat)
    requires IsRun(r) && n < |r.states| && sid in r.states[n].table
    ensures c < n && r.events[c].Create? && r.events[c].sid == sid && r.events[c].t in r.states[c].threads
    ensures var x, th := r.states[n].table[sid], r.states[c].threads[r.events[c].t];
            th.Loaded? && x.device == th.device && x.cert == r.events[c].cert
  {
    hide Next, Enabled, Initial, Sets, SetBy;
    if n == 0 {
      InitialThreads(r.states[0]);
    } else {
      var s, e := r.states[n - 1], r.events[n - 1];
      if sid !in s.table {
        CreationMoves(s, e, sid);
        c := n - 1;
      } else {
        StepMoves(s, e, sid);
        c := CreatedOnce(r, n - 1, sid);
      }
    }
  }

  // ----- Stored certificates

  /** The step pairs a session of this device. */
  ghost predicate Saves(s: State, e: Event, d: Id, sid: Sid) {
    sid in s.table && s.table[sid].device == d && Agrees(s, e, sid)
  }

  /** What is stored for d after a step is the certificate just agreed on, or what was stored. */
  ghost predicate Stores(s: State, e: Event, n: State, d: Id) {
    d in n.storage ==>
      || (exists sid :: Saves(s, e, d, sid) && n.storage[d] == s.table[sid].cert)
      || (d in s.storage && n.storage[d] == s.storage[d] && forall sid :: !Saves(s, e, d, sid))
  }

  lemma PacketStores(s: State, e: Event, d: Id)
    requires e.PairPacket? && Enabled(s, e)
    ensures Stores(s, e, Next(s, e), d)
  {
    hide OnRequestPair, OnAcceptPair, OnRejectPair, OnUnpair, Lookup;
    if s.table[e.sid].device == d { assert Saves(s, e, d, e.sid) || forall sid :: !Saves(s, e, d, sid); }
  }

  lemma AcceptStores(s: State, x: Id, d: Id)
    requires WellLinked(s)
    ensures Stores(s, AcceptPair(x), OnAcceptPair(s, x), d)
  {
    var l := Lookup(s, x);
    if l.Some? {
      assert s.table[l.value].device == x;
      assert Saves(s, AcceptPair(x), x, l.value) || forall sid :: !Saves(s, AcceptPair(x), d, sid);
    }
  }

  lemma RejectStores(s: State, x: Id, d: Id)
    ensures Stores(s, RejectPair(x), OnRejectPair(s, x), d)
  {
    hide CanSend;
  }

  lemma UnpairStores(s: State, x: Id, d: Id)
    ensures Stores(s, Unpair(x), OnUnpair(s, x), d)
  {
    hide CanSend;
  }

  lemma OtherStores(s: State, e: Event, d: Id)
    requires Enabled(s, e) && !e.PairPacket? && !e.AcceptPair? && !e.RejectPair? && !e.Unpair?
    ensures Stores(s, e, Next(s, e), d)
  {
    hide OnPairPacket, OnAcceptPair, OnRejectPair, OnUnpair, Lookup;
    assert Next(s, e).storage == s.storage;
  }

  /** A certificate in the storage is that of the last session of the device that was paired in this
      run, or has been there from the start. */
  lemma {:induction false} StoredCertificate(r: Run, n: nat, d: Id)
    requires IsRun(r) && n < |r.states| && d in r.states[n].storage
    ensures || (exists k, sid :: 0 <= k < n && Saves(r.states[k], r.events[k], d, sid)
                  && r.states[n].storage[d] == r.states[k].table[sid].cert
                  && forall j, y :: k < j < n ==> !Saves(r.states[j], r.events[j], d, y))
            || (d in r.states[0].storage && r.states[n].storage[d] == r.states[0].storage[d]
                && forall j, y :: 0 <= j < n ==> !Saves(r.states[j], r.events[j], d, y))
  {
    hide Next, Enabled, Initial, Agrees, WellLinked;
    if n > 0 {
      var s, e := r.states[n - 1], r.events[n - 1];
      RunLinked(r, n - 1);
      StepStores(s, e, d);
      if sid :| Saves(s, e, d, sid) && r.states[n].storage[d] == s.table[sid].cert {
        assert Saves(r.states[n - 1], r.events[n - 1], d, sid);
      } else {
        StoredCertificate(r, n - 1, d);
      }
    }
  }

  lemma StepStores(s: State, e: Event, d: Id)
    requires Enabled(s, e) && WellLinked(s)
    ensures Stores(s, e, Next(s, e), d)
  {
    hide Enabled, WellLinked, Stores, OnPairPacket, OnAcceptPair, OnRejectPair, OnUnpair;
    match e
    case PairPacket(_, _, _, _) => PacketStores(s, e, d);
    case AcceptPair(x) => AcceptStores(s, x, d);
    case RejectPair(x) => RejectStores(s, x, d);
    case Unpair(x) => UnpairStores(s, x, d);
    case _ => OtherStores(s, e, d);
  }
}
