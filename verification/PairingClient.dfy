/** The pairing handlers of the client as they update its sessions and its storage,
    each proved to be the step of module Sessions that bears its name. */
module PairingClient {
  import opened Bytes
  import opened Sessions

  /** A pair packet as queued for the peer. */
  datatype Packet = Pair(pair: bool, timestamp: Option<int>)

  /** A packet from the peer: a pair packet, or one for the plugins. */
  datatype Received = PairReceived(wants: bool, timestamp: int) | PluginReceived

  /** The queues after a packet was queued for a session. */
  ghost function Queued(queues: map<Sid, seq<Packet>>, sid: Sid, packet: Packet): map<Sid, seq<Packet>>
    requires sid in queues
  {
    queues[sid := queues[sid] + [packet]]
  }

  class Client {
    /** Sessions by device id, the session objects, the queues to the peers, and storage. */
    var sessions: map<Id, Sid>
    var table: map<Sid, Session>
    var queues: map<Sid, seq<Packet>>
    var storage: map<Id, string>
    /** The sessions whose packets went to their plugins. */
    var delivered: seq<Sid>
    ghost const self: Id
    ghost var phase: Phase
    ghost var threads: map<Tid, Thread>

    ghost predicate Valid()
      reads this
    {
      queues.Keys == table.Keys && forall d :: d in sessions ==> sessions[d] in table
    }

    ghost function View(): State
      reads this
    {
      State(self, phase, threads, table, sessions, storage, delivered)
    }

    constructor (self: Id, storage: map<Id, string>)
      ensures Valid() && Initial(View()) && View().storage == storage && View().self == self
    {
      this.self, this.storage, phase, threads := self, storage, Running, map[];
      sessions, table, queues, delivered := map[], map[], map[], [];
    }

    method Device(d: Id) returns (r: Option<Sid>)
      requires Valid()
      ensures r == Lookup(View(), d)
    {
      if d in sessions { return Some(sessions[d]); }
      r := None;
    }

    /** Queues a packet for the device's session, unless there is none or it is disconnected. */
    method SendPacket(d: Id, packet: Packet) returns (ok: bool)
      requires Valid()
      modifies this`queues
      ensures Valid() && ok == CanSend(View(), d)
      ensures queues == if ok then Queued(old(queues), sessions[d], packet) else old(queues)
    {
      var sid := Device(d);
      if sid.None? || table[sid.value].disconnected { return false; }
      queues := queues[sid.value := queues[sid.value] + [packet]];
      ok := true;
    }

    method SetPaired(sid: Sid, state: PairState, paired: bool)
      requires Valid() && sid in table
      modifies this`table
      ensures Valid() && table == old(table)[sid := old(table)[sid].(state := state, paired := paired)]
    {
      table := table[sid := table[sid].(state := state, paired := paired)];
    }

    /** A pair packet from the peer of a session. */
    method HandlePairPacket(sid: Sid, wants: bool, timestamp: int, now: int)
      requires Valid() && sid in table
      modifies this`table, this`storage
      ensures Valid() && View() == OnPairPacket(old(View()), sid, wants, timestamp, now)
    {
      if wants {
        if timestamp != 0 && Abs(now - timestamp) > PAIRING_WINDOW { return; }
        if table[sid].state == Requested {
          if table[sid].cert == "" { return; }
          SetPaired(sid, Paired, true);
          storage := storage[table[sid].device := table[sid].cert];
          return;
        }
        table := table[sid := table[sid].(state := RequestedByPeer, timestamp := timestamp)];
      } else {
        SetPaired(sid, NotPaired, false);
        storage := storage - {table[sid].device};
      }
    }

    /** A packet from the peer of a session; plugins see it only if the session is paired. */
    method HandlePacket(sid: Sid, packet: Received, now: int)
      requires Valid() && sid in table
      modifies this`table, this`storage, this`delivered
      ensures Valid()
      ensures View() == if packet.PairReceived? then OnPairPacket(old(View()), sid, packet.wants, packet.timestamp, now)
                        else OnPluginPacket(old(View()), sid)
    {
      if packet.PairReceived? {
        HandlePairPacket(sid, packet.wants, packet.timestamp, now);
        return;
      }
      if !table[sid].paired { return; }
      delivered := delivered + [sid];
    }

    /** Asks the peer to pair. */
    method RequestPair(d: Id, now: int)
      requires Valid()
      modifies this`table, this`queues
      ensures Valid() && View() == OnRequestPair(old(View()), d, now)
      ensures queues == if CanSend(old(View()), d) && !old(table[sessions[d]].paired)
                        then Queued(old(queues), sessions[d], Pair(true, Some(now))) else old(queues)
    {
      var sid := Device(d);
      if sid.None? || table[sid.value].paired { return; }
      var ok := SendPacket(d, Pair(true, Some(now)));
      if ok { table := table[sid.value := table[sid.value].(state := Requested, timestamp := now)]; }
    }

    /** Accepts a pairing and stores it. */
    method AcceptPair(d: Id, millis: int)
      requires Valid()
      modifies this`table, this`queues, this`storage
      ensures Valid() && View() == OnAcceptPair(old(View()), d)
      ensures queues == if CanSend(old(View()), d) && old(table[sessions[d]].cert) != ""
                        then Queued(old(queues), sessions[d], Pair(true, Some(millis))) else old(queues)
    {
      var sid := Device(d);
      if sid.None? || table[sid.value].cert == "" { return; }
      var ok := SendPacket(d, Pair(true, Some(millis)));
      if ok {
        SetPaired(sid.value, Paired, true);
        storage := storage[table[sid.value].device := table[sid.value].cert];
      }
    }

    /** Rejects a pairing, and forgets a stored one. */
    method RejectPair(d: Id)
      requires Valid()
      modifies this`table, this`queues, this`storage
      ensures Valid() && View() == OnRejectPair(old(View()), d)
      ensures queues == if CanSend(old(View()), d) then Queued(old(queues), sessions[d], Pair(false, None)) else old(queues)
    {
      var sid := Device(d);
      if sid.None? { return; }
      var ok := SendPacket(d, Pair(false, None));
      if ok {
        SetPaired(sid.value, NotPaired, false);
        storage := storage - {table[sid.value].device};
      }
    }

    /** Ends a pairing, also of a device that is offline. */
    method Unpair(d: Id)
      requires Valid()
      modifies this`table, this`queues, this`storage
      ensures Valid() && View() == OnUnpair(old(View()), d)
      ensures queues == if CanSend(old(View()), d) && old(table[sessions[d]].paired)
                        then Queued(old(queues), sessions[d], Pair(false, None)) else old(queues)
    {
      var sid := Device(d);
      if sid.None? || table[sid.value].disconnected {
        storage := storage - {d};
        if sid.Some? { SetPaired(sid.value, NotPaired, false); }
        return;
      }
      if !table[sid.value].paired { return; }
      var ok := SendPacket(d, Pair(false, None));
      if ok {
        SetPaired(sid.value, NotPaired, false);
        storage := storage - {table[sid.value].device};
      }
    }

    /** Makes a new session the device's map entry; the replaced one is handed back for
        disconnection. */
    method InstallSession(ghost t: Tid, sid: Sid) returns (prev: Option<Sid>)
      requires Valid() && t in threads && threads[t].Created? && threads[t].sid == sid && sid in table
      requires threads[t].device == table[sid].device
      modifies this`sessions, this`threads
      ensures Valid() && View() == Next(old(View()), Install(t))
      ensures prev == old(Lookup(View(), table[sid].device))
    {
      var d := table[sid].device;
      prev := None;
      if d in sessions { prev := Some(sessions[d]); }
      threads := threads[t := if prev.Some? then Replaced(prev.value) else Finished];
      sessions := sessions[d := sid];
    }
  }
}
