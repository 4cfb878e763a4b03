/** Analysing a parsed trace: what is still allocated at its end, and totals by call site. */
module TraceAnalysis {
  import opened Bytes
  import opened TraceFormat

  /** A live allocation: its size, backtrace, number among all allocations, and time. */
  datatype Entry = Entry(size: nat, frames: seq<nat>, serial: nat, ts: nat)

  datatype Hotspot = Hotspot(count: nat, total: nat)

  datatype Report = Report(allocCount: nat, allocTotal: nat, freeCount: nat, freeTotal: nat, orphanFrees: nat,
                           live: map<nat, Entry>, hotspots: map<seq<nat>, Hotspot>, lastTs: nat)

  // ----- What a trace says, independent of the order the analysis works in

  /** The last record about an address. */
  ghost function Last(records: seq<Record>, ptr: nat): (r: Option<nat>)
    ensures r.Some? ==> r.value < |records| && records[r.value].ptr == ptr
    ensures forall i :: 0 <= i < |records| && records[i].ptr == ptr ==> r.Some? && i <= r.value
  {
    if records == [] then None
    else if records[|records| - 1].ptr == ptr then Some(|records| - 1)
    else Last(records[..|records| - 1], ptr)
  }

  /** An address is live if the last record about it is an allocation. */
  ghost predicate LiveAt(records: seq<Record>, ptr: nat) {
    Last(records, ptr).Some? && records[Last(records, ptr).value].kind == ALLOC
  }

  ghost function Allocs(records: seq<Record>): nat {
    if records == [] then 0
    else Allocs(records[..|records| - 1]) + if records[|records| - 1].kind == ALLOC then 1 else 0
  }

  ghost function AllocBytes(records: seq<Record>): nat {
    if records == [] then 0
    else AllocBytes(records[..|records| - 1]) + if records[|records| - 1].kind == ALLOC then records[|records| - 1].size else 0
  }

  ghost function FreeBytes(records: seq<Record>): nat {
    if records == [] then 0
    else FreeBytes(records[..|records| - 1]) + if records[|records| - 1].kind == ALLOC then 0 else records[|records| - 1].size
  }

  /** Frees of addresses that are not live. */
  ghost function Orphans(records: seq<Record>): nat {
    if records == [] then 0
    else
      var r, before := records[|records| - 1], records[..|records| - 1];
      Orphans(before) + if r.kind != ALLOC && !LiveAt(before, r.ptr) then 1 else 0
  }

  /** Allocations at addresses that are already live. */
  ghost function Replaced(records: seq<Record>): nat {
    if records == [] then 0
    else
      var r, before := records[|records| - 1], records[..|records| - 1];
      Replaced(before) + if r.kind == ALLOC && LiveAt(before, r.ptr) then 1 else 0
  }

  /** Allocations from one call site. */
  ghost function From(records: seq<Record>, frames: seq<nat>): Hotspot {
    if records == [] then Hotspot(0, 0)
    else
      var r, h := records[|records| - 1], From(records[..|records| - 1], frames);
      if r.kind == ALLOC && r.frames == frames then Hotspot(h.count + 1, h.total + r.size) else h
  }

  /** What is recorded as live at an address is the last record about it. */
  ghost predicate EntryIs(records: seq<Record>, live: map<nat, Entry>, ptr: nat) {
    && (ptr in live <==> LiveAt(records, ptr))
    && (ptr in live ==>
          var i := Last(records, ptr).value;
          live[ptr] == Entry(records[i].size, records[i].frames, Allocs(records[..i + 1]), records[i].ts))
  }

  ghost predicate LiveIs(records: seq<Record>, live: map<nat, Entry>) {
    forall ptr: nat :: EntryIs(records, live, ptr)
  }

  ghost predicate HotspotsAre(records: seq<Record>, hotspots: map<seq<nat>, Hotspot>) {
    forall frames {:trigger frames in hotspots} {:trigger From(records, frames)} ::
      && (frames in hotspots <==> From(records, frames).count > 0)
      && (frames in hotspots ==> hotspots[frames] == From(records, frames))
  }

  ghost predicate Latest(records: seq<Record>, t: nat) {
    && (forall i :: 0 <= i < |records| ==> records[i].ts <= t)
    && (t == 0 || exists i :: 0 <= i < |records| && records[i].ts == t)
  }

  // ----- One more record

  lemma LastSnoc(before: seq<Record>, r: Record, ptr: nat)
    ensures Last(before + [r], ptr) == if r.ptr == ptr then Some(|before|) else Last(before, ptr)
  {
    assert (before + [r])[..|before|] == before;
  }

  lemma AllocSnocAt(before: seq<Record>, r: Record, live: map<nat, Entry>, ptr: nat)
    requires r.kind == ALLOC && EntryIs(before, live, ptr)
    ensures EntryIs(before + [r], live[r.ptr := Entry(r.size, r.frames, Allocs(before) + 1, r.ts)], ptr)
  {
    hide Last, Allocs;
    var records := before + [r];
    LastSnoc(before, r, ptr);
    if r.ptr == ptr {
      AllocsSnoc(before, r);
      assert records[..|before| + 1] == records;
    } else if ptr in live {
      SamePrefix(before, r, Last(before, ptr).value + 1);
    }
  }

  lemma FreeSnocAt(before: seq<Record>, r: Record, live: map<nat, Entry>, ptr: nat)
    requires r.kind != ALLOC && EntryIs(before, live, ptr)
    ensures EntryIs(before + [r], live - {r.ptr}, ptr)
  {
    hide Last, Allocs;
    LastSnoc(before, r, ptr);
    if r.ptr != ptr && ptr in live {
      SamePrefix(before, r, Last(before, ptr).value + 1);
    }
  }

  lemma SamePrefix(before: seq<Record>, r: Record, n: nat)
    requires n <= |before|
    ensures (before + [r])[..n] == before[..n]
  {
  }

  lemma LiveSnoc(before: seq<Record>, r: Record, live: map<nat, Entry>)
    requires LiveIs(before, live)
    ensures r.kind == ALLOC ==> LiveIs(before + [r], live[r.ptr := Entry(r.size, r.frames, Allocs(before) + 1, r.ts)])
    ensures r.kind != ALLOC ==> LiveIs(before + [r], live - {r.ptr})
  {
    hide EntryIs, Allocs;
    if r.kind == ALLOC {
      var more := live[r.ptr := Entry(r.size, r.frames, Allocs(before) + 1, r.ts)];
      forall ptr: nat ensures EntryIs(before + [r], more, ptr) {
        AllocSnocAt(before, r, live, ptr);
      }
    } else {
      forall ptr: nat ensures EntryIs(before + [r], live - {r.ptr}, ptr) {
        FreeSnocAt(before, r, live, ptr);
      }
    }
  }

  lemma AllocsSnoc(before: seq<Record>, r: Record)
    ensures Allocs(before + [r]) == Allocs(before) + if r.kind == ALLOC then 1 else 0
  {
    assert (before + [r])[..|before|] == before;
  }

  lemma CountsSnoc(before: seq<Record>, r: Record)
    ensures AllocBytes(before + [r]) == AllocBytes(before) + if r.kind == ALLOC then r.size else 0
    ensures FreeBytes(before + [r]) == FreeBytes(before) + if r.kind == ALLOC then 0 else r.size
    ensures Orphans(before + [r]) == Orphans(before) + if r.kind != ALLOC && !LiveAt(before, r.ptr) then 1 else 0
    ensures Replaced(before + [r]) == Replaced(before) + if r.kind == ALLOC && LiveAt(before, r.ptr) then 1 else 0
  {
    hide LiveAt;
    assert (before + [r])[..|before|] == before;
  }

  lemma HotspotsSnoc(before: seq<Record>, r: Record, hotspots: map<seq<nat>, Hotspot>)
    requires HotspotsAre(before, hotspots)
    ensures r.kind == ALLOC ==>
              var h := if r.frames in hotspots then hotspots[r.frames] else Hotspot(0, 0);
              HotspotsAre(before + [r], hotspots[r.frames := Hotspot(h.count + 1, h.total + r.size)])
    ensures r.kind != ALLOC ==> HotspotsAre(before + [r], hotspots)
  {
    forall frames ensures From(before + [r], frames) ==
      if r.kind == ALLOC && r.frames == frames then Hotspot(From(before, frames).count + 1, From(before, frames).total + r.size)
      else From(before, frames)
    {
      assert (before + [r])[..|before|] == before;
    }
    NoneFrom(before, r.frames);
  }

  lemma {:induction false} NoneFrom(records: seq<Record>, frames: seq<nat>)
    ensures From(records, frames).count == 0 ==> From(records, frames).total == 0
  {
    if records != [] { NoneFrom(records[..|records| - 1], frames); }
  }

  // ----- The analysis

  /** The report says what the records say. Every allocation is live at the end, freed, or
      was replaced at the same address. */
  ghost predicate Reports(records: seq<Record>, r: Report) {
    && r.allocCount == Allocs(records) && r.allocTotal == AllocBytes(records)
    && r.freeCount == |records| - r.allocCount && r.freeTotal == FreeBytes(records)
    && r.orphanFrees == Orphans(records)
    && r.allocCount == |r.live| + (r.freeCount - r.orphanFrees) + Replaced(records)
    && LiveIs(records, r.live) && HotspotsAre(records, r.hotspots) && Latest(records, r.lastTs)
  }

  function LaterOf(ts: nat, lastTs: nat): nat {
    if ts != 0 && lastTs < ts then ts else lastTs
  }

  /** What an allocation does to a report. */
  function AfterAlloc(report: Report, r: Record): Report {
    var h := if r.frames in report.hotspots then report.hotspots[r.frames] else Hotspot(0, 0);
    Report(report.allocCount + 1, report.allocTotal + r.size, report.freeCount, report.freeTotal, report.orphanFrees,
           report.live[r.ptr := Entry(r.size, r.frames, report.allocCount + 1, r.ts)],
           report.hotspots[r.frames := Hotspot(h.count + 1, h.total + r.size)], LaterOf(r.ts, report.lastTs))
  }

  /** What a free does to a report. */
  function AfterFree(report: Report, r: Record): Report {
    Report(report.allocCount, report.allocTotal, report.freeCount + 1, report.freeTotal + r.size,
           if r.ptr in report.live then report.orphanFrees else report.orphanFrees + 1,
           report.live - {r.ptr}, report.hotspots, LaterOf(r.ts, report.lastTs))
  }

  lemma AllocReported(before: seq<Record>, r: Record, report: Report)
    requires Reports(before, report) && r.kind == ALLOC
    ensures Reports(before + [r], AfterAlloc(report, r))
  {
    hide LiveIs, HotspotsAre, Latest, LiveAt, Last, Allocs, AllocBytes, FreeBytes, Orphans, Replaced;
    LiveSnoc(before, r, report.live);
    HotspotsSnoc(before, r, report.hotspots);
    AllocsSnoc(before, r);
    CountsSnoc(before, r);
    LatestSnoc(before, r, report.lastTs);
    IsLive(before, report.live, r.ptr);
  }

  lemma FreeReported(before: seq<Record>, r: Record, report: Report)
    requires Reports(before, report) && r.kind != ALLOC
    ensures Reports(before + [r], AfterFree(report, r))
  {
    hide LiveIs, HotspotsAre, Latest, LiveAt, Last, Allocs, AllocBytes, FreeBytes, Orphans, Replaced;
    LiveSnoc(before, r, report.live);
    HotspotsSnoc(before, r, report.hotspots);
    AllocsSnoc(before, r);
    CountsSnoc(before, r);
    LatestSnoc(before, r, report.lastTs);
    IsLive(before, report.live, r.ptr);
    NotIn(report.live, r.ptr);
  }

  method Analyze(records: seq<Record>) returns (report: Report)
    ensures Reports(records, report)
  {
    hide *;
    var live: map<nat, Entry>, hotspots: map<seq<nat>, Hotspot> := map[], map[];
    var allocCount: nat, allocTotal: nat, freeCount: nat, freeTotal: nat, orphanFrees: nat, lastTs: nat := 0, 0, 0, 0, 0, 0;
    ghost var sofar := Report(0, 0, 0, 0, 0, map[], map[], 0);
    var i := 0;
    NothingYet(records[..0]);
    while i < |records|
      invariant 0 <= i <= |records| && Reports(records[..i], sofar)
      invariant sofar == Report(allocCount, allocTotal, freeCount, freeTotal, orphanFrees, live, hotspots, lastTs)
    {
      var r := records[i];
      OneMore(records, i);
      if r.kind == ALLOC {
        AllocReported(records[..i], r, sofar);
        AllocIs(sofar, r);
        allocCount, allocTotal := allocCount + 1, allocTotal + r.size;
        live := live[r.ptr := Entry(r.size, r.frames, allocCount, r.ts)];
        var h := if r.frames in hotspots then hotspots[r.frames] else Hotspot(0, 0);
        hotspots := hotspots[r.frames := Hotspot(h.count + 1, h.total + r.size)];
        sofar := AfterAlloc(sofar, r);
      } else {
        FreeReported(records[..i], r, sofar);
        FreeIs(sofar, r);
        freeCount, freeTotal := freeCount + 1, freeTotal + r.size;
        if r.ptr in live {
          live := live - {r.ptr};
        } else {
          orphanFrees := orphanFrees + 1;
        }
        sofar := AfterFree(sofar, r);
      }
      if r.ts != 0 && lastTs < r.ts { lastTs := r.ts; }
      i := i + 1;
    }
    WholeList(records, i);
    report := Report(allocCount, allocTotal, freeCount, freeTotal, orphanFrees, live, hotspots, lastTs);
  }

  lemma OneMore(records: seq<Record>, i: nat)
    requires i < |records|
    ensures records[..i + 1] == records[..i] + [records[i]]
  {
  }

  lemma WholeList(records: seq<Record>, i: nat)
    requires i == |records|
    ensures records[..i] == records
  {
  }

  lemma AllocIs(a: Report, r: Record)
    ensures var n := AfterAlloc(a, r); var h := if r.frames in a.hotspots then a.hotspots[r.frames] else Hotspot(0, 0);
            && n.allocCount == a.allocCount + 1 && n.allocTotal == a.allocTotal + r.size
            && n.freeCount == a.freeCount && n.freeTotal == a.freeTotal && n.orphanFrees == a.orphanFrees
            && n.live == a.live[r.ptr := Entry(r.size, r.frames, a.allocCount + 1, r.ts)]
            && n.hotspots == a.hotspots[r.frames := Hotspot(h.count + 1, h.total + r.size)]
            && n.lastTs == if r.ts != 0 && a.lastTs < r.ts then r.ts else a.lastTs
  {
  }

  lemma FreeIs(a: Report, r: Record)
    ensures var n := AfterFree(a, r);
            && n.allocCount == a.allocCount && n.allocTotal == a.allocTotal
            && n.freeCount == a.freeCount + 1 && n.freeTotal == a.freeTotal + r.size
            && n.orphanFrees == (if r.ptr in a.live then a.orphanFrees else a.orphanFrees + 1)
            && n.live == (if r.ptr in a.live then a.live - {r.ptr} else a.live) && n.hotspots == a.hotspots
            && n.lastTs == if r.ts != 0 && a.lastTs < r.ts then r.ts else a.lastTs
  {
    NotIn(a.live, r.ptr);
  }

  lemma NothingYet(none: seq<Record>)
    requires none == []
    ensures Reports(none, Report(0, 0, 0, 0, 0, map[], map[], 0))
  {
  }

  lemma IsLive(records: seq<Record>, live: map<nat, Entry>, ptr: nat)
    requires LiveIs(records, live)
    ensures ptr in live <==> LiveAt(records, ptr)
  {
    hide LiveAt, Last;
    assert EntryIs(records, live, ptr);
  }

  lemma LatestSnoc(before: seq<Record>, r: Record, t: nat)
    requires Latest(before, t)
    ensures Latest(before + [r], if r.ts != 0 && t < r.ts then r.ts else t)
  {
    var records := before + [r];
    if r.ts != 0 && t < r.ts {
      assert records[|before|].ts == r.ts;
    } else if t != 0 {
      var i :| 0 <= i < |before| && before[i].ts == t;
      assert records[i].ts == t;
    }
  }

  lemma NotIn(live: map<nat, Entry>, ptr: nat)
    ensures ptr !in live ==> live - {ptr} == live
    ensures ptr in live ==> |live - {ptr}| == |live| - 1
  {
    if ptr in live {
      assert (live - {ptr}).Keys == live.Keys - {ptr};
      assert |live.Keys - {ptr}| == |live.Keys| - 1;
      assert |live - {ptr}| == |(live - {ptr}).Keys|;
    } else {
      assert (live - {ptr}).Keys == live.Keys;
    }
  }
}
