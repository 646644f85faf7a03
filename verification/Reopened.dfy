/**
 Shards that were stopped and opened again. Replay can leave a key in both tables; a lookup asks the inline table first,
 so what such a shard shows is its rows without those of inline keys. Every run keeps that in order too.
 */
module Reopened {
  import opened Bytes
  import opened Segments
  import opened Engine
  import opened GcRuns
  import opened Recovery

  /** The rows a lookup can find. */
  function Shown(st: State): State { st.(addr := st.addr - st.inl.Keys) }

  function ShownSys(y: Sys): Sys { y.(eng := Shown(y.eng)) }

  /** The record the collector is moving is not behind an inline body. */
  ghost predicate NotShadowed(y: Sys) {
    (y.gc.Checked? || y.gc.Copied?) && y.gc.v in y.eng.segs && y.gc.pos < |y.eng.segs[y.gc.v]| ==>
      var k := y.eng.segs[y.gc.v][y.gc.pos].key;
      !(k in y.eng.inl && PointsAt(y.eng.addr, k, y.gc.v, y.gc.pos))
  }

  ghost predicate SafeShown(cfg: Config, y: Sys) { Safe(cfg, ShownSys(y)) && NotShadowed(y) }

  lemma ShownView(cfg: Config, st: State)
    ensures View(cfg, Shown(st)) == View(cfg, st)
  {
    hide BodyAt;
  }

  /** The invariant of the other theorems is the case without hidden rows. */
  lemma SafeIsShown(cfg: Config, y: Sys)
    requires Safe(cfg, y)
    ensures ShownSys(y) == y && SafeShown(cfg, y)
  {
    hide RowsOk;
    assert y.eng.addr - y.eng.inl.Keys == y.eng.addr;
  }

  // ----- a step shows as the same step

  lemma SealShown(cfg: Config, st: State)
    requires st.active in st.segs
    ensures Seal(cfg, Shown(st)) == Shown(Seal(cfg, st))
    ensures Seal(cfg, st).addr == st.addr && Seal(cfg, st).inl == st.inl && Seal(cfg, st).discard == st.discard
  {
    hide SegLen;
  }

  lemma WriteShown(cfg: Config, st: State, rec: Record)
    requires st.active in st.segs
    ensures Write(cfg, Shown(st), rec) == Shown(Write(cfg, st, rec))
    ensures Write(cfg, st, rec).addr == st.addr && Write(cfg, st, rec).inl == st.inl && Write(cfg, st, rec).discard == st.discard
  {
  }

  lemma AppendShown(cfg: Config, st: State, rec: Record)
    requires st.active in st.segs
    ensures Append(cfg, Shown(st), rec) == Shown(Append(cfg, st, rec))
    ensures Append(cfg, st, rec).addr == st.addr && Append(cfg, st, rec).inl == st.inl && Append(cfg, st, rec).discard == st.discard
  {
    SealShown(cfg, st);
    WriteShown(cfg, Seal(cfg, st), rec);
    hide Seal;
    hide Write;
    hide Shown;
  }

  /** Discard counters differ by the rows that are not shown; everything else is the same. */
  ghost predicate SameButCounters(a: Sys, b: Sys) {
    a.gc == b.gc && a.eng == b.eng.(discard := a.eng.discard)
  }

  lemma PutShown(cfg: Config, st: State, k: Key, data: Bytes, era: Option<nat>)
    requires st.active in st.segs
    ensures var a, b := Shown(Put(cfg, st, k, data, era)), Put(cfg, Shown(st), k, data, era); a == b.(discard := a.discard)
  {
    hide Charge;
    AppendShown(cfg, st, Pack(cfg, k, data));
    hide Append;
    hide Pack;
    if GoesInline(cfg, data, era) {
      ShownInline(st, k, data);
    } else {
      var s := Append(cfg, st, Pack(cfg, k, data));
      ShownRow(s, k, LastRow(s, Pack(cfg, k, data), era));
    }
  }

  lemma ShownInline(st: State, k: Key, data: Bytes)
    ensures Shown(st.(inl := st.inl[k := data], addr := st.addr - {k})).addr == Shown(st).addr - {k}
  {
  }

  lemma ShownRow(st: State, k: Key, row: Addr)
    ensures Shown(st.(addr := st.addr[k := row], inl := st.inl - {k})).addr == Shown(st).addr[k := row]
  {
  }

  lemma TableShown(st: State, k: Key, obj: nat, s: nat, gone: set<Key>)
    ensures Shown(SetObj(st, k, obj)) == SetObj(Shown(st), k, obj)
    ensures var a, b := Shown(Delete(st, k)), Delete(Shown(st), k); a == b.(discard := a.discard)
    ensures Shown(Evict(st, s, gone)) == Evict(Shown(st), s, gone) && KeysIn(Shown(st).addr, s) == KeysIn(st.addr, s) - st.inl.Keys
  {
    hide Charge;
    assert (st.addr - {k}) - (st.inl.Keys - {k}) == (st.addr - st.inl.Keys) - {k};
    assert (st.addr - gone) - st.inl.Keys == (st.addr - st.inl.Keys) - gone;
    if k in st.addr {
      var row := st.addr[k].(obj := Some(obj));
      assert st.addr[k := row] - st.inl.Keys == if k in st.inl then st.addr - st.inl.Keys else (st.addr - st.inl.Keys)[k := row];
    }
  }

  predicate ByUser(step: Step) {
    step.DoPut? || step.PutLost? || step.DoDelete? || step.DoSetObj? || step.Rotate? || step.Flush? || step.DoEvict?
  }

  lemma UserStepShown(cfg: Config, r: real, y: Sys, step: Step)
    requires y.eng.active in y.eng.segs && Enabled(r, y, step) && ByUser(step)
    ensures Enabled(r, ShownSys(y), step) && SameButCounters(ShownSys(Next(cfg, r, y, step)), Next(cfg, r, ShownSys(y), step))
  {
    hide SegLen;
    hide Append;
    hide Seal;
    hide Put;
    hide SetObj;
    hide Engine.Delete;
    hide Evict;
    hide Pack;
    match step
    case DoPut(k, data, era) => PutShown(cfg, y.eng, k, data, era);
    case PutLost(k, data, era) => AppendShown(cfg, y.eng, Pack(cfg, k, data));
    case DoDelete(k) => TableShown(y.eng, k, 0, 0, {});
    case DoSetObj(k, obj, _) => TableShown(y.eng, k, obj, 0, {});
    case Rotate => SealShown(cfg, y.eng);
    case DoEvict(s, dropped) => TableShown(y.eng, [], 0, s, dropped);
    case _ =>
  }

  lemma GcStepShown(cfg: Config, r: real, y: Sys, step: Step)
    requires y.eng.active in y.eng.segs && Enabled(r, y, step) && NotShadowed(y) && !ByUser(step)
    ensures Enabled(r, ShownSys(y), step) && SameButCounters(ShownSys(Next(cfg, r, y, step)), Next(cfg, r, ShownSys(y), step))
  {
    hide SegLen;
    hide ChargeOrphans;
    hide OrphansAt;
    hide CopyStep;
    hide CasStep;
    match step
    case GcCopy => CopyShown(cfg, y);
    case GcCas => CasShown(y);
    case _ =>
  }

  lemma CopyShown(cfg: Config, y: Sys)
    requires y.eng.active in y.eng.segs && y.gc.Checked? && y.gc.v in y.eng.segs && y.gc.pos < |y.eng.segs[y.gc.v]|
    ensures SameButCounters(ShownSys(CopyStep(cfg, y)), CopyStep(cfg, ShownSys(y)))
  {
    AppendShown(cfg, y.eng, y.eng.segs[y.gc.v][y.gc.pos]);
    hide Append;
  }

  lemma CasShown(y: Sys)
    requires y.gc.Copied? && y.gc.v in y.eng.segs && y.gc.pos < |y.eng.segs[y.gc.v]| && NotShadowed(y)
    ensures SameButCounters(ShownSys(CasStep(y)), CasStep(ShownSys(y)))
  {
    var k := y.eng.segs[y.gc.v][y.gc.pos].key;
    if PointsAt(y.eng.addr, k, y.gc.v, y.gc.pos) {
      var row := CasStep(y).eng.addr[k];
      assert y.eng.addr[k := row] - y.eng.inl.Keys == (y.eng.addr - y.eng.inl.Keys)[k := row];
    }
  }

  /** A step of the shard is the same step of what it shows. */
  lemma StepShown(cfg: Config, r: real, y: Sys, step: Step)
    requires y.eng.active in y.eng.segs && Enabled(r, y, step) && NotShadowed(y)
    ensures Enabled(r, ShownSys(y), step) && SameButCounters(ShownSys(Next(cfg, r, y, step)), Next(cfg, r, ShownSys(y), step))
  {
    if ByUser(step) { UserStepShown(cfg, r, y, step); } else { GcStepShown(cfg, r, y, step); }
    hide *;
  }

  /** The invariant and the map do not look at counters. */
  lemma CountersAside(cfg: Config, a: Sys, b: Sys)
    requires SameButCounters(a, b)
    ensures Safe(cfg, a) <==> Safe(cfg, b)
    ensures View(cfg, a.eng) == View(cfg, b.eng)
  {
    hide RowsOk;
    hide BodyAt;
    hide Referenced;
    hide NoRowsBefore;
    hide Unpointed;
  }

  lemma StepNotShadowed(cfg: Config, r: real, y: Sys, step: Step)
    requires SafeShown(cfg, y) && Enabled(r, y, step)
    ensures NotShadowed(Next(cfg, r, y, step))
  {
    hide Append;
    hide SegLen;
    hide RowsOk;
    hide Pack;
    if y.gc.Checked? || y.gc.Copied? {
      match step
      case DoPut(k, data, era) => AppendAside(cfg, y, Pack(cfg, k, data));
      case PutLost(k, data, era) => AppendAside(cfg, y, Pack(cfg, k, data));
      case GcCopy => AppendAside(cfg, y, y.eng.segs[y.gc.v][y.gc.pos]);
      case _ =>
    }
  }

  lemma AppendAside(cfg: Config, y: Sys, rec: Record)
    requires SafeShown(cfg, y) && (y.gc.Checked? || y.gc.Copied?)
    ensures var s := Append(cfg, y.eng, rec);
      && s.addr == y.eng.addr && s.inl == y.eng.inl && y.gc.v in s.segs && s.segs[y.gc.v] == y.eng.segs[y.gc.v]
  {
    AppendShown(cfg, y.eng, rec);
    SealedUntouched(cfg, Shown(y.eng), rec, y.gc.v);
  }

  /** Every step keeps what is shown in order and does to the map what the user asked. */
  lemma StepSafeShown(cfg: Config, r: real, y: Sys, step: Step)
    requires GoodZip(cfg) && SafeShown(cfg, y) && Enabled(r, y, step)
    ensures SafeShown(cfg, Next(cfg, r, y, step))
    ensures View(cfg, Next(cfg, r, y, step).eng) == Intend(View(cfg, y.eng), step)
  {
    StepNotShadowed(cfg, r, y, step);
    StepShown(cfg, r, y, step);
    hide Next;
    hide Enabled;
    hide View;
    hide Intend;
    hide GcOk;
    hide RowsOk;
    hide NotShadowed;
    var n := Next(cfg, r, y, step);
    StepSafe(cfg, r, ShownSys(y), step);
    CountersAside(cfg, ShownSys(n), Next(cfg, r, ShownSys(y), step));
    ShownView(cfg, y.eng);
    ShownView(cfg, n.eng);
  }

  /** Over any run of a reopened shard, keys in both tables included, the map changes only by the user's operations. */
  lemma {:induction false} RunRefinesShown(cfg: Config, r: real, y: Sys, steps: seq<Step>)
    requires GoodZip(cfg) && SafeShown(cfg, y) && Feasible(cfg, r, y, steps)
    ensures SafeShown(cfg, Run(cfg, r, y, steps))
    ensures View(cfg, Run(cfg, r, y, steps).eng) == IntendAll(View(cfg, y.eng), steps)
    decreases |steps|
  {
    hide Next;
    hide Enabled;
    hide SafeShown;
    hide View;
    hide Intend;
    if steps != [] {
      StepSafeShown(cfg, r, y, steps[0]);
      RunRefinesShown(cfg, r, Next(cfg, r, y, steps[0]), steps[1..]);
    }
  }

  /** Reads of such shards are the reads of what they show. */
  lemma GetShown(cfg: Config, k: Key, look1: State, read1: State, look2: State, read2: State)
    ensures GetAcross(cfg, k, look1, read1, look2, read2) == GetAcross(cfg, k, Shown(look1), read1, Shown(look2), read2)
  {
  }

  // ----- stopping and opening

  /** A stop that keeps the first keep[s] records of each segment s, then an open. */
  function Reopen(cfg: Config, y: Sys, keep: map<nat, nat>): Sys
    requires Leaves(y.eng, keep)
  {
    Sys(Replay(cfg, Crash(y.eng, keep)), Idle, y.books)
  }

  ghost predicate Decodes(cfg: Config, rec: Record) { Unpack(cfg, rec.stored, rec.logicalLen, rec.flags).Some? }

  /** No row that a lookup finds loses its record for good, and the records replayed for keys that are not inline decode. */
  ghost predicate CleanStop(cfg: Config, st: State, keep: map<nat, nat>)
    requires Leaves(st, keep)
  {
    var c := Crash(st, keep);
    && (forall k :: k in st.addr && k !in st.inl && st.addr[k].idx >= At(keep, st.addr[k].seg) ==> Tail(c, k).Some?)
    && (forall k :: k !in st.inl && Tail(c, k).Some? ==> Decodes(cfg, c.segs[c.active][Tail(c, k).value]))
  }

  /** A stopped and reopened shard is in order exactly after a clean stop. */
  lemma ReopenedShown(cfg: Config, y: Sys, keep: map<nat, nat>)
    requires SafeShown(cfg, y) && Leaves(y.eng, keep)
    ensures SafeShown(cfg, Reopen(cfg, y, keep)) <==> CleanStop(cfg, y.eng, keep)
  {
    var st := y.eng;
    var c := Crash(st, keep);
    var d := Replay(cfg, c);
    forall k
      ensures k in d.addr <==> k in st.addr || Tail(c, k).Some?
      ensures k in d.addr && k !in st.inl ==> (RowOk(cfg, d.segs, k, d.addr[k]) <==> RowBack(cfg, st, keep, k))
    {
      RowReplayed(cfg, st, keep, k);
    }
    hide LastTail;
    hide OnDisk;
    hide RowOk;
    hide ReplayTo;
    hide Decodes;
    RowsAlone(cfg, y, keep);
    hide Safe;
    assert forall k :: k in Shown(d).addr <==> k in d.addr && k !in st.inl;
    assert forall k :: k in Shown(d).addr ==> Shown(d).addr[k] == d.addr[k];
    hide Shown;
    hide Crash;
    hide Replay;
  }

  /** Of the invariant only the rows can suffer from a stop and an open. */
  lemma RowsAlone(cfg: Config, y: Sys, keep: map<nat, nat>)
    requires SafeShown(cfg, y) && Leaves(y.eng, keep)
    ensures var d := Replay(cfg, Crash(y.eng, keep));
      SafeShown(cfg, Reopen(cfg, y, keep)) <==> RowsOk(cfg, d.segs, Shown(d).addr)
  {
    hide RowsOk;
    hide ReplayTo;
  }

  ghost predicate RowBack(cfg: Config, st: State, keep: map<nat, nat>, k: Key)
    requires Leaves(st, keep)
  {
    var c := Crash(st, keep);
    if Tail(c, k).Some? then Decodes(cfg, c.segs[c.active][Tail(c, k).value])
    else k in st.addr && st.addr[k].idx < At(keep, st.addr[k].seg)
  }

  lemma RowReplayed(cfg: Config, st: State, keep: map<nat, nat>, k: Key)
    requires Well(cfg, Shown(st)) && Leaves(st, keep)
    ensures var d := Replay(cfg, Crash(st, keep));
      && (k in d.addr <==> k in st.addr || Tail(Crash(st, keep), k).Some?)
      && (k in d.addr && k !in st.inl ==> (RowOk(cfg, d.segs, k, d.addr[k]) <==> RowBack(cfg, st, keep, k)))
  {
    hide LastTail;
    hide EraOf;
    hide Unpack;
    var c := Crash(st, keep);
    ReplayRow(cfg, c, |c.segs[c.active]|, k);
    if k in st.addr && k !in st.inl { assert k in Shown(st).addr && RowOk(cfg, st.segs, k, st.addr[k]); }
  }

  /**
   It satisfies the invariant of the other theorems, with no key in both tables, exactly when besides no inline key has a
   surviving record past the recovery point.
   */
  lemma ReopenedWell(cfg: Config, y: Sys, keep: map<nat, nat>)
    requires Safe(cfg, y) && Leaves(y.eng, keep)
    ensures Safe(cfg, Reopen(cfg, y, keep))
      <==> CleanStop(cfg, y.eng, keep) && forall k :: k in y.eng.inl ==> Tail(Crash(y.eng, keep), k).None?
  {
    SafeIsShown(cfg, y);
    ReopenedShown(cfg, y, keep);
    var c := Crash(y.eng, keep);
    forall k ensures k in Replay(cfg, c).addr <==> k in y.eng.addr || Tail(c, k).Some? {
      ReplayRow(cfg, c, |c.segs[c.active]|, k);
    }
    hide CleanStop;
    hide ReplayTo;
    hide RowsOk;
    hide LastTail;
    ShownWell(cfg, Replay(cfg, c));
  }

  lemma ShownWell(cfg: Config, d: State)
    ensures Well(cfg, d) <==> Well(cfg, Shown(d)) && d.addr.Keys !! d.inl.Keys
  {
    hide RowsOk;
    if d.addr.Keys !! d.inl.Keys { assert d.addr - d.inl.Keys == d.addr; }
  }

  lemma KeptBody(cfg: Config, st: State, keep: map<nat, nat>, k: Key)
    requires Well(cfg, Shown(st)) && Leaves(st, keep) && k in st.addr && k !in st.inl
    requires st.addr[k].idx < At(keep, st.addr[k].seg)
    ensures BodyAt(cfg, Crash(st, keep).segs, st.addr[k]) == BodyAt(cfg, st.segs, st.addr[k])
  {
    assert k in Shown(st).addr && RowOk(cfg, st.segs, k, st.addr[k]);
    hide Unpack;
  }

  /** What an open after a clean stop makes of key k: the value of its last replayed record, or what it was. */
  lemma ReopenedKey(cfg: Config, y: Sys, keep: map<nat, nat>, k: Key)
    requires SafeShown(cfg, y) && Leaves(y.eng, keep) && CleanStop(cfg, y.eng, keep)
    ensures var c, v, v2 := Crash(y.eng, keep), View(cfg, y.eng), View(cfg, Reopen(cfg, y, keep).eng);
      if k !in y.eng.inl && Tail(c, k).Some? then k in v2 && v2[k] == TailObj(cfg, c, Tail(c, k).value)
      else (k in v2 <==> k in v) && (k in v ==> v2[k] == v[k])
  {
    hide LastTail;
    hide EraOf;
    hide View;
    hide BodyAt;
    hide RowsOk;
    var c := Crash(y.eng, keep);
    ReplayRow(cfg, c, |c.segs[c.active]|, k);
    hide ReplayTo;
    ViewAt(cfg, y.eng, k);
    ViewAt(cfg, Reopen(cfg, y, keep).eng, k);
    if k in y.eng.addr && k !in y.eng.inl && Tail(c, k).None? { KeptBody(cfg, y.eng, keep, k); }
    hide OnDisk;
    hide GcOk;
  }

  // ----- whole lives

  datatype Event = Does(step: Step) | Stops(keep: map<nat, nat>)

  ghost predicate Lives(cfg: Config, r: real, y: Sys, events: seq<Event>)
    decreases |events|
  {
    events == [] ||
    match events[0]
    case Does(step) => y.eng.active in y.eng.segs && Enabled(r, y, step) && Lives(cfg, r, Next(cfg, r, y, step), events[1..])
    case Stops(keep) => Leaves(y.eng, keep) && CleanStop(cfg, y.eng, keep) && Lives(cfg, r, Reopen(cfg, y, keep), events[1..])
  }

  ghost function Life(cfg: Config, r: real, y: Sys, events: seq<Event>): Sys
    requires Lives(cfg, r, y, events)
    decreases |events|
  {
    if events == [] then y else
    match events[0]
    case Does(step) => Life(cfg, r, Next(cfg, r, y, step), events[1..])
    case Stops(keep) => Life(cfg, r, Reopen(cfg, y, keep), events[1..])
  }

  /** A shard that only ever stops cleanly stays in order through any number of runs, stops and reopenings. */
  lemma {:induction false} LifeSafe(cfg: Config, r: real, y: Sys, events: seq<Event>)
    requires GoodZip(cfg) && SafeShown(cfg, y) && Lives(cfg, r, y, events)
    ensures SafeShown(cfg, Life(cfg, r, y, events))
    decreases |events|
  {
    hide Next;
    hide Enabled;
    hide SafeShown;
    hide Reopen;
    if events != [] {
      match events[0]
      case Does(step) =>
        StepSafeShown(cfg, r, y, step);
        LifeSafe(cfg, r, Next(cfg, r, y, step), events[1..]);
      case Stops(keep) =>
        ReopenedShown(cfg, y, keep);
        LifeSafe(cfg, r, Reopen(cfg, y, keep), events[1..]);
    }
  }
}
