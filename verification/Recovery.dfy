/** What a stop does to a shard: losing records that no sync has covered, and replaying what survived. */
module Recovery {
  import opened Bytes
  import opened Segments
  import opened Engine
  import opened GcRuns
  import opened Pieces

  // ----- losing what no sync has covered

  /** A stop leaves of each segment at least the records no stop can take back. */
  predicate Leaves(st: State, keep: map<nat, nat>) {
    st.active in st.segs && keep.Keys == st.segs.Keys && forall s :: s in keep ==> OnDisk(st, s) <= keep[s] <= |st.segs[s]|
  }

  /** A stop that keeps the first keep[s] records of each segment s; the flush offset in memory is gone. */
  function Crash(st: State, keep: map<nat, nat>): State
    requires Leaves(st, keep)
  {
    st.(segs := map s | s in st.segs :: st.segs[s][..keep[s]], synced := Mark(st), soft := st.soft - {st.active})
  }

  /** A stop keeps the whole map, and every row readable, exactly when no row points past what survived. */
  lemma CrashKeeps(cfg: Config, st: State, keep: map<nat, nat>)
    requires Well(cfg, st) && Leaves(st, keep)
    ensures Well(cfg, Crash(st, keep)) <==> forall k :: k in st.addr ==> st.addr[k].idx < At(keep, st.addr[k].seg)
    ensures Well(cfg, Crash(st, keep)) ==> View(cfg, Crash(st, keep)) == View(cfg, st)
  {
    var c := Crash(st, keep);
    forall k | k in st.addr
      ensures RowOk(cfg, c.segs, k, st.addr[k]) <==> st.addr[k].idx < At(keep, st.addr[k].seg)
      ensures RowOk(cfg, c.segs, k, st.addr[k]) ==> BodyAt(cfg, c.segs, st.addr[k]) == BodyAt(cfg, st.segs, st.addr[k])
    {
      assert RowOk(cfg, st.segs, k, st.addr[k]);
    }
    hide RowOk;
    hide BodyAt;
  }

  /** The least a stop can leave. */
  function Least(st: State): (keep: map<nat, nat>)
    requires st.active in st.segs
    ensures Leaves(st, keep)
  {
    map s | s in st.segs :: OnDisk(st, s)
  }

  /** Readable whatever a stop leaves. */
  predicate Durable(cfg: Config, st: State, k: Key)
    requires st.active in st.segs
  {
    k in st.inl || (k in st.addr && ReadAt(cfg, Crash(st, Least(st)).segs, st.addr[k]).Some?)
  }

  ghost predicate AllDurable(cfg: Config, st: State)
    requires st.active in st.segs
  {
    forall k :: k in View(cfg, st) ==> Durable(cfg, st, k)
  }

  /** The record of row k is one that no stop can take back. */
  predicate RowDurable(st: State, k: Key)
    requires k in st.addr
  {
    st.addr[k].seg in st.segs && st.addr[k].idx < OnDisk(st, st.addr[k].seg)
  }

  lemma DurableRow(cfg: Config, st: State, k: Key)
    requires Well(cfg, st) && k in st.addr
    ensures Durable(cfg, st, k) <==> RowDurable(st, k)
  {
    assert RowOk(cfg, st.segs, k, st.addr[k]);
  }

  /**
   The collector's window: the compare-and-swap makes a key point at a copy, and unless that copy is safe from a stop
   already, a stop before the pass's flush leaves its row dangling while the old record is still on disk.
   */
  lemma CasOpensWindow(cfg: Config, y: Sys, k: Key)
    requires Safe(cfg, y) && y.gc.Copied? && k == y.eng.segs[y.gc.v][y.gc.pos].key
    requires PointsAt(y.eng.addr, k, y.gc.v, y.gc.pos)
    ensures Durable(cfg, y.eng, k) <==> y.gc.pos < OnDisk(y.eng, y.gc.v)
    ensures Durable(cfg, CasStep(y).eng, k) <==> y.gc.to.idx < OnDisk(y.eng, y.gc.to.seg)
  {
    hide RowOk;
    hide View;
    DurableRow(cfg, y.eng, k);
    hide Durable;
    CasSafe(cfg, y);
    hide RowsOk;
    DurableRow(cfg, CasStep(y).eng, k);
  }

  /** The flush of a pass reaches row k: its segment is the active one and the flush offset is not at the end. */
  predicate Flushes(st: State, k: Key)
    requires st.active in st.segs && k in st.addr
  {
    st.addr[k].seg == st.active && st.synced < |st.segs[st.active]|
  }

  /**
   The flush before the unlink leaves every key durable exactly when each row is durable already or reached by that
   flush. So it does when the only records that an open took over unsynced are in the active segment and something was
   appended after them; a row it does not reach stays as it was.
   */
  lemma FlushClosesWindow(cfg: Config, r: real, y: Sys)
    requires Safe(cfg, y) && y.gc.Charged?
    ensures var st, st2 := y.eng, Next(cfg, r, y, GcFlush).eng;
      && st2.active in st2.segs && View(cfg, st2) == View(cfg, st)
      && (AllDurable(cfg, st2) <==> forall k :: k in st.addr ==> Flushes(st, k) || RowDurable(st, k))
      && ((forall s :: s in st.soft ==> s == st.active && st.synced < |st.segs[s]|) ==> AllDurable(cfg, st2))
  {
    hide Durable;
    hide Flushes;
    hide OnDisk;
    hide Sync;
    var st, st2 := y.eng, Sync(y.eng);
    SyncKeeps(cfg, st);
    forall k | k in st.addr
      ensures Durable(cfg, st2, k) <==> Flushes(st, k) || RowDurable(st, k)
      ensures (forall s :: s in st.soft ==> s == st.active && st.synced < |st.segs[s]|) ==> Durable(cfg, st2, k)
    {
      FlushReaches(cfg, st, k);
    }
    hide RowsOk;
    ViewKeys(cfg, st);
    hide View;
    forall k | k in st.inl ensures Durable(cfg, st2, k) { InlineDurable(cfg, st2, k); }
  }

  lemma FlushReaches(cfg: Config, st: State, k: Key)
    requires Well(cfg, st) && k in st.addr
    ensures Sync(st).active in Sync(st).segs
    ensures Durable(cfg, Sync(st), k) <==> Flushes(st, k) || RowDurable(st, k)
    ensures (forall s :: s in st.soft ==> s == st.active && st.synced < |st.segs[s]|) ==> Durable(cfg, Sync(st), k)
  {
    assert RowOk(cfg, st.segs, k, st.addr[k]);
    SyncKeeps(cfg, st);
    DurableRow(cfg, Sync(st), k);
    hide Durable;
    hide RowsOk;
    hide View;
  }

  lemma InlineDurable(cfg: Config, st: State, k: Key)
    requires st.active in st.segs && k in st.inl
    ensures Durable(cfg, st, k)
  {
  }

  /** A rotation makes the records of the segment it seals durable exactly when its own flush finds something to do. */
  lemma RotateSyncs(cfg: Config, st: State)
    requires Well(cfg, st) && SegLen(st.segs[st.active]) >= cfg.maxSize
    ensures st.active in Seal(cfg, st).segs
    ensures OnDisk(Seal(cfg, st), st.active) == if st.synced < |st.segs[st.active]| then |st.segs[st.active]| else Mark(st)
  {
    hide SegLen;
    hide RowsOk;
  }

  /** Without an open on the way nothing is soft, so the flush of every pass makes every key durable. */
  lemma FlushOfRun(cfg: Config, r: real, steps: seq<Step>)
    requires GoodZip(cfg) && Feasible(cfg, r, Fresh(), steps) && Run(cfg, r, Fresh(), steps).gc.Charged?
    ensures var y := Run(cfg, r, Fresh(), steps);
      && y.eng.active in y.eng.segs && Next(cfg, r, y, GcFlush).eng.active in Next(cfg, r, y, GcFlush).eng.segs
      && AllDurable(cfg, Next(cfg, r, y, GcFlush).eng)
  {
    hide *;
    FreshSafe(cfg);
    RunRefinesMap(cfg, r, Fresh(), steps);
    RunNotSoft(cfg, r, Fresh(), steps);
    assert Fresh().eng.soft.Keys == {} by { FreshNotSoft(); }
    NotSoftFlush(cfg, r, Run(cfg, r, Fresh(), steps));
  }

  lemma FreshNotSoft()
    ensures Fresh().eng.soft.Keys == {}
  {
  }

  lemma NotSoftFlush(cfg: Config, r: real, y: Sys)
    requires Safe(cfg, y) && y.gc.Charged? && y.eng.soft.Keys <= {}
    ensures y.eng.active in y.eng.segs
    ensures Next(cfg, r, y, GcFlush).eng.active in Next(cfg, r, y, GcFlush).eng.segs && AllDurable(cfg, Next(cfg, r, y, GcFlush).eng)
  {
    FlushClosesWindow(cfg, r, y);
    hide AllDurable;
    hide View;
    hide RowsOk;
  }

  /** No step makes a record soft: only an open does. */
  lemma {:induction false} RunNotSoft(cfg: Config, r: real, y: Sys, steps: seq<Step>)
    requires Feasible(cfg, r, y, steps)
    ensures Run(cfg, r, y, steps).eng.soft.Keys <= y.eng.soft.Keys
    decreases |steps|
  {
    if steps != [] {
      StepNotSoft(cfg, r, y, steps[0]);
      hide Next;
      hide Enabled;
      RunNotSoft(cfg, r, Next(cfg, r, y, steps[0]), steps[1..]);
    }
  }

  lemma StepNotSoft(cfg: Config, r: real, y: Sys, step: Step)
    requires y.eng.active in y.eng.segs && Enabled(r, y, step)
    ensures Next(cfg, r, y, step).eng.soft.Keys <= y.eng.soft.Keys
  {
    hide SegLen;
    hide Pack;
    hide ChargeOrphans;
    hide Append;
    hide Enabled;
    match step
    case DoPut(k, data, _) => AppendNotSoft(cfg, y.eng, Pack(cfg, k, data));
    case PutLost(k, data, _) => AppendNotSoft(cfg, y.eng, Pack(cfg, k, data));
    case GcCopy => CopyNotSoft(cfg, r, y);
    case _ =>
  }

  lemma CopyNotSoft(cfg: Config, r: real, y: Sys)
    requires y.eng.active in y.eng.segs && Enabled(r, y, GcCopy)
    ensures CopyStep(cfg, y).eng.soft.Keys <= y.eng.soft.Keys
  {
    hide Append;
    AppendNotSoft(cfg, y.eng, y.eng.segs[y.gc.v][y.gc.pos]);
  }

  lemma AppendNotSoft(cfg: Config, st: State, rec: Record)
    requires st.active in st.segs
    ensures Append(cfg, st, rec).soft.Keys <= st.soft.Keys
  {
    hide SegLen;
  }

  // ----- replaying the tail

  /** The era field recovered from a record: the logical size in the envelope of a piece. */
  function EraOf(cfg: Config, rec: Record): Option<nat> {
    match Unpack(cfg, rec.stored, rec.logicalLen, rec.flags)
    case Some(body) =>
      (match ParsePieceHeader(body) case Some(h) => Some(h.logicalLen) case None => None)
    case None => None
  }

  function RowFor(cfg: Config, st: State, i: nat): Addr
    requires st.active in st.segs && i < |st.segs[st.active]|
  {
    var rec := st.segs[st.active][i];
    Addr(st.active, i, |rec.stored|, rec.logicalLen, rec.flags, EraOf(cfg, rec))
  }

  /** Opening inserts a row for every record past the recovery point, in order. */
  function ReplayTo(cfg: Config, st: State, n: nat): map<Key, Addr>
    requires st.active in st.segs && Mark(st) <= n <= |st.segs[st.active]|
    decreases n
  {
    if n == Mark(st) then st.addr
    else ReplayTo(cfg, st, n - 1)[st.segs[st.active][n - 1].key := RowFor(cfg, st, n - 1)]
  }

  /** The flush offset goes to the end without a sync, and the recovery point stays where it was. */
  function Replay(cfg: Config, st: State): State
    requires st.active in st.segs
  {
    st.(addr := ReplayTo(cfg, st, |st.segs[st.active]|), synced := |st.segs[st.active]|, soft := st.soft[st.active := Mark(st)])
  }

  /** The last of the first n active records that is past the recovery point and belongs to k. */
  function LastTail(st: State, k: Key, n: nat): (i: Option<nat>)
    requires st.active in st.segs && n <= |st.segs[st.active]|
    ensures i.Some? ==> Mark(st) <= i.value < n && st.segs[st.active][i.value].key == k
    ensures forall j :: Mark(st) <= j < n && (i.None? || i.value < j) ==> st.segs[st.active][j].key != k
    decreases n
  {
    if n <= Mark(st) then None
    else if st.segs[st.active][n - 1].key == k then Some(n - 1)
    else LastTail(st, k, n - 1)
  }

  /** After the replay a key has the row of its last tail record, or its old row when the tail has none. */
  lemma {:induction false} ReplayRow(cfg: Config, st: State, n: nat, k: Key)
    requires st.active in st.segs && Mark(st) <= n <= |st.segs[st.active]|
    ensures var a, i := ReplayTo(cfg, st, n), LastTail(st, k, n);
      && (k in a <==> k in st.addr || i.Some?)
      && (k in a ==> a[k] == if i.Some? then RowFor(cfg, st, i.value) else st.addr[k])
    decreases n
  {
    hide RowFor;
    if n > Mark(st) { ReplayRow(cfg, st, n - 1, k); }
  }

  function Tail(st: State, k: Key): Option<nat>
    requires st.active in st.segs
  {
    LastTail(st, k, |st.segs[st.active]|)
  }

  /** What a record in the tail stands for once a row points at it. */
  function TailObj(cfg: Config, st: State, i: nat): Obj
    requires st.active in st.segs && i < |st.segs[st.active]|
  {
    Obj(BodyAt(cfg, st.segs, RowFor(cfg, st, i)), EraOf(cfg, st.segs[st.active][i]))
  }

  /** k has no unsynced record, or lives inline, or still stands for its last unsynced record. */
  ghost predicate Current(cfg: Config, st: State, k: Key)
    requires st.active in st.segs
  {
    Tail(st, k).Some? ==> k in st.inl || (k in st.addr && View(cfg, st)[k] == TailObj(cfg, st, Tail(st, k).value))
  }

  /** Replay changes what k stands for exactly when k is not current. */
  lemma ReplayAt(cfg: Config, st: State, k: Key)
    requires Well(cfg, st)
    ensures var v, v2 := View(cfg, st), View(cfg, Replay(cfg, st));
      Current(cfg, st, k) <==> (k in v <==> k in v2) && (k in v ==> v[k] == v2[k])
  {
    hide BodyAt;
    hide ReplayTo;
    hide LastTail;
    hide EraOf;
    ReplayRow(cfg, st, |st.segs[st.active]|, k);
  }

  /**
   Replay leaves the map as it was exactly when every key is current: it goes wrong for keys deleted or changed
   after their unsynced put and for collector copies that went stale.
   */
  lemma ReplayKeepsView(cfg: Config, st: State)
    requires Well(cfg, st)
    ensures View(cfg, Replay(cfg, st)) == View(cfg, st) <==> forall k :: Current(cfg, st, k)
  {
    var v, v2 := View(cfg, st), View(cfg, Replay(cfg, st));
    forall k ensures Current(cfg, st, k) <==> (k in v <==> k in v2) && (k in v ==> v[k] == v2[k]) {
      ReplayAt(cfg, st, k);
    }
    hide View;
    hide Current;
    if forall k :: Current(cfg, st, k) {
      forall k ensures (k in v <==> k in v2) && (k in v ==> v[k] == v2[k]) { assert Current(cfg, st, k); }
      assert v == v2;
    }
  }

  /** A deleted key comes back on the next open exactly when it has a record past the recovery point. */
  lemma ReplayResurrects(cfg: Config, st: State, k: Key)
    requires Well(cfg, st)
    ensures var d := Engine.Delete(st, k);
      Well(cfg, d) && k !in View(cfg, d) && (k in View(cfg, Replay(cfg, d)) <==> Tail(st, k).Some?)
  {
    hide BodyAt;
    hide ReplayTo;
    var d := Engine.Delete(st, k);
    DeleteView(cfg, st, k);
    SameTail(st, d, k, |st.segs[st.active]|);
    hide LastTail;
    ReplayRow(cfg, d, |d.segs[d.active]|, k);
  }

  lemma {:induction false} SameTail(st: State, d: State, k: Key, n: nat)
    requires st.active in st.segs && n <= |st.segs[st.active]|
    requires d.segs == st.segs && d.active == st.active && Mark(d) == Mark(st)
    ensures LastTail(d, k, n) == LastTail(st, k, n)
    decreases n
  {
    if n > Mark(st) { SameTail(st, d, k, n - 1); }
  }
}
