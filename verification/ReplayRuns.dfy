/** Which runs leave a shard whose tail can be replayed without changing the map. */
module ReplayRuns {
  import opened Bytes
  import opened Segments
  import opened Engine
  import opened GcRuns
  import opened Recovery

  // ----- what a run keeps

  /** Each row's era is the one its record would be replayed with. */
  ghost predicate Honest(cfg: Config, st: State) {
    forall k :: k in st.addr && st.addr[k].seg in st.segs && st.addr[k].idx < |st.segs[st.addr[k].seg]| ==>
      st.addr[k].obj == EraOf(cfg, st.segs[st.addr[k].seg][st.addr[k].idx])
  }

  ghost predicate AllCurrent(cfg: Config, st: State)
    requires st.active in st.segs
  {
    forall k :: Current(cfg, st, k)
  }

  /** A step that leaves no record in the tail behind its key's value. */
  ghost predicate TailSafe(cfg: Config, y: Sys, step: Step)
    requires y.eng.active in y.eng.segs
  {
    var st := y.eng;
    match step
    case DoPut(k, data, era) => GoesInline(cfg, data, era) || era == EraOf(cfg, Pack(cfg, k, data))
    case PutLost(k, data, era) => GoesInline(cfg, data, era)
    case DoDelete(k) => Tail(st, k).None?
    case DoSetObj(k, obj, hit) =>
      hit && k in st.addr && st.addr[k].seg in st.segs && st.addr[k].idx < |st.segs[st.addr[k].seg]| ==>
        Some(obj) == EraOf(cfg, st.segs[st.addr[k].seg][st.addr[k].idx])
    case GcCopy =>
      y.gc.Checked? && y.gc.v in st.segs && y.gc.pos < |st.segs[y.gc.v]| ==>
        PointsAt(st.addr, st.segs[y.gc.v][y.gc.pos].key, y.gc.v, y.gc.pos)
    case DoEvict(_, dropped) => forall k :: k in dropped ==> Tail(st, k).None?
    case _ => true
  }

  // ----- the tail after an append

  lemma {:induction false} TailPrefix(a: State, b: State, k: Key, n: nat)
    requires a.active in a.segs && b.active in b.segs && n <= |a.segs[a.active]| <= |b.segs[b.active]|
    requires a.segs[a.active] <= b.segs[b.active] && Mark(a) == Mark(b)
    ensures LastTail(b, k, n) == LastTail(a, k, n)
    decreases n
  {
    if n > Mark(a) { TailPrefix(a, b, k, n - 1); }
  }

  /** Nothing past the recovery point, nothing in the tail. */
  lemma NoTail(st: State, k: Key)
    requires st.active in st.segs && Mark(st) >= |st.segs[st.active]|
    ensures Tail(st, k).None?
  {
  }

  /** After an append a key's tail record is the one appended, or the one it had. */
  lemma AppendTail(cfg: Config, st: State, rec: Record, k: Key)
    requires Well(cfg, st)
    ensures var s := Append(cfg, st, rec);
      s.active in s.segs && (Tail(s, k).Some? ==>
        if rec.key == k then Tail(s, k).value == |s.segs[s.active]| - 1
        else s.active == st.active && Mark(s) == Mark(st) && st.segs[st.active] <= s.segs[s.active] && Tail(s, k) == Tail(st, k))
  {
    hide SegLen;
    var s := Append(cfg, st, rec);
    var w := Seal(cfg, st);
    if Mark(s) >= |s.segs[s.active]| {
      NoTail(s, k);
    } else {
      TailPrefix(w, s, k, |w.segs[w.active]|);
      assert LastTail(s, k, |s.segs[s.active]|) == if rec.key == k then Some(|s.segs[s.active]| - 1) else LastTail(w, k, |w.segs[w.active]|);
    }
  }

  /** A key whose tail record is gone or as it was, and whose value has not changed, is still current. */
  lemma StillCurrent(cfg: Config, a: State, b: State, k: Key)
    requires a.active in a.segs && b.active in b.segs && Current(cfg, a, k)
    requires Tail(b, k).Some? ==>
      && a.active == b.active && Mark(a) == Mark(b) && a.segs[a.active] <= b.segs[b.active] && Tail(b, k) == Tail(a, k)
    requires k in b.inl || (k !in a.inl && (k in a.addr ==> k in b.addr && View(cfg, b)[k] == View(cfg, a)[k]))
    ensures Current(cfg, b, k)
  {
    hide Unpack;
    hide LastTail;
    hide EraOf;
    if Tail(b, k).Some? && k !in b.inl {
      assert View(cfg, b)[k] == View(cfg, a)[k];
      assert TailObj(cfg, b, Tail(b, k).value) == TailObj(cfg, a, Tail(a, k).value);
    }
  }

  // ----- steps

  /** Same tail or none, same map: what is current stays so. */
  lemma SameMapCurrent(cfg: Config, a: State, b: State, k: Key)
    requires a.active in a.segs && b.active in b.segs && Current(cfg, a, k)
    requires Mark(b) >= |b.segs[b.active]| || (a.active == b.active && Mark(a) == Mark(b) && a.segs[a.active] == b.segs[b.active])
    requires b.inl == a.inl && b.addr.Keys == a.addr.Keys && View(cfg, b) == View(cfg, a)
    ensures Current(cfg, b, k)
  {
    hide View;
    if Mark(b) >= |b.segs[b.active]| { NoTail(b, k); } else { TailPrefix(a, b, k, |a.segs[a.active]|); }
    hide Current;
    StillCurrent(cfg, a, b, k);
  }

  /** A key whose row is that of its tail record is current. */
  lemma RowIsTail(cfg: Config, b: State, k: Key)
    requires b.active in b.segs && k in b.addr && k !in b.inl
    requires Tail(b, k).Some? ==> b.addr[k] == RowFor(cfg, b, Tail(b, k).value)
    ensures Current(cfg, b, k)
  {
    hide LastTail;
    hide Unpack;
  }

  /** A put leaves the tail record of any other key where it was, or makes it durable. */
  lemma PutOtherTail(cfg: Config, st: State, k: Key, data: Bytes, era: Option<nat>, j: Key)
    requires Well(cfg, st) && j != k
    ensures var b := Put(cfg, st, k, data, era);
      && b.active in b.segs
      && (Tail(b, j).Some? ==>
          st.active == b.active && Mark(st) == Mark(b) && st.segs[st.active] <= b.segs[b.active] && Tail(b, j) == Tail(st, j))
  {
    hide RowsOk;
    hide LastTail;
    hide Charge;
    var b := Put(cfg, st, k, data, era);
    if GoesInline(cfg, data, era) {
      SameTail(st, b, j, |st.segs[st.active]|);
    } else {
      var s := Append(cfg, st, Pack(cfg, k, data));
      AppendTail(cfg, st, Pack(cfg, k, data), j);
      hide Append;
      SameTail(s, b, j, |s.segs[s.active]|);
    }
  }

  lemma PutOther(cfg: Config, st: State, k: Key, data: Bytes, era: Option<nat>, j: Key)
    requires GoodZip(cfg) && Well(cfg, st) && Current(cfg, st, j) && j != k
    ensures Put(cfg, st, k, data, era).active in Put(cfg, st, k, data, era).segs && Current(cfg, Put(cfg, st, k, data, era), j)
  {
    var b := Put(cfg, st, k, data, era);
    PutOtherTail(cfg, st, k, data, era, j);
    PutView(cfg, st, k, data, era);
    PutKeeps(cfg, st, k, data, era);
    hide Put;
    hide Current;
    hide View;
    hide LastTail;
    ViewKeys(cfg, st);
    StillCurrent(cfg, st, b, j);
  }

  lemma PutKeeps(cfg: Config, st: State, k: Key, data: Bytes, era: Option<nat>)
    requires Well(cfg, st)
    ensures var b := Put(cfg, st, k, data, era); b.addr.Keys + {k} == st.addr.Keys + {k} && b.inl.Keys + {k} == st.inl.Keys + {k}
  {
    hide RowsOk;
    hide View;
    hide Pack;
    AppendGrows(cfg, st, Pack(cfg, k, data));
    hide Append;
    hide Charge;
    hide Grown;
  }

  lemma PutSelf(cfg: Config, st: State, k: Key, data: Bytes, era: Option<nat>)
    requires Well(cfg, st) && (GoesInline(cfg, data, era) || era == EraOf(cfg, Pack(cfg, k, data)))
    ensures Put(cfg, st, k, data, era).active in Put(cfg, st, k, data, era).segs && Current(cfg, Put(cfg, st, k, data, era), k)
  {
    var b := Put(cfg, st, k, data, era);
    if !GoesInline(cfg, data, era) {
      var s := Append(cfg, st, Pack(cfg, k, data));
      AppendTail(cfg, st, Pack(cfg, k, data), k);
      AppendGrows(cfg, st, Pack(cfg, k, data));
      SameTail(s, b, k, |s.segs[s.active]|);
      hide Append;
      hide LastTail;
      hide EraOf;
      hide Charge;
      RowIsTail(cfg, b, k);
    }
  }

  lemma PutCurrent(cfg: Config, st: State, k: Key, data: Bytes, era: Option<nat>, j: Key)
    requires GoodZip(cfg) && Well(cfg, st) && Current(cfg, st, j)
    requires GoesInline(cfg, data, era) || era == EraOf(cfg, Pack(cfg, k, data))
    ensures var b := Put(cfg, st, k, data, era); b.active in b.segs && Current(cfg, b, j)
  {
    if j == k { PutSelf(cfg, st, k, data, era); } else { PutOther(cfg, st, k, data, era, j); }
    hide *;
  }

  lemma DeleteCurrent(cfg: Config, st: State, k: Key, j: Key)
    requires Well(cfg, st) && Current(cfg, st, j) && Tail(st, k).None?
    ensures Current(cfg, Engine.Delete(st, k), j)
  {
    var b := Engine.Delete(st, k);
    DeleteView(cfg, st, k);
    SameTail(st, b, j, |st.segs[st.active]|);
    if j != k {
      hide Current;
      hide LastTail;
      hide BodyAt;
      hide Charge;
      StillCurrent(cfg, st, b, j);
    }
  }

  lemma EvictCurrent(cfg: Config, st: State, v: nat, j: Key)
    requires Well(cfg, st) && Current(cfg, st, j) && v != st.active && (j in KeysIn(st.addr, v) ==> Tail(st, j).None?)
    ensures var b := Evict(st, v, KeysIn(st.addr, v)); b.active in b.segs && Current(cfg, b, j)
  {
    var b := Evict(st, v, KeysIn(st.addr, v));
    EvictView(cfg, st, v);
    TailPrefix(st, b, j, |st.segs[st.active]|);
    if j !in KeysIn(st.addr, v) {
      hide Current;
      hide LastTail;
      hide BodyAt;
      StillCurrent(cfg, st, b, j);
    }
  }

  /** An append leaves the other keys current. */
  lemma AppendOther(cfg: Config, st: State, rec: Record, j: Key)
    requires Well(cfg, st) && Current(cfg, st, j) && j != rec.key
    ensures var b := Append(cfg, st, rec); b.active in b.segs && Current(cfg, b, j)
  {
    AppendGrows(cfg, st, rec);
    AppendTail(cfg, st, rec, j);
    hide Current;
    hide Append;
    hide LastTail;
    hide BodyAt;
    StillCurrent(cfg, st, Append(cfg, st, rec), j);
  }

  /** A copy of a record its key still points at is that key's value. */
  lemma CopyCurrent(cfg: Config, st: State, v: nat, pos: nat, j: Key)
    requires Well(cfg, st) && Honest(cfg, st) && Current(cfg, st, j)
    requires v in st.segs && pos < |st.segs[v]| && PointsAt(st.addr, st.segs[v][pos].key, v, pos)
    ensures var b := Append(cfg, st, st.segs[v][pos]); b.active in b.segs && Current(cfg, b, j)
  {
    var rec := st.segs[v][pos];
    if j != rec.key {
      AppendOther(cfg, st, rec, j);
    } else {
      var b := Append(cfg, st, rec);
      AppendGrows(cfg, st, rec);
      AppendTail(cfg, st, rec, j);
      hide Append;
      hide LastTail;
      hide Current;
      assert RowOk(cfg, st.segs, rec.key, st.addr[rec.key]);
      CopiedValue(cfg, st, b, rec.key);
    }
  }

  lemma CopiedValue(cfg: Config, st: State, b: State, k: Key)
    requires Well(cfg, st) && Honest(cfg, st) && k in st.addr && k in b.addr && k !in b.inl && b.active in b.segs
    requires View(cfg, b) == View(cfg, st) && st.addr[k].seg in st.segs && st.addr[k].idx < |st.segs[st.addr[k].seg]|
    requires Tail(b, k).Some? ==> b.segs[b.active][Tail(b, k).value] == st.segs[st.addr[k].seg][st.addr[k].idx]
    ensures Current(cfg, b, k)
  {
    assert RowOk(cfg, st.segs, k, st.addr[k]);
    hide LastTail;
    hide Unpack;
    hide EraOf;
    if Tail(b, k).Some? {
      assert View(cfg, b)[k] == View(cfg, st)[k] == Obj(BodyAt(cfg, st.segs, st.addr[k]), st.addr[k].obj);
    }
  }

  // ----- honest rows

  /** Rows that were honest stay so while records stay where they are. */
  lemma HonestKept(cfg: Config, a: State, b: State)
    requires Well(cfg, a) && Honest(cfg, a)
    requires forall s :: s in b.segs && s in a.segs ==> a.segs[s] <= b.segs[s]
    requires forall k :: k in b.addr ==> (k in a.addr && b.addr[k] == a.addr[k]) || HonestRow(cfg, b, k)
    ensures Honest(cfg, b)
  {
    hide EraOf;
    forall k | k in b.addr && b.addr[k].seg in b.segs && b.addr[k].idx < |b.segs[b.addr[k].seg]|
      ensures b.addr[k].obj == EraOf(cfg, b.segs[b.addr[k].seg][b.addr[k].idx])
    {
      if k in a.addr && b.addr[k] == a.addr[k] { assert RowOk(cfg, a.segs, k, a.addr[k]); }
    }
  }

  ghost predicate HonestRow(cfg: Config, st: State, k: Key)
    requires k in st.addr
  {
    st.addr[k].seg in st.segs && st.addr[k].idx < |st.segs[st.addr[k].seg]| ==>
      st.addr[k].obj == EraOf(cfg, st.segs[st.addr[k].seg][st.addr[k].idx])
  }

  lemma PutHonest(cfg: Config, st: State, k: Key, data: Bytes, era: Option<nat>)
    requires GoodZip(cfg) && Well(cfg, st) && Honest(cfg, st)
    requires GoesInline(cfg, data, era) || era == EraOf(cfg, Pack(cfg, k, data))
    ensures Honest(cfg, Put(cfg, st, k, data, era))
  {
    var b := Put(cfg, st, k, data, era);
    if !GoesInline(cfg, data, era) { AppendGrows(cfg, st, Pack(cfg, k, data)); }
    hide Append;
    hide EraOf;
    hide Pack;
    hide Honest;
    HonestKept(cfg, st, b);
  }

  lemma CasHonest(cfg: Config, y: Sys)
    requires Safe(cfg, y) && Honest(cfg, y.eng) && y.gc.Copied?
    ensures Honest(cfg, CasStep(y).eng)
  {
    hide EraOf;
    var rec := y.eng.segs[y.gc.v][y.gc.pos];
    if PointsAt(y.eng.addr, rec.key, y.gc.v, y.gc.pos) {
      HonestKept(cfg, y.eng, CasStep(y).eng);
    }
  }

  lemma SetObjSame(cfg: Config, st: State, k: Key, obj: nat)
    requires Well(cfg, st) && Honest(cfg, st)
    requires k in st.addr && st.addr[k].seg in st.segs && st.addr[k].idx < |st.segs[st.addr[k].seg]|
      ==> Some(obj) == EraOf(cfg, st.segs[st.addr[k].seg][st.addr[k].idx])
    ensures SetObj(st, k, obj) == st
  {
    hide EraOf;
    if k in st.addr { assert RowOk(cfg, st.segs, k, st.addr[k]); }
  }

  // ----- runs

  ghost predicate Replayable(cfg: Config, y: Sys) {
    Safe(cfg, y) && Honest(cfg, y.eng) && AllCurrent(cfg, y.eng)
  }

  /** The steps that a user takes. */
  predicate OfUser(step: Step) { step.DoPut? || step.PutLost? || step.DoDelete? || step.DoSetObj? || step.DoEvict? }

  lemma UserStepCurrent(cfg: Config, r: real, y: Sys, step: Step, j: Key)
    requires GoodZip(cfg) && Safe(cfg, y) && Honest(cfg, y.eng) && Enabled(r, y, step) && TailSafe(cfg, y, step) && OfUser(step)
    requires Current(cfg, y.eng, j)
    ensures Next(cfg, r, y, step).eng.active in Next(cfg, r, y, step).eng.segs && Current(cfg, Next(cfg, r, y, step).eng, j)
  {
    hide GcOk;
    hide Current;
    match step
    case DoPut(k, data, era) => PutCurrent(cfg, y.eng, k, data, era, j);
    case DoDelete(k) => DeleteCurrent(cfg, y.eng, k, j);
    case DoSetObj(k, obj, hit) => SetObjSame(cfg, y.eng, k, obj);
    case DoEvict(s, dropped) =>
      assert dropped == KeysIn(y.eng.addr, s);
      EvictCurrent(cfg, y.eng, s, j);
    case _ =>
  }

  lemma UserStepHonest(cfg: Config, r: real, y: Sys, step: Step)
    requires GoodZip(cfg) && Safe(cfg, y) && Honest(cfg, y.eng) && Enabled(r, y, step) && TailSafe(cfg, y, step) && OfUser(step)
    ensures Honest(cfg, Next(cfg, r, y, step).eng)
  {
    hide GcOk;
    hide Honest;
    match step
    case DoPut(k, data, era) => PutHonest(cfg, y.eng, k, data, era);
    case DoDelete(k) => HonestKept(cfg, y.eng, Next(cfg, r, y, step).eng);
    case DoSetObj(k, obj, hit) => SetObjSame(cfg, y.eng, k, obj);
    case DoEvict(s, dropped) => HonestKept(cfg, y.eng, Next(cfg, r, y, step).eng);
    case _ =>
  }

  lemma CopyHonest(cfg: Config, y: Sys)
    requires Safe(cfg, y) && Honest(cfg, y.eng) && y.gc.Checked?
    ensures Honest(cfg, CopyStep(cfg, y).eng)
  {
    AppendGrows(cfg, y.eng, y.eng.segs[y.gc.v][y.gc.pos]);
    hide Append;
    hide EraOf;
    hide Honest;
    HonestKept(cfg, y.eng, CopyStep(cfg, y).eng);
  }

  predicate Quiet(step: Step) { !OfUser(step) && !step.GcCopy? && !step.GcCas? }

  /** The remaining steps leave the rows alone, and the active records too unless all of them are before the recovery point. */
  lemma QuietEffect(cfg: Config, r: real, y: Sys, step: Step)
    requires Safe(cfg, y) && Enabled(r, y, step) && Quiet(step)
    ensures var a, b := y.eng, Next(cfg, r, y, step).eng;
      && b.inl == a.inl && b.addr == a.addr && b.active in b.segs
      && (forall s :: s in b.segs && s in a.segs ==> a.segs[s] <= b.segs[s])
      && (Mark(b) >= |b.segs[b.active]| || (a.active == b.active && Mark(a) == Mark(b) && a.segs[a.active] == b.segs[b.active]))
  {
    hide RowsOk;
    hide ChargeOrphans;
    hide OrphansAt;
    hide Sync;
    hide Seal;
    SyncMark(y.eng);
    SealMark(cfg, y.eng);
  }

  lemma SyncMark(st: State)
    requires st.active in st.segs
    ensures Sync(st) == st
      || (Sync(st).inl == st.inl && Sync(st).addr == st.addr && Sync(st).active == st.active && Sync(st).segs == st.segs
          && Mark(Sync(st)) == |st.segs[st.active]|)
  {
  }

  lemma SealMark(cfg: Config, st: State)
    requires Well(cfg, st)
    ensures Seal(cfg, st) == st
      || (Seal(cfg, st).inl == st.inl && Seal(cfg, st).addr == st.addr && Seal(cfg, st).active == st.active + 1
          && Seal(cfg, st).segs == st.segs[st.active + 1 := []] && Mark(Seal(cfg, st)) == 0)
  {
    hide SegLen;
  }

  lemma QuietCurrent(cfg: Config, r: real, y: Sys, step: Step, j: Key)
    requires GoodZip(cfg) && Safe(cfg, y) && Enabled(r, y, step) && Quiet(step) && Current(cfg, y.eng, j)
    ensures Next(cfg, r, y, step).eng.active in Next(cfg, r, y, step).eng.segs && Current(cfg, Next(cfg, r, y, step).eng, j)
  {
    StepSafe(cfg, r, y, step);
    QuietEffect(cfg, r, y, step);
    assert Intend(View(cfg, y.eng), step) == View(cfg, y.eng);
    hide Next;
    hide Enabled;
    hide Current;
    hide View;
    hide RowsOk;
    hide GcOk;
    SameMapCurrent(cfg, y.eng, Next(cfg, r, y, step).eng, j);
  }

  lemma QuietHonest(cfg: Config, r: real, y: Sys, step: Step)
    requires Safe(cfg, y) && Honest(cfg, y.eng) && Enabled(r, y, step) && Quiet(step)
    ensures Honest(cfg, Next(cfg, r, y, step).eng)
  {
    QuietEffect(cfg, r, y, step);
    hide Next;
    hide Enabled;
    hide EraOf;
    hide RowsOk;
    HonestKept(cfg, y.eng, Next(cfg, r, y, step).eng);
  }

  lemma CasEffect(y: Sys)
    requires y.gc.Copied? && y.eng.active in y.eng.segs && y.gc.v in y.eng.segs && y.gc.pos < |y.eng.segs[y.gc.v]|
    ensures var a, b := y.eng, CasStep(y).eng;
      b.inl == a.inl && b.addr.Keys == a.addr.Keys && b.active == a.active && b.segs == a.segs && b.active in b.segs && Mark(b) == Mark(a)
  {
  }

  lemma CasCurrent(cfg: Config, r: real, y: Sys, j: Key)
    requires GoodZip(cfg) && Safe(cfg, y) && Enabled(r, y, GcCas) && Current(cfg, y.eng, j)
    ensures CasStep(y).eng.active in CasStep(y).eng.segs && Current(cfg, CasStep(y).eng, j)
  {
    CasSafe(cfg, y);
    CasEffect(y);
    hide CasStep;
    hide Current;
    hide View;
    hide RowsOk;
    hide GcOk;
    SameMapCurrent(cfg, y.eng, CasStep(y).eng, j);
  }

  /** A tail-safe step leaves rows honest. */
  lemma StepHonest(cfg: Config, r: real, y: Sys, step: Step)
    requires GoodZip(cfg) && Safe(cfg, y) && Honest(cfg, y.eng) && Enabled(r, y, step) && TailSafe(cfg, y, step)
    ensures Honest(cfg, Next(cfg, r, y, step).eng)
  {
    hide Honest;
    hide CopyStep;
    hide CasStep;
    if OfUser(step) {
      UserStepHonest(cfg, r, y, step);
    } else if step.GcCopy? {
      CopyHonest(cfg, y);
    } else if step.GcCas? {
      CasHonest(cfg, y);
    } else {
      QuietHonest(cfg, r, y, step);
    }
  }

  /** And every key that still stands for its last unsynced record goes on doing so. */
  lemma StepCurrent(cfg: Config, r: real, y: Sys, step: Step, j: Key)
    requires GoodZip(cfg) && Safe(cfg, y) && Honest(cfg, y.eng) && Enabled(r, y, step) && TailSafe(cfg, y, step)
    requires Current(cfg, y.eng, j)
    ensures Next(cfg, r, y, step).eng.active in Next(cfg, r, y, step).eng.segs && Current(cfg, Next(cfg, r, y, step).eng, j)
  {
    hide Honest;
    hide Current;
    hide CasStep;
    hide Append;
    if OfUser(step) {
      UserStepCurrent(cfg, r, y, step, j);
    } else if step.GcCopy? {
      CopyCurrent(cfg, y.eng, y.gc.v, y.gc.pos, j);
    } else if step.GcCas? {
      CasCurrent(cfg, r, y, j);
    } else {
      QuietCurrent(cfg, r, y, step, j);
    }
  }

  lemma StepReplayable(cfg: Config, r: real, y: Sys, step: Step)
    requires GoodZip(cfg) && Replayable(cfg, y) && Enabled(r, y, step) && TailSafe(cfg, y, step)
    ensures Replayable(cfg, Next(cfg, r, y, step))
  {
    hide Next;
    hide Enabled;
    hide TailSafe;
    hide Honest;
    hide Current;
    StepSafe(cfg, r, y, step);
    StepHonest(cfg, r, y, step);
    forall j ensures Current(cfg, Next(cfg, r, y, step).eng, j) { StepCurrent(cfg, r, y, step, j); }
  }

  ghost predicate TailSafeRun(cfg: Config, r: real, y: Sys, steps: seq<Step>)
    requires Feasible(cfg, r, y, steps)
    decreases |steps|
  {
    steps == [] || (TailSafe(cfg, y, steps[0]) && TailSafeRun(cfg, r, Next(cfg, r, y, steps[0]), steps[1..]))
  }

  lemma {:induction false} RunReplayable(cfg: Config, r: real, y: Sys, steps: seq<Step>)
    requires GoodZip(cfg) && Replayable(cfg, y) && Feasible(cfg, r, y, steps) && TailSafeRun(cfg, r, y, steps)
    ensures Replayable(cfg, Run(cfg, r, y, steps))
    decreases |steps|
  {
    hide Next;
    hide Enabled;
    hide Replayable;
    hide TailSafe;
    if steps != [] {
      StepReplayable(cfg, r, y, steps[0]);
      RunReplayable(cfg, r, Next(cfg, r, y, steps[0]), steps[1..]);
    }
  }

  /**
   From any state just flushed, replaying the tail leaves the map as it was after every run in which no key with an
   unsynced record is deleted or evicted, no record is copied after its key moved on, no put loses its index commit, and
   eras are those the bodies carry. Inline overwrites are harmless.
   */
  lemma RunReplaysToItself(cfg: Config, r: real, y: Sys, steps: seq<Step>)
    requires GoodZip(cfg) && Safe(cfg, y) && Honest(cfg, y.eng) && Mark(y.eng) == |y.eng.segs[y.eng.active]|
    requires Feasible(cfg, r, y, steps) && TailSafeRun(cfg, r, y, steps)
    ensures var st := Run(cfg, r, y, steps).eng;
      Well(cfg, st) && View(cfg, Replay(cfg, st)) == View(cfg, st)
  {
    forall k ensures Current(cfg, y.eng, k) { NoTail(y.eng, k); }
    RunReplayable(cfg, r, y, steps);
    hide Run;
    hide Replay;
    hide Current;
    var st := Run(cfg, r, y, steps).eng;
    ReplayKeepsView(cfg, st);
  }
}
