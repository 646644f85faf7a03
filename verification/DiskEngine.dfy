/** The shard engine itself: one mutable index and segment store whose methods are proved against Engine and GcRuns. */
module DiskEngines {
  import opened Bytes
  import opened Segments
  import opened Engine
  import opened GcRuns

  /** b can be reached from a by some run of the step model. */
  ghost predicate Reaches(cfg: Config, r: real, a: Sys, b: Sys) {
    exists steps :: Feasible(cfg, r, a, steps) && Run(cfg, r, a, steps) == b
  }

  lemma ReachesSelf(cfg: Config, r: real, a: Sys)
    ensures Reaches(cfg, r, a, a)
  {
    assert Feasible(cfg, r, a, []) && Run(cfg, r, a, []) == a;
  }

  lemma {:induction false} RunSnoc(cfg: Config, r: real, a: Sys, steps: seq<Step>, step: Step)
    requires Feasible(cfg, r, a, steps)
    requires var b := Run(cfg, r, a, steps); b.eng.active in b.eng.segs && Enabled(r, b, step)
    ensures Feasible(cfg, r, a, steps + [step])
    ensures Run(cfg, r, a, steps + [step]) == Next(cfg, r, Run(cfg, r, a, steps), step)
    decreases |steps|
  {
    hide Next;
    hide Enabled;
    if steps == [] {
      assert [step][1..] == [];
      assert Feasible(cfg, r, Next(cfg, r, a, step), []);
    } else {
      RunSnoc(cfg, r, Next(cfg, r, a, steps[0]), steps[1..], step);
      assert (steps + [step])[1..] == steps[1..] + [step];
    }
  }

  lemma ReachesStep(cfg: Config, r: real, a: Sys, b: Sys, step: Step)
    requires Reaches(cfg, r, a, b) && b.eng.active in b.eng.segs && Enabled(r, b, step)
    ensures Reaches(cfg, r, a, Next(cfg, r, b, step))
  {
    hide Next;
    hide Enabled;
    var steps :| Feasible(cfg, r, a, steps) && Run(cfg, r, a, steps) == b;
    RunSnoc(cfg, r, a, steps, step);
  }

  // ----- the steps of a pass with nothing interleaved

  ghost predicate OnPass(cfg: Config, r: real, from: Sys, y: Sys) {
    GoodZip(cfg) && Safe(cfg, y) && Reaches(cfg, r, from, y)
  }

  lemma Advance(cfg: Config, r: real, from: Sys, y: Sys, step: Step)
    requires OnPass(cfg, r, from, y) && Enabled(r, y, step)
    ensures y.eng.active in y.eng.segs && OnPass(cfg, r, from, Next(cfg, r, y, step))
    ensures View(cfg, Next(cfg, r, y, step).eng) == Intend(View(cfg, y.eng), step)
  {
    hide Next;
    hide Enabled;
    hide View;
    hide Intend;
    hide RowsOk;
    hide GcOk;
    hide Reaches;
    StepSafe(cfg, r, y, step);
    ReachesStep(cfg, r, from, y, step);
  }

  lemma StartPass(cfg: Config, r: real, from: Sys, v: nat)
    requires GoodZip(cfg) && Safe(cfg, from) && from.gc.Idle? && IsVictim(r, from.eng, v)
    ensures OnPass(cfg, r, from, from.(gc := Scanning(v, 0, [])))
  {
    hide OnPass;
    hide IsVictim;
    assert OnPass(cfg, r, from, from) by { OnPassSelf(cfg, r, from); }
    Advance(cfg, r, from, from, GcStart(v));
  }

  lemma OnPassSelf(cfg: Config, r: real, from: Sys)
    requires GoodZip(cfg) && Safe(cfg, from)
    ensures OnPass(cfg, r, from, from)
  {
    ReachesSelf(cfg, r, from);
  }

  lemma PassDead(cfg: Config, r: real, from: Sys, y: Sys)
    requires OnPass(cfg, r, from, y) && y.gc.Scanning? && y.gc.v in y.eng.segs && y.gc.pos < |y.eng.segs[y.gc.v]|
    requires !PointsAt(y.eng.addr, y.eng.segs[y.gc.v][y.gc.pos].key, y.gc.v, y.gc.pos)
    ensures OnPass(cfg, r, from, y.(gc := Scanning(y.gc.v, y.gc.pos + 1, y.gc.orphans)))
  {
    hide OnPass;
    hide PointsAt;
    Advance(cfg, r, from, y, GcCheck);
  }

  lemma PassAlive(cfg: Config, r: real, from: Sys, y: Sys) returns (y2: Sys)
    requires OnPass(cfg, r, from, y) && y.gc.Scanning? && y.gc.v in y.eng.segs && y.gc.pos < |y.eng.segs[y.gc.v]|
    requires y.gc.orphans == [] && PointsAt(y.eng.addr, y.eng.segs[y.gc.v][y.gc.pos].key, y.gc.v, y.gc.pos)
    ensures OnPass(cfg, r, from, y2) && y2.gc == Scanning(y.gc.v, y.gc.pos + 1, [])
    ensures y.eng.active in y.eng.segs && View(cfg, y2.eng) == View(cfg, y.eng)
    ensures var rec, s := y.eng.segs[y.gc.v][y.gc.pos], Append(cfg, y.eng, y.eng.segs[y.gc.v][y.gc.pos]);
      && s.active in s.segs && s.segs[s.active] != [] && s.addr == y.eng.addr
      && y.gc.v in s.segs && s.segs[y.gc.v] == y.eng.segs[y.gc.v]
      && y2.eng == Cas(s, rec.key, y.gc.v, y.gc.pos, LastRow(s, rec, None))
  {
    hide View;
    hide Cas;
    hide Append;
    hide OnPass;
    hide RowsOk;
    var rec := y.eng.segs[y.gc.v][y.gc.pos];
    assert Well(cfg, y.eng) && Sealed(y.eng, y.gc.v) by { OnPassSealed(cfg, r, from, y); }
    SealedUntouched(cfg, y.eng, rec, y.gc.v);
    AppendGrows(cfg, y.eng, rec);
    hide Well;
    Advance(cfg, r, from, y, GcCheck);
    var y1 := y.(gc := Checked(y.gc.v, y.gc.pos, []));
    Advance(cfg, r, from, y1, GcCopy);
    Advance(cfg, r, from, CopyStep(cfg, y1), GcCas);
    y2 := CasStep(CopyStep(cfg, y1));
  }

  /** Charging no orphans, flushing, unlinking and dropping the counter finish the pass. */
  lemma FinishPass(cfg: Config, r: real, from: Sys, y: Sys) returns (books2: Books)
    requires OnPass(cfg, r, from, y) && y.gc.Scanning? && y.gc.v in y.eng.segs && y.gc.pos == |y.eng.segs[y.gc.v]| && y.gc.orphans == []
    ensures y.eng.active in y.eng.segs
    ensures var st := Unlink(Sync(y.eng), {y.gc.v});
      && Well(cfg, st) && View(cfg, st) == View(cfg, y.eng) && OnPass(cfg, r, from, Sys(st, Idle, books2))
  {
    hide View;
    hide OnPass;
    Advance(cfg, r, from, y, GcCharge);
    var y1 := ChargeStep(y);
    Advance(cfg, r, from, y1, GcFlush);
    var y2 := Next(cfg, r, y1, GcFlush);
    Advance(cfg, r, from, y2, GcUnlink);
    var y3 := Next(cfg, r, y2, GcUnlink);
    Advance(cfg, r, from, y3, GcForget);
    books2 := Retire(y3.books, y3.eng.discard, y.gc.v);
    OnPassWell(cfg, r, from, Next(cfg, r, y3, GcForget));
  }

  lemma OnPassWell(cfg: Config, r: real, from: Sys, y: Sys)
    requires OnPass(cfg, r, from, y)
    ensures Well(cfg, y.eng)
  {
  }

  lemma OnPassSealed(cfg: Config, r: real, from: Sys, y: Sys)
    requires OnPass(cfg, r, from, y) && y.gc.Scanning?
    ensures Well(cfg, y.eng) && Sealed(y.eng, y.gc.v)
  {
    hide RowsOk;
    hide Reaches;
  }

  lemma SweepOne(cfg: Config, r: real, from: Sys, st: State, books: Books, s: nat)
    requires OnPass(cfg, r, from, Sys(st, Idle, books)) && s in st.segs && s != st.active && !Referenced(st.addr, s)
    ensures OnPass(cfg, r, from, Sys(Unlink(st, {s}), Idle, Retire(books, st.discard, s)))
    ensures Well(cfg, Unlink(st, {s})) && View(cfg, Unlink(st, {s})) == View(cfg, st)
  {
    hide View;
    hide OnPass;
    hide Referenced;
    Advance(cfg, r, from, Sys(st, Idle, books), Sweep(s));
    OnPassWell(cfg, r, from, Sys(Unlink(st, {s}), Idle, Retire(books, st.discard, s)));
  }

  datatype Found = Inline(body: Bytes) | Row(row: Addr) | Missing
  datatype GcReport = GcReport(victim: Option<nat>, liveMoved: nat, reclaimed: nat, orphansRemoved: nat)

  /** What the rewriting half of a pass does to the segments, as its report tells it. */
  ghost predicate Collected(a: State, b: State, report: GcReport) {
    match report.victim
    case None => b == a && report.liveMoved == 0 && report.reclaimed == 0
    case Some(v) =>
      && v in a.segs && report.liveMoved == |KeysIn(a.addr, v)| && report.reclaimed == SegLen(a.segs[v]) && v !in b.segs
      && forall s :: s in a.segs && s != v ==> s in b.segs && a.segs[s] <= b.segs[s]
  }

  /** What the sweep does to the segments: of the sealed ones exactly those that some row points into are left. */
  ghost predicate Swept(a: State, b: State) {
    && b.addr == a.addr && b.inl == a.inl && b.active == a.active
    && forall s :: (s in b.segs <==> s in a.segs && (s == a.active || Referenced(a.addr, s))) && (s in b.segs ==> b.segs[s] == a.segs[s])
  }

  /** The sweep on its way, with the segments in todo still to be looked at. */
  ghost predicate SweepAt(a: State, b: State, todo: set<nat>) {
    && b.addr == a.addr && b.inl == a.inl && b.active == a.active && todo <= a.segs.Keys - {a.active}
    && b.discard.Keys <= a.discard.Keys
    && forall s ::
         && (s in b.segs <==> s in a.segs && (s in todo || s == a.active || Referenced(a.addr, s)))
         && (s in b.segs ==> b.segs[s] == a.segs[s])
  }

  lemma SweepStarts(a: State)
    ensures SweepAt(a, a, a.segs.Keys - {a.active})
  {
  }

  lemma SweepNext(a: State, b: State, todo: set<nat>, id: nat)
    requires SweepAt(a, b, todo) && id in todo
    ensures id in a.segs && id in b.segs && id != b.active
    ensures SweepAt(a, if Referenced(b.addr, id) then b else Unlink(b, {id}), todo - {id})
  {
    hide Referenced;
  }

  lemma SweepEnds(a: State, b: State)
    requires SweepAt(a, b, {})
    ensures Swept(a, b) && b.segs.Keys <= a.segs.Keys && b.discard.Keys <= a.discard.Keys
  {
    hide Referenced;
  }

  /** A row that leaves a segment takes its key out of it. */
  lemma MovedKeys(addr: map<Key, Addr>, k: Key, to: Addr, v: nat)
    requires k in addr && addr[k].seg == v && to.seg != v
    ensures |KeysIn(addr[k := to], v)| + 1 == |KeysIn(addr, v)|
  {
    assert KeysIn(addr, v) == KeysIn(addr[k := to], v) + {k};
  }

  /** Moving the live record at index i of a sealed segment grows the segments and takes one row out of that one. */
  lemma AliveMoves(cfg: Config, st: State, v: nat, i: nat)
    requires Well(cfg, st) && Sealed(st, v) && i < |st.segs[v]| && PointsAt(st.addr, st.segs[v][i].key, v, i)
    ensures var rec, s := st.segs[v][i], Append(cfg, st, st.segs[v][i]);
      && s.active in s.segs && s.segs[s.active] != [] && Grown(st.segs, s.segs)
      && |KeysIn(Cas(s, rec.key, v, i, LastRow(s, rec, None)).addr, v)| + 1 == |KeysIn(st.addr, v)|
  {
    hide View;
    hide RowsOk;
    hide KeysIn;
    var rec, s := st.segs[v][i], Append(cfg, st, st.segs[v][i]);
    AppendGrows(cfg, st, rec);
    hide Append;
    MovedKeys(st.addr, rec.key, LastRow(s, rec, None).(obj := st.addr[rec.key].obj), v);
  }

  lemma GrownSelf(a: SegMap)
    ensures Grown(a, a)
  {
  }

  lemma GrownTwice(a: SegMap, b: SegMap, c: SegMap)
    requires Grown(a, b) && Grown(b, c)
    ensures Grown(a, c)
  {
  }

  lemma GrownBut(a: SegMap, b: SegMap, v: nat)
    requires Grown(a, b)
    ensures forall s :: s in a && s != v ==> s in b - {v} && a[s] <= (b - {v})[s]
  {
  }

  /** How many segments of a are not in b. */
  ghost function Gone(a: SegMap, b: SegMap): nat { |a.Keys - b.Keys| }

  lemma NoneGone(a: SegMap)
    ensures Gone(a, a) == 0
  {
    assert a.Keys - a.Keys == {};
  }

  lemma OneGone(a: State, b: State, id: nat)
    requires id in a.segs && id in b.segs
    ensures Gone(a.segs, Unlink(b, {id}).segs) == Gone(a.segs, b.segs) + 1
  {
    assert a.segs.Keys - (b.segs - {id}).Keys == (a.segs.Keys - b.segs.Keys) + {id};
  }

  lemma NoneLeftIn(cfg: Config, st: State, v: nat)
    requires Well(cfg, st) && v !in st.segs
    ensures KeysIn(st.addr, v) == {}
  {
    forall k | k in st.addr ensures st.addr[k].seg != v { assert RowOk(cfg, st.segs, k, st.addr[k]); }
  }

  class DiskEngine {
    const cfg: Config
    var segs: SegMap
    var active: nat
    var synced: nat
    var addr: map<Key, Addr>
    var inl: map<Key, Bytes>
    var discard: map<nat, nat>
    ghost var soft: map<nat, nat>
    var gcPassCount: nat

    ghost function State(): State
      reads this
    {
      Engine.State.State(segs, active, synced, addr, inl, discard, soft)
    }

    ghost predicate Valid()
      reads this
    {
      GoodZip(cfg) && Well(cfg, State())
    }

    /** The plain map this shard stands for. */
    ghost function Contents(): map<Key, Obj>
      reads this
    {
      View(cfg, State())
    }

    constructor (cfg: Config)
      requires GoodZip(cfg)
      ensures Valid() && Contents() == map[] && this.cfg == cfg
      ensures State() == Fresh().eng && gcPassCount == 0
    {
      this.cfg := cfg;
      segs, active, synced := map[0 := []], 0, 0;
      addr, inl, discard, soft := map[], map[], map[], map[];
      gcPassCount := 0;
    }

    // ----- the writer

    method Rotate()
      requires Valid()
      modifies this`segs, this`active, this`synced, this`soft
      ensures State() == Engine.Seal(cfg, old(State()))
    {
      if SegLen(segs[active]) >= cfg.maxSize {
        Flush();
        active := active + 1;
        soft := soft - {active};
        segs := segs[active := []];
        synced := 0;
      }
    }

    method AppendRecord(rec: Record)
      requires Valid()
      modifies this`segs, this`active, this`synced, this`soft
      ensures State() == Engine.Append(cfg, old(State()), rec)
    {
      SealGrows(cfg, State());
      Rotate();
      segs := segs[active := segs[active] + [rec]];
      if |segs[active]| >= synced + cfg.fsyncItems { Flush(); }
    }

    method Flush()
      requires active in segs
      modifies this`synced, this`soft
      ensures State() == Engine.Sync(old(State()))
    {
      if synced != |segs[active]| {
        synced, soft := |segs[active]|, soft - {active};
      }
    }

    // ----- user operations

    /** Add to a segment's discard counter inside the current transaction. */
    method BumpIn(seg: nat, bytes: nat)
      modifies this`discard
      ensures discard == Engine.Bump(old(discard), seg, bytes)
    {
      var cur := if seg in discard then discard[seg] else 0;
      discard := discard[seg := cur + bytes];
    }

    method PutMeta(key: Key, data: Bytes, era: Option<nat>)
      requires Valid()
      modifies this
      ensures State() == Engine.Put(cfg, old(State()), key, data, era)
      ensures Valid() && Contents() == old(Contents())[key := Obj(data, era)]
    {
      hide View;
      hide RowsOk;
      hide Pack;
      PutView(cfg, State(), key, data, era);
      if era.None? && |data| < cfg.inlineMin { PutInline(key, data, era); } else { PutRecord(key, data, era); }
    }

    /** A small body goes into the inline table, and the row it replaces is charged. */
    method PutInline(key: Key, data: Bytes, ghost era: Option<nat>)
      requires GoesInline(cfg, data, era) && active in segs
      modifies this
      ensures State() == Engine.Put(cfg, old(State()), key, data, era)
    {
      inl := inl[key := data];
      if key in addr {
        var a := addr[key];
        addr := addr - {key};
        BumpIn(a.seg, a.storedLen);
      } else {
        assert addr - {key} == addr;
      }
    }

    /** Any other is appended, then its row written and the old one charged. */
    method PutRecord(key: Key, data: Bytes, era: Option<nat>)
      requires Valid() && !GoesInline(cfg, data, era)
      modifies this
      ensures State() == Engine.Put(cfg, old(State()), key, data, era)
    {
      hide View;
      hide Pack;
      hide Well;
      var rec := PackBody(key, data);
      AppendGrows(cfg, State(), rec);
      hide Append;
      hide Grown;
      AppendRecord(rec);
      PointRow(key, Addr(active, |segs[active]| - 1, |rec.stored|, rec.logicalLen, rec.flags, era));
    }

    /** One transaction: the key's row, its inline body gone, and its old row charged. */
    method PointRow(key: Key, a: Addr)
      modifies this`addr, this`inl, this`discard
      ensures addr == old(addr)[key := a] && inl == old(inl) - {key} && discard == Charge(old(State()), key)
    {
      var was := if key in addr then Some(addr[key]) else None;
      addr := addr[key := a];
      inl := inl - {key};
      if was.Some? { BumpIn(was.value.seg, was.value.storedLen); }
    }

    /** Compress the body when that pays; keys are never compressed. */
    method PackBody(key: Key, data: Bytes) returns (rec: Record)
      ensures rec == Pack(cfg, key, data)
    {
      var flags, stored := 0, data;
      if cfg.compress && |data| >= cfg.compressMin {
        var c := cfg.zip(data);
        if c.Some? && |c.value| < |data| { flags, stored := 1, c.value; }
      }
      rec := Record(key, stored, |data|, flags);
    }

    method Delete(key: Key)
      requires Valid()
      modifies this`addr, this`inl, this`discard
      ensures State() == Engine.Delete(old(State()), key)
      ensures Valid() && Contents() == old(Contents()) - {key}
    {
      hide View;
      hide RowsOk;
      DeleteView(cfg, State(), key);
      if key in addr {
        var a := addr[key];
        addr := addr - {key};
        BumpIn(a.seg, a.storedLen);
      } else {
        assert addr - {key} == addr;
      }
      inl := inl - {key};
    }

    /** Upgrade a row's era field in place; true when the row changed. */
    method SetObjLogical(key: Key, obj: nat) returns (updated: bool)
      requires Valid()
      modifies this`addr
      ensures State() == Engine.SetObj(old(State()), key, obj) && Valid()
      ensures updated == (key in old(addr) && old(addr[key]).obj != Some(obj))
    {
      hide View;
      hide RowsOk;
      SetObjView(cfg, State(), key, obj);
      updated := false;
      if key in addr {
        if addr[key].obj != Some(obj) {
          addr := addr[key := addr[key].(obj := Some(obj))];
          updated := true;
        } else {
          assert addr == addr[key := addr[key].(obj := Some(obj))];
        }
      }
    }

    method Lookup(key: Key) returns (f: Found)
      requires Valid()
      ensures f == (if key in inl then Inline(inl[key]) else if key in addr then Row(addr[key]) else Missing)
    {
      if key in inl { return Inline(inl[key]); }
      if key !in addr { return Missing; }
      return Row(addr[key]);
    }

    /** A read with nothing racing it. */
    method Get(key: Key) returns (r: GetResult)
      requires Valid()
      ensures r == if key in Contents() then Got(Contents()[key].body) else GcRuns.NotFound
    {
      var f := Lookup(key);
      match f
      case Inline(b) => return Got(b);
      case Missing => return GcRuns.NotFound;
      case Row(a) =>
        assert RowOk(cfg, segs, key, a);
        var b := ReadAt(cfg, segs, a);
        return Got(b.value);
    }

    // ----- collection

    method PickVictim() returns (victim: Option<nat>)
      requires Valid()
      ensures victim.None? ==> forall v :: !MostDiscarded(State(), v)
      ensures victim.Some? ==> MostDiscarded(State(), victim.value)
    {
      victim := None;
      var todo := segs.Keys - {active};
      while todo != {}
        invariant todo <= segs.Keys - {active}
        invariant victim.Some? ==> victim.value in segs && victim.value != active && At(discard, victim.value) > 0
        invariant forall s :: s in segs && s != active && s !in todo ==>
          At(discard, s) <= (if victim.Some? then At(discard, victim.value) else 0)
        decreases todo
      {
        var id :| id in todo;
        todo := todo - {id};
        var d := At(discard, id);
        if d != 0 && (victim.None? || d > At(discard, victim.value)) { victim := Some(id); }
      }
    }

    /** Remove a segment's file and its discard counter. */
    method UnlinkSegment(id: nat)
      modifies this`segs, this`discard, this`soft
      ensures State() == Unlink(old(State()), {id})
    {
      segs, discard, soft := segs - {id}, discard - {id}, soft - {id};
    }

    /** Unlink every sealed segment no row points into, with its discard counter. */
    method SweepOrphans(ghost r: real, ghost from: Sys, ghost books: Books) returns (removed: nat, ghost books2: Books)
      requires Valid() && OnPass(cfg, r, from, Sys(State(), Idle, books))
      modifies this`segs, this`discard, this`soft
      ensures Valid() && Contents() == old(Contents())
      ensures OnPass(cfg, r, from, Sys(State(), Idle, books2))
      ensures Swept(old(State()), State())
      ensures segs.Keys <= old(segs).Keys && discard.Keys <= old(discard).Keys
      ensures removed == Gone(old(segs), segs)
    {
      hide View;
      hide OnPass;
      hide Well;
      hide Referenced;
      hide Retire;
      hide Unlink;
      removed, books2 := 0, books;
      NoneGone(segs);
      hide Gone;
      var todo := segs.Keys - {active};
      SweepStarts(State());
      hide SweepAt;
      while todo != {}
        invariant Valid() && Contents() == old(Contents())
        invariant OnPass(cfg, r, from, Sys(State(), Idle, books2))
        invariant removed == Gone(old(segs), segs) && SweepAt(old(State()), State(), todo)
        decreases todo
      {
        var id :| id in todo;
        SweepNext(old(State()), State(), todo, id);
        todo := todo - {id};
        if !Referenced(addr, id) {
          SweepOne(cfg, r, from, State(), books2, id);
          books2 := Retire(books2, discard, id);
          OneGone(old(State()), State(), id);
          UnlinkSegment(id);
          removed := removed + 1;
        }
      }
      SweepEnds(old(State()), State());
    }

    /** The rewriting half of a pass: the best victim is collected if that pays. */
    method CollectVictim(ratio: real, ghost from: Sys) returns (report: GcReport, ghost books2: Books)
      requires Valid() && from.eng == State() && from.gc.Idle? && OnPass(cfg, ratio, from, from)
      modifies this
      ensures Valid() && Contents() == old(Contents()) && gcPassCount == old(gcPassCount)
      ensures OnPass(cfg, ratio, from, Sys(State(), Idle, books2))
      ensures report.victim.None? ==>
        (forall v :: !MostDiscarded(old(State()), v)) ||
        (exists v :: MostDiscarded(old(State()), v) && !IsVictim(ratio, old(State()), v))
      ensures report.victim.Some? ==> IsVictim(ratio, old(State()), report.victim.value)
      ensures report.victim.Some? ==> report.victim.value !in segs && report.victim.value !in discard
      ensures Collected(old(State()), State(), report) && report.orphansRemoved == 0
    {
      hide View;
      hide RowsOk;
      hide SegLen;
      hide OnPass;
      hide MostDiscarded;
      report, books2 := GcReport(None, 0, 0, 0), from.books;
      var victim := PickVictim();
      if victim.Some? {
        var size := SealedSize(victim.value);
        if At(discard, victim.value) as real >= ratio * (size as real) {
          var moved;
          moved, books2 := RewriteVictim(ratio, victim.value, from);
          report := GcReport(victim, moved, size, 0);
        }
      }
    }

    /**
     One collection pass; `mid` is the shard between its two halves. The pass is a run of the step model with nothing
     interleaved, so every theorem about runs holds of it, and the map is unchanged. The first half collects the victim as
     it reports; the second, on every fifth pass only, leaves no sealed segment without a row and reports how many went.
     */
    method GcOnce(ratio: real, ghost books: Books) returns (report: GcReport, ghost books2: Books, ghost mid: State)
      requires Valid()
      modifies this
      ensures Valid() && Contents() == old(Contents()) && gcPassCount == old(gcPassCount) + 1
      ensures Reaches(cfg, ratio, Sys(old(State()), Idle, books), Sys(State(), Idle, books2))
      ensures report.victim.None? ==>
        (forall v :: !MostDiscarded(old(State()), v)) ||
        (exists v :: MostDiscarded(old(State()), v) && !IsVictim(ratio, old(State()), v))
      ensures report.victim.Some? ==> IsVictim(ratio, old(State()), report.victim.value)
      ensures report.victim.Some? ==> report.victim.value !in segs && report.victim.value !in discard
      ensures Collected(old(State()), mid, report) && report.orphansRemoved == Gone(mid.segs, segs)
      ensures old(gcPassCount) % 5 != 0 ==> State() == mid
      ensures old(gcPassCount) % 5 == 0 ==> Swept(mid, State())
    {
      hide View;
      hide RowsOk;
      hide SegLen;
      ghost var from := Sys(State(), Idle, books);
      OnPassSelf(cfg, ratio, from);
      hide Reaches;
      hide MostDiscarded;
      hide IsVictim;
      hide Swept;
      hide Well;
      hide OnPass;
      var doSweep := gcPassCount % 5 == 0;
      gcPassCount := gcPassCount + 1;
      report, books2 := CollectVictim(ratio, from);
      mid := State();
      NoneGone(segs);
      hide Gone;
      hide Collected;
      if doSweep {
        var removed;
        removed, books2 := SweepOrphans(ratio, from, books2);
        report := report.(orphansRemoved := removed);
      }
    }

    method SealedSize(s: nat) returns (size: nat)
      requires MostDiscarded(State(), s)
      ensures s in segs && size == SegLen(segs[s])
    {
      size := SegLen(segs[s]);
    }

    /** The scan callback: if record i is alive, copy it to the active segment as it is and swing its row. */
    method MoveRecord(ghost r: real, vid: nat, i: nat, ghost from: Sys, ghost y: Sys) returns (moved: nat, ghost y2: Sys)
      requires Valid() && y.eng == State() && y.gc == Scanning(vid, i, []) && OnPass(cfg, r, from, y)
      requires vid in segs && i < |segs[vid]|
      modifies this`segs, this`active, this`synced, this`soft, this`addr
      ensures Valid() && Contents() == old(Contents()) && vid in segs && segs[vid] == old(segs[vid])
      ensures y2.eng == State() && y2.gc == Scanning(vid, i + 1, []) && OnPass(cfg, r, from, y2)
      ensures moved == if PointsAt(old(addr), segs[vid][i].key, vid, i) then 1 else 0
      ensures |KeysIn(addr, vid)| + moved == |KeysIn(old(addr), vid)| && Grown(old(segs), segs)
    {
      hide View;
      hide RowsOk;
      hide Append;
      hide OnPass;
      hide KeysIn;
      hide Grown;
      GrownSelf(segs);
      var rec := segs[vid][i];
      var found := Lookup(rec.key);
      if !(found.Row? && found.row.seg == vid && found.row.idx == i) {
        PassDead(cfg, r, from, y);
        return 0, y.(gc := Scanning(vid, i + 1, []));
      }
      y2 := PassAlive(cfg, r, from, y);
      OnPassSealed(cfg, r, from, y);
      AliveMoves(cfg, State(), vid, i);
      OnPassWell(cfg, r, from, y2);
      AppendRecord(rec);
      var to := Addr(active, |segs[active]| - 1, |rec.stored|, rec.logicalLen, rec.flags, None);
      moved := 0;
      if rec.key in addr && addr[rec.key].seg == vid && addr[rec.key].idx == i {
        addr := addr[rec.key := to.(obj := addr[rec.key].obj)];
        moved := 1;
      }
    }

    /** Move the victim's live records, flush, unlink it and drop its counter. */
    method RewriteVictim(ghost r: real, vid: nat, ghost from: Sys) returns (moved: nat, ghost books2: Books)
      requires Valid() && from.gc.Idle? && from.eng == State() && IsVictim(r, State(), vid)
      modifies this`segs, this`active, this`synced, this`soft, this`addr, this`discard
      ensures Valid() && Contents() == old(Contents())
      ensures OnPass(cfg, r, from, Sys(State(), Idle, books2))
      ensures vid !in segs && vid !in discard && moved == |KeysIn(old(addr), vid)|
      ensures forall s :: s in old(segs) && s != vid ==> s in segs && old(segs)[s] <= segs[s]
    {
      hide View;
      hide RowsOk;
      hide OnPass;
      hide WorthIt;
      StartPass(cfg, r, from, vid);
      ghost var y := Sys(State(), Scanning(vid, 0, []), from.books);
      moved := 0;
      var i, records := 0, segs[vid];
      hide MostDiscarded;
      GrownSelf(segs);
      hide Grown;
      hide KeysIn;
      while i < |records|
        invariant Valid() && Contents() == old(Contents()) && i <= |records|
        invariant vid in segs && segs[vid] == records && Grown(old(segs), segs)
        invariant moved + |KeysIn(addr, vid)| == |KeysIn(old(addr), vid)|
        invariant y.eng == State() && y.gc == Scanning(vid, i, []) && OnPass(cfg, r, from, y)
      {
        ghost var was := segs;
        var more;
        more, y := MoveRecord(r, vid, i, from, y);
        GrownTwice(old(segs), was, segs);
        moved := moved + more;
        i := i + 1;
      }
      books2 := FinishPass(cfg, r, from, y);
      GrownBut(old(segs), segs, vid);
      // durability of the copies strictly before the unlink
      Flush();
      segs := segs - {vid};
      discard := discard - {vid};
      soft := soft - {vid};
      NoneLeftIn(cfg, State(), vid);
    }

    /** Cache eviction: the oldest sealed segment dies whole, rows first. */
    method EvictOldestSegment() returns (freed: nat, removed: set<Key>)
      requires Valid()
      modifies this`addr, this`segs, this`discard, this`soft
      ensures Valid() && Contents() == old(Contents()) - removed
      ensures old(segs).Keys == {active} ==> freed == 0 && removed == {} && State() == old(State())
      ensures old(segs).Keys != {active} ==> exists v ::
        && v in old(segs) && v != active && (forall s :: s in old(segs) && s != active ==> v <= s)
        && freed == SegLen(old(segs)[v]) && removed == KeysIn(old(addr), v) && State() == Engine.Evict(old(State()), v, removed)
    {
      hide View;
      hide RowsOk;
      hide SegLen;
      freed, removed := 0, {};
      var todo := segs.Keys - {active};
      if todo == {} {
        assert segs.Keys == {active};
        assert Contents() - {} == Contents();
        return;
      }
      var vid :| vid in todo;
      todo := todo - {vid};
      while todo != {}
        invariant todo <= segs.Keys - {active} && vid in segs && vid != active
        invariant forall s :: s in segs && s != active && s !in todo ==> vid <= s
        decreases todo
      {
        var id :| id in todo;
        todo := todo - {id};
        if id < vid { vid := id; }
      }
      EvictView(cfg, State(), vid);
      removed := VictimKeys(vid);
      freed := SegLen(segs[vid]);
      addr := addr - removed;
      discard := discard - {vid};
      segs := segs - {vid};
      soft := soft - {vid};
    }

    /** Scan a segment for the keys whose rows still point at its records. */
    method VictimKeys(vid: nat) returns (victims: set<Key>)
      requires Valid() && vid in segs
      ensures victims == KeysIn(addr, vid)
    {
      victims := {};
      var i := 0;
      while i < |segs[vid]|
        invariant i <= |segs[vid]|
        invariant forall k :: k in victims <==> k in addr && addr[k].seg == vid && addr[k].idx < i
      {
        var k := segs[vid][i].key;
        forall j | j in addr && addr[j].seg == vid && addr[j].idx == i ensures j == k {
          assert RowOk(cfg, segs, j, addr[j]);
        }
        if k in addr && addr[k].seg == vid && addr[k].idx == i { victims := victims + {k}; }
        i := i + 1;
      }
      forall k | k in addr && addr[k].seg == vid ensures k in victims {
        assert RowOk(cfg, segs, k, addr[k]);
      }
    }
  }
}
