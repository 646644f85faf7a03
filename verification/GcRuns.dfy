/**
 Garbage collection broken into its I/O steps, with whole user operations allowed between any two of them
 and any step allowed to be the last of an aborted pass. `Books` counts bytes for the write-amplification bound.
 */
module GcRuns {
  import opened Bytes
  import opened Segments
  import opened Engine

  datatype Orphan = Orphan(seg: nat, bytes: nat)

  datatype Gc =
    | Idle
    | Scanning(v: nat, pos: nat, orphans: seq<Orphan>)
    | Checked(v: nat, pos: nat, orphans: seq<Orphan>)
    | Copied(v: nat, pos: nat, orphans: seq<Orphan>, to: Addr)
    | Charged(v: nat)
    | Flushed(v: nat)
    | Unlinked(v: nat)

  /**
   Bytes of record bodies. user: appended by puts; rewritten: appended by the collector; wasted: rewritten bytes
   whose compare-and-swap missed or never ran; moved[s]: bytes moved out of segment s; leaked[s]: dead bytes of s
   that no discard counter covers; retired, retiredMoved: discard counters and moved bytes of removed segments.
   */
  datatype Books = Books(user: nat, rewritten: nat, wasted: nat, orphanCharged: nat,
                         moved: map<nat, nat>, leaked: map<nat, nat>, retired: nat, retiredMoved: nat)

  datatype Sys = Sys(eng: State, gc: Gc, books: Books)

  datatype Step =
    | DoPut(key: Key, data: Bytes, era: Option<nat>)
    | PutLost(key: Key, data: Bytes, era: Option<nat>)
    | DoDelete(key: Key)
    | DoSetObj(key: Key, obj: nat, hit: bool)
    | Rotate
    | Flush
    | GcStart(v: nat)
    | GcCheck
    | GcCopy
    | GcCas
    | GcCharge
    | GcFlush
    | GcUnlink
    | GcForget
    | GcAbort
    | Sweep(s: nat)
    | DoEvict(s: nat, dropped: set<Key>)

  // ----- counting

  function Stored(recs: seq<Record>): nat {
    if recs == [] then 0 else Stored(recs[..|recs| - 1]) + |recs[|recs| - 1].stored|
  }

  /** Bytes of the records of segment s that a row still points at. */
  function Live(addr: map<Key, Addr>, s: nat, recs: seq<Record>): nat {
    if recs == [] then 0 else
    var i := |recs| - 1;
    Live(addr, s, recs[..i]) + (if PointsAt(addr, recs[i].key, s, i) then |recs[i].stored| else 0)
  }

  function Lens(addr: map<Key, Addr>): map<Key, nat> { map k | k in addr :: addr[k].storedLen }

  ghost function RowSum(addr: map<Key, Addr>): nat { Sum(Lens(addr)) }

  function OrphansAt(orphans: seq<Orphan>, s: nat): nat {
    if orphans == [] then 0 else
    OrphansAt(orphans[..|orphans| - 1], s) + (if orphans[|orphans| - 1].seg == s then orphans[|orphans| - 1].bytes else 0)
  }

  function OrphanSum(orphans: seq<Orphan>): nat {
    if orphans == [] then 0 else OrphanSum(orphans[..|orphans| - 1]) + orphans[|orphans| - 1].bytes
  }

  function ChargeOrphans(discard: map<nat, nat>, orphans: seq<Orphan>): map<nat, nat> {
    if orphans == [] then discard else
    Bump(ChargeOrphans(discard, orphans[..|orphans| - 1]), orphans[|orphans| - 1].seg, orphans[|orphans| - 1].bytes)
  }

  // ----- the transition system

  ghost predicate WorthIt(r: real, discarded: nat, size: nat) { discarded as real >= r * (size as real) }

  /** Sealed, with a discard counter that is nonzero and no smaller than any other sealed segment's. */
  ghost predicate MostDiscarded(st: State, v: nat) {
    && v in st.segs && v != st.active && At(st.discard, v) > 0
    && (forall s :: s in st.segs && s != st.active ==> At(st.discard, s) <= At(st.discard, v))
  }

  /** A collectable victim: most discarded, and discarded at least ratio of its file length. */
  ghost predicate IsVictim(r: real, st: State, v: nat) {
    MostDiscarded(st, v) && WorthIt(r, At(st.discard, v), SegLen(st.segs[v]))
  }

  ghost predicate Enabled(r: real, y: Sys, step: Step) {
    match step
    case DoSetObj(k, _, hit) => hit == (k in y.eng.addr && k !in y.eng.inl)
    case GcStart(v) => y.gc.Idle? && IsVictim(r, y.eng, v)
    case GcCheck => y.gc.Scanning? && y.gc.v in y.eng.segs && y.gc.pos < |y.eng.segs[y.gc.v]|
    case GcCopy => y.gc.Checked? && y.gc.v in y.eng.segs && y.gc.pos < |y.eng.segs[y.gc.v]|
    case GcCas => y.gc.Copied? && y.gc.v in y.eng.segs && y.gc.pos < |y.eng.segs[y.gc.v]|
    case GcCharge => y.gc.Scanning? && y.gc.v in y.eng.segs && y.gc.pos == |y.eng.segs[y.gc.v]|
    case GcFlush => y.gc.Charged?
    case GcUnlink => y.gc.Flushed?
    case GcForget => y.gc.Unlinked?
    case GcAbort => !y.gc.Idle?
    case Sweep(s) => y.gc.Idle? && s in y.eng.segs && s != y.eng.active && !Referenced(y.eng.addr, s)
    case DoEvict(s, dropped) =>
      && y.gc.Idle? && s in y.eng.segs && s != y.eng.active && dropped == KeysIn(y.eng.addr, s) - y.eng.inl.Keys
      && (forall t :: t in y.eng.segs && t != y.eng.active ==> s <= t)
    case _ => true
  }

  /** A lookup of k, which asks the inline table first, finds a row that points at record i of segment v. */
  predicate Alive(st: State, k: Key, v: nat, i: nat) { k !in st.inl && PointsAt(st.addr, k, v, i) }

  function Leak(b: Books, s: nat, n: nat): Books { b.(leaked := b.leaked[s := At(b.leaked, s) + n]) }

  function Retire(b: Books, discard: map<nat, nat>, s: nat): Books {
    b.(retired := b.retired + At(discard, s), retiredMoved := b.retiredMoved + At(b.moved, s), moved := b.moved - {s})
  }

  /** The copy step: append the victim's record as it is, and remember where it went. */
  function CopyStep(cfg: Config, y: Sys): Sys
    requires y.gc.Checked? && y.eng.active in y.eng.segs && y.gc.v in y.eng.segs && y.gc.pos < |y.eng.segs[y.gc.v]|
  {
    var rec := y.eng.segs[y.gc.v][y.gc.pos];
    var s := Append(cfg, y.eng, rec);
    var n := |rec.stored|;
    Sys(s, Copied(y.gc.v, y.gc.pos, y.gc.orphans, LastRow(s, rec, None)),
        Leak(y.books.(rewritten := y.books.rewritten + n, wasted := y.books.wasted + n), s.active, n))
  }

  /** The compare-and-swap step: move the row, or note the copy as an orphan when the row has changed. */
  function CasStep(y: Sys): Sys
    requires y.gc.Copied? && y.gc.v in y.eng.segs && y.gc.pos < |y.eng.segs[y.gc.v]|
  {
    var rec, n := y.eng.segs[y.gc.v][y.gc.pos], y.gc.to.storedLen;
    if PointsAt(y.eng.addr, rec.key, y.gc.v, y.gc.pos) then
      var b := y.books;
      Sys(Cas(y.eng, rec.key, y.gc.v, y.gc.pos, y.gc.to), Scanning(y.gc.v, y.gc.pos + 1, y.gc.orphans),
          b.(wasted := if b.wasted >= n then b.wasted - n else 0,
             moved := b.moved[y.gc.v := At(b.moved, y.gc.v) + n],
             leaked := b.leaked[y.gc.to.seg := if At(b.leaked, y.gc.to.seg) >= n then At(b.leaked, y.gc.to.seg) - n else 0]))
    else
      y.(gc := Scanning(y.gc.v, y.gc.pos + 1, y.gc.orphans + [Orphan(y.gc.to.seg, n)]))
  }

  /** One transaction charges every orphan of the pass to its segment's discard counter. */
  function ChargeStep(y: Sys): Sys
    requires y.gc.Scanning?
  {
    Sys(y.eng.(discard := ChargeOrphans(y.eng.discard, y.gc.orphans)), Charged(y.gc.v),
        y.books.(orphanCharged := y.books.orphanCharged + OrphanSum(y.gc.orphans),
                 leaked := map s | s in y.books.leaked ::
                   if y.books.leaked[s] >= OrphansAt(y.gc.orphans, s) then y.books.leaked[s] - OrphansAt(y.gc.orphans, s) else 0))
  }

  function Lost(cfg: Config, y: Sys, k: Key, data: Bytes, era: Option<nat>): Sys
    requires y.eng.active in y.eng.segs
  {
    if GoesInline(cfg, data, era) then y
    else
      var rec := Pack(cfg, k, data);
      var s := Append(cfg, y.eng, rec);
      y.(eng := s, books := Leak(y.books.(user := y.books.user + |rec.stored|), s.active, |rec.stored|))
  }

  function UserBytes(cfg: Config, k: Key, data: Bytes, era: Option<nat>): nat {
    if GoesInline(cfg, data, era) then 0 else |Pack(cfg, k, data).stored|
  }

  ghost function Next(cfg: Config, r: real, y: Sys, step: Step): Sys
    requires y.eng.active in y.eng.segs && Enabled(r, y, step)
  {
    var st, b := y.eng, y.books;
    match step
    case DoPut(k, data, era) => y.(eng := Put(cfg, st, k, data, era), books := b.(user := b.user + UserBytes(cfg, k, data, era)))
    case PutLost(k, data, era) => Lost(cfg, y, k, data, era)
    case DoDelete(k) => y.(eng := Delete(st, k))
    case DoSetObj(k, obj, _) => y.(eng := SetObj(st, k, obj))
    case Rotate => y.(eng := Seal(cfg, st))
    case Flush => y.(eng := Sync(st))
    case GcStart(v) => y.(gc := Scanning(v, 0, []))
    case GcCheck =>
      if Alive(st, st.segs[y.gc.v][y.gc.pos].key, y.gc.v, y.gc.pos)
      then y.(gc := Checked(y.gc.v, y.gc.pos, y.gc.orphans))
      else y.(gc := Scanning(y.gc.v, y.gc.pos + 1, y.gc.orphans))
    case GcCopy => CopyStep(cfg, y)
    case GcCas => CasStep(y)
    case GcCharge => ChargeStep(y)
    case GcFlush => y.(eng := Sync(st), gc := Flushed(y.gc.v))
    case GcUnlink => y.(eng := st.(segs := st.segs - {y.gc.v}, soft := st.soft - {y.gc.v}), gc := Unlinked(y.gc.v))
    case GcForget => Sys(st.(discard := st.discard - {y.gc.v}), Idle, Retire(b, st.discard, y.gc.v))
    case GcAbort => y.(gc := Idle)
    case Sweep(s) => y.(eng := Unlink(st, {s}), books := Retire(b, st.discard, s))
    case DoEvict(s, dropped) => y.(eng := Evict(st, s, dropped), books := Retire(b, st.discard, s))
  }

  // ----- the invariant

  ghost predicate Unpointed(addr: map<Key, Addr>, s: nat, i: nat) {
    forall k :: k in addr ==> !(addr[k].seg == s && addr[k].idx == i)
  }

  ghost predicate NoRowsBefore(addr: map<Key, Addr>, v: nat, pos: nat) {
    forall k :: k in addr && addr[k].seg == v ==> addr[k].idx >= pos
  }

  ghost predicate Sealed(st: State, v: nat) { v in st.segs && v < st.active }

  ghost predicate GcOk(cfg: Config, st: State, gc: Gc) {
    match gc
    case Idle => true
    case Scanning(v, pos, _) => Sealed(st, v) && pos <= |st.segs[v]| && NoRowsBefore(st.addr, v, pos)
    case Checked(v, pos, _) => Sealed(st, v) && pos < |st.segs[v]| && NoRowsBefore(st.addr, v, pos)
    case Copied(v, pos, _, to) =>
      && Sealed(st, v) && pos < |st.segs[v]| && NoRowsBefore(st.addr, v, pos)
      && to.seg != v && to.seg in st.segs && to.idx < |st.segs[to.seg]|
      && st.segs[to.seg][to.idx] == st.segs[v][pos]
      && to.storedLen == |st.segs[v][pos].stored|
      && to.logicalLen == st.segs[v][pos].logicalLen && to.flags == st.segs[v][pos].flags
      && Unpointed(st.addr, to.seg, to.idx)
    case Charged(v) => Sealed(st, v) && !Referenced(st.addr, v)
    case Flushed(v) => Sealed(st, v) && !Referenced(st.addr, v)
    case Unlinked(v) => v !in st.segs && v < st.active
  }

  ghost predicate Safe(cfg: Config, y: Sys) { Well(cfg, y.eng) && GcOk(cfg, y.eng, y.gc) }

  // ----- runs

  ghost predicate Feasible(cfg: Config, r: real, y: Sys, steps: seq<Step>)
    decreases |steps|
  {
    steps == [] ||
    (y.eng.active in y.eng.segs && Enabled(r, y, steps[0]) && Feasible(cfg, r, Next(cfg, r, y, steps[0]), steps[1..]))
  }

  ghost function Run(cfg: Config, r: real, y: Sys, steps: seq<Step>): Sys
    requires Feasible(cfg, r, y, steps)
    decreases |steps|
  {
    if steps == [] then y else Run(cfg, r, Next(cfg, r, y, steps[0]), steps[1..])
  }

  /** A fresh shard: one empty active segment and empty tables. */
  function Fresh(): Sys {
    Sys(State(map[0 := []], 0, 0, map[], map[], map[], map[]), Idle, Books(0, 0, 0, 0, map[], map[], 0, 0))
  }

  lemma FreshSafe(cfg: Config)
    ensures Safe(cfg, Fresh())
  {
  }

  /** What the caller asked for: only user operations act on the plain map. */
  function Intend(view: map<Key, Obj>, step: Step): map<Key, Obj> {
    match step
    case DoPut(k, data, era) => view[k := Obj(data, era)]
    case DoDelete(k) => view - {k}
    case DoSetObj(k, obj, hit) => if hit && k in view then view[k := Obj(view[k].body, Some(obj))] else view
    case DoEvict(_, dropped) => view - dropped
    case _ => view
  }

  function IntendAll(view: map<Key, Obj>, steps: seq<Step>): map<Key, Obj>
    decreases |steps|
  {
    if steps == [] then view else IntendAll(Intend(view, steps[0]), steps[1..])
  }

  // ----- every step keeps the invariant and the view

  lemma RowsStayOk(cfg: Config, st: State, st2: State, gc: Gc)
    requires Well(cfg, st) && GcOk(cfg, st, gc) && !gc.Unlinked?
    requires Grown(st.segs, st2.segs) && st2.active >= st.active
    requires forall k :: k in st2.addr ==>
      (k in st.addr && SamePlace(st2.addr[k], st.addr[k])) || st2.addr[k].seg !in st.segs
      || (st2.addr[k].seg == st.active && st2.addr[k].idx >= |st.segs[st.active]|)
    ensures GcOk(cfg, st2, gc)
  {
    if gc.Charged? || gc.Flushed? {
      forall k | k in st2.addr ensures st2.addr[k].seg != gc.v {
        if k in st.addr && SamePlace(st2.addr[k], st.addr[k]) { assert !(st.addr[k].seg == gc.v); }
      }
    }
  }

  predicate SamePlace(a: Addr, b: Addr) { a.seg == b.seg && a.idx == b.idx }

  lemma UnlinkedStays(cfg: Config, st: State, st2: State, gc: Gc)
    requires GcOk(cfg, st, gc) && gc.Unlinked?
    requires st2.active >= st.active && (forall s :: s in st2.segs ==> s in st.segs || s > st.active)
    ensures GcOk(cfg, st2, gc)
  {
  }

  /** Facts about an append that the collector's bookkeeping needs. */
  lemma AppendPlace(cfg: Config, st: State, rec: Record)
    requires Well(cfg, st)
    ensures var s := Append(cfg, st, rec);
      && s.active >= st.active && s.active in s.segs && s.segs[s.active] != []
      && (s.active !in st.segs || (s.active == st.active && |s.segs[s.active]| == |st.segs[st.active]| + 1))
      && (forall t :: t in s.segs ==> t in st.segs || t > st.active)
      && Unpointed(st.addr, s.active, |s.segs[s.active]| - 1)
  {
    hide SegLen;
    forall k | k in st.addr ensures RowOk(cfg, st.segs, k, st.addr[k]) {}
  }

  lemma SealedUntouched(cfg: Config, st: State, rec: Record, v: nat)
    requires Well(cfg, st) && Sealed(st, v)
    ensures v in Append(cfg, st, rec).segs && Append(cfg, st, rec).segs[v] == st.segs[v]
    ensures Append(cfg, st, rec).addr == st.addr
  {
    hide SegLen;
    hide RowsOk;
    hide Sync;
    SealKeeps(cfg, st);
    WriteGrows(cfg, Seal(cfg, st), rec) by { SealGrows(cfg, st); }
    hide Write;
  }

  lemma PutSafe(cfg: Config, y: Sys, k: Key, data: Bytes, era: Option<nat>)
    requires GoodZip(cfg) && Safe(cfg, y)
    ensures Safe(cfg, y.(eng := Put(cfg, y.eng, k, data, era)))
  {
    hide Append;
    hide View;
    hide Pack;
    hide RowOk;
    PutView(cfg, y.eng, k, data, era);
    if !GoesInline(cfg, data, era) {
      AppendGrows(cfg, y.eng, Pack(cfg, k, data));
      AppendPlace(cfg, y.eng, Pack(cfg, k, data));
    }
    KeepGc(cfg, y.eng, Put(cfg, y.eng, k, data, era), y.gc);
  }

  lemma LostSafe(cfg: Config, y: Sys, k: Key, data: Bytes, era: Option<nat>)
    requires GoodZip(cfg) && Safe(cfg, y)
    ensures Safe(cfg, Lost(cfg, y, k, data, era)) && View(cfg, Lost(cfg, y, k, data, era).eng) == View(cfg, y.eng)
  {
    hide Append;
    hide View;
    hide Pack;
    hide RowOk;
    if !GoesInline(cfg, data, era) {
      AppendGrows(cfg, y.eng, Pack(cfg, k, data));
      AppendPlace(cfg, y.eng, Pack(cfg, k, data));
      KeepGc(cfg, y.eng, Lost(cfg, y, k, data, era).eng, y.gc);
    }
  }

  lemma UserStepSafe(cfg: Config, r: real, y: Sys, step: Step)
    requires GoodZip(cfg) && Safe(cfg, y) && Enabled(r, y, step)
    requires step.DoPut? || step.PutLost? || step.DoDelete? || step.DoSetObj? || step.Rotate? || step.Flush?
    ensures Safe(cfg, Next(cfg, r, y, step))
    ensures View(cfg, Next(cfg, r, y, step).eng) == Intend(View(cfg, y.eng), step)
  {
    hide Put;
    hide Lost;
    hide Seal;
    hide Sync;
    hide View;
    hide RowsOk;
    hide GcOk;
    var st, st2 := y.eng, Next(cfg, r, y, step).eng;
    match step
    case DoPut(k, data, era) =>
      PutView(cfg, st, k, data, era);
      PutSafe(cfg, y, k, data, era);
    case PutLost(k, data, era) => LostSafe(cfg, y, k, data, era);
    case DoDelete(k) =>
      DeleteView(cfg, st, k);
      KeepGc(cfg, st, st2, y.gc);
    case DoSetObj(k, obj, hit) =>
      SetObjView(cfg, st, k, obj);
      ViewKeys(cfg, st);
      KeepGc(cfg, st, st2, y.gc);
    case Rotate =>
      SealGrows(cfg, st);
      SealPlace(cfg, st);
      KeepGc(cfg, st, st2, y.gc);
    case Flush =>
      SyncKeeps(cfg, st);
      KeepGc(cfg, st, st2, y.gc);
  }

  lemma ViewKeys(cfg: Config, st: State)
    ensures View(cfg, st).Keys == st.inl.Keys + st.addr.Keys
  {
  }

  lemma SealPlace(cfg: Config, st: State)
    requires Well(cfg, st)
    ensures var s := Seal(cfg, st);
      s.active >= st.active && s.addr == st.addr && (forall t :: t in s.segs ==> t in st.segs || t > st.active)
  {
    hide SegLen;
  }

  lemma KeepGc(cfg: Config, st: State, st2: State, gc: Gc)
    requires Well(cfg, st) && GcOk(cfg, st, gc)
    requires Grown(st.segs, st2.segs) && st2.active >= st.active
    requires forall s :: s in st2.segs ==> s in st.segs || s > st.active
    requires forall k :: k in st2.addr ==>
      (k in st.addr && SamePlace(st2.addr[k], st.addr[k])) || st2.addr[k].seg !in st.segs
      || (st2.addr[k].seg == st.active && st2.addr[k].idx >= |st.segs[st.active]|)
    ensures GcOk(cfg, st2, gc)
  {
    if gc.Unlinked? { UnlinkedStays(cfg, st, st2, gc); } else { RowsStayOk(cfg, st, st2, gc); }
  }

  lemma GcStepSafe(cfg: Config, r: real, y: Sys, step: Step)
    requires Safe(cfg, y) && Enabled(r, y, step)
    requires !(step.DoPut? || step.PutLost? || step.DoDelete? || step.DoSetObj? || step.Rotate? || step.Flush?)
    ensures Safe(cfg, Next(cfg, r, y, step))
    ensures View(cfg, Next(cfg, r, y, step).eng) == Intend(View(cfg, y.eng), step)
  {
    hide Append;
    hide View;
    hide SegLen;
    hide Sync;
    var st, st2 := y.eng, Next(cfg, r, y, step).eng;
    match step
    case GcCopy => CopySafe(cfg, y);
    case GcCas => CasSafe(cfg, y);
    case GcFlush => SyncKeeps(cfg, st);
    case GcCharge => ChargeSafe(cfg, y);
    case GcCheck =>
      if !PointsAt(st.addr, st.segs[y.gc.v][y.gc.pos].key, y.gc.v, y.gc.pos) { DeadSkipped(cfg, y); }
    case GcUnlink => UnlinkSafe(cfg, y);
    case GcForget => GrownView(cfg, st, st2);
    case Sweep(s) => UnlinkView(cfg, st, {s});
    case DoEvict(s, dropped) =>
      assert dropped == KeysIn(st.addr, s);
      EvictView(cfg, st, s);
    case _ =>
  }

  /** After the scan no row points into the victim. */
  lemma ChargeSafe(cfg: Config, y: Sys)
    requires Safe(cfg, y) && y.gc.Scanning? && y.gc.pos == |y.eng.segs[y.gc.v]|
    ensures Safe(cfg, ChargeStep(y)) && View(cfg, ChargeStep(y).eng) == View(cfg, y.eng)
  {
    hide ChargeOrphans;
    GrownView(cfg, y.eng, ChargeStep(y).eng);
    forall k | k in y.eng.addr ensures y.eng.addr[k].seg != y.gc.v {
      assert RowOk(cfg, y.eng.segs, k, y.eng.addr[k]);
    }
    hide RowsOk;
    hide View;
  }

  lemma UnlinkSafe(cfg: Config, y: Sys)
    requires Safe(cfg, y) && y.gc.Flushed?
    ensures var st2 := y.eng.(segs := y.eng.segs - {y.gc.v}, soft := y.eng.soft - {y.gc.v});
      Well(cfg, st2) && GcOk(cfg, st2, Unlinked(y.gc.v)) && View(cfg, st2) == View(cfg, y.eng)
  {
    UnlinkView(cfg, y.eng, {y.gc.v});
    hide RowsOk;
    hide BodyAt;
  }

  /** A record no row points at can be passed over. */
  lemma DeadSkipped(cfg: Config, y: Sys)
    requires Safe(cfg, y) && (y.gc.Scanning? || y.gc.Copied?) && y.gc.pos < |y.eng.segs[y.gc.v]|
    requires !PointsAt(y.eng.addr, y.eng.segs[y.gc.v][y.gc.pos].key, y.gc.v, y.gc.pos)
    ensures NoRowsBefore(y.eng.addr, y.gc.v, y.gc.pos + 1)
  {
    forall k | k in y.eng.addr && y.eng.addr[k].seg == y.gc.v ensures y.eng.addr[k].idx >= y.gc.pos + 1 {
      assert RowOk(cfg, y.eng.segs, k, y.eng.addr[k]);
    }
  }

  lemma CopySafe(cfg: Config, y: Sys)
    requires Safe(cfg, y) && y.gc.Checked?
    ensures Safe(cfg, CopyStep(cfg, y)) && View(cfg, CopyStep(cfg, y).eng) == View(cfg, y.eng)
  {
    hide Append;
    hide View;
    var rec := y.eng.segs[y.gc.v][y.gc.pos];
    AppendGrows(cfg, y.eng, rec);
    AppendPlace(cfg, y.eng, rec);
  }

  lemma CasSafe(cfg: Config, y: Sys)
    requires Safe(cfg, y) && y.gc.Copied?
    ensures Safe(cfg, CasStep(y)) && View(cfg, CasStep(y).eng) == View(cfg, y.eng)
  {
    hide View;
    var v, pos, to := y.gc.v, y.gc.pos, y.gc.to;
    var rec := y.eng.segs[v][pos];
    if PointsAt(y.eng.addr, rec.key, v, pos) {
      assert RowOk(cfg, y.eng.segs, rec.key, y.eng.addr[rec.key]);
      assert RowOk(cfg, y.eng.segs, rec.key, to);
      CasView(cfg, y.eng, rec.key, v, pos, to);
      var st2 := CasStep(y).eng;
      forall k | k in st2.addr && st2.addr[k].seg == v ensures st2.addr[k].idx >= pos + 1 {
        assert k != rec.key && RowOk(cfg, y.eng.segs, k, y.eng.addr[k]);
      }
    } else {
      DeadSkipped(cfg, y);
    }
  }

  lemma StepSafe(cfg: Config, r: real, y: Sys, step: Step)
    requires GoodZip(cfg) && Safe(cfg, y) && Enabled(r, y, step)
    ensures Safe(cfg, Next(cfg, r, y, step))
    ensures View(cfg, Next(cfg, r, y, step).eng) == Intend(View(cfg, y.eng), step)
  {
    hide *;
    if step.DoPut? || step.PutLost? || step.DoDelete? || step.DoSetObj? || step.Rotate? || step.Flush? {
      UserStepSafe(cfg, r, y, step);
    } else {
      GcStepSafe(cfg, r, y, step);
    }
  }

  /**
   Collection refines doing nothing: over any run, with user operations between any two collector steps and
   passes aborted anywhere, the map from key to body and era field is exactly what the user operations alone
   make of it, and every row still points at a readable record.
   */
  lemma {:induction false} RunRefinesMap(cfg: Config, r: real, y: Sys, steps: seq<Step>)
    requires GoodZip(cfg) && Safe(cfg, y) && Feasible(cfg, r, y, steps)
    ensures Safe(cfg, Run(cfg, r, y, steps))
    ensures View(cfg, Run(cfg, r, y, steps).eng) == IntendAll(View(cfg, y.eng), steps)
    decreases |steps|
  {
    hide Next;
    hide Enabled;
    hide Safe;
    hide View;
    hide Intend;
    if steps != [] {
      StepSafe(cfg, r, y, steps[0]);
      RunRefinesMap(cfg, r, Next(cfg, r, y, steps[0]), steps[1..]);
    }
  }

  // ----- reads racing the collector

  /** Time has passed from a to b: segment ids are never reused and surviving segments have only grown. */
  ghost predicate Later(a: State, b: State) {
    a.active <= b.active && forall s :: s in b.segs && s <= a.active ==> s in a.segs && a.segs[s] <= b.segs[s]
  }

  lemma LaterTransitive(a: State, b: State, c: State)
    requires Later(a, b) && Later(b, c)
    ensures Later(a, c)
  {
  }

  lemma AppendLater(cfg: Config, st: State, rec: Record)
    requires Well(cfg, st)
    ensures Later(st, Append(cfg, st, rec)) && Later(st, Seal(cfg, st))
  {
    hide SegLen;
  }

  lemma StepLater(cfg: Config, r: real, y: Sys, step: Step)
    requires Safe(cfg, y) && Enabled(r, y, step)
    ensures Later(y.eng, Next(cfg, r, y, step).eng)
  {
    hide Append;
    hide Seal;
    hide RowOk;
    match step
    case DoPut(k, data, era) => AppendLater(cfg, y.eng, Pack(cfg, k, data));
    case PutLost(k, data, era) => AppendLater(cfg, y.eng, Pack(cfg, k, data));
    case GcCopy => AppendLater(cfg, y.eng, y.eng.segs[y.gc.v][y.gc.pos]);
    case Rotate => AppendLater(cfg, y.eng, Record([], [], 0, 0));
    case _ =>
  }

  lemma {:induction false} RunLater(cfg: Config, r: real, y: Sys, steps: seq<Step>)
    requires GoodZip(cfg) && Safe(cfg, y) && Feasible(cfg, r, y, steps)
    ensures Later(y.eng, Run(cfg, r, y, steps).eng)
    decreases |steps|
  {
    hide Next;
    hide Enabled;
    hide Later;
    hide Safe;
    hide Intend;
    if steps == [] {
      LaterRefl(y.eng);
    } else {
      var y1 := Next(cfg, r, y, steps[0]);
      StepSafe(cfg, r, y, steps[0]);
      StepLater(cfg, r, y, steps[0]);
      RunLater(cfg, r, y1, steps[1..]);
      LaterTransitive(y.eng, y1.eng, Run(cfg, r, y, steps).eng);
    }
  }

  lemma LaterRefl(a: State)
    ensures Later(a, a)
  {
  }

  datatype GetResult = Got(body: Bytes) | NotFound | Unreadable

  /**
   The two attempts of a read, each a lookup and then a positional read, with the shard's state at each of the
   four moments. A failed read whose row has not changed is not retried.
   */
  function GetAcross(cfg: Config, k: Key, look1: State, read1: State, look2: State, read2: State): GetResult {
    if k in look1.inl then Got(look1.inl[k])
    else if k !in look1.addr then NotFound
    else match ReadAt(cfg, read1.segs, look1.addr[k])
      case Some(b) => Got(b)
      case None =>
        if k in look2.inl then Got(look2.inl[k])
        else if k !in look2.addr then NotFound
        else if look2.addr[k] == look1.addr[k] then Unreadable
        else match ReadAt(cfg, read2.segs, look2.addr[k])
          case Some(b) => Got(b)
          case None => Unreadable
  }

  /** A row read later gives the value it had at its lookup, or nothing exactly when its segment was unlinked. */
  lemma ReadLater(cfg: Config, k: Key, look: State, read: State)
    requires Well(cfg, look) && Later(look, read) && k in look.addr
    ensures look.addr[k].seg in read.segs ==> ReadAt(cfg, read.segs, look.addr[k]) == Some(View(cfg, look)[k].body)
    ensures look.addr[k].seg !in read.segs ==> ReadAt(cfg, read.segs, look.addr[k]) == None
  {
    assert RowOk(cfg, look.segs, k, look.addr[k]);
  }

  /**
   Whatever happens between lookups and reads, a read returns the key's value at one of its lookups, reports
   absence only when the key was absent at one, and fails only when both attempts lost their segment to an unlink.
   */
  lemma GetIsAtomic(cfg: Config, k: Key, look1: State, read1: State, look2: State, read2: State)
    requires Well(cfg, look1) && Well(cfg, look2)
    requires Later(look1, read1) && Later(read1, look2) && Later(look2, read2)
    ensures var v1, v2 := View(cfg, look1), View(cfg, look2);
      match GetAcross(cfg, k, look1, read1, look2, read2)
      case Got(b) => (k in v1 && v1[k].body == b) || (k in v2 && v2[k].body == b)
      case NotFound => k !in v1 || k !in v2
      case Unreadable =>
        && k in look1.addr && look1.addr[k].seg !in read1.segs
        && k in look2.addr && look2.addr[k].seg !in read2.segs
    ensures k in View(cfg, look1) && (k in look1.addr ==> look1.addr[k].seg in read1.segs)
      ==> GetAcross(cfg, k, look1, read1, look2, read2) == Got(View(cfg, look1)[k].body)
    ensures k in View(cfg, look1) && k in View(cfg, look2) && (k in look2.addr ==> look2.addr[k].seg in read2.segs)
      ==> GetAcross(cfg, k, look1, read1, look2, read2).Got?
  {
    hide RowOk;
    if k in look1.addr {
      ReadLater(cfg, k, look1, read1);
      RowSegment(cfg, look1, k);
      if k in look2.addr {
        ReadLater(cfg, k, look2, read2);
        RowSegment(cfg, look2, k);
      }
    }
  }

  /** In any run a read whose two attempts fall at four moments of it, in order, is such a read. */
  lemma GetInRun(cfg: Config, r: real, y: Sys, s1: seq<Step>, s2: seq<Step>, s3: seq<Step>, k: Key)
    requires GoodZip(cfg) && Safe(cfg, y) && Feasible(cfg, r, y, s1)
    requires var y1 := Run(cfg, r, y, s1); Feasible(cfg, r, y1, s2) && Feasible(cfg, r, Run(cfg, r, y1, s2), s3)
    ensures var y1 := Run(cfg, r, y, s1);
      var y2 := Run(cfg, r, y1, s2);
      var y3 := Run(cfg, r, y2, s3);
      var v1, v2 := View(cfg, y.eng), View(cfg, y2.eng);
      && v2 == IntendAll(IntendAll(v1, s1), s2)
      && (match GetAcross(cfg, k, y.eng, y1.eng, y2.eng, y3.eng)
          case Got(b) => (k in v1 && v1[k].body == b) || (k in v2 && v2[k].body == b)
          case NotFound => k !in v1 || k !in v2
          case Unreadable =>
            && k in y.eng.addr && y.eng.addr[k].seg !in y1.eng.segs
            && k in y2.eng.addr && y2.eng.addr[k].seg !in y3.eng.segs)
  {
    var y1 := Run(cfg, r, y, s1);
    RunRefinesMap(cfg, r, y, s1);
    RunLater(cfg, r, y, s1);
    var y2 := Run(cfg, r, y1, s2);
    RunRefinesMap(cfg, r, y1, s2);
    RunLater(cfg, r, y1, s2);
    RunLater(cfg, r, y2, s3);
    var y3 := Run(cfg, r, y2, s3);
    hide Run;
    hide Later;
    hide GcOk;
    hide GetAcross;
    hide View;
    GetIsAtomic(cfg, k, y.eng, y1.eng, y2.eng, y3.eng);
  }

  lemma RowSegment(cfg: Config, st: State, k: Key)
    requires Well(cfg, st) && k in st.addr
    ensures st.addr[k].seg in st.segs && st.addr[k].seg <= st.active && k !in st.inl
  {
    assert RowOk(cfg, st.segs, k, st.addr[k]);
  }
}
