/** Conservation of segment bytes over every run, and the lifetime write-amplification bound that follows. */
module WriteAmp {
  import opened Bytes
  import opened Segments
  import opened Engine
  import opened GcRuns

  // ----- conservation in each segment

  /** Every stored byte of every segment is live, charged to its discard counter, moved away, or leaked. */
  ghost predicate Cons(segs: SegMap, addr: map<Key, Addr>, d: map<nat, nat>, m: map<nat, nat>, l: map<nat, nat>) {
    forall s :: s in segs ==> Stored(segs[s]) == Live(addr, s, segs[s]) + At(d, s) + At(m, s) + At(l, s)
  }

  /** No counter runs ahead of the segments. */
  ghost predicate NoFuture(active: nat, m: map<nat, nat>) { forall s :: s > active ==> At(m, s) == 0 }

  lemma FutureBump(active: nat, m: map<nat, nat>, s: nat, n: nat)
    requires NoFuture(active, m) && s <= active
    ensures NoFuture(active, Bump(m, s, n))
  {
    forall t | t > active ensures At(Bump(m, s, n), t) == 0 { assert At(m, t) == 0; }
  }

  lemma FutureDrop(active: nat, m: map<nat, nat>, s: nat)
    requires NoFuture(active, m)
    ensures NoFuture(active, m - {s})
  {
    forall t | t > active ensures At(m - {s}, t) == 0 { assert At(m, t) == 0; }
  }

  /** The part of Live that row k contributes. */
  function Part(addr: map<Key, Addr>, s: nat, recs: seq<Record>, k: Key): nat {
    if k in addr && addr[k].seg == s && addr[k].idx < |recs| && recs[addr[k].idx].key == k then |recs[addr[k].idx].stored| else 0
  }

  ghost predicate SameBut(a: map<Key, Addr>, b: map<Key, Addr>, k: Key) {
    forall j :: j != k ==> (j in a <==> j in b) && (j in a ==> SamePlace(a[j], b[j]))
  }

  lemma {:induction false} LiveFrame(a: map<Key, Addr>, b: map<Key, Addr>, s: nat, recs: seq<Record>, k: Key)
    requires SameBut(a, b, k)
    ensures Live(b, s, recs) + Part(a, s, recs, k) == Live(a, s, recs) + Part(b, s, recs, k)
  {
    if recs != [] {
      var i := |recs| - 1;
      LiveFrame(a, b, s, recs[..i], k);
    }
  }

  lemma {:induction false} LiveNone(addr: map<Key, Addr>, s: nat, recs: seq<Record>)
    requires forall k :: k in addr ==> addr[k].seg != s
    ensures Live(addr, s, recs) == 0
  {
    if recs != [] { LiveNone(addr, s, recs[..|recs| - 1]); }
  }

  lemma LivePush(addr: map<Key, Addr>, s: nat, recs: seq<Record>, rec: Record)
    requires Unpointed(addr, s, |recs|)
    ensures Live(addr, s, recs + [rec]) == Live(addr, s, recs)
    ensures Stored(recs + [rec]) == Stored(recs) + |rec.stored|
  {
    assert (recs + [rec])[..|recs|] == recs;
  }

  lemma ConsDrop(cfg: Config, segs: SegMap, addr: map<Key, Addr>, d: map<nat, nat>, m: map<nat, nat>, l: map<nat, nat>, k: Key)
    requires Cons(segs, addr, d, m, l) && k in addr && RowOk(cfg, segs, k, addr[k])
    ensures Cons(segs, addr - {k}, Bump(d, addr[k].seg, addr[k].storedLen), m, l)
    ensures Cons(segs, addr - {k}, d, Bump(m, addr[k].seg, addr[k].storedLen), l)
  {
    forall s | s in segs
      ensures Live(addr - {k}, s, segs[s]) + (if s == addr[k].seg then addr[k].storedLen else 0) == Live(addr, s, segs[s])
    {
      LiveFrame(addr, addr - {k}, s, segs[s], k);
    }
  }

  lemma ConsAdd(segs: SegMap, addr: map<Key, Addr>, d: map<nat, nat>, m: map<nat, nat>, l: map<nat, nat>, k: Key, to: Addr, l0: map<nat, nat>)
    requires Cons(segs, addr, d, m, l) && k !in addr
    requires to.seg in segs && to.idx < |segs[to.seg]| && segs[to.seg][to.idx].key == k
    requires |segs[to.seg][to.idx].stored| == to.storedLen
    requires forall s :: At(l, s) == At(l0, s) + (if s == to.seg then to.storedLen else 0)
    ensures Cons(segs, addr[k := to], d, m, l0)
  {
    forall s | s in segs
      ensures Live(addr[k := to], s, segs[s]) == Live(addr, s, segs[s]) + (if s == to.seg then to.storedLen else 0)
    {
      LiveFrame(addr, addr[k := to], s, segs[s], k);
      assert At(l, s) == At(l0, s) + (if s == to.seg then to.storedLen else 0);
    }
  }

  lemma ConsPush(segs: SegMap, addr: map<Key, Addr>, d: map<nat, nat>, m: map<nat, nat>, l: map<nat, nat>, a: nat, rec: Record)
    requires Cons(segs, addr, d, m, l) && a in segs && Unpointed(addr, a, |segs[a]|)
    ensures Cons(segs[a := segs[a] + [rec]], addr, d, m, Bump(l, a, |rec.stored|))
  {
    LivePush(addr, a, segs[a], rec);
    hide Unpointed;
  }

  lemma ConsAppend(cfg: Config, st: State, rec: Record, d: map<nat, nat>, m: map<nat, nat>, l: map<nat, nat>)
    requires Well(cfg, st) && Cons(st.segs, st.addr, d, m, l)
    requires NoFuture(st.active, d) && NoFuture(st.active, m) && NoFuture(st.active, l)
    ensures var s := Append(cfg, st, rec); Cons(s.segs, st.addr, d, m, Bump(l, s.active, |rec.stored|))
  {
    hide Cons;
    hide NoFuture;
    var s0 := Seal(cfg, st);
    ConsSeal(cfg, st, d, m, l);
    SealUnpointed(cfg, st);
    hide Seal;
    hide Unpointed;
    hide Well;
    ConsPush(s0.segs, st.addr, d, m, l, s0.active, rec);
  }

  lemma SealUnpointed(cfg: Config, st: State)
    requires Well(cfg, st)
    ensures var s := Seal(cfg, st);
      s.active in s.segs && Unpointed(st.addr, s.active, |s.segs[s.active]|)
  {
    hide SegLen;
    forall k | k in st.addr ensures RowOk(cfg, st.segs, k, st.addr[k]) {}
  }

  lemma ConsSeal(cfg: Config, st: State, d: map<nat, nat>, m: map<nat, nat>, l: map<nat, nat>)
    requires Well(cfg, st) && Cons(st.segs, st.addr, d, m, l)
    requires NoFuture(st.active, d) && NoFuture(st.active, m) && NoFuture(st.active, l)
    ensures Cons(Seal(cfg, st).segs, st.addr, d, m, l)
  {
    hide SegLen;
    var n := st.active + 1;
    assert At(d, n) == 0 && At(m, n) == 0 && At(l, n) == 0;
  }

  // ----- orphans waiting to be charged

  function PendingAt(gc: Gc, s: nat): nat {
    match gc
    case Scanning(_, _, o) => OrphansAt(o, s)
    case Checked(_, _, o) => OrphansAt(o, s)
    case Copied(_, _, o, to) => OrphansAt(o, s) + (if to.seg == s then to.storedLen else 0)
    case _ => 0
  }

  function PendingSum(gc: Gc): nat {
    match gc
    case Scanning(_, _, o) => OrphanSum(o)
    case Checked(_, _, o) => OrphanSum(o)
    case Copied(_, _, o, to) => OrphanSum(o) + to.storedLen
    case _ => 0
  }

  /** Orphans are leaked bytes the pass still knows about, and part of the wasted ones. */
  ghost predicate Pending(y: Sys) {
    && (forall s :: PendingAt(y.gc, s) <= At(y.books.leaked, s))
    && y.books.orphanCharged + PendingSum(y.gc) <= y.books.wasted
  }

  lemma OrphansPush(o: seq<Orphan>, x: Orphan)
    ensures OrphanSum(o + [x]) == OrphanSum(o) + x.bytes
    ensures forall s :: OrphansAt(o + [x], s) == OrphansAt(o, s) + (if x.seg == s then x.bytes else 0)
  {
    assert (o + [x])[..|o|] == o;
  }

  lemma {:induction false} ChargedAt(d: map<nat, nat>, o: seq<Orphan>)
    ensures forall s :: At(ChargeOrphans(d, o), s) == At(d, s) + OrphansAt(o, s)
    ensures Sum(ChargeOrphans(d, o)) == Sum(d) + OrphanSum(o)
  {
    if o != [] {
      var p, x := o[..|o| - 1], o[|o| - 1];
      ChargedAt(d, p);
      SumUpdate(ChargeOrphans(d, p), x.seg, At(ChargeOrphans(d, p), x.seg) + x.bytes);
    }
  }

  // ----- every step keeps the books balanced

  ghost predicate Balanced(y: Sys) {
    && Cons(y.eng.segs, y.eng.addr, y.eng.discard, y.books.moved, y.books.leaked)
    && NoFuture(y.eng.active, y.eng.discard) && NoFuture(y.eng.active, y.books.moved) && NoFuture(y.eng.active, y.books.leaked)
    && Pending(y)
  }

  lemma {:induction false} LiveSame(a: map<Key, Addr>, b: map<Key, Addr>, s: nat, recs: seq<Record>)
    requires forall k, i :: PointsAt(a, k, s, i) <==> PointsAt(b, k, s, i)
    ensures Live(a, s, recs) == Live(b, s, recs)
  {
    if recs != [] { LiveSame(a, b, s, recs[..|recs| - 1]); }
  }

  lemma ConsCharge(cfg: Config, st: State, m: map<nat, nat>, l: map<nat, nat>, k: Key)
    requires Well(cfg, st) && Cons(st.segs, st.addr, st.discard, m, l) && NoFuture(st.active, st.discard)
    ensures Cons(st.segs, st.addr - {k}, Charge(st, k), m, l) && NoFuture(st.active, Charge(st, k))
  {
    if k in st.addr {
      assert RowOk(cfg, st.segs, k, st.addr[k]);
      ConsDrop(cfg, st.segs, st.addr, st.discard, m, l, k);
      FutureBump(st.active, st.discard, st.addr[k].seg, st.addr[k].storedLen);
      hide Cons;
      hide NoFuture;
    } else {
      assert st.addr - {k} == st.addr;
    }
  }

  /** Charging the old row of k and giving it an appended record keeps every byte accounted for. */
  lemma RowBalanced(cfg: Config, s: State, m: map<nat, nat>, l: map<nat, nat>, k: Key, rec: Record, era: Option<nat>)
    requires Well(cfg, s) && s.segs[s.active] != [] && s.segs[s.active][|s.segs[s.active]| - 1] == rec && rec.key == k
    requires Cons(s.segs, s.addr, s.discard, m, Bump(l, s.active, |rec.stored|)) && NoFuture(s.active, s.discard)
    ensures Cons(s.segs, s.addr[k := LastRow(s, rec, era)], Charge(s, k), m, l) && NoFuture(s.active, Charge(s, k))
  {
    hide Cons;
    hide NoFuture;
    hide RowOk;
    hide Charge;
    var l1 := Bump(l, s.active, |rec.stored|);
    ConsCharge(cfg, s, m, l1, k);
    ConsAdd(s.segs, s.addr - {k}, Charge(s, k), m, l1, k, LastRow(s, rec, era), l);
    assert (s.addr - {k})[k := LastRow(s, rec, era)] == s.addr[k := LastRow(s, rec, era)];
  }

  lemma PutBalanced(cfg: Config, y: Sys, k: Key, data: Bytes, era: Option<nat>)
    requires GoodZip(cfg) && Safe(cfg, y) && Balanced(y)
    ensures var st := Put(cfg, y.eng, k, data, era);
      && Cons(st.segs, st.addr, st.discard, y.books.moved, y.books.leaked)
      && st.active >= y.eng.active && NoFuture(st.active, st.discard)
  {
    hide Cons;
    hide Append;
    hide RowOk;
    hide Pending;
    var st, m, l := y.eng, y.books.moved, y.books.leaked;
    if GoesInline(cfg, data, era) {
      ConsCharge(cfg, st, m, l, k);
    } else {
      var rec := Pack(cfg, k, data);
      var s := Append(cfg, st, rec);
      ConsAppend(cfg, st, rec, st.discard, m, l);
      AppendGrows(cfg, st, rec);
      PackReads(cfg, k, data);
      LaterNoFuture(st.active, s.active, s.discard);
      hide NoFuture;
      RowBalanced(cfg, s, m, l, k, rec, era);
    }
  }

  lemma LeakBalanced(cfg: Config, y: Sys, rec: Record)
    requires Safe(cfg, y) && Balanced(y)
    ensures var s, l := Append(cfg, y.eng, rec), y.books.leaked;
      && Cons(s.segs, s.addr, s.discard, y.books.moved, Bump(l, s.active, |rec.stored|))
      && NoFuture(s.active, s.discard) && NoFuture(s.active, y.books.moved) && NoFuture(s.active, Bump(l, s.active, |rec.stored|))
      && (forall t :: At(Bump(l, s.active, |rec.stored|), t) == At(l, t) + (if t == s.active then |rec.stored| else 0))
  {
    hide Cons;
    hide Append;
    hide RowOk;
    var st, b, s := y.eng, y.books, Append(cfg, y.eng, rec);
    ConsAppend(cfg, st, rec, st.discard, b.moved, b.leaked);
    AppendGrows(cfg, st, rec);
    LaterNoFuture(st.active, s.active, st.discard);
    LaterNoFuture(st.active, s.active, b.moved);
    LaterNoFuture(st.active, s.active, b.leaked);
    FutureBump(s.active, b.leaked, s.active, |rec.stored|);
  }

  lemma LaterNoFuture(a: nat, b: nat, m: map<nat, nat>)
    requires NoFuture(a, m) && a <= b
    ensures NoFuture(b, m)
  {
  }

  lemma UserBalanced(cfg: Config, r: real, y: Sys, step: Step)
    requires GoodZip(cfg) && Safe(cfg, y) && Balanced(y) && Enabled(r, y, step)
    requires step.DoPut? || step.PutLost? || step.DoDelete? || step.DoSetObj? || step.Rotate? || step.Flush?
    ensures Balanced(Next(cfg, r, y, step))
  {
    hide Append;
    hide Seal;
    hide Put;
    hide Cons;
    hide RowOk;
    hide PendingAt;
    var st, b := y.eng, y.books;
    match step
    case DoPut(k, data, era) =>
      PutBalanced(cfg, y, k, data, era);
      LaterNoFuture(st.active, Put(cfg, st, k, data, era).active, b.moved);
      LaterNoFuture(st.active, Put(cfg, st, k, data, era).active, b.leaked);
    case PutLost(k, data, era) =>
      if !GoesInline(cfg, data, era) {
        LeakBalanced(cfg, y, Pack(cfg, k, data));
        forall s ensures PendingAt(y.gc, s) <= At(Lost(cfg, y, k, data, era).books.leaked, s) {
          assert PendingAt(y.gc, s) <= At(b.leaked, s);
        }
      }
    case DoDelete(k) => ConsCharge(cfg, st, b.moved, b.leaked, k);
    case DoSetObj(k, obj, _) => SetObjCons(cfg, st, b.moved, b.leaked, k, obj);
    case Rotate =>
      ConsSeal(cfg, st, st.discard, b.moved, b.leaked);
      SealKeeps(cfg, st);
      LaterNoFuture(st.active, Seal(cfg, st).active, st.discard);
      LaterNoFuture(st.active, Seal(cfg, st).active, b.moved);
      LaterNoFuture(st.active, Seal(cfg, st).active, b.leaked);
    case Flush =>
  }

  lemma SetObjCons(cfg: Config, st: State, m: map<nat, nat>, l: map<nat, nat>, k: Key, obj: nat)
    requires Cons(st.segs, st.addr, st.discard, m, l)
    ensures Cons(st.segs, SetObj(st, k, obj).addr, st.discard, m, l)
  {
    forall s | s in st.segs ensures Live(SetObj(st, k, obj).addr, s, st.segs[s]) == Live(st.addr, s, st.segs[s]) {
      LiveSame(SetObj(st, k, obj).addr, st.addr, s, st.segs[s]);
    }
  }

  lemma CopyBalanced(cfg: Config, y: Sys)
    requires Safe(cfg, y) && Balanced(y) && y.gc.Checked?
    ensures Balanced(CopyStep(cfg, y))
  {
    hide Append;
    hide Cons;
    hide RowOk;
    hide OrphansAt;
    hide OrphanSum;
    var rec, y2 := y.eng.segs[y.gc.v][y.gc.pos], CopyStep(cfg, y);
    LeakBalanced(cfg, y, rec);
    AppendGrows(cfg, y.eng, rec);
    hide NoFuture;
    forall s ensures PendingAt(y2.gc, s) <= At(y2.books.leaked, s) {
      assert PendingAt(y.gc, s) <= At(y.books.leaked, s);
    }
  }

  lemma MoveBalanced(cfg: Config, y: Sys)
    requires Safe(cfg, y) && Balanced(y) && y.gc.Copied?
    requires PointsAt(y.eng.addr, y.eng.segs[y.gc.v][y.gc.pos].key, y.gc.v, y.gc.pos)
    ensures var y2 := CasStep(y);
      Cons(y2.eng.segs, y2.eng.addr, y2.eng.discard, y2.books.moved, y2.books.leaked)
  {
    hide Cons;
    hide NoFuture;
    hide Live;
    hide Stored;
    hide Unpack;
    hide OrphansAt;
    hide OrphanSum;
    var st, b, to, b2 := y.eng, y.books, y.gc.to, CasStep(y).books;
    var k := st.segs[y.gc.v][y.gc.pos].key;
    assert RowOk(cfg, st.segs, k, st.addr[k]);
    assert st.addr[k].storedLen == to.storedLen;
    ConsDrop(cfg, st.segs, st.addr, st.discard, b.moved, b.leaked, k);
    hide RowOk;
    assert At(b.leaked, to.seg) >= PendingAt(y.gc, to.seg);
    hide PendingAt;
    hide Pending;
    var ne := to.(obj := st.addr[k].obj);
    ConsAdd(st.segs, st.addr - {k}, st.discard, b2.moved, b.leaked, k, ne, b2.leaked);
    assert (st.addr - {k})[k := ne] == st.addr[k := ne];
  }

  lemma FutureLess(active: nat, m: map<nat, nat>, less: map<nat, nat>)
    requires NoFuture(active, m) && forall s :: s > active ==> At(less, s) <= At(m, s)
    ensures NoFuture(active, less)
  {
    forall s | s > active ensures At(less, s) == 0 { assert At(m, s) == 0; }
  }

  lemma HitPending(y: Sys)
    requires Pending(y) && y.gc.Copied? && y.gc.v in y.eng.segs && y.gc.pos < |y.eng.segs[y.gc.v]|
    requires PointsAt(y.eng.addr, y.eng.segs[y.gc.v][y.gc.pos].key, y.gc.v, y.gc.pos)
    ensures Pending(CasStep(y))
    ensures forall s :: s > y.eng.active ==> At(CasStep(y).books.leaked, s) <= At(y.books.leaked, s)
  {
    hide OrphansAt;
    hide OrphanSum;
    hide Cas;
    forall s ensures PendingAt(CasStep(y).gc, s) <= At(CasStep(y).books.leaked, s) {
      assert PendingAt(y.gc, s) <= At(y.books.leaked, s);
    }
  }

  lemma MissPending(y: Sys)
    requires Pending(y) && y.gc.Copied? && y.gc.v in y.eng.segs && y.gc.pos < |y.eng.segs[y.gc.v]|
    requires !PointsAt(y.eng.addr, y.eng.segs[y.gc.v][y.gc.pos].key, y.gc.v, y.gc.pos)
    ensures Pending(CasStep(y))
  {
    MissedStep(y);
    hide CasStep;
    hide PointsAt;
    SamePending(y.gc);
    PendingKept(y, CasStep(y));
  }

  function Missed(gc: Gc): Gc
    requires gc.Copied?
  {
    Scanning(gc.v, gc.pos + 1, gc.orphans + [Orphan(gc.to.seg, gc.to.storedLen)])
  }

  lemma MissedStep(y: Sys)
    requires y.gc.Copied? && y.gc.v in y.eng.segs && y.gc.pos < |y.eng.segs[y.gc.v]|
    requires !PointsAt(y.eng.addr, y.eng.segs[y.gc.v][y.gc.pos].key, y.gc.v, y.gc.pos)
    ensures CasStep(y) == y.(gc := Missed(y.gc))
  {
  }

  lemma SamePending(gc: Gc)
    requires gc.Copied?
    ensures PendingSum(Missed(gc)) == PendingSum(gc) && forall s :: PendingAt(Missed(gc), s) == PendingAt(gc, s)
  {
    OrphansPush(gc.orphans, Orphan(gc.to.seg, gc.to.storedLen));
    hide OrphansAt;
    hide OrphanSum;
  }

  lemma PendingKept(a: Sys, b: Sys)
    requires Pending(a) && b.books == a.books && PendingSum(b.gc) == PendingSum(a.gc)
    requires forall s :: PendingAt(b.gc, s) == PendingAt(a.gc, s)
    ensures Pending(b)
  {
    hide PendingAt;
    hide PendingSum;
    hide At;
    forall s ensures PendingAt(b.gc, s) <= At(b.books.leaked, s) {
      assert PendingAt(a.gc, s) <= At(a.books.leaked, s) && PendingAt(b.gc, s) == PendingAt(a.gc, s);
    }
  }

  /** The swap went through: the copy is no longer leaked or wasted. */
  lemma CasHit(cfg: Config, y: Sys)
    requires Safe(cfg, y) && Balanced(y) && y.gc.Copied?
    requires PointsAt(y.eng.addr, y.eng.segs[y.gc.v][y.gc.pos].key, y.gc.v, y.gc.pos)
    ensures Balanced(CasStep(y))
  {
    hide Cons;
    hide RowsOk;
    hide Pending;
    hide NoFuture;
    MoveBalanced(cfg, y);
    HitPending(y);
    FutureLess(y.eng.active, y.books.leaked, CasStep(y).books.leaked);
    FutureBump(y.eng.active, y.books.moved, y.gc.v, y.gc.to.storedLen);
  }

  lemma CasMissed(cfg: Config, y: Sys)
    requires Safe(cfg, y) && Balanced(y) && y.gc.Copied?
    requires !PointsAt(y.eng.addr, y.eng.segs[y.gc.v][y.gc.pos].key, y.gc.v, y.gc.pos)
    ensures Balanced(CasStep(y))
  {
    hide Cons;
    hide RowsOk;
    hide Pending;
    hide NoFuture;
    MissPending(y);
  }

  lemma CasBalanced(cfg: Config, y: Sys)
    requires Safe(cfg, y) && Balanced(y) && y.gc.Copied?
    ensures Balanced(CasStep(y))
  {
    hide Balanced;
    hide CasStep;
    hide RowsOk;
    if PointsAt(y.eng.addr, y.eng.segs[y.gc.v][y.gc.pos].key, y.gc.v, y.gc.pos) { CasHit(cfg, y); } else { CasMissed(cfg, y); }
  }

  lemma ChargeBalanced(y: Sys)
    requires Balanced(y) && y.gc.Scanning?
    ensures Balanced(ChargeStep(y))
  {
    ChargedAt(y.eng.discard, y.gc.orphans);
    var b, b2, o := y.books, ChargeStep(y).books, y.gc.orphans;
    forall s ensures At(b2.leaked, s) + OrphansAt(o, s) == At(b.leaked, s) {
      assert PendingAt(y.gc, s) <= At(b.leaked, s);
    }
    forall s | s > y.eng.active ensures At(ChargeStep(y).eng.discard, s) == 0 && At(b2.leaked, s) == 0 {
      assert At(y.eng.discard, s) == 0 && At(b.leaked, s) == 0;
      assert At(b2.leaked, s) + OrphansAt(o, s) == At(b.leaked, s);
    }
  }

  lemma RemoveBalanced(cfg: Config, y: Sys, s: nat, addr: map<Key, Addr>)
    requires Balanced(y)
    requires forall k :: k in y.eng.addr && k !in addr ==> y.eng.addr[k].seg == s
    requires forall k :: k in addr ==> k in y.eng.addr && addr[k] == y.eng.addr[k]
    ensures Cons(y.eng.segs - {s}, addr, y.eng.discard - {s}, y.books.moved - {s}, y.books.leaked)
    ensures NoFuture(y.eng.active, y.eng.discard - {s}) && NoFuture(y.eng.active, y.books.moved - {s})
  {
    forall t | t in y.eng.segs && t != s ensures Live(addr, t, y.eng.segs[t]) == Live(y.eng.addr, t, y.eng.segs[t]) {
      LiveSame(addr, y.eng.addr, t, y.eng.segs[t]);
    }
    FutureDrop(y.eng.active, y.eng.discard, s);
    FutureDrop(y.eng.active, y.books.moved, s);
  }

  lemma ConsFewer(a: SegMap, b: SegMap, addr: map<Key, Addr>, d: map<nat, nat>, m: map<nat, nat>, l: map<nat, nat>)
    requires Cons(a, addr, d, m, l)
    requires forall s :: s in b ==> s in a && a[s] == b[s]
    ensures Cons(b, addr, d, m, l)
  {
  }

  /** Collector steps that move no byte. */
  lemma IdleBalanced(cfg: Config, r: real, y: Sys, step: Step)
    requires Safe(cfg, y) && Balanced(y) && Enabled(r, y, step)
    requires step.GcStart? || step.GcCheck? || step.GcFlush? || step.GcAbort?
    ensures Balanced(Next(cfg, r, y, step))
  {
    hide SegLen;
    hide RowsOk;
    hide Cons;
    hide NoFuture;
    assert forall s :: PendingAt(Next(cfg, r, y, step).gc, s) <= PendingAt(y.gc, s);
  }

  lemma StepBalanced(cfg: Config, r: real, y: Sys, step: Step)
    requires GoodZip(cfg) && Safe(cfg, y) && Balanced(y) && Enabled(r, y, step)
    ensures Balanced(Next(cfg, r, y, step))
  {
    hide Append;
    hide Put;
    hide Seal;
    hide SegLen;
    hide RowOk;
    hide Cons;
    hide NoFuture;
    hide RowsOk;
    match step
    case GcCopy => CopyBalanced(cfg, y);
    case GcCas => CasBalanced(cfg, y);
    case GcCharge => ChargeBalanced(y);
    case GcForget =>
      RemoveBalanced(cfg, y, y.gc.v, y.eng.addr);
      assert y.eng.segs - {y.gc.v} == y.eng.segs;
    case Sweep(s) => RemoveBalanced(cfg, y, s, y.eng.addr);
    case DoEvict(s, dropped) =>
      assert dropped == KeysIn(y.eng.addr, s);
      RemoveBalanced(cfg, y, s, y.eng.addr - dropped);
    case GcUnlink => ConsFewer(y.eng.segs, y.eng.segs - {y.gc.v}, y.eng.addr, y.eng.discard, y.books.moved, y.books.leaked);
    case _ =>
      if step.GcStart? || step.GcCheck? || step.GcFlush? || step.GcAbort? {
        IdleBalanced(cfg, r, y, step);
      } else {
        UserBalanced(cfg, r, y, step);
      }
  }

  // ----- totals over the whole shard

  lemma RowSumSet(addr: map<Key, Addr>, k: Key, a: Addr)
    ensures RowSum(addr[k := a]) + (if k in addr then addr[k].storedLen else 0) == RowSum(addr) + a.storedLen
  {
    SumUpdate(Lens(addr), k, a.storedLen);
    assert Lens(addr[k := a]) == Lens(addr)[k := a.storedLen];
  }

  lemma RowSumDrop(addr: map<Key, Addr>, k: Key)
    ensures RowSum(addr - {k}) + (if k in addr then addr[k].storedLen else 0) == RowSum(addr)
  {
    SumDrop(Lens(addr), k);
    assert Lens(addr - {k}) == Lens(addr) - {k};
  }

  lemma {:induction false} RowSumFewer(addr: map<Key, Addr>, gone: set<Key>)
    ensures RowSum(addr - gone) <= RowSum(addr)
    decreases gone
  {
    if gone == {} {
      assert addr - gone == addr;
    } else {
      var k :| k in gone;
      RowSumFewer(addr - {k}, gone - {k});
      RowSumDrop(addr, k);
      assert addr - {k} - (gone - {k}) == addr - gone;
    }
  }

  /** Rewritten bytes are moved or wasted; rows, discard counters and retired counters never exceed what was charged for. */
  ghost predicate Totals(y: Sys) {
    && y.books.rewritten == Sum(y.books.moved) + y.books.retiredMoved + y.books.wasted
    && RowSum(y.eng.addr) + Sum(y.eng.discard) + y.books.retired <= y.books.user + y.books.orphanCharged
  }

  lemma ChargeSum(st: State, k: Key)
    ensures RowSum(st.addr - {k}) + Sum(Charge(st, k)) == RowSum(st.addr) + Sum(st.discard)
  {
    RowSumDrop(st.addr, k);
    if k in st.addr {
      SumUpdate(st.discard, st.addr[k].seg, At(st.discard, st.addr[k].seg) + st.addr[k].storedLen);
    }
  }

  lemma PutTotals(cfg: Config, y: Sys, k: Key, data: Bytes, era: Option<nat>)
    requires Well(cfg, y.eng)
    ensures var st := Put(cfg, y.eng, k, data, era);
      RowSum(st.addr) + Sum(st.discard) == RowSum(y.eng.addr) + Sum(y.eng.discard) + UserBytes(cfg, k, data, era)
  {
    hide RowSum;
    hide RowsOk;
    ChargeSum(y.eng, k);
    if !GoesInline(cfg, data, era) {
      var rec := Pack(cfg, k, data);
      AppendGrows(cfg, y.eng, rec);
      hide Append;
      hide Pack;
      RowSumSet(y.eng.addr, k, LastRow(Append(cfg, y.eng, rec), rec, era));
      RowSumDrop(y.eng.addr, k);
    }
  }

  lemma MovedTotals(y: Sys)
    requires Totals(y) && Pending(y) && y.gc.Copied? && y.gc.v in y.eng.segs && y.gc.pos < |y.eng.segs[y.gc.v]|
    requires var k := y.eng.segs[y.gc.v][y.gc.pos].key; k in y.eng.addr ==> y.eng.addr[k].storedLen == y.gc.to.storedLen
    ensures Totals(CasStep(y))
  {
    hide RowSum;
    var rec, v, n := y.eng.segs[y.gc.v][y.gc.pos], y.gc.v, y.gc.to.storedLen;
    if PointsAt(y.eng.addr, rec.key, v, y.gc.pos) {
      SumUpdate(y.books.moved, v, At(y.books.moved, v) + n);
      RowSumSet(y.eng.addr, rec.key, CasStep(y).eng.addr[rec.key]);
    }
  }

  lemma RetireTotals(y: Sys, s: nat, gone: set<Key>)
    requires Totals(y)
    ensures var b := Retire(y.books, y.eng.discard, s);
      && b.rewritten == Sum(b.moved) + b.retiredMoved + b.wasted
      && RowSum(y.eng.addr - gone) + Sum(y.eng.discard - {s}) + b.retired <= b.user + b.orphanCharged
  {
    hide RowSum;
    SumDrop(y.books.moved, s);
    SumDrop(y.eng.discard, s);
    RowSumFewer(y.eng.addr, gone);
  }

  lemma UserTotals(cfg: Config, r: real, y: Sys, step: Step)
    requires GoodZip(cfg) && Safe(cfg, y) && Totals(y) && Enabled(r, y, step)
    requires step.DoPut? || step.PutLost? || step.DoDelete? || step.DoSetObj? || step.Rotate? || step.Flush?
    ensures Totals(Next(cfg, r, y, step))
  {
    hide Append;
    hide Seal;
    hide Put;
    hide Charge;
    hide Pack;
    hide SegLen;
    hide RowSum;
    hide RowsOk;
    hide GcOk;
    var st := y.eng;
    match step
    case DoPut(k, data, era) => PutTotals(cfg, y, k, data, era);
    case PutLost(k, data, era) =>
      if !GoesInline(cfg, data, era) { AppendGrows(cfg, st, Pack(cfg, k, data)); }
    case DoDelete(k) => ChargeSum(st, k);
    case DoSetObj(k, obj, _) =>
      if k in st.addr { RowSumSet(st.addr, k, st.addr[k].(obj := Some(obj))); }
    case Rotate => SealKeeps(cfg, st);
    case _ =>
  }

  lemma StepTotals(cfg: Config, r: real, y: Sys, step: Step)
    requires GoodZip(cfg) && Safe(cfg, y) && Balanced(y) && Totals(y) && Enabled(r, y, step)
    ensures Totals(Next(cfg, r, y, step))
  {
    if step.DoPut? || step.PutLost? || step.DoDelete? || step.DoSetObj? || step.Rotate? || step.Flush? {
      UserTotals(cfg, r, y, step);
    } else {
      GcTotals(cfg, r, y, step);
    }
    hide *;
  }

  lemma GcTotals(cfg: Config, r: real, y: Sys, step: Step)
    requires GoodZip(cfg) && Safe(cfg, y) && Balanced(y) && Totals(y) && Enabled(r, y, step)
    requires !(step.DoPut? || step.PutLost? || step.DoDelete? || step.DoSetObj? || step.Rotate? || step.Flush?)
    ensures Totals(Next(cfg, r, y, step))
  {
    hide Append;
    hide SegLen;
    hide RowSum;
    hide Cons;
    hide NoFuture;
    hide RowsOk;
    hide Sync;
    var st := y.eng;
    match step
    case GcFlush => SyncKeeps(cfg, st);
    case GcCopy => AppendGrows(cfg, st, st.segs[y.gc.v][y.gc.pos]);
    case GcCas => CasTotals(cfg, y);
    case GcCharge => ChargedAt(st.discard, y.gc.orphans);
    case GcForget => RetireTotals(y, y.gc.v, {}); assert st.addr - {} == st.addr;
    case Sweep(s) => RetireTotals(y, s, {}); assert st.addr - {} == st.addr;
    case DoEvict(s, dropped) => RetireTotals(y, s, dropped);
    case _ =>
  }

  lemma CasTotals(cfg: Config, y: Sys)
    requires Safe(cfg, y) && Balanced(y) && Totals(y) && y.gc.Copied?
    ensures Totals(CasStep(y))
  {
    hide RowSum;
    hide Cons;
    var rec := y.eng.segs[y.gc.v][y.gc.pos];
    if PointsAt(y.eng.addr, rec.key, y.gc.v, y.gc.pos) {
      assert RowOk(cfg, y.eng.segs, rec.key, y.eng.addr[rec.key]);
      MovedTotals(y);
    }
  }

  // ----- the discard ratio pays for the move

  /** m bytes moved are paid for by d discarded bytes at ratio r: r * m <= (1 - r) * d. */
  ghost predicate Paid(r: real, m: nat, d: nat) { r * (m as real) <= (1.0 - r) * (d as real) }

  lemma PaidMono(r: real, m: nat, d: nat, m2: nat, d2: nat)
    requires 0.0 < r <= 1.0 && Paid(r, m, d) && m2 <= m && d <= d2
    ensures Paid(r, m2, d2)
  {
    assert r * (m2 as real) <= r * (m as real);
    assert (1.0 - r) * (d as real) <= (1.0 - r) * (d2 as real);
  }

  lemma PaidAdd(r: real, m: nat, d: nat, m2: nat, d2: nat)
    requires Paid(r, m, d) && Paid(r, m2, d2)
    ensures Paid(r, m + m2, d + d2)
  {
    assert r * ((m + m2) as real) == r * (m as real) + r * (m2 as real);
    assert (1.0 - r) * ((d + d2) as real) == (1.0 - r) * (d as real) + (1.0 - r) * (d2 as real);
  }

  lemma {:induction false} PaidSum(r: real, m: map<nat, nat>, d: map<nat, nat>)
    requires 0.0 < r <= 1.0 && forall s :: Paid(r, At(m, s), At(d, s))
    ensures Paid(r, Sum(m), Sum(d))
    decreases |m|
  {
    hide Paid;
    if m == map[] {
      assert Paid(r, At(m, 0), At(d, 0));
      PaidMono(r, At(m, 0), At(d, 0), 0, At(d, 0));
      assert Paid(r, 0, Sum(d)) by { PaidZero(r, Sum(d)); }
    } else {
      var s :| s in m;
      forall t ensures Paid(r, At(m - {s}, t), At(d - {s}, t)) {
        assert Paid(r, At(m, t), At(d, t));
        if t == s { PaidZero(r, 0); }
      }
      PaidSum(r, m - {s}, d - {s});
      SumDrop(m, s);
      SumDrop(d, s);
      PaidAdd(r, Sum(m - {s}), Sum(d - {s}), At(m, s), At(d, s));
    }
  }

  lemma PaidZero(r: real, d: nat)
    requires 0.0 < r <= 1.0
    ensures Paid(r, 0, d)
  {
  }

  function VictimOf(gc: Gc): Option<nat> {
    match gc
    case Scanning(v, _, _) => Some(v)
    case Checked(v, _, _) => Some(v)
    case Copied(v, _, _, _) => Some(v)
    case _ => None
  }

  /** Everything moved out of a segment, and everything that may still be, is paid for by its discard counter. */
  ghost predicate Ratio(r: real, y: Sys) {
    && Paid(r, y.books.retiredMoved, y.books.retired)
    && (forall s :: Paid(r, At(y.books.moved, s), At(y.eng.discard, s)))
    && (VictimOf(y.gc).Some? && VictimOf(y.gc).value in y.eng.segs ==>
          var v := VictimOf(y.gc).value;
          Paid(r, At(y.books.moved, v) + Live(y.eng.addr, v, y.eng.segs[v]), At(y.eng.discard, v)))
  }

  lemma {:induction false} StoredFits(recs: seq<Record>)
    ensures Stored(recs) <= SegLen(recs)
  {
    if recs != [] {
      var i := |recs| - 1;
      StoredFits(recs[..i]);
      SegLenConcat(recs[..i], [recs[i]]);
      assert recs == recs[..i] + [recs[i]];
      assert SegLen([recs[i]]) == recs[i].Size() + SegLen([]);
    }
  }

  lemma VictimPaid(r: real, y: Sys, v: nat)
    requires 0.0 < r <= 1.0 && Balanced(y) && IsVictim(r, y.eng, v)
    ensures Paid(r, At(y.books.moved, v) + Live(y.eng.addr, v, y.eng.segs[v]), At(y.eng.discard, v))
  {
    hide Paid;
    hide WorthIt;
    hide Balanced;
    VictimStake(y, v);
    RatioPays(r, At(y.books.moved, v) + Live(y.eng.addr, v, y.eng.segs[v]), At(y.eng.discard, v), SegLen(y.eng.segs[v]));
  }

  lemma VictimStake(y: Sys, v: nat)
    requires Balanced(y) && v in y.eng.segs
    ensures At(y.books.moved, v) + Live(y.eng.addr, v, y.eng.segs[v]) + At(y.eng.discard, v) <= SegLen(y.eng.segs[v])
  {
    hide Pending;
    StoredFits(y.eng.segs[v]);
  }

  lemma RatioPays(r: real, m: nat, d: nat, len: nat)
    requires 0.0 < r <= 1.0 && m + d <= len && WorthIt(r, d, len)
    ensures Paid(r, m, d)
  {
    Scale(r, (m + d) as real, len as real);
    assert r * ((m + d) as real) == r * (m as real) + r * (d as real);
    assert (1.0 - r) * (d as real) == d as real - r * (d as real);
  }

  lemma Scale(c: real, x: real, y: real)
    requires 0.0 <= c && x <= y
    ensures c * x <= c * y
  {
  }

  function AtStake(y: Sys, v: nat): nat
    requires v in y.eng.segs
  {
    At(y.books.moved, v) + Live(y.eng.addr, v, y.eng.segs[v])
  }

  /** Between two balanced states, what is moved or live in the victim can only shrink. */
  lemma StakeShrinks(y: Sys, y2: Sys, v: nat)
    requires Balanced(y) && Balanced(y2) && v in y.eng.segs && v in y2.eng.segs && y2.eng.segs[v] == y.eng.segs[v]
    requires At(y.eng.discard, v) <= At(y2.eng.discard, v) && At(y.books.leaked, v) <= At(y2.books.leaked, v)
    ensures AtStake(y2, v) <= AtStake(y, v)
  {
  }

  /** Rows and counters changed so that no segment is worse off. */
  lemma RatioKept(r: real, y: Sys, y2: Sys)
    requires 0.0 < r <= 1.0 && Ratio(r, y)
    requires y2.books.retiredMoved == y.books.retiredMoved && y2.books.retired == y.books.retired
    requires forall s :: At(y.eng.discard, s) <= At(y2.eng.discard, s)
    requires forall s: nat ::
      At(y2.books.moved, s) <= (if VictimOf(y.gc) == Some(s) && s in y.eng.segs then AtStake(y, s) else At(y.books.moved, s))
    requires VictimOf(y2.gc).Some? ==>
      var v := VictimOf(y2.gc).value;
      VictimOf(y.gc) == Some(v) && v in y.eng.segs && v in y2.eng.segs && AtStake(y2, v) <= AtStake(y, v)
    ensures Ratio(r, y2)
  {
    hide Paid;
    forall s ensures Paid(r, At(y2.books.moved, s), At(y2.eng.discard, s)) {
      assert Paid(r, At(y.books.moved, s), At(y.eng.discard, s));
      if At(y2.books.moved, s) <= At(y.books.moved, s) {
        PaidMono(r, At(y.books.moved, s), At(y.eng.discard, s), At(y2.books.moved, s), At(y2.eng.discard, s));
      } else {
        PaidMono(r, AtStake(y, s), At(y.eng.discard, s), At(y2.books.moved, s), At(y2.eng.discard, s));
      }
    }
    if VictimOf(y2.gc).Some? {
      var v := VictimOf(y2.gc).value;
      PaidMono(r, AtStake(y, v), At(y.eng.discard, v), AtStake(y2, v), At(y2.eng.discard, v));
    }
  }

  lemma RetireRatio(r: real, y: Sys, s: nat, y2: Sys)
    requires 0.0 < r <= 1.0 && Ratio(r, y) && VictimOf(y2.gc).None?
    requires y2.eng.discard == y.eng.discard - {s}
    requires y2.books == Retire(y.books, y.eng.discard, s)
    ensures Ratio(r, y2)
  {
    hide Paid;
    assert Paid(r, At(y.books.moved, s), At(y.eng.discard, s));
    PaidAdd(r, y.books.retiredMoved, y.books.retired, At(y.books.moved, s), At(y.eng.discard, s));
    forall t ensures Paid(r, At(y2.books.moved, t), At(y2.eng.discard, t)) {
      assert Paid(r, At(y.books.moved, t), At(y.eng.discard, t));
      if t == s { PaidZero(r, 0); }
    }
  }

  /** User operations leave the victim's records alone and only raise counters. */
  lemma UserCounters(cfg: Config, r: real, y: Sys, step: Step, v: nat)
    requires GoodZip(cfg) && Safe(cfg, y) && Enabled(r, y, step)
    requires step.DoPut? || step.PutLost? || step.DoDelete? || step.DoSetObj? || step.Rotate? || step.Flush?
    ensures var y2 := Next(cfg, r, y, step);
      && y2.books.moved == y.books.moved && y2.books.retired == y.books.retired && y2.books.retiredMoved == y.books.retiredMoved
      && y2.gc == y.gc && At(y.eng.discard, v) <= At(y2.eng.discard, v) && At(y.books.leaked, v) <= At(y2.books.leaked, v)
      && (Sealed(y.eng, v) ==> v in y2.eng.segs && y2.eng.segs[v] == y.eng.segs[v])
  {
    hide Pack;
    hide RowsOk;
    hide GcOk;
    hide View;
    hide SegLen;
    hide Append;
    hide Sync;
    match step
    case DoPut(k, data, era) => AppendAlone(cfg, y.eng, Pack(cfg, k, data), v);
    case PutLost(k, data, era) => AppendAlone(cfg, y.eng, Pack(cfg, k, data), v);
    case Flush => SyncKeeps(cfg, y.eng);
    case _ =>
  }

  lemma AppendAlone(cfg: Config, st: State, rec: Record, v: nat)
    requires Well(cfg, st)
    ensures var s := Append(cfg, st, rec); s.discard == st.discard && (Sealed(st, v) ==> v in s.segs && s.segs[v] == st.segs[v])
  {
    AppendGrows(cfg, st, rec);
    if Sealed(st, v) { SealedUntouched(cfg, st, rec, v); }
    hide *;
  }

  lemma UserRatio(cfg: Config, r: real, y: Sys, step: Step)
    requires GoodZip(cfg) && Safe(cfg, y) && Balanced(y) && 0.0 < r <= 1.0 && Ratio(r, y) && Enabled(r, y, step)
    requires step.DoPut? || step.PutLost? || step.DoDelete? || step.DoSetObj? || step.Rotate? || step.Flush?
    ensures Ratio(r, Next(cfg, r, y, step))
  {
    var y2 := Next(cfg, r, y, step);
    StepBalanced(cfg, r, y, step);
    forall s
      ensures At(y.eng.discard, s) <= At(y2.eng.discard, s) && At(y2.books.moved, s) <= At(y.books.moved, s)
    {
      UserCounters(cfg, r, y, step, s);
    }
    UserCounters(cfg, r, y, step, 0);
    if VictimOf(y.gc).Some? {
      UserCounters(cfg, r, y, step, VictimOf(y.gc).value);
      VictimSealed(cfg, y);
      hide *;
      StakeShrinks(y, y2, VictimOf(y.gc).value);
    }
    hide *;
    RatioKept(r, y, y2);
  }

  lemma VictimSealed(cfg: Config, y: Sys)
    requires Safe(cfg, y) && VictimOf(y.gc).Some?
    ensures Sealed(y.eng, VictimOf(y.gc).value)
  {
  }

  lemma CopyRatio(cfg: Config, r: real, y: Sys)
    requires Safe(cfg, y) && Balanced(y) && 0.0 < r <= 1.0 && Ratio(r, y) && y.gc.Checked?
    ensures Ratio(r, CopyStep(cfg, y))
  {
    var y2, v, rec := CopyStep(cfg, y), y.gc.v, y.eng.segs[y.gc.v][y.gc.pos];
    CopyBalanced(cfg, y);
    AppendGrows(cfg, y.eng, rec);
    SealedUntouched(cfg, y.eng, rec, v);
    hide Append;
    hide Ratio;
    hide Balanced;
    StakeShrinks(y, y2, v);
    RatioKept(r, y, y2);
  }

  lemma CasRatio(cfg: Config, r: real, y: Sys)
    requires Safe(cfg, y) && Balanced(y) && 0.0 < r <= 1.0 && Ratio(r, y) && y.gc.Copied?
    ensures Ratio(r, CasStep(y))
  {
    var y2, v := CasStep(y), y.gc.v;
    CasBalanced(cfg, y);
    hide Ratio;
    hide Balanced;
    hide RowsOk;
    StakeShrinks(y, y2, v);
    RatioKept(r, y, y2);
  }

  lemma PassRatio(r: real, y: Sys, y2: Sys)
    requires 0.0 < r <= 1.0 && Balanced(y) && Ratio(r, y)
    requires y2.books == y.books && y2.eng.discard == y.eng.discard && y2.eng.addr == y.eng.addr
    requires VictimOf(y2.gc).Some? ==> VictimOf(y2.gc).value in y.eng.segs && y2.eng.segs == y.eng.segs
    requires VictimOf(y2.gc).Some? ==> VictimOf(y.gc) == VictimOf(y2.gc) || IsVictim(r, y.eng, VictimOf(y2.gc).value)
    ensures Ratio(r, y2)
  {
    hide Paid;
    hide Balanced;
    hide IsVictim;
    if VictimOf(y2.gc).Some? && VictimOf(y.gc) != VictimOf(y2.gc) { VictimPaid(r, y, VictimOf(y2.gc).value); }
  }

  lemma StepRatio(cfg: Config, r: real, y: Sys, step: Step)
    requires GoodZip(cfg) && Safe(cfg, y) && Balanced(y) && 0.0 < r <= 1.0 && Ratio(r, y) && Enabled(r, y, step)
    ensures Ratio(r, Next(cfg, r, y, step))
  {
    hide Append;
    hide Put;
    hide Seal;
    hide RowsOk;
    hide Balanced;
    hide IsVictim;
    hide Ratio;
    var y2 := Next(cfg, r, y, step);
    match step
    case GcCopy => CopyRatio(cfg, r, y);
    case GcCas => CasRatio(cfg, r, y);
    case GcCharge =>
      ChargedAt(y.eng.discard, y.gc.orphans);
      RatioKept(r, y, y2);
    case GcForget => RetireRatio(r, y, y.gc.v, y2);
    case Sweep(s) => RetireRatio(r, y, s, y2);
    case DoEvict(s, _) => RetireRatio(r, y, s, y2);
    case GcStart(v) => assert v in y.eng.segs by { VictimExists(r, y.eng, v); } PassRatio(r, y, y2);
    case GcCheck => PassRatio(r, y, y2);
    case GcFlush => PassRatio(r, y, y2);
    case GcUnlink => PassRatio(r, y, y2);
    case GcAbort => PassRatio(r, y, y2);
    case _ => UserRatio(cfg, r, y, step);
  }

  lemma VictimExists(r: real, st: State, v: nat)
    requires IsVictim(r, st, v)
    ensures v in st.segs
  {
  }

  // ----- the bound over whole runs

  ghost predicate Accounted(cfg: Config, r: real, y: Sys) {
    Safe(cfg, y) && Balanced(y) && Totals(y) && Ratio(r, y)
  }

  lemma FreshBooks(cfg: Config, r: real)
    requires 0.0 < r <= 1.0
    ensures Accounted(cfg, r, Fresh())
  {
    FreshSafe(cfg);
    FreshBalanced();
    FreshTotals();
    FreshRatio(r);
    hide *;
    assert Accounted(cfg, r, Fresh());
  }

  lemma FreshBalanced()
    ensures Balanced(Fresh())
  {
    assert Stored([]) == 0;
  }

  lemma FreshTotals()
    ensures Totals(Fresh())
  {
    assert Lens(Fresh().eng.addr) == map[];
  }

  lemma FreshRatio(r: real)
    requires 0.0 < r <= 1.0
    ensures Ratio(r, Fresh())
  {
    hide SegLen;
  }

  lemma {:induction false} RunBooks(cfg: Config, r: real, y: Sys, steps: seq<Step>)
    requires GoodZip(cfg) && 0.0 < r <= 1.0 && Accounted(cfg, r, y) && Feasible(cfg, r, y, steps)
    ensures Accounted(cfg, r, Run(cfg, r, y, steps))
    decreases |steps|
  {
    hide Next;
    hide Enabled;
    hide Safe;
    hide Balanced;
    hide Totals;
    hide Ratio;
    if steps != [] {
      StepSafe(cfg, r, y, steps[0]);
      StepBalanced(cfg, r, y, steps[0]);
      StepTotals(cfg, r, y, steps[0]);
      StepRatio(cfg, r, y, steps[0]);
      RunBooks(cfg, r, Next(cfg, r, y, steps[0]), steps[1..]);
    }
  }

  lemma BooksBound(cfg: Config, r: real, y: Sys)
    requires 0.0 < r <= 1.0 && Accounted(cfg, r, y)
    ensures Bounded(r, y.books)
  {
    hide Bounded;
    hide Safe;
    hide Cons;
    hide NoFuture;
    hide RowSum;
    hide Paid;
    hide RowsOk;
    hide PendingAt;
    var b, d := y.books, Sum(y.eng.discard);
    PaidSum(r, b.moved, y.eng.discard);
    PaidAdd(r, Sum(b.moved), d, b.retiredMoved, b.retired);
    PaidBound(r, Sum(b.moved) + b.retiredMoved, d + b.retired, b);
  }

  /** Rewritten bytes against user bytes, at discard ratio r. */
  ghost predicate Bounded(r: real, b: Books) {
    && r * (b.rewritten as real) <= (1.0 - r) * (b.user as real) + (b.wasted as real)
    && r * ((b.user + b.rewritten) as real) <= (b.user + b.wasted) as real
  }

  lemma PaidBound(r: real, m: nat, d: nat, b: Books)
    requires 0.0 < r <= 1.0 && Paid(r, m, d) && d <= b.user + b.wasted && b.rewritten == m + b.wasted
    ensures Bounded(r, b)
  {
    var u, w := b.user as real, b.wasted as real;
    Scale(1.0 - r, d as real, u + w);
    assert (1.0 - r) * (u + w) == (1.0 - r) * u + (1.0 - r) * w;
    assert (1.0 - r) * w == w - r * w && (1.0 - r) * u == u - r * u;
    assert r * (b.rewritten as real) == r * (m as real) + r * w;
    assert r * ((b.user + b.rewritten) as real) == r * u + r * (b.rewritten as real);
  }

  /**
   Lifetime write amplification, over every run of a fresh shard with any interleaving and any aborted passes:
   all bytes ever appended are at most (user bytes + wasted copies) / r.
   */
  lemma WriteAmplification(cfg: Config, r: real, steps: seq<Step>)
    requires GoodZip(cfg) && 0.0 < r <= 1.0 && Feasible(cfg, r, Fresh(), steps)
    ensures Bounded(r, Run(cfg, r, Fresh(), steps).books)
  {
    hide *;
    FreshBooks(cfg, r);
    RunBooks(cfg, r, Fresh(), steps);
    BooksBound(cfg, r, Run(cfg, r, Fresh(), steps));
  }

  // ----- when nothing is wasted

  /** Between a liveness check and its compare-and-swap the collector runs undisturbed. */
  ghost predicate Calm(y: Sys, step: Step) { (y.gc.Checked? ==> step.GcCopy?) && (y.gc.Copied? ==> step.GcCas?) }

  ghost predicate CalmRun(cfg: Config, r: real, y: Sys, steps: seq<Step>)
    requires Feasible(cfg, r, y, steps)
    decreases |steps|
  {
    steps == [] || (Calm(y, steps[0]) && CalmRun(cfg, r, Next(cfg, r, y, steps[0]), steps[1..]))
  }

  /** The record being copied is still pointed at, and only its own copy is outstanding. */
  ghost predicate Undisturbed(y: Sys) {
    && (y.gc.Checked? || y.gc.Copied? ==>
          && y.gc.v in y.eng.segs && y.gc.pos < |y.eng.segs[y.gc.v]|
          && PointsAt(y.eng.addr, y.eng.segs[y.gc.v][y.gc.pos].key, y.gc.v, y.gc.pos))
    && y.books.wasted == (if y.gc.Copied? then y.gc.to.storedLen else 0)
  }

  lemma CalmStep(cfg: Config, r: real, y: Sys, step: Step)
    requires Safe(cfg, y) && Undisturbed(y) && Enabled(r, y, step) && Calm(y, step)
    ensures Undisturbed(Next(cfg, r, y, step))
  {
    hide SegLen;
    hide Pack;
    hide RowsOk;
    hide Append;
    if step.GcCopy? {
      var rec := y.eng.segs[y.gc.v][y.gc.pos];
      AppendGrows(cfg, y.eng, rec);
      SealedUntouched(cfg, y.eng, rec, y.gc.v);
    }
  }

  lemma {:induction false} CalmNothingWasted(cfg: Config, r: real, y: Sys, steps: seq<Step>)
    requires GoodZip(cfg) && Safe(cfg, y) && Undisturbed(y) && Feasible(cfg, r, y, steps) && CalmRun(cfg, r, y, steps)
    ensures Undisturbed(Run(cfg, r, y, steps))
    decreases |steps|
  {
    hide Next;
    hide Enabled;
    hide Safe;
    hide Undisturbed;
    hide Calm;
    if steps != [] {
      StepSafe(cfg, r, y, steps[0]);
      CalmStep(cfg, r, y, steps[0]);
      CalmNothingWasted(cfg, r, Next(cfg, r, y, steps[0]), steps[1..]);
    }
  }

  /** The documented bound: when no record changes between its check and its move, all appended bytes are at most user bytes / r. */
  lemma SequentialWriteAmplification(cfg: Config, r: real, steps: seq<Step>)
    requires GoodZip(cfg) && 0.0 < r <= 1.0 && Feasible(cfg, r, Fresh(), steps) && CalmRun(cfg, r, Fresh(), steps)
    requires !Run(cfg, r, Fresh(), steps).gc.Copied?
    ensures var b := Run(cfg, r, Fresh(), steps).books;
      b.wasted == 0 && r * ((b.user + b.rewritten) as real) <= b.user as real
  {
    hide Feasible;
    hide Run;
    hide CalmRun;
    CalmNothingWasted(cfg, r, Fresh(), steps);
    WriteAmplification(cfg, r, steps);
  }

  // ----- exact conservation in crash-free sequential runs

  ghost predicate Clean(y: Sys, step: Step) { Calm(y, step) && !step.PutLost? && !step.GcAbort? }

  ghost predicate CleanRun(cfg: Config, r: real, y: Sys, steps: seq<Step>)
    requires Feasible(cfg, r, y, steps)
    decreases |steps|
  {
    steps == [] || (Clean(y, steps[0]) && CleanRun(cfg, r, Next(cfg, r, y, steps[0]), steps[1..]))
  }

  /** Nothing is leaked except the copy in flight, there are no orphans, and only the current victim has moved bytes. */
  ghost predicate Tidy(y: Sys) {
    && (forall s :: At(y.books.leaked, s) == (if y.gc.Copied? && y.gc.to.seg == s then y.gc.to.storedLen else 0))
    && (forall s :: At(y.books.moved, s) > 0 ==> !y.gc.Idle? && y.gc.v == s)
    && (y.gc.Scanning? || y.gc.Checked? || y.gc.Copied? ==> y.gc.orphans == [])
  }

  lemma CleanStep(cfg: Config, r: real, y: Sys, step: Step)
    requires Safe(cfg, y) && Undisturbed(y) && Tidy(y) && Enabled(r, y, step) && Clean(y, step)
    ensures Tidy(Next(cfg, r, y, step))
  {
    hide SegLen;
    hide Pack;
    hide RowsOk;
    hide Append;
    hide Put;
    hide Seal;
    hide Sync;
    hide CasStep;
    hide ChargeStep;
    hide CopyStep;
    if step.GcCas? {
      CasTidy(cfg, y);
    } else if step.GcCharge? {
      ChargeTidy(y);
    } else if step.GcCopy? {
      CopyTidy(cfg, y);
    } else {
      TidyFrame(y, Next(cfg, r, y, step));
    }
  }

  lemma CasTidy(cfg: Config, y: Sys)
    requires Safe(cfg, y) && Undisturbed(y) && Tidy(y) && y.gc.Copied?
    ensures Tidy(CasStep(y))
  {
    hide RowsOk;
    var y2 := CasStep(y);
    forall s
      ensures At(y2.books.leaked, s) == 0 && (At(y2.books.moved, s) > 0 ==> y2.gc.v == s)
    {
      assert At(y.books.leaked, s) == (if y.gc.to.seg == s then y.gc.to.storedLen else 0);
      assert At(y.books.leaked, y.gc.to.seg) == y.gc.to.storedLen;
      assert At(y.books.moved, s) > 0 ==> y.gc.v == s;
    }
  }

  lemma ChargeTidy(y: Sys)
    requires Tidy(y) && y.gc.Scanning?
    ensures Tidy(ChargeStep(y))
  {
    hide ChargeOrphans;
    forall s ensures At(ChargeStep(y).books.leaked, s) == 0 { assert At(y.books.leaked, s) == 0; }
  }

  lemma CopyTidy(cfg: Config, y: Sys)
    requires Safe(cfg, y) && Tidy(y) && y.gc.Checked?
    ensures Tidy(CopyStep(cfg, y))
  {
    hide RowsOk;
    hide Append;
    var y2 := CopyStep(cfg, y);
    AppendGrows(cfg, y.eng, y.eng.segs[y.gc.v][y.gc.pos]);
    hide View;
    forall s
      ensures At(y2.books.leaked, s) == (if y2.gc.to.seg == s then y2.gc.to.storedLen else 0)
    {
      assert At(y.books.leaked, s) == 0;
    }
  }

  lemma TidyFrame(y: Sys, y2: Sys)
    requires Tidy(y) && y2.books.leaked == y.books.leaked
    requires y.gc.Copied? ==> y2.gc == y.gc
    requires !y2.gc.Copied? || y2.gc == y.gc
    requires (forall s :: At(y2.books.moved, s) == At(y.books.moved, s) || At(y2.books.moved, s) == 0)
    requires y2.gc.Idle? ==> y.gc.Idle? || At(y2.books.moved, y.gc.v) == 0
    requires !y2.gc.Idle? && !y.gc.Idle? ==> y2.gc.v == y.gc.v
    requires y2.gc.Scanning? || y2.gc.Checked? || y2.gc.Copied? ==>
      y2.gc.orphans == (if y.gc.Idle? || y.gc.Charged? || y.gc.Flushed? || y.gc.Unlinked? then [] else y.gc.orphans)
    ensures Tidy(y2)
  {
    forall s ensures At(y2.books.leaked, s) == (if y2.gc.Copied? && y2.gc.to.seg == s then y2.gc.to.storedLen else 0) {
      assert At(y.books.leaked, s) == (if y.gc.Copied? && y.gc.to.seg == s then y.gc.to.storedLen else 0);
    }
    forall s | At(y2.books.moved, s) > 0 ensures !y2.gc.Idle? && y2.gc.v == s {
      assert At(y.books.moved, s) > 0;
    }
  }

  lemma {:induction false} CleanTidy(cfg: Config, r: real, y: Sys, steps: seq<Step>)
    requires GoodZip(cfg) && Safe(cfg, y) && Undisturbed(y) && Tidy(y) && Feasible(cfg, r, y, steps) && CleanRun(cfg, r, y, steps)
    ensures Tidy(Run(cfg, r, y, steps))
    decreases |steps|
  {
    hide Next;
    hide Enabled;
    hide Safe;
    hide Undisturbed;
    hide Tidy;
    hide Calm;
    if steps != [] {
      StepSafe(cfg, r, y, steps[0]);
      CalmStep(cfg, r, y, steps[0]);
      CleanStep(cfg, r, y, steps[0]);
      CleanTidy(cfg, r, Next(cfg, r, y, steps[0]), steps[1..]);
    }
  }

  /**
   In every crash-free sequential run, between collector passes, the stored bytes of each segment are exactly its
   live bytes plus its discard counter.
   */
  lemma SegmentConservation(cfg: Config, r: real, steps: seq<Step>)
    requires GoodZip(cfg) && 0.0 < r <= 1.0 && Feasible(cfg, r, Fresh(), steps) && CleanRun(cfg, r, Fresh(), steps)
    requires Run(cfg, r, Fresh(), steps).gc.Idle?
    ensures var st := Run(cfg, r, Fresh(), steps).eng;
      forall s :: s in st.segs ==> Stored(st.segs[s]) == Live(st.addr, s, st.segs[s]) + At(st.discard, s)
  {
    FreshBooks(cfg, r);
    RunBooks(cfg, r, Fresh(), steps);
    assert Undisturbed(Fresh()) && Tidy(Fresh()) && Safe(cfg, Fresh());
    CleanTidy(cfg, r, Fresh(), steps);
    hide Feasible;
    hide Run;
    hide CleanRun;
    TidyCons(cfg, r, Run(cfg, r, Fresh(), steps));
  }

  lemma TidyCons(cfg: Config, r: real, y: Sys)
    requires Accounted(cfg, r, y) && Tidy(y) && y.gc.Idle?
    ensures forall s :: s in y.eng.segs ==> Stored(y.eng.segs[s]) == Live(y.eng.addr, s, y.eng.segs[s]) + At(y.eng.discard, s)
  {
    hide Safe;
    hide Totals;
    hide Ratio;
    hide Pending;
    hide Live;
    hide Stored;
    forall s | s in y.eng.segs ensures At(y.books.moved, s) == 0 && At(y.books.leaked, s) == 0 {}
  }
}
