/** That the byte accounts of a run count what it really appends: user bytes are those of puts, rewritten bytes those of copies. */
module ByteCount {
  import opened Bytes
  import opened Segments
  import opened Engine
  import opened GcRuns
  import opened WriteAmp

  function Sizes(segs: SegMap): map<nat, nat> { map s | s in segs :: Stored(segs[s]) }

  /** Bytes of all bodies in the segments of a shard. */
  ghost function OnShard(segs: SegMap): nat { Sum(Sizes(segs)) }

  /** Writing a record to a shard adds its body. */
  lemma AppendAdds(cfg: Config, st: State, rec: Record)
    requires st.active in st.segs && forall s :: s in st.segs ==> s <= st.active
    ensures OnShard(Append(cfg, st, rec).segs) == OnShard(st.segs) + |rec.stored|
  {
    SealAdds(cfg, st);
    var a := Seal(cfg, st);
    var was, recs := a.segs[a.active], a.segs[a.active] + [rec];
    assert recs[..|recs| - 1] == was;
    assert Append(cfg, st, rec).segs == a.segs[a.active := recs];
    SizeSet(a.segs, a.active, recs);
    hide *;
  }

  lemma SizeSet(segs: SegMap, s: nat, recs: seq<Record>)
    ensures OnShard(segs[s := recs]) + (if s in segs then Stored(segs[s]) else 0) == OnShard(segs) + Stored(recs)
  {
    assert Sizes(segs[s := recs]) == Sizes(segs)[s := Stored(recs)];
    SumUpdate(Sizes(segs), s, Stored(recs));
    hide Stored;
  }

  lemma SealAdds(cfg: Config, st: State)
    requires st.active in st.segs && forall s :: s in st.segs ==> s <= st.active
    ensures OnShard(Seal(cfg, st).segs) == OnShard(st.segs)
  {
    SizeSet(st.segs, st.active + 1, []);
    assert Stored([]) == 0;
    hide OnShard;
    hide SegLen;
  }

  predicate UserPut(step: Step) { step.DoPut? || step.PutLost? }

  /** Nothing was appended: each segment left is as it was, or new and empty. */
  ghost predicate NothingAppended(a: SegMap, b: SegMap) { forall s :: s in b ==> if s in a then b[s] == a[s] else b[s] == [] }

  /** A put appends what the account of user bytes gains, a copy what that of rewritten bytes does, and no other step any. */
  lemma StepAppends(cfg: Config, r: real, y: Sys, step: Step)
    requires Safe(cfg, y) && Enabled(r, y, step)
    ensures var n := Next(cfg, r, y, step);
      && n.books.user == y.books.user + (if UserPut(step) then OnShard(n.eng.segs) - OnShard(y.eng.segs) else 0)
      && n.books.rewritten == y.books.rewritten + (if step.GcCopy? then OnShard(n.eng.segs) - OnShard(y.eng.segs) else 0)
      && (!UserPut(step) && !step.GcCopy? ==> NothingAppended(y.eng.segs, n.eng.segs))
  {
    hide OnShard;
    hide RowsOk;
    match step
    case DoPut(k, data, era) => if !GoesInline(cfg, data, era) { AppendAdds(cfg, y.eng, Pack(cfg, k, data)); }
    case PutLost(k, data, era) => if !GoesInline(cfg, data, era) { AppendAdds(cfg, y.eng, Pack(cfg, k, data)); }
    case GcCopy => AppendAdds(cfg, y.eng, y.eng.segs[y.gc.v][y.gc.pos]);
    case _ =>
  }

  /** The bytes that the puts of a run append, or its copies. */
  ghost function Appended(cfg: Config, r: real, y: Sys, steps: seq<Step>, copies: bool): int
    requires Feasible(cfg, r, y, steps)
    decreases |steps|
  {
    if steps == [] then 0
    else
      var n := Next(cfg, r, y, steps[0]);
      (if (if copies then steps[0].GcCopy? else UserPut(steps[0])) then OnShard(n.eng.segs) - OnShard(y.eng.segs) else 0)
      + Appended(cfg, r, n, steps[1..], copies)
  }

  lemma {:induction false} RunAppends(cfg: Config, r: real, y: Sys, steps: seq<Step>)
    requires GoodZip(cfg) && Safe(cfg, y) && Feasible(cfg, r, y, steps)
    ensures var n := Run(cfg, r, y, steps);
      && n.books.user == y.books.user + Appended(cfg, r, y, steps, false)
      && n.books.rewritten == y.books.rewritten + Appended(cfg, r, y, steps, true)
    decreases |steps|
  {
    hide Next;
    hide OnShard;
    hide Safe;
    if steps != [] {
      StepAppends(cfg, r, y, steps[0]);
      StepSafe(cfg, r, y, steps[0]);
      RunAppends(cfg, r, Next(cfg, r, y, steps[0]), steps[1..]);
    }
  }

  /** Bytes of the copy whose row this step swings, if it swings one. */
  function Swung(y: Sys, step: Step): nat {
    if step.GcCas? && y.gc.Copied? && y.gc.v in y.eng.segs && y.gc.pos < |y.eng.segs[y.gc.v]|
       && PointsAt(y.eng.addr, y.eng.segs[y.gc.v][y.gc.pos].key, y.gc.v, y.gc.pos)
    then y.gc.to.storedLen else 0
  }

  /** The copy just made counts as wasted until its row is swung. */
  ghost predicate CopyCounted(y: Sys) { y.gc.Copied? ==> y.gc.to.storedLen <= y.books.wasted }

  lemma StepWastes(cfg: Config, r: real, y: Sys, step: Step)
    requires Safe(cfg, y) && Enabled(r, y, step) && CopyCounted(y)
    ensures var n := Next(cfg, r, y, step);
      CopyCounted(n) && n.books.wasted + Swung(y, step) + y.books.rewritten == y.books.wasted + n.books.rewritten
  {
    hide RowsOk;
    hide MostDiscarded;
    hide Append;
  }

  /** The bytes of the copies whose rows a run swings. */
  ghost function AllSwung(cfg: Config, r: real, y: Sys, steps: seq<Step>): nat
    requires Feasible(cfg, r, y, steps)
    decreases |steps|
  {
    if steps == [] then 0 else Swung(y, steps[0]) + AllSwung(cfg, r, Next(cfg, r, y, steps[0]), steps[1..])
  }

  /** Wasted are the copied bytes whose rows were not swung. */
  lemma {:induction false} RunWastes(cfg: Config, r: real, y: Sys, steps: seq<Step>)
    requires GoodZip(cfg) && Safe(cfg, y) && CopyCounted(y) && Feasible(cfg, r, y, steps)
    ensures var n := Run(cfg, r, y, steps);
      n.books.wasted + AllSwung(cfg, r, y, steps) + y.books.rewritten == y.books.wasted + n.books.rewritten
    decreases |steps|
  {
    hide Next;
    hide Safe;
    hide CopyCounted;
    hide Swung;
    if steps != [] {
      StepWastes(cfg, r, y, steps[0]);
      StepSafe(cfg, r, y, steps[0]);
      RunWastes(cfg, r, Next(cfg, r, y, steps[0]), steps[1..]);
    }
  }

  /**
   So in every run of a fresh shard, any interleaving and aborts included, the bytes really appended, by puts and copies
   together, are at most those of the puts and of the copies whose rows were not swung, divided by r.
   */
  lemma AppendedBound(cfg: Config, r: real, steps: seq<Step>)
    requires GoodZip(cfg) && 0.0 < r <= 1.0 && Feasible(cfg, r, Fresh(), steps)
    ensures var puts, copies := Appended(cfg, r, Fresh(), steps, false), Appended(cfg, r, Fresh(), steps, true);
      r * ((puts + copies) as real) <= (puts + copies - AllSwung(cfg, r, Fresh(), steps)) as real
  {
    hide Next;
    hide OnShard;
    FreshSafe(cfg);
    RunAppends(cfg, r, Fresh(), steps);
    RunWastes(cfg, r, Fresh(), steps);
    WriteAmplification(cfg, r, steps);
    hide Safe;
  }
}
