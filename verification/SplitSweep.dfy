/**
 The orphan sweep and the cache eviction in two parts, with users going on in between. The sweep notes which segments are
 referenced, then lists the sealed segments and unlinks those it did not note; the eviction notes the keys it finds in the
 oldest segment, then drops their rows and unlinks it.
 */
module SplitSweep {
  import opened Bytes
  import opened Segments
  import opened Engine
  import opened GcRuns

  /** The segments that some row points into, as the sweep notes them. */
  function Noted(addr: map<Key, Addr>): set<nat> { set k | k in addr :: addr[k].seg }

  lemma NotedIs(addr: map<Key, Addr>, s: nat)
    ensures s in Noted(addr) <==> Referenced(addr, s)
  {
  }

  predicate FromUsers(step: Step) {
    step.DoPut? || step.PutLost? || step.DoDelete? || step.DoSetObj? || step.Rotate? || step.Flush?
  }

  /** The sweep's second part unlinks any sealed segment that was not noted. */
  predicate Sweepable(noted: set<nat>, st: State, s: nat) { s in st.segs && s != st.active && s !in noted }

  lemma StepAddsOnlyActive(cfg: Config, r: real, y: Sys, step: Step, s: nat)
    requires Well(cfg, y.eng) && Enabled(r, y, step) && FromUsers(step) && s < y.eng.active
    ensures var st := Next(cfg, r, y, step).eng; s < st.active && KeysIn(st.addr, s) <= KeysIn(y.eng.addr, s)
  {
    hide Append;
    hide Seal;
    hide Sync;
    hide Pack;
    hide RowsOk;
    match step
    case DoPut(k, data, era) => AppendGrows(cfg, y.eng, Pack(cfg, k, data));
    case PutLost(k, data, era) => AppendGrows(cfg, y.eng, Pack(cfg, k, data));
    case Rotate => SealKeeps(cfg, y.eng);
    case Flush => SyncKeeps(cfg, y.eng);
    case _ =>
  }

  /** A sealed segment only ever loses rows. */
  lemma {:induction false} SealedOnlyLoses(cfg: Config, r: real, y: Sys, steps: seq<Step>, s: nat)
    requires GoodZip(cfg) && Safe(cfg, y) && Feasible(cfg, r, y, steps) && (forall i :: 0 <= i < |steps| ==> FromUsers(steps[i]))
    requires s < y.eng.active
    ensures var st := Run(cfg, r, y, steps).eng; Well(cfg, st) && s < st.active && KeysIn(st.addr, s) <= KeysIn(y.eng.addr, s)
    decreases |steps|
  {
    hide Next;
    hide Enabled;
    hide FromUsers;
    hide KeysIn;
    hide View;
    hide Intend;
    hide GcOk;
    hide RowsOk;
    if steps != [] {
      StepSafe(cfg, r, y, steps[0]);
      StepAddsOnlyActive(cfg, r, y, steps[0], s);
      SealedOnlyLoses(cfg, r, Next(cfg, r, y, steps[0]), steps[1..], s);
    }
  }

  lemma FreeMeans(addr: map<Key, Addr>, s: nat)
    ensures Referenced(addr, s) <==> KeysIn(addr, s) != {}
  {
    if k :| k in addr && addr[k].seg == s { assert k in KeysIn(addr, s); }
  }

  lemma FreeOrDangling(cfg: Config, st: State, s: nat)
    requires Well(cfg, st) && s != st.active
    ensures Well(cfg, Unlink(st, {s})) <==> !Referenced(st.addr, s)
    ensures !Referenced(st.addr, s) ==> View(cfg, Unlink(st, {s})) == View(cfg, st)
  {
    hide View;
    if k :| k in st.addr && st.addr[k].seg == s {
      assert !RowOk(cfg, st.segs - {s}, k, st.addr[k]);
    } else {
      UnlinkView(cfg, st, {s});
    }
  }

  /**
   Unlinking a segment the sweep did not note keeps every row readable exactly when no row points into it by then. That is
   certain if it was sealed already when the notes were taken; one sealed later can be full of live records.
   */
  lemma LateUnlink(cfg: Config, r: real, y: Sys, steps: seq<Step>, s: nat)
    requires GoodZip(cfg) && Safe(cfg, y) && Feasible(cfg, r, y, steps) && (forall i :: 0 <= i < |steps| ==> FromUsers(steps[i]))
    requires Sweepable(Noted(y.eng.addr), Run(cfg, r, y, steps).eng, s)
    ensures var st := Run(cfg, r, y, steps).eng;
      && (Well(cfg, Unlink(st, {s})) <==> !Referenced(st.addr, s))
      && (s < y.eng.active ==> Well(cfg, Unlink(st, {s})) && View(cfg, Unlink(st, {s})) == View(cfg, st))
  {
    NotedIs(y.eng.addr, s);
    RunRefinesMap(cfg, r, y, steps);
    FreeMeans(y.eng.addr, s);
    FreeMeans(Run(cfg, r, y, steps).eng.addr, s);
    if s < y.eng.active { SealedOnlyLoses(cfg, r, y, steps, s); }
    FreeOrDangling(cfg, Run(cfg, r, y, steps).eng, s);
    hide *;
  }

  // ----- eviction

  /** Dropping more rows than those into the segment drops exactly their keys. */
  lemma EvictAny(cfg: Config, st: State, v: nat, gone: set<Key>)
    requires Well(cfg, st) && v != st.active && KeysIn(st.addr, v) <= gone
    ensures Well(cfg, Evict(st, v, gone)) && View(cfg, Evict(st, v, gone)) == View(cfg, st) - (gone * st.addr.Keys)
  {
    var s := st.(addr := st.addr - gone);
    assert Well(cfg, s) by {
      forall k | k in s.addr ensures RowOk(cfg, s.segs, k, s.addr[k]) { assert RowOk(cfg, st.segs, k, st.addr[k]); }
    }
    assert View(cfg, s) == View(cfg, st) - (gone * st.addr.Keys) by {
      hide BodyAt;
      hide RowsOk;
    }
    hide View;
    hide RowsOk;
    assert !Referenced(s.addr, v);
    UnlinkView(cfg, s, {v});
  }

  /**
   The eviction keeps every row readable. It drops just the keys in the segment if and only if no key it noted has been put
   into another segment since; such a key loses its new body.
   */
  lemma LateEvict(cfg: Config, r: real, y: Sys, steps: seq<Step>, v: nat)
    requires GoodZip(cfg) && Safe(cfg, y) && Feasible(cfg, r, y, steps) && (forall i :: 0 <= i < |steps| ==> FromUsers(steps[i]))
    requires v < y.eng.active
    ensures var st, gone := Run(cfg, r, y, steps).eng, KeysIn(y.eng.addr, v);
      && Well(cfg, Evict(st, v, gone))
      && (View(cfg, Evict(st, v, gone)) == View(cfg, st) - KeysIn(st.addr, v)
          <==> forall k :: k in gone && k in st.addr ==> st.addr[k].seg == v)
  {
    var st, gone := Run(cfg, r, y, steps).eng, KeysIn(y.eng.addr, v);
    SealedOnlyLoses(cfg, r, y, steps, v);
    hide Run;
    hide Feasible;
    hide Safe;
    hide RowsOk;
    EvictAny(cfg, st, v, gone);
    ViewKeys(cfg, st);
    SameLess(View(cfg, st), gone * st.addr.Keys, KeysIn(st.addr, v));
    hide View;
    hide Evict;
  }

  lemma SameLess(m: map<Key, Obj>, a: set<Key>, b: set<Key>)
    requires a <= m.Keys && b <= m.Keys
    ensures m - a == m - b <==> a == b
  {
    if m - a == m - b {
      forall k ensures k in a <==> k in b { assert k in m - a <==> k in m - b; }
    }
  }
}
