/**
 Draining a batch of heal requests with several workers: a shared cursor hands out entries, and each worker takes a
 slot on every shard the entry needs before repairing it, or puts the entry off when a shard is full. Every access to
 a shared counter is one atomic step.
 */
module HealDrain {
  /** The batch entry e needs a slot on each shard of needs[e]; at most cap workers hold a slot of one shard. */
  datatype Plan = Plan(needs: seq<seq<nat>>, shards: nat, cap: nat) {
    /** The source raises a cap of zero to one. */
    ghost predicate Valid() {
      cap >= 1 && forall e, p :: 0 <= e < |needs| && 0 <= p < |needs[e]| ==> needs[e][p] < shards
    }
  }

  datatype Worker =
    | Fetching
    | Acquiring(e: nat, p: nat)
    | Overfull(e: nat, p: nat)
    | Undoing(e: nat, a: nat, p: nat)
    | Repairing(e: nat)
    | Releasing(e: nat, a: nat, ok: bool)
    | Done

  datatype State = State(next: nat, slots: seq<nat>, workers: seq<Worker>, healed: seq<nat>, deferred: seq<nat>)

  /** Worker w moves on; ok is the outcome when what it does next is end a repair. */
  datatype Step = Step(w: nat, ok: bool)

  predicate WellFormed(pl: Plan, s: State, w: Worker) {
    |s.slots| == pl.shards &&
    match w
    case Fetching => true
    case Done => s.next >= |pl.needs|
    case Acquiring(e, p) => e < |pl.needs| && p <= |pl.needs[e]|
    case Overfull(e, p) => e < |pl.needs| && p < |pl.needs[e]|
    case Undoing(e, a, p) => e < |pl.needs| && a <= p <= |pl.needs[e]|
    case Repairing(e) => e < |pl.needs|
    case Releasing(e, a, _) => e < |pl.needs| && a <= |pl.needs[e]|
  }

  predicate Enabled(pl: Plan, s: State, t: Step) {
    t.w < |s.workers| && !s.workers[t.w].Done? && WellFormed(pl, s, s.workers[t.w])
  }

  function Lower(slots: seq<nat>, i: nat): seq<nat> { if i < |slots| && slots[i] > 0 then slots[i := slots[i] - 1] else slots }
  function Raise(slots: seq<nat>, i: nat): seq<nat> { if i < |slots| then slots[i := slots[i] + 1] else slots }

  function Next(pl: Plan, s: State, t: Step): State
    requires Enabled(pl, s, t)
  {
    var w := t.w;
    match s.workers[w]
    case Done => s
    case Fetching =>
      s.(next := s.next + 1, workers := s.workers[w := if s.next < |pl.needs| then Acquiring(s.next, 0) else Done])
    case Acquiring(e, p) =>
      if p == |pl.needs[e]| then s.(workers := s.workers[w := Repairing(e)])
      else
        var i := pl.needs[e][p];
        var full := i < |s.slots| && s.slots[i] >= pl.cap;
        s.(slots := Raise(s.slots, i), workers := s.workers[w := if full then Overfull(e, p) else Acquiring(e, p + 1)])
    case Overfull(e, p) =>
      s.(slots := Lower(s.slots, pl.needs[e][p]), workers := s.workers[w := Undoing(e, 0, p)])
    case Undoing(e, a, p) =>
      if a == p then s.(deferred := s.deferred + [e], workers := s.workers[w := Fetching])
      else s.(slots := Lower(s.slots, pl.needs[e][a]), workers := s.workers[w := Undoing(e, a + 1, p)])
    case Repairing(e) => s.(workers := s.workers[w := Releasing(e, 0, t.ok)])
    case Releasing(e, a, ok) =>
      if a < |pl.needs[e]| then s.(slots := Lower(s.slots, pl.needs[e][a]), workers := s.workers[w := Releasing(e, a + 1, ok)])
      else if ok then s.(healed := s.healed + [e], workers := s.workers[w := Fetching])
      else s.(deferred := s.deferred + [e], workers := s.workers[w := Fetching])
  }

  ghost predicate Start(pl: Plan, s: State) {
    && pl.Valid() && s.next == 0 && s.healed == [] && s.deferred == []
    && |s.slots| == pl.shards && (forall i :: 0 <= i < |s.slots| ==> s.slots[i] == 0)
    && (forall w :: 0 <= w < |s.workers| ==> s.workers[w].Fetching?)
  }

  ghost predicate Feasible(pl: Plan, s: State, steps: seq<Step>)
    decreases |steps|
  {
    steps == [] || (Enabled(pl, s, steps[0]) && Feasible(pl, Next(pl, s, steps[0]), steps[1..]))
  }

  function Run(pl: Plan, s: State, steps: seq<Step>): State
    requires Feasible(pl, s, steps)
    decreases |steps|
  {
    if steps == [] then s else Run(pl, Next(pl, s, steps[0]), steps[1..])
  }

  // ----- who holds what

  /** How many of positions a to b of need are shard i. */
  function Count(need: seq<nat>, a: nat, b: nat, i: nat): nat
    requires b <= |need|
    decreases b - a
  {
    if a >= b then 0 else (if need[a] == i then 1 else 0) + Count(need, a + 1, b, i)
  }

  lemma {:induction false} CountLast(need: seq<nat>, a: nat, b: nat, i: nat)
    requires a <= b < |need|
    ensures Count(need, a, b + 1, i) == Count(need, a, b, i) + (if need[b] == i then 1 else 0)
    decreases b - a
  {
    if a < b { CountLast(need, a + 1, b, i); }
  }

  /** What a worker has added to shard i's counter and not yet taken back. */
  function Added(pl: Plan, w: Worker, i: nat): nat {
    match w
    case Acquiring(e, p) => if e < |pl.needs| && p <= |pl.needs[e]| then Count(pl.needs[e], 0, p, i) else 0
    case Overfull(e, p) => if e < |pl.needs| && p < |pl.needs[e]| then Count(pl.needs[e], 0, p + 1, i) else 0
    case Undoing(e, a, p) => if e < |pl.needs| && p <= |pl.needs[e]| then Count(pl.needs[e], a, p, i) else 0
    case Repairing(e) => if e < |pl.needs| then Count(pl.needs[e], 0, |pl.needs[e]|, i) else 0
    case Releasing(e, a, _) => if e < |pl.needs| then Count(pl.needs[e], a, |pl.needs[e]|, i) else 0
    case _ => 0
  }

  /** The slots of shard i a worker holds: what it added, less an addition that found the shard full. */
  function Held(pl: Plan, w: Worker, i: nat): nat {
    if w.Overfull? then (if w.e < |pl.needs| && w.p < |pl.needs[w.e]| then Count(pl.needs[w.e], 0, w.p, i) else 0) else Added(pl, w, i)
  }

  function AllAdded(pl: Plan, ws: seq<Worker>, i: nat): nat {
    if ws == [] then 0 else Added(pl, ws[0], i) + AllAdded(pl, ws[1..], i)
  }

  function AllHeld(pl: Plan, ws: seq<Worker>, i: nat): nat {
    if ws == [] then 0 else Held(pl, ws[0], i) + AllHeld(pl, ws[1..], i)
  }

  lemma {:induction false} AddedSet(pl: Plan, ws: seq<Worker>, k: nat, x: Worker, i: nat)
    requires k < |ws|
    ensures AllAdded(pl, ws[k := x], i) + Added(pl, ws[k], i) == AllAdded(pl, ws, i) + Added(pl, x, i)
  {
    hide Added;
    if k == 0 {
      assert ws[0 := x][1..] == ws[1..];
    } else {
      AddedSet(pl, ws[1..], k - 1, x, i);
      assert ws[k := x][1..] == ws[1..][k - 1 := x];
    }
  }

  lemma {:induction false} HeldSet(pl: Plan, ws: seq<Worker>, k: nat, x: Worker, i: nat)
    requires k < |ws|
    ensures AllHeld(pl, ws[k := x], i) + Held(pl, ws[k], i) == AllHeld(pl, ws, i) + Held(pl, x, i)
  {
    hide Held;
    if k == 0 {
      assert ws[0 := x][1..] == ws[1..];
    } else {
      HeldSet(pl, ws[1..], k - 1, x, i);
      assert ws[k := x][1..] == ws[1..][k - 1 := x];
    }
  }

  lemma HeldAdded(pl: Plan, w: Worker, i: nat)
    ensures Held(pl, w, i) <= Added(pl, w, i)
  {
    if w.Overfull? && w.e < |pl.needs| && w.p < |pl.needs[w.e]| { CountLast(pl.needs[w.e], 0, w.p, i); }
  }

  lemma {:induction false} AllHeldAdded(pl: Plan, ws: seq<Worker>, i: nat)
    ensures AllHeld(pl, ws, i) <= AllAdded(pl, ws, i)
  {
    hide Held;
    hide Added;
    if ws != [] { HeldAdded(pl, ws[0], i); AllHeldAdded(pl, ws[1..], i); }
  }

  lemma {:induction false} OneOfAll(pl: Plan, ws: seq<Worker>, k: nat, i: nat)
    requires k < |ws|
    ensures Added(pl, ws[k], i) <= AllAdded(pl, ws, i)
  {
    hide Added;
    if k > 0 { OneOfAll(pl, ws[1..], k - 1, i); }
  }

  // ----- the slot invariant

  ghost predicate SlotsInv(pl: Plan, s: State) {
    && pl.Valid() && |s.slots| == pl.shards
    && (forall w :: 0 <= w < |s.workers| ==> WellFormed(pl, s, s.workers[w]))
    && (forall i :: 0 <= i < |s.slots| ==> s.slots[i] == AllAdded(pl, s.workers, i) && AllHeld(pl, s.workers, i) <= pl.cap)
  }

  /** How one worker's step moves its own account of shard i, and the counter with it. */
  lemma StepAccount(pl: Plan, s: State, t: Step, i: nat)
    requires SlotsInv(pl, s) && Enabled(pl, s, t) && i < |s.slots|
    ensures var n := Next(pl, s, t);
      && |n.slots| == |s.slots|
      && n.slots[i] + Added(pl, s.workers[t.w], i) == s.slots[i] + Added(pl, n.workers[t.w], i)
      && (Held(pl, n.workers[t.w], i) <= Held(pl, s.workers[t.w], i)
          || (s.slots[i] < pl.cap && Held(pl, n.workers[t.w], i) == Held(pl, s.workers[t.w], i) + 1))
  {
    OneOfAll(pl, s.workers, t.w, i);
    assert Added(pl, s.workers[t.w], i) <= s.slots[i];
    hide SlotsInv;
    hide AllAdded;
    StepCounter(pl, s, t, i);
    StepHolds(pl, s, t, i);
    hide *;
  }

  lemma StepCounter(pl: Plan, s: State, t: Step, i: nat)
    requires Enabled(pl, s, t) && i < |s.slots| && Added(pl, s.workers[t.w], i) <= s.slots[i]
    ensures var n := Next(pl, s, t);
      |n.slots| == |s.slots| && n.slots[i] + Added(pl, s.workers[t.w], i) == s.slots[i] + Added(pl, n.workers[t.w], i)
  {
    hide Count;
    match s.workers[t.w]
    case Acquiring(e, p) => if p < |pl.needs[e]| { CountLast(pl.needs[e], 0, p, i); }
    case Overfull(e, p) => CountLast(pl.needs[e], 0, p, i);
    case Undoing(e, a, p) => CountFirst(pl.needs[e], a, p, i);
    case Releasing(e, a, _) => CountFirst(pl.needs[e], a, |pl.needs[e]|, i);
    case Fetching => if s.next < |pl.needs| { CountFirst(pl.needs[s.next], 0, 0, i); }
    case _ =>
  }

  lemma CountFirst(need: seq<nat>, a: nat, b: nat, i: nat)
    requires a <= b <= |need|
    ensures Count(need, a, b, i) == if a == b then 0 else (if need[a] == i then 1 else 0) + Count(need, a + 1, b, i)
  {
  }

  lemma StepHolds(pl: Plan, s: State, t: Step, i: nat)
    requires Enabled(pl, s, t) && i < |s.slots|
    ensures var n := Next(pl, s, t);
      Held(pl, n.workers[t.w], i) <= Held(pl, s.workers[t.w], i)
      || (s.slots[i] < pl.cap && Held(pl, n.workers[t.w], i) == Held(pl, s.workers[t.w], i) + 1)
  {
    hide Count;
    hide Lower;
    hide Raise;
    match s.workers[t.w]
    case Acquiring(e, p) => if p < |pl.needs[e]| { CountLast(pl.needs[e], 0, p, i); } else { CountFirst(pl.needs[e], p, p, i); }
    case Undoing(e, a, p) => CountFirst(pl.needs[e], a, p, i);
    case Releasing(e, a, _) => CountFirst(pl.needs[e], a, |pl.needs[e]|, i);
    case Fetching => if s.next < |pl.needs| { CountFirst(pl.needs[s.next], 0, 0, i); }
    case _ =>
  }

  lemma StepSlots(pl: Plan, s: State, t: Step)
    requires SlotsInv(pl, s) && Enabled(pl, s, t)
    ensures SlotsInv(pl, Next(pl, s, t))
  {
    var n := Next(pl, s, t);
    var x := n.workers[t.w];
    assert n.workers == s.workers[t.w := x];
    assert n.next >= s.next && WellFormed(pl, n, x);
    forall w | 0 <= w < |n.workers| ensures WellFormed(pl, n, n.workers[w]) {
      assert WellFormed(pl, s, s.workers[w]);
    }
    hide Next;
    hide Added;
    hide Held;
    forall i | 0 <= i < |n.slots| ensures n.slots[i] == AllAdded(pl, n.workers, i) && AllHeld(pl, n.workers, i) <= pl.cap {
      StepAccount(pl, s, t, i);
      AddedSet(pl, s.workers, t.w, x, i);
      HeldSet(pl, s.workers, t.w, x, i);
      AllHeldAdded(pl, s.workers, i);
    }
  }

  lemma {:induction false} NoneAdded(pl: Plan, ws: seq<Worker>, i: nat)
    requires forall w :: 0 <= w < |ws| ==> ws[w].Fetching? || ws[w].Done?
    ensures AllAdded(pl, ws, i) == 0 && AllHeld(pl, ws, i) == 0
  {
    if ws != [] { NoneAdded(pl, ws[1..], i); }
  }

  lemma {:induction false} RunSlots(pl: Plan, s: State, steps: seq<Step>)
    requires SlotsInv(pl, s) && Feasible(pl, s, steps)
    ensures SlotsInv(pl, Run(pl, s, steps))
    decreases |steps|
  {
    hide SlotsInv;
    hide Next;
    if steps != [] {
      StepSlots(pl, s, steps[0]);
      RunSlots(pl, Next(pl, s, steps[0]), steps[1..]);
    }
  }

  lemma StartSlots(pl: Plan, s: State)
    requires Start(pl, s)
    ensures SlotsInv(pl, s)
  {
    forall i | 0 <= i < |s.slots| ensures s.slots[i] == AllAdded(pl, s.workers, i) && AllHeld(pl, s.workers, i) <= pl.cap {
      NoneAdded(pl, s.workers, i);
    }
  }

  /** How many workers are repairing an entry that needs shard i. */
  function Repairers(pl: Plan, ws: seq<Worker>, i: nat): nat {
    if ws == [] then 0
    else (if ws[0].Repairing? && ws[0].e < |pl.needs| && i in pl.needs[ws[0].e] then 1 else 0) + Repairers(pl, ws[1..], i)
  }

  lemma {:induction false} CountIn(need: seq<nat>, a: nat, i: nat)
    requires a <= |need| && i in need[a..]
    ensures Count(need, a, |need|, i) >= 1
    decreases |need| - a
  {
    if need[a] != i {
      assert need[a..] == [need[a]] + need[a + 1..];
      CountIn(need, a + 1, i);
    }
  }

  lemma {:induction false} RepairersHold(pl: Plan, ws: seq<Worker>, i: nat)
    ensures Repairers(pl, ws, i) <= AllHeld(pl, ws, i)
  {
    if ws != [] {
      RepairersHold(pl, ws[1..], i);
      if ws[0].Repairing? && ws[0].e < |pl.needs| && i in pl.needs[ws[0].e] {
        assert pl.needs[ws[0].e][0..] == pl.needs[ws[0].e];
        CountIn(pl.needs[ws[0].e], 0, i);
      }
    }
  }

  /** In every run no shard ever serves more than cap repairs at once, nor has more than cap slot holders. */
  lemma Bulkhead(pl: Plan, s: State, steps: seq<Step>, i: nat)
    requires Start(pl, s) && Feasible(pl, s, steps) && i < pl.shards
    ensures Repairers(pl, Run(pl, s, steps).workers, i) <= AllHeld(pl, Run(pl, s, steps).workers, i) <= pl.cap
  {
    StartSlots(pl, s);
    RunSlots(pl, s, steps);
    RepairersHold(pl, Run(pl, s, steps).workers, i);
  }

  // ----- each entry once

  predicate Busy(w: Worker) { !w.Fetching? && !w.Done? }

  /** Workers with an entry in hand, and those with entry e. */
  function BusyCount(ws: seq<Worker>): nat {
    if ws == [] then 0 else (if Busy(ws[0]) then 1 else 0) + BusyCount(ws[1..])
  }

  function Handling(ws: seq<Worker>, e: nat): nat {
    if ws == [] then 0 else One(ws[0], e) + Handling(ws[1..], e)
  }

  function One(w: Worker, e: nat): nat { if Busy(w) && w.e == e then 1 else 0 }

  lemma {:induction false} HandlingSet(ws: seq<Worker>, k: nat, x: Worker, e: nat)
    requires k < |ws|
    ensures Handling(ws[k := x], e) + One(ws[k], e) == Handling(ws, e) + One(x, e)
    ensures BusyCount(ws[k := x]) + (if Busy(ws[k]) then 1 else 0) == BusyCount(ws) + (if Busy(x) then 1 else 0)
  {
    hide One;
    hide Busy;
    if k == 0 {
      assert ws[0 := x][1..] == ws[1..];
    } else {
      HandlingSet(ws[1..], k - 1, x, e);
      assert ws[k := x][1..] == ws[1..][k - 1 := x];
    }
  }

  function Taken(pl: Plan, s: State): nat { if s.next < |pl.needs| then s.next else |pl.needs| }

  /** In how many places entry e is: healed, deferred or in a worker's hand. */
  function Places(s: State, e: nat): nat { multiset(s.healed)[e] + multiset(s.deferred)[e] + Handling(s.workers, e) }

  /** Every entry handed out is in exactly one place, and no other entry anywhere. */
  ghost predicate EntriesInv(pl: Plan, s: State) {
    && |s.healed| + |s.deferred| + BusyCount(s.workers) == Taken(pl, s)
    && forall e: nat :: Places(s, e) == if e < Taken(pl, s) then 1 else 0
  }

  /** A step hands out the next entry or moves one from the worker's hand to a list. */
  lemma StepPlaces(pl: Plan, s: State, t: Step, e: nat)
    requires Enabled(pl, s, t)
    ensures Places(Next(pl, s, t), e)
            == Places(s, e) + (if s.workers[t.w].Fetching? && s.next == e && e < |pl.needs| then 1 else 0)
  {
    var n := Next(pl, s, t);
    assert n.workers == s.workers[t.w := n.workers[t.w]];
    HandlingSet(s.workers, t.w, n.workers[t.w], e);
    hide Handling;
    hide Lower;
    hide Raise;
  }

  lemma StepEntries(pl: Plan, s: State, t: Step)
    requires Enabled(pl, s, t) && EntriesInv(pl, s)
    ensures EntriesInv(pl, Next(pl, s, t))
  {
    var n := Next(pl, s, t);
    assert n.workers == s.workers[t.w := n.workers[t.w]];
    HandlingSet(s.workers, t.w, n.workers[t.w], 0);
    hide BusyCount;
    hide Places;
    hide Lower;
    hide Raise;
    assert |n.healed| + |n.deferred| + BusyCount(n.workers) == Taken(pl, n);
    assert s.workers[t.w].Fetching? ==> n.next == s.next + 1;
    assert !s.workers[t.w].Fetching? ==> n.next == s.next;
    hide Next;
    hide Busy;
    hide Enabled;
    forall e: nat ensures Places(n, e) == if e < Taken(pl, n) then 1 else 0 {
      StepPlaces(pl, s, t, e);
      assert Places(s, e) == if e < Taken(pl, s) then 1 else 0;
    }
  }

  lemma {:induction false} RunEntries(pl: Plan, s: State, steps: seq<Step>)
    requires EntriesInv(pl, s) && Feasible(pl, s, steps)
    ensures EntriesInv(pl, Run(pl, s, steps))
    decreases |steps|
  {
    hide EntriesInv;
    hide Next;
    if steps != [] {
      StepEntries(pl, s, steps[0]);
      RunEntries(pl, Next(pl, s, steps[0]), steps[1..]);
    }
  }

  lemma {:induction false} NoneHandling(ws: seq<Worker>, e: nat)
    requires forall w :: 0 <= w < |ws| ==> ws[w].Fetching? || ws[w].Done?
    ensures Handling(ws, e) == 0 && BusyCount(ws) == 0
  {
    if ws != [] { NoneHandling(ws[1..], e); }
  }

  ghost predicate AllDone(s: State) { forall w :: 0 <= w < |s.workers| ==> s.workers[w].Done? }

  /** When the workers are done every slot is free and each entry was healed or put off exactly once. */
  lemma DrainResult(pl: Plan, s: State, steps: seq<Step>)
    requires Start(pl, s) && s.workers != [] && Feasible(pl, s, steps) && AllDone(Run(pl, s, steps))
    ensures var n := Run(pl, s, steps);
      && n.slots == seq(pl.shards, i => 0)
      && |n.healed| + |n.deferred| == |pl.needs|
      && forall e :: 0 <= e < |pl.needs| ==> multiset(n.healed)[e] + multiset(n.deferred)[e] == 1
  {
    var n := Run(pl, s, steps);
    StartSlots(pl, s);
    RunSlots(pl, s, steps);
    forall i | 0 <= i < pl.shards ensures n.slots[i] == 0 { NoneAdded(pl, n.workers, i); }
    forall e: nat ensures Places(s, e) == 0 { NoneHandling(s.workers, e); }
    NoneHandling(s.workers, 0);
    RunEntries(pl, s, steps);
    WorkersKept(pl, s, steps);
    hide Run;
    assert n.workers[0].Done? && WellFormed(pl, n, n.workers[0]);
    NoneHandling(n.workers, 0);
    forall e | 0 <= e < |pl.needs| ensures multiset(n.healed)[e] + multiset(n.deferred)[e] == 1 {
      NoneHandling(n.workers, e);
      assert Places(n, e) == 1;
    }
  }

  lemma {:induction false} WorkersKept(pl: Plan, s: State, steps: seq<Step>)
    requires Feasible(pl, s, steps)
    ensures |Run(pl, s, steps).workers| == |s.workers|
    decreases |steps|
  {
    if steps != [] { WorkersKept(pl, Next(pl, s, steps[0]), steps[1..]); }
  }

  // ----- which list an entry ends in

  /** How a step decides about an entry: its repair ends well or badly, or a shard it needs is full. */
  datatype Verdict = Succeeded | Failed | Full

  /** The step t taken in s decides entry e this way. */
  predicate Decides(pl: Plan, s: State, t: Step, e: nat, v: Verdict) {
    t.w < |s.workers| && match s.workers[t.w]
      case Repairing(e2) => e2 == e && v == (if t.ok then Succeeded else Failed)
      case Acquiring(e2, p) =>
        e2 == e && v == Full && e < |pl.needs| && p < |pl.needs[e]| && pl.needs[e][p] < |s.slots| && s.slots[pl.needs[e][p]] >= pl.cap
      case _ => false
  }

  /** How many steps of the run decided e this way. */
  ghost function Decisions(pl: Plan, s: State, steps: seq<Step>, e: nat, v: Verdict): nat
    requires Feasible(pl, s, steps)
    decreases |steps|
  {
    if steps == [] then 0
    else (if Decides(pl, s, steps[0], e, v) then 1 else 0) + Decisions(pl, Next(pl, s, steps[0]), steps[1..], e, v)
  }

  /** A worker that will list e as healed, or as put off. */
  function ToHeal(w: Worker, e: nat): nat { if w.Releasing? && w.e == e && w.ok then 1 else 0 }
  function ToDefer(w: Worker, e: nat): nat {
    if (w.Overfull? || w.Undoing? || (w.Releasing? && !w.ok)) && w.e == e then 1 else 0
  }

  function AllToHeal(ws: seq<Worker>, e: nat): nat { if ws == [] then 0 else ToHeal(ws[0], e) + AllToHeal(ws[1..], e) }
  function AllToDefer(ws: seq<Worker>, e: nat): nat { if ws == [] then 0 else ToDefer(ws[0], e) + AllToDefer(ws[1..], e) }

  lemma {:induction false} ToSet(ws: seq<Worker>, k: nat, x: Worker, e: nat)
    requires k < |ws|
    ensures AllToHeal(ws[k := x], e) + ToHeal(ws[k], e) == AllToHeal(ws, e) + ToHeal(x, e)
    ensures AllToDefer(ws[k := x], e) + ToDefer(ws[k], e) == AllToDefer(ws, e) + ToDefer(x, e)
  {
    hide ToHeal;
    hide ToDefer;
    if k == 0 {
      assert ws[0 := x][1..] == ws[1..];
    } else {
      ToSet(ws[1..], k - 1, x, e);
      assert ws[k := x][1..] == ws[1..][k - 1 := x];
    }
  }

  lemma {:induction false} NoneTo(ws: seq<Worker>, e: nat)
    requires forall w :: 0 <= w < |ws| ==> ws[w].Fetching? || ws[w].Done?
    ensures AllToHeal(ws, e) == 0 && AllToDefer(ws, e) == 0
  {
    if ws != [] { NoneTo(ws[1..], e); }
  }

  lemma StepHealed(pl: Plan, s: State, t: Step, e: nat)
    requires Enabled(pl, s, t)
    ensures var n := Next(pl, s, t);
      multiset(n.healed)[e] + AllToHeal(n.workers, e)
      == multiset(s.healed)[e] + AllToHeal(s.workers, e) + (if Decides(pl, s, t, e, Succeeded) then 1 else 0)
  {
    var n := Next(pl, s, t);
    assert n.workers == s.workers[t.w := n.workers[t.w]];
    ToSet(s.workers, t.w, n.workers[t.w], e);
    hide AllToHeal;
    hide AllToDefer;
    hide ToDefer;
    hide Lower;
    hide Raise;
  }

  lemma StepDeferred(pl: Plan, s: State, t: Step, e: nat)
    requires Enabled(pl, s, t)
    ensures var n := Next(pl, s, t);
      multiset(n.deferred)[e] + AllToDefer(n.workers, e)
      == multiset(s.deferred)[e] + AllToDefer(s.workers, e)
         + (if Decides(pl, s, t, e, Failed) then 1 else 0) + (if Decides(pl, s, t, e, Full) then 1 else 0)
  {
    var n := Next(pl, s, t);
    assert n.workers == s.workers[t.w := n.workers[t.w]];
    ToSet(s.workers, t.w, n.workers[t.w], e);
    hide AllToHeal;
    hide AllToDefer;
    hide ToHeal;
    hide Lower;
    hide Raise;
  }

  /**
   Over every run, an entry is listed as healed, or about to be, once for each of its repairs that succeeded, and as put off
   once for each that failed and each shard it found full.
   */
  lemma {:induction false} RunLists(pl: Plan, s: State, steps: seq<Step>, e: nat)
    requires Feasible(pl, s, steps)
    ensures var n := Run(pl, s, steps);
      && multiset(n.healed)[e] + AllToHeal(n.workers, e)
         == multiset(s.healed)[e] + AllToHeal(s.workers, e) + Decisions(pl, s, steps, e, Succeeded)
      && multiset(n.deferred)[e] + AllToDefer(n.workers, e)
         == multiset(s.deferred)[e] + AllToDefer(s.workers, e)
            + Decisions(pl, s, steps, e, Failed) + Decisions(pl, s, steps, e, Full)
    decreases |steps|
  {
    hide Next;
    hide Enabled;
    hide Decides;
    hide AllToHeal;
    hide AllToDefer;
    if steps != [] {
      StepHealed(pl, s, steps[0], e);
      StepDeferred(pl, s, steps[0], e);
      RunLists(pl, Next(pl, s, steps[0]), steps[1..], e);
    }
  }

  /**
   When the workers are done, an entry is in the healed list exactly when its repair succeeded, and in the list that goes
   back to the queue exactly when its repair failed or a shard it needs was full.
   */
  lemma DrainOutcome(pl: Plan, s: State, steps: seq<Step>, e: nat)
    requires Start(pl, s) && s.workers != [] && Feasible(pl, s, steps) && AllDone(Run(pl, s, steps)) && e < |pl.needs|
    ensures var n := Run(pl, s, steps);
      && (e in n.healed <==> Decisions(pl, s, steps, e, Succeeded) == 1)
      && (e in n.deferred <==> Decisions(pl, s, steps, e, Failed) + Decisions(pl, s, steps, e, Full) == 1)
      && Decisions(pl, s, steps, e, Succeeded) + Decisions(pl, s, steps, e, Failed) + Decisions(pl, s, steps, e, Full) == 1
  {
    var n := Run(pl, s, steps);
    DrainResult(pl, s, steps);
    RunLists(pl, s, steps, e);
    NoneTo(s.workers, e);
    NoneTo(n.workers, e);
    hide Run;
    hide Decisions;
    assert e in multiset(n.healed) <==> e in n.healed;
    assert e in multiset(n.deferred) <==> e in n.deferred;
    assert multiset(n.healed)[e] + multiset(n.deferred)[e] == 1;
  }

  /** In the middle of any run nothing is listed as healed whose repair has not succeeded. */
  lemma HealedSucceeded(pl: Plan, s: State, steps: seq<Step>, e: nat)
    requires Start(pl, s) && Feasible(pl, s, steps)
    ensures e in Run(pl, s, steps).healed ==> Decisions(pl, s, steps, e, Succeeded) >= 1
    ensures e in Run(pl, s, steps).deferred ==> Decisions(pl, s, steps, e, Failed) + Decisions(pl, s, steps, e, Full) >= 1
  {
    var n := Run(pl, s, steps);
    RunLists(pl, s, steps, e);
    NoneTo(s.workers, e);
    hide Run;
    hide Decisions;
    assert e in multiset(n.healed) <==> e in n.healed;
    assert e in multiset(n.deferred) <==> e in n.deferred;
  }

  // ----- the drain ends

  /** Steps left to a worker until it fetches again. */
  function Left(pl: Plan, w: Worker): nat {
    match w
    case Done => 0
    case Fetching => 1
    case Acquiring(e, p) => if e < |pl.needs| && p <= |pl.needs[e]| then 2 * |pl.needs[e]| - p + 4 else 0
    case Overfull(e, p) => p + 3
    case Undoing(e, a, p) => if a <= p then p - a + 2 else 0
    case Repairing(e) => if e < |pl.needs| then |pl.needs[e]| + 3 else 0
    case Releasing(e, a, _) => if e < |pl.needs| && a <= |pl.needs[e]| then |pl.needs[e]| - a + 2 else 0
  }

  function AllLeft(pl: Plan, ws: seq<Worker>): nat {
    if ws == [] then 0 else Left(pl, ws[0]) + AllLeft(pl, ws[1..])
  }

  function Unfetched(pl: Plan, e: nat): nat
    decreases |pl.needs| - e
  {
    if e >= |pl.needs| then 0 else 2 * |pl.needs[e]| + 4 + Unfetched(pl, e + 1)
  }

  function Budget(pl: Plan, s: State): nat { AllLeft(pl, s.workers) + Unfetched(pl, s.next) }

  lemma {:induction false} AllLeftSet(pl: Plan, ws: seq<Worker>, k: nat, x: Worker)
    requires k < |ws|
    ensures AllLeft(pl, ws[k := x]) + Left(pl, ws[k]) == AllLeft(pl, ws) + Left(pl, x)
  {
    hide Left;
    if k == 0 {
      assert ws[0 := x][1..] == ws[1..];
    } else {
      AllLeftSet(pl, ws[1..], k - 1, x);
      assert ws[k := x][1..] == ws[1..][k - 1 := x];
    }
  }

  lemma StepSpends(pl: Plan, s: State, t: Step)
    requires Enabled(pl, s, t)
    ensures Budget(pl, Next(pl, s, t)) < Budget(pl, s)
  {
    var n := Next(pl, s, t);
    assert n.workers == s.workers[t.w := n.workers[t.w]];
    AllLeftSet(pl, s.workers, t.w, n.workers[t.w]);
    hide AllLeft;
  }

  /** No run is longer than its start's budget, and a worker that is not done can always move: every drain ends. */
  lemma {:induction false} DrainEnds(pl: Plan, s: State, steps: seq<Step>)
    requires SlotsInv(pl, s) && Feasible(pl, s, steps)
    ensures |steps| + Budget(pl, Run(pl, s, steps)) <= Budget(pl, s)
    ensures var n := Run(pl, s, steps);
      forall w, ok :: 0 <= w < |n.workers| && !n.workers[w].Done? ==> Enabled(pl, n, Step(w, ok))
    decreases |steps|
  {
    hide Next;
    hide Budget;
    if steps != [] {
      StepSlots(pl, s, steps[0]);
      StepSpends(pl, s, steps[0]);
      DrainEnds(pl, Next(pl, s, steps[0]), steps[1..]);
    }
  }

  // ----- a single worker

  ghost predicate Distinct(pl: Plan) {
    forall e, p, q :: 0 <= e < |pl.needs| && 0 <= p < q < |pl.needs[e]| ==> pl.needs[e][p] != pl.needs[e][q]
  }

  lemma {:induction false} CountNone(need: seq<nat>, a: nat, b: nat, i: nat)
    requires b <= |need| && forall p :: a <= p < b ==> need[p] != i
    ensures Count(need, a, b, i) == 0
    decreases b - a
  {
    if a < b { CountNone(need, a + 1, b, i); }
  }

  predicate PuttingOff(w: Worker) { w.Overfull? || w.Undoing? }

  /** A worker alone always gets its slots: an entry is put off only when its repair fails. */
  lemma {:induction false} AloneNeverFull(pl: Plan, s: State, steps: seq<Step>)
    requires SlotsInv(pl, s) && Feasible(pl, s, steps) && Distinct(pl) && |s.workers| == 1 && !PuttingOff(s.workers[0])
    ensures |Run(pl, s, steps).workers| == 1 && !PuttingOff(Run(pl, s, steps).workers[0])
    decreases |steps|
  {
    if steps != [] {
      StepSlots(pl, s, steps[0]);
      AloneStep(pl, s, steps[0]);
      hide SlotsInv;
      hide Next;
      AloneNeverFull(pl, Next(pl, s, steps[0]), steps[1..]);
    }
  }

  lemma AloneStep(pl: Plan, s: State, t: Step)
    requires SlotsInv(pl, s) && Enabled(pl, s, t) && Distinct(pl) && |s.workers| == 1 && !PuttingOff(s.workers[0])
    ensures |Next(pl, s, t).workers| == 1 && !PuttingOff(Next(pl, s, t).workers[0])
  {
    var w := s.workers[0];
    if w.Acquiring? && w.p < |pl.needs[w.e]| {
      var i := pl.needs[w.e][w.p];
      CountNone(pl.needs[w.e], 0, w.p, i);
      assert s.workers[1..] == [];
      assert AllAdded(pl, s.workers, i) == Added(pl, w, i) + AllAdded(pl, [], i);
      assert s.slots[i] == AllAdded(pl, s.workers, i);
    }
  }
}
