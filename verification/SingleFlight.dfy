/**
 Coalesced reads through the cache: any number of threads get and put keys, one atomic step at a time, while cached
 copies come, go and rot. Keys are write-once and not deleted.
 */
module SingleFlight {
  import opened Bytes

  type Key = Bytes
  datatype Answer = Found(body: Bytes) | NotFound | Failed

  datatype Copy = Good(body: Bytes) | Rotten

  /** One coalescing slot; live records whether the key was in the inner store when the flight began. */
  datatype Flight = Flight(key: Key, leader: nat, live: bool, done: Option<Answer>)

  datatype Pc =
    | Idle
    | AskCache(key: Key, flight: nat)
    | AskInner(key: Key, flight: nat)
    | Fill(key: Key, flight: nat, body: Bytes)
    | Publish(key: Key, flight: nat, answer: Answer)
    | Unlist(key: Key, flight: nat, answer: Answer)
    | Wait(key: Key, flight: nat)
    | Got(key: Key, flight: nat, answer: Answer)
    | FillPut(key: Key, body: Bytes)

  datatype State = State(inner: map<Key, Bytes>, cache: map<Key, Copy>, listed: map<Key, nat>, flights: seq<Flight>, pcs: seq<Pc>)

  /** What a thread does next, with the choices the environment makes; Evict and Rot are not a thread's. */
  datatype Step =
    | Get(t: nat, key: Key)
    | CacheAnswers(t: nat, fails: bool, dropped: bool)
    | InnerAnswers(t: nat, fails: bool)
    | CacheFills(t: nat, stored: bool)
    | Publishes(t: nat)
    | Unlists(t: nat)
    | Wakes(t: nat)
    | Put(t: nat, key: Key, body: Bytes)
    | Rests(t: nat)
    | Evict(keys: set<Key>)
    | Rot(key: Key)

  predicate Enabled(s: State, step: Step) {
    match step
    case Get(t, _) => t < |s.pcs| && s.pcs[t].Idle?
    case CacheAnswers(t, _, _) => t < |s.pcs| && s.pcs[t].AskCache?
    case InnerAnswers(t, _) => t < |s.pcs| && s.pcs[t].AskInner?
    case CacheFills(t, _) => t < |s.pcs| && (s.pcs[t].Fill? || s.pcs[t].FillPut?)
    case Publishes(t) => t < |s.pcs| && s.pcs[t].Publish? && s.pcs[t].flight < |s.flights|
    case Unlists(t) => t < |s.pcs| && s.pcs[t].Unlist?
    case Wakes(t) => t < |s.pcs| && s.pcs[t].Wait? && s.pcs[t].flight < |s.flights| && s.flights[s.pcs[t].flight].done.Some?
    case Put(t, key, body) => t < |s.pcs| && s.pcs[t].Idle? && (key in s.inner ==> s.inner[key] == body)
    case Rests(t) => t < |s.pcs| && s.pcs[t].Got?
    case Evict(_) => true
    case Rot(key) => key in s.cache
  }

  function Next(s: State, step: Step): State
    requires Enabled(s, step)
  {
    match step
    case Get(t, key) =>
      if key in s.listed then s.(pcs := s.pcs[t := Wait(key, s.listed[key])])
      else
        var id := |s.flights|;
        s.(flights := s.flights + [Flight(key, t, key in s.inner, None)], listed := s.listed[key := id], pcs := s.pcs[t := AskCache(key, id)])
    case CacheAnswers(t, fails, dropped) =>
      var pc := s.pcs[t];
      if pc.key !in s.cache then s.(pcs := s.pcs[t := AskInner(pc.key, pc.flight)])
      else if s.cache[pc.key].Rotten? || fails then
        s.(cache := if dropped then s.cache - {pc.key} else s.cache, pcs := s.pcs[t := AskInner(pc.key, pc.flight)])
      else s.(pcs := s.pcs[t := Publish(pc.key, pc.flight, Found(s.cache[pc.key].body))])
    case InnerAnswers(t, fails) =>
      var pc := s.pcs[t];
      if fails then s.(pcs := s.pcs[t := Publish(pc.key, pc.flight, Failed)])
      else if pc.key !in s.inner then s.(pcs := s.pcs[t := Publish(pc.key, pc.flight, NotFound)])
      else s.(pcs := s.pcs[t := Fill(pc.key, pc.flight, s.inner[pc.key])])
    case CacheFills(t, stored) =>
      var pc := s.pcs[t];
      s.(cache := if stored then s.cache[pc.key := Good(pc.body)] else s.cache,
         pcs := s.pcs[t := if pc.Fill? then Publish(pc.key, pc.flight, Found(pc.body)) else Idle])
    case Publishes(t) =>
      var pc := s.pcs[t];
      s.(flights := s.flights[pc.flight := s.flights[pc.flight].(done := Some(pc.answer))], pcs := s.pcs[t := Unlist(pc.key, pc.flight, pc.answer)])
    case Unlists(t) =>
      var pc := s.pcs[t];
      s.(listed := s.listed - {pc.key}, pcs := s.pcs[t := Got(pc.key, pc.flight, pc.answer)])
    case Wakes(t) =>
      var pc := s.pcs[t];
      s.(pcs := s.pcs[t := Got(pc.key, pc.flight, s.flights[pc.flight].done.value)])
    case Put(t, key, body) => s.(inner := s.inner[key := body], pcs := s.pcs[t := FillPut(key, body)])
    case Rests(t) => s.(pcs := s.pcs[t := Idle])
    case Evict(keys) => s.(cache := s.cache - keys)
    case Rot(key) => s.(cache := s.cache[key := Rotten])
  }

  // ----- runs

  ghost predicate Feasible(s: State, steps: seq<Step>)
    decreases |steps|
  {
    steps == [] || (Enabled(s, steps[0]) && Feasible(Next(s, steps[0]), steps[1..]))
  }

  function Run(s: State, steps: seq<Step>): State
    requires Feasible(s, steps)
    decreases |steps|
  {
    if steps == [] then s else Run(Next(s, steps[0]), steps[1..])
  }

  /** No thread is active, no flight has begun; the cache holds inner bodies or rot. */
  ghost predicate Start(s: State) {
    && s.listed == map[] && s.flights == [] && (forall t :: 0 <= t < |s.pcs| ==> s.pcs[t].Idle?)
    && Cached(s)
  }

  // ----- invariants

  /** Every good cached copy is the inner store's body. */
  ghost predicate Cached(s: State) {
    forall k :: k in s.cache && s.cache[k].Good? ==> k in s.inner && s.inner[k] == s.cache[k].body
  }

  predicate Leads(pc: Pc) { pc.AskCache? || pc.AskInner? || pc.Fill? || pc.Publish? || pc.Unlist? }

  /** The thread is inside the read-through. */
  predicate Reading(pc: Pc) { pc.AskCache? || pc.AskInner? || pc.Fill? }

  /** An answer for a key: a body is the inner one, and a key that was there when the flight began is not reported absent. */
  ghost predicate Honest(s: State, key: Key, live: bool, answer: Answer) {
    match answer
    case Found(body) => key in s.inner && s.inner[key] == body
    case NotFound => !live
    case Failed => true
  }

  ghost predicate LeadOk(s: State, t: nat, pc: Pc) {
    Leads(pc) ==>
      && pc.key in s.listed && s.listed[pc.key] == pc.flight && pc.flight < |s.flights|
      && s.flights[pc.flight].leader == t && s.flights[pc.flight].key == pc.key
      && s.flights[pc.flight].done == (if pc.Unlist? then Some(pc.answer) else None)
      && (pc.Publish? ==> Honest(s, pc.key, s.flights[pc.flight].live, pc.answer))
      && (pc.Fill? ==> pc.key in s.inner && s.inner[pc.key] == pc.body)
  }

  ghost predicate FollowOk(s: State, pc: Pc) {
    && (pc.Wait? || pc.Got? ==> pc.flight < |s.flights| && s.flights[pc.flight].key == pc.key)
    && (pc.Wait? && s.flights[pc.flight].done.None? ==> pc.key in s.listed && s.listed[pc.key] == pc.flight)
    && (pc.Got? ==> s.flights[pc.flight].done == Some(pc.answer))
    && (pc.FillPut? ==> pc.key in s.inner && s.inner[pc.key] == pc.body)
  }

  ghost predicate FlightOk(s: State, f: Flight) {
    && (f.live ==> f.key in s.inner) && (f.done.Some? ==> Honest(s, f.key, f.live, f.done.value))
  }

  /** A listed flight is for its key and its leader is still at work on it. */
  ghost predicate ListedOk(s: State, k: Key) {
    k in s.listed ==>
      && s.listed[k] < |s.flights|
      && var f := s.flights[s.listed[k]];
         f.key == k && f.leader < |s.pcs| && Leads(s.pcs[f.leader]) && s.pcs[f.leader].key == k && s.pcs[f.leader].flight == s.listed[k]
  }

  ghost predicate Inv(s: State) {
    && Cached(s)
    && (forall t :: 0 <= t < |s.pcs| ==> LeadOk(s, t, s.pcs[t]) && FollowOk(s, s.pcs[t]))
    && (forall i :: 0 <= i < |s.flights| ==> FlightOk(s, s.flights[i]))
    && (forall k :: ListedOk(s, k))
  }

  lemma GetKeeps(s: State, t: nat, key: Key)
    requires Inv(s) && Enabled(s, Get(t, key))
    ensures Inv(Next(s, Get(t, key)))
  {
    var n := Next(s, Get(t, key));
    assert ListedOk(s, key);
    forall k ensures ListedOk(n, k) { assert ListedOk(s, k); }
    forall u | 0 <= u < |n.pcs| ensures LeadOk(n, u, n.pcs[u]) && FollowOk(n, n.pcs[u]) {
      assert LeadOk(s, u, s.pcs[u]) && FollowOk(s, s.pcs[u]);
    }
  }

  /** The cache answers a leader. */
  lemma CacheKeeps(s: State, t: nat, fails: bool, dropped: bool)
    requires Inv(s) && Enabled(s, CacheAnswers(t, fails, dropped))
    ensures Inv(Next(s, CacheAnswers(t, fails, dropped)))
  {
    var n := Next(s, CacheAnswers(t, fails, dropped));
    assert LeadOk(s, t, s.pcs[t]) && FollowOk(s, s.pcs[t]);
    forall k ensures ListedOk(n, k) { assert ListedOk(s, k); }
    forall u | 0 <= u < |n.pcs| ensures LeadOk(n, u, n.pcs[u]) && FollowOk(n, n.pcs[u]) {
      assert LeadOk(s, u, s.pcs[u]) && FollowOk(s, s.pcs[u]);
    }
    hide LeadOk;
    hide FollowOk;
    hide ListedOk;
    forall i | 0 <= i < |n.flights| ensures FlightOk(n, n.flights[i]) { assert FlightOk(s, s.flights[i]); }
  }

  /** The inner store answers a leader. */
  lemma InnerKeeps(s: State, t: nat, fails: bool)
    requires Inv(s) && Enabled(s, InnerAnswers(t, fails))
    ensures Inv(Next(s, InnerAnswers(t, fails)))
  {
    var n := Next(s, InnerAnswers(t, fails));
    assert LeadOk(s, t, s.pcs[t]) && FollowOk(s, s.pcs[t]);
    forall k ensures ListedOk(n, k) { assert ListedOk(s, k); }
    forall u | 0 <= u < |n.pcs| ensures LeadOk(n, u, n.pcs[u]) && FollowOk(n, n.pcs[u]) {
      assert LeadOk(s, u, s.pcs[u]) && FollowOk(s, s.pcs[u]);
    }
    hide LeadOk;
    hide FollowOk;
    hide ListedOk;
    forall i | 0 <= i < |n.flights| ensures FlightOk(n, n.flights[i]) { assert FlightOk(s, s.flights[i]); }
  }

  /** A leader or a writer fills the cache. */
  lemma FillKeeps(s: State, t: nat, stored: bool)
    requires Inv(s) && Enabled(s, CacheFills(t, stored))
    ensures Inv(Next(s, CacheFills(t, stored)))
  {
    var n := Next(s, CacheFills(t, stored));
    assert LeadOk(s, t, s.pcs[t]) && FollowOk(s, s.pcs[t]);
    forall k ensures ListedOk(n, k) { assert ListedOk(s, k); }
    forall u | 0 <= u < |n.pcs| ensures LeadOk(n, u, n.pcs[u]) && FollowOk(n, n.pcs[u]) {
      assert LeadOk(s, u, s.pcs[u]) && FollowOk(s, s.pcs[u]);
    }
    hide LeadOk;
    hide FollowOk;
    hide ListedOk;
    forall i | 0 <= i < |n.flights| ensures FlightOk(n, n.flights[i]) { assert FlightOk(s, s.flights[i]); }
  }

  lemma PublishKeeps(s: State, t: nat)
    requires Inv(s) && Enabled(s, Publishes(t))
    ensures Inv(Next(s, Publishes(t)))
  {
    var n, pc := Next(s, Publishes(t)), s.pcs[t];
    assert LeadOk(s, t, pc);
    forall k ensures ListedOk(n, k) { assert ListedOk(s, k); }
    forall i | 0 <= i < |n.flights| ensures FlightOk(n, n.flights[i]) { assert FlightOk(s, s.flights[i]); }
    forall u | 0 <= u < |n.pcs| ensures LeadOk(n, u, n.pcs[u]) && FollowOk(n, n.pcs[u]) {
      assert LeadOk(s, u, s.pcs[u]) && FollowOk(s, s.pcs[u]);
    }
  }

  lemma UnlistKeeps(s: State, t: nat)
    requires Inv(s) && Enabled(s, Unlists(t))
    ensures Inv(Next(s, Unlists(t)))
  {
    var n, pc := Next(s, Unlists(t)), s.pcs[t];
    assert LeadOk(s, t, pc);
    forall k ensures ListedOk(n, k) { assert ListedOk(s, k); }
    forall u | 0 <= u < |n.pcs| ensures LeadOk(n, u, n.pcs[u]) && FollowOk(n, n.pcs[u]) {
      assert LeadOk(s, u, s.pcs[u]) && FollowOk(s, s.pcs[u]);
    }
  }

  /** A waiter wakes, or a thread comes to rest. */
  lemma WakeKeeps(s: State, step: Step)
    requires Inv(s) && Enabled(s, step) && (step.Wakes? || step.Rests?)
    ensures Inv(Next(s, step))
  {
    var n := Next(s, step);
    forall k ensures ListedOk(n, k) { assert ListedOk(s, k); }
    forall u | 0 <= u < |n.pcs| ensures LeadOk(n, u, n.pcs[u]) && FollowOk(n, n.pcs[u]) {
      assert LeadOk(s, u, s.pcs[u]) && FollowOk(s, s.pcs[u]);
    }
  }

  /** A key is written, or cached copies go or rot. */
  lemma StoreKeeps(s: State, step: Step)
    requires Inv(s) && Enabled(s, step) && (step.Put? || step.Evict? || step.Rot?)
    ensures Inv(Next(s, step))
  {
    var n := Next(s, step);
    forall k ensures ListedOk(n, k) { assert ListedOk(s, k); }
    forall u | 0 <= u < |n.pcs| ensures LeadOk(n, u, n.pcs[u]) && FollowOk(n, n.pcs[u]) {
      assert LeadOk(s, u, s.pcs[u]) && FollowOk(s, s.pcs[u]);
    }
  }

  lemma StepKeeps(s: State, step: Step)
    requires Inv(s) && Enabled(s, step)
    ensures Inv(Next(s, step))
  {
    hide Inv;
    hide Next;
    match step
    case Publishes(t) => PublishKeeps(s, t);
    case Unlists(t) => UnlistKeeps(s, t);
    case Get(t, key) => GetKeeps(s, t, key);
    case CacheAnswers(t, fails, dropped) => CacheKeeps(s, t, fails, dropped);
    case InnerAnswers(t, fails) => InnerKeeps(s, t, fails);
    case CacheFills(t, stored) => FillKeeps(s, t, stored);
    case Wakes(_) => WakeKeeps(s, step);
    case Rests(_) => WakeKeeps(s, step);
    case _ => StoreKeeps(s, step);
  }

  lemma {:induction false} RunKeeps(s: State, steps: seq<Step>)
    requires Inv(s) && Feasible(s, steps)
    ensures Inv(Run(s, steps))
    decreases |steps|
  {
    hide Inv;
    hide Next;
    if steps != [] {
      StepKeeps(s, steps[0]);
      RunKeeps(Next(s, steps[0]), steps[1..]);
    }
  }

  lemma StartInv(s: State)
    requires Start(s)
    ensures Inv(s)
  {
  }

  // ----- what every run keeps

  /** In every run, at most one thread is inside the read-through for a key. */
  lemma OneReader(s: State, steps: seq<Step>, t: nat, u: nat)
    requires Start(s) && Feasible(s, steps)
    ensures var n := Run(s, steps);
      t < |n.pcs| && u < |n.pcs| && Reading(n.pcs[t]) && Reading(n.pcs[u]) && n.pcs[t].key == n.pcs[u].key ==> t == u
  {
    StartInv(s);
    RunKeeps(s, steps);
    var n := Run(s, steps);
    if t < |n.pcs| && u < |n.pcs| { assert LeadOk(n, t, n.pcs[t]) && LeadOk(n, u, n.pcs[u]); }
  }

  /** A flight leaves the table only by its own leader, when its answer is published; the entry removed is that flight. */
  lemma LeavesPublished(s: State, steps: seq<Step>, step: Step, key: Key)
    requires Start(s) && Feasible(s, steps) && Enabled(Run(s, steps), step)
    ensures var before, after := Run(s, steps).listed, Next(Run(s, steps), step).listed;
      var flights := Run(s, steps).flights;
      key in before && (key !in after || after[key] != before[key]) ==>
        && step.Unlists? && key !in after && before[key] < |flights|
        && flights[before[key]].leader == step.t && flights[before[key]].done.Some? && flights[before[key]].key == key
  {
    StartInv(s);
    RunKeeps(s, steps);
    var n := Run(s, steps);
    if step.Unlists? { assert LeadOk(n, step.t, n.pcs[step.t]); }
  }

  /** Every get returns the answer its flight's leader published. */
  lemma SharedAnswer(s: State, steps: seq<Step>, t: nat)
    requires Start(s) && Feasible(s, steps)
    ensures var n := Run(s, steps);
      t < |n.pcs| && n.pcs[t].Got? ==>
        && n.pcs[t].flight < |n.flights| && n.flights[n.pcs[t].flight].key == n.pcs[t].key
        && n.flights[n.pcs[t].flight].done == Some(n.pcs[t].answer)
  {
    StartInv(s);
    RunKeeps(s, steps);
    var n := Run(s, steps);
    if t < |n.pcs| { assert FollowOk(n, n.pcs[t]); }
  }

  /** A body returned by a get is the inner store's, whatever became of cached copies meanwhile. */
  lemma ReturnsInner(s: State, steps: seq<Step>, t: nat)
    requires Start(s) && Feasible(s, steps)
    ensures var n := Run(s, steps);
      t < |n.pcs| && n.pcs[t].Got? && n.pcs[t].answer.Found? ==>
        n.pcs[t].key in n.inner && n.inner[n.pcs[t].key] == n.pcs[t].answer.body
  {
    StartInv(s);
    RunKeeps(s, steps);
    var n := Run(s, steps);
    if t < |n.pcs| && n.pcs[t].Got? {
      assert FollowOk(n, n.pcs[t]);
      assert FlightOk(n, n.flights[n.pcs[t].flight]);
    }
  }

  /** No waiter is stranded: its flight has an answer or a leader still at work on it. */
  lemma NoneStranded(s: State, steps: seq<Step>, t: nat)
    requires Start(s) && Feasible(s, steps)
    ensures var n := Run(s, steps);
      t < |n.pcs| && n.pcs[t].Wait? ==>
        var id := n.pcs[t].flight;
        id < |n.flights| && (n.flights[id].done.Some? || exists u :: 0 <= u < |n.pcs| && Leads(n.pcs[u]) && n.pcs[u].flight == id)
  {
    StartInv(s);
    RunKeeps(s, steps);
    var n := Run(s, steps);
    if t < |n.pcs| && n.pcs[t].Wait? {
      assert FollowOk(n, n.pcs[t]);
      assert ListedOk(n, n.pcs[t].key);
    }
  }

  // ----- absence

  /** The flight a get that starts now belongs to. */
  function Joined(s: State, key: Key): nat { if key in s.listed then s.listed[key] else |s.flights| }

  /** Thread u leads a flight for the key and has found it absent. */
  predicate FoundAbsent(s: State, key: Key, u: nat) {
    u < |s.pcs| && (s.pcs[u].Publish? || s.pcs[u].Unlist?) && s.pcs[u].key == key && s.pcs[u].answer == NotFound
  }

  /** The leader of the key's listed flight has found it absent and has not yet taken the flight off the table. */
  ghost predicate Doomed(s: State, key: Key) { exists u: nat :: FoundAbsent(s, key, u) }

  /** The key is there, the flight is for it, and nothing has answered or is about to answer the flight with absence. */
  ghost predicate Undecided(s: State, key: Key, id: nat) {
    && key in s.inner && id < |s.flights| && s.flights[id].key == key && s.flights[id].done != Some(NotFound)
    && forall u: nat :: FoundAbsent(s, key, u) ==> s.pcs[u].flight != id
  }

  lemma JoinsUndecided(s: State, t: nat, key: Key)
    requires Inv(s) && Enabled(s, Get(t, key)) && key in s.inner && !Doomed(s, key)
    ensures Undecided(Next(s, Get(t, key)), key, Joined(s, key))
  {
    assert ListedOk(s, key);
    var n := Next(s, Get(t, key));
    forall u: nat ensures !FoundAbsent(n, key, u) { assert !FoundAbsent(s, key, u); }
    if key in s.listed {
      var f := s.flights[s.listed[key]];
      assert LeadOk(s, f.leader, s.pcs[f.leader]);
      assert !FoundAbsent(s, key, f.leader);
    }
  }

  lemma StaysUndecided(s: State, step: Step, key: Key, id: nat)
    requires Inv(s) && Enabled(s, step) && Undecided(s, key, id)
    ensures Undecided(Next(s, step), key, id)
  {
    var n := Next(s, step);
    if step.Publishes? { assert LeadOk(s, step.t, s.pcs[step.t]); }
    forall u: nat | FoundAbsent(n, key, u) ensures n.pcs[u].flight != id {
      if n.pcs[u] != s.pcs[u] {
        assert LeadOk(s, u, s.pcs[u]);
      } else {
        assert FoundAbsent(s, key, u);
      }
    }
  }

  lemma {:induction false} RunsUndecided(s: State, steps: seq<Step>, key: Key, id: nat)
    requires Inv(s) && Feasible(s, steps) && Undecided(s, key, id)
    ensures Undecided(Run(s, steps), key, id)
    decreases |steps|
  {
    hide Inv;
    hide Next;
    hide Undecided;
    if steps != [] {
      StepKeeps(s, steps[0]);
      StaysUndecided(s, steps[0], key, id);
      RunsUndecided(Next(s, steps[0]), steps[1..], key, id);
    }
  }

  /** A get that starts with its key present is told of its absence, now or later, only through a doomed flight. */
  lemma PresentIsSeen(s: State, before: seq<Step>, t: nat, key: Key, after: seq<Step>)
    requires Start(s) && Feasible(s, before) && Enabled(Run(s, before), Get(t, key))
    requires Feasible(Next(Run(s, before), Get(t, key)), after)
    requires key in Run(s, before).inner && !Doomed(Run(s, before), key)
    ensures var id, n := Joined(Run(s, before), key), Run(Next(Run(s, before), Get(t, key)), after);
      id < |n.flights| && n.flights[id].key == key && n.flights[id].done != Some(NotFound)
  {
    StartInv(s);
    RunKeeps(s, before);
    var mid := Run(s, before);
    StepKeeps(mid, Get(t, key));
    JoinsUndecided(mid, t, key);
    hide Next;
    RunsUndecided(Next(mid, Get(t, key)), after, key, Joined(mid, key));
  }

  /** In the run, thread t's get of the key through flight id has returned absence. */
  ghost predicate ToldAbsent(m: State, after: seq<Step>, t: nat, key: Key, id: nat) {
    Feasible(m, after) && t < |Run(m, after).pcs| && Run(m, after).pcs[t] == Got(key, id, NotFound)
  }

  /**
   A get that starts with its key present, a put of it having returned, can be told that the key is absent exactly when
   the flight it joins has a leader that found the key absent and has not yet left the table.
   */
  lemma MissedExactly(s: State, before: seq<Step>, t: nat, key: Key)
    requires Start(s) && Feasible(s, before) && Enabled(Run(s, before), Get(t, key)) && key in Run(s, before).inner
    ensures (exists after :: ToldAbsent(Next(Run(s, before), Get(t, key)), after, t, key, Joined(Run(s, before), key)))
            <==> Doomed(Run(s, before), key)
  {
    StartInv(s);
    RunKeeps(s, before);
    var mid, id := Run(s, before), Joined(Run(s, before), key);
    var m := Next(mid, Get(t, key));
    StepKeeps(mid, Get(t, key));
    if Doomed(mid, key) {
      var after := Witness(mid, t, key);
      assert ToldAbsent(m, after, t, key, id);
    } else {
      forall after ensures !ToldAbsent(m, after, t, key, id) {
        if ToldAbsent(m, after, t, key, id) {
          PresentIsSeen(s, before, t, key, after);
          RunKeeps(m, after);
          GotPublished(Run(m, after), t);
        }
      }
    }
  }

  lemma GotPublished(n: State, t: nat)
    requires Inv(n) && t < |n.pcs| && n.pcs[t].Got?
    ensures n.pcs[t].flight < |n.flights| && n.flights[n.pcs[t].flight].done == Some(n.pcs[t].answer)
  {
    assert FollowOk(n, n.pcs[t]);
  }

  /** The leader publishes what it found, and the joined get wakes to it. */
  lemma Witness(mid: State, t: nat, key: Key) returns (after: seq<Step>)
    requires Inv(mid) && Enabled(mid, Get(t, key)) && Doomed(mid, key)
    ensures ToldAbsent(Next(mid, Get(t, key)), after, t, key, Joined(mid, key))
  {
    var u: nat :| FoundAbsent(mid, key, u);
    assert LeadOk(mid, u, mid.pcs[u]);
    var m := Next(mid, Get(t, key));
    var id := mid.listed[key];
    assert m.pcs[t] == Wait(key, id) && m.pcs[u] == mid.pcs[u] && m.flights == mid.flights;
    if mid.pcs[u].Unlist? {
      after := [Wakes(t)];
      OneStep(m, Wakes(t));
    } else {
      after := [Publishes(u), Wakes(t)];
      var p := Next(m, Publishes(u));
      OneStep(p, Wakes(t));
      assert after[1..] == [Wakes(t)];
      Cons(m, after);
    }
  }

  lemma OneStep(s: State, step: Step)
    requires Enabled(s, step)
    ensures Feasible(s, [step]) && Run(s, [step]) == Next(s, step)
  {
    var rest: seq<Step> := [step][1..];
    Last(Next(s, step));
    Cons(s, [step]);
  }

  /** The flight's answer is a, or its leader is about to publish a. */
  ghost predicate Decided(s: State, t: nat, key: Key, id: nat, a: Answer) {
    id < |s.flights| && t < |s.pcs| && (s.flights[id].done == Some(a) || (s.flights[id].done.None? && s.pcs[t] == Publish(key, id, a)))
  }

  lemma StaysDecided(s: State, step: Step, t: nat, key: Key, id: nat, a: Answer)
    requires Inv(s) && Enabled(s, step) && Decided(s, t, key, id, a)
    ensures Decided(Next(s, step), t, key, id, a)
  {
    assert LeadOk(s, t, s.pcs[t]);
    if step.Publishes? { assert LeadOk(s, step.t, s.pcs[step.t]); }
  }

  lemma {:induction false} RunsDecided(s: State, steps: seq<Step>, t: nat, key: Key, id: nat, a: Answer)
    requires Inv(s) && Feasible(s, steps) && Decided(s, t, key, id, a)
    ensures Decided(Run(s, steps), t, key, id, a)
    decreases |steps|
  {
    hide Inv;
    hide Next;
    hide Decided;
    if steps != [] {
      StepKeeps(s, steps[0]);
      StaysDecided(s, steps[0], t, key, id, a);
      RunsDecided(Next(s, steps[0]), steps[1..], t, key, id, a);
    }
  }

  /** A cached copy that is good and answers decides the flight, whatever the inner store does; any other is read through. */
  lemma CacheServes(s: State, before: seq<Step>, t: nat, fails: bool, dropped: bool, after: seq<Step>, u: nat)
    requires Start(s) && Feasible(s, before) && Enabled(Run(s, before), CacheAnswers(t, fails, dropped))
    requires Feasible(Next(Run(s, before), CacheAnswers(t, fails, dropped)), after)
    ensures var mid := Run(s, before);
      var n, key, id := Run(Next(mid, CacheAnswers(t, fails, dropped)), after), mid.pcs[t].key, mid.pcs[t].flight;
      if key in mid.cache && mid.cache[key].Good? && !fails
      then
        && Decided(n, t, key, id, Found(mid.cache[key].body)) && key in mid.inner && mid.inner[key] == mid.cache[key].body
        && (u < |n.pcs| && n.pcs[u].Got? && n.pcs[u].flight == id ==> n.pcs[u].answer == Found(mid.cache[key].body))
      else Next(mid, CacheAnswers(t, fails, dropped)).pcs[t] == AskInner(key, id)
  {
    StartInv(s);
    RunKeeps(s, before);
    var mid, step := Run(s, before), CacheAnswers(t, fails, dropped);
    assert LeadOk(mid, t, mid.pcs[t]);
    StepKeeps(mid, step);
    var key, id := mid.pcs[t].key, mid.pcs[t].flight;
    if key in mid.cache && mid.cache[key].Good? && !fails {
      RunsDecided(Next(mid, step), after, t, key, id, Found(mid.cache[key].body));
      RunKeeps(Next(mid, step), after);
      var n := Run(Next(mid, step), after);
      if u < |n.pcs| && n.pcs[u].Got? { GotPublished(n, u); }
    }
  }

  /** The same with the body the inner store gave still to be put into the cache. */
  ghost predicate Bound(s: State, t: nat, key: Key, id: nat, a: Answer) {
    || Decided(s, t, key, id, a)
    || (id < |s.flights| && t < |s.pcs| && s.flights[id].done.None? && a.Found? && s.pcs[t] == Fill(key, id, a.body))
  }

  lemma StaysBound(s: State, step: Step, t: nat, key: Key, id: nat, a: Answer)
    requires Inv(s) && Enabled(s, step) && Bound(s, t, key, id, a)
    ensures Bound(Next(s, step), t, key, id, a)
  {
    if Decided(s, t, key, id, a) {
      StaysDecided(s, step, t, key, id, a);
    } else {
      assert LeadOk(s, t, s.pcs[t]);
      if step.Publishes? { assert LeadOk(s, step.t, s.pcs[step.t]); }
    }
  }

  lemma {:induction false} RunsBound(s: State, steps: seq<Step>, t: nat, key: Key, id: nat, a: Answer)
    requires Inv(s) && Feasible(s, steps) && Bound(s, t, key, id, a)
    ensures Bound(Run(s, steps), t, key, id, a)
    decreases |steps|
  {
    hide Inv;
    hide Next;
    hide Bound;
    if steps != [] {
      StepKeeps(s, steps[0]);
      StaysBound(s, steps[0], t, key, id, a);
      RunsBound(Next(s, steps[0]), steps[1..], t, key, id, a);
    }
  }

  function InnerAnswer(inner: map<Key, Bytes>, key: Key, fails: bool): Answer {
    if fails then Failed else if key in inner then Found(inner[key]) else NotFound
  }

  /** What the inner store answers a leader is what everyone waiting for its flight gets, whatever the cache does then. */
  lemma InnerServes(s: State, before: seq<Step>, t: nat, fails: bool, after: seq<Step>, u: nat)
    requires Start(s) && Feasible(s, before) && Enabled(Run(s, before), InnerAnswers(t, fails))
    requires Feasible(Next(Run(s, before), InnerAnswers(t, fails)), after)
    ensures var mid := Run(s, before);
      var n, key, id := Run(Next(mid, InnerAnswers(t, fails)), after), mid.pcs[t].key, mid.pcs[t].flight;
      && Bound(n, t, key, id, InnerAnswer(mid.inner, key, fails))
      && (u < |n.pcs| && n.pcs[u].Got? && n.pcs[u].flight == id ==> n.pcs[u].answer == InnerAnswer(mid.inner, key, fails))
  {
    StartInv(s);
    RunKeeps(s, before);
    var mid, step := Run(s, before), InnerAnswers(t, fails);
    assert LeadOk(mid, t, mid.pcs[t]);
    StepKeeps(mid, step);
    var key, id := mid.pcs[t].key, mid.pcs[t].flight;
    RunsBound(Next(mid, step), after, t, key, id, InnerAnswer(mid.inner, key, fails));
    RunKeeps(Next(mid, step), after);
    var n := Run(Next(mid, step), after);
    if u < |n.pcs| && n.pcs[u].Got? { GotPublished(n, u); }
  }

  // ----- how long a call takes

  /** The most steps a thread can take before it is idle again. */
  function Left(pc: Pc): (n: nat)
    ensures n <= 6 && (n == 0 <==> pc.Idle?)
  {
    match pc
    case Idle => 0
    case Got(_, _, _) => 1
    case FillPut(_, _) => 1
    case Wait(_, _) => 2
    case Unlist(_, _, _) => 2
    case Publish(_, _, _) => 3
    case Fill(_, _, _) => 4
    case AskInner(_, _) => 5
    case AskCache(_, _) => 6
  }

  predicate Takes(step: Step, t: nat) { !step.Evict? && !step.Rot? && step.t == t }

  function Taken(steps: seq<Step>, t: nat): nat {
    if steps == [] then 0 else (if Takes(steps[0], t) then 1 else 0) + Taken(steps[1..], t)
  }

  /** The calls a thread begins. */
  function Begun(steps: seq<Step>, t: nat): nat {
    if steps == [] then 0 else (if Takes(steps[0], t) && (steps[0].Get? || steps[0].Put?) then 1 else 0) + Begun(steps[1..], t)
  }

  /** Each step of a thread that begins no call brings it closer to idle; no other step moves it. */
  lemma StepMoves(s: State, step: Step, t: nat)
    requires Enabled(s, step) && t < |s.pcs|
    ensures |Next(s, step).pcs| == |s.pcs|
    ensures !Takes(step, t) ==> Next(s, step).pcs[t] == s.pcs[t]
    ensures Takes(step, t) && (step.Get? || step.Put?) ==> s.pcs[t].Idle?
    ensures Takes(step, t) && !(step.Get? || step.Put?) ==> Left(Next(s, step).pcs[t]) < Left(s.pcs[t])
  {
  }

  /** In every run a thread takes at most seven steps for each get or put it begins. */
  lemma {:induction false} CallsEnd(s: State, steps: seq<Step>, t: nat)
    requires Feasible(s, steps) && t < |s.pcs|
    ensures t < |Run(s, steps).pcs| && Taken(steps, t) + Left(Run(s, steps).pcs[t]) <= Left(s.pcs[t]) + 7 * Begun(steps, t)
    decreases |steps|
  {
    hide Next;
    hide Left;
    if steps != [] {
      StepMoves(s, steps[0], t);
      CallsEnd(Next(s, steps[0]), steps[1..], t);
    }
  }

  /** And in every reachable state a thread that is neither idle nor waiting for a flight can take one, and copies can be evicted. */
  lemma CanMove(s: State, before: seq<Step>, t: nat)
    requires Start(s) && Feasible(s, before) && t < |Run(s, before).pcs|
    ensures var mid := Run(s, before);
      && (!mid.pcs[t].Idle? && !mid.pcs[t].Wait? ==> exists step :: Enabled(mid, step) && Takes(step, t))
      && forall keys :: Enabled(mid, Evict(keys))
  {
    StartInv(s);
    RunKeeps(s, before);
    var mid := Run(s, before);
    assert LeadOk(mid, t, mid.pcs[t]);
    hide Feasible;
    hide Inv;
    var step := match mid.pcs[t]
      case AskCache(_, _) => CacheAnswers(t, true, true)
      case AskInner(_, _) => InnerAnswers(t, true)
      case Publish(_, _, _) => Publishes(t)
      case Unlist(_, _, _) => Unlists(t)
      case Got(_, _, _) => Rests(t)
      case _ => CacheFills(t, true);
    assert !mid.pcs[t].Idle? && !mid.pcs[t].Wait? ==> Enabled(mid, step) && Takes(step, t);
  }

  // ----- bad copies

  /** The cache has a copy of the key that it can answer with. */
  predicate Servable(s: State, key: Key) { key in s.cache && s.cache[key].Good? }

  predicate FillsCache(s: State, step: Step, key: Key)
    requires Enabled(s, step)
  {
    step.CacheFills? && step.stored && s.pcs[step.t].key == key
  }

  /** The step takes the cached copy away, or spoils it: an eviction, rot, or a failed read that drops it. */
  predicate Spoils(s: State, step: Step, key: Key)
    requires Enabled(s, step)
  {
    match step
    case Evict(keys) => key in keys
    case Rot(k) => k == key
    case CacheAnswers(t, fails, dropped) => s.pcs[t].key == key && dropped && (fails || !Servable(s, key))
    case _ => false
  }

  /** No other step touches the cached copy. */
  lemma CopyStays(s: State, step: Step, key: Key)
    requires Enabled(s, step) && !FillsCache(s, step, key) && !Spoils(s, step, key)
    ensures key in Next(s, step).cache <==> key in s.cache
    ensures key in s.cache ==> Next(s, step).cache[key] == s.cache[key]
  {
  }

  ghost predicate NoneFills(s: State, steps: seq<Step>, key: Key)
    requires Feasible(s, steps)
    decreases |steps|
  {
    steps == [] || (!FillsCache(s, steps[0], key) && NoneFills(Next(s, steps[0]), steps[1..], key))
  }

  lemma {:induction false} StaysSpoilt(s: State, steps: seq<Step>, key: Key)
    requires Feasible(s, steps) && NoneFills(s, steps, key) && !Servable(s, key)
    ensures !Servable(Run(s, steps), key)
    decreases |steps|
  {
    if steps != [] {
      assert !Servable(Next(s, steps[0]), key);
      hide Next;
      StaysSpoilt(Next(s, steps[0]), steps[1..], key);
    }
  }

  /** A copy that is gone or spoilt never answers again: until the cache is filled anew every leader asks the inner store. */
  lemma SpoiltIsReadThrough(s: State, spoils: Step, key: Key, after: seq<Step>, t: nat, fails: bool, dropped: bool)
    requires Enabled(s, spoils) && Spoils(s, spoils, key)
    requires Feasible(Next(s, spoils), after) && NoneFills(Next(s, spoils), after, key)
    requires Enabled(Run(Next(s, spoils), after), CacheAnswers(t, fails, dropped)) && Run(Next(s, spoils), after).pcs[t].key == key
    ensures Next(Run(Next(s, spoils), after), CacheAnswers(t, fails, dropped)).pcs[t].AskInner?
  {
    assert !Servable(Next(s, spoils), key);
    StaysSpoilt(Next(s, spoils), after, key);
  }

  /** A flight that began with the key present is never doomed. */
  lemma LiveNotDoomed(s: State, before: seq<Step>, key: Key)
    requires Start(s) && Feasible(s, before) && key in Run(s, before).listed
    ensures var mid := Run(s, before);
      mid.listed[key] < |mid.flights| && (mid.flights[mid.listed[key]].live ==> key in mid.inner && !Doomed(mid, key))
  {
    StartInv(s);
    RunKeeps(s, before);
    var mid := Run(s, before);
    assert ListedOk(mid, key);
    assert FlightOk(mid, mid.flights[mid.listed[key]]);
    forall u: nat ensures FoundAbsent(mid, key, u) ==> !mid.flights[mid.listed[key]].live {
      if u < |mid.pcs| { assert LeadOk(mid, u, mid.pcs[u]); }
    }
  }

  ghost predicate NoneFailed(s: State) {
    && (forall i :: 0 <= i < |s.flights| ==> s.flights[i].done != Some(Failed))
    && (forall t :: 0 <= t < |s.pcs| ==> (s.pcs[t].Publish? || s.pcs[t].Unlist? || s.pcs[t].Got? ==> s.pcs[t].answer != Failed))
  }

  predicate InnerFails(step: Step) { step.InnerAnswers? && step.fails }

  lemma StepNotFailed(s: State, step: Step)
    requires NoneFailed(s) && Enabled(s, step) && !InnerFails(step)
    ensures NoneFailed(Next(s, step))
  {
    var n := Next(s, step);
    if step.Publishes? {
      forall i | 0 <= i < |n.flights| ensures n.flights[i].done != Some(Failed) {}
    } else if step.Get? {
      forall i | 0 <= i < |n.flights| ensures n.flights[i].done != Some(Failed) {}
    }
    hide Enabled;
  }

  /** Bad or failing cached copies never make a read fail: only the inner store can. */
  lemma {:induction false} OnlyInnerFails(s: State, steps: seq<Step>)
    requires NoneFailed(s) && Feasible(s, steps) && forall i :: 0 <= i < |steps| ==> !InnerFails(steps[i])
    ensures NoneFailed(Run(s, steps))
    decreases |steps|
  {
    hide Next;
    hide NoneFailed;
    hide Enabled;
    if steps != [] {
      assert !InnerFails(steps[0]);
      StepNotFailed(s, steps[0]);
      OnlyInnerFails(Next(s, steps[0]), steps[1..]);
    }
  }

  /** With the inner store answering, every get that begins with its key present and its flight not doomed returns the body. */
  lemma PresentIsReturned(s: State, before: seq<Step>, t: nat, key: Key, after: seq<Step>, u: nat)
    requires Start(s) && Feasible(s, before) && Enabled(Run(s, before), Get(t, key))
    requires key in Run(s, before).inner && !Doomed(Run(s, before), key)
    requires var mid := Next(Run(s, before), Get(t, key));
      NoneFailed(mid) && Feasible(mid, after) && forall i :: 0 <= i < |after| ==> !InnerFails(after[i])
    ensures var n := Run(Next(Run(s, before), Get(t, key)), after);
      u < |n.pcs| && n.pcs[u].Got? && n.pcs[u].flight == Joined(Run(s, before), key) ==>
        n.pcs[u].key == key && key in n.inner && n.pcs[u].answer == Found(n.inner[key])
  {
    var mid := Next(Run(s, before), Get(t, key));
    var n := Run(mid, after);
    PresentIsSeen(s, before, t, key, after);
    OnlyInnerFails(mid, after);
    StartInv(s);
    RunKeeps(s, before);
    StepKeeps(Run(s, before), Get(t, key));
    RunKeeps(mid, after);
    hide Next;
    hide LeadOk;
    hide ListedOk;
    if u < |n.pcs| && n.pcs[u].Got? {
      assert FollowOk(n, n.pcs[u]);
      assert FlightOk(n, n.flights[n.pcs[u].flight]);
    }
  }

  const EMPTY := State(map[], map[], map[], [], [Idle, Idle, Idle])

  /** A get misses, then the key is put, then another get starts and joins the old flight. */
  function StaleRun(key: Key, body: Bytes): seq<Step> {
    [Get(0, key), CacheAnswers(0, false, false), InnerAnswers(0, false), Put(1, key, body), CacheFills(1, true),
     Get(2, key), Publishes(0), Wakes(2)]
  }

  function StaleEnd(key: Key, body: Bytes): State {
    State(map[key := body], map[key := Good(body)], map[key := 0], [Flight(key, 0, false, Some(NotFound))],
          [Unlist(key, 0, NotFound), Idle, Got(key, 0, NotFound)])
  }

  /** Otherwise it can be: thread 2's get starts after thread 1's put has returned and is told that the key is absent. */
  lemma PutCanBeMissed(key: Key, body: Bytes)
    ensures Start(EMPTY) && Feasible(EMPTY, StaleRun(key, body)) && Run(EMPTY, StaleRun(key, body)) == StaleEnd(key, body)
  {
    hide Run;
    hide Feasible;
    var s1 := EMPTY.(listed := map[key := 0], flights := [Flight(key, 0, false, None)], pcs := [AskCache(key, 0), Idle, Idle]);
    assert Next(EMPTY, Get(0, key)) == s1;
    var s2 := s1.(pcs := [AskInner(key, 0), Idle, Idle]);
    assert Next(s1, CacheAnswers(0, false, false)) == s2;
    var s3 := s1.(pcs := [Publish(key, 0, NotFound), Idle, Idle]);
    assert Next(s2, InnerAnswers(0, false)) == s3;
    MissedRest(key, body, s3);
    var steps := StaleRun(key, body);
    assert steps[2..][1..] == steps[3..] && steps[1..][1..] == steps[2..];
    Cons(s2, steps[2..]);
    Cons(s1, steps[1..]);
    Cons(EMPTY, steps);
  }

  lemma MissedRest(key: Key, body: Bytes, s3: State)
    requires s3 == EMPTY.(listed := map[key := 0], flights := [Flight(key, 0, false, None)], pcs := [Publish(key, 0, NotFound), Idle, Idle])
    ensures Feasible(s3, StaleRun(key, body)[3..]) && Run(s3, StaleRun(key, body)[3..]) == StaleEnd(key, body)
  {
    hide Run;
    hide Feasible;
    var s4 := s3.(inner := map[key := body], pcs := [Publish(key, 0, NotFound), FillPut(key, body), Idle]);
    assert Next(s3, Put(1, key, body)) == s4;
    var s5 := s4.(cache := map[key := Good(body)], pcs := [Publish(key, 0, NotFound), Idle, Idle]);
    assert Next(s4, CacheFills(1, true)) == s5;
    var s6 := s5.(pcs := [Publish(key, 0, NotFound), Idle, Wait(key, 0)]);
    assert Next(s5, Get(2, key)) == s6;
    var s7 := s6.(flights := [Flight(key, 0, false, Some(NotFound))], pcs := [Unlist(key, 0, NotFound), Idle, Wait(key, 0)]);
    assert Next(s6, Publishes(0)) == s7;
    assert Next(s7, Wakes(2)) == StaleEnd(key, body);
    var steps := StaleRun(key, body);
    Last(StaleEnd(key, body));
    assert steps[7..] == [Wakes(2)] && steps[7..][1..] == [];
    Cons(s7, steps[7..]);
    assert steps[6..][1..] == steps[7..];
    Cons(s6, steps[6..]);
    assert steps[5..][1..] == steps[6..];
    Cons(s5, steps[5..]);
    assert steps[4..][1..] == steps[5..];
    Cons(s4, steps[4..]);
    assert steps[3..][1..] == steps[4..];
    Cons(s3, steps[3..]);
  }

  lemma Last(s: State)
    ensures Feasible(s, []) && Run(s, []) == s
  {
  }

  lemma Cons(s: State, steps: seq<Step>)
    requires steps != [] && Enabled(s, steps[0]) && Feasible(Next(s, steps[0]), steps[1..])
    ensures Feasible(s, steps) && Run(s, steps) == Run(Next(s, steps[0]), steps[1..])
  {
  }
}
