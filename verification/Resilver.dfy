/**
 The mirror walk: page through every key of the pool in order and bring each onto all the shards placement wants, with
 shard calls that may fail.
 */
module Resilver {
  import opened Bytes
  import opened Order
  import opened Listing

  /** Which shards fail which kind of call for which key, and which cannot list, throughout a walk. */
  datatype Faults = Faults(has: set<(nat, Key)>, get: set<(nat, Key)>, put: set<(nat, Key)>, list: set<nat>)

  datatype Repair = Repaired(repaired: nat, left: nat) | NoSource
  datatype Report = Report(scanned: nat, repaired: nat, errors: nat, done: bool, last: Option<Key>)

  type Tables = seq<Table>

  ghost predicate AllValid(ts: Tables) { forall s :: 0 <= s < |ts| ==> ts[s].Valid() }

  /** The keys some shard has. */
  ghost function Union(ts: Tables): set<Key> {
    if ts == [] then {} else Union(ts[..|ts| - 1]) + ts[|ts| - 1].bodies.Keys
  }

  lemma {:induction false} UnionHas(ts: Tables, k: Key)
    ensures k in Union(ts) <==> exists s :: 0 <= s < |ts| && k in ts[s].bodies
  {
    if ts != [] {
      var n := |ts| - 1;
      UnionHas(ts[..n], k);
      if k in Union(ts[..n]) {
        var s :| 0 <= s < n && k in ts[..n][s].bodies;
        assert k in ts[s].bodies;
      }
      if s :| 0 <= s < |ts| && k in ts[s].bodies {
        if s < n { assert k in ts[..n][s].bodies; }
      }
    }
  }

  predicate Holds(ts: Tables, s: nat, k: Key) { s < |ts| && k in ts[s].bodies }

  /** The key is on every shard placement wants it on. */
  ghost predicate Placed(ts: Tables, desired: seq<nat>, k: Key) { forall i :: 0 <= i < |desired| ==> Holds(ts, desired[i], k) }

  /** From a to b only copies of k were added, on shards it is wanted on, all of the body. */
  ghost predicate Copied(a: Tables, b: Tables, k: Key, desired: seq<nat>, body: Bytes) {
    && |a| == |b|
    && forall s :: 0 <= s < |a| ==> a[s] == b[s] || (s in desired && b[s] == Store(a[s], k, body))
  }

  /** From a to b shards only gained copies of keys the pool had. */
  ghost predicate Gained(a: Tables, b: Tables) {
    && |a| == |b|
    && (forall s, k :: 0 <= s < |a| && k in a[s].bodies ==> k in b[s].bodies)
    && (forall s, k :: 0 <= s < |b| && k in b[s].bodies ==> k in Union(a))
  }

  lemma GainedUnion(a: Tables, b: Tables)
    requires Gained(a, b)
    ensures Union(a) == Union(b)
  {
    forall k ensures k in Union(a) <==> k in Union(b) {
      UnionHas(a, k);
      UnionHas(b, k);
    }
  }

  lemma GainedSelf(a: Tables)
    ensures Gained(a, a)
  {
    forall s, k | 0 <= s < |a| && k in a[s].bodies ensures k in Union(a) { UnionHas(a, k); }
  }

  lemma GainedTrans(a: Tables, b: Tables, c: Tables)
    requires Gained(a, b) && Gained(b, c)
    ensures Gained(a, c)
  {
    GainedUnion(a, b);
  }

  lemma GainedHolds(a: Tables, b: Tables, s: nat, k: Key)
    requires Gained(a, b) && Holds(a, s, k)
    ensures Holds(b, s, k)
  {
  }

  lemma GainedPlaced(a: Tables, b: Tables, desired: seq<nat>, k: Key)
    requires Gained(a, b) && Placed(a, desired, k)
    ensures Placed(b, desired, k)
  {
    forall i | 0 <= i < |desired| ensures Holds(b, desired[i], k) { assert Holds(a, desired[i], k); }
  }

  lemma StoreGains(ts: Tables, s: nat, k: Key, body: Bytes)
    requires AllValid(ts) && s < |ts| && k in Union(ts)
    ensures AllValid(ts[s := Store(ts[s], k, body)]) && Gained(ts, ts[s := Store(ts[s], k, body)])
  {
    StoreValid(ts[s], k, body);
    GainedSelf(ts);
  }

  /** What shards answer to a lookup and to a read. */
  predicate Has(ts: Tables, s: nat, k: Key, f: Faults) { (s, k) !in f.has && Holds(ts, s, k) }

  function Get(ts: Tables, s: nat, k: Key, f: Faults): Option<Bytes> {
    if (s, k) !in f.get && Holds(ts, s, k) then Some(ts[s].bodies[k]) else None
  }

  // ----- what repair does to one key

  /** The wanted shards that say they have the key, or those that do not. */
  function Saying(ts: Tables, want: seq<nat>, k: Key, f: Faults, yes: bool): (r: seq<nat>)
    ensures forall s :: s in r <==> s in want && Has(ts, s, k, f) == yes
  {
    if want == [] then []
    else
      var n := |want| - 1;
      Saying(ts, want[..n], k, f, yes) + (if Has(ts, want[n], k, f) == yes then [want[n]] else [])
  }

  /** How many of the shards take the write. */
  function Taking(missing: seq<nat>, k: Key, f: Faults): (n: nat)
    ensures n <= |missing|
  {
    if missing == [] then 0
    else Taking(missing[..|missing| - 1], k, f) + (if (missing[|missing| - 1], k) in f.put then 0 else 1)
  }

  ghost predicate Unreadable(ts: Tables, k: Key, f: Faults) { forall s: nat :: Get(ts, s, k, f).None? }

  /** The body is the first copy that can be read of the shards in have, or of all shards if none of those can be. */
  ghost predicate Source(ts: Tables, have: seq<nat>, k: Key, f: Faults, body: Bytes) {
    if forall i :: 0 <= i < |have| ==> Get(ts, have[i], k, f).None?
    then exists s: nat :: Get(ts, s, k, f) == Some(body) && forall t: nat :: t < s ==> Get(ts, t, k, f).None?
    else exists i :: 0 <= i < |have| && Get(ts, have[i], k, f) == Some(body) && forall j :: 0 <= j < i ==> Get(ts, have[j], k, f).None?
  }

  /** How many copies repairing the key makes, and how many errors it counts. */
  ghost function Repairs(ts: Tables, want: seq<nat>, k: Key, f: Faults): nat {
    if Unreadable(ts, k, f) then 0 else Taking(Saying(ts, want, k, f, false), k, f)
  }

  ghost function Errors(ts: Tables, want: seq<nat>, k: Key, f: Faults): nat {
    var missing := Saying(ts, want, k, f, false);
    if missing == [] then 0 else if Unreadable(ts, k, f) then 1 else |missing| - Taking(missing, k, f)
  }

  /** Shard s has the same of the key in both. */
  ghost predicate SameAt(a: Tables, b: Tables, s: nat, k: Key) {
    s < |a| && s < |b| && (k in a[s].bodies <==> k in b[s].bodies) && (k in a[s].bodies ==> a[s].bodies[k] == b[s].bodies[k])
  }

  ghost predicate SameOn(a: Tables, b: Tables, k: Key) { |a| == |b| && forall s: nat :: s < |a| ==> SameAt(a, b, s, k) }

  /** From a to b the key got the body on the wanted shards that did not say they had it, if they took it, and nowhere else. */
  ghost predicate Spread(a: Tables, b: Tables, want: seq<nat>, k: Key, f: Faults, body: Bytes) {
    && |a| == |b|
    && forall s: nat :: s < |a| ==>
         if s in Saying(a, want, k, f, false) && (s, k) !in f.put then k in b[s].bodies && b[s].bodies[k] == body else SameAt(a, b, s, k)
  }

  /** From a to b the key was repaired, as far as shards took it. */
  ghost predicate Mended(a: Tables, b: Tables, want: seq<nat>, k: Key, f: Faults) {
    if Saying(a, want, k, f, false) == [] || Unreadable(a, k, f) then SameOn(a, b, k)
    else exists body :: Source(a, Saying(a, want, k, f, true), k, f, body) && Spread(a, b, want, k, f, body)
  }

  lemma {:induction false} SameSaying(a: Tables, b: Tables, want: seq<nat>, k: Key, f: Faults, yes: bool)
    requires SameOn(a, b, k)
    ensures Saying(a, want, k, f, yes) == Saying(b, want, k, f, yes)
  {
    if want != [] {
      SameSaying(a, b, want[..|want| - 1], k, f, yes);
      assert Has(a, want[|want| - 1], k, f) == Has(b, want[|want| - 1], k, f) by { assert want[|want| - 1] < |a| ==> SameAt(a, b, want[|want| - 1], k); }
    }
  }

  lemma SameGet(a: Tables, b: Tables, k: Key, f: Faults)
    requires SameOn(a, b, k)
    ensures forall s: nat :: Get(a, s, k, f) == Get(b, s, k, f)
  {
    forall s: nat ensures Get(a, s, k, f) == Get(b, s, k, f) { assert s < |a| ==> SameAt(a, b, s, k); }
  }

  /** What repair does to a key depends on that key's copies alone. */
  lemma SameCounts(a: Tables, b: Tables, want: seq<nat>, k: Key, f: Faults)
    requires SameOn(a, b, k)
    ensures Repairs(a, want, k, f) == Repairs(b, want, k, f) && Errors(a, want, k, f) == Errors(b, want, k, f)
  {
    SameSaying(a, b, want, k, f, false);
    SameGet(a, b, k, f);
  }

  lemma SameSelf(a: Tables)
    ensures forall k :: SameOn(a, a, k)
  {
  }

  lemma {:induction false} TakingAll(missing: seq<nat>, k: Key, f: Faults)
    ensures Taking(missing, k, f) == |missing| <==> forall s :: s in missing ==> (s, k) !in f.put
  {
    if missing != [] {
      var n := |missing| - 1;
      TakingAll(missing[..n], k, f);
      assert missing == missing[..n] + [missing[n]];
    }
  }

  /** A key no wanted shard denies is in place; one that is, no shard denies, unless falsely. */
  lemma NothingSaid(a: Tables, want: seq<nat>, k: Key, f: Faults)
    ensures Saying(a, want, k, f, false) == [] ==> Placed(a, want, k)
    ensures Placed(a, want, k) && f.has == {} ==> Saying(a, want, k, f, false) == []
  {
    var missing := Saying(a, want, k, f, false);
    hide Saying;
    if missing == [] {
      forall i | 0 <= i < |want| ensures Holds(a, want[i], k) { assert want[i] !in missing; }
    } else {
      assert missing[0] in missing;
      var i :| 0 <= i < |want| && want[i] == missing[0];
    }
  }

  /** Copied to, every wanted shard that takes writes has the key, and if none failed all have. */
  lemma CopiesPlace(a: Tables, b: Tables, want: seq<nat>, k: Key, f: Faults, body: Bytes, left: nat)
    requires CopiedTo(a, b, Saying(a, want, k, f, false), k, f, body) && forall s :: s in Saying(a, want, k, f, false) ==> s < |a|
    requires left == 0 ==> forall s :: s in Saying(a, want, k, f, false) ==> (s, k) !in f.put
    ensures left == 0 ==> Placed(b, want, k)
    ensures forall s :: s in want && (s, k) !in f.put ==> Holds(b, s, k)
  {
    forall s | s in want && (left == 0 || (s, k) !in f.put) ensures Holds(b, s, k) {
      if s !in Saying(a, want, k, f, false) { assert Has(a, s, k, f); }
    }
    hide Saying;
  }

  /** From a to b the shards in missing that took the write got the body, and nothing else happened. */
  ghost predicate CopiedTo(a: Tables, b: Tables, missing: seq<nat>, k: Key, f: Faults, body: Bytes) {
    |a| == |b| && forall s: nat :: s < |a| ==> b[s] == if s in missing && (s, k) !in f.put then Store(a[s], k, body) else a[s]
  }

  /** Copying the source to the missing shards mends the key and touches no other. */
  lemma CopiesMend(a: Tables, b: Tables, desired: Key -> seq<nat>, k: Key, f: Faults, body: Bytes)
    requires Source(a, Saying(a, desired(k), k, f, true), k, f, body)
    requires CopiedTo(a, b, Saying(a, desired(k), k, f, false), k, f, body)
    requires Saying(a, desired(k), k, f, false) != [] && !Unreadable(a, k, f)
    ensures MendedAll(a, b, desired, {k}, f)
  {
    hide Source;
    hide Saying;
    hide Get;
    assert Spread(a, b, desired(k), k, f, body);
    forall j | j != k ensures SameOn(a, b, j) {}
  }

  lemma SameSource(a: Tables, b: Tables, have: seq<nat>, k: Key, f: Faults)
    requires forall s: nat :: Get(a, s, k, f) == Get(b, s, k, f)
    ensures forall body :: Source(a, have, k, f, body) <==> Source(b, have, k, f, body)
  {
    hide Get;
  }

  lemma MendedThen(a: Tables, b: Tables, c: Tables, want: seq<nat>, k: Key, f: Faults)
    requires Mended(a, b, want, k, f) && SameOn(b, c, k)
    ensures Mended(a, c, want, k, f)
  {
    hide Source;
    hide Get;
    hide Has;
    if !(Saying(a, want, k, f, false) == [] || Unreadable(a, k, f)) {
      var body :| Source(a, Saying(a, want, k, f, true), k, f, body) && Spread(a, b, want, k, f, body);
      SpreadThen(a, b, c, want, k, f, body);
    } else {
      SameTrans(a, b, c, k);
    }
  }

  lemma SpreadThen(a: Tables, b: Tables, c: Tables, want: seq<nat>, k: Key, f: Faults, body: Bytes)
    requires Spread(a, b, want, k, f, body) && SameOn(b, c, k)
    ensures Spread(a, c, want, k, f, body)
  {
    hide Saying;
    forall s: nat | s < |a|
      ensures if s in Saying(a, want, k, f, false) && (s, k) !in f.put then k in c[s].bodies && c[s].bodies[k] == body else SameAt(a, c, s, k)
    {
      assert SameAt(b, c, s, k);
      assert (s in Saying(a, want, k, f, false) && (s, k) !in f.put) || SameAt(a, b, s, k);
    }
  }

  lemma SpreadAfter(a: Tables, b: Tables, c: Tables, want: seq<nat>, k: Key, f: Faults, body: Bytes)
    requires SameOn(a, b, k) && Spread(b, c, want, k, f, body) && Saying(a, want, k, f, false) == Saying(b, want, k, f, false)
    ensures Spread(a, c, want, k, f, body)
  {
    hide Saying;
    forall s: nat | s < |a|
      ensures if s in Saying(a, want, k, f, false) && (s, k) !in f.put then k in c[s].bodies && c[s].bodies[k] == body else SameAt(a, c, s, k)
    {
      assert SameAt(a, b, s, k);
      assert (s in Saying(b, want, k, f, false) && (s, k) !in f.put) || SameAt(b, c, s, k);
    }
  }

  lemma MendedAfter(a: Tables, b: Tables, c: Tables, want: seq<nat>, k: Key, f: Faults)
    requires SameOn(a, b, k) && Mended(b, c, want, k, f)
    ensures Mended(a, c, want, k, f)
  {
    SameSaying(a, b, want, k, f, false);
    SameSaying(a, b, want, k, f, true);
    SameGet(a, b, k, f);
    SameSource(a, b, Saying(a, want, k, f, true), k, f);
    hide Source;
    hide Saying;
    hide SameAt;
    hide Get;
    hide Has;
    if !(Saying(a, want, k, f, false) == [] || Unreadable(a, k, f)) {
      var body :| Source(b, Saying(b, want, k, f, true), k, f, body) && Spread(b, c, want, k, f, body);
      SpreadAfter(a, b, c, want, k, f, body);
    } else {
      SameTrans(a, b, c, k);
    }
  }

  /** Summed over a walk's keys, each taken as it was at the start. */
  ghost function AllRepairs(ts: Tables, desired: Key -> seq<nat>, keys: seq<Key>, f: Faults): nat {
    if keys == [] then 0 else Repairs(ts, desired(keys[0]), keys[0], f) + AllRepairs(ts, desired, keys[1..], f)
  }

  ghost function AllErrors(ts: Tables, desired: Key -> seq<nat>, keys: seq<Key>, f: Faults): nat {
    if keys == [] then 0 else Errors(ts, desired(keys[0]), keys[0], f) + AllErrors(ts, desired, keys[1..], f)
  }

  lemma {:induction false} AllConcat(ts: Tables, desired: Key -> seq<nat>, x: seq<Key>, y: seq<Key>, f: Faults)
    ensures AllRepairs(ts, desired, x + y, f) == AllRepairs(ts, desired, x, f) + AllRepairs(ts, desired, y, f)
    ensures AllErrors(ts, desired, x + y, f) == AllErrors(ts, desired, x, f) + AllErrors(ts, desired, y, f)
  {
    hide Repairs;
    hide Errors;
    if x == [] {
      assert x + y == y;
    } else {
      AllConcat(ts, desired, x[1..], y, f);
      assert (x + y)[1..] == x[1..] + y;
    }
  }

  lemma {:induction false} AllSame(a: Tables, b: Tables, desired: Key -> seq<nat>, keys: seq<Key>, f: Faults)
    requires forall k :: k in keys ==> SameOn(a, b, k)
    ensures AllRepairs(a, desired, keys, f) == AllRepairs(b, desired, keys, f)
    ensures AllErrors(a, desired, keys, f) == AllErrors(b, desired, keys, f)
  {
    if keys != [] {
      SameCounts(a, b, desired(keys[0]), keys[0], f);
      AllSame(a, b, desired, keys[1..], f);
    }
  }

  /** From a to b the given keys were repaired and no other touched. */
  ghost predicate MendedAll(a: Tables, b: Tables, desired: Key -> seq<nat>, keys: set<Key>, f: Faults) {
    && (forall k :: k in keys ==> Mended(a, b, desired(k), k, f))
    && (forall k :: k !in keys ==> SameOn(a, b, k))
  }

  lemma MendedBoth(a: Tables, b: Tables, c: Tables, desired: Key -> seq<nat>, x: set<Key>, y: set<Key>, f: Faults)
    requires MendedAll(a, b, desired, x, f) && MendedAll(b, c, desired, y, f) && x !! y
    ensures MendedAll(a, c, desired, x + y, f)
  {
    hide Mended;
    hide SameOn;
    forall k | k in x ensures Mended(a, c, desired(k), k, f) { MendedThen(a, b, c, desired(k), k, f); }
    forall k | k in y ensures Mended(a, c, desired(k), k, f) { MendedAfter(a, b, c, desired(k), k, f); }
    forall k | k !in x + y ensures SameOn(a, c, k) { SameTrans(a, b, c, k); }
  }

  lemma NoneMended(a: Tables, desired: Key -> seq<nat>, keys: seq<Key>, f: Faults)
    ensures MendedAll(a, a, desired, Set(keys[..0]), f)
    ensures AllRepairs(a, desired, keys[..0], f) == 0 && AllErrors(a, desired, keys[..0], f) == 0
  {
    SameSelf(a);
  }

  /** A page repaired after the keys already visited adds its own counts, as they were at the start. */
  lemma MendedPage(a: Tables, b: Tables, c: Tables, desired: Key -> seq<nat>, visited: seq<Key>, page: seq<Key>, f: Faults)
    requires MendedAll(a, b, desired, Set(visited), f) && MendedAll(b, c, desired, Set(page), f)
    requires forall k :: k in page ==> k !in visited
    ensures MendedAll(a, c, desired, Set(visited + page), f)
    ensures AllRepairs(a, desired, visited + page, f) == AllRepairs(a, desired, visited, f) + AllRepairs(b, desired, page, f)
    ensures AllErrors(a, desired, visited + page, f) == AllErrors(a, desired, visited, f) + AllErrors(b, desired, page, f)
  {
    hide Mended;
    hide SameOn;
    MendedBoth(a, b, c, desired, Set(visited), Set(page), f);
    assert Set(visited + page) == Set(visited) + Set(page);
    AllConcat(a, desired, visited, page, f);
    AllSame(a, b, desired, page, f);
  }

  lemma MendedNext(a: Tables, b: Tables, c: Tables, desired: Key -> seq<nat>, done: seq<Key>, k: Key, f: Faults)
    requires k !in done && MendedAll(a, b, desired, Set(done), f) && MendedAll(b, c, desired, {k}, f)
    ensures MendedAll(a, c, desired, Set(done + [k]), f)
    ensures AllRepairs(a, desired, done + [k], f) == AllRepairs(a, desired, done, f) + Repairs(b, desired(k), k, f)
    ensures AllErrors(a, desired, done + [k], f) == AllErrors(a, desired, done, f) + Errors(b, desired(k), k, f)
  {
    OneKey(b, desired, k, f);
    hide MendedAll;
    hide AllRepairs;
    hide AllErrors;
    MendedPage(a, b, c, desired, done, [k], f);
  }

  lemma OneKey(ts: Tables, desired: Key -> seq<nat>, k: Key, f: Faults)
    ensures AllRepairs(ts, desired, [k], f) == Repairs(ts, desired(k), k, f)
    ensures AllErrors(ts, desired, [k], f) == Errors(ts, desired(k), k, f)
    ensures Set([k]) == {k}
  {
    hide Repairs;
    hide Errors;
    assert [k][1..] == [];
  }

  lemma NextDue(keys: seq<Key>, i: nat)
    requires i < |keys| && Distinct(keys)
    ensures keys[i] !in keys[..i] && keys[..i + 1] == keys[..i] + [keys[i]]
  {
  }

  lemma DueApart(keys: seq<Key>, u: set<Key>, after: Option<Key>, batch: nat)
    requires IsFirst(keys, After(u, [], after), batch)
    ensures Distinct(keys)
  {
    forall i, j | 0 <= j < i < |keys| ensures keys[j] != keys[i] {
      LessSelf(keys[i]);
      assert Less(keys[j], keys[i]);
    }
  }

  lemma PageApart(u: set<Key>, start: Option<Key>, visited: seq<Key>, after: Option<Key>, page: seq<Key>, batch: nat)
    requires Walked(u, [], start, visited, after) && IsFirst(page, After(u, [], after), batch)
    ensures forall k :: k in page ==> k !in visited
  {
  }

  lemma SameTrans(a: Tables, b: Tables, c: Tables, k: Key)
    requires SameOn(a, b, k) && SameOn(b, c, k)
    ensures SameOn(a, c, k)
  {
    forall s: nat | s < |a| ensures SameAt(a, c, s, k) { assert SameAt(a, b, s, k) && SameAt(b, c, s, k); }
  }

  /** From a to b one key was repaired with this result. */
  ghost predicate KeyRepaired(a: Tables, b: Tables, desired: Key -> seq<nat>, k: Key, f: Faults, res: Repair) {
    && Gained(a, b) && MendedAll(a, b, desired, {k}, f)
    && (b == a || exists s: nat :: s < |a| && k in a[s].bodies && Copied(a, b, k, desired(k), a[s].bodies[k]))
    && (res.Repaired? && res.left == 0 ==> Placed(b, desired(k), k))
    && (res.Repaired? ==> forall s :: s in desired(k) && (s, k) !in f.put ==> Holds(b, s, k))
    && (res.NoSource? ==> b == a)
    && (Placed(a, desired(k), k) && f.has == {} ==> res == Repaired(0, 0) && b == a)
    && (f.put == {} && res.Repaired? ==> res.left == 0)
    && (res.NoSource? <==> Saying(a, desired(k), k, f, false) != [] && Unreadable(a, k, f))
    && (res.Repaired? ==> res.repaired == Repairs(a, desired(k), k, f) && res.left == Errors(a, desired(k), k, f))
  }

  lemma LeftAlone(a: Tables, desired: Key -> seq<nat>, k: Key, f: Faults, res: Repair)
    requires var missing := Saying(a, desired(k), k, f, false);
      if missing == [] then res == Repaired(0, 0) else res == NoSource && Unreadable(a, k, f)
    ensures KeyRepaired(a, a, desired, k, f, res)
  {
    hide Saying;
    GainedSelf(a);
    SameSelf(a);
    NothingSaid(a, desired(k), k, f);
    if res.Repaired? { assert Taking([], k, f) == 0; }
    if res == Repaired(0, 0) { forall s | s in desired(k) ensures Holds(a, s, k) { AllSay(a, desired(k), k, f, s); } }
    hide Gained;
    hide Mended;
    hide SameOn;
  }

  lemma AllSay(a: Tables, want: seq<nat>, k: Key, f: Faults, s: nat)
    requires Saying(a, want, k, f, false) == [] && s in want
    ensures Holds(a, s, k)
  {
    assert s !in Saying(a, want, k, f, false);
  }

  lemma CopiesRepair(a: Tables, b: Tables, desired: Key -> seq<nat>, k: Key, f: Faults, body: Bytes, from: nat, left: nat)
    requires Source(a, Saying(a, desired(k), k, f, true), k, f, body)
    requires forall s :: s in Saying(a, desired(k), k, f, false) ==> s < |a|
    requires CopiedTo(a, b, Saying(a, desired(k), k, f, false), k, f, body)
    requires Saying(a, desired(k), k, f, false) != [] && Get(a, from, k, f) == Some(body)
    requires Gained(a, b) && Copied(a, b, k, desired(k), body)
    requires var missing := Saying(a, desired(k), k, f, false); left == |missing| - Taking(missing, k, f)
    ensures KeyRepaired(a, b, desired, k, f, Repaired(Taking(Saying(a, desired(k), k, f, false), k, f), left))
  {
    hide Source;
    hide Saying;
    NothingSaid(a, desired(k), k, f);
    TakingAll(Saying(a, desired(k), k, f, false), k, f);
    CopiesMend(a, b, desired, k, f, body);
    CopiesPlace(a, b, desired(k), k, f, body, left);
    hide Gained;
    hide Copied;
    hide CopiedTo;
    hide MendedAll;
    hide Taking;
    hide Placed;
  }

  class MirrorPool {
    const desired: Key -> seq<nat>
    var tables: Tables

    ghost predicate Valid()
      reads this
    {
      AllValid(tables) && forall k, i :: 0 <= i < |desired(k)| ==> desired(k)[i] < |tables|
    }

    constructor (desired: Key -> seq<nat>, tables: Tables)
      requires AllValid(tables) && forall k, i :: 0 <= i < |desired(k)| ==> desired(k)[i] < |tables|
      ensures Valid() && this.desired == desired && this.tables == tables
    {
      this.desired, this.tables := desired, tables;
    }

    /** A copy to repair from: a wanted shard that has the key, or any shard. */
    method ReadForRepair(k: Key, have: seq<nat>, f: Faults) returns (body: Option<Bytes>)
      ensures body.None? <==> Unreadable(tables, k, f)
      ensures body.Some? ==> Source(tables, have, k, f, body.value)
    {
      var i := 0;
      while i < |have|
        invariant i <= |have| && forall j :: 0 <= j < i ==> Get(tables, have[j], k, f).None?
      {
        body := Get(tables, have[i], k, f);
        if body.Some? { return; }
        i := i + 1;
      }
      var s := 0;
      while s < |tables|
        invariant s <= |tables| && forall t: nat :: t < s ==> Get(tables, t, k, f).None?
      {
        body := Get(tables, s, k, f);
        if body.Some? { return; }
        s := s + 1;
      }
      body := None;
    }

    /** Sort the shards the key is wanted on into those that say they have it and the others. */
    method Survey(k: Key, f: Faults) returns (have: seq<nat>, missing: seq<nat>)
      requires Valid()
      ensures have == Saying(tables, desired(k), k, f, true) && missing == Saying(tables, desired(k), k, f, false)
      ensures forall s :: s in missing ==> s < |tables|
    {
      var want := desired(k);
      have, missing := [], [];
      var i := 0;
      assert want[..0] == [];
      while i < |want|
        invariant i <= |want|
        invariant have == Saying(tables, want[..i], k, f, true) && missing == Saying(tables, want[..i], k, f, false)
      {
        assert want[..i + 1][..i] == want[..i];
        if Has(tables, want[i], k, f) { have := have + [want[i]]; } else { missing := missing + [want[i]]; }
        i := i + 1;
      }
      assert want[..|want|] == want;
    }

    /** Copy the body to the missing shards. */
    method CopyTo(k: Key, body: Bytes, missing: seq<nat>, f: Faults) returns (repaired: nat, left: nat)
      requires Valid() && k in Union(tables)
      requires forall s :: s in missing ==> s in desired(k) && s < |tables|
      modifies this
      ensures Valid() && Gained(old(tables), tables) && Copied(old(tables), tables, k, desired(k), body)
      ensures CopiedTo(old(tables), tables, missing, k, f, body)
      ensures repaired == Taking(missing, k, f) && left == |missing| - repaired
    {
      hide Store;
      hide Union;
      GainedSelf(tables);
      assert Copied(tables, tables, k, desired(k), body);
      hide Gained;
      hide Copied;
      repaired, left := 0, 0;
      var i := 0;
      while i < |missing|
        invariant i <= |missing| && AllValid(tables) && |tables| == |old(tables)|
        invariant repaired == Taking(missing[..i], k, f) && left == i - repaired
        invariant Gained(old(tables), tables) && Copied(old(tables), tables, k, desired(k), body)
        invariant forall s: nat :: s < |tables| ==>
          tables[s] == if s in missing[..i] && (s, k) !in f.put then Store(old(tables)[s], k, body) else old(tables)[s]
      {
        var s := missing[i];
        assert s in missing && missing[..i + 1] == missing[..i] + [s];
        StoreTwice(old(tables)[s], k, body);
        if (s, k) in f.put {
          left := left + 1;
        } else {
          ghost var was := tables;
          tables := tables[s := Store(tables[s], k, body)];
          repaired := repaired + 1;
          CopyStep(old(tables), was, s, k, desired(k), body);
        }
        i := i + 1;
      }
      assert missing[..|missing|] == missing;
    }

    /** Bring one key onto the shards it is wanted on. */
    method RepairKey(k: Key, f: Faults) returns (res: Repair)
      requires Valid()
      modifies this
      ensures Valid() && KeyRepaired(old(tables), tables, desired, k, f, res)
    {
      hide Source;
      hide KeyRepaired;
      hide CopiedTo;
      hide Gained;
      hide Copied;
      var have, missing := Survey(k, f);
      hide Saying;
      NothingSaid(tables, desired(k), k, f);
      if missing == [] {
        LeftAlone(tables, desired, k, f, Repaired(0, 0));
        return Repaired(0, 0);
      }
      var source := ReadForRepair(k, have, f);
      if source.None? {
        LeftAlone(tables, desired, k, f, NoSource);
        return NoSource;
      }
      ghost var from: nat :| Get(tables, from, k, f) == source;
      UnionHas(tables, k);
      hide Union;
      ghost var was := tables;
      var repaired, left := CopyTo(k, source.value, missing, f);
      CopiesRepair(was, tables, desired, k, f, source.value, from, left);
      res := Repaired(repaired, left);
    }

    /** The pool's page of keys after a cursor; a shard that cannot list fails the whole page. */
    method List(after: Option<Key>, limit: nat, f: Faults) returns (page: Option<seq<Key>>)
      requires Valid()
      ensures page.None? <==> exists s :: 0 <= s < |tables| && s in f.list
      ensures page.Some? ==> IsFirst(page.value, After(Union(tables), [], after), limit)
    {
      var merged := [];
      ghost var pages, parts := [], [];
      var s := 0;
      assert Ascending(merged) && forall k :: !InPage(pages, k);
      hide Ascending;
      hide InPage;
      hide IsPage;
      hide After;
      hide InsertAll;
      hide Union;
      assert PagesOf(tables, pages, parts, after, limit);
      hide PagesOf;
      while s < |tables|
        invariant s <= |tables| && |parts| == |pages| == s && Ascending(merged)
        invariant forall t :: 0 <= t < s ==> t !in f.list
        invariant forall k :: k in merged <==> InPage(pages, k)
        invariant PagesOf(tables, pages, parts, after, limit)
      {
        if s in f.list { return None; }
        var p := EngineList(tables[s].keys, [], [], after, limit);
        assert Set(tables[s].keys) + Set([]) == tables[s].bodies.Keys;
        NextPage(tables, pages, parts, after, limit, p);
        InsertAllIs(merged, p);
        AddPage(pages, p);
        merged := InsertAll(merged, p);
        pages, parts := pages + [p], parts + [After(tables[s].bodies.Keys, [], after)];
        s := s + 1;
      }
      WholePages(tables, pages, parts, after, limit);
      MergedFirst(pages, parts, merged, After(Union(tables), [], after), limit);
      page := Some(Take(merged, limit));
    }

    /** Every one of the keys is on all the shards it is wanted on. */
    ghost predicate PlacedIn(ts: Tables, keys: set<Key>) { forall k :: k in keys ==> Placed(ts, desired(k), k) }

    /** Repair one key of the walk and count the outcome. */
    method RepairCounted(k: Key, f: Faults) returns (repaired: nat, errors: nat)
      requires Valid() && k in Union(tables)
      modifies this
      ensures Valid() && Gained(old(tables), tables)
      ensures errors == 0 ==> PlacedIn(tables, {k})
      ensures PlacedIn(old(tables), {k}) && f.has == {} ==> repaired == 0 && errors == 0 && tables == old(tables)
      ensures f.put == {} && f.get == {} ==> errors == 0
      ensures MendedAll(old(tables), tables, desired, {k}, f)
      ensures repaired == Repairs(old(tables), desired(k), k, f) && errors == Errors(old(tables), desired(k), k, f)
    {
      hide Union;
      hide Mended;
      hide SameOn;
      UnionHas(tables, k);
      var res := RepairKey(k, f);
      match res {
        case Repaired(n, left) =>
          repaired, errors := n, left;
        case NoSource =>
          repaired, errors := 0, 1;
          assert f.get != {} by {
            var s :| 0 <= s < |old(tables)| && k in old(tables)[s].bodies;
            assert Get(old(tables), s, k, f).None?;
          }
      }
    }

    /** One batch of the walk. */
    method ResilverStep(after: Option<Key>, batch: nat, f: Faults) returns (rep: Option<Report>, ghost visited: seq<Key>)
      requires Valid()
      modifies this
      ensures Valid() && Gained(old(tables), tables)
      ensures rep.None? ==> tables == old(tables)
      ensures rep.None? <==> exists s :: 0 <= s < |old(tables)| && s in f.list
      ensures rep.Some? ==> IsFirst(visited, After(Union(old(tables)), [], after), batch) && |visited| <= batch
      ensures rep.Some? ==> rep.value.scanned == |visited| && rep.value.done == (|visited| < batch)
      ensures rep.Some? ==> rep.value.last == if visited == [] then None else Some(visited[|visited| - 1])
      ensures rep.Some? && rep.value.errors == 0 ==> PlacedIn(tables, Set(visited))
      ensures rep.Some? && PlacedIn(old(tables), After(Union(old(tables)), [], after)) && f.has == {} ==>
        rep.value.repaired == 0 && rep.value.errors == 0 && tables == old(tables)
      ensures rep.Some? && f.put == {} && f.get == {} ==> rep.value.errors == 0
      ensures rep.Some? ==> MendedAll(old(tables), tables, desired, Set(visited), f)
      ensures rep.Some? ==>
        && rep.value.repaired == AllRepairs(old(tables), desired, visited, f)
        && rep.value.errors == AllErrors(old(tables), desired, visited, f)
    {
      var page := List(after, batch, f);
      GainedSelf(tables);
      if page.None? { return None, []; }
      var keys := page.value;
      assert |keys| <= batch;
      FirstOfUnion(keys, Union(tables), after, batch);
      DueApart(keys, Union(tables), after, batch);
      hide Union;
      hide Ascending;
      hide IsFirst;
      hide Gained;
      hide Placed;
      hide After;
      hide MendedAll;
      hide AllRepairs;
      hide AllErrors;
      hide PageDone;
      var repaired, errors := RepairPage(keys, f);
      PageWhole(old(tables), tables, keys, f, repaired, errors);
      visited := keys;
      rep := Some(Report(|keys|, repaired, errors, |keys| < batch, if keys == [] then None else Some(keys[|keys| - 1])));
    }

    /** Repair the keys of a page, one after another. */
    method RepairPage(keys: seq<Key>, f: Faults) returns (repaired: nat, errors: nat)
      requires Valid() && (forall k :: k in keys ==> k in Union(tables)) && Distinct(keys)
      modifies this
      ensures Valid() && PageDone(old(tables), tables, keys, f, repaired, errors)
    {
      repaired, errors := 0, 0;
      var i := 0;
      PageStart(tables, keys, f);
      hide *;
      while i < |keys|
        invariant i <= |keys| && Valid() && PageDone(old(tables), tables, keys[..i], f, repaired, errors)
      {
        ghost var was, done := tables, keys[..i];
        PageUnion(old(tables), tables, done, f, repaired, errors);
        NextDue(keys, i);
        var n, left := RepairCounted(keys[i], f);
        PageNext(old(tables), was, tables, done, keys[i], f, repaired, errors, n, left);
        repaired, errors := repaired + n, errors + left;
        i := i + 1;
      }
      assert keys[..|keys|] == keys;
    }

    /** From a to b these keys were repaired one after another with these counts. */
    ghost predicate PageDone(a: Tables, b: Tables, keys: seq<Key>, f: Faults, repaired: nat, errors: nat) {
      && Gained(a, b) && MendedAll(a, b, desired, Set(keys), f)
      && (errors == 0 ==> PlacedIn(b, Set(keys)))
      && (PlacedIn(a, Set(keys)) && f.has == {} ==> repaired == 0 && errors == 0 && b == a)
      && (f.put == {} && f.get == {} ==> errors == 0)
      && repaired == AllRepairs(a, desired, keys, f) && errors == AllErrors(a, desired, keys, f)
    }

    lemma PageStart(a: Tables, keys: seq<Key>, f: Faults)
      ensures PageDone(a, a, keys[..0], f, 0, 0)
    {
      GainedSelf(a);
      NoneMended(a, desired, keys, f);
      PlacedNone(a);
      hide Gained;
      hide MendedAll;
      hide Placed;
    }

    lemma PageUnion(a: Tables, b: Tables, keys: seq<Key>, f: Faults, repaired: nat, errors: nat)
      requires PageDone(a, b, keys, f, repaired, errors)
      ensures Union(a) == Union(b)
    {
      GainedUnion(a, b);
    }

    lemma PageWhole(a: Tables, b: Tables, keys: seq<Key>, f: Faults, repaired: nat, errors: nat)
      requires PageDone(a, b, keys, f, repaired, errors)
      ensures Gained(a, b) && MendedAll(a, b, desired, Set(keys), f)
      ensures errors == 0 ==> PlacedIn(b, Set(keys))
      ensures PlacedIn(a, Set(keys)) && f.has == {} ==> repaired == 0 && errors == 0 && b == a
      ensures f.put == {} && f.get == {} ==> errors == 0
      ensures repaired == AllRepairs(a, desired, keys, f) && errors == AllErrors(a, desired, keys, f)
    {
      hide Gained;
      hide MendedAll;
      hide PlacedIn;
    }

    lemma PageNext(a: Tables, b: Tables, c: Tables, done: seq<Key>, k: Key, f: Faults, repaired: nat, errors: nat, n: nat, left: nat)
      requires k !in done && PageDone(a, b, done, f, repaired, errors)
      requires Gained(b, c) && MendedAll(b, c, desired, {k}, f)
      requires left == 0 ==> PlacedIn(c, {k})
      requires PlacedIn(b, {k}) && f.has == {} ==> n == 0 && left == 0 && c == b
      requires f.put == {} && f.get == {} ==> left == 0
      requires n == Repairs(b, desired(k), k, f) && left == Errors(b, desired(k), k, f)
      ensures PageDone(a, c, done + [k], f, repaired + n, errors + left)
    {
      hide Gained;
      hide PlacedIn;
      hide Distinct;
      hide MendedAll;
      hide Repairs;
      hide Errors;
      hide AllRepairs;
      hide AllErrors;
      GainedTrans(a, b, c);
      MendedNext(a, b, c, desired, done, k, f);
      assert Set(done + [k]) == Set(done) + {k};
      hide Set;
      PlacedApart(a, Set(done), {k});
      if errors + left == 0 { PlacedBoth(b, c, Set(done), {k}); }
    }

    lemma PlacedApart(ts: Tables, x: set<Key>, y: set<Key>)
      ensures PlacedIn(ts, x + y) ==> PlacedIn(ts, x) && PlacedIn(ts, y)
    {
      hide Placed;
    }

    /**
     The whole walk: batches until one is short. It ends, visits exactly the keys past its cursor, each once and in
     order, and if it counts no error every one of them is on all the shards it is wanted on; a walk over keys that are
     all in place changes nothing.
     */
    method ResilverFull(start: Option<Key>, batch: nat, f: Faults) returns (total: Option<Report>, ghost visited: seq<Key>)
      requires Valid()
      modifies this
      ensures Valid() && Gained(old(tables), tables)
      ensures total.Some? ==> total.value.scanned == |visited| && total.value.done
      ensures total.Some? && batch > 0 ==> Ascending(visited) && Set(visited) == After(Union(old(tables)), [], start)
      ensures batch == 0 ==> visited == []
      ensures total.Some? && total.value.errors == 0 ==> PlacedIn(tables, Set(visited))
      ensures total.Some? && PlacedIn(old(tables), After(Union(old(tables)), [], start)) && f.has == {} ==>
        total.value.repaired == 0 && total.value.errors == 0 && tables == old(tables)
      ensures total.Some? ==> MendedAll(old(tables), tables, desired, Set(visited), f)
      ensures total.Some? ==>
        && total.value.repaired == AllRepairs(old(tables), desired, visited, f)
        && total.value.errors == AllErrors(old(tables), desired, visited, f)
      ensures f.list == {} ==> total.Some?
      ensures f == Faults({}, {}, {}, {}) ==> total.Some? && total.value.errors == 0
    {
      hide Union;
      hide Gained;
      hide Placed;
      hide Walked;
      hide After;
      hide IsFirst;
      hide Ascending;
      hide PlacedIn;
      ghost var u := Union(tables);
      var after := start;
      var scanned: nat, repaired: nat, errors: nat := 0, 0, 0;
      visited := [];
      GainedSelf(tables);
      WalkStarts(u, [], start);
      PlacedNone(tables);
      NoneMended(tables, desired, [], f);
      hide MendedAll;
      hide AllRepairs;
      hide AllErrors;
      while true
        invariant Valid() && Gained(old(tables), tables) && Union(tables) == u && |tables| == |old(tables)|
        invariant scanned == |visited| && Walked(u, [], start, visited, after)
        invariant visited != [] ==> batch > 0
        invariant errors == 0 ==> PlacedIn(tables, Set(visited))
        invariant PlacedIn(old(tables), After(u, [], start)) && f.has == {} ==> repaired == 0 && errors == 0 && tables == old(tables)
        invariant f.put == {} && f.get == {} ==> errors == 0
        invariant MendedAll(old(tables), tables, desired, Set(visited), f)
        invariant repaired == AllRepairs(old(tables), desired, visited, f) && errors == AllErrors(old(tables), desired, visited, f)
        decreases |After(u, [], after)|
      {
        ghost var was := tables;
        PlacedLater(tables, u, start, visited, after);
        var rep, page := ResilverStep(after, batch, f);
        GainedChain(old(tables), was, tables);
        if rep.None? { return None, visited; }
        var r := rep.value;
        scanned, repaired, errors := scanned + r.scanned, repaired + r.repaired, errors + r.errors;
        WalkOn(u, [], start, visited, after, page, batch);
        PageApart(u, start, visited, after, page, batch);
        MendedPage(old(tables), was, tables, desired, visited, page, f);
        if errors == 0 { PlacedBoth(was, tables, Set(visited), Set(page)); }
        visited := visited + page;
        if r.done || r.last.None? {
          total := Some(Report(scanned, repaired, errors, true, r.last));
          return;
        }
        after := r.last;
      }
    }

    lemma PlacedLater(ts: Tables, u: set<Key>, start: Option<Key>, visited: seq<Key>, after: Option<Key>)
      requires Walked(u, [], start, visited, after)
      ensures PlacedIn(ts, After(u, [], start)) ==> PlacedIn(ts, After(u, [], after))
    {
      hide Placed;
      assert After(u, [], after) <= After(u, [], start);
    }

    lemma PlacedNone(ts: Tables)
      ensures PlacedIn(ts, Set([]))
    {
    }

    lemma PlacedBoth(was: Tables, now: Tables, before: set<Key>, page: set<Key>)
      requires Gained(was, now) && PlacedIn(was, before) && PlacedIn(now, page)
      ensures PlacedIn(now, before + page)
    {
      forall k | k in before ensures Placed(now, desired(k), k) { GainedPlaced(was, now, desired(k), k); }
    }
  }

  lemma GainedChain(a: Tables, b: Tables, c: Tables)
    requires Gained(a, b) && Gained(b, c)
    ensures Gained(a, c) && Union(b) == Union(c) == Union(a) && |a| == |c|
  {
    GainedTrans(a, b, c);
    GainedUnion(a, b);
    GainedUnion(b, c);
  }

  lemma FirstOfUnion(keys: seq<Key>, u: set<Key>, after: Option<Key>, batch: nat)
    requires IsFirst(keys, After(u, [], after), batch)
    ensures forall k :: k in keys ==> k in u && k in After(u, [], after)
  {
  }

  lemma AddPage(pages: seq<seq<Key>>, p: seq<Key>)
    ensures forall k :: InPage(pages + [p], k) <==> InPage(pages, k) || k in p
  {
    forall k ensures InPage(pages + [p], k) <==> InPage(pages, k) || k in p {
      if InPage(pages, k) {
        var i :| 0 <= i < |pages| && k in pages[i];
        assert k in (pages + [p])[i];
      }
      if k in p { assert k in (pages + [p])[|pages|]; }
    }
  }

  /** One page for each of the first shards, of the keys due there. */
  ghost predicate PagesOf(ts: Tables, pages: seq<seq<Key>>, parts: seq<set<Key>>, after: Option<Key>, limit: nat) {
    |pages| == |parts| <= |ts|
    && forall t :: 0 <= t < |pages| ==> IsPage(pages[t], parts[t], limit) && parts[t] == After(ts[t].bodies.Keys, [], after)
  }

  lemma NextPage(ts: Tables, pages: seq<seq<Key>>, parts: seq<set<Key>>, after: Option<Key>, limit: nat, p: seq<Key>)
    requires PagesOf(ts, pages, parts, after, limit) && |pages| < |ts|
    requires IsPage(p, After(ts[|pages|].bodies.Keys, [], after), limit)
    ensures PagesOf(ts, pages + [p], parts + [After(ts[|pages|].bodies.Keys, [], after)], after, limit)
  {
    hide IsPage;
    hide After;
  }

  lemma WholePages(ts: Tables, pages: seq<seq<Key>>, parts: seq<set<Key>>, after: Option<Key>, limit: nat)
    requires PagesOf(ts, pages, parts, after, limit) && |pages| == |ts|
    ensures |pages| == |parts| && forall t :: 0 <= t < |pages| ==> IsPage(pages[t], parts[t], limit)
    ensures forall k :: k in After(Union(ts), [], after) <==> InPart(parts, k)
  {
    WholeParts(ts, parts, after);
    hide IsPage;
    hide After;
  }

  lemma WholeParts(ts: Tables, parts: seq<set<Key>>, after: Option<Key>)
    requires |parts| == |ts| && forall t :: 0 <= t < |ts| ==> parts[t] == After(ts[t].bodies.Keys, [], after)
    ensures forall k :: k in After(Union(ts), [], after) <==> InPart(parts, k)
  {
    forall k ensures k in After(Union(ts), [], after) <==> InPart(parts, k) {
      UnionHas(ts, k);
      if k in After(Union(ts), [], after) {
        var s :| 0 <= s < |ts| && k in ts[s].bodies;
        assert k in parts[s];
      }
    }
  }

  lemma CopyStep(start: Tables, was: Tables, s: nat, k: Key, want: seq<nat>, body: Bytes)
    requires AllValid(was) && s < |was| && k in Union(start) && s in want
    requires Gained(start, was) && Copied(start, was, k, want, body)
    ensures var now := was[s := Store(was[s], k, body)];
      |now| == |was| && AllValid(now) && Gained(was, now) && Gained(start, now) && Copied(start, now, k, want, body) && Holds(now, s, k)
  {
    GainedUnion(start, was);
    StoreGains(was, s, k, body);
    StoreTwice(start[s], k, body);
    var now := was[s := Store(was[s], k, body)];
    GainedTrans(start, was, now);
    assert k in now[s].bodies;
    hide Gained;
    hide Store;
  }

  lemma {:induction false} InsertAgain(keys: seq<Key>, k: Key)
    ensures InsertKey(InsertKey(keys, k), k) == InsertKey(keys, k)
  {
    LessSelf(k);
    if keys != [] && !Less(k, keys[0]) && k != keys[0] {
      InsertAgain(keys[1..], k);
    }
  }

  lemma StoreTwice(t: Table, k: Key, body: Bytes)
    ensures Store(Store(t, k, body), k, body) == Store(t, k, body)
  {
    InsertAgain(t.keys, k);
  }
}
