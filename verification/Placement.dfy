/** Rendezvous placement: the eligible shards of a topology ranked by a score per key and shard, the best first. */
module Placement {
  import opened Bytes
  import opened Order

  datatype Status = Online | Suspect | Faulted
  datatype Shard = Shard(id: nat, total: nat, free: nat, status: Status)

  /** A shard takes part unless it is faulted or filled to the threshold; one of unknown size is never full. */
  predicate Eligible(s: Shard, fillBlock: real) {
    && s.status != Faulted
    && (s.total > 0 ==> 1.0 - s.free as real / s.total as real < fillBlock)
  }

  function Filter(topology: seq<Shard>, fillBlock: real): seq<Shard> {
    if topology == [] then []
    else if Eligible(topology[0], fillBlock) then [topology[0]] + Filter(topology[1..], fillBlock)
    else Filter(topology[1..], fillBlock)
  }

  function Higher(score: Shard -> real): (Shard, Shard) -> bool { (a, b) => score(a) > score(b) }

  function Ranking(score: Shard -> real, fillBlock: real, topology: seq<Shard>): seq<Shard> {
    Sort(Higher(score), Filter(topology, fillBlock))
  }

  function Select(score: Shard -> real, fillBlock: real, topology: seq<Shard>, n: nat): seq<Shard> {
    Take(Ranking(score, fillBlock, topology), n)
  }

  // ----- what is selected

  lemma HigherOrders(score: Shard -> real)
    ensures Orders(Higher(score))
  {
  }

  ghost predicate DistinctIds(shards: seq<Shard>) {
    forall i, j :: 0 <= i < j < |shards| ==> shards[i].id != shards[j].id
  }

  lemma {:induction false} FilterIs(topology: seq<Shard>, fillBlock: real)
    ensures forall s :: s in Filter(topology, fillBlock) <==> s in topology && Eligible(s, fillBlock)
    ensures DistinctIds(topology) ==> DistinctIds(Filter(topology, fillBlock))
  {
    hide Eligible;
    if topology != [] {
      FilterIs(topology[1..], fillBlock);
      assert topology == [topology[0]] + topology[1..];
      var rest := Filter(topology[1..], fillBlock);
      forall j | DistinctIds(topology) && 0 <= j < |rest| ensures rest[j].id != topology[0].id {
        assert rest[j] in topology[1..];
      }
    }
  }

  /** Distinct ids survive a reordering. */
  lemma DistinctShuffled(a: seq<Shard>, b: seq<Shard>)
    requires DistinctIds(a) && multiset(a) == multiset(b)
    ensures DistinctIds(b)
  {
    forall i, j | 0 <= i < j < |b| ensures b[i].id != b[j].id {
      if b[i].id == b[j].id {
        assert b[i] in multiset(a) && b[j] in multiset(a);
        SameId(a, b[i], b[j]);
        Once(a, b[i]);
        Twice(b, i, j);
      }
    }
  }

  lemma SameId(a: seq<Shard>, x: Shard, y: Shard)
    requires DistinctIds(a) && x in a && y in a && x.id == y.id
    ensures x == y
  {
    var i :| 0 <= i < |a| && a[i] == x;
    var j :| 0 <= j < |a| && a[j] == y;
  }

  lemma {:induction false} Once(a: seq<Shard>, x: Shard)
    requires DistinctIds(a)
    ensures multiset(a)[x] <= 1
  {
    if a != [] {
      Once(a[1..], x);
      assert a == [a[0]] + a[1..];
      if a[0] == x { assert x !in a[1..]; }
    }
  }

  lemma Twice(b: seq<Shard>, i: nat, j: nat)
    requires i < j < |b| && b[i] == b[j]
    ensures multiset(b)[b[i]] >= 2
  {
    assert b == b[..j] + [b[j]] + b[j + 1..];
    assert b[i] in b[..j];
  }

  lemma TakenHigher(score: Shard -> real, all: seq<Shard>, n: nat, x: Shard, y: Shard)
    requires Sorted(Higher(score), all) && x in Take(all, n) && y in all && y !in Take(all, n)
    ensures score(y) <= score(x)
  {
    var j :| 0 <= j < |all| && all[j] == y;
    var i :| 0 <= i < |Take(all, n)| && Take(all, n)[i] == x;
    assert i < j && !Higher(score)(all[j], all[i]);
  }

  /** Neither faulted, nor filled to the threshold: the bytes used stay below that part of the shard. */
  ghost predicate Roomy(s: Shard, fillBlock: real) {
    s.status != Faulted && (s.total == 0 || s.total as real - s.free as real < fillBlock * s.total as real)
  }

  lemma EligibleIsRoomy(s: Shard, fillBlock: real)
    ensures Eligible(s, fillBlock) <==> Roomy(s, fillBlock)
  {
    if s.total > 0 { Fraction(s.free as real, s.total as real, fillBlock); }
  }

  lemma Fraction(a: real, b: real, c: real)
    requires b > 0.0
    ensures 1.0 - a / b < c <==> b - a < c * b
  {
    var q := a / b;
    assert q * b == a;
    Scaled(1.0 - q, c, b);
    assert (1.0 - q) * b == b - a;
  }

  lemma Scaled(x: real, y: real, b: real)
    requires b > 0.0
    ensures x < y <==> x * b < y * b
  {
    assert (y - x) * b == y * b - x * b;
    if x < y { assert (y - x) * b > 0.0; }
    if x > y { assert (x - y) * b > 0.0; }
  }

  /** A faulted or full shard is never selected, and asked for enough shards every other one is. */
  lemma SelectsRoomy(score: Shard -> real, fillBlock: real, topology: seq<Shard>, n: nat, s: Shard)
    requires DistinctIds(topology)
    ensures s in Select(score, fillBlock, topology, n) ==> s in topology && Roomy(s, fillBlock)
    ensures n >= |topology| ==> (s in Select(score, fillBlock, topology, n) <==> s in topology && Roomy(s, fillBlock))
  {
    SelectsBest(score, fillBlock, topology, n);
    EligibleIsRoomy(s, fillBlock);
    FilterIs(topology, fillBlock);
    FilterShorter(topology, fillBlock);
    SortKeeps(Higher(score), Filter(topology, fillBlock));
    var f, all := Filter(topology, fillBlock), Ranking(score, fillBlock, topology);
    assert |multiset(f)| == |multiset(all)|;
    assert s in multiset(f) <==> s in multiset(all);
    hide *;
    if n >= |topology| { TakeAll(score, fillBlock, topology, n); }
  }

  lemma TakeAll(score: Shard -> real, fillBlock: real, topology: seq<Shard>, n: nat)
    requires n >= |Ranking(score, fillBlock, topology)|
    ensures Select(score, fillBlock, topology, n) == Ranking(score, fillBlock, topology)
  {
    hide Ranking;
  }

  lemma {:induction false} FilterShorter(topology: seq<Shard>, fillBlock: real)
    ensures |Filter(topology, fillBlock)| <= |topology|
  {
    hide Eligible;
    if topology != [] { FilterShorter(topology[1..], fillBlock); }
  }

  /** Select gives distinct eligible shards, as many as asked for if there are so many, none scoring below one left out. */
  lemma SelectsBest(score: Shard -> real, fillBlock: real, topology: seq<Shard>, n: nat)
    requires DistinctIds(topology)
    ensures var s := Select(score, fillBlock, topology, n);
      && DistinctIds(s) && (forall x :: x in s ==> x in topology && Eligible(x, fillBlock))
      && |s| == (if n < |Filter(topology, fillBlock)| then n else |Filter(topology, fillBlock)|)
      && forall x, y :: x in s && y in topology && Eligible(y, fillBlock) && y !in s ==> score(y) <= score(x)
  {
    hide Eligible;
    var f, all := Filter(topology, fillBlock), Ranking(score, fillBlock, topology);
    FilterIs(topology, fillBlock);
    HigherOrders(score);
    SortKeeps(Higher(score), f);
    DistinctShuffled(f, all);
    hide Filter;
    hide Sort;
    var s := Select(score, fillBlock, topology, n);
    forall x | x in s ensures x in topology && Eligible(x, fillBlock) {
      assert x in all;
      assert x in multiset(all);
    }
    forall x, y | x in s && y in topology && Eligible(y, fillBlock) && y !in s ensures score(y) <= score(x) {
      assert y in multiset(f);
      TakenHigher(score, all, n, x, y);
    }
  }

  /** The mirror legs are the first of the ranks an erasure write uses. */
  lemma SelectPrefix(score: Shard -> real, fillBlock: real, topology: seq<Shard>, r: nat, n: nat)
    requires r <= n
    ensures Select(score, fillBlock, topology, r) == Take(Select(score, fillBlock, topology, n), r)
  {
  }

  // ----- adding a shard

  lemma {:induction false} FilterAdd(a: seq<Shard>, b: seq<Shard>, fillBlock: real)
    ensures Filter(a + b, fillBlock) == Filter(a, fillBlock) + Filter(b, fillBlock)
  {
    hide Eligible;
    if a == [] {
      assert a + b == b;
    } else {
      assert (a + b)[1..] == a[1..] + b;
      FilterAdd(a[1..], b, fillBlock);
    }
  }

  /** A ranking with a shard added is the old ranking with that shard put in, or the old ranking if it is not eligible. */
  lemma RankingAdd(score: Shard -> real, fillBlock: real, a: seq<Shard>, e: Shard, b: seq<Shard>) returns (p: nat)
    ensures if Eligible(e, fillBlock)
            then Inserted(Ranking(score, fillBlock, a + b), Ranking(score, fillBlock, a + [e] + b), p, e)
            else Ranking(score, fillBlock, a + [e] + b) == Ranking(score, fillBlock, a + b)
  {
    FilterAdd(a, b, fillBlock);
    FilterAdd(a + [e], b, fillBlock);
    FilterAdd(a, [e], fillBlock);
    hide Eligible;
    var fa, fb := Filter(a, fillBlock), Filter(b, fillBlock);
    assert [e][1..] == [];
    assert Filter([e], fillBlock) == if Eligible(e, fillBlock) then [e] else [];
    HigherOrders(score);
    p := SortBoth(Higher(score), fa, e, fb);
    if !Eligible(e, fillBlock) { assert fa + [] + fb == fa + fb; }
  }

  /**
   Adding a shard anywhere in the topology leaves a key's top n as they were, or puts only the new shard among them and
   drops at most the last.
   */
  lemma AddMovesLittle(score: Shard -> real, fillBlock: real, a: seq<Shard>, e: Shard, b: seq<Shard>, n: nat)
    ensures var was, now := Select(score, fillBlock, a + b, n), Select(score, fillBlock, a + [e] + b, n);
      now == was || exists p: nat :: p < n && p <= |was| && now == Take(was[..p] + [e] + was[p..], n)
  {
    var p := RankingAdd(score, fillBlock, a, e, b);
    hide Ranking;
    var r, t := Ranking(score, fillBlock, a + b), Ranking(score, fillBlock, a + [e] + b);
    var was, now := Take(r, n), Take(t, n);
    if Eligible(e, fillBlock) {
      if p >= n {
        assert now == was;
      } else {
        assert p <= |was|;
        assert now == Take(was[..p] + [e] + was[p..], n);
      }
    }
  }
}
