/** How many lost shards a placement stands, exactly: mirror legs left between pieces cost tolerance. */
module PoolLoss {
  import opened Bytes
  import opened Pieces
  import opened Erasure
  import opened PoolRead
  import opened PoolWrite
  import opened PoolRepair

  /** Each rank holds the body, its own piece or nothing, and no other shard holds anything. */
  ghost predicate OnRanks(p: Pool, held: Held, body: Bytes, pieces: seq<Bytes>) {
    && |held| == p.n && |p.Targets()| == p.k + p.m
    && (forall r: nat :: r < p.k + p.m ==> EmptyAt(p, held, r) || RawAt(p, held, body, r) || Own(p, held, pieces, r))
    && (forall s :: 0 <= s < p.n && s !in p.Targets() ==> held[s].None?)
  }

  ghost function Raws(p: Pool, held: Held, body: Bytes): set<nat> { set r | r in Range(0, p.k + p.m) && RawAt(p, held, body, r) }

  ghost function Owns(p: Pool, held: Held, pieces: seq<Bytes>): set<nat> { set r | r in Range(0, p.k + p.m) && Own(p, held, pieces, r) }

  /** The raw ranks that a read probes before any piece. */
  ghost function RawFirst(raws: set<nat>, owns: set<nat>): set<nat> { set r | r in raws && forall q :: q in owns ==> r < q }

  /** How many shards it takes to make the key unreadable: the raw ranks in front, and all but K - 1 pieces. */
  function LossLimit(k: nat, raws: nat, owns: nat, first: nat): nat {
    if k <= 1 then raws + owns else first + (if owns < k then 0 else owns + 1 - k)
  }

  /** The ranks whose shards are down. */
  ghost function DownRanks(p: Pool, down: set<nat>): set<nat> {
    set r | r in Range(0, p.k + p.m) && r < |p.Targets()| && p.Targets()[r] in down
  }

  ghost function ShardsOf(targets: seq<nat>, ranks: set<nat>): set<nat>
    requires forall r :: r in ranks ==> r < |targets|
  {
    set r | r in ranks :: targets[r]
  }

  // ----- ranks and shards

  lemma {:induction false} ShardCount(targets: seq<nat>, ranks: set<nat>)
    requires forall i, j :: 0 <= i < j < |targets| ==> targets[i] != targets[j]
    requires forall r :: r in ranks ==> r < |targets|
    ensures |ShardsOf(targets, ranks)| == |ranks|
    decreases ranks
  {
    if ranks != {} {
      var r :| r in ranks;
      ShardCount(targets, ranks - {r});
      assert ShardsOf(targets, ranks) == ShardsOf(targets, ranks - {r}) + {targets[r]};
      assert targets[r] !in ShardsOf(targets, ranks - {r});
    }
  }

  /** A set of ranks has as many shards, and those are down at just these ranks. */
  lemma ShardsDown(p: Pool, ranks: set<nat>)
    requires p.Sound() && |p.Targets()| == p.k + p.m && forall r :: r in ranks ==> r < p.k + p.m
    ensures |ShardsOf(p.Targets(), ranks)| == |ranks| && DownRanks(p, ShardsOf(p.Targets(), ranks)) == ranks
  {
    TargetsDistinct(p);
    hide Pool.Targets;
    hide Mds;
    ShardCount(p.Targets(), ranks);
    forall r | r in DownRanks(p, ShardsOf(p.Targets(), ranks)) ensures r in ranks {
      var q :| q in ranks && p.Targets()[q] == p.Targets()[r];
    }
  }

  lemma DownCount(p: Pool, down: set<nat>)
    requires p.Sound() && |p.Targets()| == p.k + p.m
    ensures |DownRanks(p, down)| <= |down|
  {
    hide Pool.Targets;
    hide Mds;
    var d := DownRanks(p, down);
    ShardsDown(p, d);
    SubsetSize(ShardsOf(p.Targets(), d), down);
  }

  lemma AnswerAt(p: Pool, held: Held, down: set<nat>, r: nat)
    requires |p.Targets()| == p.k + p.m
    ensures AtRank(p.Targets(), Answers(held, down), r) == if r in DownRanks(p, down) then None else AtRank(p.Targets(), held, r)
  {
    hide Pool.Targets;
  }

  lemma OnRanksCanonical(p: Pool, held: Held, body: Bytes, pieces: seq<Bytes>)
    requires p.Sound() && Coded(p, body, pieces) && OnRanks(p, held, body, pieces)
    ensures Canonical(p, held, body, pieces)
  {
    hide Pool.Targets;
    hide Mds;
    CodedLength(p, body, pieces);
    hide Coded;
    forall r | 0 <= r < |p.Targets()|
      ensures var c := AtRank(p.Targets(), held, r); c.None? || c.value == body || (r < |pieces| && c.value == pieces[r])
    {
      assert EmptyAt(p, held, r) || RawAt(p, held, body, r) || Own(p, held, pieces, r);
    }
    forall s | 0 <= s < p.n ensures Genuine(held[s], body, pieces) {
      if s in p.Targets() {
        var r := RankOf(p, s);
        assert EmptyAt(p, held, r) || RawAt(p, held, body, r) || Own(p, held, pieces, r);
      }
    }
  }

  /** The pieces still answered are those of the ranks that are up. */
  lemma ReachableUp(p: Pool, held: Held, body: Bytes, pieces: seq<Bytes>, down: set<nat>)
    requires p.Sound() && Coded(p, body, pieces) && OnRanks(p, held, body, pieces)
    ensures Reachable(Answers(held, down), pieces) == Owns(p, held, pieces) - DownRanks(p, down)
  {
    hide Mds;
    CodedLength(p, body, pieces);
    OnRanksCanonical(p, held, body, pieces);
    AnswersCanonical(p, body, pieces, held, down);
    hide Pool.Targets;
    hide Coded;
    hide Canonical;
    hide Reachable;
    var a, up := Answers(held, down), Owns(p, held, pieces) - DownRanks(p, down);
    forall j | j in Reachable(a, pieces) ensures j in up {
      var s := ReachableHas(a, pieces, j);
      OwnRank(p, body, pieces, a, s, j);
      AnswerAt(p, held, down, j);
    }
    forall j | j in up ensures j in Reachable(a, pieces) {
      AnswerAt(p, held, down, j);
      OwnReachable(p, a, pieces, j);
    }
  }

  /** No rank is both raw and a piece, and every answering rank is one of them. */
  lemma RawOrOwn(p: Pool, held: Held, body: Bytes, pieces: seq<Bytes>)
    requires p.Sound() && Coded(p, body, pieces) && OnRanks(p, held, body, pieces)
    ensures Raws(p, held, body) !! Owns(p, held, pieces)
    ensures forall r: nat :: r < p.k + p.m ==> EmptyAt(p, held, r) || r in Raws(p, held, body) || r in Owns(p, held, pieces)
  {
    hide Pool.Targets;
    hide Mds;
    forall r | r in Raws(p, held, body) ensures r !in Owns(p, held, pieces) {
      if Own(p, held, pieces, r) { PiecesDiffer(p, body, pieces, r, r); }
    }
  }

  // ----- when a read fails

  /**
   With the shards at ranks d down: fewer than K pieces are up, and each raw rank that is up comes after a piece that is
   up. A read fails exactly then.
   */
  ghost predicate Lost(k: nat, raws: set<nat>, owns: set<nat>, d: set<nat>) {
    |owns - d| < k && forall r :: r in raws - d ==> exists q :: q in owns - d && q < r
  }

  lemma LostExactly(p: Pool, held: Held, body: Bytes, pieces: seq<Bytes>, down: set<nat>)
    requires p.Sound() && Coded(p, body, pieces) && OnRanks(p, held, body, pieces)
    ensures GetEcAware(p, Answers(held, down)) != Ok(body)
      <==> Lost(p.k, Raws(p, held, body), Owns(p, held, pieces), DownRanks(p, down))
  {
    hide Mds;
    hide GetEcAware;
    var a := Answers(held, down);
    ReachableUp(p, held, body, pieces, down);
    RawOrOwn(p, held, body, pieces);
    OnRanksCanonical(p, held, body, pieces);
    AnswersCanonical(p, body, pieces, held, down);
    GetExact(p, body, pieces, a);
    hide Coded;
    hide Canonical;
    hide Reachable;
    hide Pool.Targets;
    FirstUp(p, held, body, pieces, down);
    assert !StrayBody(p, a, body, 0);
    hide OnRanks;
    hide FirstAnswer;
    hide Raws;
    hide Owns;
    hide DownRanks;
  }

  /** The first answer is raw exactly when some raw rank that is up comes before every piece that is up. */
  lemma FirstUp(p: Pool, held: Held, body: Bytes, pieces: seq<Bytes>, down: set<nat>)
    requires p.Sound() && Coded(p, body, pieces) && OnRanks(p, held, body, pieces)
    ensures var first, d := FirstAnswer(p.Targets(), Answers(held, down), 0), DownRanks(p, down);
      first < |p.Targets()| && AtRank(p.Targets(), Answers(held, down), first) == Some(body)
      <==> exists r :: r in Raws(p, held, body) - d && forall q :: q in Owns(p, held, pieces) - d ==> r < q
  {
    hide Mds;
    RawOrOwn(p, held, body, pieces);
    hide Coded;
    hide Pool.Targets;
    var a, d, raws, owns := Answers(held, down), DownRanks(p, down), Raws(p, held, body), Owns(p, held, pieces);
    forall r: nat | r < p.k + p.m
      ensures AtRank(p.Targets(), a, r).Some? <==> r in raws + owns && r !in d
      ensures AtRank(p.Targets(), a, r) == Some(body) <==> r in raws && r !in d
    {
      AnswerAt(p, held, down, r);
    }
    hide AtRank;
    hide DownRanks;
    hide Raws;
    hide Owns;
    FirstOf(p.Targets(), a, body, raws - d, owns - d);
  }

  lemma FirstOf(targets: seq<nat>, a: Held, body: Bytes, raws: set<nat>, owns: set<nat>)
    requires raws !! owns && forall r :: r in raws + owns ==> r < |targets|
    requires forall r: nat :: r < |targets| ==> (AtRank(targets, a, r).Some? <==> r in raws + owns)
    requires forall r: nat :: r < |targets| ==> (AtRank(targets, a, r) == Some(body) <==> r in raws)
    ensures var first := FirstAnswer(targets, a, 0);
      first < |targets| && AtRank(targets, a, first) == Some(body) <==> exists r :: r in raws && forall q :: q in owns ==> r < q
  {
    hide AtRank;
    var first := FirstAnswer(targets, a, 0);
    hide FirstAnswer;
    if r :| r in raws && forall q :: q in owns ==> r < q {
      assert AtRank(targets, a, r).Some? && first <= r;
      assert first in raws + owns;
    }
    if first < |targets| && first in raws {
      forall q | q in owns ensures first < q { assert AtRank(targets, a, q).Some? && AtRank(targets, a, q) != Some(body); }
    }
  }

  // ----- the exact tolerance

  lemma {:induction false} SomeSubset(s: set<nat>, n: nat) returns (x: set<nat>)
    requires n <= |s|
    ensures x <= s && |x| == n
  {
    if n == 0 {
      x := {};
    } else {
      var e :| e in s;
      x := SomeSubset(s - {e}, n - 1);
      x := x + {e};
    }
  }

  lemma {:induction false} LeastOf(s: set<nat>) returns (x: nat)
    requires s != {}
    ensures x in s && forall y :: y in s ==> x <= y
    decreases s
  {
    x :| x in s;
    if exists y :: y in s && y < x {
      var z := x;
      var y :| y in s && y < z;
      assert y in s - {z};
      x := LeastOf(s - {z});
      forall w | w in s ensures x <= w { if w != z { assert w in s - {z}; } }
    }
  }

  /** Fewer lost ranks than the limit do not make the key unreadable. */
  lemma LimitHolds(k: nat, raws: set<nat>, owns: set<nat>, d: set<nat>)
    requires k > 0 && raws !! owns && Lost(k, raws, owns, d)
    ensures |d| >= LossLimit(k, |raws|, |owns|, |RawFirst(raws, owns)|)
  {
    var up, first := owns - d, RawFirst(raws, owns);
    SubsetSize(first, raws);
    if up == {} {
      assert raws - d == {};
      SubsetSize(raws + owns, d);
    } else {
      assert k > 1;
      forall r | r in raws - d ensures r !in first { var q :| q in owns - d && q < r; }
      SubsetSize(first + (owns - up), d);
      assert |owns| == |up + (owns - up)| == |up| + |owns - up|;
      assert |first + (owns - up)| == |first| + |owns - up|;
    }
  }

  /** Some ranks, as many as the limit, do. */
  lemma LimitReached(k: nat, raws: set<nat>, owns: set<nat>) returns (d: set<nat>)
    requires k > 0 && raws !! owns
    ensures Lost(k, raws, owns, d) && d <= raws + owns
    ensures |d| == LossLimit(k, |raws|, |owns|, |RawFirst(raws, owns)|)
  {
    var first := RawFirst(raws, owns);
    if k == 1 || owns == {} {
      d := raws + owns;
      assert owns - d == {} && raws - d == {};
      if owns == {} { assert first == raws; }
    } else {
      var f0 := LeastOf(owns);
      var x := SomeSubset(owns - {f0}, if |owns| < k then 0 else |owns| + 1 - k);
      d := first + x;
      BehindFirst(raws, owns, x, f0);
      assert first <= raws;
      hide RawFirst;
      CountBoth(owns, first, x);
    }
  }

  lemma CountBoth(owns: set<nat>, first: set<nat>, x: set<nat>)
    requires first !! owns && x <= owns
    ensures |owns - (first + x)| + |x| == |owns| && |first + x| == |first| + |x|
  {
    assert owns == (owns - (first + x)) + x;
    assert |(owns - (first + x)) + x| == |owns - (first + x)| + |x|;
  }

  /** With the least piece f0 up and the raw ranks before it down, every raw rank that is up comes after it. */
  lemma BehindFirst(raws: set<nat>, owns: set<nat>, x: set<nat>, f0: nat)
    requires raws !! owns && f0 in owns && f0 !in x && x <= owns && forall q :: q in owns ==> f0 <= q
    ensures var d := RawFirst(raws, owns) + x; forall r :: r in raws - d ==> exists q :: q in owns - d && q < r
  {
    var d := RawFirst(raws, owns) + x;
    forall r | r in raws - d ensures f0 in owns - d && f0 < r {
      var q :| q in owns && r >= q;
    }
  }

  /** The key reads as the body whichever t shards, or fewer, do not answer. */
  ghost predicate Stands(p: Pool, held: Held, body: Bytes, t: nat) {
    forall down: set<nat> :: |down| <= t ==> GetEcAware(p, Answers(held, down)) == Ok(body)
  }

  /** A placement on its ranks stands the loss of any t shards exactly when t is below the limit. */
  lemma LossTolerance(p: Pool, held: Held, body: Bytes, pieces: seq<Bytes>, t: nat)
    requires p.Sound() && Coded(p, body, pieces) && OnRanks(p, held, body, pieces)
    ensures var raws, owns := Raws(p, held, body), Owns(p, held, pieces);
      Stands(p, held, body, t) <==> t < LossLimit(p.k, |raws|, |owns|, |RawFirst(raws, owns)|)
  {
    RawOrOwn(p, held, body, pieces);
    hide Mds;
    hide Coded;
    hide GetEcAware;
    hide Lost;
    hide LossLimit;
    var raws, owns := Raws(p, held, body), Owns(p, held, pieces);
    var limit := LossLimit(p.k, |raws|, |owns|, |RawFirst(raws, owns)|);
    if t < limit {
      forall down: set<nat> | |down| <= t ensures GetEcAware(p, Answers(held, down)) == Ok(body) {
        LostExactly(p, held, body, pieces, down);
        DownCount(p, down);
        if Lost(p.k, raws, owns, DownRanks(p, down)) { LimitHolds(p.k, raws, owns, DownRanks(p, down)); }
      }
    } else {
      var d := LimitReached(p.k, raws, owns);
      ShardsDown(p, d);
      LostExactly(p, held, body, pieces, ShardsOf(p.Targets(), d));
    }
  }

  /**
   Half-migrated, with every rank taken and its piece at rank 0: the health test passes the key over, and with w legs
   still raw it stands the loss of M - w shards and no more. So each leg that a failed head write leaves behind costs one.
   */
  lemma RawLegsCost(p: Pool, held: Held, body: Bytes, pieces: seq<Bytes>, t: nat)
    requires p.Valid() && p.k >= 2 && Coded(p, body, pieces) && OnRanks(p, held, body, pieces)
    requires Own(p, held, pieces, 0) && forall r: nat :: r < p.k + p.m ==> !EmptyAt(p, held, r)
    ensures TakenForHealthy(p, held)
    ensures Stands(p, held, body, t) <==> t + |Raws(p, held, body)| <= p.m
  {
    hide *;
    ValidSound(p);
    PassedOver(p, held, body, pieces);
    LossTolerance(p, held, body, pieces, t);
    AllTaken(p, held, body, pieces);
    var raws, owns := Raws(p, held, body), Owns(p, held, pieces);
    FrontPiece(p.k, p.m, raws, owns, t);
  }

  lemma AllTaken(p: Pool, held: Held, body: Bytes, pieces: seq<Bytes>)
    requires p.Sound() && Coded(p, body, pieces) && OnRanks(p, held, body, pieces)
    requires Own(p, held, pieces, 0) && forall r: nat :: r < p.k + p.m ==> !EmptyAt(p, held, r)
    ensures var raws, owns := Raws(p, held, body), Owns(p, held, pieces);
      raws !! owns && 0 in owns && raws + owns == Range(0, p.k + p.m)
  {
    RawOrOwn(p, held, body, pieces);
    hide Pool.Targets;
    hide Mds;
    hide Coded;
    hide OnRanks;
    hide EmptyAt;
    hide Own;
    hide RawAt;
  }

  lemma FrontPiece(k: nat, m: nat, raws: set<nat>, owns: set<nat>, t: nat)
    requires k >= 2 && raws !! owns && raws + owns == Range(0, k + m) && 0 in owns
    ensures t < LossLimit(k, |raws|, |owns|, |RawFirst(raws, owns)|) <==> t + |raws| <= m
  {
    assert RawFirst(raws, owns) == {};
    assert |raws + owns| == |raws| + |owns|;
  }

  lemma PassedOver(p: Pool, held: Held, body: Bytes, pieces: seq<Bytes>)
    requires p.Valid() && OnRanks(p, held, body, pieces) && forall r: nat :: r < p.k + p.m ==> !EmptyAt(p, held, r)
    ensures TakenForHealthy(p, held)
  {
    hide TakenForHealthy;
    hide Pool.Targets;
    hide EmptyAt;
    HealthyMeans(p, held);
  }

  // ----- what a repair with failing writes leaves

  /**
   After the repair of any placement a piece is reachable exactly when its own write succeeded, a shard off the targets
   has it, or a rank whose write failed had it before.
   */
  lemma RepairReaches(p: Pool, body: Bytes, pieces: seq<Bytes>, held: Held, put: set<nat>, j: nat)
    requires p.Sound() && Coded(p, body, pieces) && |held| == p.n && |p.Targets()| == p.k + p.m && j < p.k + p.m
    ensures j in Reachable(RepairTo(p, held, pieces, put, p.k + p.m), pieces)
      <==> p.Targets()[j] !in put || OnStray(p, held, pieces, j) || KeptElsewhere(p, held, pieces, put, j)
  {
    hide *;
    if j in Reachable(RepairTo(p, held, pieces, put, p.k + p.m), pieces) { ReachedFrom(p, body, pieces, held, put, j); }
    if p.Targets()[j] !in put || OnStray(p, held, pieces, j) || KeptElsewhere(p, held, pieces, put, j) {
      StillReached(p, body, pieces, held, put, j);
    }
  }

  lemma RankRepaired(p: Pool, body: Bytes, pieces: seq<Bytes>, held: Held, put: set<nat>, r: nat)
    requires p.Sound() && Coded(p, body, pieces) && |held| == p.n && |p.Targets()| == p.k + p.m && r < p.k + p.m
    ensures |pieces| == p.k + p.m && p.Targets()[r] < p.n
    ensures var after := RepairTo(p, held, pieces, put, p.k + p.m);
      after[p.Targets()[r]] == if p.Targets()[r] !in put then Some(pieces[r]) else AtRank(p.Targets(), held, r)
  {
    hide RepairTo;
    hide Mds;
    hide Coded;
    hide Pool.Targets;
    TargetsDistinct(p);
    CodedLength(p, body, pieces);
    RepairToRank(p, held, pieces, put, p.k + p.m, r);
  }

  lemma ReachedFrom(p: Pool, body: Bytes, pieces: seq<Bytes>, held: Held, put: set<nat>, j: nat)
    requires p.Sound() && Coded(p, body, pieces) && |held| == p.n && |p.Targets()| == p.k + p.m && j < p.k + p.m
    requires j in Reachable(RepairTo(p, held, pieces, put, p.k + p.m), pieces)
    ensures p.Targets()[j] !in put || OnStray(p, held, pieces, j) || KeptElsewhere(p, held, pieces, put, j)
  {
    hide Mds;
    hide Coded;
    hide RepairTo;
    hide Reachable;
    hide Pool.Targets;
    var s := ReachableHas(RepairTo(p, held, pieces, put, p.k + p.m), pieces, j);
    if s in p.Targets() {
      var r := RankOf(p, s);
      RankRepaired(p, body, pieces, held, put, r);
      PiecesDiffer(p, body, pieces, r, j);
      assert s in put ==> HasAt(p, held, pieces, r, j);
    } else {
      RepairToStray(p, held, pieces, put, p.k + p.m, s);
      assert Has(held, pieces, s, j);
    }
  }

  lemma StillReached(p: Pool, body: Bytes, pieces: seq<Bytes>, held: Held, put: set<nat>, j: nat)
    requires p.Sound() && Coded(p, body, pieces) && |held| == p.n && |p.Targets()| == p.k + p.m && j < p.k + p.m
    requires p.Targets()[j] !in put || OnStray(p, held, pieces, j) || KeptElsewhere(p, held, pieces, put, j)
    ensures j in Reachable(RepairTo(p, held, pieces, put, p.k + p.m), pieces)
  {
    hide Mds;
    hide Coded;
    hide RepairTo;
    hide Reachable;
    hide Pool.Targets;
    var after := RepairTo(p, held, pieces, put, p.k + p.m);
    RankRepaired(p, body, pieces, held, put, j);
    if p.Targets()[j] !in put {
      ReachableFrom(after, pieces, p.Targets()[j], j);
    } else if OnStray(p, held, pieces, j) {
      var s: nat :| s !in p.Targets() && Has(held, pieces, s, j);
      RepairToStray(p, held, pieces, put, p.k + p.m, s);
      ReachableFrom(after, pieces, s, j);
    } else {
      var r: nat :| r < p.k + p.m && p.Targets()[r] in put && HasAt(p, held, pieces, r, j);
      RankRepaired(p, body, pieces, held, put, r);
      ReachableFrom(after, pieces, p.Targets()[r], j);
    }
  }

  ghost predicate HasAt(p: Pool, held: Held, pieces: seq<Bytes>, r: nat, j: nat) {
    j < |pieces| && AtRank(p.Targets(), held, r) == Some(pieces[j])
  }

  ghost predicate KeptElsewhere(p: Pool, held: Held, pieces: seq<Bytes>, put: set<nat>, j: nat) {
    exists r: nat :: r < p.k + p.m && r < |p.Targets()| && p.Targets()[r] in put && HasAt(p, held, pieces, r, j)
  }

  /** So whatever the placement was, a repair in which at most M writes fail leaves the object decodable. */
  lemma FewFailuresKeep(p: Pool, body: Bytes, pieces: seq<Bytes>, held: Held, put: set<nat>)
    requires p.Sound() && Coded(p, body, pieces) && |held| == p.n && |p.Targets()| == p.k + p.m && |put| <= p.m
    ensures |Reachable(RepairTo(p, held, pieces, put, p.k + p.m), pieces)| >= p.k
  {
    hide Pool.Targets;
    hide Mds;
    hide Coded;
    hide RepairTo;
    hide Reachable;
    var written, after := Range(0, p.k + p.m) - DownRanks(p, put), Reachable(RepairTo(p, held, pieces, put, p.k + p.m), pieces);
    DownCount(p, put);
    forall j | j in written ensures j in after { RepairReaches(p, body, pieces, held, put, j); }
    assert |Range(0, p.k + p.m)| == |written + DownRanks(p, put)| == |written| + |DownRanks(p, put)|;
    SubsetSize(written, after);
  }
}
