/**
 The placements one key goes through while it is migrated, written and repaired, when a read of each returns the body,
 and what losing shards costs.
 */
module PoolWrite {
  import opened Bytes
  import opened Pieces
  import opened Erasure
  import opened PoolRead

  // ----- shapes a key's placement goes through

  function Range(a: nat, b: nat): (s: set<nat>)
    ensures forall i :: i in s <==> a <= i < b
    ensures |s| == if a <= b then b - a else 0
  {
    if a >= b then {} else Range(a, b - 1) + {b - 1}
  }

  predicate Own(p: Pool, held: Held, pieces: seq<Bytes>, r: nat) {
    r < |pieces| && AtRank(p.Targets(), held, r) == Some(pieces[r])
  }

  predicate RawAt(p: Pool, held: Held, body: Bytes, r: nat) { AtRank(p.Targets(), held, r) == Some(body) }

  predicate EmptyAt(p: Pool, held: Held, r: nat) { AtRank(p.Targets(), held, r).None? }

  ghost predicate StraysGenuine(p: Pool, held: Held, body: Bytes, pieces: seq<Bytes>) {
    |held| == p.n && forall s :: 0 <= s < p.n && s !in p.Targets() ==> Genuine(held[s], body, pieces)
  }

  /** A mirrored key: each leg holds the body or nothing and at least one holds it. The tail ranks may hold anything. */
  ghost predicate Mirrored(p: Pool, held: Held, body: Bytes, pieces: seq<Bytes>) {
    && StraysGenuine(p, held, body, pieces) && |p.Targets()| == p.k + p.m
    && (forall r :: 0 <= r < p.r ==> EmptyAt(p, held, r) || RawAt(p, held, body, r))
    && (exists r :: 0 <= r < p.r && RawAt(p, held, body, r))
  }

  /** Past the point of no return: the whole tail is in place and each leg holds the body, its own piece, or nothing. */
  ghost predicate HalfMigrated(p: Pool, held: Held, body: Bytes, pieces: seq<Bytes>) {
    && StraysGenuine(p, held, body, pieces) && |p.Targets()| == p.k + p.m
    && (forall r :: 0 <= r < p.r ==> EmptyAt(p, held, r) || RawAt(p, held, body, r) || Own(p, held, pieces, r))
    && (exists r :: 0 <= r < p.r && !EmptyAt(p, held, r))
    && (forall r :: p.r <= r < p.k + p.m ==> Own(p, held, pieces, r))
  }

  lemma MirroredReads(p: Pool, held: Held, body: Bytes, pieces: seq<Bytes>)
    requires p.Sound() && Coded(p, body, pieces) && Mirrored(p, held, body, pieces)
    ensures GetEcAware(p, held) == Ok(body)
  {
    hide Pool.Targets;
    hide Mds;
    hide ScanAll;
    hide ParsePieceHeader;
    hide Decode;
    var r :| 0 <= r < p.r && RawAt(p, held, body, r);
    var first := FirstAnswer(p.Targets(), held, 0);
    assert first <= r && !EmptyAt(p, held, first);
    assert RawAt(p, held, body, first);
  }

  lemma OwnReachable(p: Pool, held: Held, pieces: seq<Bytes>, r: nat)
    requires Own(p, held, pieces, r)
    ensures r in Reachable(held, pieces)
  {
    ReachableFrom(held, pieces, p.Targets()[r], r);
  }

  lemma HalfMigratedCanonical(p: Pool, held: Held, body: Bytes, pieces: seq<Bytes>)
    requires p.Sound() && Coded(p, body, pieces) && HalfMigrated(p, held, body, pieces)
    ensures Canonical(p, held, body, pieces)
  {
    hide Pool.Targets;
    hide Mds;
    assert |pieces| == p.k + p.m;
    hide Coded;
    forall s | 0 <= s < p.n ensures Genuine(held[s], body, pieces) {
      if s in p.Targets() {
        var r :| 0 <= r < |p.Targets()| && p.Targets()[r] == s;
        assert EmptyAt(p, held, r) || RawAt(p, held, body, r) || Own(p, held, pieces, r);
      }
    }
    forall r | 0 <= r < |p.Targets()|
      ensures var c := AtRank(p.Targets(), held, r); c.None? || c.value == body || (r < |pieces| && c.value == pieces[r])
    {
      assert EmptyAt(p, held, r) || RawAt(p, held, body, r) || Own(p, held, pieces, r);
    }
  }

  /** The pieces of the tail and one head. */
  lemma TailAndHead(p: Pool, held: Held, body: Bytes, pieces: seq<Bytes>, head: nat)
    requires HalfMigrated(p, held, body, pieces) && head < p.r && Own(p, held, pieces, head) && 1 <= p.r <= p.k + p.m
    ensures |Reachable(held, pieces)| >= p.k + p.m - p.r + 1
  {
    hide Own;
    hide Pool.Targets;
    hide Reachable;
    var some := Range(p.r, p.k + p.m) + {head};
    forall j | j in some ensures j in Reachable(held, pieces) { OwnReachable(p, held, pieces, j); }
    SubsetSize(some, Reachable(held, pieces));
  }

  /** With M >= R - 1 the tail and one head are enough, whichever comes first. */
  lemma HalfMigratedReads(p: Pool, held: Held, body: Bytes, pieces: seq<Bytes>)
    requires p.Sound() && Coded(p, body, pieces) && HalfMigrated(p, held, body, pieces) && p.m + 1 >= p.r
    ensures GetEcAware(p, held) == Ok(body)
  {
    HalfMigratedCanonical(p, held, body, pieces);
    GetExact(p, body, pieces, held);
    hide GetEcAware;
    hide Pool.Targets;
    hide Mds;
    hide Coded;
    hide Canonical;
    hide Reachable;
    var first := FirstAnswer(p.Targets(), held, 0);
    var some :| 0 <= some < p.r && !EmptyAt(p, held, some);
    assert first <= some;
    if !RawAt(p, held, body, first) { TailAndHead(p, held, body, pieces, first); }
  }

  lemma OnlyTailAndFirst(p: Pool, held: Held, body: Bytes, pieces: seq<Bytes>)
    requires p.Sound() && Coded(p, body, pieces) && HalfMigrated(p, held, body, pieces)
    requires Own(p, held, pieces, 0) && (forall r :: 1 <= r < p.r ==> RawAt(p, held, body, r))
    requires forall s :: 0 <= s < p.n && s !in p.Targets() ==> held[s].None?
    ensures Reachable(held, pieces) == Range(p.r, p.k + p.m) + {0}
  {
    hide Pool.Targets;
    hide Mds;
    hide Coded;
    hide Canonical;
    hide Reachable;
    HalfMigratedCanonical(p, held, body, pieces);
    CodedLength(p, body, pieces);
    forall j | j in Reachable(held, pieces) ensures j in Range(p.r, p.k + p.m) + {0} {
      var s := ReachableHas(held, pieces, j);
      OwnRank(p, body, pieces, held, s, j);
      PiecesDiffer(p, body, pieces, j, j);
      assert 1 <= j < p.r ==> RawAt(p, held, body, j);
    }
    forall j | j in Range(p.r, p.k + p.m) + {0} ensures j in Reachable(held, pieces) { OwnReachable(p, held, pieces, j); }
  }

  /**
   With M < R - 1 it is not: once the tail is written and the first head piece has replaced a mirror leg, the read
   probes that piece, finds too few, and fails although other legs still hold the whole body.
   */
  lemma MigrationNeedsParity(p: Pool, held: Held, body: Bytes, pieces: seq<Bytes>)
    requires p.Valid() && Coded(p, body, pieces) && HalfMigrated(p, held, body, pieces)
    requires Own(p, held, pieces, 0) && (forall r :: 1 <= r < p.r ==> RawAt(p, held, body, r))
    requires forall s :: 0 <= s < p.n && s !in p.Targets() ==> held[s].None?
    ensures GetEcAware(p, held) == Ok(body) <==> p.m + 1 >= p.r
  {
    hide GetEcAware;
    hide Pool.Targets;
    hide Mds;
    hide Coded;
    hide Canonical;
    hide Reachable;
    hide Own;
    hide RawAt;
    hide EmptyAt;
    hide FirstAnswer;
    HalfMigratedCanonical(p, held, body, pieces);
    CodedLength(p, body, pieces);
    GetExact(p, body, pieces, held);
    FirstIsOwn(p, held, pieces);
    PiecesDiffer(p, body, pieces, 0, 0);
    OnlyTailAndFirst(p, held, body, pieces);
    CountTailAndFirst(p.r, p.k + p.m);
  }

  /** Every leg holds the body and nothing lies off the targets. */
  ghost predicate FullMirror(p: Pool, held: Held, body: Bytes) {
    && |held| == p.n && |p.Targets()| == p.k + p.m && (forall r :: 0 <= r < p.r ==> RawAt(p, held, body, r))
    && forall s :: 0 <= s < p.n && s !in p.Targets() ==> held[s].None?
  }

  /** So with the tail in place under a full mirror, the first head write alone decides. */
  lemma FirstHead(p: Pool, held: Held, body: Bytes, pieces: seq<Bytes>)
    requires p.Valid() && Coded(p, body, pieces) && HalfMigrated(p, held, body, pieces) && FullMirror(p, held, body)
    ensures p.Targets()[0] < p.n
    ensures GetEcAware(p, held[p.Targets()[0] := Some(pieces[0])]) == Ok(body) <==> p.m + 1 >= p.r
  {
    hide Mds;
    TargetsDistinct(p);
    CodedLength(p, body, pieces);
    hide Pool.Targets;
    hide Coded;
    hide GetEcAware;
    var after := held[p.Targets()[0] := Some(pieces[0])];
    FirstRanks(p, held, body, pieces);
    hide AtRank;
    assert HalfMigrated(p, after, body, pieces) by {
      hide RawAt;
      hide Own;
      hide EmptyAt;
      assert !EmptyAt(p, after, 0);
    }
    MigrationNeedsParity(p, after, body, pieces);
  }

  lemma FirstRanks(p: Pool, held: Held, body: Bytes, pieces: seq<Bytes>)
    requires p.Sound() && HalfMigrated(p, held, body, pieces) && FullMirror(p, held, body) && |pieces| > 0 && p.Targets()[0] < p.n
    ensures var after := held[p.Targets()[0] := Some(pieces[0])];
      && Own(p, after, pieces, 0) && !EmptyAt(p, after, 0) && (forall r :: 1 <= r < p.r ==> RawAt(p, after, body, r))
      && (forall r :: p.r <= r < p.k + p.m ==> Own(p, after, pieces, r))
      && (forall s :: 0 <= s < p.n && s !in p.Targets() ==> after[s].None?)
  {
    hide Mds;
    TargetsDistinct(p);
    hide Pool.Targets;
    hide Genuine;
    var after := held[p.Targets()[0] := Some(pieces[0])];
    forall r | 1 <= r < p.r ensures RawAt(p, after, body, r) { assert RawAt(p, held, body, r); }
    forall r | p.r <= r < p.k + p.m ensures Own(p, after, pieces, r) { assert Own(p, held, pieces, r); }
  }

  /** A 3 + 1 code mirrored three times is a full mirror with too few parity pieces. */
  lemma TooFewParityPieces() returns (p: Pool, held: Held, body: Bytes, pieces: seq<Bytes>)
    ensures p.Valid() && p.m + 1 < p.r && Coded(p, body, pieces) && pieces == EcEncode(p.rs, body, p.k, p.m)
    ensures Mirrored(p, held, body, pieces) && FullMirror(p, held, body) && EmptyAt(p, held, 3) && |p.Targets()| == 4
  {
    hide Coded;
    hide EcEncode;
    p, body := Pool(SUM_CODE, 3, 1, 3, 4, [0, 1, 2, 3], 4), [7];
    ContractSatisfiable(3);
    hide Mds;
    held, pieces := [Some(body), Some(body), Some(body), None], EcEncode(p.rs, body, p.k, p.m);
    EncodeCodes(p, body);
    assert p.Targets() == [0, 1, 2, 3];
    assert RawAt(p, held, body, 0) && RawAt(p, held, body, 1) && RawAt(p, held, body, 2);
  }

  lemma FirstIsOwn(p: Pool, held: Held, pieces: seq<Bytes>)
    requires Own(p, held, pieces, 0)
    ensures |p.Targets()| > 0 && FirstAnswer(p.Targets(), held, 0) == 0 && AtRank(p.Targets(), held, 0) == Some(pieces[0])
  {
    hide Pool.Targets;
  }

  lemma CountTailAndFirst(a: nat, b: nat)
    requires 0 < a <= b
    ensures |Range(a, b) + {0}| == b - a + 1
  {
    assert 0 !in Range(a, b);
  }

  // ----- losing shards

  function Answers(held: Held, down: set<nat>): (a: Held)
    ensures |a| == |held| && forall i :: 0 <= i < |a| ==> a[i] == if i in down then None else held[i]
  {
    seq(|held|, i requires 0 <= i < |held| => if i in down then None else held[i])
  }

  lemma LoseOne(p: Pool, body: Bytes, pieces: seq<Bytes>, held: Held, s: nat)
    requires Coded(p, body, pieces)
    ensures |Reachable(Answers(held, {s}), pieces)| + 1 >= |Reachable(held, pieces)|
  {
    var before, after := Reachable(held, pieces), Reachable(Answers(held, {s}), pieces);
    var one: nat := if j :| 0 <= j < |pieces| && Has(held, pieces, s, j) then j else 0;
    forall i | i in before && i != one ensures i in after {
      var t := ReachableHas(held, pieces, i);
      PiecesDiffer(p, body, pieces, i, if one < |pieces| then one else i);
      assert t != s;
      ReachableFrom(Answers(held, {s}), pieces, t, i);
    }
    SubsetSize(before, after + {one});
  }

  /** Each lost shard costs at most one piece. */
  lemma {:induction false} LoseSome(p: Pool, body: Bytes, pieces: seq<Bytes>, held: Held, down: set<nat>)
    requires Coded(p, body, pieces)
    ensures |Reachable(Answers(held, down), pieces)| + |down| >= |Reachable(held, pieces)|
    decreases down
  {
    hide Coded;
    hide Reachable;
    if down == {} {
      assert Answers(held, down) == held;
    } else {
      var s :| s in down;
      LoseSome(p, body, pieces, held, down - {s});
      LoseOne(p, body, pieces, Answers(held, down - {s}), s);
      assert Answers(Answers(held, down - {s}), {s}) == Answers(held, down);
    }
  }

  lemma AnswersCanonical(p: Pool, body: Bytes, pieces: seq<Bytes>, held: Held, down: set<nat>)
    requires Canonical(p, held, body, pieces)
    ensures Canonical(p, Answers(held, down), body, pieces)
  {
    hide Pool.Targets;
    var a := Answers(held, down);
    forall s | 0 <= s < p.n ensures Genuine(a[s], body, pieces) { assert Genuine(held[s], body, pieces); }
    forall r | 0 <= r < |p.Targets()|
      ensures AtRank(p.Targets(), a, r).None? || AtRank(p.Targets(), a, r) == AtRank(p.Targets(), held, r)
    {
    }
  }

  /** From a canonical placement with W distinct pieces, any W - K shards may stop answering. */
  lemma SurvivesLoss(p: Pool, body: Bytes, pieces: seq<Bytes>, held: Held, down: set<nat>)
    requires p.Sound() && Coded(p, body, pieces) && Canonical(p, held, body, pieces)
    requires |Reachable(held, pieces)| >= p.k + |down|
    ensures GetEcAware(p, Answers(held, down)) == Ok(body)
  {
    LoseSome(p, body, pieces, held, down);
    AnswersCanonical(p, body, pieces, held, down);
    GetExact(p, body, pieces, Answers(held, down));
    hide *;
  }

  /** Every rank holds its own piece. */
  ghost predicate FullyCoded(p: Pool, held: Held, body: Bytes, pieces: seq<Bytes>) {
    && StraysGenuine(p, held, body, pieces) && |p.Targets()| == p.k + p.m
    && forall r :: 0 <= r < p.k + p.m ==> Own(p, held, pieces, r)
  }

  /** Such a key is readable whichever M shards stop answering. */
  lemma FullyCodedSurvives(p: Pool, body: Bytes, pieces: seq<Bytes>, held: Held, down: set<nat>)
    requires p.Valid() && Coded(p, body, pieces) && FullyCoded(p, held, body, pieces) && |down| <= p.m
    ensures GetEcAware(p, Answers(held, down)) == Ok(body)
  {
    hide Pool.Targets;
    hide Mds;
    hide Own;
    hide GetEcAware;
    hide Reachable;
    hide Coded;
    hide Canonical;
    assert Own(p, held, pieces, 0);
    assert !EmptyAt(p, held, 0) by { OwnNotEmpty(p, held, pieces, 0); }
    HalfMigratedCanonical(p, held, body, pieces);
    var all := Range(0, p.k + p.m);
    forall j | j in all ensures j in Reachable(held, pieces) { OwnReachable(p, held, pieces, j); }
    SubsetSize(all, Reachable(held, pieces));
    SurvivesLoss(p, body, pieces, held, down);
  }

  lemma OwnNotEmpty(p: Pool, held: Held, pieces: seq<Bytes>, r: nat)
    requires Own(p, held, pieces, r)
    ensures !EmptyAt(p, held, r)
  {
  }

  /** A piece stored on a shard that held nothing joins the reachable ones. */
  lemma StoreNew(p: Pool, body: Bytes, pieces: seq<Bytes>, held: Held, s: nat, j: nat)
    requires Coded(p, body, pieces) && s < |held| && held[s].None? && j < |pieces|
    ensures Reachable(held[s := Some(pieces[j])], pieces) == Reachable(held, pieces) + {j}
  {
    var after := held[s := Some(pieces[j])];
    ReachableFrom(after, pieces, s, j);
    forall i | i in Reachable(held, pieces) ensures i in Reachable(after, pieces) {
      var t := ReachableHas(held, pieces, i);
      ReachableFrom(after, pieces, t, i);
    }
    forall i | i in Reachable(after, pieces) ensures i in Reachable(held, pieces) + {j} {
      var t := ReachableHas(after, pieces, i);
      if t == s { PiecesDiffer(p, body, pieces, i, j); } else { ReachableFrom(held, pieces, t, i); }
    }
  }

  // ----- erasure writes

  /** A fresh key onto which exactly the pieces in done were stored, on their own ranks or on shards off the targets. */
  ghost predicate Written(p: Pool, held: Held, pieces: seq<Bytes>, done: set<nat>) {
    && |held| == p.n && Reachable(held, pieces) == done
    && (forall r :: 0 <= r < |p.Targets()| ==> EmptyAt(p, held, r) || Own(p, held, pieces, r))
    && (forall s :: 0 <= s < p.n && s !in p.Targets() ==> held[s].None? || held[s].value in pieces)
  }

  lemma FreshWritten(p: Pool, held: Held, pieces: seq<Bytes>)
    requires |held| == p.n && forall s :: 0 <= s < p.n ==> held[s].None?
    ensures Written(p, held, pieces, {})
  {
    hide Pool.Targets;
    forall j | j in Reachable(held, pieces) ensures false { var s := ReachableHas(held, pieces, j); }
    forall r | 0 <= r < |p.Targets()| ensures EmptyAt(p, held, r) {}
  }

  lemma WriteRank(p: Pool, body: Bytes, held: Held, pieces: seq<Bytes>, done: set<nat>, r: nat)
    requires p.Sound() && Coded(p, body, pieces) && Written(p, held, pieces, done)
    requires r < |p.Targets()| && r < |pieces| && EmptyAt(p, held, r)
    ensures p.Targets()[r] < p.n && Written(p, held[p.Targets()[r] := Some(pieces[r])], pieces, done + {r})
  {
    hide Pool.Targets;
    hide Mds;
    var s := p.Targets()[r];
    TargetsDistinct(p);
    StoreNew(p, body, pieces, held, s, r);
    hide Coded;
    hide Reachable;
    var after := held[s := Some(pieces[r])];
    forall q | 0 <= q < |p.Targets()| ensures EmptyAt(p, after, q) || Own(p, after, pieces, q) {
      assert EmptyAt(p, held, q) || Own(p, held, pieces, q);
      if q == r { assert Own(p, after, pieces, q); }
    }
  }

  lemma WriteSpare(p: Pool, body: Bytes, held: Held, pieces: seq<Bytes>, done: set<nat>, s: nat, j: nat)
    requires p.Sound() && Coded(p, body, pieces) && Written(p, held, pieces, done)
    requires s < p.n && s !in p.Targets() && held[s].None? && j < |pieces|
    ensures Written(p, held[s := Some(pieces[j])], pieces, done + {j})
  {
    hide Pool.Targets;
    hide Mds;
    TargetsDistinct(p);
    StoreNew(p, body, pieces, held, s, j);
    hide Coded;
    hide Reachable;
    var after := held[s := Some(pieces[j])];
    forall q | 0 <= q < |p.Targets()| ensures EmptyAt(p, after, q) || Own(p, after, pieces, q) {
      assert EmptyAt(p, held, q) || Own(p, held, pieces, q);
      assert p.Targets()[q] in p.Targets();
    }
  }

  lemma TargetsDistinct(p: Pool)
    requires p.Sound()
    ensures |p.Targets()| <= |p.ranking|
    ensures forall i :: 0 <= i < |p.Targets()| ==> p.Targets()[i] == p.ranking[i] < p.n
    ensures forall i, j :: 0 <= i < j < |p.Targets()| ==> p.Targets()[i] != p.Targets()[j]
  {
  }

  lemma WrittenCanonical(p: Pool, body: Bytes, held: Held, pieces: seq<Bytes>, done: set<nat>)
    requires p.Sound() && Coded(p, body, pieces) && Written(p, held, pieces, done)
    ensures Canonical(p, held, body, pieces)
  {
    hide Pool.Targets;
    hide Mds;
    TargetsDistinct(p);
    hide Coded;
    forall s | 0 <= s < p.n ensures Genuine(held[s], body, pieces) {
      if s in p.Targets() {
        var r :| 0 <= r < |p.Targets()| && p.Targets()[r] == s;
        assert EmptyAt(p, held, r) || Own(p, held, pieces, r);
      }
    }
    forall r | 0 <= r < |p.Targets()|
      ensures var c := AtRank(p.Targets(), held, r); c.None? || (r < |pieces| && c.value == pieces[r])
    {
      assert EmptyAt(p, held, r) || Own(p, held, pieces, r);
    }
  }
}
