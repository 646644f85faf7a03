/**
 Migration, erasure writes and repair of one key, shard call by shard call. `history` keeps every state the shards go
 through, so a property of all of history holds after every prefix of the writes, wherever the process stops.
 */
module KeyPools {
  import opened Bytes
  import opened Pieces
  import opened Erasure
  import opened PoolRead
  import opened PoolWrite
  import opened PoolRepair
  import opened MirrorFill

  datatype MigrateOutcome = Migrated | SkippedSmall | SkippedEc | CanaryFailed | MigrateError
  datatype Plan = Go(body: Bytes) | Leave(out: MigrateOutcome)
  datatype RepairResult = Repaired(repaired: nat, left: nat) | RepairError
  datatype TailResult = TailDone | TailMismatch | TailFailed

  /** Which shards fail which kind of call for this key, and which silently store other bytes. */
  datatype Faults = Faults(has: set<nat>, stat: set<nat>, get: set<nat>, put: set<nat>, del: set<nat>, corrupt: map<nat, Bytes>)

  const NO_FAULTS := Faults({}, {}, {}, {}, {}, map[])

  // ----- how two placements may differ

  predicate InRanks(p: Pool, s: nat, lo: nat, hi: nat) { exists r :: lo <= r < hi && r < |p.Targets()| && p.Targets()[r] == s }

  /** a and b agree on every shard outside ranks lo to hi. */
  predicate SameOutside(p: Pool, a: Held, b: Held, lo: nat, hi: nat) {
    |a| == |b| && forall s :: 0 <= s < |a| && !InRanks(p, s, lo, hi) ==> a[s] == b[s]
  }

  /** From a to b some legs got their own piece and nothing else changed. */
  predicate HeadsAdvance(p: Pool, a: Held, b: Held, pieces: seq<Bytes>) {
    && SameOutside(p, a, b, 0, p.r)
    && forall r :: 0 <= r < p.r ==> AtRank(p.Targets(), b, r) == AtRank(p.Targets(), a, r) || Own(p, b, pieces, r)
  }

  /** From a to b some shards off the targets were cleared and nothing else changed. */
  predicate StraysDropped(p: Pool, a: Held, b: Held) {
    |a| == |b| && forall s :: 0 <= s < |a| ==> a[s] == b[s] || (s !in p.Targets() && b[s].None?)
  }

  lemma OutsideRank(p: Pool, lo: nat, hi: nat, r: nat)
    requires p.Valid() && r < |p.Targets()| && !(lo <= r < hi)
    ensures !InRanks(p, p.Targets()[r], lo, hi)
  {
  }

  lemma SameAtRank(p: Pool, a: Held, b: Held, lo: nat, hi: nat, r: nat)
    requires p.Valid() && SameOutside(p, a, b, lo, hi) && !(lo <= r < hi)
    ensures AtRank(p.Targets(), a, r) == AtRank(p.Targets(), b, r)
  {
    if r < |p.Targets()| { OutsideRank(p, lo, hi, r); }
  }

  lemma TailKeepsMirror(p: Pool, a: Held, b: Held, body: Bytes, pieces: seq<Bytes>)
    requires p.Valid() && Mirrored(p, a, body, pieces) && SameOutside(p, a, b, p.r, p.k + p.m)
    ensures Mirrored(p, b, body, pieces)
  {
    hide Pool.Targets;
    hide Mds;
    hide Genuine;
    forall r | 0 <= r < p.r ensures AtRank(p.Targets(), a, r) == AtRank(p.Targets(), b, r) {
      SameAtRank(p, a, b, p.r, p.k + p.m, r);
    }
    var leg :| 0 <= leg < p.r && RawAt(p, a, body, leg);
    assert RawAt(p, b, body, leg);
    forall r | 0 <= r < p.r ensures EmptyAt(p, b, r) || RawAt(p, b, body, r) {
      assert EmptyAt(p, a, r) || RawAt(p, a, body, r);
    }
  }

  lemma TailInPlace(p: Pool, held: Held, body: Bytes, pieces: seq<Bytes>)
    requires p.Valid() && Mirrored(p, held, body, pieces) && (forall r :: p.r <= r < p.k + p.m ==> Own(p, held, pieces, r))
    ensures HalfMigrated(p, held, body, pieces)
  {
    hide Pool.Targets;
    var leg :| 0 <= leg < p.r && RawAt(p, held, body, leg);
    assert !EmptyAt(p, held, leg);
  }

  lemma HeadsKeepHalf(p: Pool, a: Held, b: Held, body: Bytes, pieces: seq<Bytes>)
    requires p.Valid() && HalfMigrated(p, a, body, pieces) && HeadsAdvance(p, a, b, pieces)
    ensures HalfMigrated(p, b, body, pieces)
  {
    hide Pool.Targets;
    hide Mds;
    hide Genuine;
    forall r | p.r <= r < p.k + p.m ensures Own(p, b, pieces, r) {
      assert Own(p, a, pieces, r);
      SameAtRank(p, a, b, 0, p.r, r);
    }
    forall r | 0 <= r < p.r ensures EmptyAt(p, b, r) || RawAt(p, b, body, r) || Own(p, b, pieces, r) {
      assert EmptyAt(p, a, r) || RawAt(p, a, body, r) || Own(p, a, pieces, r);
    }
    var some :| 0 <= some < p.r && !EmptyAt(p, a, some);
    assert !EmptyAt(p, b, some);
  }

  lemma StraysKeepHalf(p: Pool, a: Held, b: Held, body: Bytes, pieces: seq<Bytes>)
    requires p.Valid() && HalfMigrated(p, a, body, pieces) && StraysDropped(p, a, b)
    ensures HalfMigrated(p, b, body, pieces)
  {
    hide Pool.Targets;
    hide Mds;
    forall r | 0 <= r < |p.Targets()| ensures AtRank(p.Targets(), b, r) == AtRank(p.Targets(), a, r) {
      assert p.Targets()[r] in p.Targets();
    }
    forall r | p.r <= r < p.k + p.m ensures Own(p, b, pieces, r) { assert Own(p, a, pieces, r); }
    forall r | 0 <= r < p.r ensures EmptyAt(p, b, r) || RawAt(p, b, body, r) || Own(p, b, pieces, r) {
      assert EmptyAt(p, a, r) || RawAt(p, a, body, r) || Own(p, a, pieces, r);
    }
    var some :| 0 <= some < p.r && !EmptyAt(p, a, some);
    assert !EmptyAt(p, b, some);
    forall s | 0 <= s < p.n && s !in p.Targets() ensures Genuine(b[s], body, pieces) {
      assert Genuine(a[s], body, pieces);
    }
  }

  /** Writing the shard at rank r changes what rank r answers and no other. */
  lemma AtRankSet(p: Pool, held: Held, r: nat, c: Option<Bytes>, q: nat)
    requires p.Valid() && |held| == p.n && r < |p.Targets()|
    ensures p.Targets()[r] < p.n
    ensures AtRank(p.Targets(), held[p.Targets()[r] := c], q) == if q == r then c else AtRank(p.Targets(), held, q)
  {
  }

  lemma EmptyElsewhere(p: Pool, held: Held, r: nat, c: Option<Bytes>, q: nat)
    requires p.Valid() && |held| == p.n && r < |p.Targets()| && q != r
    ensures p.Targets()[r] < p.n && EmptyAt(p, held[p.Targets()[r] := c], q) == EmptyAt(p, held, q)
  {
    AtRankSet(p, held, r, c, q);
  }

  lemma OthersEmpty(p: Pool, held: Held, order: seq<nat>, x: nat, c: Option<Bytes>)
    requires p.Valid() && |held| == p.n && Shuffle(order, |p.Targets()|) && x < |order|
    ensures p.Targets()[order[x]] < p.n
    ensures forall y :: x < y < |order| ==>
      order[y] != order[x] && EmptyAt(p, held[p.Targets()[order[x]] := c], order[y]) == EmptyAt(p, held, order[y])
  {
    hide Pool.Targets;
    hide Mds;
    hide EmptyAt;
    EmptyElsewhere(p, held, order[x], c, |p.Targets()| + order[x] + 1);
    forall y | x < y < |order|
      ensures order[y] != order[x] && EmptyAt(p, held[p.Targets()[order[x]] := c], order[y]) == EmptyAt(p, held, order[y])
    {
      EmptyElsewhere(p, held, order[x], c, order[y]);
    }
  }

  lemma FreshEmpty(p: Pool, held: Held)
    requires forall s :: 0 <= s < |held| ==> held[s].None?
    ensures forall r: nat :: EmptyAt(p, held, r)
  {
    hide Pool.Targets;
  }

  lemma SetInRanks(p: Pool, a: Held, b: Held, r: nat, c: Option<Bytes>, lo: nat, hi: nat)
    requires p.Valid() && |b| == p.n && r < |p.Targets()| && lo <= r < hi && SameOutside(p, a, b, lo, hi)
    ensures p.Targets()[r] < p.n && SameOutside(p, a, b[p.Targets()[r] := c], lo, hi)
  {
    assert InRanks(p, p.Targets()[r], lo, hi);
  }

  // ----- reads along a migration

  /** Every state of the history since the from-th, and the state now, read back as the body. */
  ghost predicate AllRead(p: Pool, now: Held, history: seq<Held>, from: nat, body: Bytes) {
    && from <= |history| && GetEcAware(p, now) == Ok(body)
    && forall i :: from <= i < |history| ==> GetEcAware(p, history[i]) == Ok(body)
  }

  lemma TailHistory(p: Pool, start: Held, now: Held, history: seq<Held>, from: nat, body: Bytes, pieces: seq<Bytes>)
    requires p.Valid() && Coded(p, body, pieces) && Mirrored(p, start, body, pieces) && from <= |history|
    requires SameOutside(p, start, now, p.r, p.k + p.m)
    requires forall i :: from <= i < |history| ==> SameOutside(p, start, history[i], p.r, p.k + p.m)
    ensures Mirrored(p, now, body, pieces) && AllRead(p, now, history, from, body)
  {
    TailKeepsMirror(p, start, now, body, pieces);
    MirroredReads(p, now, body, pieces);
    forall i | from <= i < |history| ensures GetEcAware(p, history[i]) == Ok(body) {
      TailKeepsMirror(p, start, history[i], body, pieces);
      MirroredReads(p, history[i], body, pieces);
    }
    hide GetEcAware;
    hide Mirrored;
    hide SameOutside;
    hide Coded;
    hide Mds;
  }

  lemma HeadsHistory(p: Pool, start: Held, now: Held, history: seq<Held>, from: nat, body: Bytes, pieces: seq<Bytes>)
    requires p.Valid() && Coded(p, body, pieces) && HalfMigrated(p, start, body, pieces) && from <= |history|
    requires p.m + 1 >= p.r && HeadsAdvance(p, start, now, pieces)
    requires forall i :: from <= i < |history| ==> HeadsAdvance(p, start, history[i], pieces)
    ensures HalfMigrated(p, now, body, pieces) && AllRead(p, now, history, from, body)
  {
    HeadsKeepHalf(p, start, now, body, pieces);
    HalfMigratedReads(p, now, body, pieces);
    forall i | from <= i < |history| ensures GetEcAware(p, history[i]) == Ok(body) {
      HeadsKeepHalf(p, start, history[i], body, pieces);
      HalfMigratedReads(p, history[i], body, pieces);
    }
    hide GetEcAware;
    hide HalfMigrated;
    hide HeadsAdvance;
    hide Coded;
    hide Mds;
  }

  lemma StraysHistory(p: Pool, start: Held, now: Held, history: seq<Held>, from: nat, body: Bytes, pieces: seq<Bytes>)
    requires p.Valid() && Coded(p, body, pieces) && HalfMigrated(p, start, body, pieces) && from <= |history|
    requires p.m + 1 >= p.r && StraysDropped(p, start, now)
    requires forall i :: from <= i < |history| ==> StraysDropped(p, start, history[i])
    ensures AllRead(p, now, history, from, body)
  {
    StraysKeepHalf(p, start, now, body, pieces);
    HalfMigratedReads(p, now, body, pieces);
    forall i | from <= i < |history| ensures GetEcAware(p, history[i]) == Ok(body) {
      StraysKeepHalf(p, start, history[i], body, pieces);
      HalfMigratedReads(p, history[i], body, pieces);
    }
    hide GetEcAware;
    hide HalfMigrated;
    hide StraysDropped;
    hide Coded;
    hide Mds;
  }

  /** Some state of the history since the from-th does not read back as the body. */
  ghost predicate SomeUnread(p: Pool, history: seq<Held>, from: nat, body: Bytes) {
    exists i :: from <= i < |history| && GetEcAware(p, history[i]) != Ok(body)
  }

  lemma UnreadLater(p: Pool, a: seq<Held>, b: seq<Held>, from: nat, body: Bytes)
    requires |a| <= |b| && b[..|a|] == a && SomeUnread(p, a, from, body)
    ensures SomeUnread(p, b, from, body)
  {
    hide GetEcAware;
    var i :| from <= i < |a| && GetEcAware(p, a[i]) != Ok(body);
    assert b[i] == a[i];
  }

  lemma UnreadFrom(p: Pool, history: seq<Held>, later: nat, from: nat, body: Bytes)
    requires from <= later && SomeUnread(p, history, later, body)
    ensures SomeUnread(p, history, from, body)
  {
    hide GetEcAware;
  }

  lemma ReadOrUnread(p: Pool, now: Held, history: seq<Held>, from: nat, body: Bytes)
    requires SomeUnread(p, history, from, body)
    ensures !AllRead(p, now, history, from, body)
  {
    hide GetEcAware;
  }

  /** The tail writes leave a full mirror alone. */
  lemma TailKeepsFull(p: Pool, a: Held, b: Held, body: Bytes)
    requires p.Valid() && FullMirror(p, a, body) && SameOutside(p, a, b, p.r, p.k + p.m)
    ensures FullMirror(p, b, body)
  {
    hide Pool.Targets;
    hide Mds;
    forall r | 0 <= r < p.r ensures RawAt(p, b, body, r) {
      assert RawAt(p, a, body, r);
      SameAtRank(p, a, b, p.r, p.k + p.m, r);
    }
  }

  /** With fewer than R - 1 parity pieces, the state after the first head write is one that does not read back. */
  lemma HeadUnread(p: Pool, start: Held, history: seq<Held>, from: nat, body: Bytes, pieces: seq<Bytes>)
    requires p.Valid() && Coded(p, body, pieces) && HalfMigrated(p, start, body, pieces) && FullMirror(p, start, body)
    requires p.m + 1 < p.r && from < |history| && |p.Targets()| > 0 && |pieces| > 0 && p.Targets()[0] < |start|
    requires history[from] == start[p.Targets()[0] := Some(pieces[0])]
    ensures SomeUnread(p, history, from, body)
  {
    FirstHead(p, start, body, pieces);
    hide *;
  }

  lemma OwnKept(p: Pool, a: Held, b: Held, pieces: seq<Bytes>, lo: nat, hi: nat, r: nat)
    requires p.Valid() && SameOutside(p, a, b, lo, hi) && !(lo <= r < hi) && Own(p, a, pieces, r)
    ensures Own(p, b, pieces, r)
  {
    SameAtRank(p, a, b, lo, hi, r);
  }

  lemma StraysKeepOwn(p: Pool, a: Held, b: Held, pieces: seq<Bytes>)
    requires p.Valid() && StraysDropped(p, a, b)
    ensures forall r: nat :: Own(p, a, pieces, r) ==> Own(p, b, pieces, r)
  {
    hide Pool.Targets;
    hide Mds;
    forall r: nat | Own(p, a, pieces, r) ensures Own(p, b, pieces, r) {
      assert p.Targets()[r] in p.Targets();
    }
  }

  /** A tail written and rolled back: the mirror is as before, and if no delete failed on an empty tail, so is everything. */
  lemma UndoneTail(p: Pool, start: Held, mid: Held, now: Held, del: set<nat>)
    requires p.Valid() && p.k + p.m == |p.Targets()|
    requires SameOutside(p, start, mid, p.r, p.k + p.m) && SameOutside(p, mid, now, p.r, p.k + p.m)
    requires forall r :: p.r <= r < p.k + p.m && p.Targets()[r] !in del ==> EmptyAt(p, now, r)
    requires |start| == p.n
    ensures SameOutside(p, start, now, p.r, p.k + p.m)
    ensures del == {} && (forall r :: p.r <= r < p.k + p.m ==> EmptyAt(p, start, r)) ==> now == start
  {
    hide Pool.Targets;
    if del == {} && (forall r :: p.r <= r < p.k + p.m ==> EmptyAt(p, start, r)) {
      forall s | 0 <= s < p.n ensures now[s] == start[s] {
        if InRanks(p, s, p.r, p.k + p.m) {
          var r :| p.r <= r < p.k + p.m && r < |p.Targets()| && p.Targets()[r] == s;
          assert EmptyAt(p, start, r) && EmptyAt(p, now, r);
        }
      }
    }
  }

  lemma TargetCount(p: Pool)
    requires p.Valid()
    ensures |p.Targets()| <= p.k + p.m
  {
  }

  lemma PieceCount(p: Pool, body: Bytes)
    requires p.Sound()
    ensures |EcEncode(p.rs, body, p.k, p.m)| == p.k + p.m
  {
    EncodeShape(p.rs, body, p.k, p.m);
  }

  lemma BodyNoPiece(p: Pool, body: Bytes, pieces: seq<Bytes>)
    requires Coded(p, body, pieces)
    ensures ParsePieceHeader(body) == None
  {
  }

  /** The first x ranks in the order whose shards take writes hold their own pieces. */
  ghost predicate OwnedUpTo(p: Pool, held: Held, pieces: seq<Bytes>, put: set<nat>, order: seq<nat>, x: nat) {
    forall y :: 0 <= y < x && y < |order| && order[y] < |p.Targets()| && p.Targets()[order[y]] !in put ==> Own(p, held, pieces, order[y])
  }

  lemma OwnedStep(p: Pool, was: Held, now: Held, pieces: seq<Bytes>, put: set<nat>, order: seq<nat>, x: nat)
    requires p.Valid() && Shuffle(order, |p.Targets()|) && x < |order| && |was| == p.n && |pieces| >= |p.Targets()|
    requires OwnedUpTo(p, was, pieces, put, order, x)
    requires var s := p.Targets()[order[x]]; s < p.n && now == if s in put then was else was[s := Some(pieces[order[x]])]
    ensures OwnedUpTo(p, now, pieces, put, order, x + 1)
  {
    hide Pool.Targets;
    hide Mds;
    forall y | 0 <= y < x + 1 && p.Targets()[order[y]] !in put ensures Own(p, now, pieces, order[y]) {
      if y < x { assert Own(p, was, pieces, order[y]); }
      AtRankSet(p, was, order[x], Some(pieces[order[x]]), order[y]);
    }
  }

  lemma OwnedAll(p: Pool, held: Held, pieces: seq<Bytes>, put: set<nat>, order: seq<nat>)
    requires Shuffle(order, |p.Targets()|) && OwnedUpTo(p, held, pieces, put, order, |order|)
    ensures forall r :: 0 <= r < |p.Targets()| && p.Targets()[r] !in put ==> Own(p, held, pieces, r)
  {
    hide Pool.Targets;
    forall r | 0 <= r < |p.Targets()| && p.Targets()[r] !in put ensures Own(p, held, pieces, r) {
      assert r in order;
      var y :| 0 <= y < |order| && order[y] == r;
    }
  }

  /** Off the targets b holds what a held or nothing. */
  predicate StraysKeptOrGone(p: Pool, a: Held, b: Held) {
    |a| == |b| && forall s :: 0 <= s < |a| && s !in p.Targets() ==> b[s] == a[s] || b[s].None?
  }

  lemma OffTargets(p: Pool, a: Held, b: Held, lo: nat, hi: nat)
    requires SameOutside(p, a, b, lo, hi)
    ensures StraysKeptOrGone(p, a, b)
  {
    hide Pool.Targets;
    forall s | 0 <= s < |a| && s !in p.Targets() ensures b[s] == a[s] { assert !InRanks(p, s, lo, hi); }
  }

  lemma DroppedOrKept(p: Pool, a: Held, b: Held, c: Held)
    requires StraysKeptOrGone(p, a, b) && StraysDropped(p, b, c)
    ensures StraysKeptOrGone(p, a, c)
  {
    hide Pool.Targets;
  }

  lemma KeptOrGoneTwice(p: Pool, a: Held, b: Held, c: Held)
    requires StraysKeptOrGone(p, a, b) && StraysKeptOrGone(p, b, c)
    ensures StraysKeptOrGone(p, a, c)
  {
    hide Pool.Targets;
  }

  lemma FullySurvives(p: Pool, body: Bytes, pieces: seq<Bytes>, start: Held, held: Held)
    requires p.Valid() && Coded(p, body, pieces) && |p.Targets()| == p.k + p.m
    requires StraysGenuine(p, start, body, pieces) && StraysKeptOrGone(p, start, held)
    requires forall r :: 0 <= r < p.k + p.m ==> Own(p, held, pieces, r)
    ensures forall down: set<nat> :: |down| <= p.m ==> GetEcAware(p, Answers(held, down)) == Ok(body)
  {
    hide GetEcAware;
    hide Coded;
    hide Mds;
    hide Own;
    hide Pool.Targets;
    forall s | 0 <= s < p.n && s !in p.Targets() ensures Genuine(held[s], body, pieces) { assert Genuine(start[s], body, pieces); }
    forall down: set<nat> | |down| <= p.m ensures GetEcAware(p, Answers(held, down)) == Ok(body) {
      FullyCodedSurvives(p, body, pieces, held, down);
    }
  }

  lemma QuorumReads(p: Pool, body: Bytes, held: Held, pieces: seq<Bytes>, done: set<nat>, quorum: nat)
    requires p.Valid() && Coded(p, body, pieces) && Written(p, held, pieces, done)
    ensures Canonical(p, held, body, pieces) && Reachable(held, pieces) == done
    ensures |done| >= quorum >= p.k ==>
      forall down: set<nat> :: |down| <= quorum - p.k ==> GetEcAware(p, Answers(held, down)) == Ok(body)
  {
    WrittenCanonical(p, body, held, pieces, done);
    hide GetEcAware;
    hide Coded;
    hide Mds;
    if |done| >= quorum >= p.k {
      forall down: set<nat> | |down| <= quorum - p.k ensures GetEcAware(p, Answers(held, down)) == Ok(body) {
        SurvivesLoss(p, body, pieces, held, down);
      }
    }
  }

  /** order lists 0 to n, each once. */
  ghost predicate Shuffle(order: seq<nat>, n: nat) {
    && |order| == n && (forall i :: 0 <= i < n ==> order[i] < n)
    && (forall i, j :: 0 <= i < j < n ==> order[i] != order[j]) && (forall r: nat :: r < n ==> r in order)
  }

  /** One rank more is gathered and, if its answer is not its own piece, missing. */
  lemma GatherStep(p: Pool, body: Bytes, pieces: seq<Bytes>, held: Held, down: set<nat>, slots: Slots, missing: seq<nat>, r: nat)
    requires p.Sound() && Coded(p, body, pieces) && AllGenuine(held, body, pieces) && |held| == p.n
    requires r < |p.Targets()| && r < |pieces|
    requires RanksGathered(p, Answers(held, down), pieces, r, slots) && Missing(p, Answers(held, down), pieces, missing, r)
    ensures var a := Answers(held, down);
      var answer := AtRank(p.Targets(), a, r);
      && RanksGathered(p, a, pieces, r + 1, Store(slots, answer))
      && Missing(p, a, pieces, if IsOwnPiece(answer, r) then missing else missing + [r], r + 1)
  {
    hide Pool.Targets;
    hide Mds;
    hide RanksGathered;
    hide Missing;
    hide Store;
    TargetsDistinct(p);
    SeenGenuine(held, down, body, pieces);
    GatherRank(p, body, pieces, Answers(held, down), r, slots);
    assert Genuine(AtRank(p.Targets(), Answers(held, down), r), body, pieces);
    HeaderTells(p, body, pieces, AtRank(p.Targets(), Answers(held, down), r), r);
    MissingStep(p, Answers(held, down), pieces, missing, r);
  }

  /** The pieces the first r ranks answer with. */
  function SlotsTo(p: Pool, answers: Held, r: nat): (slots: Slots)
    ensures |slots| == p.k + p.m
  {
    if r == 0 then Empty(p.k + p.m) else Store(SlotsTo(p, answers, r - 1), AtRank(p.Targets(), answers, r - 1))
  }

  /** Those of the first r ranks that do not answer with a piece of their own index. */
  function MissingTo(p: Pool, answers: Held, r: nat): (missing: seq<nat>)
    ensures forall i :: 0 <= i < |missing| ==> missing[i] < r
  {
    if r == 0 then []
    else if IsOwnPiece(AtRank(p.Targets(), answers, r - 1), r - 1) then MissingTo(p, answers, r - 1)
    else MissingTo(p, answers, r - 1) + [r - 1]
  }

  lemma GatheredNext(p: Pool, answers: Held, r: nat)
    ensures SlotsTo(p, answers, 0) == Empty(p.k + p.m) && MissingTo(p, answers, 0) == []
    ensures SlotsTo(p, answers, r + 1) == Store(SlotsTo(p, answers, r), AtRank(p.Targets(), answers, r))
    ensures MissingTo(p, answers, r + 1)
      == if IsOwnPiece(AtRank(p.Targets(), answers, r), r) then MissingTo(p, answers, r) else MissingTo(p, answers, r) + [r]
  {
    hide Pool.Targets;
    hide Store;
    hide IsOwnPiece;
    hide AtRank;
  }

  lemma {:induction false} GatheredTo(p: Pool, body: Bytes, pieces: seq<Bytes>, held: Held, down: set<nat>, r: nat)
    requires p.Sound() && Coded(p, body, pieces) && AllGenuine(held, body, pieces) && |held| == p.n && r <= Ranks(p)
    ensures RanksGathered(p, Answers(held, down), pieces, r, SlotsTo(p, Answers(held, down), r))
    ensures Missing(p, Answers(held, down), pieces, MissingTo(p, Answers(held, down), r), r)
  {
    CodedLength(p, body, pieces);
    var a := Answers(held, down);
    if r == 0 {
      GatheredNext(p, a, 0);
      GatherNone(p, a, pieces);
      NoneMissingYet(p, a, pieces);
      hide *;
    } else {
      var n := r - 1;
      hide *;
      GatheredTo(p, body, pieces, held, down, n);
      GatheredNext(p, a, n);
      GatherStep(p, body, pieces, held, down, SlotsTo(p, a, n), MissingTo(p, a, n), n);
    }
  }

  lemma NoneMissingYet(p: Pool, answers: Held, pieces: seq<Bytes>)
    ensures Missing(p, answers, pieces, [], 0)
  {
  }

  /** Ranks that all answer with pieces of their own index, whatever is in them, leave none missing and fill their slots. */
  lemma {:induction false} OwnGathered(p: Pool, answers: Held, r: nat)
    requires r <= p.k + p.m && forall x: nat :: x < r ==> IsOwnPiece(AtRank(p.Targets(), answers, x), x)
    ensures MissingTo(p, answers, r) == [] && forall x: nat :: x < r ==> SlotsTo(p, answers, r)[x].Some?
  {
    hide Pool.Targets;
    if r > 0 {
      OwnGathered(p, answers, r - 1);
      var answer := AtRank(p.Targets(), answers, r - 1);
      StoreAdds(SlotsTo(p, answers, r - 1), answer, [answer]);
      assert IsOwnPiece(answer, r - 1);
      hide AtRank;
    }
  }

  lemma PresentAtLeast(slots: Slots, r: nat)
    requires r <= |slots| && forall x: nat :: x < r ==> slots[x].Some?
    ensures Present(slots) >= r
  {
    FilledCount(slots);
    SubsetSize(Range(0, r), FilledSet(slots));
  }

  /** A mirror leg that holds anything holds the body. */
  lemma LegHolds(p: Pool, held: Held, body: Bytes, pieces: seq<Bytes>, r: nat)
    requires Mirrored(p, held, body, pieces) && r < p.r && !EmptyAt(p, held, r)
    ensures AtRank(p.Targets(), held, r) == Some(body)
  {
    assert EmptyAt(p, held, r) || RawAt(p, held, body, r);
  }

  /** The tail shards are written in turn until one fails or answers with other bytes. */
  function TailOutcome(p: Pool, pieces: seq<Bytes>, f: Faults, r: nat): TailResult
    requires |pieces| == p.k + p.m
    decreases p.k + p.m - r
  {
    if r >= p.k + p.m || r >= |p.Targets()| then TailDone
    else
      var s := p.Targets()[r];
      if s in f.put || s in f.get then TailFailed
      else if s in f.corrupt && f.corrupt[s] != pieces[r] then TailMismatch
      else TailOutcome(p, pieces, f, r + 1)
  }

  function OutcomeAfter(tail: TailResult): MigrateOutcome {
    match tail
    case TailDone => Migrated
    case TailFailed => MigrateError
    case TailMismatch => CanaryFailed
  }

  lemma {:induction false} NoTailFault(p: Pool, pieces: seq<Bytes>, r: nat)
    requires |pieces| == p.k + p.m
    ensures TailOutcome(p, pieces, NO_FAULTS, r) == TailDone
    decreases p.k + p.m - r
  {
    hide Pool.Targets;
    if r < p.k + p.m { NoTailFault(p, pieces, r + 1); }
  }

  /** The outcome of a migration without faults, from what is held. */
  function OutcomeOf(p: Pool, held: Held, minSize: nat): MigrateOutcome {
    if |p.Targets()| < p.k + p.m then MigrateError
    else if exists r :: p.r <= r < p.k + p.m && !EmptyAt(p, held, r) then SkippedEc
    else
      var first := FirstAnswer(p.Targets(), held, 0);
      if first >= p.r || first >= |p.Targets()| then MigrateError
      else
        var b := AtRank(p.Targets(), held, first).value;
        if |b| < minSize then SkippedSmall else if ParsePieceHeader(b).Some? then SkippedEc else Migrated
  }

  class KeyPool {
    const p: Pool
    var held: Held
    ghost var history: seq<Held>

    constructor (p: Pool, held: Held)
      ensures this.p == p && this.held == held && history == []
    {
      this.p, this.held, history := p, held, [];
    }

    ghost predicate Valid()
      reads this
    {
      p.Valid() && |held| == p.n
    }

    /** A shard write succeeds, or changes nothing; a corrupting shard stores other bytes and reports success. */
    method Put(s: nat, b: Bytes, f: Faults) returns (ok: bool)
      requires s < |held|
      modifies this
      ensures ok == (s !in f.put)
      ensures held == (if ok then old(held)[s := Some(if s in f.corrupt then f.corrupt[s] else b)] else old(held))
      ensures history == old(history) + [held]
    {
      ok := s !in f.put;
      if ok { held := held[s := Some(if s in f.corrupt then f.corrupt[s] else b)]; }
      history := history + [held];
    }

    method Delete(s: nat, f: Faults)
      requires s < |held|
      modifies this
      ensures held == (if s !in f.del then old(held)[s := None] else old(held))
      ensures history == old(history) + [held]
    {
      if s !in f.del { held := held[s := None]; }
      history := history + [held];
    }

    function Has(s: nat, f: Faults): bool
      reads this
    {
      s < |held| && s !in f.has && held[s].Some?
    }

    function Get(s: nat, f: Faults): Option<Bytes>
      reads this
    {
      if s < |held| && s !in f.get then held[s] else None
    }

    ghost function Seen(f: Faults): (a: Held)
      reads this
    {
      Answers(held, f.get)
    }

    // ----- reading

    /** Read a key: the first rank that answers decides the era; when none does, every other shard is asked. */
    method Read(f: Faults) returns (r: Result<Bytes>)
      requires Valid()
      ensures r == GetEcAware(p, Seen(f))
    {
      hide Pool.Targets;
      hide Mds;
      hide Decode;
      hide Collect;
      hide ParsePieceHeader;
      var rank := 0;
      while rank < |p.Targets()|
        invariant rank <= |p.Targets()|
        invariant FirstAnswer(p.Targets(), Seen(f), 0) == FirstAnswer(p.Targets(), Seen(f), rank)
      {
        var answer := Get(p.Targets()[rank], f);
        assert answer == AtRank(p.Targets(), Seen(f), rank);
        if answer.Some? {
          var h := ParsePieceHeader(answer.value);
          if h.None? { return Ok(answer.value); }
          if h.value.pieceIdx >= h.value.k + h.value.m { return Err(BadPiece); }
          r := GatherEc(rank, answer.value, h.value, f);
          return;
        }
        rank := rank + 1;
      }
      r := ScanShards(f);
    }

    /** The full scan when no target answers. */
    method ScanShards(f: Faults) returns (r: Result<Bytes>)
      requires Valid()
      ensures r == ScanAll(p.rs, p.Targets(), Seen(f), 0, [], None)
    {
      hide Pool.Targets;
      hide Mds;
      hide Decode;
      hide ParsePieceHeader;
      hide Store;
      var slots: Slots, last: Option<PieceHeader> := [], None;
      var s := 0;
      while s < |held|
        invariant s <= |held|
        invariant ScanAll(p.rs, p.Targets(), Seen(f), s, slots, last) == ScanAll(p.rs, p.Targets(), Seen(f), 0, [], None)
      {
        var answer := Get(s, f);
        if s !in p.Targets() && answer.Some? {
          var h := ParsePieceHeader(answer.value);
          if h.None? { return Ok(answer.value); }
          if |slots| != h.value.k + h.value.m { slots := Empty(h.value.k + h.value.m); }
          slots := Store(slots, answer);
          last := h;
        }
        s := s + 1;
      }
      if last.Some? && Present(slots) >= last.value.k { return Decode(p.rs, slots, last.value.k, last.value.m); }
      r := Err(if last.Some? then TooFew else NoPieces);
    }

    /** Ask the ranks in [from, end) whose slot was empty beforehand. */
    method ReadBatch(from: nat, end: nat, probed: nat, slots0: Slots, f: Faults) returns (slots: Slots)
      requires Valid() && from <= end <= |slots0|
      ensures slots == ReadRanks(p.Targets(), Seen(f), probed, from, end, slots0, slots0)
    {
      hide Pool.Targets;
      hide Mds;
      hide Store;
      slots := slots0;
      var r := from;
      while r < end
        invariant from <= r <= end
        invariant ReadRanks(p.Targets(), Seen(f), probed, r, end, slots0, slots)
               == ReadRanks(p.Targets(), Seen(f), probed, from, end, slots0, slots0)
      {
        if r != probed && slots0[r].None? && r < |p.Targets()| {
          var answer := Get(p.Targets()[r], f);
          assert answer == AtRank(p.Targets(), Seen(f), r);
          slots := Store(slots, answer);
        }
        r := r + 1;
      }
    }

    /** Gather pieces and decode: data ranks first, then parity ranks, then strays. */
    method GatherEc(rank: nat, first: Bytes, h: PieceHeader, f: Faults) returns (r: Result<Bytes>)
      requires Valid() && h.pieceIdx < h.k + h.m
      ensures r == Decode(p.rs, Collect(p.Targets(), Seen(f), rank, first, h), h.k, h.m)
    {
      hide Pool.Targets;
      hide Mds;
      hide Decode;
      hide ReadRanks;
      hide ScanStrays;
      var slots := Empty(h.k + h.m)[h.pieceIdx := Some(first)];
      slots := ReadBatch(0, h.k, rank, slots, f);
      if AllSome(slots[..h.k]).None? {
        slots := ReadBatch(h.k, h.k + h.m, rank, slots, f);
        if Present(slots) < h.k { slots := GatherStrays(slots, f); }
      }
      r := Decode(p.rs, slots, h.k, h.m);
    }

    /** Phase 1: the tail pieces, each read back and compared. */
    method WriteTail(pieces: seq<Bytes>, f: Faults) returns (res: TailResult)
      requires Valid() && |pieces| == p.k + p.m == |p.Targets()|
      modifies this
      ensures Valid() && SameOutside(p, old(held), held, p.r, p.k + p.m)
      ensures old(|history|) <= |history| && history[..old(|history|)] == old(history)
      ensures forall i :: old(|history|) <= i < |history| ==> SameOutside(p, old(held), history[i], p.r, p.k + p.m)
      ensures res == TailDone ==> forall r :: p.r <= r < p.k + p.m ==> Own(p, held, pieces, r)
      ensures res == TailOutcome(p, pieces, f, p.r)
    {
      hide Pool.Targets;
      hide Mds;
      var r := p.r;
      while r < p.k + p.m
        invariant p.r <= r <= p.k + p.m && Valid() && SameOutside(p, old(held), held, p.r, p.k + p.m)
        invariant old(|history|) <= |history| && history[..old(|history|)] == old(history)
        invariant forall i :: old(|history|) <= i < |history| ==> SameOutside(p, old(held), history[i], p.r, p.k + p.m)
        invariant forall q :: p.r <= q < r ==> Own(p, held, pieces, q)
        invariant TailOutcome(p, pieces, f, p.r) == TailOutcome(p, pieces, f, r)
      {
        ghost var was := held;
        var s := p.Targets()[r];
        AtRankSet(p, held, r, None, r);
        var ok := Put(s, pieces[r], f);
        SetInRanks(p, old(held), was, r, held[s], p.r, p.k + p.m);
        if !ok { return TailFailed; }
        var back := Get(s, f);
        if back.None? { return TailFailed; }
        if back.value != pieces[r] { return TailMismatch; }
        forall q ensures AtRank(p.Targets(), held, q) == if q == r then held[s] else AtRank(p.Targets(), was, q) {
          AtRankSet(p, was, r, held[s], q);
        }
        forall q | p.r <= q < r ensures Own(p, held, pieces, q) { assert Own(p, was, pieces, q); }
        assert Own(p, held, pieces, r);
        r := r + 1;
      }
      res := TailDone;
    }

    /** Undo phase 1: delete the tail, ignoring failures. */
    method RollBack(f: Faults)
      requires Valid() && p.k + p.m == |p.Targets()|
      modifies this
      ensures Valid() && SameOutside(p, old(held), held, p.r, p.k + p.m)
      ensures old(|history|) <= |history| && history[..old(|history|)] == old(history)
      ensures forall i :: old(|history|) <= i < |history| ==> SameOutside(p, old(held), history[i], p.r, p.k + p.m)
      ensures forall r :: p.r <= r < p.k + p.m && p.Targets()[r] !in f.del ==> EmptyAt(p, held, r)
    {
      hide Pool.Targets;
      hide Mds;
      var r := p.r;
      while r < p.k + p.m
        invariant p.r <= r <= p.k + p.m && Valid() && SameOutside(p, old(held), held, p.r, p.k + p.m)
        invariant old(|history|) <= |history| && history[..old(|history|)] == old(history)
        invariant forall i :: old(|history|) <= i < |history| ==> SameOutside(p, old(held), history[i], p.r, p.k + p.m)
        invariant forall q :: p.r <= q < r && p.Targets()[q] !in f.del ==> EmptyAt(p, held, q)
      {
        ghost var was := held;
        var s := p.Targets()[r];
        SetInRanks(p, old(held), held, r, None, p.r, p.k + p.m);
        Delete(s, f);
        forall q ensures AtRank(p.Targets(), held, q) == if q == r then held[s] else AtRank(p.Targets(), was, q) {
          AtRankSet(p, was, r, held[s], q);
        }
        forall q | p.r <= q < r && p.Targets()[q] !in f.del ensures EmptyAt(p, held, q) { assert EmptyAt(p, was, q); }
        assert s !in f.del ==> EmptyAt(p, held, r);
        r := r + 1;
      }
    }

    /** Phase 2: the head pieces over the mirror legs; a failed write is left to the heal queue. */
    method WriteHeads(pieces: seq<Bytes>, f: Faults)
      requires Valid() && |pieces| == p.k + p.m == |p.Targets()|
      modifies this
      ensures Valid() && SameOutside(p, old(held), held, 0, p.r)
      ensures old(|history|) <= |history| && history[..old(|history|)] == old(history)
      ensures HonestHeads(f) ==>
        forall i :: old(|history|) <= i < |history| ==> HeadsAdvance(p, old(held), history[i], pieces)
      ensures HonestHeads(f) ==> HeadsAdvance(p, old(held), held, pieces)
      ensures HonestHeads(f) ==>
        forall r :: 0 <= r < p.r && p.Targets()[r] !in f.put ==> Own(p, held, pieces, r)
      ensures p.Targets()[0] < p.n && (HonestHeads(f) && FirstTaken(f) ==>
        |history| > old(|history|) && history[old(|history|)] == old(held)[p.Targets()[0] := Some(pieces[0])])
    {
      hide Pool.Targets;
      hide Mds;
      AtRankSet(p, held, 0, None, 0);
      var r := 0;
      while r < p.r
        invariant 0 <= r <= p.r && Valid() && SameOutside(p, old(held), held, 0, p.r)
        invariant r == 0 ==> held == old(held) && history == old(history)
        invariant r > 0 && HonestHeads(f) && FirstTaken(f) ==>
          |history| > old(|history|) && history[old(|history|)] == old(held)[p.Targets()[0] := Some(pieces[0])]
        invariant old(|history|) <= |history| && history[..old(|history|)] == old(history)
        invariant HonestHeads(f) ==>
          forall i :: old(|history|) <= i < |history| ==> HeadsAdvance(p, old(held), history[i], pieces)
        invariant HonestHeads(f) ==> HeadsAdvance(p, old(held), held, pieces)
        invariant HonestHeads(f) ==>
          forall q :: 0 <= q < r && p.Targets()[q] !in f.put ==> Own(p, held, pieces, q)
      {
        ghost var was := held;
        var s := p.Targets()[r];
        AtRankSet(p, held, r, None, r);
        var ok := Put(s, pieces[r], f);
        SetInRanks(p, old(held), was, r, held[s], 0, p.r);
        forall q ensures AtRank(p.Targets(), held, q) == if q == r then held[s] else AtRank(p.Targets(), was, q) {
          AtRankSet(p, was, r, held[s], q);
        }
        if HonestHeads(f) { HeadStep(old(held), was, held, pieces, r, ok, f); }
        r := r + 1;
      }
    }

    /** No mirror leg silently stores other bytes. */
    predicate HonestHeads(f: Faults) { forall r :: 0 <= r < p.r && r < |p.Targets()| ==> p.Targets()[r] !in f.corrupt }

    /** The first leg takes the write of its piece. */
    predicate FirstTaken(f: Faults) { |p.Targets()| > 0 && p.Targets()[0] !in f.put }

    lemma HeadStep(start: Held, was: Held, now: Held, pieces: seq<Bytes>, r: nat, ok: bool, f: Faults)
      requires p.Valid() && |pieces| == p.k + p.m == |p.Targets()| && r < p.r && HeadsAdvance(p, start, was, pieces)
      requires SameOutside(p, start, now, 0, p.r) && (!ok ==> now == was)
      requires ok <==> p.Targets()[r] !in f.put
      requires forall q :: AtRank(p.Targets(), now, q) == if q == r && ok then Some(pieces[r]) else AtRank(p.Targets(), was, q)
      requires forall q :: 0 <= q < r && p.Targets()[q] !in f.put ==> Own(p, was, pieces, q)
      ensures HeadsAdvance(p, start, now, pieces)
      ensures forall q :: 0 <= q < r + 1 && p.Targets()[q] !in f.put ==> Own(p, now, pieces, q)
    {
      hide Pool.Targets;
      hide Mds;
      forall q | 0 <= q < r + 1 && p.Targets()[q] !in f.put ensures Own(p, now, pieces, q) {
        if q < r { assert Own(p, was, pieces, q); }
      }
      forall q | 0 <= q < p.r
        ensures AtRank(p.Targets(), now, q) == AtRank(p.Targets(), start, q) || Own(p, now, pieces, q)
      {
        assert AtRank(p.Targets(), was, q) == AtRank(p.Targets(), start, q) || Own(p, was, pieces, q);
      }
    }

    /** Phase 3: clear the shards off the targets, ignoring failures. */
    method DropStrays(f: Faults)
      requires Valid()
      modifies this
      ensures Valid() && StraysDropped(p, old(held), held)
      ensures old(|history|) <= |history| && history[..old(|history|)] == old(history)
      ensures forall i :: old(|history|) <= i < |history| ==> StraysDropped(p, old(held), history[i])
      ensures forall s :: 0 <= s < p.n && s !in p.Targets() && s !in f.del ==> held[s].None?
    {
      hide Pool.Targets;
      hide Mds;
      var s := 0;
      while s < |held|
        invariant s <= |held| && Valid() && StraysDropped(p, old(held), held)
        invariant old(|history|) <= |history| && history[..old(|history|)] == old(history)
        invariant forall i :: old(|history|) <= i < |history| ==> StraysDropped(p, old(held), history[i])
        invariant forall t :: 0 <= t < s && t !in p.Targets() && t !in f.del ==> held[t].None?
      {
        if s !in p.Targets() { Delete(s, f); }
        s := s + 1;
      }
    }

    /** Does the tail hold anything, as far as the shards answer? */
    method TailTaken(f: Faults) returns (taken: bool)
      requires Valid()
      ensures taken <==> exists r :: p.r <= r < p.k + p.m && r < |p.Targets()| && Has(p.Targets()[r], f)
    {
      hide Pool.Targets;
      hide Mds;
      taken := false;
      var r := p.r;
      while r < p.k + p.m && r < |p.Targets()| && !taken
        invariant p.r <= r
        invariant taken <==> exists q :: p.r <= q < r && q < p.k + p.m && q < |p.Targets()| && Has(p.Targets()[q], f)
      {
        taken := Has(p.Targets()[r], f);
        r := r + 1;
      }
    }

    /** The legs that hold the key, as far as they answer, in rank order. */
    method Holders(f: Faults) returns (hs: seq<nat>)
      requires Valid() && p.r <= |p.Targets()|
      ensures forall i :: 0 <= i < |hs| ==> hs[i] < p.r && Has(p.Targets()[hs[i]], f)
      ensures forall r :: 0 <= r < p.r && Has(p.Targets()[r], f) ==> r in hs
      ensures forall i, j :: 0 <= i < j < |hs| ==> hs[i] < hs[j]
    {
      hide Pool.Targets;
      hide Mds;
      hs := [];
      var r := 0;
      while r < p.r
        invariant 0 <= r <= p.r
        invariant forall i :: 0 <= i < |hs| ==> hs[i] < r && Has(p.Targets()[hs[i]], f)
        invariant forall q :: 0 <= q < r && Has(p.Targets()[q], f) ==> q in hs
        invariant forall i, j :: 0 <= i < j < |hs| ==> hs[i] < hs[j]
      {
        if Has(p.Targets()[r], f) { hs := hs + [r]; }
        r := r + 1;
      }
    }

    /** The first holder that can be read. */
    method ReadHolders(hs: seq<nat>, f: Faults) returns (at: Option<nat>)
      requires Valid() && p.r <= |p.Targets()|
      requires forall i :: 0 <= i < |hs| ==> hs[i] < p.r && Has(p.Targets()[hs[i]], f)
      requires forall r :: 0 <= r < p.r && Has(p.Targets()[r], f) ==> r in hs
      requires forall i, j :: 0 <= i < j < |hs| ==> hs[i] < hs[j]
      ensures at.Some? ==> Source(f, at.value)
      ensures at.None? ==> forall r: nat :: !Source(f, r)
    {
      hide Pool.Targets;
      hide Mds;
      var i := 0;
      while i < |hs|
        invariant i <= |hs|
        invariant forall j :: 0 <= j < i ==> Get(p.Targets()[hs[j]], f).None?
      {
        if Get(p.Targets()[hs[i]], f).Some? {
          forall q | 0 <= q < hs[i] ensures !(Has(p.Targets()[q], f) && Get(p.Targets()[q], f).Some?) {
            if Has(p.Targets()[q], f) { var j :| 0 <= j < |hs| && hs[j] == q; }
          }
          return Some(hs[i]);
        }
        i := i + 1;
      }
      at := None;
    }

    /** What a run of migration may leave behind, in terms of the state it started from. */
    ghost predicate MigrateEffect(start: Held, out: MigrateOutcome, pieces: seq<Bytes>, f: Faults)
      reads this
    {
      && |held| == p.n && (out in {SkippedEc, SkippedSmall} ==> held == start)
      && StraysKeptOrGone(p, start, held)
      && (out != Migrated ==> SameOutside(p, start, held, p.r, p.k + p.m))
      && (out == Migrated ==> forall r :: p.r <= r < p.k + p.m ==> Own(p, held, pieces, r))
      && (out == Migrated && f.put == {} && HonestHeads(f) ==> forall r :: 0 <= r < p.k + p.m ==> Own(p, held, pieces, r))
      && (out != Migrated && f.del == {} && (forall r :: p.r <= r < p.k + p.m ==> EmptyAt(p, start, r)) ==> held == start)
      && (out == Migrated && f.del == {} ==> forall s :: 0 <= s < p.n && s !in p.Targets() ==> held[s].None?)
    }

    /** Phases 2 and 3, with the tail in place. */
    method FinishMigration(pieces: seq<Bytes>, f: Faults, ghost body: Bytes)
      requires Valid() && |pieces| == p.k + p.m == |p.Targets()|
      requires forall r :: p.r <= r < p.k + p.m ==> Own(p, held, pieces, r)
      modifies this
      ensures Valid() && old(|history|) <= |history| && history[..old(|history|)] == old(history)
      ensures forall r :: p.r <= r < p.k + p.m ==> Own(p, held, pieces, r)
      ensures f.put == {} && HonestHeads(f) ==> forall r :: 0 <= r < p.k + p.m ==> Own(p, held, pieces, r)
      ensures f.del == {} ==> forall s :: 0 <= s < p.n && s !in p.Targets() ==> held[s].None?
      ensures StraysKeptOrGone(p, old(held), held)
      ensures Coded(p, body, pieces) && HalfMigrated(p, old(held), body, pieces) && p.m + 1 >= p.r && HonestHeads(f) ==>
        AllRead(p, held, history, old(|history|), body)
      ensures
        Coded(p, body, pieces) && HalfMigrated(p, old(held), body, pieces) && FullMirror(p, old(held), body)
        && p.m + 1 < p.r && HonestHeads(f) && FirstTaken(f) ==>
          SomeUnread(p, history, old(|history|), body)
    {
      hide Pool.Targets;
      hide Mds;
      hide Coded;
      hide GetEcAware;
      hide HalfMigrated;
      hide FullMirror;
      hide FirstTaken;
      hide SomeUnread;
      hide HeadsAdvance;
      hide StraysDropped;
      hide SameOutside;
      hide HonestHeads;
      hide Own;
      ghost var n0, start := |history|, held;
      ghost var good := Coded(p, body, pieces) && HalfMigrated(p, held, body, pieces) && p.m + 1 >= p.r && HonestHeads(f);
      WriteHeads(pieces, f);
      ghost var h1, heads := history, held;
      if good { HeadsHistory(p, start, heads, h1, n0, body, pieces); }
      ghost var bad := Coded(p, body, pieces) && HalfMigrated(p, start, body, pieces) && FullMirror(p, start, body)
        && p.m + 1 < p.r && HonestHeads(f) && FirstTaken(f);
      if bad { HeadUnread(p, start, h1, n0, body, pieces); }
      forall r | p.r <= r < p.k + p.m ensures Own(p, heads, pieces, r) { OwnKept(p, start, heads, pieces, 0, p.r, r); }
      DropStrays(f);
      if good { StraysHistory(p, heads, held, history, |h1|, body, pieces); }
      if bad { UnreadLater(p, h1, history, n0, body); }
      StraysKeepOwn(p, heads, held, pieces);
      OffTargets(p, start, heads, 0, p.r);
      DroppedOrKept(p, start, heads, held);
    }

    /** Encode the body and replace the mirror by its pieces. */
    method Convert(body: Bytes, f: Faults) returns (out: MigrateOutcome)
      requires Valid() && |p.Targets()| == p.k + p.m
      modifies this
      ensures Valid() && old(|history|) <= |history| && history[..old(|history|)] == old(history)
      ensures |EcEncode(p.rs, body, p.k, p.m)| == p.k + p.m && out == OutcomeAfter(TailOutcome(p, EcEncode(p.rs, body, p.k, p.m), f, p.r))
      ensures MigrateEffect(old(held), out, EcEncode(p.rs, body, p.k, p.m), f)
      ensures var pieces := EcEncode(p.rs, body, p.k, p.m);
        Coded(p, body, pieces) && Mirrored(p, old(held), body, pieces) && p.m + 1 >= p.r && HonestHeads(f) ==>
          AllRead(p, held, history, old(|history|), body)
      ensures var pieces := EcEncode(p.rs, body, p.k, p.m);
        Coded(p, body, pieces) && Mirrored(p, old(held), body, pieces) && FullMirror(p, old(held), body)
        && p.m + 1 < p.r && HonestHeads(f) && FirstTaken(f) && out == Migrated ==>
          SomeUnread(p, history, old(|history|), body)
    {
      hide Pool.Targets;
      hide Mds;
      hide EcEncode;
      hide Coded;
      hide GetEcAware;
      hide Mirrored;
      hide FullMirror;
      hide FirstTaken;
      hide SomeUnread;
      hide HeadsAdvance;
      hide StraysDropped;
      hide HonestHeads;
      var pieces := EcEncode(p.rs, body, p.k, p.m);
      PieceCount(p, body);
      ghost var n0, start := |history|, held;
      ghost var good := Coded(p, body, pieces) && Mirrored(p, start, body, pieces) && p.m + 1 >= p.r && HonestHeads(f);
      var tail := WriteTail(pieces, f);
      ghost var h1, mid := history, held;
      if good { TailHistory(p, start, mid, h1, n0, body, pieces); }
      if tail != TailDone {
        RollBack(f);
        UndoneTail(p, start, mid, held, f.del);
        OffTargets(p, start, held, p.r, p.k + p.m);
        if good { TailHistory(p, mid, held, history, |h1|, body, pieces); }
        out := OutcomeAfter(tail);
      } else {
        if good { TailInPlace(p, mid, body, pieces); }
        ghost var bad := Coded(p, body, pieces) && Mirrored(p, start, body, pieces) && FullMirror(p, start, body)
          && p.m + 1 < p.r && HonestHeads(f) && FirstTaken(f);
        if bad {
          TailKeepsMirror(p, start, mid, body, pieces);
          TailInPlace(p, mid, body, pieces);
          TailKeepsFull(p, start, mid, body);
        }
        FinishMigration(pieces, f, body);
        if bad { UnreadFrom(p, history, |h1|, n0, body); }
        OffTargets(p, start, mid, p.r, p.k + p.m);
        KeptOrGoneTwice(p, start, mid, held);
        out := Migrated;
      }
    }

    ghost predicate TailHeld(f: Faults)
      reads this
    {
      exists r :: p.r <= r < p.k + p.m && r < |p.Targets()| && Has(p.Targets()[r], f)
    }

    /** Rank r is the first leg that says it has the key. */
    ghost predicate FirstLeg(f: Faults, r: nat)
      reads this
    {
      r < p.r && r < |p.Targets()| && Has(p.Targets()[r], f) && forall q :: 0 <= q < r ==> !Has(p.Targets()[q], f)
    }

    /** It is the first of those that can be read. */
    ghost predicate Source(f: Faults, r: nat)
      reads this
    {
      && r < p.r && r < |p.Targets()| && Has(p.Targets()[r], f) && Get(p.Targets()[r], f).Some?
      && forall q :: 0 <= q < r ==> !(Has(p.Targets()[q], f) && Get(p.Targets()[q], f).Some?)
    }

    /** The first leg that has the key says it is smaller than minSize. */
    ghost predicate SaidSmall(minSize: nat, f: Faults)
      reads this
    {
      exists r: nat :: FirstLeg(f, r) && p.Targets()[r] !in f.stat && |held[p.Targets()[r]].value| < minSize
    }

    /** The source's bytes, a piece's or not, at least minSize of them or fewer. */
    ghost predicate SourceIs(f: Faults, piece: bool, minSize: nat, large: bool)
      reads this
    {
      exists r: nat :: Source(f, r) && var b := Get(p.Targets()[r], f).value; ParsePieceHeader(b).Some? == piece && (|b| >= minSize) == large
    }

    /** A tail shard has the key, or the source holds a piece and was not said to be small. */
    ghost predicate HasPieces(minSize: nat, f: Faults)
      reads this
    {
      && |p.Targets()| == p.k + p.m
      && (TailHeld(f) || (!SaidSmall(minSize, f) && exists large :: SourceIs(f, true, minSize, large)))
    }

    ghost predicate TooSmall(minSize: nat, f: Faults)
      reads this
    {
      |p.Targets()| == p.k + p.m && !TailHeld(f) && (SaidSmall(minSize, f) || SourceIs(f, false, minSize, false))
    }

    ghost predicate ToConvert(minSize: nat, f: Faults)
      reads this
    {
      |p.Targets()| == p.k + p.m && !TailHeld(f) && !SaidSmall(minSize, f) && SourceIs(f, false, minSize, true)
    }

    /**
     The checks before a migration writes anything, whatever the shards hold and whichever calls fail. Only a raw body that a
     leg answers with goes on, and only if no tail shard has the key and the body is large enough.
     */
    method PlanMigration(minSize: nat, f: Faults) returns (plan: Plan)
      requires Valid()
      ensures plan == Leave(SkippedEc) <==> HasPieces(minSize, f)
      ensures plan == Leave(SkippedSmall) <==> TooSmall(minSize, f)
      ensures plan.Go? <==> ToConvert(minSize, f)
      ensures plan.Go? ==> exists r: nat :: Source(f, r) && Get(p.Targets()[r], f) == Some(plan.body)
      ensures plan.Go? ==> ParsePieceHeader(plan.body).None? && |plan.body| >= minSize
      ensures plan.Leave? ==> plan.out in {SkippedEc, SkippedSmall, MigrateError}
    {
      hide Pool.Targets;
      hide Pool.Sound;
      hide ParsePieceHeader;
      TargetCount(p);
      if |p.Targets()| < p.k + p.m { return Leave(MigrateError); }
      var taken := TailTaken(f);
      if taken { return Leave(SkippedEc); }
      var hs := Holders(f);
      if hs == [] {
        assert forall r: nat :: !FirstLeg(f, r) && !Source(f, r);
        return Leave(MigrateError);
      }
      var t := p.Targets()[hs[0]];
      assert FirstLeg(f, hs[0]);
      OneFirst(f, hs[0]);
      if t !in f.stat && |held[t].value| < minSize { return Leave(SkippedSmall); }
      assert !SaidSmall(minSize, f);
      hide SaidSmall;
      hide FirstLeg;
      hide TailHeld;
      var at := ReadHolders(hs, f);
      if at.None? {
        assert forall r: nat :: !Source(f, r);
        return Leave(MigrateError);
      }
      OneSource(f, at.value);
      hide Source;
      var read := Get(p.Targets()[at.value], f).value;
      if ParsePieceHeader(read).Some? {
        assert SourceIs(f, true, minSize, |read| >= minSize);
        return Leave(SkippedEc);
      }
      if |read| < minSize { return Leave(SkippedSmall); }
      plan := Go(read);
    }

    lemma OneFirst(f: Faults, r: nat)
      requires FirstLeg(f, r)
      ensures forall q: nat :: FirstLeg(f, q) ==> q == r
    {
      hide Pool.Targets;
    }

    lemma OneSource(f: Faults, r: nat)
      requires Source(f, r)
      ensures forall q: nat :: Source(f, q) ==> q == r
    {
      hide Pool.Targets;
    }

    /** Every leg that answers answers with a piece. */
    ghost predicate PiecesOnLegs(f: Faults)
      reads this
    {
      forall r :: 0 <= r < p.r && r < |p.Targets()| && Get(p.Targets()[r], f).Some? ==> ParsePieceHeader(Get(p.Targets()[r], f).value).Some?
    }

    /**
     Turn a mirrored key into K + M pieces. It writes only when a leg answers with a raw body, and then that body's pieces;
     a key whose legs answer with pieces, of whatever code, is left alone. Started from a mirrored key it leaves the body
     readable after every shard call when M >= R - 1, and started from a full mirror whose first leg takes its piece, only
     then; any failure of phase 1 leaves the mirror as it was; without faults the outcome is determined by what is held.
     */
    method MigrateKey(minSize: nat, f: Faults, ghost body: Bytes) returns (out: MigrateOutcome)
      requires Valid()
      modifies this
      ensures Valid() && old(|history|) <= |history| && history[..old(|history|)] == old(history)
      ensures old(PiecesOnLegs(f)) ==> held == old(held) && history == old(history) && out != Migrated
      ensures !old(ToConvert(minSize, f)) ==> held == old(held) && history == old(history)
      ensures old(ToConvert(minSize, f)) ==> exists b :: old(Writes(minSize, f, b)) && Converted(old(held), out, b, f)
      ensures out == SkippedEc <==> old(HasPieces(minSize, f))
      ensures out == SkippedSmall <==> old(TooSmall(minSize, f))
      ensures !old(HasPieces(minSize, f)) && !old(TooSmall(minSize, f)) && !old(ToConvert(minSize, f)) ==> out == MigrateError
      ensures f == NO_FAULTS ==> out == OutcomeOf(p, old(held), minSize)
      ensures var pieces := EcEncode(p.rs, body, p.k, p.m);
        Coded(p, body, pieces) && Mirrored(p, old(held), body, pieces) ==>
          MigrateEffect(old(held), out, pieces, f)
      ensures var pieces := EcEncode(p.rs, body, p.k, p.m);
        Coded(p, body, pieces) && Mirrored(p, old(held), body, pieces) && p.m + 1 >= p.r && HonestHeads(f) ==>
          AllRead(p, held, history, old(|history|), body)
      ensures var pieces := EcEncode(p.rs, body, p.k, p.m);
        Coded(p, body, pieces) && Mirrored(p, old(held), body, pieces) && FullMirror(p, old(held), body)
        && HonestHeads(f) && FirstTaken(f) && out == Migrated ==>
          (AllRead(p, held, history, old(|history|), body) <==> p.m + 1 >= p.r)
      ensures var pieces := EcEncode(p.rs, body, p.k, p.m);
        Coded(p, body, pieces) && Mirrored(p, old(held), body, pieces) && out == Migrated && HonestHeads(f) && f.put == {} ==>
          forall down: set<nat> :: |down| <= p.m ==> GetEcAware(p, Answers(held, down)) == Ok(body)
    {
      hide Pool.Targets;
      hide Mds;
      hide EcEncode;
      hide Coded;
      hide GetEcAware;
      hide ParsePieceHeader;
      hide OutcomeOf;
      hide HasPieces;
      hide TooSmall;
      hide SaidSmall;
      hide SourceIs;
      ghost var pieces0 := EcEncode(p.rs, body, p.k, p.m);
      ghost var good := Coded(p, body, pieces0) && Mirrored(p, held, body, pieces0);
      if good { MirroredReads(p, held, body, pieces0); }
      UntouchedEffect(pieces0, f);
      var plan := PlanMigration(minSize, f);
      if f == NO_FAULTS { IdealPlan(minSize, plan); }
      if plan.Leave? { return plan.out; }
      if good { SourceIsBody(f, plan.body, body, pieces0); }
      assert Writes(minSize, f, plan.body);
      assert !PiecesOnLegs(f) && |p.Targets()| == p.k + p.m;
      hide PiecesOnLegs;
      hide ToConvert;
      hide Writes;
      hide MigrateEffect;
      hide Mirrored;
      hide SomeUnread;
      hide AllRead;
      hide FullMirror;
      hide HonestHeads;
      hide FirstTaken;
      hide TailHeld;
      hide Source;
      out := Convert(plan.body, f);
      assert Converted(old(held), out, plan.body, f);
      if f == NO_FAULTS { NoTailFault(p, EcEncode(p.rs, plan.body, p.k, p.m), p.r); }
      hide Converted;
      if good && FullMirror(p, old(held), body) && p.m + 1 < p.r && HonestHeads(f) && FirstTaken(f) && out == Migrated {
        ReadOrUnread(p, held, history, old(|history|), body);
      }
      if good && out == Migrated && HonestHeads(f) && f.put == {} { MigratedSurvives(old(held), body, pieces0, f); }
    }

    /** The outcome and the effect of converting a key whose source holds b. */
    ghost predicate Converted(start: Held, out: MigrateOutcome, b: Bytes, f: Faults)
      requires p.k > 0
      reads this
    {
      var pieces := EcEncode(p.rs, b, p.k, p.m);
      |pieces| == p.k + p.m && out == OutcomeAfter(TailOutcome(p, pieces, f, p.r)) && MigrateEffect(start, out, pieces, f)
    }

    /** Migration goes on with b: a raw body that is large enough, which a leg answers with. */
    ghost predicate Writes(minSize: nat, f: Faults, b: Bytes)
      reads this
    {
      && ParsePieceHeader(b).None? && |b| >= minSize && !TailHeld(f)
      && exists r: nat :: Source(f, r) && Get(p.Targets()[r], f) == Some(b)
    }

    /** A mirrored key's source is its body. */
    lemma SourceIsBody(f: Faults, b: Bytes, body: Bytes, pieces: seq<Bytes>)
      requires Valid() && Mirrored(p, held, body, pieces) && exists r: nat :: Source(f, r) && Get(p.Targets()[r], f) == Some(b)
      ensures b == body
    {
      hide Pool.Targets;
      hide Mds;
      var r: nat :| Source(f, r) && Get(p.Targets()[r], f) == Some(b);
      LegHolds(p, held, body, pieces, r);
    }

    /** Without faults the plan is told by what is held. */
    lemma IdealPlan(minSize: nat, plan: Plan)
      requires Valid()
      requires plan == Leave(SkippedEc) <==> HasPieces(minSize, NO_FAULTS)
      requires plan == Leave(SkippedSmall) <==> TooSmall(minSize, NO_FAULTS)
      requires plan.Go? <==> ToConvert(minSize, NO_FAULTS)
      requires plan.Leave? ==> plan.out in {SkippedEc, SkippedSmall, MigrateError}
      ensures OutcomeOf(p, held, minSize) == match plan case Leave(out) => out case Go(_) => Migrated
    {
      hide Pool.Targets;
      hide Mds;
      hide ParsePieceHeader;
      hide Pool.Sound;
      TargetCount(p);
      if |p.Targets()| == p.k + p.m {
        TailTells();
        var first := FirstAnswer(p.Targets(), held, 0);
        if first < p.r { FirstTells(minSize, first); } else { NoneTells(minSize); }
        hide TailHeld;
        hide SaidSmall;
        hide SourceIs;
        if SourceIs(NO_FAULTS, true, minSize, true) || SourceIs(NO_FAULTS, true, minSize, false) {}
      }
    }

    lemma TailTells()
      requires |p.Targets()| == p.k + p.m
      ensures TailHeld(NO_FAULTS) <==> exists r :: p.r <= r < p.k + p.m && !EmptyAt(p, held, r)
    {
      hide Pool.Targets;
      if r :| p.r <= r < p.k + p.m && !EmptyAt(p, held, r) { assert Has(p.Targets()[r], NO_FAULTS); }
      if r :| p.r <= r < p.k + p.m && Has(p.Targets()[r], NO_FAULTS) { assert !EmptyAt(p, held, r); }
    }

    lemma Unfaulted()
      ensures forall r: nat :: r < |p.Targets()| ==>
        (Has(p.Targets()[r], NO_FAULTS) <==> AtRank(p.Targets(), held, r).Some?) && Get(p.Targets()[r], NO_FAULTS) == AtRank(p.Targets(), held, r)
    {
      hide Pool.Targets;
    }

    lemma FirstTells(minSize: nat, first: nat)
      requires first == FirstAnswer(p.Targets(), held, 0) && first < p.r && first < |p.Targets()|
      ensures AtRank(p.Targets(), held, first).Some?
      ensures SaidSmall(minSize, NO_FAULTS) <==> |AtRank(p.Targets(), held, first).value| < minSize
      ensures var b := AtRank(p.Targets(), held, first).value;
        forall piece, large :: SourceIs(NO_FAULTS, piece, minSize, large) <==> ParsePieceHeader(b).Some? == piece && (|b| >= minSize) == large
    {
      hide Pool.Targets;
      hide ParsePieceHeader;
      Unfaulted();
      assert FirstLeg(NO_FAULTS, first) && Source(NO_FAULTS, first);
      OneFirst(NO_FAULTS, first);
      OneSource(NO_FAULTS, first);
    }

    lemma NoneTells(minSize: nat)
      requires FirstAnswer(p.Targets(), held, 0) >= p.r
      ensures !SaidSmall(minSize, NO_FAULTS) && forall piece, large :: !SourceIs(NO_FAULTS, piece, minSize, large)
    {
      hide Pool.Targets;
      hide ParsePieceHeader;
      Unfaulted();
      assert forall r: nat :: !FirstLeg(NO_FAULTS, r) && !Source(NO_FAULTS, r);
    }

    lemma UntouchedEffect(pieces: seq<Bytes>, f: Faults)
      requires |held| == p.n
      ensures forall out :: out != Migrated ==> MigrateEffect(held, out, pieces, f)
    {
      hide Pool.Targets;
    }

    lemma MigratedSurvives(start: Held, body: Bytes, pieces: seq<Bytes>, f: Faults)
      requires Valid() && Coded(p, body, pieces) && Mirrored(p, start, body, pieces)
      requires MigrateEffect(start, Migrated, pieces, f) && f.put == {} && HonestHeads(f)
      ensures forall down: set<nat> :: |down| <= p.m ==> GetEcAware(p, Answers(held, down)) == Ok(body)
    {
      hide Pool.Targets;
      hide Mds;
      hide Coded;
      hide GetEcAware;
      FullySurvives(p, body, pieces, start, held);
    }

    ghost predicate Absent()
      reads this
    {
      forall s :: 0 <= s < |held| ==> held[s].None?
    }

    /** Write every piece to its rank, results arriving in the given order; report which writes failed. */
    method SendPieces(pieces: seq<Bytes>, f: Faults, order: seq<nat>, ghost body: Bytes) returns (ok: nat, failed: seq<nat>, ghost done: set<nat>)
      requires Valid() && |pieces| == p.k + p.m && Shuffle(order, |p.Targets()|)
      modifies this
      ensures Valid() && (forall i :: 0 <= i < |failed| ==> failed[i] < |p.Targets()|)
      ensures Coded(p, body, pieces) && old(Absent()) && f.corrupt == map[] ==>
        Outcome(pieces, ok, failed, done) && (forall s :: 0 <= s < p.n && s !in p.Targets() ==> held[s].None?)
      ensures ok + |failed| == |p.Targets()|
      ensures f.corrupt == map[] ==> forall r :: 0 <= r < |p.Targets()| && p.Targets()[r] !in f.put ==> Own(p, held, pieces, r)
    {
      hide Pool.Targets;
      hide Mds;
      hide Coded;
      hide Written;
      assert OwnedUpTo(p, held, pieces, f.put, order, 0);
      hide OwnedUpTo;
      hide Own;
      hide EmptyAt;
      TargetsDistinct(p);
      TargetCount(p);
      ghost var good := Coded(p, body, pieces) && Absent() && f.corrupt == map[];
      ok, failed, done := 0, [], {};
      if good { FreshWritten(p, held, pieces); }
      assert good ==> forall r :: 0 <= r < |p.Targets()| ==> EmptyAt(p, held, r) by { if good { FreshEmpty(p, held); } }
      var x := 0;
      while x < |order|
        invariant x <= |order| && Valid()
        invariant forall i :: 0 <= i < |failed| ==> failed[i] < |p.Targets()| && forall y :: x <= y < |order| ==> failed[i] != order[y]
        invariant good ==> Outcome(pieces, ok, failed, done)
        invariant good ==> forall y :: x <= y < |order| ==> order[y] !in done && EmptyAt(p, held, order[y])
        invariant good ==> forall s :: 0 <= s < p.n && s !in p.Targets() ==> held[s].None?
        invariant ok + |failed| == x
        invariant f.corrupt == map[] ==> OwnedUpTo(p, held, pieces, f.put, order, x)
      {
        var i := order[x];
        var s := p.Targets()[i];
        ghost var was := held;
        var sent := Put(s, pieces[i], f);
        OthersEmpty(p, was, order, x, held[s]);
        if f.corrupt == map[] { OwnedStep(p, was, held, pieces, f.put, order, x); }
        if sent {
          if good { WriteRank(p, body, was, pieces, done, i); }
          ok, done := ok + 1, done + {i};
        } else {
          failed := failed + [i];
        }
        x := x + 1;
      }
      if f.corrupt == map[] { OwnedAll(p, held, pieces, f.put, order); }
    }

    ghost predicate Outcome(pieces: seq<Bytes>, ok: nat, failed: seq<nat>, done: set<nat>)
      reads this
    {
      && Written(p, held, pieces, done) && |done| == ok
      && (forall i :: 0 <= i < |failed| ==> failed[i] !in done)
      && (forall i, j :: 0 <= i < j < |failed| ==> failed[i] != failed[j])
    }

    /** Try the failed pieces on the ranking's further shards, each shard at most once. */
    method Handoff(pieces: seq<Bytes>, f: Faults, ok0: nat, failed: seq<nat>, ghost done0: set<nat>, ghost body: Bytes)
      returns (ok: nat, ghost done: set<nat>)
      requires Valid() && |pieces| == p.k + p.m && forall i :: 0 <= i < |failed| ==> failed[i] < |pieces|
      modifies this
      ensures Valid()
      ensures Coded(p, body, pieces) && f.corrupt == map[] && old(Outcome(pieces, ok0, failed, done0) && SparesEmpty(0)) ==>
        Written(p, held, pieces, done) && |done| == ok
      ensures ok < ok0 + |failed| ==> SparesUsed(|p.ranking|, f)
      ensures forall s :: 0 <= s < p.n && s in p.Targets() ==> held[s] == old(held)[s]
    {
      hide Pool.Targets;
      hide Mds;
      hide Coded;
      hide Written;
      ghost var good := Coded(p, body, pieces) && f.corrupt == map[] && Outcome(pieces, ok0, failed, done0) && SparesEmpty(0);
      ok, done := ok0, done0;
      var c, x := 0, 0;
      while x < |failed|
        invariant x <= |failed| && Valid() && c <= |p.ranking|
        invariant good ==> Written(p, held, pieces, done) && |done| == ok && SparesEmpty(c)
        invariant good ==> forall y :: x <= y < |failed| ==> failed[y] !in done
        invariant SparesUsed(c, f) && (ok == ok0 + x || (ok < ok0 + x && c == |p.ranking|))
        invariant forall s :: 0 <= s < p.n && s in p.Targets() ==> held[s] == old(held)[s]
      {
        var sent := false;
        while c < |p.ranking| && !sent
          invariant Valid() && c <= |p.ranking|
          invariant good ==> Written(p, held, pieces, done) && |done| == ok && SparesEmpty(c)
          invariant good ==> forall y :: x < y < |failed| ==> failed[y] !in done
          invariant good && !sent ==> failed[x] !in done
          invariant SparesUsed(c, f) && (ok == ok0 + x + (if sent then 1 else 0) || (ok < ok0 + x && !sent && c == |p.ranking|))
          invariant forall s :: 0 <= s < p.n && s in p.Targets() ==> held[s] == old(held)[s]
        {
          var s := p.ranking[c];
          c := c + 1;
          if s !in p.Targets() {
            ghost var was := held;
            sent := Put(s, pieces[failed[x]], f);
            if sent {
              if good { WriteSpare(p, body, was, pieces, done, s, failed[x]); }
              ok, done := ok + 1, done + {failed[x]};
            }
          }
        }
        x := x + 1;
      }
    }

    /** The ranking's shards up to the c-th that are not targets hold something or fail writes. */
    ghost predicate SparesUsed(c: nat, f: Faults)
      reads this
    {
      forall q :: 0 <= q < c && q < |p.ranking| && p.ranking[q] !in p.Targets() && p.ranking[q] !in f.put ==>
        p.ranking[q] < |held| && held[p.ranking[q]].Some?
    }

    /** The ranking's shards from the c-th on that are not targets hold nothing. */
    ghost predicate SparesEmpty(c: nat)
      reads this
    {
      forall q :: c <= q < |p.ranking| && p.ranking[q] !in p.Targets() ==>
        p.ranking[q] < |held| && held[p.ranking[q]].None?
    }

    /**
     Write a fresh key's pieces. It succeeds exactly when at least quorum distinct pieces are stored, each on its own
     rank or on a spare shard, so that the body can be read back when quorum - K shards stop answering.
     */
    method PutEc(body: Bytes, quorum: nat, f: Faults, order: seq<nat>) returns (ok: bool)
      requires Valid() && Shuffle(order, |p.Targets()|)
      modifies this
      ensures Valid() && (|p.Targets()| < quorum ==> !ok && held == old(held))
      ensures |p.Targets()| >= quorum && !ok ==> SparesUsed(|p.ranking|, f)
      ensures |p.Targets()| >= quorum && f.corrupt == map[] ==>
        forall r :: 0 <= r < |p.Targets()| && p.Targets()[r] !in f.put ==> Own(p, held, EcEncode(p.rs, body, p.k, p.m), r)
      ensures var pieces := EcEncode(p.rs, body, p.k, p.m);
        Coded(p, body, pieces) && old(Absent()) && f.corrupt == map[] && |p.Targets()| >= quorum ==>
          Canonical(p, held, body, pieces) && (ok <==> |Reachable(held, pieces)| >= quorum)
      ensures var pieces := EcEncode(p.rs, body, p.k, p.m);
        Coded(p, body, pieces) && old(Absent()) && f.corrupt == map[] && ok && quorum >= p.k ==>
          forall down: set<nat> :: |down| <= quorum - p.k ==> GetEcAware(p, Answers(held, down)) == Ok(body)
    {
      hide Pool.Targets;
      hide Mds;
      hide Coded;
      hide EcEncode;
      hide GetEcAware;
      hide Written;
      hide Reachable;
      hide Canonical;
      if |p.Targets()| < quorum { return false; }
      PieceCount(p, body);
      TargetsDistinct(p);
      var pieces := EcEncode(p.rs, body, p.k, p.m);
      ghost var good := Coded(p, body, pieces) && Absent() && f.corrupt == map[];
      var sent, failed, done := SendPieces(pieces, f, order, body);
      TargetCount(p);
      if failed != [] { sent, done := Handoff(pieces, f, sent, failed, done, body); }
      if good { QuorumReads(p, body, held, pieces, done, quorum); }
      ok := sent >= quorum;
    }

    // ----- repair

    /** Read the ranks of a K + M code; report the pieces found and the ranks that did not answer with their own. */
    method GatherRanks(k: nat, m: nat, f: Faults) returns (slots: Slots, missing: seq<nat>)
      requires p.Coding(k, m).Sound() && |held| == p.n
      ensures slots == SlotsTo(p.Coding(k, m), Asked(k, m, f), Ranks(p.Coding(k, m)))
      ensures missing == MissingTo(p.Coding(k, m), Asked(k, m, f), Ranks(p.Coding(k, m)))
    {
      hide Pool.Targets;
      hide Pool.Sound;
      hide Store;
      hide AtRank;
      ghost var q := p.Coding(k, m);
      slots, missing := Empty(k + m), [];
      var r := 0;
      while r < k + m && r < |p.Targets()|
        invariant r <= Ranks(q)
        invariant slots == SlotsTo(q, Asked(k, m, f), r) && missing == MissingTo(q, Asked(k, m, f), r)
      {
        var answer := Get(p.Targets()[r], f);
        GetAsked(k, m, r, f);
        slots := Store(slots, answer);
        if !IsOwnPiece(answer, r) { missing := missing + [r]; }
        r := r + 1;
      }
    }

    /** What the shards a repair of a K + M code asks answer. */
    ghost function Asked(k: nat, m: nat, f: Faults): (a: Held)
      reads this
    {
      Answers(held, f.get + LateShards(p.Coding(k, m)))
    }

    lemma GetAsked(k: nat, m: nat, r: nat, f: Faults)
      requires p.Coding(k, m).Sound() && r < |p.Targets()| && r < k + m
      ensures Get(p.Targets()[r], f) == AtRank(p.Coding(k, m).Targets(), Asked(k, m, f), r)
    {
      AskedAt(p.Coding(k, m), held, f.get, r);
      hide Pool.Targets;
      hide Mds;
    }

    /** Add what the shards off the targets answer. */
    method GatherStrays(slots0: Slots, f: Faults) returns (slots: Slots)
      ensures slots == ScanStrays(p.Targets(), Seen(f), 0, slots0)
    {
      hide Pool.Targets;
      hide Mds;
      hide Store;
      slots := slots0;
      var s := 0;
      while s < |held|
        invariant s <= |held|
        invariant ScanStrays(p.Targets(), Seen(f), s, slots) == ScanStrays(p.Targets(), Seen(f), 0, slots0)
      {
        if s !in p.Targets() { slots := Store(slots, Get(s, f)); }
        s := s + 1;
      }
    }

    /** Write the rebuilt pieces of a K + M code to the missing ranks. */
    method WriteMissing(k: nat, m: nat, rebuilt: seq<Bytes>, missing: seq<nat>, f: Faults) returns (repaired: nat, left: nat)
      requires p.Coding(k, m).Sound() && |held| == p.n && |rebuilt| == k + m
      requires forall i :: 0 <= i < |missing| ==> missing[i] < Ranks(p.Coding(k, m))
      modifies this
      ensures |held| == p.n && repaired + left == |missing|
      ensures forall i :: 0 <= i < |missing| ==> missing[i] < |p.Coding(k, m).Targets()|
      ensures repaired == Writable(p.Coding(k, m), missing, f.put, |missing|)
      ensures old(|history|) <= |history| && history[..old(|history|)] == old(history)
      ensures var q := p.Coding(k, m);
        f.corrupt == map[] && Missing(q, old(Asked(k, m, f)), rebuilt, missing, Ranks(q)) ==>
          && held == RepairTo(q, old(held), rebuilt, f.put, Ranks(q))
          && forall i :: old(|history|) <= i < |history| ==> RepairState(q, old(held), rebuilt, f, history[i])
    {
      hide Pool.Targets;
      hide Mds;
      hide Missing;
      hide RepairTo;
      hide RepairState;
      ghost var q := p.Coding(k, m);
      TargetsDistinct(q);
      ghost var start := held;
      ghost var good := f.corrupt == map[] && Missing(q, Asked(k, m, f), rebuilt, missing, Ranks(q));
      repaired, left := 0, 0;
      var i := 0;
      assert RepairTo(q, start, rebuilt, f.put, 0) == held by { RepairZero(q, start, rebuilt, f.put); }
      while i < |missing|
        invariant i <= |missing| && |held| == p.n && repaired + left == i && repaired == Writable(q, missing, f.put, i)
        invariant old(|history|) <= |history| && history[..old(|history|)] == old(history)
        invariant good ==> held == RepairTo(q, start, rebuilt, f.put, After(missing, i))
        invariant good ==> forall j :: old(|history|) <= j < |history| ==> RepairState(q, start, rebuilt, f, history[j])
      {
        var s := p.Targets()[missing[i]];
        ghost var was := held;
        if good { MissingGap(q, start, rebuilt, f.put, f.get + LateShards(q), missing, Ranks(q), i); }
        var ok := Put(s, rebuilt[missing[i]], f);
        if ok { repaired := repaired + 1; } else { left := left + 1; }
        i := i + 1;
        if good { RepairNext(q, start, was, held, rebuilt, f, missing[i - 1]); }
      }
      if good { MissingGap(q, start, rebuilt, f.put, f.get + LateShards(q), missing, Ranks(q), |missing|); }
    }

    /** Some prefix of the repair's writes leads from start to h. */
    ghost predicate RepairState(q: Pool, start: Held, pieces: seq<Bytes>, f: Faults, h: Held) {
      exists n: nat :: n <= Ranks(q) && h == RepairTo(q, start, pieces, f.put, n)
    }

    lemma RepairNext(q: Pool, start: Held, was: Held, now: Held, pieces: seq<Bytes>, f: Faults, r: nat)
      requires q.Sound() && |start| == q.n && r < Ranks(q) && |pieces| == q.k + q.m
      requires was == RepairTo(q, start, pieces, f.put, r)
      requires var s := q.Targets()[r]; s < q.n && now == if s in f.put then was else was[s := Some(pieces[r])]
      ensures now == RepairTo(q, start, pieces, f.put, r + 1) && RepairState(q, start, pieces, f, now)
    {
      hide Pool.Targets;
      hide Mds;
    }

    lemma RepairHistory(q: Pool, down: set<nat>, start: Held, now: Held, history: seq<Held>, from: nat,
                        body: Bytes, pieces: seq<Bytes>, f: Faults)
      requires q.Sound() && Coded(q, body, pieces) && Canonical(q, start, body, pieces) && from <= |history|
      requires |Reachable(Answers(start, down), pieces)| >= q.k
      requires RepairState(q, start, pieces, f, now)
      requires forall i :: from <= i < |history| ==> RepairState(q, start, pieces, f, history[i])
      ensures AllRead(q, now, history, from, body)
    {
      hide GetEcAware;
      hide Coded;
      hide Canonical;
      hide Reachable;
      hide RepairTo;
      hide Pool.Targets;
      hide Mds;
      SeenReachable(start, down, pieces);
      var n0: nat :| n0 <= Ranks(q) && now == RepairTo(q, start, pieces, f.put, n0);
      RepairKeepsReadable(q, body, pieces, start, f.put, n0);
      forall i | from <= i < |history| ensures GetEcAware(q, history[i]) == Ok(body) {
        var n: nat :| n <= Ranks(q) && history[i] == RepairTo(q, start, pieces, f.put, n);
        RepairKeepsReadable(q, body, pieces, start, f.put, n);
      }
    }

    lemma RepairStates(q: Pool, start: Held, pieces: seq<Bytes>, f: Faults)
      ensures RepairState(q, start, pieces, f, start)
      ensures RepairState(q, start, pieces, f, RepairTo(q, start, pieces, f.put, Ranks(q)))
    {
      RepairZero(q, start, pieces, f.put);
    }

    /** The key's shards hold only this body and its pieces, and no shard stores what it was not given. */
    ghost predicate Repairable(q: Pool, f: Faults, body: Bytes, pieces: seq<Bytes>, held: Held) {
      Coded(q, body, pieces) && AllGenuine(held, body, pieces) && f.corrupt == map[]
    }

    /** What a repair does: its result, the state it leaves and every state it goes through. */
    ghost predicate RepairEffect(k: nat, m: nat, f: Faults, body: Bytes, start: Held, now: Held, past: seq<Held>, from: nat, res: RepairResult)
      requires k > 0
    {
      var q := p.Coding(k, m);
      var pieces, asked := EcEncode(p.rs, body, k, m), Answers(start, f.get + LateShards(q));
      from <= |past| && (res == RepairError ==> |past| == from && now == start) && (Repairable(q, f, body, pieces, start) ==>
        && (res.Repaired? <==> |Reachable(asked, pieces)| >= k)
        && now == (if res.Repaired? then RepairTo(q, start, pieces, f.put, Ranks(q)) else start)
        && (forall i :: from <= i < |past| ==> RepairState(q, start, pieces, f, past[i]))
        && (res.Repaired? ==>
              && res.repaired == |Gaps(q, asked, pieces, Ranks(q), f.put, true)|
              && res.left == |Gaps(q, asked, pieces, Ranks(q), f.put, false)|
              && (res.left == 0 ==> forall r :: 0 <= r < Ranks(q) ==> Own(q, now, pieces, r)))
        && (Canonical(q, start, body, pieces) && res.Repaired? ==> AllRead(p, now, past, from, body)))
    }

    /**
     Rebuild a key's K + M pieces, the counts being those of a header found, from whatever is readable. It works exactly when
     K distinct pieces answer, from any placement; then every rank whose shard takes writes ends with its own piece, nothing
     else changes, and it reports how many ranks it wrote and how many it could not.
     */
    method RepairKeyEc(k: nat, m: nat, f: Faults, ghost body: Bytes) returns (res: RepairResult)
      requires p.Coding(k, m).Sound() && |held| == p.n
      modifies this
      ensures |held| == p.n && old(|history|) <= |history| && history[..old(|history|)] == old(history)
      ensures RepairEffect(k, m, f, body, old(held), held, history, old(|history|), res)
      ensures old(AllOwn(k, m, f)) ==> res == Repaired(0, 0) && held == old(held) && history == old(history)
    {
      hide Pool.Targets;
      hide Mds;
      hide Coded;
      hide EcEncode;
      hide EcRepairPieces;
      hide Missing;
      hide RepairTo;
      hide Reachable;
      hide RepairState;
      hide Own;
      hide Agrees;
      hide RanksGathered;
      hide ScanStrays;
      hide AllGenuine;
      hide Canonical;
      hide AllRead;
      hide RepairEffect;
      hide Gaps;
      ghost var q := p.Coding(k, m);
      ghost var pieces := EcEncode(p.rs, body, k, m);
      PieceCount(q, body);
      ghost var good, start, asked := Repairable(q, f, body, pieces, held), held, Asked(k, m, f);
      var slots, missing := GatherRanks(k, m, f);
      ghost var ranked := slots;
      if good { GatheredTo(q, body, pieces, held, f.get + LateShards(q), Ranks(q)); }
      if AllOwn(k, m, f) { OwnFound(k, m, f); }
      hide AllOwn;
      hide SlotsTo;
      hide MissingTo;
      if Present(slots) < k { slots := GatherStrays(slots, f); }
      if good { GatheredAll(k, m, f, body, pieces, ranked, slots); }
      if Present(slots) < k {
        NoRepair(k, m, f, body, held, history);
        return RepairError;
      }
      if missing == [] {
        NothingMissing(k, m, f, body, held, history);
        return Repaired(0, 0);
      }
      var rebuilt := EcRepairPieces(p.rs, slots, k, m);
      RebuiltCount(q, slots);
      if good { RebuiltIs(q, body, slots); }
      if rebuilt.Err? {
        NoRepair(k, m, f, body, held, history);
        return RepairError;
      }
      var repaired, left := WriteMissing(k, m, rebuilt.value, missing, f);
      if good { MissingWritten(k, m, f, body, start, held, history, old(|history|), missing, repaired, left); }
      res := Repaired(repaired, left);
      if !good { NoClaim(k, m, f, body, start, held, history, old(|history|), res); }
    }

    /** At least K ranks there are and each answers with a piece of its own index, whatever is in it. */
    ghost predicate AllOwn(k: nat, m: nat, f: Faults)
      reads this
    {
      Ranks(p.Coding(k, m)) >= k && forall r: nat :: r < Ranks(p.Coding(k, m)) ==> IsOwnPiece(Get(p.Targets()[r], f), r)
    }

    lemma OwnFound(k: nat, m: nat, f: Faults)
      requires p.Coding(k, m).Sound() && AllOwn(k, m, f)
      ensures var n := Ranks(p.Coding(k, m));
        MissingTo(p.Coding(k, m), Asked(k, m, f), n) == [] && Present(SlotsTo(p.Coding(k, m), Asked(k, m, f), n)) >= k
    {
      hide Pool.Targets;
      hide IsOwnPiece;
      hide SlotsTo;
      hide MissingTo;
      var q := p.Coding(k, m);
      forall r: nat | r < Ranks(q) ensures IsOwnPiece(AtRank(q.Targets(), Asked(k, m, f), r), r) { GetAsked(k, m, r, f); }
      hide Pool.Sound;
      hide Get;
      OwnGathered(q, Asked(k, m, f), Ranks(q));
      PresentAtLeast(SlotsTo(q, Asked(k, m, f), Ranks(q)), Ranks(q));
    }

    /** Ranks and, if they were too few, strays have given enough pieces exactly when enough were asked for and answered. */
    lemma GatheredAll(k: nat, m: nat, f: Faults, body: Bytes, pieces: seq<Bytes>, ranked: Slots, slots: Slots)
      requires p.Coding(k, m).Sound() && |held| == p.n && Repairable(p.Coding(k, m), f, body, pieces, held)
      requires RanksGathered(p.Coding(k, m), Asked(k, m, f), pieces, Ranks(p.Coding(k, m)), ranked)
      requires slots == if Present(ranked) < k then ScanStrays(p.Targets(), Seen(f), 0, ranked) else ranked
      ensures Agrees(slots, pieces) && (Present(slots) >= k <==> |Reachable(Asked(k, m, f), pieces)| >= k)
    {
      hide Pool.Targets;
      hide Mds;
      hide Coded;
      hide RanksGathered;
      hide ScanStrays;
      hide AllGenuine;
      hide Reachable;
      hide Agrees;
      var q := p.Coding(k, m);
      CodedLength(q, body, pieces);
      LateGathered(q, held, f.get, pieces, ranked);
      AskedStrays(q, held, f.get, ranked);
      SeenGenuine(held, f.get + LateShards(q), body, pieces);
      GatherAll(q, body, pieces, Asked(k, m, f), ranked, slots);
    }

    lemma NoRepair(k: nat, m: nat, f: Faults, body: Bytes, start: Held, past: seq<Held>)
      requires k > 0
      requires var q := p.Coding(k, m);
        Repairable(q, f, body, EcEncode(p.rs, body, k, m), start) ==>
          |Reachable(Answers(start, f.get + LateShards(q)), EcEncode(p.rs, body, k, m))| < k
      ensures RepairEffect(k, m, f, body, start, start, past, |past|, RepairError)
    {
      hide Repairable;
      hide Reachable;
      hide EcEncode;
    }

    /** Nothing was missing: the ranks hold their pieces already. */
    lemma NothingMissing(k: nat, m: nat, f: Faults, body: Bytes, start: Held, past: seq<Held>)
      requires p.Coding(k, m).Sound() && |start| == p.n
      requires var q, pieces := p.Coding(k, m), EcEncode(p.rs, body, k, m);
        Repairable(q, f, body, pieces, start) ==>
          && Missing(q, Answers(start, f.get + LateShards(q)), pieces, [], Ranks(q))
          && |Reachable(Answers(start, f.get + LateShards(q)), pieces)| >= k
      ensures RepairEffect(k, m, f, body, start, start, past, |past|, Repaired(0, 0))
    {
      var q, pieces := p.Coding(k, m), EcEncode(p.rs, body, k, m);
      if Repairable(q, f, body, pieces, start) {
        NoneToWrite(q, pieces, f, start);
        assert Writable(q, [], f.put, 0) == 0;
        MissingWritten(k, m, f, body, start, start, past, |past|, [], 0, 0);
      } else {
        NoClaim(k, m, f, body, start, start, past, |past|, Repaired(0, 0));
      }
      hide *;
    }

    lemma NoneToWrite(q: Pool, pieces: seq<Bytes>, f: Faults, start: Held)
      requires Missing(q, Answers(start, f.get + LateShards(q)), pieces, [], Ranks(q))
      ensures RepairTo(q, start, pieces, f.put, Ranks(q)) == start
    {
      NoneMissing(q, Answers(start, f.get + LateShards(q)), pieces, [], Ranks(q));
      NothingToRepair(q, start, pieces, f.put, f.get + LateShards(q), Ranks(q));
      hide *;
    }

    /** The missing ranks were written where their shards took it. */
    lemma MissingWritten(k: nat, m: nat, f: Faults, body: Bytes, start: Held, now: Held, past: seq<Held>, from: nat,
                         missing: seq<nat>, repaired: nat, left: nat)
      requires p.Coding(k, m).Sound() && |start| == p.n && from <= |past|
      requires var q, pieces := p.Coding(k, m), EcEncode(p.rs, body, k, m);
        && Repairable(q, f, body, pieces, start)
        && Missing(q, Answers(start, f.get + LateShards(q)), pieces, missing, Ranks(q))
        && |Reachable(Answers(start, f.get + LateShards(q)), pieces)| >= k
        && now == RepairTo(q, start, pieces, f.put, Ranks(q))
        && (forall i :: from <= i < |past| ==> RepairState(q, start, pieces, f, past[i]))
      requires (forall j :: 0 <= j < |missing| ==> missing[j] < |p.Coding(k, m).Targets()|)
      requires repaired == Writable(p.Coding(k, m), missing, f.put, |missing|) && repaired + left == |missing|
      ensures RepairEffect(k, m, f, body, start, now, past, from, Repaired(repaired, left))
    {
      hide Pool.Targets;
      hide Mds;
      hide Coded;
      hide EcEncode;
      hide Missing;
      hide RepairTo;
      hide Reachable;
      hide RepairState;
      hide Own;
      hide AllGenuine;
      hide Canonical;
      hide AllRead;
      hide Writable;
      var q, pieces := p.Coding(k, m), EcEncode(p.rs, body, k, m);
      var down := f.get + LateShards(q);
      CodedLength(q, body, pieces);
      GapCounts(q, Answers(start, down), pieces, missing, Ranks(q), f.put);
      if left == 0 {
        NoGaps(q, Answers(start, down), pieces, f.put);
        RepairedFully(q, start, pieces, f.put, down);
      }
      hide Gaps;
      if Canonical(q, start, body, pieces) {
        RepairStates(q, start, pieces, f);
        RepairHistory(q, down, start, now, past, from, body, pieces, f);
        ReadByPool(k, m, now, past, from, body);
      }
    }

    lemma NoGaps(q: Pool, answers: Held, pieces: seq<Bytes>, put: set<nat>)
      requires |Gaps(q, answers, pieces, Ranks(q), put, false)| == 0
      ensures forall r :: 0 <= r < Ranks(q) ==> Own(q, answers, pieces, r) || q.Targets()[r] !in put
    {
      hide Own;
      hide Pool.Targets;
      forall r | 0 <= r < Ranks(q) ensures Own(q, answers, pieces, r) || q.Targets()[r] !in put {
        assert r !in Gaps(q, answers, pieces, Ranks(q), put, false);
      }
    }

    lemma ReadByPool(k: nat, m: nat, now: Held, past: seq<Held>, from: nat, body: Bytes)
      requires AllRead(p.Coding(k, m), now, past, from, body)
      ensures AllRead(p, now, past, from, body)
    {
      forall a ensures GetEcAware(p.Coding(k, m), a) == GetEcAware(p, a) { SameReads(p, k, m, a); }
      hide GetEcAware;
    }

    lemma NoClaim(k: nat, m: nat, f: Faults, body: Bytes, start: Held, now: Held, past: seq<Held>, from: nat, res: RepairResult)
      requires k > 0 && !Repairable(p.Coding(k, m), f, body, EcEncode(p.rs, body, k, m), start) && from <= |past|
      requires res == RepairError ==> |past| == from && now == start
      ensures RepairEffect(k, m, f, body, start, now, past, from, res)
    {
      hide Repairable;
    }

    // ----- which repair a key gets

    /** The ranks below n whose shards do not say that they have the key. */
    method MissingRanks(n: nat, f: Faults) returns (missing: seq<nat>)
      requires Valid() && n <= |p.Targets()|
      ensures missing == EmptyRanks(p, Answers(held, f.has), n)
    {
      hide Pool.Targets;
      TargetsDistinct(p);
      hide Mds;
      missing := [];
      assert EmptyRanks(p, Answers(held, f.has), 0) == [];
      hide EmptyRanks;
      var r := 0;
      while r < n
        invariant r <= n && missing == EmptyRanks(p, Answers(held, f.has), r)
      {
        EmptyStep(p, Answers(held, f.has), r);
        assert EmptyAt(p, Answers(held, f.has), r) == !Has(p.Targets()[r], f);
        if !Has(p.Targets()[r], f) { missing := missing + [r]; }
        r := r + 1;
      }
    }

    /** Read the targets by rank, then the other shards, up to the first that answers. */
    method Probe(f: Faults) returns (b: Option<Bytes>)
      requires Valid()
      ensures b == Probed(p.Targets(), Seen(f))
    {
      hide Pool.Targets;
      hide Pool.Sound;
      var r := 0;
      while r < |p.Targets()|
        invariant r <= |p.Targets()|
        invariant FirstAnswer(p.Targets(), Seen(f), 0) == FirstAnswer(p.Targets(), Seen(f), r)
      {
        b := Get(p.Targets()[r], f);
        assert b == AtRank(p.Targets(), Seen(f), r);
        if b.Some? { return; }
        r := r + 1;
      }
      hide FirstAnswer;
      var s := 0;
      while s < |held|
        invariant s <= |held|
        invariant FirstStray(p.Targets(), Seen(f), 0) == FirstStray(p.Targets(), Seen(f), s)
      {
        b := Get(s, f);
        if s !in p.Targets() && b.Some? { return; }
        s := s + 1;
      }
      b := None;
    }

    /** One of the states on the way. */
    ghost predicate FillState(q: Pool, start: Held, b: Bytes, e: seq<nat>, put: set<nat>, i: nat, h: Held)
      requires i <= |e|
    {
      exists j: nat :: j <= i && h == FillTo(q, start, b, e, put, j)
    }

    /** The first i of the ranks e were offered the body: what took it, and the states on the way. */
    ghost predicate FilledSoFar(f: Faults, b: Bytes, start: Held, e: seq<nat>, i: nat, now: Held, past: seq<Held>, from: nat, repaired: nat, left: nat)
      requires i <= |e| && forall j :: 0 <= j < |e| ==> e[j] < |p.Targets()|
    {
      && |now| == |start| && from <= |past| && repaired == Writable(p, e, f.put, i) && left == i - repaired
      && (f.corrupt == map[] ==>
            && now == FillTo(p, start, b, e, f.put, i)
            && forall x :: from <= x < |past| ==> FillState(p, start, b, e, f.put, i, past[x]))
    }

    lemma FilledNext(f: Faults, b: Bytes, start: Held, e: seq<nat>, i: nat, was: Held, past: seq<Held>, from: nat, repaired: nat, left: nat,
                     now: Held)
      requires i < |e| && (forall j :: 0 <= j < |e| ==> e[j] < |p.Targets()|) && p.Targets()[e[i]] < |start|
      requires FilledSoFar(f, b, start, e, i, was, past, from, repaired, left)
      requires |now| == |was| && (f.corrupt == map[] ==>
                 now == if p.Targets()[e[i]] in f.put then was else was[p.Targets()[e[i]] := Some(b)])
      ensures p.Targets()[e[i]] in f.put ==> FilledSoFar(f, b, start, e, i + 1, now, past + [now], from, repaired, left + 1)
      ensures p.Targets()[e[i]] !in f.put ==> FilledSoFar(f, b, start, e, i + 1, now, past + [now], from, repaired + 1, left)
    {
      hide Pool.Targets;
      if f.corrupt == map[] {
        assert now == FillTo(p, start, b, e, f.put, i + 1);
        hide FillTo;
        assert FillState(p, start, b, e, f.put, i + 1, now);
      }
    }

    /** What filling the legs does: its counts, the state it leaves and every state it goes through. */
    ghost predicate FillEffect(f: Faults, b: Bytes, start: Held, now: Held, past: seq<Held>, from: nat, repaired: nat, left: nat)
    {
      var e := EmptyRanks(p, Answers(start, f.has), Min(p.r, |p.Targets()|));
      FilledSoFar(f, b, start, e, |e|, now, past, from, repaired, left)
    }

    /** Write the body that was read to the legs that do not say they have it. */
    method RepairMirror(b: Bytes, f: Faults) returns (repaired: nat, left: nat)
      requires Valid()
      modifies this
      ensures Valid() && old(|history|) <= |history| && history[..old(|history|)] == old(history)
      ensures FillEffect(f, b, old(held), held, history, old(|history|), repaired, left)
    {
      hide Pool.Targets;
      TargetsDistinct(p);
      hide Mds;
      ghost var start := held;
      var missing := MissingRanks(Min(p.r, |p.Targets()|), f);
      hide EmptyRanks;
      assert FillTo(p, start, b, missing, f.put, 0) == start;
      assert FilledSoFar(f, b, start, missing, 0, held, history, |history|, 0, 0);
      hide FilledSoFar;
      repaired, left := 0, 0;
      var i := 0;
      while i < |missing|
        invariant i <= |missing| && |held| == p.n && old(|history|) <= |history| && history[..old(|history|)] == old(history)
        invariant FilledSoFar(f, b, start, missing, i, held, history, old(|history|), repaired, left)
      {
        ghost var was, past := held, history;
        var ok := Put(p.Targets()[missing[i]], b, f);
        FilledNext(f, b, start, missing, i, was, past, old(|history|), repaired, left, held);
        if ok { repaired := repaired + 1; } else { left := left + 1; }
        i := i + 1;
      }
    }

    /** A readable key whose pieces are heard stays readable when its body is copied to the legs. */
    lemma FilledReads(f: Faults, k: nat, m: nat, body: Bytes, b: Bytes, start: Held, now: Held, past: seq<Held>, from: nat,
                      repaired: nat, left: nat)
      requires p.Coding(k, m).Sound() && |start| == p.n && Probed(p.Targets(), Answers(start, f.get)) == Some(b) && ParsePieceHeader(b).None?
      requires FillEffect(f, b, start, now, past, from, repaired, left)
      requires var q, pieces := p.Coding(k, m), EcEncode(p.rs, body, k, m);
        Repairable(q, f, body, pieces, start) && Canonical(q, start, body, pieces)
      requires PiecesHeard(p, start, body, f.has, p.r) && GetEcAware(p, start) == Ok(body)
      ensures AllRead(p, now, past, from, body)
    {
      hide Pool.Targets;
      hide Mds;
      hide EcEncode;
      hide Canonical;
      hide FillTo;
      hide EmptyRanks;
      hide Probed;
      hide ParsePieceHeader;
      hide GetEcAware;
      var q, pieces, n := p.Coding(k, m), EcEncode(p.rs, body, k, m), Min(p.r, |p.Targets()|);
      FoundIs(q, body, pieces, b);
      hide Coded;
      var a := Answers(start, f.has);
      SameEmpty(p, k, m, a, n);
      SameReads(p, k, m, start);
      var e := EmptyRanks(q, a, n);
      forall j: nat | j <= |e| ensures GetEcAware(p, FillTo(p, start, body, e, f.put, j)) == Ok(body) {
        FillKeepsReadable(q, body, pieces, start, f.has, n, f.put, j);
        SameFill(p, k, m, start, body, e, f.put, j);
        SameReads(p, k, m, FillTo(p, start, body, e, f.put, j));
      }
    }

    lemma HealthTest(a: Held, missing: seq<nat>)
      requires missing == EmptyRanks(p, a, Ranks(p))
      ensures var legs := Min(p.r, |p.Targets()|);
        TakenForHealthy(p, a)
        <==> missing == [] || ((forall i :: 0 <= i < |missing| ==> missing[i] >= legs)
                               && |missing| == (if p.k + p.m > legs then p.k + p.m - legs else 0))
    {
      hide EmptyRanks;
      hide Pool.Targets;
      assert forall i :: 0 <= i < |missing| ==> missing[i] in missing;
    }

    /** What repair finds of a key is its body or one of its pieces. */
    lemma FoundIs(q: Pool, body: Bytes, pieces: seq<Bytes>, b: Bytes)
      requires Coded(q, body, pieces) && Genuine(Some(b), body, pieces)
      ensures match ParsePieceHeader(b) case None => b == body case Some(h) => h.k == q.k && h.m == q.m
    {
      hide Decode;
      hide ParsePieceHeader;
      if b != body {
        var j :| 0 <= j < |pieces| && b == pieces[j];
        assert IsPiece(pieces[j], q.k, q.m, j, |body|);
      }
    }

    lemma RebuiltReads(f: Faults, k: nat, m: nat, body: Bytes, b: Bytes, start: Held, now: Held, past: seq<Held>, from: nat,
                       res: RepairResult)
      requires p.Coding(k, m).Sound() && |start| == p.n && Probed(p.Targets(), Answers(start, f.get)) == Some(b) && ParsePieceHeader(b).Some?
      requires var h := ParsePieceHeader(b).value; h.k > 0 && RepairEffect(h.k, h.m, f, body, start, now, past, from, res)
      requires var q, pieces := p.Coding(k, m), EcEncode(p.rs, body, k, m);
        Repairable(q, f, body, pieces, start) && Canonical(q, start, body, pieces)
      requires GetEcAware(p, start) == Ok(body)
      ensures AllRead(p, now, past, from, body)
    {
      hide Pool.Targets;
      hide Mds;
      hide EcEncode;
      hide Canonical;
      hide Probed;
      hide ParsePieceHeader;
      hide GetEcAware;
      FoundIs(p.Coding(k, m), body, EcEncode(p.rs, body, k, m), b);
      hide Coded;
      hide Reachable;
      hide Gaps;
      hide RepairTo;
      hide RepairState;
    }

    /** Every piece held has the counts of some code. */
    ghost predicate HeadersSound()
      reads this
    {
      forall s :: 0 <= s < |held| && held[s].Some? ==>
        match ParsePieceHeader(held[s].value)
        case Some(h) => p.Coding(h.k, h.m).Sound()
        case None => true
    }

    /**
     Repair a key of either era. A key that looks healthy is passed over; otherwise the first answer decides: a raw body is
     copied to the legs, a piece leads to the repair of its code. It never makes a readable key unreadable, not even between
     its writes, unless a leg that holds a piece says it has nothing.
     */
    method RepairKey(f: Faults, ghost k: nat, ghost m: nat, ghost body: Bytes) returns (res: RepairResult)
      requires Valid() && HeadersSound() && p.Coding(k, m).Sound()
      modifies this
      ensures Valid() && old(|history|) <= |history| && history[..old(|history|)] == old(history)
      ensures var found := old(Probed(p.Targets(), Seen(f)));
        if TakenForHealthy(p, Answers(old(held), f.has)) then res == Repaired(0, 0) && held == old(held) && history == old(history)
        else match found
          case None => res == RepairError && held == old(held) && history == old(history)
          case Some(b) =>
            match ParsePieceHeader(b)
            case None => res.Repaired? && FillEffect(f, b, old(held), held, history, old(|history|), res.repaired, res.left)
            case Some(h) => RepairEffect(h.k, h.m, f, body, old(held), held, history, old(|history|), res)
      ensures var q, pieces := p.Coding(k, m), EcEncode(p.rs, body, k, m);
        Repairable(q, f, body, pieces, old(held)) && Canonical(q, old(held), body, pieces)
        && PiecesHeard(p, old(held), body, f.has, p.r) && GetEcAware(p, old(held)) == Ok(body) ==>
          AllRead(p, held, history, old(|history|), body)
    {
      hide Pool.Targets;
      hide Mds;
      hide GetEcAware;
      hide RepairEffect;
      hide FillEffect;
      hide Repairable;
      hide Canonical;
      hide PiecesHeard;
      hide EcEncode;
      hide Probed;
      hide EmptyRanks;
      ghost var start, from := held, |history|;
      ghost var q, pieces := p.Coding(k, m), EcEncode(p.rs, body, k, m);
      ghost var good := Repairable(q, f, body, pieces, held) && Canonical(q, held, body, pieces)
        && PiecesHeard(p, held, body, f.has, p.r) && GetEcAware(p, held) == Ok(body);
      var missing := MissingRanks(Ranks(p), f);
      HealthTest(Answers(held, f.has), missing);
      hide TakenForHealthy;
      if missing == [] { return Repaired(0, 0); }
      var legs := Min(p.r, |p.Targets()|);
      var tailOnly := forall i :: 0 <= i < |missing| ==> missing[i] >= legs;
      if tailOnly && |missing| == (if p.k + p.m > legs then p.k + p.m - legs else 0) { return Repaired(0, 0); }
      var found := Probe(f);
      if found.None? { return RepairError; }
      var h := ParsePieceHeader(found.value);
      hide ParsePieceHeader;
      if h.None? {
        var repaired, left := RepairMirror(found.value, f);
        res := Repaired(repaired, left);
        if good { FilledReads(f, k, m, body, found.value, start, held, history, from, repaired, left); }
      } else {
        res := RepairKeyEc(h.value.k, h.value.m, f, body);
        if good { RebuiltReads(f, k, m, body, found.value, start, held, history, from, res); }
      }
    }
  }
}
