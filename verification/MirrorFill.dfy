/**
 The repair of a key found raw: the legs that say they have no copy get the body. What a shard says may be wrong: a failing
 `has` counts as no copy, so a piece can be written over.
 */
module MirrorFill {
  import opened Bytes
  import opened Pieces
  import opened Erasure
  import opened PoolRead
  import opened PoolWrite
  import opened PoolRepair

  /** The first i of the ranks e have the body if their shards take writes; nothing else changed. */
  function FillTo(p: Pool, held: Held, body: Bytes, e: seq<nat>, put: set<nat>, i: nat): (after: Held)
    requires i <= |e|
    ensures |after| == |held|
  {
    if i == 0 then held
    else
      var h, r := FillTo(p, held, body, e, put, i - 1), e[i - 1];
      if r < |p.Targets()| && p.Targets()[r] < |h| && p.Targets()[r] !in put then h[p.Targets()[r] := Some(body)] else h
  }

  lemma {:induction false} SameFill(p: Pool, k: nat, m: nat, held: Held, body: Bytes, e: seq<nat>, put: set<nat>, i: nat)
    requires i <= |e|
    ensures FillTo(p.Coding(k, m), held, body, e, put, i) == FillTo(p, held, body, e, put, i)
  {
    hide Pool.Targets;
    if i > 0 { SameFill(p, k, m, held, body, e, put, i - 1); }
  }

  lemma {:induction false} SameEmpty(p: Pool, k: nat, m: nat, held: Held, n: nat)
    ensures EmptyRanks(p.Coding(k, m), held, n) == EmptyRanks(p, held, n)
  {
    hide Pool.Targets;
    if n > 0 { SameEmpty(p, k, m, held, n - 1); }
  }

  /** Rank r is written. */
  predicate Fills(p: Pool, e: seq<nat>, put: set<nat>, i: nat, r: nat)
    requires i <= |e|
  {
    r < |p.Targets()| && r in e[..i] && p.Targets()[r] !in put
  }

  /** The shards of the written ranks. */
  ghost function FilledShards(p: Pool, e: seq<nat>, put: set<nat>, i: nat): set<nat>
    requires i <= |e|
  {
    set r | r in Range(0, |p.Targets()|) && Fills(p, e, put, i, r) :: p.Targets()[r]
  }

  lemma {:induction false} FillAt(p: Pool, held: Held, body: Bytes, e: seq<nat>, put: set<nat>, i: nat)
    requires p.Sound() && |held| == p.n && i <= |e|
    ensures var h := FillTo(p, held, body, e, put, i);
      && (forall r: nat :: r < |p.Targets()| ==>
            AtRank(p.Targets(), h, r) == if Fills(p, e, put, i, r) then Some(body) else AtRank(p.Targets(), held, r))
      && (forall s :: 0 <= s < p.n && s !in p.Targets() ==> h[s] == held[s])
  {
    TargetsDistinct(p);
    hide Pool.Targets;
    hide Mds;
    if i > 0 {
      FillAt(p, held, body, e, put, i - 1);
      assert e[..i] == e[..i - 1] + [e[i - 1]];
      var h := FillTo(p, held, body, e, put, i);
      forall r: nat | r < |p.Targets()|
        ensures AtRank(p.Targets(), h, r) == if Fills(p, e, put, i, r) then Some(body) else AtRank(p.Targets(), held, r)
      {
        assert Fills(p, e, put, i, r) <==> Fills(p, e, put, i - 1, r) || (r == e[i - 1] && p.Targets()[r] !in put);
        assert AtRank(p.Targets(), FillTo(p, held, body, e, put, i - 1), r)
            == if Fills(p, e, put, i - 1, r) then Some(body) else AtRank(p.Targets(), held, r);
      }
    }
  }

  /** Each shard has the body if it was written, else what it had. */
  lemma FillShard(p: Pool, held: Held, body: Bytes, e: seq<nat>, put: set<nat>, i: nat, s: nat)
    requires p.Sound() && |held| == p.n && i <= |e| && s < p.n
    ensures FillTo(p, held, body, e, put, i)[s] == if s in FilledShards(p, e, put, i) then Some(body) else held[s]
  {
    FillAt(p, held, body, e, put, i);
    TargetsDistinct(p);
    hide Pool.Targets;
    hide Mds;
    hide FillTo;
    hide Fills;
    if s in p.Targets() {
      var r: nat :| r < |p.Targets()| && p.Targets()[r] == s;
      assert AtRank(p.Targets(), held, r) == held[s];
      assert r in Range(0, |p.Targets()|);
    }
  }

  lemma FillCanonical(p: Pool, body: Bytes, pieces: seq<Bytes>, held: Held, e: seq<nat>, put: set<nat>, i: nat)
    requires p.Sound() && Coded(p, body, pieces) && Canonical(p, held, body, pieces) && i <= |e|
    ensures Canonical(p, FillTo(p, held, body, e, put, i), body, pieces)
  {
    FillAt(p, held, body, e, put, i);
    hide Pool.Targets;
    hide Mds;
    hide Coded;
    hide FillTo;
    hide Fills;
    var h := FillTo(p, held, body, e, put, i);
    forall s | 0 <= s < p.n ensures Genuine(h[s], body, pieces) { FillShard(p, held, body, e, put, i, s); }
  }

  /** The pieces that remain are those on the shards not written. */
  lemma FillReachable(p: Pool, body: Bytes, pieces: seq<Bytes>, held: Held, e: seq<nat>, put: set<nat>, i: nat)
    requires p.Sound() && Coded(p, body, pieces) && |held| == p.n && i <= |e|
    ensures Reachable(FillTo(p, held, body, e, put, i), pieces) == Reachable(Answers(held, FilledShards(p, e, put, i)), pieces)
  {
    hide Pool.Targets;
    hide Mds;
    hide FillTo;
    hide FilledShards;
    hide Reachable;
    var h, a := FillTo(p, held, body, e, put, i), Answers(held, FilledShards(p, e, put, i));
    forall s, j | 0 <= s < p.n && 0 <= j < |pieces| ensures h[s] == Some(pieces[j]) <==> a[s] == Some(pieces[j]) {
      FillShard(p, held, body, e, put, i, s);
      BodyIsNoPiece(p, body, pieces, j);
    }
    hide Coded;
    SamePieces(h, a, pieces);
  }

  lemma BodyIsNoPiece(p: Pool, body: Bytes, pieces: seq<Bytes>, j: nat)
    requires Coded(p, body, pieces) && j < |pieces|
    ensures pieces[j] != body
  {
    hide ParsePieceHeader;
  }

  lemma SamePieces(a: Held, b: Held, pieces: seq<Bytes>)
    requires |a| == |b| && forall s, j :: 0 <= s < |a| && 0 <= j < |pieces| ==> (a[s] == Some(pieces[j]) <==> b[s] == Some(pieces[j]))
    ensures Reachable(a, pieces) == Reachable(b, pieces)
  {
  }

  /** Before every piece that is left on a rank comes a rank that has the body or gets it. */
  ghost predicate BodyFirst(p: Pool, held: Held, body: Bytes, e: seq<nat>, put: set<nat>, i: nat)
    requires i <= |e|
  {
    exists r: nat :: r < |p.Targets()| && (Fills(p, e, put, i, r) || RawAt(p, held, body, r))
      && forall q: nat :: q < r ==> Fills(p, e, put, i, q) || RawAt(p, held, body, q) || EmptyAt(p, held, q)
  }

  /**
   After any number of those writes the key can be read exactly when K distinct pieces are left on the shards not written,
   or the body comes first, or no target holds anything and a shard off the targets has the body.
   */
  lemma FillExact(p: Pool, body: Bytes, pieces: seq<Bytes>, held: Held, e: seq<nat>, put: set<nat>, i: nat)
    requires p.Sound() && Coded(p, body, pieces) && Canonical(p, held, body, pieces) && i <= |e|
    ensures GetEcAware(p, FillTo(p, held, body, e, put, i)) == Ok(body)
      <==> || |Reachable(Answers(held, FilledShards(p, e, put, i)), pieces)| >= p.k
           || BodyFirst(p, held, body, e, put, i)
           || ((forall r: nat :: r < |p.Targets()| ==> EmptyAt(p, held, r) && !Fills(p, e, put, i, r)) && StrayBody(p, held, body, 0))
  {
    FillCanonical(p, body, pieces, held, e, put, i);
    FillReachable(p, body, pieces, held, e, put, i);
    GetExact(p, body, pieces, FillTo(p, held, body, e, put, i));
    FillAt(p, held, body, e, put, i);
    hide Pool.Targets;
    hide Mds;
    hide Coded;
    hide Canonical;
    hide GetEcAware;
    hide FillTo;
    hide Fills;
    hide Reachable;
    var h := FillTo(p, held, body, e, put, i);
    FillFirst(p, body, held, e, put, i, h);
  }

  lemma FillFirst(p: Pool, body: Bytes, held: Held, e: seq<nat>, put: set<nat>, i: nat, h: Held)
    requires i <= |e| && |h| == |held|
    requires forall r: nat :: r < |p.Targets()| ==>
      AtRank(p.Targets(), h, r) == if Fills(p, e, put, i, r) then Some(body) else AtRank(p.Targets(), held, r)
    requires forall s :: 0 <= s < |h| && s !in p.Targets() ==> h[s] == held[s]
    ensures var first := FirstAnswer(p.Targets(), h, 0);
      && (first < |p.Targets()| && AtRank(p.Targets(), h, first) == Some(body) <==> BodyFirst(p, held, body, e, put, i))
      && (first == |p.Targets()| <==> forall r: nat :: r < |p.Targets()| ==> EmptyAt(p, held, r) && !Fills(p, e, put, i, r))
      && (StrayBody(p, h, body, 0) <==> StrayBody(p, held, body, 0))
  {
    hide Pool.Targets;
    hide Fills;
    var first := FirstAnswer(p.Targets(), h, 0);
    if first < |p.Targets()| && AtRank(p.Targets(), h, first) == Some(body) {
      forall q: nat | q < first ensures EmptyAt(p, held, q) { assert AtRank(p.Targets(), h, q).None?; }
      assert Fills(p, e, put, i, first) || RawAt(p, held, body, first);
    }
    if BodyFirst(p, held, body, e, put, i) {
      var r: nat :| r < |p.Targets()| && (Fills(p, e, put, i, r) || RawAt(p, held, body, r))
        && (forall q: nat :: q < r ==> Fills(p, e, put, i, q) || RawAt(p, held, body, q) || EmptyAt(p, held, q));
      assert AtRank(p.Targets(), h, r) == Some(body);
      assert first <= r;
    }
    if first == |p.Targets()| {
      forall r: nat | r < |p.Targets()| ensures EmptyAt(p, held, r) && !Fills(p, e, put, i, r) { assert AtRank(p.Targets(), h, r).None?; }
    } else {
      assert AtRank(p.Targets(), h, first).Some?;
    }
  }

  /** Every leg below n that wrongly says it has nothing has the body, not a piece. */
  ghost predicate PiecesHeard(p: Pool, held: Held, body: Bytes, deaf: set<nat>, n: nat) {
    forall r: nat :: r < n && r < |p.Targets()| && p.Targets()[r] in deaf ==> EmptyAt(p, held, r) || RawAt(p, held, body, r)
  }

  /** If so, each of the writes keeps a readable key readable. */
  lemma FillKeepsReadable(p: Pool, body: Bytes, pieces: seq<Bytes>, held: Held, deaf: set<nat>, n: nat, put: set<nat>, i: nat)
    requires p.Sound() && Coded(p, body, pieces) && Canonical(p, held, body, pieces)
    requires GetEcAware(p, held) == Ok(body) && PiecesHeard(p, held, body, deaf, n)
    requires i <= |EmptyRanks(p, Answers(held, deaf), n)|
    ensures GetEcAware(p, FillTo(p, held, body, EmptyRanks(p, Answers(held, deaf), n), put, i)) == Ok(body)
  {
    assert |held| == p.n;
    hide GetEcAware;
    hide Pool.Targets;
    hide Mds;
    hide Canonical;
    hide FillTo;
    hide Reachable;
    hide FilledShards;
    var e := EmptyRanks(p, Answers(held, deaf), n);
    FillExact(p, body, pieces, held, e, put, i);
    GetExact(p, body, pieces, held);
    FilledNoPieces(p, body, pieces, held, deaf, n, put, i);
    hide Coded;
    hide EmptyRanks;
    hide Fills;
    var first := FirstAnswer(p.Targets(), held, 0);
    if first < |p.Targets()| && AtRank(p.Targets(), held, first) == Some(body) {
      assert RawAt(p, held, body, first);
      assert BodyFirst(p, held, body, e, put, i);
    } else if r: nat :| first == |p.Targets()| && r < |p.Targets()| && Fills(p, e, put, i, r) {
      assert BodyFirst(p, held, body, e, put, i);
    }
  }

  lemma FilledNoPieces(p: Pool, body: Bytes, pieces: seq<Bytes>, held: Held, deaf: set<nat>, n: nat, put: set<nat>, i: nat)
    requires p.Sound() && Coded(p, body, pieces) && |held| == p.n && PiecesHeard(p, held, body, deaf, n)
    requires i <= |EmptyRanks(p, Answers(held, deaf), n)|
    ensures Reachable(Answers(held, FilledShards(p, EmptyRanks(p, Answers(held, deaf), n), put, i)), pieces) == Reachable(held, pieces)
  {
    hide Pool.Targets;
    hide Mds;
    hide Reachable;
    hide Coded;
    hide ParsePieceHeader;
    var e := EmptyRanks(p, Answers(held, deaf), n);
    hide EmptyRanks;
    var a := Answers(held, FilledShards(p, e, put, i));
    forall s, j | 0 <= s < p.n && 0 <= j < |pieces| ensures a[s] == Some(pieces[j]) <==> held[s] == Some(pieces[j]) {
      BodyIsNoPiece(p, body, pieces, j);
      if s in FilledShards(p, e, put, i) {
        var r: nat :| r < |p.Targets()| && Fills(p, e, put, i, r) && p.Targets()[r] == s;
        assert r in e;
        assert EmptyAt(p, Answers(held, deaf), r);
        assert EmptyAt(p, held, r) || RawAt(p, held, body, r);
      }
    }
    SamePieces(a, held, pieces);
  }

  /**
   Otherwise it may not be: the first head of a 2 + 1 code cannot be read, so the leg behind it is taken for the source, and
   the third leg, which has its piece, says it has nothing. Repair writes the body over that piece, after which reads find
   the one piece at rank 0 and no other.
   */
  lemma DeafPieceLost(p: Pool, body: Bytes, pieces: seq<Bytes>)
    requires p.Valid() && p.k == 2 && p.m == 1 && p.r == 3 && p.n == 3 && p.ranking == [0, 1, 2] && Coded(p, body, pieces)
    ensures var held := [Some(pieces[0]), Some(body), Some(pieces[2])];
      var e := EmptyRanks(p, Answers(held, {2}), 3);
      && !TakenForHealthy(p, Answers(held, {2})) && Probed(p.Targets(), Answers(held, {0})) == Some(body) && e == [2]
      && GetEcAware(p, held) == Ok(body) && GetEcAware(p, FillTo(p, held, body, e, {}, 1)) != Ok(body)
  {
    var held := [Some(pieces[0]), Some(body), Some(pieces[2])];
    DeafPieceFound(p, body, pieces, held);
    hide TakenForHealthy;
    hide Probed;
    hide EmptyRanks;
    hide Mds;
    hide GetEcAware;
    assert FillTo(p, held, body, [2], {}, 0) == held;
    assert FillTo(p, held, body, [2], {}, 1) == [Some(pieces[0]), Some(body), Some(body)];
    hide FillTo;
    hide Coded;
    TwoPiecesRead(p, body, pieces, held);
    OnePieceUnread(p, body, pieces);
  }

  lemma TwoPiecesRead(p: Pool, body: Bytes, pieces: seq<Bytes>, held: Held)
    requires p.Sound() && p.k == 2 && p.m == 1 && p.n == 3 && p.Targets() == [0, 1, 2] && Coded(p, body, pieces)
    requires held == [Some(pieces[0]), Some(body), Some(pieces[2])]
    ensures GetEcAware(p, held) == Ok(body)
  {
    hide Mds;
    hide GetEcAware;
    hide Reachable;
    CodedLength(p, body, pieces);
    assert Canonical(p, held, body, pieces) by {
      hide Pool.Sound;
      hide Coded;
    }
    hide Canonical;
    GetExact(p, body, pieces, held);
    hide Coded;
    OwnReachable(p, held, pieces, 0);
    OwnReachable(p, held, pieces, 2);
    SubsetSize({0, 2}, Reachable(held, pieces));
  }

  lemma OnePieceUnread(p: Pool, body: Bytes, pieces: seq<Bytes>)
    requires p.Sound() && p.k == 2 && p.m == 1 && p.n == 3 && p.Targets() == [0, 1, 2] && Coded(p, body, pieces)
    ensures GetEcAware(p, [Some(pieces[0]), Some(body), Some(body)]) != Ok(body)
  {
    hide Mds;
    hide GetEcAware;
    var after := [Some(pieces[0]), Some(body), Some(body)];
    CodedLength(p, body, pieces);
    assert Canonical(p, after, body, pieces) by {
      hide Pool.Sound;
      hide Coded;
    }
    hide Canonical;
    GetExact(p, body, pieces, after);
    hide Coded;
    forall j | j in Reachable(after, pieces) ensures j == 0 {
      BodyIsNoPiece(p, body, pieces, j);
      PieceApart(p, body, pieces, 0, j);
    }
    BodyIsNoPiece(p, body, pieces, 0);
    hide Reachable;
    SubsetSize(Reachable(after, pieces), {0});
    assert AtRank(p.Targets(), after, 0) == Some(pieces[0]);
    assert FirstAnswer(p.Targets(), after, 0) == 0;
  }

  lemma PieceApart(p: Pool, body: Bytes, pieces: seq<Bytes>, i: nat, j: nat)
    requires Coded(p, body, pieces) && i < |pieces| && j < |pieces| && pieces[i] == pieces[j]
    ensures i == j
  {
    hide ParsePieceHeader;
    hide Decode;
    assert IsPiece(pieces[i], p.k, p.m, i, |body|) && IsPiece(pieces[j], p.k, p.m, j, |body|);
  }

  lemma DeafPieceFound(p: Pool, body: Bytes, pieces: seq<Bytes>, held: Held)
    requires p.Valid() && p.k == 2 && p.m == 1 && p.r == 3 && p.n == 3 && p.ranking == [0, 1, 2] && Coded(p, body, pieces)
    requires held == [Some(pieces[0]), Some(body), Some(pieces[2])]
    ensures p.Targets() == [0, 1, 2] && EmptyRanks(p, Answers(held, {2}), 3) == [2]
    ensures !TakenForHealthy(p, Answers(held, {2})) && Probed(p.Targets(), Answers(held, {0})) == Some(body)
  {
    hide Mds;
    hide Coded;
    var a := Answers(held, {2});
    assert EmptyAt(p, a, 2) && !EmptyAt(p, a, 1) && !EmptyAt(p, a, 0);
    hide EmptyAt;
    assert EmptyRanks(p, a, 0) == [];
    assert EmptyRanks(p, a, 1) == [];
    assert EmptyRanks(p, a, 2) == [];
    var b := Answers(held, {0});
    assert AtRank(p.Targets(), b, 0).None? && AtRank(p.Targets(), b, 1) == Some(body);
    hide EmptyRanks;
    assert FirstAnswer(p.Targets(), b, 0) == FirstAnswer(p.Targets(), b, 1);
  }

  // ----- where the body or the piece comes from

  /** The first shard off the targets that answers, from shard i on. */
  function FirstStray(targets: seq<nat>, answers: Held, i: nat): (b: Option<Bytes>)
    ensures b.None? <==> forall s :: i <= s < |answers| && s !in targets ==> answers[s].None?
    ensures b.Some? ==> exists s :: i <= s < |answers| && s !in targets && answers[s] == b
    decreases |answers| - i
  {
    if i >= |answers| then None
    else if i !in targets && answers[i].Some? then answers[i]
    else FirstStray(targets, answers, i + 1)
  }

  /** The first target that answers, by rank, else the first shard off the targets that does. */
  function Probed(targets: seq<nat>, answers: Held): (b: Option<Bytes>)
    ensures b.Some? ==> exists s :: 0 <= s < |answers| && answers[s] == b
    ensures b.None? ==> forall s :: 0 <= s < |answers| && s !in targets ==> answers[s].None?
  {
    var first := FirstAnswer(targets, answers, 0);
    if first < |targets| then AtRank(targets, answers, first) else FirstStray(targets, answers, 0)
  }
}
