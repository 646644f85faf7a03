/** What erasure repair does to a key's placement, write by write, and when it is safe. */
module PoolRepair {
  import opened Bytes
  import opened Pieces
  import opened Erasure
  import opened PoolRead
  import opened PoolWrite

  /** How many ranks have a piece of their own. */
  function Ranks(p: Pool): (n: nat)
    ensures n <= |p.Targets()| && n <= p.k + p.m
  {
    Min(|p.Targets()|, p.k + p.m)
  }

  /** Every rank below n whose shard takes writes has its own piece; nothing else changed. */
  function RepairTo(p: Pool, held: Held, pieces: seq<Bytes>, put: set<nat>, n: nat): (after: Held)
    ensures |after| == |held|
  {
    if n == 0 then held
    else
      var h := RepairTo(p, held, pieces, put, n - 1);
      RepairRank(p, h, pieces, put, n - 1)
  }

  function RepairRank(p: Pool, held: Held, pieces: seq<Bytes>, put: set<nat>, r: nat): (after: Held)
    ensures |after| == |held|
  {
    if r < |p.Targets()| && r < |pieces| && p.Targets()[r] < |held| && p.Targets()[r] !in put
    then held[p.Targets()[r] := Some(pieces[r])] else held
  }

  lemma RepairRankIs(p: Pool, held: Held, pieces: seq<Bytes>, put: set<nat>, r: nat, q: nat)
    requires p.Sound() && |held| == p.n && r < Ranks(p) && |pieces| == p.k + p.m
    ensures AtRank(p.Targets(), RepairRank(p, held, pieces, put, r), q)
            == if q == r && p.Targets()[q] !in put then Some(pieces[q]) else AtRank(p.Targets(), held, q)
  {
    TargetsDistinct(p);
    hide Pool.Targets;
    hide Mds;
  }

  /** Every rank below n has its own piece unless its shard fails writes, the other ranks are unchanged. */
  lemma {:induction false} RepairToRank(p: Pool, held: Held, pieces: seq<Bytes>, put: set<nat>, n: nat, q: nat)
    requires p.Sound() && |held| == p.n && n <= Ranks(p) && |pieces| == p.k + p.m
    ensures AtRank(p.Targets(), RepairTo(p, held, pieces, put, n), q)
            == if q < n && p.Targets()[q] !in put then Some(pieces[q]) else AtRank(p.Targets(), held, q)
  {
    hide Pool.Targets;
    hide Pool.Sound;
    hide RepairRank;
    if n > 0 {
      RepairToRank(p, held, pieces, put, n - 1, q);
      RepairRankIs(p, RepairTo(p, held, pieces, put, n - 1), pieces, put, n - 1, q);
    }
  }

  lemma {:induction false} RepairToStray(p: Pool, held: Held, pieces: seq<Bytes>, put: set<nat>, n: nat, s: nat)
    requires s < |held| && s !in p.Targets()
    ensures RepairTo(p, held, pieces, put, n)[s] == held[s]
  {
    hide Pool.Targets;
    if n > 0 { RepairToStray(p, held, pieces, put, n - 1, s); }
  }

  lemma RankOf(p: Pool, s: nat) returns (r: nat)
    requires s in p.Targets()
    ensures r < |p.Targets()| && p.Targets()[r] == s
  {
    r :| 0 <= r < |p.Targets()| && p.Targets()[r] == s;
  }

  /** Every reachable piece is at its own rank or on some shard that repair does not write. */
  ghost predicate Anchored(p: Pool, held: Held, pieces: seq<Bytes>) {
    forall j :: j in Reachable(held, pieces) ==> Own(p, held, pieces, j) || OnStray(p, held, pieces, j)
  }

  ghost predicate OnStray(p: Pool, held: Held, pieces: seq<Bytes>, j: nat) {
    exists s: nat :: s !in p.Targets() && Has(held, pieces, s, j)
  }

  /** From an anchored placement repair never makes a piece unreachable, however far it gets. */
  lemma AnchoredKeeps(p: Pool, held: Held, pieces: seq<Bytes>, put: set<nat>, n: nat)
    requires p.Sound() && |held| == p.n && n <= Ranks(p) && |pieces| == p.k + p.m && Anchored(p, held, pieces)
    ensures Reachable(held, pieces) <= Reachable(RepairTo(p, held, pieces, put, n), pieces)
  {
    hide Pool.Targets;
    hide Pool.Sound;
    hide RepairTo;
    var after := RepairTo(p, held, pieces, put, n);
    forall j | j in Reachable(held, pieces) ensures j in Reachable(after, pieces) {
      if Own(p, held, pieces, j) {
        RepairToRank(p, held, pieces, put, n, j);
        ReachableFrom(after, pieces, p.Targets()[j], j);
      } else {
        var s: nat :| s !in p.Targets() && Has(held, pieces, s, j);
        RepairToStray(p, held, pieces, put, n, s);
        ReachableFrom(after, pieces, s, j);
      }
    }
  }

  /** A shard on a target rank other than j, or on rank j without piece j, does not have piece j after a failing write there. */
  lemma RankWithout(p: Pool, body: Bytes, pieces: seq<Bytes>, held: Held, j: nat, r: nat)
    requires p.Sound() && Coded(p, body, pieces) && |held| == p.n && |p.Targets()| == p.k + p.m
    requires j < |pieces| && r < |p.Targets()| && !Own(p, held, pieces, j)
    ensures AtRank(p.Targets(), RepairTo(p, held, pieces, {p.Targets()[j]}, p.k + p.m), r) != Some(pieces[j])
  {
    hide RepairTo;
    hide Pool.Targets;
    hide Mds;
    hide Coded;
    CodedLength(p, body, pieces);
    var put := {p.Targets()[j]};
    RepairToRank(p, held, pieces, put, p.k + p.m, r);
    if r != j {
      TargetsDistinct(p);
      PiecesDiffer(p, body, pieces, r, j);
    }
  }

  /** A piece that is not anchored is lost when only the write to its own rank fails. */
  lemma NotAnchoredLoses(p: Pool, body: Bytes, pieces: seq<Bytes>, held: Held, j: nat)
    requires p.Sound() && Coded(p, body, pieces) && |held| == p.n && |p.Targets()| == p.k + p.m
    requires j < |pieces| && !Own(p, held, pieces, j) && !OnStray(p, held, pieces, j)
    ensures j !in Reachable(RepairTo(p, held, pieces, {p.Targets()[j]}, p.k + p.m), pieces)
  {
    hide RepairTo;
    hide Pool.Targets;
    hide Mds;
    hide Coded;
    hide Reachable;
    hide Own;
    CodedLength(p, body, pieces);
    var after := RepairTo(p, held, pieces, {p.Targets()[j]}, p.k + p.m);
    if j in Reachable(after, pieces) {
      var s := ReachableHas(after, pieces, j);
      if s in p.Targets() {
        var r := RankOf(p, s);
        RankWithout(p, body, pieces, held, j, r);
      } else {
        RepairToStray(p, held, pieces, {p.Targets()[j]}, p.k + p.m, s);
      }
    }
  }

  /** Repair of all ranks, with writes to the given shards failing, leaves every piece reachable that was. */
  ghost predicate LosesNothing(p: Pool, held: Held, pieces: seq<Bytes>, put: set<nat>) {
    Reachable(held, pieces) <= Reachable(RepairTo(p, held, pieces, put, p.k + p.m), pieces)
  }

  /**
   Repair writes the rebuilt pieces in rank order over whatever the ranks hold. Whichever of its writes fail, no piece
   becomes unreachable, exactly when each was at its own rank or off the targets to begin with.
   */
  lemma RepairSafeWhenAnchored(p: Pool, body: Bytes, pieces: seq<Bytes>, held: Held)
    requires p.Sound() && Coded(p, body, pieces) && |held| == p.n && |p.Targets()| == p.k + p.m
    ensures (forall put :: LosesNothing(p, held, pieces, put)) <==> Anchored(p, held, pieces)
  {
    hide Pool.Targets;
    hide Mds;
    hide RepairTo;
    hide Own;
    hide OnStray;
    hide Reachable;
    assert |pieces| == p.k + p.m;
    hide Coded;
    if Anchored(p, held, pieces) {
      forall put ensures LosesNothing(p, held, pieces, put) { AnchoredKeeps(p, held, pieces, put, p.k + p.m); }
    } else {
      var j: nat :| j in Reachable(held, pieces) && !(Own(p, held, pieces, j) || OnStray(p, held, pieces, j));
      var s := ReachableHas(held, pieces, j);
      NotAnchoredLoses(p, body, pieces, held, j);
      assert !LosesNothing(p, held, pieces, {p.Targets()[j]});
    }
  }

  lemma CanonicalAnchored(p: Pool, body: Bytes, pieces: seq<Bytes>, held: Held)
    requires p.Sound() && Coded(p, body, pieces) && Canonical(p, held, body, pieces)
    ensures Anchored(p, held, pieces)
  {
    hide Pool.Targets;
    hide Mds;
    forall j | j in Reachable(held, pieces) && !OnStray(p, held, pieces, j) ensures Own(p, held, pieces, j) {
      var s := ReachableHas(held, pieces, j);
      OwnRank(p, body, pieces, held, s, j);
    }
  }

  lemma RepairCanonical(p: Pool, body: Bytes, pieces: seq<Bytes>, held: Held, put: set<nat>, n: nat)
    requires p.Sound() && Coded(p, body, pieces) && Canonical(p, held, body, pieces) && n <= Ranks(p) && |pieces| == p.k + p.m
    ensures Canonical(p, RepairTo(p, held, pieces, put, n), body, pieces)
  {
    hide RepairTo;
    hide Pool.Targets;
    hide Mds;
    var after := RepairTo(p, held, pieces, put, n);
    hide Coded;
    forall r | 0 <= r < |p.Targets()|
      ensures var c := AtRank(p.Targets(), after, r); c.None? || c.value == body || (r < |pieces| && c.value == pieces[r])
    {
      RepairToRank(p, held, pieces, put, n, r);
    }
    forall s | 0 <= s < p.n ensures Genuine(after[s], body, pieces) {
      assert Genuine(held[s], body, pieces);
      if s in p.Targets() { var r := RankOf(p, s); RepairToRank(p, held, pieces, put, n, r); }
      else { RepairToStray(p, held, pieces, put, n, s); }
    }
  }

  /** A readable key in canonical placement stays readable after every write of its repair. */
  lemma RepairKeepsReadable(p: Pool, body: Bytes, pieces: seq<Bytes>, held: Held, put: set<nat>, n: nat)
    requires p.Sound() && Coded(p, body, pieces) && Canonical(p, held, body, pieces) && n <= Ranks(p)
    requires |Reachable(held, pieces)| >= p.k
    ensures GetEcAware(p, RepairTo(p, held, pieces, put, n)) == Ok(body)
  {
    TargetsDistinct(p);
    CodedLength(p, body, pieces);
    hide GetEcAware;
    hide Pool.Targets;
    hide Mds;
    hide RepairTo;
    hide Reachable;
    hide Coded;
    hide Canonical;
    var after := RepairTo(p, held, pieces, put, n);
    CanonicalAnchored(p, body, pieces, held);
    assert |held| == p.n by { CanonicalLength(p, body, pieces, held); }
    AnchoredKeeps(p, held, pieces, put, n);
    SubsetSize(Reachable(held, pieces), Reachable(after, pieces));
    RepairCanonical(p, body, pieces, held, put, n);
    GetExact(p, body, pieces, after);
  }

  lemma CanonicalLength(p: Pool, body: Bytes, pieces: seq<Bytes>, held: Held)
    requires Canonical(p, held, body, pieces)
    ensures |held| == p.n
  {
  }

  /** Pieces 0 and 1 of a 2 + 1 code on each other's shards: after the first write only one piece is left anywhere. */
  lemma SwappedPiecesLost(p: Pool, body: Bytes, pieces: seq<Bytes>)
    requires p.Sound() && Coded(p, body, pieces) && p.k == 2 && p.m == 1 && p.n == 3 && p.ranking == [0, 1, 2] && p.width == 3
    ensures var held := [Some(pieces[1]), Some(pieces[0]), None];
      && |Reachable(held, pieces)| == 2 == p.k
      && Reachable(RepairTo(p, held, pieces, {1, 2}, 3), pieces) == {0}
  {
    var held := [Some(pieces[1]), Some(pieces[0]), None];
    PiecesDiffer(p, body, pieces, 0, 1);
    PiecesDiffer(p, body, pieces, 0, 2);
    PiecesDiffer(p, body, pieces, 1, 2);
    hide Mds;
    hide Coded;
    hide Reachable;
    assert p.Targets() == [0, 1, 2];
    SwappedRepair(p, pieces, held);
    hide RepairTo;
    TwoHeld(pieces, held);
    OneHeld(pieces, [Some(pieces[0]), Some(pieces[0]), None]);
  }

  lemma SwappedRepair(p: Pool, pieces: seq<Bytes>, held: Held)
    requires p.Targets() == [0, 1, 2] && |pieces| == 3 && held == [Some(pieces[1]), Some(pieces[0]), None]
    ensures RepairTo(p, held, pieces, {1, 2}, 3) == [Some(pieces[0]), Some(pieces[0]), None]
  {
    hide Pool.Targets;
    var after := [Some(pieces[0]), Some(pieces[0]), None];
    assert RepairTo(p, held, pieces, {1, 2}, 0) == held;
    assert RepairTo(p, held, pieces, {1, 2}, 1) == after;
    assert RepairTo(p, held, pieces, {1, 2}, 2) == after;
  }

  lemma TwoHeld(pieces: seq<Bytes>, held: Held)
    requires |pieces| == 3 && held == [Some(pieces[1]), Some(pieces[0]), None]
    requires pieces[0] != pieces[1] && pieces[0] != pieces[2] && pieces[1] != pieces[2]
    ensures |Reachable(held, pieces)| == 2
  {
    ReachableFrom(held, pieces, 0, 1);
    ReachableFrom(held, pieces, 1, 0);
    forall j | j in Reachable(held, pieces) ensures j in {0, 1} { var s := ReachableHas(held, pieces, j); }
    assert Reachable(held, pieces) == {0, 1};
  }

  lemma OneHeld(pieces: seq<Bytes>, held: Held)
    requires |pieces| == 3 && held == [Some(pieces[0]), Some(pieces[0]), None]
    requires pieces[0] != pieces[1] && pieces[0] != pieces[2]
    ensures Reachable(held, pieces) == {0}
  {
    ReachableFrom(held, pieces, 0, 0);
    forall j | j in Reachable(held, pieces) ensures j in {0} { var s := ReachableHas(held, pieces, j); }
  }

  // ----- gathering

  /** The slots filled from the first r ranks: genuine pieces, among them everything those ranks answer. */
  ghost predicate RanksGathered(p: Pool, answers: Held, pieces: seq<Bytes>, r: nat, slots: Slots) {
    && Agrees(slots, pieces) && FilledSet(slots) <= Reachable(answers, pieces)
    && forall q, j :: 0 <= q < r && 0 <= j < |pieces| && AtRank(p.Targets(), answers, q) == Some(pieces[j]) ==> j in FilledSet(slots)
  }

  lemma GatherRank(p: Pool, body: Bytes, pieces: seq<Bytes>, answers: Held, r: nat, slots: Slots)
    requires p.Sound() && Coded(p, body, pieces) && AllGenuine(answers, body, pieces) && |answers| == p.n
    requires RanksGathered(p, answers, pieces, r, slots) && r < |p.Targets()|
    ensures RanksGathered(p, answers, pieces, r + 1, Store(slots, AtRank(p.Targets(), answers, r)))
  {
    TargetsDistinct(p);
    hide Pool.Targets;
    hide Mds;
    var s := p.Targets()[r];
    assert Genuine(answers[s], body, pieces);
    StoreGenuine(p, body, pieces, slots, answers[s]);
    hide Store;
    hide Coded;
    forall j | j in FilledSet(Store(slots, answers[s])) ensures j in Reachable(answers, pieces) {
      if j !in FilledSet(slots) { ReachableFrom(answers, pieces, s, j); }
    }
  }

  /** After the ranks and, if they were too few, the strays, the slots hold enough pieces exactly when enough are reachable. */
  lemma GatherAll(p: Pool, body: Bytes, pieces: seq<Bytes>, answers: Held, slots: Slots, all: Slots)
    requires p.Sound() && Coded(p, body, pieces) && AllGenuine(answers, body, pieces) && |answers| == p.n
    requires RanksGathered(p, answers, pieces, |p.Targets()|, slots)
    requires all == if Present(slots) < p.k then ScanStrays(p.Targets(), answers, 0, slots) else slots
    ensures Agrees(all, pieces) && (Present(all) >= p.k <==> |Reachable(answers, pieces)| >= p.k)
  {
    hide Pool.Targets;
    hide Mds;
    FilledCount(all);
    if Present(slots) < p.k {
      StraysFill(p, body, pieces, answers, 0, slots);
      hide Coded;
      hide Reachable;
      forall j | j in Reachable(answers, pieces) ensures j in FilledSet(all) {
        var s := ReachableHas(answers, pieces, j);
        if s in p.Targets() {
          var r := RankOf(p, s);
          assert AtRank(p.Targets(), answers, r) == Some(pieces[j]);
        }
      }
      assert FilledSet(all) == Reachable(answers, pieces);
    } else {
      SubsetSize(FilledSet(all), Reachable(answers, pieces));
    }
  }

  lemma GatherNone(p: Pool, answers: Held, pieces: seq<Bytes>)
    ensures RanksGathered(p, answers, pieces, 0, Empty(|pieces|))
  {
  }

  /** An answer counts as rank r's own piece by its header alone. */
  lemma HeaderTells(p: Pool, body: Bytes, pieces: seq<Bytes>, answer: Option<Bytes>, r: nat)
    requires Coded(p, body, pieces) && Genuine(answer, body, pieces) && r < |pieces|
    ensures IsOwnPiece(answer, r) <==> answer == Some(pieces[r])
  {
    hide ParsePieceHeader;
    hide Decode;
    assert IsPiece(pieces[r], p.k, p.m, r, |body|);
    if answer.Some? && answer.value != body {
      var j :| 0 <= j < |pieces| && answer.value == pieces[j];
      assert IsPiece(pieces[j], p.k, p.m, j, |body|);
    }
  }

  predicate IsOwnPiece(answer: Option<Bytes>, r: nat) {
    answer.Some? && ParsePieceHeader(answer.value).Some? && ParsePieceHeader(answer.value).value.pieceIdx == r
  }

  /** A rank that has its own piece is repaired by doing nothing. */
  lemma RepairOwn(p: Pool, held: Held, pieces: seq<Bytes>, put: set<nat>, r: nat)
    requires Own(p, RepairTo(p, held, pieces, put, r), pieces, r)
    ensures RepairTo(p, held, pieces, put, r + 1) == RepairTo(p, held, pieces, put, r)
  {
    hide Pool.Targets;
  }

  lemma {:induction false} RepairOwnAll(p: Pool, held: Held, pieces: seq<Bytes>, put: set<nat>, n: nat)
    requires forall r :: 0 <= r < n ==> Own(p, held, pieces, r)
    ensures RepairTo(p, held, pieces, put, n) == held
  {
    hide Own;
    if n > 0 { RepairOwnAll(p, held, pieces, put, n - 1); RepairOwn(p, held, pieces, put, n - 1); }
  }

  lemma {:induction false} RepairOwnRange(p: Pool, held: Held, pieces: seq<Bytes>, put: set<nat>, a: nat, b: nat)
    requires p.Sound() && |held| == p.n && a <= b <= Ranks(p) && |pieces| == p.k + p.m
    requires forall r :: a <= r < b ==> Own(p, held, pieces, r)
    ensures RepairTo(p, held, pieces, put, b) == RepairTo(p, held, pieces, put, a)
  {
    hide Pool.Targets;
    hide Pool.Sound;
    hide RepairTo;
    if a < b {
      RepairOwnRange(p, held, pieces, put, a, b - 1);
      assert Own(p, held, pieces, b - 1);
      RepairToRank(p, held, pieces, put, b - 1, b - 1);
      RepairOwn(p, held, pieces, put, b - 1);
    }
  }

  /** missing lists the ranks below n that do not answer with their own pieces. */
  ghost predicate Missing(p: Pool, answers: Held, pieces: seq<Bytes>, missing: seq<nat>, n: nat) {
    && (forall i, j :: 0 <= i < j < |missing| ==> missing[i] < missing[j])
    && (forall i :: 0 <= i < |missing| ==> missing[i] < n)
    && (forall r :: 0 <= r < n ==> (r in missing <==> !Own(p, answers, pieces, r)))
  }

  lemma MissingStep(p: Pool, answers: Held, pieces: seq<Bytes>, missing: seq<nat>, n: nat)
    requires Missing(p, answers, pieces, missing, n)
    ensures Missing(p, answers, pieces, if Own(p, answers, pieces, n) then missing else missing + [n], n + 1)
  {
    hide Own;
    if !Own(p, answers, pieces, n) {
      var more := missing + [n];
      forall r | 0 <= r < n + 1 ensures r in more <==> !Own(p, answers, pieces, r) {
        if r < n { assert r in more <==> r in missing; }
      }
    }
  }

  /** A rank that answers with its own piece holds it. */
  lemma AnsweredIsHeld(p: Pool, held: Held, pieces: seq<Bytes>, down: set<nat>, r: nat)
    requires Own(p, Answers(held, down), pieces, r)
    ensures Own(p, held, pieces, r)
  {
  }

  /** The rank after the i-th missing one begins the next run of ranks that need nothing. */
  function After(missing: seq<nat>, i: nat): nat
    requires i <= |missing|
  {
    if i == 0 then 0 else missing[i - 1] + 1
  }

  /** Between two missing ranks every rank holds its own piece. */
  lemma MissingGap(p: Pool, held: Held, pieces: seq<Bytes>, put: set<nat>, down: set<nat>, missing: seq<nat>, n: nat, i: nat)
    requires p.Sound() && |held| == p.n && n <= Ranks(p) && |pieces| == p.k + p.m && i <= |missing|
    requires Missing(p, Answers(held, down), pieces, missing, n)
    ensures var to := if i < |missing| then missing[i] else n;
      After(missing, i) <= to <= n && RepairTo(p, held, pieces, put, to) == RepairTo(p, held, pieces, put, After(missing, i))
  {
    hide Own;
    hide Pool.Targets;
    hide Pool.Sound;
    hide RepairTo;
    var to := if i < |missing| then missing[i] else n;
    forall r | After(missing, i) <= r < to ensures Own(p, held, pieces, r) {
      assert r !in missing;
      AnsweredIsHeld(p, held, pieces, down, r);
    }
    RepairOwnRange(p, held, pieces, put, After(missing, i), to);
  }

  lemma SeenGenuine(held: Held, down: set<nat>, body: Bytes, pieces: seq<Bytes>)
    requires AllGenuine(held, body, pieces)
    ensures AllGenuine(Answers(held, down), body, pieces)
  {
    forall s | 0 <= s < |held| ensures Genuine(Answers(held, down)[s], body, pieces) { assert Genuine(held[s], body, pieces); }
  }

  lemma RepairZero(p: Pool, held: Held, pieces: seq<Bytes>, put: set<nat>)
    ensures RepairTo(p, held, pieces, put, 0) == held
  {
  }

  /** Nothing is missing exactly when every rank answers with its own piece; then enough pieces are reachable. */
  lemma NoneMissing(p: Pool, answers: Held, pieces: seq<Bytes>, missing: seq<nat>, n: nat)
    requires Missing(p, answers, pieces, missing, n)
    ensures missing == [] <==> forall r :: 0 <= r < n ==> Own(p, answers, pieces, r)
    ensures missing == [] ==> |Reachable(answers, pieces)| >= n
  {
    hide Own;
    hide Reachable;
    if missing == [] {
      forall r | 0 <= r < n ensures Own(p, answers, pieces, r) { assert r !in missing; }
      forall r | r in Range(0, n) ensures r in Reachable(answers, pieces) { OwnReachable(p, answers, pieces, r); }
      SubsetSize(Range(0, n), Reachable(answers, pieces));
    } else {
      assert missing[0] in missing;
    }
  }

  lemma NothingToRepair(p: Pool, held: Held, pieces: seq<Bytes>, put: set<nat>, down: set<nat>, n: nat)
    requires forall r :: 0 <= r < n ==> Own(p, Answers(held, down), pieces, r)
    ensures RepairTo(p, held, pieces, put, n) == held
  {
    forall r | 0 <= r < n ensures Own(p, held, pieces, r) { AnsweredIsHeld(p, held, pieces, down, r); }
    RepairOwnAll(p, held, pieces, put, n);
  }

  /** From enough pieces the rebuilt ones are the originals. */
  lemma RebuiltIs(p: Pool, body: Bytes, slots: Slots)
    requires p.Sound()
    requires var pieces := EcEncode(p.rs, body, p.k, p.m); Coded(p, body, pieces) && Agrees(slots, pieces) && Present(slots) >= p.k
    ensures EcRepairPieces(p.rs, slots, p.k, p.m) == Ok(EcEncode(p.rs, body, p.k, p.m))
  {
    hide Decode;
    hide EcEncode;
    hide Mds;
  }

  lemma RebuiltCount(p: Pool, slots: Slots)
    requires p.Sound()
    ensures EcRepairPieces(p.rs, slots, p.k, p.m).Ok? ==> |EcRepairPieces(p.rs, slots, p.k, p.m).value| == p.k + p.m
  {
    hide Mds;
    hide Decode;
    hide EcEncode;
    match Decode(p.rs, slots, p.k, p.m)
    case Ok(b) => EncodeShape(p.rs, b, p.k, p.m);
    case Err(_) =>
  }

  lemma LeftMeans(p: Pool, answers: Held, pieces: seq<Bytes>, missing: seq<nat>, put: set<nat>)
    requires Missing(p, answers, pieces, missing, Ranks(p))
    ensures (forall i :: 0 <= i < |missing| ==> p.Targets()[missing[i]] !in put)
      <==> forall r :: 0 <= r < Ranks(p) ==> Own(p, answers, pieces, r) || p.Targets()[r] !in put
  {
    hide Own;
    hide Pool.Targets;
    if forall i :: 0 <= i < |missing| ==> p.Targets()[missing[i]] !in put {
      forall r | 0 <= r < Ranks(p) && !Own(p, answers, pieces, r) ensures p.Targets()[r] !in put { assert r in missing; }
    }
    if forall r :: 0 <= r < Ranks(p) ==> Own(p, answers, pieces, r) || p.Targets()[r] !in put {
      forall i | 0 <= i < |missing| ensures p.Targets()[missing[i]] !in put { assert missing[i] in missing; }
    }
  }

  /** When no write was left over, every rank ends with its own piece. */
  lemma RepairedFully(p: Pool, held: Held, pieces: seq<Bytes>, put: set<nat>, down: set<nat>)
    requires p.Sound() && |held| == p.n && |pieces| == p.k + p.m
    requires forall r :: 0 <= r < Ranks(p) ==> Own(p, Answers(held, down), pieces, r) || p.Targets()[r] !in put
    ensures forall r :: 0 <= r < Ranks(p) ==> Own(p, RepairTo(p, held, pieces, put, Ranks(p)), pieces, r)
  {
    hide Pool.Targets;
    hide Pool.Sound;
    hide RepairTo;
    forall r | 0 <= r < Ranks(p) ensures Own(p, RepairTo(p, held, pieces, put, Ranks(p)), pieces, r) {
      RepairToRank(p, held, pieces, put, Ranks(p), r);
      if Own(p, Answers(held, down), pieces, r) { AnsweredIsHeld(p, held, pieces, down, r); }
    }
  }

  // ----- the answers a repair asks for

  /** The shards of target ranks beyond the pieces, which a repair does not ask. */
  ghost function LateShards(p: Pool): set<nat> { set r | r in Range(p.k + p.m, |p.Targets()|) :: p.Targets()[r] }

  lemma AskedAt(p: Pool, held: Held, down: set<nat>, r: nat)
    requires p.Sound()
    ensures AtRank(p.Targets(), Answers(held, down + LateShards(p)), r)
            == if r < p.k + p.m then AtRank(p.Targets(), Answers(held, down), r) else None
  {
    TargetsDistinct(p);
    hide Pool.Targets;
    hide Mds;
    if r < |p.Targets()| {
      if r >= p.k + p.m { assert p.Targets()[r] in LateShards(p); }
    }
  }

  lemma {:induction false} StraysSame(targets: seq<nat>, a: Held, b: Held, i: nat, slots: Slots)
    requires |a| == |b| && forall s :: 0 <= s < |a| && s !in targets ==> a[s] == b[s]
    ensures ScanStrays(targets, a, i, slots) == ScanStrays(targets, b, i, slots)
    decreases |a| - i
  {
    hide Store;
    if i < |a| { StraysSame(targets, a, b, i + 1, if i in targets then slots else Store(slots, a[i])); }
  }

  lemma AskedStrays(p: Pool, held: Held, down: set<nat>, slots: Slots)
    ensures ScanStrays(p.Targets(), Answers(held, down + LateShards(p)), 0, slots) == ScanStrays(p.Targets(), Answers(held, down), 0, slots)
  {
    hide Pool.Targets;
    forall s | 0 <= s < |held| && s !in p.Targets() ensures s !in LateShards(p) {}
    StraysSame(p.Targets(), Answers(held, down + LateShards(p)), Answers(held, down), 0, slots);
  }

  /** What the ranks with a piece answered is what all ranks answered. */
  lemma LateGathered(p: Pool, held: Held, down: set<nat>, pieces: seq<Bytes>, slots: Slots)
    requires p.Sound() && |pieces| == p.k + p.m
    requires RanksGathered(p, Answers(held, down + LateShards(p)), pieces, Ranks(p), slots)
    ensures RanksGathered(p, Answers(held, down + LateShards(p)), pieces, |p.Targets()|, slots)
  {
    hide Pool.Targets;
    hide Mds;
    hide Reachable;
    forall q: nat | q >= Ranks(p) ensures AtRank(p.Targets(), Answers(held, down + LateShards(p)), q) == None {
      AskedAt(p, held, down, q);
    }
  }

  /** Under a code at least as wide as the probed ranks a repair asks every shard. */
  lemma AllAsked(p: Pool, held: Held, down: set<nat>)
    requires |p.Targets()| <= p.k + p.m
    ensures Answers(held, down + LateShards(p)) == Answers(held, down)
  {
    hide Pool.Targets;
  }

  // ----- how many writes

  /** The first i missing ranks whose shards take writes. */
  function Writable(p: Pool, missing: seq<nat>, put: set<nat>, i: nat): nat
    requires i <= |missing| && forall j :: 0 <= j < i ==> missing[j] < |p.Targets()|
  {
    if i == 0 then 0 else Writable(p, missing, put, i - 1) + (if p.Targets()[missing[i - 1]] !in put then 1 else 0)
  }

  /** The ranks below n that do not answer with their own piece, on shards that take writes or do not. */
  ghost function Gaps(p: Pool, answers: Held, pieces: seq<Bytes>, n: nat, put: set<nat>, takes: bool): set<nat> {
    set r | r in Range(0, n) && !Own(p, answers, pieces, r) && r < |p.Targets()| && (p.Targets()[r] !in put) == takes
  }

  lemma GapCounts(p: Pool, answers: Held, pieces: seq<Bytes>, missing: seq<nat>, n: nat, put: set<nat>)
    requires Missing(p, answers, pieces, missing, n) && n <= |p.Targets()|
    ensures Writable(p, missing, put, |missing|) == |Gaps(p, answers, pieces, n, put, true)|
    ensures |missing| - Writable(p, missing, put, |missing|) == |Gaps(p, answers, pieces, n, put, false)|
  {
    hide Pool.Targets;
    hide Own;
    FirstsCount(p, missing, put, |missing|);
    forall takes, r ensures r in Firsts(p, missing, put, |missing|, takes) <==> r in Gaps(p, answers, pieces, n, put, takes) {
      FirstsIs(p, missing, put, |missing|, takes, r);
    }
    assert Firsts(p, missing, put, |missing|, true) == Gaps(p, answers, pieces, n, put, true);
    assert Firsts(p, missing, put, |missing|, false) == Gaps(p, answers, pieces, n, put, false);
  }

  /** The first i missing ranks that do, or do not, take writes. */
  ghost function Firsts(p: Pool, missing: seq<nat>, put: set<nat>, i: nat, takes: bool): set<nat>
    requires i <= |missing| && forall j :: 0 <= j < i ==> missing[j] < |p.Targets()|
  {
    if i == 0 then {}
    else Firsts(p, missing, put, i - 1, takes) + (if (p.Targets()[missing[i - 1]] !in put) == takes then {missing[i - 1]} else {})
  }

  lemma {:induction false} FirstsIs(p: Pool, missing: seq<nat>, put: set<nat>, i: nat, takes: bool, r: nat)
    requires i <= |missing| && forall j :: 0 <= j < i ==> missing[j] < |p.Targets()|
    ensures r in Firsts(p, missing, put, i, takes) <==> r in missing[..i] && (p.Targets()[r] !in put) == takes
  {
    hide Pool.Targets;
    if i > 0 {
      FirstsIs(p, missing, put, i - 1, takes, r);
      assert missing[..i] == missing[..i - 1] + [missing[i - 1]];
    }
  }

  lemma {:induction false} FirstsCount(p: Pool, missing: seq<nat>, put: set<nat>, i: nat)
    requires i <= |missing| && forall j :: 0 <= j < i ==> missing[j] < |p.Targets()|
    requires forall j, l :: 0 <= j < l < |missing| ==> missing[j] < missing[l]
    ensures |Firsts(p, missing, put, i, true)| == Writable(p, missing, put, i)
    ensures |Firsts(p, missing, put, i, false)| == i - Writable(p, missing, put, i)
  {
    hide Pool.Targets;
    if i > 0 {
      hide Firsts;
      FirstsCount(p, missing, put, i - 1);
      FirstsStep(p, missing, put, i);
    }
  }

  lemma FirstsStep(p: Pool, missing: seq<nat>, put: set<nat>, i: nat)
    requires 0 < i <= |missing| && forall j :: 0 <= j < i ==> missing[j] < |p.Targets()|
    requires forall j, l :: 0 <= j < l < |missing| ==> missing[j] < missing[l]
    ensures var takes := p.Targets()[missing[i - 1]] !in put;
      && |Firsts(p, missing, put, i, takes)| == |Firsts(p, missing, put, i - 1, takes)| + 1
      && |Firsts(p, missing, put, i, !takes)| == |Firsts(p, missing, put, i - 1, !takes)|
  {
    hide Pool.Targets;
    hide Firsts;
    var r := missing[i - 1];
    assert r !in missing[..i - 1];
    FirstsIs(p, missing, put, i - 1, p.Targets()[r] !in put, r);
    AddsOne(Firsts(p, missing, put, i - 1, p.Targets()[r] !in put), r);
    AddsNone(p, missing, put, i);
  }

  lemma AddsOne(s: set<nat>, r: nat)
    requires r !in s
    ensures |s + {r}| == |s| + 1
  {
  }

  lemma AddsNone(p: Pool, missing: seq<nat>, put: set<nat>, i: nat)
    requires 0 < i <= |missing| && forall j :: 0 <= j < i ==> missing[j] < |p.Targets()|
    ensures var takes, r := p.Targets()[missing[i - 1]] !in put, missing[i - 1];
      && Firsts(p, missing, put, i, takes) == Firsts(p, missing, put, i - 1, takes) + {r}
      && Firsts(p, missing, put, i, !takes) == Firsts(p, missing, put, i - 1, !takes)
  {
    hide Pool.Targets;
  }

  lemma SeenReachable(held: Held, down: set<nat>, pieces: seq<Bytes>)
    ensures |Reachable(Answers(held, down), pieces)| <= |Reachable(held, pieces)|
  {
    forall j | j in Reachable(Answers(held, down), pieces) ensures j in Reachable(held, pieces) {
      var s := ReachableHas(Answers(held, down), pieces, j);
      ReachableFrom(held, pieces, s, j);
    }
    SubsetSize(Reachable(Answers(held, down), pieces), Reachable(held, pieces));
  }

  // ----- when repair does not look further

  /** The ranks below n that hold nothing. */
  function EmptyRanks(p: Pool, held: Held, n: nat): (e: seq<nat>)
    ensures |e| <= n && (forall i :: 0 <= i < |e| ==> e[i] < n)
    ensures forall r: nat :: r in e <==> r < n && EmptyAt(p, held, r)
  {
    if n == 0 then []
    else if EmptyAt(p, held, n - 1) then EmptyRanks(p, held, n - 1) + [n - 1]
    else EmptyRanks(p, held, n - 1)
  }

  lemma EmptyStep(p: Pool, held: Held, n: nat)
    ensures EmptyRanks(p, held, n + 1) == EmptyRanks(p, held, n) + (if EmptyAt(p, held, n) then [n] else [])
  {
    hide EmptyAt;
  }

  /** Repair takes a key for healthy if no rank is empty, or as many as the tail has are and none of them is a leg. */
  predicate TakenForHealthy(p: Pool, held: Held) {
    var e := EmptyRanks(p, held, Ranks(p));
    var legs := if p.r < |p.Targets()| then p.r else |p.Targets()|;
    e == [] || ((forall r :: r in e ==> r >= legs) && |e| == (if p.k + p.m > legs then p.k + p.m - legs else 0))
  }

  lemma {:induction false} EmptyAboveAll(p: Pool, held: Held, n: nat, from: nat)
    requires forall r :: r in EmptyRanks(p, held, n) ==> r >= from
    ensures if from < n then |EmptyRanks(p, held, n)| <= n - from else EmptyRanks(p, held, n) == []
    ensures from <= n ==> (|EmptyRanks(p, held, n)| == n - from <==> forall r: nat :: from <= r < n ==> EmptyAt(p, held, r))
    decreases n
  {
    hide EmptyAt;
    if n > 0 {
      var e, front := EmptyRanks(p, held, n), EmptyRanks(p, held, n - 1);
      var last := if EmptyAt(p, held, n - 1) then [n - 1] else [];
      assert e == front + last;
      hide EmptyRanks;
      AllFrom(front, last, from);
      EmptyAboveAll(p, held, n - 1, from);
    }
  }

  lemma AllFrom(a: seq<nat>, b: seq<nat>, from: nat)
    requires forall r :: r in a + b ==> r >= from
    ensures (forall r :: r in a ==> r >= from) && (b != [] ==> b[0] >= from)
  {
    forall r | r in a ensures r >= from { assert r in a + b; }
    if b != [] { assert b[0] in a + b; }
  }

  lemma NoneEmpty(p: Pool, held: Held, n: nat)
    ensures EmptyRanks(p, held, n) == [] <==> forall r: nat :: r < n ==> !EmptyAt(p, held, r)
  {
    hide EmptyAt;
    var e := EmptyRanks(p, held, n);
    if e != [] { assert e[0] in e; }
    hide EmptyRanks;
  }

  /** The empty ranks are those from the legs on, all of them. */
  lemma TailEmpty(p: Pool, held: Held, n: nat, legs: nat)
    requires legs <= n
    ensures var e := EmptyRanks(p, held, n);
      (forall r :: r in e ==> r >= legs) && |e| == n - legs
      <==> (forall r: nat :: r < legs ==> !EmptyAt(p, held, r)) && (forall r: nat :: legs <= r < n ==> EmptyAt(p, held, r))
  {
    hide EmptyAt;
    var e := EmptyRanks(p, held, n);
    if forall r :: r in e ==> r >= legs { EmptyAboveAll(p, held, n, legs); }
    hide EmptyRanks;
  }

  /** That is: every rank holds something, or every leg does and no tail rank does, as a mirrored key looks. */
  lemma HealthyMeans(p: Pool, held: Held)
    requires p.Valid()
    ensures TakenForHealthy(p, held) <==>
      || (forall r: nat :: r < |p.Targets()| ==> !EmptyAt(p, held, r))
      || (|p.Targets()| == p.k + p.m
          && (forall r: nat :: r < p.r ==> !EmptyAt(p, held, r)) && (forall r: nat :: p.r <= r < p.k + p.m ==> EmptyAt(p, held, r)))
  {
    hide EmptyAt;
    hide EmptyRanks;
    hide Mds;
    var n := Ranks(p);
    assert n == |p.Targets()|;
    hide Pool.Targets;
    NoneEmpty(p, held, n);
    var legs := Min(p.r, n);
    TailEmpty(p, held, n, legs);
    if forall r :: r in EmptyRanks(p, held, n) ==> r >= legs { EmptyAboveAll(p, held, n, legs); }
  }

  /** An erasure-coded key that has lost exactly its tail looks like a mirror, so repair leaves it although it could rebuild it. */
  lemma TailLossIgnored(p: Pool, body: Bytes, pieces: seq<Bytes>, held: Held)
    requires p.Valid() && Coded(p, body, pieces) && |held| == p.n && |p.Targets()| == p.k + p.m && p.k <= p.r < p.k + p.m
    requires (forall r :: 0 <= r < p.r ==> Own(p, held, pieces, r)) && (forall r :: p.r <= r < p.k + p.m ==> EmptyAt(p, held, r))
    ensures TakenForHealthy(p, held) && |Reachable(held, pieces)| >= p.k && !Own(p, held, pieces, p.r)
  {
    hide Pool.Targets;
    hide Mds;
    hide Reachable;
    hide TakenForHealthy;
    hide Own;
    hide EmptyAt;
    hide Coded;
    hide Decode;
    forall r: nat | r < p.r ensures !EmptyAt(p, held, r) { OwnNotEmpty(p, held, pieces, r); }
    HealthyMeans(p, held);
    EmptyNotOwn(p, held, pieces, p.r);
    forall r | r in Range(0, p.r) ensures r in Reachable(held, pieces) { OwnReachable(p, held, pieces, r); }
    SubsetSize(Range(0, p.r), Reachable(held, pieces));
  }

  lemma EmptyNotOwn(p: Pool, held: Held, pieces: seq<Bytes>, r: nat)
    ensures EmptyAt(p, held, r) ==> !Own(p, held, pieces, r)
  {
    hide Pool.Targets;
  }
}
