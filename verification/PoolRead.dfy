/**
 Reading one key from a pool where mirror bodies and erasure pieces coexist: the era is decided by the bytes found.
 A pool state is what each shard holds for the key; a read sees what each shard answers.
 */
module PoolRead {
  import opened Bytes
  import opened Pieces
  import opened Erasure

  /**
   The ranking of shards for the key is fixed: rank i is the place of piece i, the first r ranks are the mirror legs and a
   read probes the first `width` ranks. K and M are those of the pieces, which may be older than the configuration.
   */
  datatype Pool = Pool(rs: Rs, k: nat, m: nat, r: nat, n: nat, ranking: seq<nat>, width: nat) {
    function Targets(): seq<nat> { Take(ranking, width) }
    /** There is a code of these counts, and the ranks are distinct shards. */
    ghost predicate Sound() {
      && GoodConfig(k, m) && Mds(rs, k, m)
      && (forall i :: 0 <= i < |ranking| ==> ranking[i] < n)
      && (forall i, j :: 0 <= i < j < |ranking| ==> ranking[i] != ranking[j])
    }
    /** K and M are the configured ones. */
    ghost predicate Valid() { Sound() && 1 <= r <= k + m && width == (if k + m > r then k + m else r) }
    /** The same shards and ranks, for pieces of other counts. */
    function Coding(k: nat, m: nat): (q: Pool)
      ensures q.Targets() == Targets()
    {
      this.(k := k, m := m)
    }
  }

  lemma ValidSound(p: Pool)
    requires p.Valid()
    ensures p.Sound()
  {
  }

  /** One entry per shard. */
  type Held = seq<Option<Bytes>>

  /** What the shard at rank r answers. */
  function AtRank(targets: seq<nat>, answers: Held, r: nat): Option<Bytes> {
    if r < |targets| && targets[r] < |answers| then answers[targets[r]] else None
  }

  predicate IsPiece(b: Bytes, k: nat, m: nat, j: nat, len: nat) {
    match ParsePieceHeader(b)
    case Some(h) => h.k == k && h.m == m && h.pieceIdx == j && h.logicalLen == len
    case None => false
  }

  /** pieces are the erasure pieces of body: they parse to their own headers, body does not, and any k decode to it. */
  ghost predicate Coded(p: Pool, body: Bytes, pieces: seq<Bytes>) {
    && |pieces| == p.k + p.m && ParsePieceHeader(body) == None
    && (forall j :: 0 <= j < |pieces| ==> IsPiece(pieces[j], p.k, p.m, j, |body|))
    && (forall slots :: Agrees(slots, pieces) ==> (Decode(p.rs, slots, p.k, p.m) == Ok(body) <==> Present(slots) >= p.k))
  }

  /** Encoding a nonempty body that does not itself parse as a piece gives such pieces. */
  lemma EncodeCodes(p: Pool, body: Bytes)
    requires p.Sound() && body != [] && |body| < U64 && ParsePieceHeader(body) == None
    ensures Coded(p, body, EcEncode(p.rs, body, p.k, p.m))
  {
    hide EcEncode;
    hide Decode;
    hide Mds;
    var pieces := EcEncode(p.rs, body, p.k, p.m);
    PiecesParse(p.rs, body, p.k, p.m, 0);
    forall j | 0 <= j < |pieces| ensures IsPiece(pieces[j], p.k, p.m, j, |body|) {
      PiecesParse(p.rs, body, p.k, p.m, j);
    }
    forall slots | Agrees(slots, pieces)
      ensures Decode(p.rs, slots, p.k, p.m) == Ok(body) <==> Present(slots) >= p.k
    {
      RoundTrip(p.rs, body, p.k, p.m, slots);
    }
  }

  // ----- the read, as a function of the shards' answers

  /** Put an answer that is a piece into its slot, unless that slot is taken. */
  function Store(slots: Slots, answer: Option<Bytes>): (s: Slots)
    ensures |s| == |slots|
  {
    match answer
    case None => slots
    case Some(b) =>
      match ParsePieceHeader(b)
      case None => slots
      case Some(h) => if h.pieceIdx < |slots| && slots[h.pieceIdx].None? then slots[h.pieceIdx := Some(b)] else slots
  }

  /** Ask the ranks from r up to end whose slots were empty when the batch was formed, except the one already probed. */
  function ReadRanks(targets: seq<nat>, answers: Held, probed: nat, r: nat, end: nat, asked: Slots, slots: Slots): (s: Slots)
    requires end <= |asked|
    ensures |s| == |slots|
    decreases end - r
  {
    if r >= end then slots
    else if r != probed && asked[r].None? && r < |targets|
    then ReadRanks(targets, answers, probed, r + 1, end, asked, Store(slots, AtRank(targets, answers, r)))
    else ReadRanks(targets, answers, probed, r + 1, end, asked, slots)
  }

  /** Scan the shards outside the targets for stray pieces. */
  function ScanStrays(targets: seq<nat>, answers: Held, i: nat, slots: Slots): (s: Slots)
    ensures |s| == |slots|
    decreases |answers| - i
  {
    if i >= |answers| then slots
    else if i in targets then ScanStrays(targets, answers, i + 1, slots)
    else ScanStrays(targets, answers, i + 1, Store(slots, answers[i]))
  }

  function Empty(n: nat): (s: Slots)
    ensures |s| == n && forall i :: 0 <= i < n ==> s[i] == None
  {
    seq(n, i => None)
  }

  /** Collect pieces: data ranks, then parity ranks, then strays, stopping as soon as there are enough of the right kind. */
  function Collect(targets: seq<nat>, answers: Held, probed: nat, first: Bytes, h: PieceHeader): (s: Slots)
    requires h.pieceIdx < h.k + h.m
    ensures |s| == h.k + h.m
  {
    var s0 := Empty(h.k + h.m)[h.pieceIdx := Some(first)];
    var s1 := ReadRanks(targets, answers, probed, 0, h.k, s0, s0);
    if AllSome(s1[..h.k]).Some? then s1
    else
      var s2 := ReadRanks(targets, answers, probed, h.k, h.k + h.m, s1, s1);
      if Present(s2) < h.k then ScanStrays(targets, answers, 0, s2) else s2
  }

  // ----- what is collected, whatever the shards answer

  /** Slots are only added to: each new one has an answer that is a piece of that index. */
  ghost predicate Adds(a: Slots, b: Slots, answers: Held) {
    && |a| == |b|
    && (forall j :: 0 <= j < |a| && a[j].Some? ==> b[j] == a[j])
    && (forall j :: 0 <= j < |b| && b[j].Some? && a[j].None? ==>
          && b[j] in answers && ParsePieceHeader(b[j].value).Some? && ParsePieceHeader(b[j].value).value.pieceIdx == j)
  }

  lemma StoreAdds(slots: Slots, answer: Option<Bytes>, answers: Held)
    requires answer.None? || answer in answers
    ensures Adds(slots, Store(slots, answer), answers)
  {
    hide ParsePieceHeader;
  }

  lemma AddsMore(a: Slots, b: Slots, c: Slots, answers: Held)
    requires Adds(a, b, answers) && Adds(b, c, answers)
    ensures Adds(a, c, answers)
  {
    hide ParsePieceHeader;
  }

  lemma {:induction false} RanksAdd(targets: seq<nat>, answers: Held, probed: nat, r: nat, end: nat, asked: Slots, slots: Slots)
    requires end <= |asked|
    ensures Adds(slots, ReadRanks(targets, answers, probed, r, end, asked, slots), answers)
    decreases end - r
  {
    if r < end {
      var next := if r != probed && asked[r].None? && r < |targets| then Store(slots, AtRank(targets, answers, r)) else slots;
      StoreAdds(slots, AtRank(targets, answers, r), answers);
      hide Store;
      RanksAdd(targets, answers, probed, r + 1, end, asked, next);
      AddsMore(slots, next, ReadRanks(targets, answers, probed, r + 1, end, asked, next), answers);
    }
  }

  lemma {:induction false} StraysAdd(targets: seq<nat>, answers: Held, i: nat, slots: Slots)
    ensures Adds(slots, ScanStrays(targets, answers, i, slots), answers)
    decreases |answers| - i
  {
    if i < |answers| {
      var next := if i in targets then slots else Store(slots, answers[i]);
      StoreAdds(slots, answers[i], answers);
      hide Store;
      StraysAdd(targets, answers, i + 1, next);
      AddsMore(slots, next, ScanStrays(targets, answers, i + 1, next), answers);
    }
  }

  /**
   Whatever the shards answer, corrupt or foreign pieces included: the probed piece keeps its slot, and every other slot that
   is filled has an answer that is a piece of that index, which nothing found later replaces.
   */
  lemma CollectSound(targets: seq<nat>, answers: Held, probed: nat, first: Bytes, h: PieceHeader)
    requires h.pieceIdx < h.k + h.m
    ensures Adds(Empty(h.k + h.m)[h.pieceIdx := Some(first)], Collect(targets, answers, probed, first, h), answers)
    ensures Collect(targets, answers, probed, first, h)[h.pieceIdx] == Some(first)
  {
    var s0 := Empty(h.k + h.m)[h.pieceIdx := Some(first)];
    var s1 := ReadRanks(targets, answers, probed, 0, h.k, s0, s0);
    var s2 := ReadRanks(targets, answers, probed, h.k, h.k + h.m, s1, s1);
    hide ReadRanks;
    hide ScanStrays;
    hide Adds;
    hide ParsePieceHeader;
    hide Present;
    RanksAdd(targets, answers, probed, 0, h.k, s0, s0);
    RanksAdd(targets, answers, probed, h.k, h.k + h.m, s1, s1);
    StraysAdd(targets, answers, 0, s2);
    AddsMore(s0, s1, s2, answers);
    AddsMore(s0, s2, ScanStrays(targets, answers, 0, s2), answers);
    AddsKeep(s0, Collect(targets, answers, probed, first, h), answers, h.pieceIdx);
  }

  lemma AddsKeep(a: Slots, b: Slots, answers: Held, j: nat)
    requires Adds(a, b, answers) && j < |a| && a[j].Some?
    ensures b[j] == a[j]
  {
  }

  /** The first rank from i on that answers. */
  function FirstAnswer(targets: seq<nat>, answers: Held, i: nat): (r: nat)
    requires i <= |targets|
    ensures i <= r <= |targets| && (r < |targets| ==> AtRank(targets, answers, r).Some?)
    ensures forall j :: i <= j < r ==> AtRank(targets, answers, j).None?
    decreases |targets| - i
  {
    if i == |targets| || AtRank(targets, answers, i).Some? then i else FirstAnswer(targets, answers, i + 1)
  }

  /** The full scan when no target answers: the first raw body wins, otherwise the strays must suffice. */
  function ScanAll(rs: Rs, targets: seq<nat>, answers: Held, i: nat, slots: Slots, last: Option<PieceHeader>): Result<Bytes>
    decreases |answers| - i
  {
    if i >= |answers| then
      match last
      case Some(h) => if Present(slots) >= h.k then Decode(rs, slots, h.k, h.m) else Err(TooFew)
      case None => Err(NoPieces)
    else if i in targets || answers[i].None? then ScanAll(rs, targets, answers, i + 1, slots, last)
    else match ParsePieceHeader(answers[i].value)
      case None => Ok(answers[i].value)
      case Some(h) =>
        var fit := if |slots| == h.k + h.m then slots else Empty(h.k + h.m);
        ScanAll(rs, targets, answers, i + 1, Store(fit, answers[i]), Some(h))
  }

  function GetEcAware(p: Pool, answers: Held): Result<Bytes>
  {
    var rank := FirstAnswer(p.Targets(), answers, 0);
    if rank < |p.Targets()| then
      var body := AtRank(p.Targets(), answers, rank).value;
      match ParsePieceHeader(body)
      case None => Ok(body)
      case Some(h) =>
        if h.pieceIdx < h.k + h.m
        then Decode(p.rs, Collect(p.Targets(), answers, rank, body, h), h.k, h.m)
        else Err(BadPiece)
    else ScanAll(p.rs, p.Targets(), answers, 0, [], None)
  }

  // ----- which pieces a read can reach

  /** Shard s answers with piece j. */
  ghost predicate Has(answers: Held, pieces: seq<Bytes>, s: nat, j: nat) {
    s < |answers| && j < |pieces| && answers[s] == Some(pieces[j])
  }

  ghost predicate Genuine(c: Option<Bytes>, body: Bytes, pieces: seq<Bytes>) {
    c.None? || c.value == body || exists j :: 0 <= j < |pieces| && c.value == pieces[j]
  }

  /** Every shard answers with the body, one of its pieces, or nothing; a target rank with a piece has its own. */
  ghost predicate Canonical(p: Pool, answers: Held, body: Bytes, pieces: seq<Bytes>) {
    && |answers| == p.n
    && (forall s :: 0 <= s < p.n ==> Genuine(answers[s], body, pieces))
    && (forall r :: 0 <= r < |p.Targets()| ==>
          var c := AtRank(p.Targets(), answers, r); c.None? || c.value == body || (r < |pieces| && c.value == pieces[r]))
  }

  ghost predicate AllGenuine(answers: Held, body: Bytes, pieces: seq<Bytes>) {
    forall s :: 0 <= s < |answers| ==> Genuine(answers[s], body, pieces)
  }

  lemma CanonicalGenuine(p: Pool, answers: Held, body: Bytes, pieces: seq<Bytes>)
    requires Canonical(p, answers, body, pieces)
    ensures AllGenuine(answers, body, pieces)
  {
  }

  /** The pieces some shard answers with. */
  ghost function Reachable(answers: Held, pieces: seq<Bytes>): set<nat> {
    set j, s | 0 <= s < |answers| && 0 <= j < |pieces| && answers[s] == Some(pieces[j]) :: j
  }

  ghost function FilledSet(slots: Slots): set<nat> { set i | 0 <= i < |slots| && slots[i].Some? }

  lemma {:induction false} FilledCount(slots: Slots)
    ensures |FilledSet(slots)| == Present(slots)
  {
    if slots == [] {
      assert FilledSet(slots) == {};
    } else {
      var n := |slots| - 1;
      FilledCount(slots[..n]);
      assert slots == slots[..n] + [slots[n]];
      PresentPush(slots[..n], slots[n]);
      FilledPush(slots[..n], slots[n]);
    }
  }

  lemma FilledPush(front: Slots, x: Option<Bytes>)
    ensures |FilledSet(front + [x])| == |FilledSet(front)| + (if x.Some? then 1 else 0)
  {
    assert FilledSet(front + [x]) == FilledSet(front) + (if x.Some? then {|front|} else {});
  }

  /** Storing a genuine answer keeps the slots in agreement with the pieces and fills the slot of a piece. */
  lemma StoreGenuine(p: Pool, body: Bytes, pieces: seq<Bytes>, slots: Slots, answer: Option<Bytes>)
    requires Coded(p, body, pieces) && Agrees(slots, pieces) && Genuine(answer, body, pieces)
    ensures Agrees(Store(slots, answer), pieces) && FilledSet(slots) <= FilledSet(Store(slots, answer))
    ensures forall j :: 0 <= j < |pieces| && answer == Some(pieces[j]) ==> j in FilledSet(Store(slots, answer))
    ensures forall j :: j in FilledSet(Store(slots, answer)) - FilledSet(slots) ==> answer == Some(pieces[j])
  {
    hide Decode;
    hide ParsePieceHeader;
    if answer.Some? && answer.value != body {
      var j :| 0 <= j < |pieces| && answer.value == pieces[j];
      assert IsPiece(answer.value, p.k, p.m, j, |body|);
    }
  }

  /** Reads do not look at the configured counts. */
  lemma SameReads(p: Pool, k: nat, m: nat, answers: Held)
    ensures GetEcAware(p.Coding(k, m), answers) == GetEcAware(p, answers)
  {
  }

  // ----- exactly when a read succeeds

  /** Each piece differs from the body and from every other piece. */
  lemma PiecesDiffer(p: Pool, body: Bytes, pieces: seq<Bytes>, i: nat, j: nat)
    requires Coded(p, body, pieces) && i < |pieces| && j < |pieces|
    ensures pieces[i] != body && (pieces[i] == pieces[j] ==> i == j)
  {
    hide Decode;
    hide ParsePieceHeader;
    assert IsPiece(pieces[i], p.k, p.m, i, |body|) && IsPiece(pieces[j], p.k, p.m, j, |body|);
  }

  lemma ReachableFrom(answers: Held, pieces: seq<Bytes>, s: nat, j: nat)
    requires s < |answers| && j < |pieces| && answers[s] == Some(pieces[j])
    ensures j in Reachable(answers, pieces)
  {
  }

  lemma ReachableHas(answers: Held, pieces: seq<Bytes>, j: nat) returns (s: nat)
    requires j in Reachable(answers, pieces)
    ensures Has(answers, pieces, s, j)
  {
    s :| 0 <= s < |answers| && answers[s] == Some(pieces[j]);
  }

  lemma {:induction false} RanksFill(p: Pool, body: Bytes, pieces: seq<Bytes>, answers: Held,
                                     probed: nat, r: nat, end: nat, asked: Slots, slots: Slots)
    requires Coded(p, body, pieces) && Canonical(p, answers, body, pieces)
    requires end <= |asked| == |slots| && Agrees(slots, pieces)
    requires FilledSet(asked) <= FilledSet(slots) <= Reachable(answers, pieces) && probed in FilledSet(slots)
    ensures var s := ReadRanks(p.Targets(), answers, probed, r, end, asked, slots);
      && Agrees(s, pieces) && FilledSet(slots) <= FilledSet(s) <= Reachable(answers, pieces)
      && forall j :: r <= j < end && AtRank(p.Targets(), answers, j) == Some(pieces[j]) ==> j in FilledSet(s)
    decreases end - r
  {
    hide Coded;
    hide Pool.Targets;
    hide Store;
    var targets := p.Targets();
    if r < end {
      if r != probed && asked[r].None? && r < |targets| {
        var a := AtRank(targets, answers, r);
        assert Genuine(a, body, pieces);
        StoreGenuine(p, body, pieces, slots, a);
        RanksFill(p, body, pieces, answers, probed, r + 1, end, asked, Store(slots, a));
      } else {
        RanksFill(p, body, pieces, answers, probed, r + 1, end, asked, slots);
      }
    }
  }

  lemma {:induction false} StraysFill(p: Pool, body: Bytes, pieces: seq<Bytes>, answers: Held, i: nat, slots: Slots)
    requires Coded(p, body, pieces) && AllGenuine(answers, body, pieces)
    requires Agrees(slots, pieces) && FilledSet(slots) <= Reachable(answers, pieces)
    ensures var s := ScanStrays(p.Targets(), answers, i, slots);
      && Agrees(s, pieces) && FilledSet(slots) <= FilledSet(s) <= Reachable(answers, pieces)
      && forall t, j :: i <= t < |answers| && t !in p.Targets() && Has(answers, pieces, t, j) ==> j in FilledSet(s)
    decreases |answers| - i
  {
    hide Coded;
    hide Pool.Targets;
    hide Store;
    if i < |answers| {
      if i in p.Targets() {
        StraysFill(p, body, pieces, answers, i + 1, slots);
      } else {
        assert Genuine(answers[i], body, pieces);
        StoreGenuine(p, body, pieces, slots, answers[i]);
        StraysFill(p, body, pieces, answers, i + 1, Store(slots, answers[i]));
      }
    }
  }

  /** A piece found on a target shard is the one of its rank. */
  lemma OwnRank(p: Pool, body: Bytes, pieces: seq<Bytes>, answers: Held, s: nat, j: nat)
    requires Coded(p, body, pieces) && Canonical(p, answers, body, pieces) && Has(answers, pieces, s, j) && s in p.Targets()
    ensures AtRank(p.Targets(), answers, j) == Some(pieces[j])
  {
    hide Pool.Targets;
    var r :| 0 <= r < |p.Targets()| && p.Targets()[r] == s;
    var c := AtRank(p.Targets(), answers, r);
    assert c == Some(pieces[j]);
    PiecesDiffer(p, body, pieces, j, j);
    if r < |pieces| { PiecesDiffer(p, body, pieces, r, j); }
  }

  /** Collecting from a probed piece finds enough pieces exactly when enough distinct ones are reachable. */
  lemma CollectEnough(p: Pool, body: Bytes, pieces: seq<Bytes>, answers: Held, rank: nat, h: PieceHeader)
    requires p.Sound() && Coded(p, body, pieces) && Canonical(p, answers, body, pieces)
    requires rank < |pieces| && AtRank(p.Targets(), answers, rank) == Some(pieces[rank])
    requires h.k == p.k && h.m == p.m && h.pieceIdx == rank
    ensures var s := Collect(p.Targets(), answers, rank, pieces[rank], h);
      Agrees(s, pieces) && (Present(s) >= p.k <==> |Reachable(answers, pieces)| >= p.k)
  {
    hide Coded;
    hide Canonical;
    hide Pool.Targets;
    hide Pool.Sound;
    hide ReadRanks;
    hide ScanStrays;
    var targets, all := p.Targets(), Reachable(answers, pieces);
    assert |pieces| == p.k + p.m by { CodedLength(p, body, pieces); }
    var s0 := Empty(p.k + p.m)[rank := Some(pieces[rank])];
    assert rank in all by { ReachableFrom(answers, pieces, targets[rank], rank); }
    assert FilledSet(s0) == {rank};
    RanksFill(p, body, pieces, answers, rank, 0, p.k, s0, s0);
    var s1 := ReadRanks(targets, answers, rank, 0, p.k, s0, s0);
    var s := Collect(targets, answers, rank, pieces[rank], h);
    if AllSome(s1[..p.k]).Some? {
      DataFilled(s1, p.k);
    } else {
      RanksFill(p, body, pieces, answers, rank, p.k, p.k + p.m, s1, s1);
      var s2 := ReadRanks(targets, answers, rank, p.k, p.k + p.m, s1, s1);
      if Present(s2) < p.k {
        CanonicalGenuine(p, answers, body, pieces);
        StraysFill(p, body, pieces, answers, 0, s2);
        forall j | j in all ensures j in FilledSet(s) {
          var t := ReachableHas(answers, pieces, j);
          if t in targets { OwnRank(p, body, pieces, answers, t, j); }
        }
        assert FilledSet(s) == all;
      }
    }
    FilledCount(s);
    SubsetSize(FilledSet(s), all);
  }

  lemma CodedLength(p: Pool, body: Bytes, pieces: seq<Bytes>)
    requires Coded(p, body, pieces)
    ensures |pieces| == p.k + p.m
  {
  }

  /** A full data half is at least k filled slots. */
  lemma DataFilled(slots: Slots, k: nat)
    requires k <= |slots| && AllSome(slots[..k]).Some?
    ensures Present(slots) >= k
  {
    forall i | 0 <= i < k ensures slots[i].Some? { assert slots[..k][i].Some?; }
    PrefixPresent(slots, k);
  }

  lemma {:induction false} PrefixPresent(slots: Slots, k: nat)
    requires k <= |slots| && forall i :: 0 <= i < k ==> slots[i].Some?
    ensures Present(slots) >= k
  {
    if k > 0 { PrefixPresent(slots[1..], k - 1); }
  }

  /** The scan's slots hold exactly genuine pieces, among them every piece seen before shard i. */
  ghost predicate ScanSoFar(p: Pool, pieces: seq<Bytes>, answers: Held, i: nat, slots: Slots, last: Option<PieceHeader>) {
    match last
    case None => slots == [] && forall s, j :: 0 <= s < i ==> !Has(answers, pieces, s, j)
    case Some(h) =>
      && h.k == p.k && h.m == p.m && Agrees(slots, pieces) && FilledSet(slots) <= Reachable(answers, pieces)
      && forall s, j :: 0 <= s < i && Has(answers, pieces, s, j) ==> j in FilledSet(slots)
  }

  ghost predicate StrayBody(p: Pool, answers: Held, body: Bytes, i: nat) {
    exists s :: i <= s < |answers| && s !in p.Targets() && answers[s] == Some(body)
  }

  lemma StrayPiece(p: Pool, body: Bytes, pieces: seq<Bytes>, answers: Held, i: nat, slots: Slots, last: Option<PieceHeader>)
    requires Coded(p, body, pieces) && Canonical(p, answers, body, pieces) && i < |answers|
    requires ScanSoFar(p, pieces, answers, i, slots, last) && answers[i].Some? && answers[i].value != body
    ensures var h := ParsePieceHeader(answers[i].value);
      && h.Some? && h.value.k == p.k && h.value.m == p.m
      && ScanSoFar(p, pieces, answers, i + 1, Store(if |slots| == p.k + p.m then slots else Empty(p.k + p.m), answers[i]), h)
  {
    hide ParsePieceHeader;
    hide Decode;
    hide Pool.Targets;
    assert Genuine(answers[i], body, pieces);
    var j :| 0 <= j < |pieces| && answers[i].value == pieces[j];
    assert IsPiece(pieces[j], p.k, p.m, j, |body|);
    ReachableFrom(answers, pieces, i, j);
    var fit := if |slots| == p.k + p.m then slots else Empty(p.k + p.m);
    assert last.None? ==> FilledSet(fit) == {};
    StoreGenuine(p, body, pieces, fit, answers[i]);
    hide Reachable;
    hide Store;
    hide Coded;
    forall s, l | 0 <= s < i + 1 && Has(answers, pieces, s, l) ensures l in FilledSet(Store(fit, answers[i])) {}
  }

  /** The full scan, with no target answering: a raw stray or enough stray pieces. */
  lemma {:induction false} ScanAllExact(p: Pool, body: Bytes, pieces: seq<Bytes>, answers: Held, i: nat, slots: Slots, last: Option<PieceHeader>)
    requires p.Sound() && Coded(p, body, pieces) && Canonical(p, answers, body, pieces) && i <= |answers|
    requires forall s :: 0 <= s < |answers| && s in p.Targets() ==> answers[s].None?
    requires ScanSoFar(p, pieces, answers, i, slots, last)
    ensures ScanAll(p.rs, p.Targets(), answers, i, slots, last) == Ok(body)
      <==> StrayBody(p, answers, body, i) || |Reachable(answers, pieces)| >= p.k
    decreases |answers| - i
  {
    hide Pool.Targets;
    hide Pool.Sound;
    hide ParsePieceHeader;
    hide Decode;
    hide Canonical;
    hide Reachable;
    if i == |answers| {
      ScanEnd(p, body, pieces, answers, slots, last);
      assert !StrayBody(p, answers, body, i);
    } else if i in p.Targets() || answers[i].None? {
      hide Coded;
      assert ScanSoFar(p, pieces, answers, i + 1, slots, last);
      ScanAllExact(p, body, pieces, answers, i + 1, slots, last);
      assert StrayBody(p, answers, body, i) <==> StrayBody(p, answers, body, i + 1);
    } else if answers[i].value == body {
      assert StrayBody(p, answers, body, i);
    } else {
      StrayPiece(p, body, pieces, answers, i, slots, last);
      hide Coded;
      hide Store;
      hide ScanSoFar;
      var fit := if |slots| == p.k + p.m then slots else Empty(p.k + p.m);
      ScanAllExact(p, body, pieces, answers, i + 1, Store(fit, answers[i]), ParsePieceHeader(answers[i].value));
      assert StrayBody(p, answers, body, i) <==> StrayBody(p, answers, body, i + 1);
    }
  }

  lemma ScanEnd(p: Pool, body: Bytes, pieces: seq<Bytes>, answers: Held, slots: Slots, last: Option<PieceHeader>)
    requires p.Sound() && Coded(p, body, pieces)
    requires ScanSoFar(p, pieces, answers, |answers|, slots, last)
    ensures ScanAll(p.rs, p.Targets(), answers, |answers|, slots, last) == Ok(body) <==> |Reachable(answers, pieces)| >= p.k
  {
    hide Decode;
    hide Mds;
    var all := Reachable(answers, pieces);
    if last.None? {
      forall j | j in all ensures false { var s := ReachableHas(answers, pieces, j); }
      assert all == {};
    } else {
      forall j | j in all ensures j in FilledSet(slots) { var s := ReachableHas(answers, pieces, j); }
      assert FilledSet(slots) == all;
      FilledCount(slots);
    }
  }

  /** Some shard a read will reach answers with the whole body before any piece stops it, or enough pieces are reachable. */
  ghost predicate Readable(p: Pool, answers: Held, body: Bytes, pieces: seq<Bytes>) {
    var first := FirstAnswer(p.Targets(), answers, 0);
    || |Reachable(answers, pieces)| >= p.k
    || (if first < |p.Targets()| then AtRank(p.Targets(), answers, first) == Some(body) else StrayBody(p, answers, body, 0))
  }

  /** A read returns the body exactly then. */
  lemma GetExact(p: Pool, body: Bytes, pieces: seq<Bytes>, answers: Held)
    requires p.Sound() && Coded(p, body, pieces) && Canonical(p, answers, body, pieces)
    ensures GetEcAware(p, answers) == Ok(body) <==> Readable(p, answers, body, pieces)
  {
    hide Pool.Targets;
    hide Decode;
    hide Mds;
    var targets := p.Targets();
    var first := FirstAnswer(targets, answers, 0);
    if first < |targets| {
      var c := AtRank(targets, answers, first);
      if c.value == body {
      } else {
        assert IsPiece(pieces[first], p.k, p.m, first, |body|);
        var h := ParsePieceHeader(c.value).value;
        CollectEnough(p, body, pieces, answers, first, h);
        PiecesDiffer(p, body, pieces, first, first);
        hide Collect;
        hide ParsePieceHeader;
      }
    } else {
      forall s | 0 <= s < |answers| && s in targets ensures answers[s].None? {
        var r :| 0 <= r < |targets| && targets[r] == s;
        assert AtRank(targets, answers, r).None?;
      }
      ScanAllExact(p, body, pieces, answers, 0, [], None);
    }
  }

  /**
   So it does for pieces of any other code, as after a change of the configuration: K and M are those of the pieces found,
   whatever the pool's own are, on the ranks it probes and in the full scan alike.
   */
  lemma GetOtherCounts(p: Pool, k: nat, m: nat, body: Bytes, pieces: seq<Bytes>, answers: Held)
    requires p.Coding(k, m).Sound() && Coded(p.Coding(k, m), body, pieces) && Canonical(p.Coding(k, m), answers, body, pieces)
    ensures GetEcAware(p, answers) == Ok(body) <==> Readable(p.Coding(k, m), answers, body, pieces)
  {
    SameReads(p, k, m, answers);
    GetExact(p.Coding(k, m), body, pieces, answers);
    hide *;
  }
}
