/**
 K data + M parity pieces. The Reed-Solomon code is a contract: encoding leaves the data stripes alone and any K of
 the K + M stripes determine the rest. Everything around it is modelled byte for byte.
 */
module Erasure {
  import opened Bytes
  import opened Pieces

  type Slots = seq<Option<Bytes>>

  datatype Rs = Rs(parity: (seq<Bytes>, nat) -> seq<Bytes>, recover: (nat, nat, Slots) -> Option<seq<Bytes>>)
  datatype DecodeError = WrongSlots | BadPiece | NoPieces | TooFew | CodeFailed
  datatype Result<+T> = Ok(value: T) | Err(error: DecodeError)

  /** k stripes of one length. */
  ghost predicate Stripes(data: seq<Bytes>, k: nat) {
    |data| == k && forall i :: 0 <= i < k ==> |data[i]| == |data[0]|
  }

  function Codeword(rs: Rs, data: seq<Bytes>, m: nat): seq<Bytes> { data + rs.parity(data, m) }

  function Present(slots: Slots): nat {
    if slots == [] then 0 else (if slots[0].Some? then 1 else 0) + Present(slots[1..])
  }

  /** Every slot that is filled holds the element of all at its index. */
  ghost predicate Agrees(slots: Slots, all: seq<Bytes>) {
    |slots| == |all| && forall i :: 0 <= i < |slots| && slots[i].Some? ==> slots[i].value == all[i]
  }

  ghost predicate Mds(rs: Rs, k: nat, m: nat) {
    && (forall data :: Stripes(data, k) ==> Stripes(rs.parity(data, m), m) && (m > 0 && k > 0 ==> |rs.parity(data, m)[0]| == |data[0]|))
    && (forall data, slots :: Stripes(data, k) && Agrees(slots, Codeword(rs, data, m)) && Present(slots) >= k
          ==> rs.recover(k, m, slots) == Some(Codeword(rs, data, m)))
  }

  // ----- cutting a body into stripes

  function Zeros(n: nat): (z: Bytes)
    ensures |z| == n
  {
    if n == 0 then [] else [0] + Zeros(n - 1)
  }

  lemma {:induction false} ZerosAdd(a: nat, b: nat)
    ensures Zeros(a) + Zeros(b) == Zeros(a + b)
  {
    if a > 0 {
      ZerosAdd(a - 1, b);
      assert Zeros(a) + Zeros(b) == [0] + (Zeros(a - 1) + Zeros(b));
    } else {
      assert Zeros(0) + Zeros(b) == Zeros(b);
    }
  }

  function StripeLen(len: nat, k: nat): (s: nat)
    requires k > 0
    ensures s >= 1
  {
    if CeilDiv(len, k) > 1 then CeilDiv(len, k) else 1
  }

  /** Positions lo to hi of the body, with zeros past its end. */
  function Padded(data: Bytes, lo: nat, hi: nat): (b: Bytes)
    requires lo <= hi
    ensures |b| == hi - lo
  {
    var start, end := Min(lo, |data|), Min(hi, |data|);
    data[start..end] + Zeros(hi - lo - (end - start))
  }

  /** Stripe i of the body, padded with zeros. */
  function StripeAt(data: Bytes, s: nat, i: nat): (b: Bytes)
    ensures |b| == s
  {
    var lo: nat := i * s;
    Padded(data, lo, lo + s)
  }

  function DataStripes(data: Bytes, s: nat, n: nat): (d: seq<Bytes>)
    ensures |d| == n && forall i :: 0 <= i < n ==> d[i] == StripeAt(data, s, i)
  {
    if n == 0 then [] else DataStripes(data, s, n - 1) + [StripeAt(data, s, n - 1)]
  }

  function Join(parts: seq<Bytes>): Bytes {
    if parts == [] then [] else Join(parts[..|parts| - 1]) + parts[|parts| - 1]
  }

  /** The first n stripes joined are the body's first n * s bytes, padded past its end. */
  lemma {:induction false} JoinStripes(data: Bytes, s: nat, n: nat)
    ensures var to: nat := n * s; Join(DataStripes(data, s, n)) == Padded(data, 0, to)
  {
    hide StripeAt;
    if n > 0 {
      JoinStripes(data, s, n - 1);
      hide Padded;
      var a := StripeStart(data, s, n - 1);
      JoinStep(data, a, a + s);
      assert DataStripes(data, s, n)[..n - 1] == DataStripes(data, s, n - 1);
    }
  }

  lemma StripeStart(data: Bytes, s: nat, i: nat) returns (a: nat)
    ensures a == i * s && (i + 1) * s == a + s && StripeAt(data, s, i) == Padded(data, a, a + s)
  {
    StripeBounds(s, i);
    hide Padded;
    a := i * s;
  }

  lemma StripeBounds(s: nat, i: nat)
    ensures i * s >= 0 && (i + 1) * s == i * s + s
  {
  }

  lemma JoinStep(data: Bytes, a: nat, b: nat)
    requires a <= b
    ensures Padded(data, 0, a) + Padded(data, a, b) == Padded(data, 0, b)
  {
    PaddedIs(data, 0, b);
    PaddedIs(data, a, b);
    PaddedIs(data, 0, a);
    hide Padded;
    assert Zeros(0) == [];
    hide Zeros;
    if a <= |data| {
      var end := Min(b, |data|);
      assert data[..a] + [] == data[..a];
      Split(data, a, end, Zeros(b - end));
    } else {
      ZerosAdd(a - |data|, b - a);
      Assoc(data, Zeros(a - |data|), Zeros(b - a));
    }
  }

  lemma PaddedIs(data: Bytes, lo: nat, hi: nat)
    requires lo <= hi
    ensures lo <= |data| ==> Padded(data, lo, hi) == data[lo..Min(hi, |data|)] + Zeros(hi - Min(hi, |data|))
    ensures lo > |data| ==> Padded(data, lo, hi) == Zeros(hi - lo)
    ensures lo == 0 && hi >= |data| ==> Padded(data, lo, hi) == data + Zeros(hi - |data|)
  {
    hide Zeros;
    assert data[|data|..|data|] == [] && data[0..|data|] == data;
    assert [] + Zeros(hi - lo) == Zeros(hi - lo);
  }

  lemma Split(data: Bytes, a: nat, end: nat, z: Bytes)
    requires a <= end <= |data|
    ensures data[..a] + (data[a..end] + z) == data[0..end] + z
  {
    assert data[..a] + data[a..end] == data[0..end];
    Assoc(data[..a], data[a..end], z);
  }

  lemma Assoc(a: Bytes, b: Bytes, c: Bytes)
    ensures a + (b + c) == a + b + c
  {
  }

  lemma StripesCover(len: nat, k: nat)
    requires k > 0
    ensures len <= k * StripeLen(len, k)
  {
    var q := CeilDiv(len, k);
    assert len + k - 1 == k * q + (len + k - 1) % k;
    assert k * q >= len;
    if q < 1 { assert len == 0; }
  }

  // ----- encoding

  /** The k + m pieces of a body, each a header and a stripe. Header fields are bytes and wrap. */
  function EcEncode(rs: Rs, data: Bytes, k: nat, m: nat): seq<Bytes>
    requires k > 0
  {
    Envelopes(Codeword(rs, DataStripes(data, StripeLen(|data|, k), k), m), k, m, |data|, 0)
  }

  function HeaderFor(k: nat, m: nat, i: nat, len: nat): PieceHeader { PieceHeader(k % 256, m % 256, i % 256, len) }

  function Envelopes(stripes: seq<Bytes>, k: nat, m: nat, len: nat, i: nat): (p: seq<Bytes>)
    ensures |p| == |stripes|
    ensures forall j :: 0 <= j < |p| ==> p[j] == EncodePieceHeader(HeaderFor(k, m, i + j, len)) + stripes[j]
    decreases |stripes|
  {
    if stripes == [] then []
    else [EncodePieceHeader(HeaderFor(k, m, i, len)) + stripes[0]] + Envelopes(stripes[1..], k, m, len, i + 1)
  }

  /** Configurations whose pieces can be told apart: the piece count must fit the header's byte arithmetic. */
  predicate GoodConfig(k: nat, m: nat) { k >= 1 && m >= 1 && k + m <= 255 }

  lemma EncodeShape(rs: Rs, data: Bytes, k: nat, m: nat)
    requires GoodConfig(k, m) && Mds(rs, k, m)
    ensures var s, cw := StripeLen(|data|, k), Codeword(rs, DataStripes(data, StripeLen(|data|, k), k), m);
      && |cw| == k + m && (forall i :: 0 <= i < k + m ==> |cw[i]| == s)
      && |EcEncode(rs, data, k, m)| == k + m
      && (forall i :: 0 <= i < k + m ==> EcEncode(rs, data, k, m)[i] == EncodePieceHeader(HeaderFor(k, m, i, |data|)) + cw[i])
  {
    assert Stripes(DataStripes(data, StripeLen(|data|, k), k), k);
  }

  lemma EnvelopeParses(k: nat, m: nat, i: nat, len: nat, stripe: Bytes)
    requires GoodConfig(k, m) && i < k + m && len < U64 && |stripe| == StripeLen(len, k)
    ensures ParsePieceHeader(EncodePieceHeader(HeaderFor(k, m, i, len)) + stripe)
            == (if len == 0 then None else Some(PieceHeader(k, m, i, len)))
  {
    hide ParsePieceHeader;
    hide EncodePieceHeader;
    CeilPositive(len, k);
    hide CeilDiv;
    var h := HeaderFor(k, m, i, len);
    assert k % 256 == k && m % 256 == m && i % 256 == i && (k + m) % 256 == k + m;
    assert h == PieceHeader(k, m, i, len);
    PieceRoundTrip(h, stripe);
  }

  /** Every piece of a nonempty body parses back to its own header; the pieces of an empty body never do. */
  lemma PiecesParse(rs: Rs, data: Bytes, k: nat, m: nat, i: nat)
    requires GoodConfig(k, m) && Mds(rs, k, m) && i < k + m && |data| < U64
    ensures |EcEncode(rs, data, k, m)| == k + m
    ensures ParsePieceHeader(EcEncode(rs, data, k, m)[i]) == (if data == [] then None else Some(PieceHeader(k, m, i, |data|)))
  {
    EncodeShape(rs, data, k, m);
    EnvelopeParses(k, m, i, |data|, Codeword(rs, DataStripes(data, StripeLen(|data|, k), k), m)[i]);
    hide *;
  }

  lemma CeilPositive(len: nat, k: nat)
    requires k > 0
    ensures len > 0 ==> CeilDiv(len, k) >= 1
    ensures len == 0 ==> CeilDiv(len, k) == 0
  {
  }

  /** With 256 pieces the byte sum wraps to zero and no piece parses. */
  lemma TooManyPieces(rs: Rs, data: Bytes, k: nat, m: nat, i: nat)
    requires k >= 1 && m >= 1 && k + m == 256 && i < |EcEncode(rs, data, k, m)| && |data| < U64
    ensures ParsePieceHeader(EcEncode(rs, data, k, m)[i]) == None
  {
    hide *;
    var stripe := PieceOf(rs, data, k, m, i);
    WrappedSum(k, m, i, |data|);
    PieceRoundTrip(HeaderFor(k, m, i, |data|), stripe);
  }

  lemma PieceOf(rs: Rs, data: Bytes, k: nat, m: nat, i: nat) returns (stripe: Bytes)
    requires k > 0 && i < |EcEncode(rs, data, k, m)|
    ensures EcEncode(rs, data, k, m)[i] == EncodePieceHeader(HeaderFor(k, m, i, |data|)) + stripe
  {
    hide EncodePieceHeader;
    hide HeaderFor;
    hide Envelopes;
    hide CeilDiv;
    hide DataStripes;
    stripe := Codeword(rs, DataStripes(data, StripeLen(|data|, k), k), m)[i];
  }

  lemma WrappedSum(k: nat, m: nat, i: nat, len: nat)
    requires k + m == 256
    ensures var h := HeaderFor(k, m, i, len); h.logicalLen == len && (h.k + h.m) % 256 == 0
  {
  }

  // ----- decoding

  /** The stripes behind the filled slots, or the first bad piece. */
  function SlotStripe(p: Option<Bytes>): Option<Bytes>
    requires p.Some? ==> |p.value| >= EC_HEADER_LEN
  {
    match p case Some(b) => Some(b[EC_HEADER_LEN..]) case None => None
  }

  predicate SlotOk(slots: Slots, i: nat)
    requires i < |slots|
  {
    slots[i].Some? ==> ParsePieceHeader(slots[i].value).Some? && ParsePieceHeader(slots[i].value).value.pieceIdx == i
  }

  function AllSome(slots: Slots): (r: Option<seq<Bytes>>)
    ensures r.Some? ==> |r.value| == |slots| && forall i :: 0 <= i < |slots| ==> slots[i] == Some(r.value[i])
    ensures r.None? <==> exists i :: 0 <= i < |slots| && slots[i].None?
  {
    if slots == [] then Some([])
    else if slots[0].None? then None
    else match AllSome(slots[1..]) case Some(r) => Some([slots[0].value] + r) case None => None
  }

  function Truncate(b: Bytes, n: nat): Bytes { if n < |b| then b[..n] else b }

  /** Assembling the body from stripes once the headers are off. */
  function FromStripes(rs: Rs, stripes: Slots, k: nat, m: nat, logical: nat): Result<Bytes>
    requires |stripes| == k + m
  {
    if Present(stripes) < k then Err(TooFew)
    else match AllSome(stripes[..k])
      case Some(parts) => Ok(Truncate(Join(parts), logical))
      case None =>
        match rs.recover(k, m, stripes)
        case Some(all) => if |all| < k then Err(CodeFailed) else Ok(Truncate(Join(all[..k]), logical))
        case None => Err(CodeFailed)
  }

  /** Decode as the source loops: check each filled slot, collect its stripe, keep the last logical length. */
  method EcDecode(rs: Rs, slots: Slots, k: nat, m: nat) returns (r: Result<Bytes>)
    ensures r == Decode(rs, slots, k, m)
  {
    if |slots| != k + m { return Err(WrongSlots); }
    var logical: Option<nat> := None;
    var stripes: Slots := [];
    var i := 0;
    while i < |slots|
      invariant i <= |slots| && |stripes| == i
      invariant forall j :: 0 <= j < i ==> SlotOk(slots, j) && stripes[j] == SlotStripe(slots[j])
      invariant logical == LastLogical(slots, i)
    {
      if slots[i].Some? {
        var h := ParsePieceHeader(slots[i].value);
        if h.None? || h.value.pieceIdx != i {
          assert !SlotOk(slots, i);
          return Err(BadPiece);
        }
        logical := Some(h.value.logicalLen);
        stripes := stripes + [Some(slots[i].value[EC_HEADER_LEN..])];
      } else {
        stripes := stripes + [None];
      }
      i := i + 1;
    }
    if logical.None? { return Err(NoPieces); }
    assert stripes == StripesOf(slots);
    r := FromStripes(rs, stripes, k, m, logical.value);
  }

  /** The logical length in the last filled slot before n. */
  function LastLogical(slots: Slots, n: nat): Option<nat>
    requires n <= |slots|
  {
    if n == 0 then None
    else if slots[n - 1].Some? && ParsePieceHeader(slots[n - 1].value).Some? then Some(ParsePieceHeader(slots[n - 1].value).value.logicalLen)
    else LastLogical(slots, n - 1)
  }

  function StripesOf(slots: Slots): (s: Slots)
    requires forall i :: 0 <= i < |slots| ==> SlotOk(slots, i)
    ensures |s| == |slots| && forall i :: 0 <= i < |s| ==> SlotOk(slots, i) && s[i] == SlotStripe(slots[i])
  {
    seq(|slots|, i requires 0 <= i < |slots| && SlotOk(slots, i) => SlotStripe(slots[i]))
  }

  function Decode(rs: Rs, slots: Slots, k: nat, m: nat): Result<Bytes> {
    if |slots| != k + m then Err(WrongSlots)
    else if exists i :: 0 <= i < |slots| && !SlotOk(slots, i) then Err(BadPiece)
    else match LastLogical(slots, |slots|)
      case None => Err(NoPieces)
      case Some(logical) => FromStripes(rs, StripesOf(slots), k, m, logical)
  }

  /** Rebuild every piece from at least k of them. */
  function EcRepairPieces(rs: Rs, slots: Slots, k: nat, m: nat): Result<seq<Bytes>>
    requires k > 0
  {
    match Decode(rs, slots, k, m)
    case Ok(body) => Ok(EcEncode(rs, body, k, m))
    case Err(e) => Err(e)
  }

  // ----- the round trip

  lemma {:induction false} PresentSame(a: Slots, b: Slots)
    requires |a| == |b| && forall i :: 0 <= i < |a| ==> a[i].Some? == b[i].Some?
    ensures Present(a) == Present(b)
  {
    if a != [] { PresentSame(a[1..], b[1..]); }
  }

  lemma {:induction false} LastLogicalIs(slots: Slots, n: nat, len: nat)
    requires n <= |slots|
    requires forall i :: 0 <= i < n && slots[i].Some? ==>
      ParsePieceHeader(slots[i].value).Some? && ParsePieceHeader(slots[i].value).value.logicalLen == len
    ensures LastLogical(slots, n) == if Present(slots[..n]) > 0 then Some(len) else None
  {
    if n > 0 {
      LastLogicalIs(slots, n - 1, len);
      PresentPush(slots[..n - 1], slots[n - 1]);
      assert slots[..n] == slots[..n - 1] + [slots[n - 1]];
    }
  }

  lemma {:induction false} PresentPush(a: Slots, x: Option<Bytes>)
    ensures Present(a + [x]) == Present(a) + (if x.Some? then 1 else 0)
  {
    if a == [] {
      assert [x][1..] == [];
    } else {
      PresentPush(a[1..], x);
      assert (a + [x])[1..] == a[1..] + [x];
    }
  }

  /** The stripes behind slots that agree with the pieces agree with the codeword. */
  lemma SlotsAgree(rs: Rs, data: Bytes, k: nat, m: nat, slots: Slots)
    requires GoodConfig(k, m) && Mds(rs, k, m) && data != [] && |data| < U64
    requires Agrees(slots, EcEncode(rs, data, k, m))
    ensures |slots| == k + m && (forall i :: 0 <= i < |slots| ==> SlotOk(slots, i))
    ensures Agrees(StripesOf(slots), Codeword(rs, DataStripes(data, StripeLen(|data|, k), k), m))
    ensures Present(StripesOf(slots)) == Present(slots)
    ensures LastLogical(slots, |slots|) == if Present(slots) > 0 then Some(|data|) else None
  {
    hide Mds;
    EncodeShape(rs, data, k, m);
    forall i | 0 <= i < k + m && slots[i].Some?
      ensures ParsePieceHeader(slots[i].value) == Some(PieceHeader(k, m, i, |data|))
    {
      PiecesParse(rs, data, k, m, i);
    }
    hide EcEncode;
    PresentSame(StripesOf(slots), slots);
    LastLogicalIs(slots, |slots|, |data|);
    assert slots[..|slots|] == slots;
  }

  /** Any k of the k + m pieces give the body back, with or without reconstruction. */
  lemma RoundTrip(rs: Rs, data: Bytes, k: nat, m: nat, slots: Slots)
    requires GoodConfig(k, m) && Mds(rs, k, m) && data != [] && |data| < U64
    requires Agrees(slots, EcEncode(rs, data, k, m))
    ensures Decode(rs, slots, k, m) == if Present(slots) >= k then Ok(data) else if Present(slots) == 0 then Err(NoPieces) else Err(TooFew)
  {
    SlotsAgree(rs, data, k, m, slots);
    hide EcEncode;
    hide SlotOk;
    var d, stripes := DataStripes(data, StripeLen(|data|, k), k), StripesOf(slots);
    if Present(slots) >= k {
      assert Stripes(d, k);
      assert rs.recover(k, m, stripes) == Some(Codeword(rs, d, m));
      assert Agrees(stripes, Codeword(rs, d, m));
      hide Mds;
      Assembled(rs, data, k, m, stripes);
    }
  }

  lemma Assembled(rs: Rs, data: Bytes, k: nat, m: nat, stripes: Slots)
    requires k > 0 && |stripes| == k + m
    requires var cw := Codeword(rs, DataStripes(data, StripeLen(|data|, k), k), m);
      Agrees(stripes, cw) && rs.recover(k, m, stripes) == Some(cw) && Present(stripes) >= k
    ensures FromStripes(rs, stripes, k, m, |data|) == Ok(data)
  {
    hide Present;
    var s := StripeLen(|data|, k);
    var d := DataStripes(data, s, k);
    JoinStripes(data, s, k);
    StripesCover(|data|, k);
    hide Join;
    hide StripeAt;
    hide StripeLen;
    assert Truncate(Join(d), |data|) == data;
    assert Codeword(rs, d, m)[..k] == d;
    if AllSome(stripes[..k]).Some? { assert AllSome(stripes[..k]).value == d; }
  }

  /** Repair returns the original pieces byte for byte. */
  lemma RepairExact(rs: Rs, data: Bytes, k: nat, m: nat, slots: Slots)
    requires GoodConfig(k, m) && Mds(rs, k, m) && data != [] && |data| < U64
    requires Agrees(slots, EcEncode(rs, data, k, m)) && Present(slots) >= k
    ensures EcRepairPieces(rs, slots, k, m) == Ok(EcEncode(rs, data, k, m))
  {
    RoundTrip(rs, data, k, m, slots);
  }

  // ----- the contract is satisfiable: one parity stripe that makes every column sum to zero modulo 256

  function ByteAt(b: Bytes, c: nat): nat { if c < |b| then b[c] else 0 }

  function ColumnSum(slots: Slots, c: nat): nat {
    if slots == [] then 0
    else (match slots[0] case Some(b) => ByteAt(b, c) case None => 0) + ColumnSum(slots[1..], c)
  }

  function Negated(x: nat): byte { (256 - x % 256) % 256 }

  /** The stripe of length len that brings every column to zero. */
  function Balancing(slots: Slots, len: nat): (b: Bytes)
    ensures |b| == len
  {
    seq(len, c requires 0 <= c < len => Negated(ColumnSum(slots, c)))
  }

  function Filled(parts: seq<Bytes>): (s: Slots)
    ensures |s| == |parts| && forall i :: 0 <= i < |s| ==> s[i] == Some(parts[i])
  {
    seq(|parts|, i requires 0 <= i < |parts| => Some(parts[i]))
  }

  function FirstGap(slots: Slots): (i: nat)
    ensures i <= |slots| && (i < |slots| ==> slots[i].None?) && forall j :: 0 <= j < i ==> slots[j].Some?
  {
    if slots == [] || slots[0].None? then 0 else 1 + FirstGap(slots[1..])
  }

  function StripeLength(slots: Slots): nat {
    if slots == [] then 0 else if slots[0].Some? then |slots[0].value| else StripeLength(slots[1..])
  }

  function SumParity(data: seq<Bytes>, m: nat): seq<Bytes> {
    if m == 1 && data != [] then [Balancing(Filled(data), |data[0]|)] else []
  }

  function SumRecover(k: nat, m: nat, slots: Slots): Option<seq<Bytes>> {
    var gap := FirstGap(slots);
    AllSome(if gap < |slots| then slots[gap := Some(Balancing(slots, StripeLength(slots)))] else slots)
  }

  const SUM_CODE := Rs(SumParity, SumRecover)

  lemma {:induction false} ColumnSumSet(slots: Slots, i: nat, b: Bytes, c: nat)
    requires i < |slots| && slots[i].None?
    ensures ColumnSum(slots[i := Some(b)], c) == ColumnSum(slots, c) + ByteAt(b, c)
  {
    if i > 0 {
      ColumnSumSet(slots[1..], i - 1, b, c);
      assert slots[i := Some(b)][1..] == slots[1..][i - 1 := Some(b)];
    } else {
      assert slots[0 := Some(b)][1..] == slots[1..];
    }
  }

  lemma {:induction false} ColumnSumPush(slots: Slots, b: Bytes, c: nat)
    ensures ColumnSum(slots + [Some(b)], c) == ColumnSum(slots, c) + ByteAt(b, c)
  {
    if slots == [] {
      assert [Some(b)][1..] == [];
      assert ColumnSum([Some(b)], c) == ByteAt(b, c) + ColumnSum([], c);
    } else {
      ColumnSumPush(slots[1..], b, c);
      assert (slots + [Some(b)])[1..] == slots[1..] + [Some(b)];
    }
  }

  lemma {:induction false} PresentBound(slots: Slots)
    ensures Present(slots) <= |slots|
  {
    if slots != [] { PresentBound(slots[1..]); }
  }

  /** With at most one slot empty, the others are filled. */
  lemma {:induction false} OneGap(slots: Slots, i: nat, j: nat)
    requires Present(slots) + 1 >= |slots| && i < j < |slots| && slots[i].None?
    ensures slots[j].Some?
  {
    if i > 0 {
      OneGap(slots[1..], i - 1, j - 1);
    } else {
      AllPresent(slots[1..], j - 1);
    }
  }

  lemma {:induction false} AllPresent(slots: Slots, j: nat)
    requires Present(slots) >= |slots| && j < |slots|
    ensures slots[j].Some?
  {
    PresentBound(slots[1..]);
    if j > 0 { AllPresent(slots[1..], j - 1); }
  }

  lemma {:induction false} StripeLengthIs(slots: Slots, len: nat)
    requires Present(slots) > 0 && forall i :: 0 <= i < |slots| && slots[i].Some? ==> |slots[i].value| == len
    ensures StripeLength(slots) == len
  {
    if slots[0].None? { StripeLengthIs(slots[1..], len); }
  }

  lemma NegatedCancels(x: nat, b: byte)
    requires (x + b) % 256 == 0
    ensures Negated(x) == b
  {
  }

  lemma NegatedBalances(x: nat)
    ensures (x + Negated(x)) % 256 == 0
  {
  }

  /** The balanced column of a codeword. */
  lemma CodewordBalanced(data: seq<Bytes>, c: nat)
    requires data != [] && c < |data[0]|
    ensures ColumnSum(Filled(Codeword(SUM_CODE, data, 1)), c) % 256 == 0
  {
    var p := Balancing(Filled(data), |data[0]|);
    assert Filled(Codeword(SUM_CODE, data, 1)) == Filled(data) + [Some(p)];
    ColumnSumPush(Filled(data), p, c);
    NegatedBalances(ColumnSum(Filled(data), c));
  }

  lemma SumRecovers(k: nat, data: seq<Bytes>, slots: Slots)
    requires k >= 1 && Stripes(data, k) && Agrees(slots, Codeword(SUM_CODE, data, 1)) && Present(slots) >= k
    ensures SUM_CODE.recover(k, 1, slots) == Some(Codeword(SUM_CODE, data, 1))
  {
    var cw, gap, len := Codeword(SUM_CODE, data, 1), FirstGap(slots), |data[0]|;
    var b := Balancing(slots, StripeLength(slots));
    var full := if gap < |slots| then slots[gap := Some(b)] else slots;
    StripeLengthIs(slots, len);
    forall i | 0 <= i < |slots| ensures full[i] == Some(cw[i]) {
      if i == gap {
        forall j | gap < j < |slots| ensures slots[j].Some? { OneGap(slots, gap, j); }
        assert slots[gap := Some(cw[gap])] == Filled(cw);
        forall c | 0 <= c < len ensures b[c] == cw[gap][c] {
          ColumnSumSet(slots, gap, cw[gap], c);
          CodewordBalanced(data, c);
          NegatedCancels(ColumnSum(slots, c), cw[gap][c]);
        }
        assert b == cw[gap];
      } else if i > gap {
        OneGap(slots, gap, i);
      }
    }
    if AllSome(full).Some? { assert AllSome(full).value == cw; }
  }

  /** The contract every theorem assumes of the code is met for every number of data stripes with one parity stripe. */
  lemma ContractSatisfiable(k: nat)
    requires k >= 1
    ensures Mds(SUM_CODE, k, 1) && (k <= 254 ==> GoodConfig(k, 1))
  {
    forall data, slots | Stripes(data, k) && Agrees(slots, Codeword(SUM_CODE, data, 1)) && Present(slots) >= k
      ensures SUM_CODE.recover(k, 1, slots) == Some(Codeword(SUM_CODE, data, 1))
    {
      SumRecovers(k, data, slots);
    }
  }
}
