/** The self-describing envelope of an erasure piece, which tells pieces from raw bodies. */
module Pieces {
  import opened Bytes

  const EC_MAGIC: Bytes := [0x4F, 0x5A, 0x45, 0x43]
  const EC_VER: byte := 1
  const EC_HEADER_LEN: nat := 16

  datatype PieceHeader = PieceHeader(k: byte, m: byte, pieceIdx: byte, logicalLen: nat)

  function CeilDiv(n: nat, d: nat): nat
    requires d > 0
  {
    (n + d - 1) / d
  }

  function EncodePieceHeader(h: PieceHeader): (b: Bytes)
    ensures |b| == EC_HEADER_LEN
  {
    EC_MAGIC + [EC_VER, h.k, h.m, h.pieceIdx] + ToLe(h.logicalLen, 8)
  }

  /** None for a raw body. The count k + m is a byte and wraps. */
  function ParsePieceHeader(body: Bytes): (p: Option<PieceHeader>)
    ensures p.Some? ==> |body| >= EC_HEADER_LEN && p.value.k > 0 && p.value.m > 0
    ensures p.Some? ==> p.value.pieceIdx < (p.value.k + p.value.m) % 256
    ensures p.Some? ==> |body| == EC_HEADER_LEN + CeilDiv(p.value.logicalLen, p.value.k)
  {
    if |body| < EC_HEADER_LEN || body[..4] != EC_MAGIC || body[4] != EC_VER then None
    else
      var h := PieceHeader(body[5], body[6], body[7], FromLe(body[8..16]));
      if h.k == 0 || h.m == 0 || h.pieceIdx >= (h.k + h.m) % 256 then None
      else if |body| - EC_HEADER_LEN != CeilDiv(h.logicalLen, h.k) then None
      else Some(h)
  }

  /** A header followed by a stripe parses back exactly when its fields are in range and the stripe has the right length. */
  lemma PieceRoundTrip(h: PieceHeader, stripe: Bytes)
    requires h.logicalLen < U64
    ensures ParsePieceHeader(EncodePieceHeader(h) + stripe) ==
      if h.k > 0 && h.m > 0 && h.pieceIdx < (h.k + h.m) % 256 && |stripe| == CeilDiv(h.logicalLen, h.k) then Some(h) else None
  {
    var b := EncodePieceHeader(h) + stripe;
    assert b[..4] == EC_MAGIC && b[4] == EC_VER && b[5] == h.k && b[6] == h.m && b[7] == h.pieceIdx;
    assert b[8..16] == ToLe(h.logicalLen, 8);
    WidthSizes();
    LeFits(h.logicalLen, 8);
  }

  /** Conversely a body parses only then: it begins with the encoding of that header, magic and version included. */
  lemma PieceExact(b: Bytes, h: PieceHeader)
    ensures ParsePieceHeader(b) == Some(h)
      <==> && |b| >= EC_HEADER_LEN && EncodePieceHeader(h) == b[..EC_HEADER_LEN] && h.logicalLen < U64
           && h.k > 0 && h.m > 0 && h.pieceIdx < (h.k + h.m) % 256 && |b| - EC_HEADER_LEN == CeilDiv(h.logicalLen, h.k)
  {
    WidthSizes();
    if |b| >= EC_HEADER_LEN && EncodePieceHeader(h) == b[..EC_HEADER_LEN] && h.logicalLen < U64 {
      PieceRoundTrip(h, b[EC_HEADER_LEN..]);
      assert b == EncodePieceHeader(h) + b[EC_HEADER_LEN..];
    }
    if ParsePieceHeader(b) == Some(h) {
      LeBytes(b[8..16]);
      assert b[..EC_HEADER_LEN] == b[..4] + [b[4], b[5], b[6], b[7]] + b[8..16];
    }
  }
}
