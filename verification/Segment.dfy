/**
 Pack segments: the record codec, the recovery scan of a possibly torn tail, and the writer
 that appends to the active segment, flushes it and rotates to the next one.
 */
module Segments {
  import opened Bytes

  function Max(a: nat, b: nat): nat { if a < b then b else a }

  const HEADER_LEN: nat := 20
  const MAGIC: Bytes := [0x4F, 0x5A, 0x42, 0x32]

  type u32 = x: int | 0 <= x < 0x1_0000_0000

  /** The checksum of a byte string; only its being a function is ever used. */
  type Crc = Bytes -> u32

  datatype Record = Record(key: Bytes, stored: Bytes, logicalLen: nat, flags: nat) {
    /** Every field fits the width the header gives it. */
    ghost predicate Sized() {
      |key| < U16 && |stored| < U32 && logicalLen < U32 && flags < U16
    }
    function Size(): nat { HEADER_LEN + |key| + |stored| }
  }

  datatype Header = Header(keyLen: nat, flags: nat, storedLen: nat, logicalLen: nat, crc: nat)
  datatype Recovered = Recovered(rec: Record, offset: nat)

  // ----- the codec

  function EncodeHeader(h: Header): (b: Bytes)
    ensures |b| == HEADER_LEN
  {
    MAGIC + ToLe(h.keyLen, 2) + ToLe(h.flags, 2) + ToLe(h.storedLen, 4) + ToLe(h.logicalLen, 4) + ToLe(h.crc, 4)
  }

  function ParseHeader(b: Bytes): Option<Header> {
    if |b| < HEADER_LEN || b[..4] != MAGIC then None
    else Some(Header(FromLe(b[4..6]), FromLe(b[6..8]), FromLe(b[8..12]), FromLe(b[12..16]), FromLe(b[16..20])))
  }

  lemma HeaderRoundTrip(h: Header)
    requires h.keyLen < U16 && h.flags < U16 && h.storedLen < U32 && h.logicalLen < U32 && h.crc < U32
    ensures ParseHeader(EncodeHeader(h)) == Some(h)
  {
    var b := EncodeHeader(h);
    assert b[..4] == MAGIC;
    assert b[4..6] == ToLe(h.keyLen, 2) && b[6..8] == ToLe(h.flags, 2);
    assert b[8..12] == ToLe(h.storedLen, 4) && b[12..16] == ToLe(h.logicalLen, 4) && b[16..20] == ToLe(h.crc, 4);
    WidthSizes();
    LeFits(h.keyLen, 2);
    LeFits(h.flags, 2);
    LeFits(h.storedLen, 4);
    LeFits(h.logicalLen, 4);
    LeFits(h.crc, 4);
  }

  /** Twenty bytes parse to a header exactly when they are that header's encoding: the magic is checked, nothing is lost. */
  lemma HeaderExact(b: Bytes, h: Header)
    requires |b| == HEADER_LEN
    ensures ParseHeader(b) == Some(h)
      <==> b == EncodeHeader(h) && h.keyLen < U16 && h.flags < U16 && h.storedLen < U32 && h.logicalLen < U32 && h.crc < U32
  {
    if ParseHeader(b) == Some(h) { HeaderBytes(b, h); }
    if h.keyLen < U16 && h.flags < U16 && h.storedLen < U32 && h.logicalLen < U32 && h.crc < U32 { HeaderRoundTrip(h); }
    hide *;
  }

  lemma HeaderBytes(b: Bytes, h: Header)
    requires |b| == HEADER_LEN && ParseHeader(b) == Some(h)
    ensures b == EncodeHeader(h) && h.keyLen < U16 && h.flags < U16 && h.storedLen < U32 && h.logicalLen < U32 && h.crc < U32
  {
    WidthSizes();
    LeBytes(b[4..6]);
    LeBytes(b[6..8]);
    LeBytes(b[8..12]);
    LeBytes(b[12..16]);
    LeBytes(b[16..20]);
    hide ToLe;
    hide FromLe;
    HeaderParts(b);
  }

  lemma HeaderParts(b: Bytes)
    requires |b| == HEADER_LEN
    ensures b == b[..4] + b[4..6] + b[6..8] + b[8..12] + b[12..16] + b[16..20]
  {
  }

  function HeaderOf(crc: Crc, r: Record): Header {
    Header(|r.key|, r.flags, |r.stored|, r.logicalLen, crc(r.key + r.stored))
  }

  function EncodeRecord(crc: Crc, r: Record): (b: Bytes)
    ensures |b| == r.Size()
  {
    EncodeHeader(HeaderOf(crc, r)) + r.key + r.stored
  }

  /** The record at the front of buf together with its length, if a whole and intact one is there. */
  function ParseRecord(crc: Crc, buf: Bytes): (p: Option<(Record, nat)>)
    ensures p.Some? ==> HEADER_LEN <= p.value.1 <= |buf| && p.value.1 == p.value.0.Size()
  {
    if |buf| < HEADER_LEN then None else
    match ParseHeader(buf[..HEADER_LEN])
    case None => None
    case Some(h) =>
      var total := HEADER_LEN + h.keyLen + h.storedLen;
      if |buf| < total then None
      else
        var key := buf[HEADER_LEN..HEADER_LEN + h.keyLen];
        var data := buf[HEADER_LEN + h.keyLen..total];
        if crc(key + data) != h.crc then None
        else Some((Record(key, data, h.logicalLen, h.flags), total))
  }

  /** Parsing at a position of a buffer, in terms of the buffer's own slices. */
  lemma ParseAt(crc: Crc, buf: Bytes, cur: nat)
    requires cur <= |buf|
    ensures |buf| - cur < HEADER_LEN ==> ParseRecord(crc, buf[cur..]) == None
    ensures |buf| - cur >= HEADER_LEN ==>
      match ParseHeader(buf[cur..cur + HEADER_LEN])
      case None => ParseRecord(crc, buf[cur..]) == None
      case Some(h) =>
        var total := HEADER_LEN + h.keyLen + h.storedLen;
        if |buf| - cur < total then ParseRecord(crc, buf[cur..]) == None
        else
          var key := buf[cur + HEADER_LEN..cur + HEADER_LEN + h.keyLen];
          var data := buf[cur + HEADER_LEN + h.keyLen..cur + total];
          && ParseRecord(crc, buf[cur..])
             == (if crc(key + data) != h.crc then None else Some((Record(key, data, h.logicalLen, h.flags), total)))
          && buf[cur..][total..] == buf[cur + total..]
  {
    hide ParseHeader;
    if |buf| - cur >= HEADER_LEN {
      assert buf[cur..][..HEADER_LEN] == buf[cur..cur + HEADER_LEN];
      var p := ParseHeader(buf[cur..cur + HEADER_LEN]);
      if p.Some? && |buf| - cur >= HEADER_LEN + p.value.keyLen + p.value.storedLen {
        var k, total := HEADER_LEN + p.value.keyLen, HEADER_LEN + p.value.keyLen + p.value.storedLen;
        assert buf[cur..][HEADER_LEN..k] == buf[cur + HEADER_LEN..cur + k];
        assert buf[cur..][k..total] == buf[cur + k..cur + total];
      }
    }
  }

  lemma ParseWhole(crc: Crc, r: Record, rest: Bytes)
    requires r.Sized()
    ensures ParseRecord(crc, EncodeRecord(crc, r) + rest) == Some((r, r.Size()))
  {
    hide ParseHeader;
    hide EncodeHeader;
    var buf := EncodeRecord(crc, r) + rest;
    HeaderRoundTrip(HeaderOf(crc, r));
    assert buf[..HEADER_LEN] == EncodeHeader(HeaderOf(crc, r));
    assert buf[HEADER_LEN..HEADER_LEN + |r.key|] == r.key;
    assert buf[HEADER_LEN + |r.key|..r.Size()] == r.stored;
  }

  /** A record that is not wholly there is never taken for one, whatever the checksum function. */
  lemma ParseTorn(crc: Crc, r: Record, cut: nat)
    requires r.Sized() && cut < r.Size()
    ensures ParseRecord(crc, EncodeRecord(crc, r)[..cut]) == None
  {
    if cut >= HEADER_LEN {
      HeaderRoundTrip(HeaderOf(crc, r));
      assert EncodeRecord(crc, r)[..cut][..HEADER_LEN] == EncodeHeader(HeaderOf(crc, r));
    }
  }

  /**
   A record parses at the front of a buffer exactly when the buffer begins with its encoding, so that nothing else is ever
   taken for one: not zeros, not another format, not a record with a bit changed under its checksum.
   */
  lemma ParseExact(crc: Crc, buf: Bytes, r: Record)
    ensures ParseRecord(crc, buf) == Some((r, r.Size())) <==> r.Sized() && EncodeRecord(crc, r) <= buf
  {
    if ParseRecord(crc, buf) == Some((r, r.Size())) { ParsedIs(crc, buf); }
    if r.Sized() && EncodeRecord(crc, r) <= buf {
      var rest := buf[r.Size()..];
      assert buf == EncodeRecord(crc, r) + rest;
      ParseWhole(crc, r, rest);
    }
    hide *;
  }

  /** What parses is the encoding of what it parses to. */
  lemma ParsedIs(crc: Crc, buf: Bytes)
    requires ParseRecord(crc, buf).Some?
    ensures var p := ParseRecord(crc, buf).value;
      p.0.Sized() && p.1 == p.0.Size() && buf[..p.1] == EncodeRecord(crc, p.0)
  {
    hide EncodeHeader;
    hide ParseHeader;
    var p, b := ParseRecord(crc, buf).value, buf[..HEADER_LEN];
    var h := ParseHeader(b).value;
    HeaderBytes(b, h);
    assert h == HeaderOf(crc, p.0);
    Pieced(buf, |p.0.key|, p.1);
  }

  lemma Pieced(buf: Bytes, keyLen: nat, total: nat)
    requires HEADER_LEN + keyLen <= total <= |buf|
    ensures buf[..total] == buf[..HEADER_LEN] + buf[HEADER_LEN..HEADER_LEN + keyLen] + buf[HEADER_LEN + keyLen..total]
  {
  }

  // ----- whole segments

  function EncodeAll(crc: Crc, rs: seq<Record>): (b: Bytes)
    ensures |b| == SegLen(rs)
  {
    if rs == [] then [] else EncodeRecord(crc, rs[0]) + EncodeAll(crc, rs[1..])
  }

  /** File length of a segment holding these records; SegLen(rs[..i]) is the offset of record i. */
  function SegLen(rs: seq<Record>): nat {
    if rs == [] then 0 else rs[0].Size() + SegLen(rs[1..])
  }

  ghost predicate AllSized(rs: seq<Record>) { forall i :: 0 <= i < |rs| ==> rs[i].Sized() }

  lemma {:induction false} SegLenConcat(a: seq<Record>, b: seq<Record>)
    ensures SegLen(a + b) == SegLen(a) + SegLen(b)
  {
    if a == [] {
      assert a + b == b;
    } else {
      SegLenConcat(a[1..], b);
      assert (a + b)[1..] == a[1..] + b;
    }
  }

  lemma ConcatAssoc(a: Bytes, b: Bytes, c: Bytes)
    ensures a + (b + c) == a + b + c
  {
  }

  lemma AppendAssoc<T>(a: seq<T>, x: T, b: seq<T>)
    ensures a + [x] + b == a + ([x] + b)
  {
  }

  lemma {:induction false} EncodeConcat(crc: Crc, a: seq<Record>, b: seq<Record>)
    ensures EncodeAll(crc, a + b) == EncodeAll(crc, a) + EncodeAll(crc, b)
  {
    hide EncodeRecord;
    if a == [] {
      assert a + b == b;
    } else {
      EncodeConcat(crc, a[1..], b);
      assert (a + b)[1..] == a[1..] + b;
      ConcatAssoc(EncodeRecord(crc, a[0]), EncodeAll(crc, a[1..]), EncodeAll(crc, b));
    }
  }

  lemma SegLenSplit(rs: seq<Record>, f: nat, i: nat)
    requires f <= i <= |rs|
    ensures SegLen(rs[..i]) == SegLen(rs[..f]) + SegLen(rs[f..][..i - f])
  {
    SegLenConcat(rs[..f], rs[f..][..i - f]);
    assert rs[..i] == rs[..f] + rs[f..][..i - f];
  }

  lemma SegLenPrefix(rs: seq<Record>, i: nat, j: nat)
    requires i <= j <= |rs|
    ensures SegLen(rs[..i]) <= SegLen(rs[..j])
    ensures i < j ==> SegLen(rs[..i]) + rs[i].Size() <= SegLen(rs[..j])
  {
    SegLenSplit(rs, i, j);
  }

  /** Offsets and record indices name the same order: an address by offset is an address by index. */
  lemma OffsetsNameRecords(rs: seq<Record>, i: nat, j: nat)
    requires i < |rs| && j < |rs|
    ensures SegLen(rs[..i]) == SegLen(rs[..j]) <==> i == j
    ensures SegLen(rs[..i]) < SegLen(rs[..j]) <==> i < j
  {
    if i < j { SegLenPrefix(rs, i, j); }
    if j < i { SegLenPrefix(rs, j, i); }
  }

  /** The recovery scan: whole records from the front of buf up to the first that is not. */
  function Scan(crc: Crc, buf: Bytes, base: nat): seq<Recovered>
    decreases |buf|
  {
    match ParseRecord(crc, buf)
    case None => []
    case Some(p) => [Recovered(p.0, base)] + Scan(crc, buf[p.1..], base + p.1)
  }

  /** Where the scan stops. */
  function ScanEnd(crc: Crc, buf: Bytes, base: nat): (end: nat)
    ensures base <= end <= base + |buf|
    decreases |buf|
  {
    match ParseRecord(crc, buf)
    case None => base
    case Some(p) => ScanEnd(crc, buf[p.1..], base + p.1)
  }

  /** The records of rs with their offsets, the first one at base. */
  function Placed(rs: seq<Record>, base: nat): (p: seq<Recovered>)
    ensures |p| == |rs|
  {
    if rs == [] then [] else [Recovered(rs[0], base)] + Placed(rs[1..], base + rs[0].Size())
  }

  lemma {:induction false} PlacedAt(rs: seq<Record>, base: nat, i: nat)
    requires i < |rs|
    ensures Placed(rs, base)[i] == Recovered(rs[i], base + SegLen(rs[..i]))
  {
    if i > 0 {
      PlacedAt(rs[1..], base + rs[0].Size(), i - 1);
      assert rs[..i][1..] == rs[1..][..i - 1];
    }
  }

  lemma {:induction false} PlacedSplit(rs: seq<Record>, base: nat, f: nat)
    requires f <= |rs|
    ensures Placed(rs, base)[f..] == Placed(rs[f..], base + SegLen(rs[..f]))
    decreases f
  {
    if f == 0 {
      assert rs[..0] == [] && rs[0..] == rs;
    } else {
      PlacedSplit(rs[1..], base + rs[0].Size(), f - 1);
      assert rs[..f][1..] == rs[1..][..f - 1];
      assert rs[1..][f - 1..] == rs[f..];
      assert Placed(rs, base)[f..] == Placed(rs, base)[1..][f - 1..];
    }
  }

  /** n is the number of records of rs that lie wholly within the first cut bytes. */
  ghost predicate WholeWithin(rs: seq<Record>, cut: nat, n: nat) {
    n <= |rs| && SegLen(rs[..n]) <= cut && (n < |rs| ==> cut < SegLen(rs[..n + 1]))
  }

  lemma WholeWithinTail(rs: seq<Record>, cut: nat, n: nat, f: nat)
    requires WholeWithin(rs, cut, n) && f <= |rs| && SegLen(rs[..f]) <= cut
    ensures f <= n <= |rs| && WholeWithin(rs[f..], cut - SegLen(rs[..f]), n - f)
  {
    if n < f { SegLenPrefix(rs, n + 1, f); }
    SegLenSplit(rs, f, n);
    if n < |rs| { SegLenSplit(rs, f, n + 1); }
  }

  /**
   Torn tail: scanning any truncation of a run of records yields exactly the records wholly inside the
   cut, at their offsets, and stops right after the last of them.
   */
  lemma {:induction false} ScanTorn(crc: Crc, rs: seq<Record>, cut: nat, n: nat, base: nat)
    requires AllSized(rs) && cut <= SegLen(rs) && WholeWithin(rs, cut, n)
    ensures Scan(crc, EncodeAll(crc, rs)[..cut], base) == Placed(rs[..n], base)
    ensures ScanEnd(crc, EncodeAll(crc, rs)[..cut], base) == base + SegLen(rs[..n])
    decreases |rs|
  {
    hide EncodeRecord;
    hide ParseRecord;
    hide WholeWithin;
    hide Record.Sized;
    var buf := EncodeAll(crc, rs)[..cut];
    NoRecordsLeft(crc, rs, cut, n);
    if n == 0 {
      assert rs[..n] == [];
    } else {
      FirstWhole(rs, cut, n);
      var first, rest, size := EncodeRecord(crc, rs[0]), EncodeAll(crc, rs[1..]), rs[0].Size();
      assert buf == first + rest[..cut - size];
      ParseWhole(crc, rs[0], rest[..cut - size]);
      ScanTorn(crc, rs[1..], cut - size, n - 1, base + size);
      assert buf[size..] == rest[..cut - size];
      assert rs[..n][1..] == rs[1..][..n - 1];
    }
  }

  lemma FirstWhole(rs: seq<Record>, cut: nat, n: nat)
    requires WholeWithin(rs, cut, n) && 0 < n
    ensures 0 < |rs| && n <= |rs| && rs[0].Size() <= cut && WholeWithin(rs[1..], cut - rs[0].Size(), n - 1)
  {
    SegLenPrefix(rs, 1, n);
    assert rs[..1] == [rs[0]] && SegLen([rs[0]][1..]) == 0;
    WholeWithinTail(rs, cut, n, 1);
  }

  lemma NoRecordsLeft(crc: Crc, rs: seq<Record>, cut: nat, n: nat)
    requires AllSized(rs) && cut <= SegLen(rs) && WholeWithin(rs, cut, n)
    ensures n == 0 ==> ParseRecord(crc, EncodeAll(crc, rs)[..cut]) == None
  {
    if n == 0 && rs != [] {
      assert rs[..1] == [rs[0]] && SegLen([rs[0]][1..]) == 0;
      ParseTorn(crc, rs[0], cut);
      assert EncodeAll(crc, rs)[..cut] == EncodeRecord(crc, rs[0])[..cut];
    }
  }

  /** The buffer begins with the encodings of rs, and no record's encoding follows them. */
  ghost predicate LongestRun(crc: Crc, buf: Bytes, rs: seq<Record>) {
    && AllSized(rs) && EncodeAll(crc, rs) <= buf
    && forall r: Record :: r.Sized() ==> !(EncodeRecord(crc, r) <= buf[SegLen(rs)..])
  }

  /** Scanning any bytes at all yields the records the buffer begins with, at their offsets, up to where no record follows. */
  lemma {:induction false} ScanExact(crc: Crc, buf: Bytes, base: nat) returns (rs: seq<Record>)
    ensures LongestRun(crc, buf, rs)
    ensures Scan(crc, buf, base) == Placed(rs, base) && ScanEnd(crc, buf, base) == base + SegLen(rs)
    decreases |buf|
  {
    hide *;
    ScanStep(crc, buf, base);
    var p := ParseRecord(crc, buf);
    if p.None? {
      rs := [];
      NoRun(crc, buf);
    } else {
      var r, n := p.value.0, p.value.1;
      ParsedIs(crc, buf);
      var rest := ScanExact(crc, buf[n..], base + n);
      rs := [r] + rest;
      PlacedCons(r, rest, base);
      RunGrows(crc, buf, r, rest);
    }
  }

  lemma ScanStep(crc: Crc, buf: Bytes, base: nat)
    ensures Placed([], base) == [] && SegLen([]) == 0
    ensures match ParseRecord(crc, buf)
      case None => Scan(crc, buf, base) == [] && ScanEnd(crc, buf, base) == base
      case Some(p) =>
        && Scan(crc, buf, base) == [Recovered(p.0, base)] + Scan(crc, buf[p.1..], base + p.1)
        && ScanEnd(crc, buf, base) == ScanEnd(crc, buf[p.1..], base + p.1)
  {
    hide ParseRecord;
  }

  lemma PlacedCons(r: Record, rest: seq<Record>, base: nat)
    ensures Placed([r] + rest, base) == [Recovered(r, base)] + Placed(rest, base + r.Size())
    ensures SegLen([r] + rest) == r.Size() + SegLen(rest)
  {
    assert ([r] + rest)[1..] == rest;
  }

  lemma NoRun(crc: Crc, buf: Bytes)
    requires ParseRecord(crc, buf).None?
    ensures LongestRun(crc, buf, [])
  {
    hide ParseRecord;
    hide EncodeRecord;
    assert buf[0..] == buf;
    forall r: Record | r.Sized() ensures !(EncodeRecord(crc, r) <= buf) { ParseExact(crc, buf, r); }
  }

  lemma RunGrows(crc: Crc, buf: Bytes, r: Record, rest: seq<Record>)
    requires r.Sized() && EncodeRecord(crc, r) <= buf && LongestRun(crc, buf[r.Size()..], rest)
    ensures LongestRun(crc, buf, [r] + rest)
  {
    hide EncodeRecord;
    var rs, n := [r] + rest, r.Size();
    assert rs[1..] == rest;
    assert buf == buf[..n] + buf[n..] && EncodeAll(crc, rs) == buf[..n] + EncodeAll(crc, rest);
    assert buf[SegLen(rs)..] == buf[n..][SegLen(rest)..];
  }

  /** There is only one such run. */
  lemma {:induction false} RunUnique(crc: Crc, buf: Bytes, a: seq<Record>, b: seq<Record>)
    requires LongestRun(crc, buf, a) && LongestRun(crc, buf, b)
    ensures a == b
    decreases |a|
  {
    hide EncodeRecord;
    if a == [] || b == [] {
      assert buf[0..] == buf;
      var c := if a == [] then b else a;
      if c != [] { FirstOfRun(crc, buf, c); }
    } else {
      FirstOfRun(crc, buf, a);
      FirstOfRun(crc, buf, b);
      ParseExact(crc, buf, a[0]);
      ParseExact(crc, buf, b[0]);
      RunUnique(crc, buf[a[0].Size()..], a[1..], b[1..]);
      assert a == [a[0]] + a[1..] && b == [b[0]] + b[1..];
    }
  }

  lemma FirstOfRun(crc: Crc, buf: Bytes, rs: seq<Record>)
    requires LongestRun(crc, buf, rs) && rs != []
    ensures rs[0].Sized() && EncodeRecord(crc, rs[0]) <= buf && LongestRun(crc, buf[rs[0].Size()..], rs[1..])
  {
    hide EncodeRecord;
    var n := rs[0].Size();
    var first, rest := EncodeRecord(crc, rs[0]), EncodeAll(crc, rs[1..]);
    assert EncodeAll(crc, rs) == first + rest;
    assert buf[n..] == buf[n..] && rest <= buf[n..] by { assert buf[..n + |rest|] == first + rest; }
    assert buf[SegLen(rs)..] == buf[n..][SegLen(rs[1..])..];
  }

  /** A sealed segment scans back to all of its records: what garbage collection walks. */
  lemma ScanSealed(crc: Crc, rs: seq<Record>)
    requires AllSized(rs)
    ensures Scan(crc, EncodeAll(crc, rs), 0) == Placed(rs, 0)
  {
    var b := EncodeAll(crc, rs);
    assert rs[..|rs|] == rs && b[..|b|] == b;
    ScanTorn(crc, rs, |b|, |rs|, 0);
  }

  datatype ReadResult = Body(stored: Bytes) | Short | Mismatch

  /** Positional read of a record body with its checksum verified. */
  function ReadRecord(crc: Crc, file: Bytes, offset: nat, keyLen: nat, storedLen: nat, want: u32): ReadResult {
    var total := HEADER_LEN + keyLen + storedLen;
    if |file| < offset + total then Short
    else
      var payload := file[offset + HEADER_LEN..offset + total];
      if crc(payload) != want then Mismatch else Body(payload[keyLen..])
  }

  /** A read returns a body only with the checksum its row asks for, and nothing when the file ends before the record. */
  lemma ReadVerified(crc: Crc, file: Bytes, offset: nat, keyLen: nat, storedLen: nat, want: u32, stored: Bytes)
    ensures ReadRecord(crc, file, offset, keyLen, storedLen, want) == Short <==> |file| < offset + HEADER_LEN + keyLen + storedLen
    ensures ReadRecord(crc, file, offset, keyLen, storedLen, want) == Body(stored)
      <==> exists key :: |key| == keyLen && |stored| == storedLen && crc(key + stored) == want && HasAt(file, offset + HEADER_LEN, key + stored)
  {
    var from, total := offset + HEADER_LEN, HEADER_LEN + keyLen + storedLen;
    if |file| >= offset + total {
      var payload := file[from..offset + total];
      assert payload == payload[..keyLen] + payload[keyLen..];
      if key :| |key| == keyLen && |stored| == storedLen && crc(key + stored) == want && HasAt(file, from, key + stored) {
        assert payload == key + stored && payload[keyLen..] == stored;
      }
    }
  }

  /** The bytes b stand in the file at an offset. */
  predicate HasAt(file: Bytes, offset: nat, b: Bytes) { offset + |b| <= |file| && file[offset..offset + |b|] == b }

  /** Every record of a segment reads back at its offset. */
  lemma ReadBack(crc: Crc, rs: seq<Record>, i: nat)
    requires i < |rs|
    ensures ReadRecord(crc, EncodeAll(crc, rs), SegLen(rs[..i]), |rs[i].key|, |rs[i].stored|, crc(rs[i].key + rs[i].stored))
            == Body(rs[i].stored)
  {
    var off, r := SegLen(rs[..i]), rs[i];
    var pre, post := EncodeAll(crc, rs[..i]), EncodeAll(crc, rs[i + 1..]);
    EncodeConcat(crc, rs[..i], rs[i..]);
    assert rs == rs[..i] + rs[i..] && rs[i..][1..] == rs[i + 1..];
    ReadInside(crc, pre, r, post);
  }

  lemma ReadInside(crc: Crc, pre: Bytes, r: Record, post: Bytes)
    ensures ReadRecord(crc, pre + (EncodeRecord(crc, r) + post), |pre|, |r.key|, |r.stored|, crc(r.key + r.stored)) == Body(r.stored)
  {
    hide EncodeHeader;
    var file := pre + (EncodeRecord(crc, r) + post);
    var payload := file[|pre| + HEADER_LEN..|pre| + r.Size()];
    assert payload == r.key + r.stored;
  }

  lemma EncodeAppend(crc: Crc, rs: seq<Record>, r: Record)
    ensures EncodeAll(crc, rs + [r]) == EncodeAll(crc, rs) + EncodeRecord(crc, r)
    ensures SegLen(rs + [r]) == SegLen(rs) + r.Size()
  {
    hide EncodeRecord;
    EncodeConcat(crc, rs, [r]);
    SegLenConcat(rs, [r]);
    assert EncodeAll(crc, [r]) == EncodeRecord(crc, r) + EncodeAll(crc, []);
    assert SegLen([r]) == r.Size() + SegLen([]);
  }

  // ----- the writer

  datatype Meta = Meta(segId: nat, flushOffset: nat)

  /** Files of one segment directory: the segments by id, and the recovery point. */
  datatype Dir = Dir(segs: map<nat, Bytes>, meta: Option<Meta>)

  /** The recovery point open starts from; a directory that has none yet starts at the front of segment 0. */
  function PointOf(d: Dir): Meta { match d.meta case Some(m) => m case None => Meta(0, 0) }

  /** The active file, which open creates when it is not there. */
  function FileOf(d: Dir): Bytes { if PointOf(d).segId in d.segs then d.segs[PointOf(d).segId] else [] }

  /** What open does to a directory, as a function: the recovered records, the writer position, the files left. */
  function OpenResult(crc: Crc, d: Dir): (nat, nat, seq<Recovered>, Dir) {
    var id, flushed, file := PointOf(d).segId, PointOf(d).flushOffset, FileOf(d);
    var start := Min(flushed, |file|);
    var end := ScanEnd(crc, file[start..], start);
    (id, Max(end, flushed), Scan(crc, file[start..], start), d.(segs := d.segs[id := file[..end]]))
  }

  /** The active file holds records rs cut at or after the flush offset, which stands after the first f; n survived whole. */
  ghost predicate Stopped(crc: Crc, d: Dir, rs: seq<Record>, f: nat, cut: nat, n: nat) {
    && AllSized(rs) && f <= |rs| && PointOf(d).flushOffset == SegLen(rs[..f]) <= cut <= SegLen(rs)
    && FileOf(d) == EncodeAll(crc, rs)[..cut] && WholeWithin(rs, cut, n)
  }

  /**
   Recovery after a stop: the active file holds records rs cut anywhere at or after the flush offset, which stands
   after the first f records; a directory never flushed, even an empty one, has f = 0. Opening recovers exactly the
   records past f that survived whole, at their true offsets, leaves exactly the surviving records in the file, and
   opening again does the same.
   */
  lemma RecoveryExact(crc: Crc, d: Dir, rs: seq<Record>, f: nat, cut: nat, n: nat)
    requires Stopped(crc, d, rs, f, cut, n)
    ensures f <= n <= |rs| && OpenResult(crc, d).0 == PointOf(d).segId
    ensures OpenResult(crc, d).1 == SegLen(rs[..n])
    ensures OpenResult(crc, d).2 == Placed(rs[..n], 0)[f..]
    ensures OpenResult(crc, d).3 == d.(segs := d.segs[PointOf(d).segId := EncodeAll(crc, rs[..n])])
    ensures OpenResult(crc, OpenResult(crc, d).3) == OpenResult(crc, d)
  {
    hide EncodeAll;
    hide SegLen;
    hide Placed;
    hide WholeWithin;
    hide Scan;
    hide ScanEnd;
    hide AllSized;
    OpenOnce(crc, d, rs, f, cut, n);
    var d2, kept := OpenResult(crc, d).3, rs[..n];
    hide OpenResult;
    assert kept[..f] == rs[..f] && kept[..n] == kept;
    SegLenPrefix(rs, f, n);
    SizedParts(rs, n);
    AllWhole(kept);
    OpenOnce(crc, d2, kept, f, SegLen(kept), n);
    assert d2.segs[PointOf(d).segId := EncodeAll(crc, kept)] == d2.segs;
  }

  lemma AllWhole(rs: seq<Record>)
    ensures WholeWithin(rs, SegLen(rs), |rs|)
  {
    assert rs[..|rs|] == rs;
  }

  lemma OpenOnce(crc: Crc, d: Dir, rs: seq<Record>, f: nat, cut: nat, n: nat)
    requires Stopped(crc, d, rs, f, cut, n)
    ensures f <= n <= |rs|
    ensures OpenResult(crc, d) == (PointOf(d).segId, SegLen(rs[..n]), Placed(rs[..n], 0)[f..],
                                   d.(segs := d.segs[PointOf(d).segId := EncodeAll(crc, rs[..n])]))
  {
    hide EncodeAll;
    hide SegLen;
    hide Placed;
    hide WholeWithin;
    hide Scan;
    hide ScanEnd;
    var start := SegLen(rs[..f]);
    var file := EncodeAll(crc, rs)[..cut];
    ScanPastFlush(crc, rs, f, cut, n);
    KeptPrefix(crc, rs, cut, n);
    SegLenPrefix(rs, f, n);
  }

  /**
   Opening any directory, whatever bytes are in it: past the recovery point it recovers exactly the records the file goes on
   with, up to where no record follows, and cuts the file there.
   */
  lemma OpenExact(crc: Crc, d: Dir) returns (rs: seq<Record>)
    ensures var start := Min(PointOf(d).flushOffset, |FileOf(d)|);
      && LongestRun(crc, FileOf(d)[start..], rs)
      && OpenResult(crc, d) == (PointOf(d).segId, Max(start + SegLen(rs), PointOf(d).flushOffset), Placed(rs, start),
                                d.(segs := d.segs[PointOf(d).segId := FileOf(d)[..start] + EncodeAll(crc, rs)]))
  {
    hide Scan;
    hide ScanEnd;
    hide SegLen;
    hide EncodeAll;
    var file := FileOf(d);
    var start := Min(PointOf(d).flushOffset, |file|);
    rs := ScanExact(crc, file[start..], start);
    var n := |EncodeAll(crc, rs)|;
    assert file[start..][..n] == EncodeAll(crc, rs);
    assert file[..start + n] == file[..start] + file[start..][..n];
  }

  /** Zeros past the recovery point are never recovered, whatever the checksum of nothing is. */
  lemma ZerosIgnored(crc: Crc, n: nat)
    ensures Scan(crc, seq(n, i => 0), 0) == []
  {
    var buf: Bytes := seq(n, i => 0);
    if n >= HEADER_LEN { assert buf[..HEADER_LEN][..4][0] == 0 != MAGIC[0]; }
  }

  /** A new directory opens as an empty segment 0 with nothing recovered. */
  lemma OpenEmpty(crc: Crc)
    ensures OpenResult(crc, Dir(map[], None)) == (0, 0, [], Dir(map[0 := []], None))
  {
    assert Placed([], 0) == [] && EncodeAll(crc, []) == [];
    assert Stopped(crc, Dir(map[], None), [], 0, 0, 0);
    RecoveryExact(crc, Dir(map[], None), [], 0, 0, 0);
  }

  /**
   A file shorter than its recovery point: nothing is recovered and the writer stands past the file's end, so that the
   offset of the next record is not where an append puts it.
   */
  lemma ShortFile(crc: Crc, d: Dir)
    requires |FileOf(d)| < PointOf(d).flushOffset
    ensures OpenResult(crc, d) == (PointOf(d).segId, PointOf(d).flushOffset, [], d.(segs := d.segs[PointOf(d).segId := FileOf(d)]))
    ensures OpenResult(crc, d).1 != |OpenResult(crc, d).3.segs[PointOf(d).segId]|
  {
    var file := FileOf(d);
    assert file[|file|..] == [] && file[..|file|] == file;
    assert Scan(crc, [], |file|) == [] && ScanEnd(crc, [], |file|) == |file|;
  }

  /** For every directory: open leaves the writer at the end of the file exactly when no recovery point is past it. */
  lemma WriterAtEnd(crc: Crc, d: Dir)
    ensures PointOf(d).segId in OpenResult(crc, d).3.segs
    ensures OpenResult(crc, d).1 == |OpenResult(crc, d).3.segs[PointOf(d).segId]| <==> PointOf(d).flushOffset <= |FileOf(d)|
  {
    hide Scan;
    if |FileOf(d)| < PointOf(d).flushOffset { ShortFile(crc, d); }
  }

  /** A recovery point 5 bytes into a segment whose file is gone: the next record would be taken to be at offset 5. */
  lemma WriterPastEnd(crc: Crc)
    ensures var r := OpenResult(crc, Dir(map[], Some(Meta(3, 5)))); r.1 == 5 && r.3.segs == map[3 := []]
  {
    ShortFile(crc, Dir(map[], Some(Meta(3, 5))));
  }

  lemma KeptPrefix(crc: Crc, rs: seq<Record>, cut: nat, n: nat)
    requires n <= |rs| && SegLen(rs[..n]) <= cut <= SegLen(rs)
    ensures EncodeAll(crc, rs)[..cut][..SegLen(rs[..n])] == EncodeAll(crc, rs[..n])
  {
    hide EncodeAll;
    hide SegLen;
    EncodeConcat(crc, rs[..n], rs[n..]);
    SegLenConcat(rs[..n], rs[n..]);
    assert rs == rs[..n] + rs[n..];
    DropPrefix(EncodeAll(crc, rs[..n]), EncodeAll(crc, rs[n..]), cut);
  }

  lemma CutTail(crc: Crc, rs: seq<Record>, f: nat, cut: nat)
    requires f <= |rs| && SegLen(rs[..f]) <= cut <= SegLen(rs)
    ensures cut - SegLen(rs[..f]) <= SegLen(rs[f..])
    ensures EncodeAll(crc, rs)[..cut][SegLen(rs[..f])..] == EncodeAll(crc, rs[f..])[..cut - SegLen(rs[..f])]
  {
    hide EncodeAll;
    hide SegLen;
    EncodeConcat(crc, rs[..f], rs[f..]);
    SegLenConcat(rs[..f], rs[f..]);
    assert rs == rs[..f] + rs[f..];
    DropPrefix(EncodeAll(crc, rs[..f]), EncodeAll(crc, rs[f..]), cut);
  }

  lemma DropPrefix(a: Bytes, b: Bytes, cut: nat)
    requires |a| <= cut <= |a| + |b|
    ensures (a + b)[..cut][|a|..] == b[..cut - |a|] && (a + b)[..cut][..|a|] == a
  {
  }

  lemma ScanPastFlush(crc: Crc, rs: seq<Record>, f: nat, cut: nat, n: nat)
    requires AllSized(rs) && f <= |rs| && SegLen(rs[..f]) <= cut <= SegLen(rs) && WholeWithin(rs, cut, n)
    ensures f <= n <= |rs|
    ensures Scan(crc, EncodeAll(crc, rs)[..cut][SegLen(rs[..f])..], SegLen(rs[..f])) == Placed(rs[..n], 0)[f..]
    ensures ScanEnd(crc, EncodeAll(crc, rs)[..cut][SegLen(rs[..f])..], SegLen(rs[..f])) == SegLen(rs[..n])
  {
    hide *;
    var start, tail := SegLen(rs[..f]), rs[f..];
    CutTail(crc, rs, f, cut);
    WholeWithinTail(rs, cut, n, f);
    SizedParts(rs, f);
    ScanTorn(crc, tail, cut - start, n - f, start);
    SegLenSplit(rs, f, n);
    PlacedTail(rs, f, n);
  }

  lemma PlacedTail(rs: seq<Record>, f: nat, n: nat)
    requires f <= n <= |rs|
    ensures Placed(rs[..n], 0)[f..] == Placed(rs[f..][..n - f], SegLen(rs[..f]))
  {
    hide *;
    PlacedSplit(rs[..n], 0, f);
    SliceParts(rs, f, n);
  }

  lemma SliceParts(rs: seq<Record>, f: nat, n: nat)
    requires f <= n <= |rs|
    ensures rs[..n][f..] == rs[f..][..n - f] && rs[..n][..f] == rs[..f]
  {
  }

  lemma SizedParts(rs: seq<Record>, f: nat)
    requires AllSized(rs) && f <= |rs|
    ensures AllSized(rs[..f]) && AllSized(rs[f..])
  {
  }

  /**
   The writer of the active segment. For proofs, `records` and `flushed` describe the active file, `marked` the records
   before the recovery point on disk, `atOpen` those that open found there, and `synced` how many bytes of each segment
   this writer's syncs have covered.
   */
  class SegmentWriter {
    const crc: Crc
    const maxSize: nat
    const fsyncItems: nat
    var dir: Dir
    var segId: nat
    var len: nat
    var flushOffset: nat
    var unflushedItems: nat
    /** What open found past the recovery point, for the index. */
    var recovered: seq<Recovered>
    ghost var records: seq<Record>
    ghost var flushed: nat
    ghost var marked: nat
    ghost var atOpen: nat
    ghost var synced: map<nat, nat>

    ghost predicate Valid()
      reads this
    {
      && segId in dir.segs && dir.segs[segId] == EncodeAll(crc, records)
      && len == SegLen(records) && AllSized(records)
      && flushed <= |records| && flushOffset == SegLen(records[..flushed])
      && unflushedItems == |records| - flushed
      && marked <= flushed && PointOf(dir) == Meta(segId, SegLen(records[..marked]))
      && atOpen <= flushed && (flushed > atOpen ==> segId in synced && synced[segId] == flushOffset)
    }

    /**
     Open the active segment named by the recovery point of any directory, scanning and truncating its tail. For a
     directory a stop has left, `rs` and `f` name the records written before it and how many the recovery point covers.
     */
    constructor Open(crc: Crc, d: Dir, maxSize: nat, fsyncItems: nat, ghost rs: seq<Record>, ghost f: nat, ghost cut: nat, ghost n: nat)
      ensures Stopped(crc, d, rs, f, cut, n) ==> Valid() && records == rs[..n] && flushed == n && marked == f && atOpen == n
      ensures synced == map[]
      ensures this.crc == crc && (segId, len, recovered, dir) == OpenResult(crc, d) && flushOffset == len && unflushedItems == 0
      ensures this.maxSize == maxSize && this.fsyncItems == fsyncItems
    {
      hide *;
      this.crc, this.maxSize, this.fsyncItems := crc, maxSize, fsyncItems;
      new;
      segId, len, recovered, dir := OpenFiles(crc, d);
      flushOffset, unflushedItems, synced := len, 0, map[];
      if Stopped(crc, d, rs, f, cut, n) {
        RecoveryExact(crc, d, rs, f, cut, n);
        records, flushed, marked, atOpen := rs[..n], n, f, n;
        OpenedValid(d, rs, f, cut, n);
      }
    }

    lemma OpenedValid(d: Dir, rs: seq<Record>, f: nat, cut: nat, n: nat)
      requires Stopped(crc, d, rs, f, cut, n) && (segId, len, recovered, dir) == OpenResult(crc, d)
      requires f <= n <= |rs| && len == SegLen(rs[..n])
      requires dir == d.(segs := d.segs[PointOf(d).segId := EncodeAll(crc, rs[..n])]) && segId == PointOf(d).segId
      requires flushOffset == len && unflushedItems == 0 && records == rs[..n] && flushed == n && marked == f
      requires atOpen == n
      ensures Valid()
    {
      hide OpenResult;
      hide EncodeAll;
      hide SegLen;
      hide WholeWithin;
      assert rs[..n][..n] == rs[..n] && rs[..n][..f] == rs[..f];
    }

    /** Scan the active file past the recovery point and cut it where the scan ends. */
    static method OpenFiles(crc: Crc, d: Dir) returns (id: nat, len: nat, recovered: seq<Recovered>, dir: Dir)
      ensures (id, len, recovered, dir) == OpenResult(crc, d)
    {
      hide Scan;
      hide ScanEnd;
      var file := FileOf(d);
      id := PointOf(d).segId;
      var pos := Min(PointOf(d).flushOffset, |file|);
      var end;
      recovered, end := ScanTail(crc, file, pos);
      dir := d.(segs := d.segs[id := file[..end]]);
      len := Max(end, PointOf(d).flushOffset);
    }

    /** A stop that keeps the file at least up to the recovery point leaves a directory that opens exactly. */
    lemma StopReopens(d: Dir, cut: nat, n: nat)
      requires Valid() && SegLen(records[..marked]) <= cut <= len && WholeWithin(records, cut, n)
      requires d == dir.(segs := dir.segs[segId := dir.segs[segId][..cut]])
      ensures Stopped(crc, d, records, marked, cut, n)
    {
      hide EncodeAll;
      hide SegLen;
      hide WholeWithin;
    }

    /** The scan loop over the bytes past the recovery point. */
    static method ScanTail(crc: Crc, file: Bytes, start: nat) returns (recovered: seq<Recovered>, pos: nat)
      requires start <= |file|
      ensures recovered == Scan(crc, file[start..], start)
      ensures pos == ScanEnd(crc, file[start..], start)
    {
      hide ParseHeader;
      hide ParseRecord;
      var buf := file[start..];
      var cur := 0;
      recovered, pos := [], start;
      while true
        invariant cur <= |buf| && pos == start + cur
        invariant recovered + Scan(crc, buf[cur..], pos) == Scan(crc, buf, start)
        invariant ScanEnd(crc, buf[cur..], pos) == ScanEnd(crc, buf, start)
        decreases |buf| - cur
      {
        ghost var before := recovered;
        ParseAt(crc, buf, cur);
        if |buf| - cur < HEADER_LEN { break; }
        var h := ParseHeader(buf[cur..cur + HEADER_LEN]);
        if h.None? { break; }
        var total := HEADER_LEN + h.value.keyLen + h.value.storedLen;
        if |buf| - cur < total { break; }
        var key := buf[cur + HEADER_LEN..cur + HEADER_LEN + h.value.keyLen];
        var data := buf[cur + HEADER_LEN + h.value.keyLen..cur + total];
        if crc(key + data) != h.value.crc { break; }
        recovered := recovered + [Recovered(Record(key, data, h.value.logicalLen, h.value.flags), pos)];
        cur, pos := cur + total, pos + total;
        AppendAssoc(before, recovered[|before|], Scan(crc, buf[cur..], pos));
      }
      assert Scan(crc, buf[cur..], pos) == [];
    }

    /** Make everything appended durable and move the recovery point to the end. */
    method Flush()
      requires Valid()
      modifies this`dir, this`flushOffset, this`unflushedItems, this`flushed, this`marked, this`synced
      ensures Valid() && flushed == |records| && dir.segs == old(dir.segs)
      ensures old(flushed) < |records| ==> dir.meta == Some(Meta(segId, len)) && synced == old(synced)[segId := len]
      ensures old(flushed) == |records| ==> dir.meta == old(dir.meta) && synced == old(synced)
    {
      assert records[..|records|] == records;
      if flushOffset == len && unflushedItems == 0 { return; }
      flushOffset, unflushedItems := len, 0;
      flushed, marked, synced := |records|, |records|, synced[segId := len];
      dir := dir.(meta := Some(Meta(segId, flushOffset)));
    }

    /**
     Flush, then start the next segment. The one left behind is wholly synced if anything was appended to it since open;
     if nothing was, the flush returns early and what open found there stays unsynced.
     */
    method Rotate()
      requires Valid() && segId + 1 !in dir.segs
      modifies this
      ensures Valid() && segId == old(segId) + 1 && records == [] && flushed == 0
      ensures dir == Dir(old(dir.segs)[segId := []], Some(Meta(segId, 0)))
      ensures synced == if old(flushed) < |old(records)| then old(synced)[old(segId) := old(len)] else old(synced)
      ensures |old(records)| > old(atOpen) ==> old(segId) in synced && synced[old(segId)] == |old(dir.segs)[old(segId)]|
      ensures atOpen == 0
    {
      FlushedWhole();
      hide *;
      Flush();
      FlushedWhole();
      Install();
    }

    /** With nothing unflushed the flush offset is the file's length. */
    lemma FlushedWhole()
      requires Valid()
      ensures len == |dir.segs[segId]| && atOpen <= flushed <= |records| && segId in dir.segs
      ensures flushed == |records| && flushed > atOpen ==> segId in synced && synced[segId] == len
    {
      hide SegLen;
      hide EncodeRecord;
      if flushed == |records| { assert records[..flushed] == records; }
    }

    /** Start the next segment, empty. */
    method Install()
      requires Valid() && segId + 1 !in dir.segs
      modifies this
      ensures Valid() && segId == old(segId) + 1 && records == [] && flushed == 0 && atOpen == 0 && synced == old(synced)
      ensures dir == Dir(old(dir.segs)[segId := []], Some(Meta(segId, 0)))
    {
      hide EncodeRecord;
      NothingWritten();
      segId := segId + 1;
      dir := Dir(dir.segs[segId := []], Some(Meta(segId, 0)));
      len, flushOffset, unflushedItems := 0, 0, 0;
      records, flushed, marked, atOpen := [], 0, 0, 0;
    }

    lemma NothingWritten()
      ensures EncodeAll(crc, []) == [] && SegLen([]) == 0 && AllSized([])
    {
    }

    /** Append one record, rotating first when the active segment is full. */
    method Append(rec: Record) returns (offset: nat)
      requires Valid() && segId + 1 !in dir.segs && rec.Sized()
      modifies this
      ensures Valid()
      ensures segId == (if old(len) >= maxSize then old(segId) + 1 else old(segId))
      ensures records == (if old(len) >= maxSize then [] else old(records)) + [rec]
      ensures offset == SegLen(records[..|records| - 1])
      ensures dir.segs == old(dir.segs)[segId := EncodeAll(crc, records)]
      ensures var before := if old(len) >= maxSize then 0 else old(flushed);
        flushed == if |records| - before >= fsyncItems then |records| else before
      ensures dir.meta == if flushed == |records| then Some(Meta(segId, len))
                          else if old(len) >= maxSize then Some(Meta(segId, 0)) else old(dir.meta)
      ensures atOpen == (if old(len) >= maxSize then 0 else old(atOpen))
      ensures var sealed := if old(len) >= maxSize && old(flushed) < |old(records)| then old(synced)[old(segId) := old(len)] else old(synced);
        synced == if flushed == |records| then sealed[segId := len] else sealed
      ensures old(len) >= maxSize && |old(records)| > old(atOpen) ==>
        old(segId) in synced && synced[old(segId)] == |old(dir.segs)[old(segId)]|
    {
      assert flushed <= |records|;
      hide *;
      if len >= maxSize { Rotate(); }
      ghost var before := records;
      offset := WriteRecord(rec);
      assert records[..|records| - 1] == before;
    }

    /** Append one record to the active file, and flush when enough are unflushed. */
    method WriteRecord(rec: Record) returns (offset: nat)
      requires Valid() && rec.Sized()
      modifies this`dir, this`len, this`flushOffset, this`unflushedItems, this`records, this`flushed, this`marked, this`synced
      ensures Valid() && records == old(records) + [rec] && offset == SegLen(old(records))
      ensures dir.segs == old(dir.segs)[segId := EncodeAll(crc, records)]
      ensures flushed == if |records| - old(flushed) >= fsyncItems then |records| else old(flushed)
      ensures dir.meta == if |records| - old(flushed) >= fsyncItems then Some(Meta(segId, len)) else old(dir.meta)
      ensures synced == if |records| - old(flushed) >= fsyncItems then old(synced)[segId := len] else old(synced)
    {
      hide EncodeRecord;
      hide EncodeAll;
      hide SegLen;
      offset := len;
      ghost var before := records;
      dir := dir.(segs := dir.segs[segId := dir.segs[segId] + EncodeRecord(crc, rec)]);
      records := records + [rec];
      assert records[..|records| - 1] == before && records[..flushed] == before[..flushed];
      assert records[..marked] == before[..marked];
      EncodeAppend(crc, before, rec);
      len := len + rec.Size();
      unflushedItems := unflushedItems + 1;
      if unflushedItems >= fsyncItems { Flush(); }
    }
  }
}
