/** The index row of a stored record: three versions told apart by their length. */
module AddrRow {
  import opened Bytes

  datatype Entry = Entry(seg: nat, offset: nat, storedLen: nat, keyLen: nat, crc: nat, logicalLen: nat, flags: nat, obj: Option<nat>)

  predicate Fits(e: Entry) {
    && e.seg < U32 && e.offset < U64 && e.storedLen < U32 && e.keyLen < U16 && e.crc < U32 && e.logicalLen < U32 && e.flags < U16
    && (e.obj.Some? ==> e.obj.value < U64)
  }

  /** The fields every version has. */
  function Common(e: Entry): (b: Bytes)
    ensures |b| == 22
  {
    ToLe(e.seg, 4) + ToLe(e.offset, 8) + ToLe(e.storedLen, 4) + ToLe(e.keyLen, 2) + ToLe(e.crc, 4)
  }

  function EncodeAddr(e: Entry): (b: Bytes)
    ensures |b| == if e.obj.Some? then 36 else 28
  {
    Common(e) + ToLe(e.logicalLen, 4) + ToLe(e.flags, 2) + (match e.obj case Some(n) => ToLe(n, 8) case None => [])
  }

  function DecodeAddr(v: Bytes): (e: Option<Entry>)
    ensures e.Some? <==> |v| in {22, 28, 36}
  {
    if |v| != 22 && |v| != 28 && |v| != 36 then None
    else
      var stored := FromLe(v[12..16]);
      Some(Entry(FromLe(v[..4]), FromLe(v[4..12]), stored, FromLe(v[16..18]), FromLe(v[18..22]),
                 if |v| >= 28 then FromLe(v[22..26]) else stored,
                 if |v| >= 28 then FromLe(v[26..28]) else 0,
                 if |v| == 36 then Some(FromLe(v[28..36])) else None))
  }

  lemma CommonFields(e: Entry)
    ensures var v := Common(e);
      && v[..4] == ToLe(e.seg, 4) && v[4..12] == ToLe(e.offset, 8) && v[12..16] == ToLe(e.storedLen, 4)
      && v[16..18] == ToLe(e.keyLen, 2) && v[18..22] == ToLe(e.crc, 4)
  {
    hide ToLe;
  }

  lemma RowFields(e: Entry)
    ensures var v := EncodeAddr(e);
      && v[..22] == Common(e) && v[22..26] == ToLe(e.logicalLen, 4) && v[26..28] == ToLe(e.flags, 2)
      && (e.obj.Some? ==> v[28..36] == ToLe(e.obj.value, 8))
  {
    hide ToLe;
    hide Common;
    var head := Common(e) + ToLe(e.logicalLen, 4) + ToLe(e.flags, 2);
    if e.obj.Some? { assert EncodeAddr(e) == head + ToLe(e.obj.value, 8); } else { assert EncodeAddr(e) == head; }
  }

  /** A row written is read back, with and without the logical length of a larger object. */
  lemma AddrRoundTrip(e: Entry)
    requires Fits(e)
    ensures DecodeAddr(EncodeAddr(e)) == Some(e)
  {
    hide ToLe;
    hide FromLe;
    hide Common;
    hide EncodeAddr;
    var v := EncodeAddr(e);
    RowFields(e);
    CommonFields(e);
    assert v[..4] == v[..22][..4] && v[4..12] == v[..22][4..12] && v[12..16] == v[..22][12..16];
    assert v[16..18] == v[..22][16..18] && v[18..22] == v[..22][18..22];
    WidthSizes();
    LeFits(e.seg, 4);
    LeFits(e.offset, 8);
    LeFits(e.storedLen, 4);
    LeFits(e.keyLen, 2);
    LeFits(e.crc, 4);
    LeFits(e.logicalLen, 4);
    LeFits(e.flags, 2);
    if e.obj.Some? { LeFits(e.obj.value, 8); }
  }

  lemma CommonBytes(v: Bytes)
    requires |v| in {22, 28, 36}
    ensures Common(DecodeAddr(v).value) == v[..22]
  {
    LeBytes(v[..4]);
    LeBytes(v[4..12]);
    LeBytes(v[12..16]);
    LeBytes(v[16..18]);
    LeBytes(v[18..22]);
    assert v[..22] == v[..4] + v[4..12] + v[12..16] + v[16..18] + v[18..22];
  }

  lemma ZeroFlags()
    ensures ToLe(0, 2) == [0, 0]
  {
    assert ToLe(0, 1) == [0];
  }

  lemma FourParts(v: Bytes, i: nat, j: nat, k: nat)
    requires i <= j <= k <= |v|
    ensures v == v[..i] + v[i..j] + v[j..k] + v[k..] && v[k..] == v[k..|v|]
  {
  }

  /** A current row is written back as it was; a legacy one gains the fields it lacked, its stored length as the logical one. */
  lemma AddrRewritten(v: Bytes)
    requires |v| in {22, 28, 36}
    ensures EncodeAddr(DecodeAddr(v).value) == if |v| == 22 then v + v[12..16] + [0, 0] else v
  {
    CommonBytes(v);
    hide Common;
    hide ToLe;
    hide FromLe;
    if |v| == 22 {
      LeBytes(v[12..16]);
      ZeroFlags();
      assert v[..22] == v;
    } else {
      LeBytes(v[22..26]);
      LeBytes(v[26..28]);
      if |v| == 36 {
        LeBytes(v[28..36]);
        FourParts(v, 22, 26, 28);
      } else {
        FourParts(v, 22, 26, 28);
        assert v[28..] == [];
      }
    }
  }
}
