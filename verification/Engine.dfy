/**
 One shard: segments, the address and inline tables and the per-segment discard counters, as values.
 Every operation of the engine is a function from state to state; `View` is the plain map it stands for.
 A record is addressed by its segment and its index there (Segments.OffsetsNameRecords).
 */
module Engine {
  import opened Bytes
  import opened Segments

  type Key = Bytes
  type SegMap = map<nat, seq<Record>>

  datatype Addr = Addr(seg: nat, idx: nat, storedLen: nat, logicalLen: nat, flags: nat, obj: Option<nat>)

  datatype Config = Config(
    maxSize: nat, inlineMin: nat, fsyncItems: nat, compress: bool, compressMin: nat,
    zip: Bytes -> Option<Bytes>, unzip: (Bytes, nat) -> Option<Bytes>)

  /** Decompression undoes compression: all that is assumed of zstd. */
  ghost predicate GoodZip(cfg: Config) {
    forall d :: cfg.zip(d).Some? ==> cfg.unzip(cfg.zip(d).value, |d|) == Some(d)
  }

  /**
   `synced` is the flush offset of the active segment, in records: an open moves it to the end without a sync. `soft` has
   the segments with records that such an open took over and no sync has covered since, and how many are before those.
   */
  datatype State = State(segs: SegMap, active: nat, synced: nat, addr: map<Key, Addr>, inl: map<Key, Bytes>,
                         discard: map<nat, nat>, soft: map<nat, nat>)

  /** The records of segment s that no stop can take back; in the active segment, those before the recovery point. */
  function OnDisk(st: State, s: nat): nat
    requires s in st.segs
  {
    var all := if s == st.active then Min(st.synced, |st.segs[s]|) else |st.segs[s]|;
    if s in st.soft then Min(st.soft[s], all) else all
  }

  /** The recovery point on disk, from which the next open replays. */
  function Mark(st: State): nat
    requires st.active in st.segs
  {
    OnDisk(st, st.active)
  }

  /** What a key holds: its body, and the logical size of the object when the body is an erasure piece. */
  datatype Obj = Obj(body: Bytes, era: Option<nat>)

  // ----- reading

  function Unpack(cfg: Config, stored: Bytes, logicalLen: nat, flags: nat): Option<Bytes> {
    if flags % 2 == 1 then
      match cfg.unzip(stored, logicalLen)
      case Some(out) => if |out| == logicalLen then Some(out) else None
      case None => None
    else Some(stored)
  }

  /** Whatever is stored, a body is given out as it is, or at its recorded length and only if decompressing gives it. */
  lemma UnpackExact(cfg: Config, stored: Bytes, logicalLen: nat, flags: nat, body: Bytes)
    ensures Unpack(cfg, stored, logicalLen, flags) == Some(body)
      <==> if flags % 2 == 0 then body == stored else cfg.unzip(stored, logicalLen) == Some(body) && |body| == logicalLen
  {
  }

  /** Reading a record by its row: nothing when the segment file is gone. */
  function ReadAt(cfg: Config, segs: SegMap, a: Addr): Option<Bytes> {
    if a.seg in segs && a.idx < |segs[a.seg]| then Unpack(cfg, segs[a.seg][a.idx].stored, a.logicalLen, a.flags) else None
  }

  function BodyAt(cfg: Config, segs: SegMap, a: Addr): Bytes {
    match ReadAt(cfg, segs, a) case Some(b) => b case None => []
  }

  /** The map from key to object that the tables and segments stand for. */
  function View(cfg: Config, st: State): map<Key, Obj> {
    map k | k in st.inl.Keys + st.addr.Keys ::
      if k in st.inl then Obj(st.inl[k], None) else Obj(BodyAt(cfg, st.segs, st.addr[k]), st.addr[k].obj)
  }

  lemma ViewAt(cfg: Config, st: State, k: Key)
    ensures k in View(cfg, st) <==> k in st.inl || k in st.addr
    ensures k in View(cfg, st) ==>
      View(cfg, st)[k] == if k in st.inl then Obj(st.inl[k], None) else Obj(BodyAt(cfg, st.segs, st.addr[k]), st.addr[k].obj)
  {
    hide BodyAt;
  }

  // ----- the invariant

  ghost predicate RowOk(cfg: Config, segs: SegMap, k: Key, a: Addr) {
    && a.seg in segs && a.idx < |segs[a.seg]|
    && segs[a.seg][a.idx].key == k
    && |segs[a.seg][a.idx].stored| == a.storedLen
    && segs[a.seg][a.idx].logicalLen == a.logicalLen && segs[a.seg][a.idx].flags == a.flags
    && ReadAt(cfg, segs, a).Some?
  }

  ghost predicate RowsOk(cfg: Config, segs: SegMap, addr: map<Key, Addr>) {
    forall k :: k in addr ==> RowOk(cfg, segs, k, addr[k])
  }

  ghost predicate Well(cfg: Config, st: State) {
    && st.active in st.segs && (forall s :: s in st.segs ==> s <= st.active)
    && st.synced <= |st.segs[st.active]|
    && RowsOk(cfg, st.segs, st.addr)
    && st.addr.Keys !! st.inl.Keys
  }

  /** Segments are append-only: every old segment is still there and has only grown. */
  ghost predicate Grown(a: SegMap, b: SegMap) {
    forall s :: s in a ==> s in b && a[s] <= b[s]
  }

  lemma GrownReads(cfg: Config, a: SegMap, b: SegMap, addr: map<Key, Addr>)
    requires Grown(a, b) && RowsOk(cfg, a, addr)
    ensures RowsOk(cfg, b, addr)
    ensures forall k :: k in addr ==> BodyAt(cfg, b, addr[k]) == BodyAt(cfg, a, addr[k])
  {
    forall k | k in addr
      ensures RowOk(cfg, b, k, addr[k]) && BodyAt(cfg, b, addr[k]) == BodyAt(cfg, a, addr[k])
    {
      assert RowOk(cfg, a, k, addr[k]);
    }
  }

  /** Same rows, grown segments: the view is unchanged. */
  lemma GrownView(cfg: Config, a: State, b: State)
    requires Well(cfg, a) && Grown(a.segs, b.segs) && b.addr == a.addr && b.inl == a.inl
    ensures View(cfg, b) == View(cfg, a) && RowsOk(cfg, b.segs, b.addr)
  {
    GrownReads(cfg, a.segs, b.segs, a.addr);
  }

  // ----- appending

  /** A flush; one that finds the flush offset at the end returns without a sync. */
  function Sync(st: State): State
    requires st.active in st.segs
  {
    if st.synced == |st.segs[st.active]| then st
    else st.(synced := |st.segs[st.active]|, soft := st.soft - {st.active})
  }

  /** Rotation when the active segment is full: a flush, then an empty segment. */
  function Seal(cfg: Config, st: State): State
    requires st.active in st.segs
  {
    if SegLen(st.segs[st.active]) >= cfg.maxSize
    then st.(segs := st.segs[st.active + 1 := []], active := st.active + 1, synced := 0, soft := Sync(st).soft - {st.active + 1})
    else st
  }

  function Write(cfg: Config, st: State, rec: Record): State
    requires st.active in st.segs
  {
    var s := st.(segs := st.segs[st.active := st.segs[st.active] + [rec]]);
    if |s.segs[s.active]| >= s.synced + cfg.fsyncItems then Sync(s) else s
  }

  function Append(cfg: Config, st: State, rec: Record): State
    requires st.active in st.segs
  {
    Write(cfg, Seal(cfg, st), rec)
  }

  /** The row for the record just appended to st. */
  function LastRow(st: State, rec: Record, obj: Option<nat>): Addr
    requires st.active in st.segs && st.segs[st.active] != []
  {
    Addr(st.active, |st.segs[st.active]| - 1, |rec.stored|, rec.logicalLen, rec.flags, obj)
  }

  lemma SyncKeeps(cfg: Config, st: State)
    requires st.active in st.segs
    ensures var s := Sync(st);
      && s.segs == st.segs && s.active == st.active && s.addr == st.addr && s.inl == st.inl && s.discard == st.discard
      && s.synced == |st.segs[st.active]| && View(cfg, s) == View(cfg, st)
    ensures Well(cfg, st) ==> Well(cfg, Sync(st))
  {
    hide RowsOk;
    hide BodyAt;
  }

  lemma SealGrows(cfg: Config, st: State)
    requires Well(cfg, st)
    ensures Grown(st.segs, Seal(cfg, st).segs) && Well(cfg, Seal(cfg, st))
    ensures View(cfg, Seal(cfg, st)) == View(cfg, st)
  {
    hide SegLen;
    hide Sync;
    hide RowsOk;
    hide View;
    GrownView(cfg, st, Seal(cfg, st));
  }

  lemma AppendGrows(cfg: Config, st: State, rec: Record)
    requires Well(cfg, st)
    ensures var s := Append(cfg, st, rec);
      && Grown(st.segs, s.segs) && Well(cfg, s) && View(cfg, s) == View(cfg, st)
      && s.segs[s.active] != [] && s.segs[s.active][|s.segs[s.active]| - 1] == rec
      && s.addr == st.addr && s.inl == st.inl && s.discard == st.discard && s.active >= st.active
      && (s.active in st.segs ==> |s.segs[s.active]| == |st.segs[s.active]| + 1)
  {
    SealGrows(cfg, st);
    SealKeeps(cfg, st);
    hide Seal;
    hide View;
    hide RowsOk;
    WriteGrows(cfg, Seal(cfg, st), rec);
    hide Write;
  }

  lemma WriteGrows(cfg: Config, st: State, rec: Record)
    requires Well(cfg, st)
    ensures var s := Write(cfg, st, rec);
      && Well(cfg, s) && View(cfg, s) == View(cfg, st) && s.segs == st.segs[st.active := st.segs[st.active] + [rec]]
      && s.active == st.active && s.addr == st.addr && s.inl == st.inl && s.discard == st.discard
  {
    var s := st.(segs := st.segs[st.active := st.segs[st.active] + [rec]]);
    GrownView(cfg, st, s);
    hide View;
    hide RowsOk;
    SyncKeeps(cfg, s);
  }

  lemma SealKeeps(cfg: Config, st: State)
    requires Well(cfg, st)
    ensures var s := Seal(cfg, st);
      && s.addr == st.addr && s.inl == st.inl && s.discard == st.discard && s.active >= st.active
      && s.segs[s.active] == (if s.active in st.segs then st.segs[s.active] else [])
  {
    hide SegLen;
  }

  // ----- operations

  function Bump(discard: map<nat, nat>, seg: nat, bytes: nat): map<nat, nat> {
    discard[seg := At(discard, seg) + bytes]
  }

  /** Charge the row of k, if there is one, to its segment's discard counter. */
  function Charge(st: State, k: Key): map<nat, nat> {
    if k in st.addr then Bump(st.discard, st.addr[k].seg, st.addr[k].storedLen) else st.discard
  }

  function Pack(cfg: Config, k: Key, data: Bytes): Record {
    if cfg.compress && |data| >= cfg.compressMin && cfg.zip(data).Some? && |cfg.zip(data).value| < |data|
    then Record(k, cfg.zip(data).value, |data|, 1)
    else Record(k, data, |data|, 0)
  }

  predicate GoesInline(cfg: Config, data: Bytes, era: Option<nat>) { era.None? && |data| < cfg.inlineMin }

  function Put(cfg: Config, st: State, k: Key, data: Bytes, era: Option<nat>): State
    requires st.active in st.segs
  {
    if GoesInline(cfg, data, era) then
      st.(inl := st.inl[k := data], addr := st.addr - {k}, discard := Charge(st, k))
    else
      var s := Append(cfg, st, Pack(cfg, k, data));
      s.(addr := s.addr[k := LastRow(s, Pack(cfg, k, data), era)], inl := s.inl - {k}, discard := Charge(st, k))
  }

  function Delete(st: State, k: Key): State {
    st.(addr := st.addr - {k}, inl := st.inl - {k}, discard := Charge(st, k))
  }

  function SetObj(st: State, k: Key, obj: nat): State {
    if k in st.addr then st.(addr := st.addr[k := st.addr[k].(obj := Some(obj))]) else st
  }

  /** Row k still points at record i of segment v. */
  predicate PointsAt(addr: map<Key, Addr>, k: Key, v: nat, i: nat) {
    k in addr && addr[k].seg == v && addr[k].idx == i
  }

  /** The collector's compare-and-swap: move row k to `to` if it still points at the victim's record. */
  function Cas(st: State, k: Key, v: nat, i: nat, to: Addr): State {
    if PointsAt(st.addr, k, v, i) then st.(addr := st.addr[k := to.(obj := st.addr[k].obj)]) else st
  }

  predicate Referenced(addr: map<Key, Addr>, s: nat) { exists k :: k in addr && addr[k].seg == s }

  /** Unlinking segment files together with their discard counters. */
  function Unlink(st: State, gone: set<nat>): State {
    st.(segs := st.segs - gone, discard := st.discard - gone, soft := st.soft - gone)
  }

  function KeysIn(addr: map<Key, Addr>, v: nat): set<Key> { set k | k in addr && addr[k].seg == v }

  /** Cache eviction of a whole sealed segment: first the rows of the keys found in it, then the file. */
  function Evict(st: State, v: nat, gone: set<Key>): State {
    Unlink(st.(addr := st.addr - gone), {v})
  }

  // ----- what each operation does to the view

  lemma PackReads(cfg: Config, k: Key, data: Bytes)
    requires GoodZip(cfg)
    ensures var r := Pack(cfg, k, data); r.key == k && Unpack(cfg, r.stored, r.logicalLen, r.flags) == Some(data)
  {
  }

  /** A put stores exactly the body under its key and touches no other key, inline or in a segment. */
  lemma PutView(cfg: Config, st: State, k: Key, data: Bytes, era: Option<nat>)
    requires GoodZip(cfg) && Well(cfg, st)
    ensures Well(cfg, Put(cfg, st, k, data, era))
    ensures View(cfg, Put(cfg, st, k, data, era)) == View(cfg, st)[k := Obj(data, era)]
  {
    if GoesInline(cfg, data, era) {
      PutInlineView(cfg, st, k, data, era);
    } else {
      PackReads(cfg, k, data);
      AppendGrows(cfg, st, Pack(cfg, k, data));
      hide Append;
      hide Pack;
      RowSet(cfg, Append(cfg, st, Pack(cfg, k, data)), Put(cfg, st, k, data, era), k);
    }
  }

  lemma PutInlineView(cfg: Config, st: State, k: Key, data: Bytes, era: Option<nat>)
    requires Well(cfg, st) && GoesInline(cfg, data, era)
    ensures Well(cfg, Put(cfg, st, k, data, era))
    ensures View(cfg, Put(cfg, st, k, data, era)) == View(cfg, st)[k := Obj(data, era)]
  {
    hide BodyAt;
    hide Charge;
  }

  /** Replacing row k by a readable one changes the view at k alone. */
  lemma RowSet(cfg: Config, a: State, b: State, k: Key)
    requires Well(cfg, a) && b.segs == a.segs && b.active == a.active && b.synced == a.synced
    requires k in b.addr && b.addr == a.addr[k := b.addr[k]] && b.inl == a.inl - {k}
    requires RowOk(cfg, a.segs, k, b.addr[k])
    ensures Well(cfg, b)
    ensures View(cfg, b) == View(cfg, a)[k := Obj(BodyAt(cfg, a.segs, b.addr[k]), b.addr[k].obj)]
  {
    hide BodyAt;
    forall j | j in b.addr ensures RowOk(cfg, b.segs, j, b.addr[j]) {
      if j != k { assert RowOk(cfg, a.segs, j, a.addr[j]); }
    }
    hide RowOk;
    RowSetView(cfg, a, b, k);
  }

  lemma RowSetView(cfg: Config, a: State, b: State, k: Key)
    requires b.segs == a.segs && k in b.addr && b.addr == a.addr[k := b.addr[k]] && b.inl == a.inl - {k}
    ensures View(cfg, b) == View(cfg, a)[k := Obj(BodyAt(cfg, a.segs, b.addr[k]), b.addr[k].obj)]
  {
    hide BodyAt;
    hide View;
    var v, w := View(cfg, b), View(cfg, a)[k := Obj(BodyAt(cfg, a.segs, b.addr[k]), b.addr[k].obj)];
    forall j ensures (j in v <==> j in w) && (j in v ==> v[j] == w[j]) {
      ViewAt(cfg, a, j);
      ViewAt(cfg, b, j);
    }
    assert v == w;
  }

  lemma DeleteView(cfg: Config, st: State, k: Key)
    requires Well(cfg, st)
    ensures Well(cfg, Delete(st, k)) && View(cfg, Delete(st, k)) == View(cfg, st) - {k}
  {
  }

  lemma SetObjView(cfg: Config, st: State, k: Key, obj: nat)
    requires Well(cfg, st)
    ensures Well(cfg, SetObj(st, k, obj))
    ensures View(cfg, SetObj(st, k, obj))
            == if k in st.addr then View(cfg, st)[k := Obj(View(cfg, st)[k].body, Some(obj))] else View(cfg, st)
  {
    if k in st.addr {
      assert RowOk(cfg, st.segs, k, st.addr[k]);
      RowSet(cfg, st, SetObj(st, k, obj), k);
    }
  }

  /** Moving a row to a copy of its record leaves the view alone, era field included. */
  lemma CasView(cfg: Config, st: State, k: Key, v: nat, i: nat, to: Addr)
    requires Well(cfg, st) && RowOk(cfg, st.segs, k, to)
    requires v in st.segs && i < |st.segs[v]|
    requires st.segs[to.seg][to.idx] == st.segs[v][i]
    ensures Well(cfg, Cas(st, k, v, i, to)) && View(cfg, Cas(st, k, v, i, to)) == View(cfg, st)
  {
    if PointsAt(st.addr, k, v, i) {
      assert RowOk(cfg, st.segs, k, st.addr[k]);
      RowSet(cfg, st, Cas(st, k, v, i, to), k);
    }
  }

  /** Unlinking segments no row points into leaves the view alone. */
  lemma UnlinkView(cfg: Config, st: State, gone: set<nat>)
    requires Well(cfg, st) && st.active !in gone
    requires forall s :: s in gone ==> !Referenced(st.addr, s)
    ensures Well(cfg, Unlink(st, gone)) && View(cfg, Unlink(st, gone)) == View(cfg, st)
  {
    forall k | k in st.addr
      ensures RowOk(cfg, st.segs - gone, k, st.addr[k])
      ensures BodyAt(cfg, st.segs - gone, st.addr[k]) == BodyAt(cfg, st.segs, st.addr[k])
    {
      assert RowOk(cfg, st.segs, k, st.addr[k]);
      assert Referenced(st.addr, st.addr[k].seg);
    }
  }

  /** Eviction drops exactly the keys whose rows point into the segment. */
  lemma EvictView(cfg: Config, st: State, v: nat)
    requires Well(cfg, st) && v != st.active
    ensures Well(cfg, Evict(st, v, KeysIn(st.addr, v)))
    ensures View(cfg, Evict(st, v, KeysIn(st.addr, v))) == View(cfg, st) - KeysIn(st.addr, v)
  {
    var s := st.(addr := st.addr - KeysIn(st.addr, v));
    assert Well(cfg, s);
    assert View(cfg, s) == View(cfg, st) - KeysIn(st.addr, v);
    assert !Referenced(s.addr, v);
    UnlinkView(cfg, s, {v});
  }
}
