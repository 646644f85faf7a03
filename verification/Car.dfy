/**
 Bulk export and import of blocks as a CARv1 stream: a header frame, then per block its length, an identifier built
 from the multihash in the key, and the body. Import is modelled block by block in stream order.
 */
module Car {
  import opened Bytes
  import opened Order
  import opened Listing
  import Varint
  import Base32

  const HEADER: Bytes := [0xA2, 0x65, 0x72, 0x6F, 0x6F, 0x74, 0x73, 0x80, 0x67, 0x76, 0x65, 0x72, 0x73, 0x69, 0x6F, 0x6E, 0x01]
  const V2_PRAGMA: Bytes := [0xA1, 0x67, 0x76, 0x65, 0x72, 0x73, 0x69, 0x6F, 0x6E, 0x02]
  const MAX_HEADER: nat := 0x10_0000
  const MAX_FRAME: nat := 0x4000_0000
  const PAGE: nat := 1024

  type Hash = Bytes -> Bytes

  // ----- identifiers

  /** A multihash within a frame, from start: a code, a length and that many bytes. Yields its end. */
  function MultihashEnd(buf: Bytes, start: nat): (end: Option<nat>)
    ensures end.Some? ==> start + 2 <= end.value <= |buf|
    ensures end.Some? && buf[start] == 0x12 && buf[start + 1] == 0x20 ==> end.value == start + 34
  {
    match Varint.ReadAt(buf, start)
    case Value(_, p) =>
      (match Varint.ReadAt(buf, p)
       case Value(len, q) => if q + len > |buf| then None else Some(q + len)
       case _ => None)
    case _ => None
  }

  /** The length of the identifier at the front of a frame, and its multihash. */
  function ParseCid(buf: Bytes): (r: Option<(nat, Bytes)>)
    ensures r.Some? ==> r.value.0 <= |buf|
    ensures r.Some? && |r.value.1| >= 2 && r.value.1[0] == 0x12 && r.value.1[1] == 0x20 ==> |r.value.1| == 34
  {
    if |buf| >= 34 && buf[0] == 0x12 && buf[1] == 0x20 then Some((34, buf[..34]))
    else
      match Varint.ReadAt(buf, 0)
      case Value(ver, p) =>
        if ver != 1 then None
        else
          (match Varint.ReadAt(buf, p)
           case Value(_, start) =>
             (match MultihashEnd(buf, start)
              case Some(end) => Some((end, buf[start..end]))
              case None => None)
           case _ => None)
      case _ => None
  }

  /** Version 1, raw codec, multihash. */
  function Cid(mh: Bytes): Bytes { [0x01, 0x55] + mh }

  function KeyFor(prefix: Key, mh: Bytes): Key { prefix + Base32.Encode(mh) }

  predicate WellFormed(mh: Bytes) { MultihashEnd(mh, 0) == Some(|mh|) }

  lemma {:induction false} ReadShifted(s: Bytes, pre: Bytes, post: Bytes, i: nat, x: nat, groups: nat)
    requires Varint.ReadFrom(s, i, x, groups).Value?
    ensures var r := Varint.ReadFrom(s, i, x, groups);
      Varint.ReadFrom(pre + s + post, |pre| + i, x, groups) == Varint.Value(r.x, |pre| + r.next)
    decreases |s| - i
  {
    var t := pre + s + post;
    assert t[|pre| + i] == s[i];
    if s[i] >= 128 {
      ReadShifted(s, pre, post, i + 1, x + s[i] % 128 * Varint.Pow128(groups), groups + 1);
    }
  }

  /** The identifier written for a well-formed multihash is read back, whatever the body after it. */
  lemma CidParses(mh: Bytes, body: Bytes)
    requires WellFormed(mh)
    ensures ParseCid(Cid(mh) + body) == Some((2 + |mh|, mh))
  {
    var buf := Cid(mh) + body;
    assert buf[0] == 1 && buf[1] == 0x55;
    ReadByte(buf, 0);
    ReadByte(buf, 1);
    var r := Varint.ReadAt(mh, 0);
    ReadShifted(mh, [0x01, 0x55], body, 0, 0, 0);
    ReadShifted(mh, [0x01, 0x55], body, r.next, 0, 0);
    assert buf[2..2 + |mh|] == mh;
  }

  lemma ReadByte(s: Bytes, i: nat)
    requires i < |s| && s[i] < 128
    ensures Varint.ReadAt(s, i) == Varint.Value(s[i], i + 1)
  {
    assert Varint.Pow128(0) == 1;
  }

  lemma {:induction false} ReadWithin(s: Bytes, b: nat, e: nat, i: nat, x: nat, groups: nat)
    requires b <= i && e <= |s|
    requires Varint.ReadFrom(s, i, x, groups).Value? && Varint.ReadFrom(s, i, x, groups).next <= e
    ensures var r := Varint.ReadFrom(s, i, x, groups);
      Varint.ReadFrom(s[b..e], i - b, x, groups) == Varint.Value(r.x, r.next - b) && r.next > i
    decreases |s| - i
  {
    if s[i] >= 128 { ReadWithin(s, b, e, i + 1, x + s[i] % 128 * Varint.Pow128(groups), groups + 1); }
  }

  /** The identifier of a frame: a bare sha2-256 multihash, or version 1 and any codec before a well-formed multihash. */
  predicate IsCid(buf: Bytes, n: nat, mh: Bytes) {
    && |mh| <= n <= |buf| && mh == buf[n - |mh|..n] && WellFormed(mh)
    && if n == |mh| then n == 34 && mh[0] == 0x12 && mh[1] == 0x20
       else match Varint.ReadAt(buf, 0)
            case Value(ver, p) => ver == 1 && p <= n && Varint.ReadAt(buf, p).Value? && Varint.ReadAt(buf, p).next == n - |mh|
            case _ => false
  }

  lemma MultihashFound(buf: Bytes, start: nat, end: nat)
    requires start <= end <= |buf|
    ensures MultihashEnd(buf, start) == Some(end) <==> WellFormed(buf[start..end])
  {
    var mh := buf[start..end];
    if MultihashEnd(buf, start) == Some(end) {
      ReadWithin(buf, start, end, start, 0, 0);
      ReadWithin(buf, start, end, Varint.ReadAt(buf, start).next, 0, 0);
    }
    if WellFormed(mh) {
      assert buf == buf[..start] + mh + buf[end..];
      MultihashShifted(mh, buf[..start], buf[end..]);
    }
    hide *;
  }

  lemma MultihashShifted(mh: Bytes, pre: Bytes, post: Bytes)
    requires WellFormed(mh)
    ensures MultihashEnd(pre + mh + post, |pre|) == Some(|pre| + |mh|)
  {
    ReadShifted(mh, pre, post, 0, 0, 0);
    ReadShifted(mh, pre, post, Varint.ReadAt(mh, 0).next, 0, 0);
  }

  /** An identifier is found in a frame exactly when it is there. */
  lemma CidExact(buf: Bytes, n: nat, mh: Bytes)
    ensures ParseCid(buf) == Some((n, mh)) <==> IsCid(buf, n, mh)
  {
    if |buf| > 0 && buf[0] < 128 { ReadByte(buf, 0); }
    if |buf| >= 34 { MultihashFound(buf, 0, 34); ShaFound(buf); }
    if Varint.ReadAt(buf, 0).Value? && Varint.ReadAt(buf, Varint.ReadAt(buf, 0).next).Value? {
      var start := Varint.ReadAt(buf, Varint.ReadAt(buf, 0).next).next;
      if start <= n <= |buf| { MultihashFound(buf, start, n); }
    }
  }

  lemma ShaFound(buf: Bytes)
    requires |buf| >= 34
    ensures buf[0] == 0x12 && buf[1] == 0x20 ==> MultihashEnd(buf, 0) == Some(34)
  {
    if buf[0] == 0x12 && buf[1] == 0x20 {
      ReadByte(buf, 0);
      ReadByte(buf, 1);
    }
  }

  // ----- export

  function Frame(mh: Bytes, body: Bytes): Bytes { Varint.Write(|Cid(mh) + body|) + (Cid(mh) + body) }

  /** The multihash in a key under the prefix. */
  function MultihashOf(prefix: Key, key: Key): Option<Bytes> {
    if |prefix| <= |key| then Base32.Decode(key[|prefix|..]) else None
  }

  /** Every key made from a multihash gives it back. */
  lemma KeyDecodes(prefix: Key, mh: Bytes)
    ensures MultihashOf(prefix, KeyFor(prefix, mh)) == Some(mh)
  {
    Base32.RoundTrip(mh);
    assert KeyFor(prefix, mh)[|prefix|..] == Base32.Encode(mh);
  }

  /** The frames of the keys in turn, unless a key does not decode. */
  function Frames(keys: seq<Key>, bodies: map<Key, Bytes>, prefix: Key): Option<Bytes> {
    if keys == [] then Some([])
    else if keys[0] !in bodies then Frames(keys[1..], bodies, prefix)
    else match (MultihashOf(prefix, keys[0]), Frames(keys[1..], bodies, prefix))
      case (Some(mh), Some(rest)) => Some(Frame(mh, bodies[keys[0]]) + rest)
      case _ => None
  }

  lemma {:induction false} FramesJoin(a: seq<Key>, b: seq<Key>, bodies: map<Key, Bytes>, prefix: Key)
    ensures Frames(a + b, bodies, prefix)
            == match (Frames(a, bodies, prefix), Frames(b, bodies, prefix)) case (Some(x), Some(y)) => Some(x + y) case _ => None
  {
    hide Frame;
    hide MultihashOf;
    if a == [] {
      assert a + b == b;
      if Frames(b, bodies, prefix).Some? { assert [] + Frames(b, bodies, prefix).value == Frames(b, bodies, prefix).value; }
    } else {
      assert (a + b)[1..] == a[1..] + b;
      FramesJoin(a[1..], b, bodies, prefix);
      match (MultihashOf(prefix, a[0]), Frames(a[1..], bodies, prefix), Frames(b, bodies, prefix))
      case (Some(mh), Some(x), Some(y)) =>
        if a[0] in bodies { assert Frame(mh, bodies[a[0]]) + (x + y) == Frame(mh, bodies[a[0]]) + x + y; }
      case _ =>
    }
  }

  lemma {:induction false} FramesFail(keys: seq<Key>, bodies: map<Key, Bytes>, prefix: Key) returns (k: Key)
    requires Frames(keys, bodies, prefix).None?
    ensures k in keys && k in bodies && MultihashOf(prefix, k).None?
  {
    hide MultihashOf;
    if keys[0] in bodies && MultihashOf(prefix, keys[0]).None? { k := keys[0]; } else { k := FramesFail(keys[1..], bodies, prefix); }
  }

  /** The frames of one page of keys. */
  method WriteBlocks(page: seq<Key>, bodies: map<Key, Bytes>, prefix: Key) returns (out: Option<Bytes>)
    ensures out == Frames(page, bodies, prefix)
  {
    hide MultihashOf;
    hide Frame;
    var stream: Bytes := [];
    var i := 0;
    assert page[0..] == page && page[..0] == [];
    while i < |page|
      invariant i <= |page| && Frames(page[..i], bodies, prefix) == Some(stream)
    {
      assert page[..i + 1] == page[..i] + [page[i]];
      FramesJoin(page[..i], [page[i]], bodies, prefix);
      var one: seq<Key> := [page[i]];
      assert one[1..] == [] && Frames([], bodies, prefix) == Some([]);
      if page[i] in bodies {
        var mh := MultihashOf(prefix, page[i]);
        if mh.None? {
          assert page == page[..i + 1] + page[i + 1..];
          FramesJoin(page[..i + 1], page[i + 1..], bodies, prefix);
          return None;
        }
        assert Frame(mh.value, bodies[page[i]]) + [] == Frame(mh.value, bodies[page[i]]);
        stream := stream + Frame(mh.value, bodies[page[i]]);
      } else {
        assert stream + [] == stream;
      }
      i := i + 1;
    }
    assert page[..|page|] == page;
    out := Some(stream);
  }

  function HeaderFrame(): Bytes { Varint.Write(|HEADER|) + HEADER }

  lemma WalkedAscends(u: set<Key>, prefix: Key, keys: seq<Key>, after: Option<Key>)
    requires Walked(u, prefix, None, keys, after)
    ensures Ascending(keys)
  {
  }

  lemma PageCursor(u: set<Key>, prefix: Key, after: Option<Key>, page: seq<Key>, limit: nat)
    requires IsFirst(page, After(u, prefix, after), limit)
    ensures page != [] ==> GoodCursor(prefix, Some(page[|page| - 1]))
  {
    if page != [] {
      assert page[|page| - 1] in page;
      PrefixFirst(page[|page| - 1], prefix);
    }
  }

  lemma PageWithin(u: set<Key>, prefix: Key, keys: seq<Key>, after: Option<Key>, page: seq<Key>, limit: nat, k: Key)
    requires Walked(u, prefix, None, keys, after) && IsFirst(page, After(u, prefix, after), limit) && k in page
    ensures k in After(u, prefix, None)
  {
  }

  /** The stream so far: the header and the frames of the keys written. */
  ghost predicate Streamed(stream: Bytes, keys: seq<Key>, bodies: map<Key, Bytes>, prefix: Key) {
    Frames(keys, bodies, prefix).Some? && stream == HeaderFrame() + Frames(keys, bodies, prefix).value
  }

  lemma StreamStarts(bodies: map<Key, Bytes>, prefix: Key)
    ensures Streamed(HeaderFrame(), [], bodies, prefix)
  {
    assert HeaderFrame() + [] == HeaderFrame();
  }

  lemma StreamGrows(stream: Bytes, keys: seq<Key>, page: seq<Key>, more: Bytes, bodies: map<Key, Bytes>, prefix: Key)
    requires Streamed(stream, keys, bodies, prefix) && Frames(page, bodies, prefix) == Some(more)
    ensures Streamed(stream + more, keys + page, bodies, prefix)
  {
    FramesJoin(keys, page, bodies, prefix);
    hide Frames;
    hide HeaderFrame;
    assert stream + more == HeaderFrame() + (Frames(keys, bodies, prefix).value + more);
  }

  /** Write every block under the prefix, paging through the keys in order. */
  method Export(store: Table, prefix: Key) returns (out: Option<Bytes>, ghost keys: seq<Key>)
    requires store.Valid()
    ensures Ascending(keys) && (out.Some? ==> Set(keys) == After(store.bodies.Keys, prefix, None))
    ensures out.Some? ==> Streamed(out.value, keys, store.bodies, prefix)
    ensures out.None? ==> exists k :: k in After(store.bodies.Keys, prefix, None) && MultihashOf(prefix, k).None?
  {
    ghost var u := store.bodies.Keys;
    var stream := HeaderFrame();
    var after: Option<Key> := None;
    keys := [];
    WalkStarts(u, prefix, None);
    assert Set(store.keys) + Set([]) == u;
    StreamStarts(store.bodies, prefix);
    NoCursor(prefix);
    hide Walked;
    hide Less;
    hide Ascending;
    hide HeaderFrame;
    hide Frames;
    hide MultihashOf;
    hide After;
    hide IsFirst;
    hide GoodCursor;
    hide Streamed;
    hide Set;
    while true
      invariant Walked(u, prefix, None, keys, after) && GoodCursor(prefix, after) && Streamed(stream, keys, store.bodies, prefix)
      decreases |After(u, prefix, after)|
    {
      var page := EngineList(store.keys, [], prefix, after, PAGE);
      var more := WriteBlocks(page, store.bodies, prefix);
      WalkedAscends(u, prefix, keys, after);
      if more.None? {
        var k := FramesFail(page, store.bodies, prefix);
        PageWithin(u, prefix, keys, after, page, PAGE, k);
        return None, keys;
      }
      WalkOn(u, prefix, None, keys, after, page, PAGE);
      StreamGrows(stream, keys, page, more.value, store.bodies, prefix);
      stream := stream + more.value;
      keys := keys + page;
      if |page| < PAGE { return Some(stream), keys; }
      PageCursor(u, prefix, after, page, PAGE);
      after := Some(page[|page| - 1]);
    }
  }

  lemma NoCursor(prefix: Key)
    ensures GoodCursor(prefix, None)
  {
  }

  // ----- import

  datatype Report = Report(blocks: nat, bytes: nat, skipped: nat, corrupt: nat, errors: nat)

  /** The store after an import, and its report unless the stream was malformed. */
  datatype Outcome = Outcome(store: Table, report: Option<Report>)

  datatype Options = Options(prefix: Key, verify: bool, sha: Hash, failing: set<Key>)

  /** Whether the body does not match a sha2-256 multihash. */
  predicate Mismatch(o: Options, mh: Bytes, body: Bytes) {
    o.verify && |mh| >= 34 && mh[0] == 0x12 && mh[1] == 0x20 && o.sha(body) != mh[2..34]
  }

  /** Keep one block unless its key is there; a failed write is only counted. */
  function Keep(store: Table, o: Options, mh: Bytes, body: Bytes, rep: Report): (Table, Report) {
    var key := KeyFor(o.prefix, mh);
    if key in store.bodies then (store, rep.(skipped := rep.skipped + 1))
    else if key in o.failing then (store, rep.(errors := rep.errors + 1))
    else (Store(store, key, body), rep.(blocks := rep.blocks + 1, bytes := rep.bytes + |body|))
  }

  /** One whole frame. */
  function KeepFrame(store: Table, o: Options, frame: Bytes, rep: Report): (Table, Report) {
    match ParseCid(frame)
    case None => (store, rep.(corrupt := rep.corrupt + 1))
    case Some((n, mh)) =>
      if Mismatch(o, mh, frame[n..]) then (store, rep.(corrupt := rep.corrupt + 1)) else Keep(store, o, mh, frame[n..], rep)
  }

  /** The rest of the stream, frame by frame from position i. */
  function ImportFrom(store: Table, o: Options, s: Bytes, i: nat, rep: Report): Outcome
    requires i <= |s|
    decreases |s| - i
  {
    match Varint.ReadAt(s, i)
    case End => Outcome(store, Some(rep))
    case Broken => Outcome(store, None)
    case Value(len, n) =>
      if len == 0 || len > MAX_FRAME || n + len > |s| then Outcome(store, None)
      else
        var (t, r) := KeepFrame(store, o, s[n..n + len], rep);
        ImportFrom(t, o, s, n + len, r)
  }

  function ImportAll(store: Table, o: Options, s: Bytes): Outcome {
    match Varint.ReadAt(s, 0)
    case Value(len, n) =>
      if len > MAX_HEADER || n + len > |s| || s[n..n + len] == V2_PRAGMA then Outcome(store, None)
      else ImportFrom(store, o, s, n + len, Report(0, 0, 0, 0, 0))
    case _ => Outcome(store, None)
  }

  method Import(store0: Table, o: Options, s: Bytes) returns (r: Outcome)
    ensures r == ImportAll(store0, o, s)
  {
    hide KeepFrame;
    var store := store0;
    var head := Varint.ReadVarint(s, 0);
    if !head.Value? { return Outcome(store, None); }
    var i := head.next + head.x;
    if head.x > MAX_HEADER || i > |s| || s[head.next..i] == V2_PRAGMA { return Outcome(store, None); }
    var rep := Report(0, 0, 0, 0, 0);
    while true
      invariant i <= |s| && ImportFrom(store, o, s, i, rep) == ImportAll(store0, o, s)
      decreases |s| - i
    {
      var len := Varint.ReadVarint(s, i);
      if len.End? { return Outcome(store, Some(rep)); }
      if len.Broken? || len.x == 0 || len.x > MAX_FRAME || len.next + len.x > |s| { return Outcome(store, None); }
      var (t, kept) := KeepFrame(store, o, s[len.next..len.next + len.x], rep);
      store, rep := t, kept;
      i := len.next + len.x;
    }
  }

  // ----- what an import lets in

  /** The body's digest is the one its multihash names, where that is a sha2-256 digest. */
  ghost predicate Matches(o: Options, mh: Bytes, body: Bytes) {
    |mh| >= 2 && mh[0] == 0x12 && mh[1] == 0x20 ==> |mh| == 34 && o.sha(body) == mh[2..]
  }

  /** A frame that does not carry an identifier, or whose body does not match it, is counted and changes nothing. */
  lemma CorruptDropped(store: Table, o: Options, frame: Bytes, rep: Report)
    ensures ParseCid(frame).None? ==> KeepFrame(store, o, frame, rep) == (store, rep.(corrupt := rep.corrupt + 1))
    ensures ParseCid(frame).Some? && o.verify && !Matches(o, ParseCid(frame).value.1, frame[ParseCid(frame).value.0..])
      ==> KeepFrame(store, o, frame, rep) == (store, rep.(corrupt := rep.corrupt + 1))
    ensures ParseCid(frame).Some? && !(o.verify && !Matches(o, ParseCid(frame).value.1, frame[ParseCid(frame).value.0..]))
      ==> KeepFrame(store, o, frame, rep) == Keep(store, o, ParseCid(frame).value.1, frame[ParseCid(frame).value.0..], rep)
  {
    hide Keep;
    if ParseCid(frame).Some? {
      var mh := ParseCid(frame).value.1;
      if |mh| == 34 { assert mh[2..34] == mh[2..]; }
    }
    hide ParseCid;
  }

  /** Every block of the new store was in the old one or carries a multihash that names its key and, verified, its body. */
  ghost predicate OnlySound(o: Options, old_: Table, new_: Table) {
    && (forall k :: k in old_.bodies ==> k in new_.bodies && new_.bodies[k] == old_.bodies[k])
    && forall k :: k in new_.bodies && k !in old_.bodies ==> SoundBlock(o, k, new_.bodies[k])
  }

  ghost predicate SoundBlock(o: Options, k: Key, body: Bytes) {
    exists mh :: k == KeyFor(o.prefix, mh) && (o.verify ==> Matches(o, mh, body)) && k !in o.failing
  }

  function Counted(rep: Report): nat { rep.blocks + rep.skipped + rep.corrupt + rep.errors }

  lemma FrameSound(store: Table, o: Options, frame: Bytes, rep: Report)
    ensures var (t, r) := KeepFrame(store, o, frame, rep);
      OnlySound(o, store, t) && Counted(r) == Counted(rep) + 1 && |t.bodies| + rep.blocks == |store.bodies| + r.blocks
  {
    CorruptDropped(store, o, frame, rep);
    hide Matches;
    hide ParseCid;
    hide KeyFor;
    hide KeepFrame;
    if ParseCid(frame).Some? {
      var mh, body := ParseCid(frame).value.1, frame[ParseCid(frame).value.0..];
      if !o.verify || Matches(o, mh, body) { KeepSound(store, o, mh, body, rep); }
    }
  }

  lemma KeepSound(store: Table, o: Options, mh: Bytes, body: Bytes, rep: Report)
    requires o.verify ==> Matches(o, mh, body)
    ensures var (t, r) := Keep(store, o, mh, body, rep);
      OnlySound(o, store, t) && Counted(r) == Counted(rep) + 1 && |t.bodies| + rep.blocks == |store.bodies| + r.blocks
  {
    hide Matches;
    hide KeyFor;
    var key := KeyFor(o.prefix, mh);
    if key !in store.bodies && key !in o.failing {
      assert SoundBlock(o, key, body);
      assert store.bodies[key := body].Keys == store.bodies.Keys + {key};
      assert |store.bodies[key := body].Keys| == |store.bodies.Keys| + 1;
      SizeOfKeys(store.bodies);
      SizeOfKeys(store.bodies[key := body]);
    }
  }

  lemma SizeOfKeys(m: map<Key, Bytes>)
    ensures |m| == |m.Keys|
  {
  }

  /** How many frames there are from position i on, as far as the stream is sound. */
  function FrameCount(s: Bytes, i: nat): nat
    requires i <= |s|
    decreases |s| - i
  {
    match Varint.ReadAt(s, i)
    case Value(len, n) => if len == 0 || len > MAX_FRAME || n + len > |s| then 0 else 1 + FrameCount(s, n + len)
    case _ => 0
  }

  lemma {:induction false} ImportFromSound(store: Table, o: Options, s: Bytes, i: nat, rep: Report)
    requires i <= |s|
    ensures var out := ImportFrom(store, o, s, i, rep);
      && OnlySound(o, store, out.store)
      && (out.report.Some? ==>
            && Counted(out.report.value) == Counted(rep) + FrameCount(s, i)
            && |out.store.bodies| + rep.blocks == |store.bodies| + out.report.value.blocks)
    decreases |s| - i
  {
    hide KeepFrame;
    hide OnlySound;
    hide Varint.ReadFrom;
    match Varint.ReadAt(s, i)
    case Value(len, n) =>
      if !(len == 0 || len > MAX_FRAME || n + len > |s|) {
        FrameSound(store, o, s[n..n + len], rep);
        var (t, r) := KeepFrame(store, o, s[n..n + len], rep);
        ImportFromSound(t, o, s, n + len, r);
        SoundTwice(o, store, t, ImportFrom(t, o, s, n + len, r).store);
      } else {
        SameSound(o, store);
      }
    case _ => SameSound(o, store);
  }

  lemma SoundTwice(o: Options, a: Table, b: Table, c: Table)
    requires OnlySound(o, a, b) && OnlySound(o, b, c)
    ensures OnlySound(o, a, c)
  {
    hide SoundBlock;
  }

  /**
   Whatever the stream, an import leaves every block that was there, adds only blocks whose multihash names their key and,
   when verifying, their body; each frame is counted once, and the blocks counted as imported are those added.
   */
  lemma ImportSound(store: Table, o: Options, s: Bytes)
    ensures var out := ImportAll(store, o, s);
      && OnlySound(o, store, out.store)
      && (out.report.Some? ==> |out.store.bodies| == |store.bodies| + out.report.value.blocks)
  {
    hide OnlySound;
    hide ImportFrom;
    hide Varint.ReadAt;
    match Varint.ReadAt(s, 0)
    case Value(len, n) =>
      if !(len > MAX_HEADER || n + len > |s| || s[n..n + len] == V2_PRAGMA) {
        ImportFromSound(store, o, s, n + len, Report(0, 0, 0, 0, 0));
      } else {
        SameSound(o, store);
      }
    case _ => SameSound(o, store);
  }

  lemma SameSound(o: Options, store: Table)
    ensures OnlySound(o, store, store)
  {
  }

  // ----- import undoes export

  /** The block's key is the prefix and its encoded multihash, which fits its body and a frame. */
  ghost predicate Exportable(o: Options, key: Key, body: Bytes) {
    exists mh :: WellFormed(mh) && key == KeyFor(o.prefix, mh) && !Mismatch(o, mh, body) && |Cid(mh) + body| <= MAX_FRAME
  }

  ghost predicate AllExportable(o: Options, keys: seq<Key>, bodies: map<Key, Bytes>) {
    forall k :: k in keys ==> k in bodies && Exportable(o, k, bodies[k])
  }

  /** A frame within a stream is read whole. */
  lemma FrameReads(pre: Bytes, frame: Bytes, post: Bytes)
    requires |frame| <= MAX_FRAME
    ensures var len := Varint.Write(|frame|);
      var s := pre + (len + frame) + post;
      && Varint.ReadAt(s, |pre|) == Varint.Value(|frame|, |pre| + |len|)
      && |pre| + |len| + |frame| <= |s| && s[|pre| + |len|..|pre| + |len| + |frame|] == frame
  {
    var len := Varint.Write(|frame|);
    hide Varint.Write;
    hide Varint.ReadFrom;
    hide Varint.ReadAt;
    Varint.RoundTrip(pre, |frame|, frame + post);
    assert pre + (len + frame) + post == pre + len + (frame + post);
  }

  /** An exportable block's frame is kept under its key. */
  lemma FrameKept(store: Table, o: Options, key: Key, body: Bytes, rep: Report) returns (mh: Bytes)
    requires Exportable(o, key, body)
    ensures MultihashOf(o.prefix, key) == Some(mh) && key == KeyFor(o.prefix, mh) && 2 <= |Cid(mh) + body| <= MAX_FRAME
    ensures KeepFrame(store, o, Cid(mh) + body, rep) == Keep(store, o, mh, body, rep)
  {
    mh :| WellFormed(mh) && key == KeyFor(o.prefix, mh) && !Mismatch(o, mh, body) && |Cid(mh) + body| <= MAX_FRAME;
    hide ParseCid;
    hide WellFormed;
    hide Mismatch;
    hide Keep;
    Base32.RoundTrip(mh);
    hide Base32.Encode;
    hide Base32.Decode;
    assert key[|o.prefix|..] == Base32.Encode(mh);
    CidParses(mh, body);
    assert (Cid(mh) + body)[2 + |mh|..] == body;
  }

  /** One exported frame is imported as its block. */
  lemma FrameImports(store: Table, o: Options, pre: Bytes, key: Key, body: Bytes, post: Bytes, rep: Report) returns (mh: Bytes)
    requires Exportable(o, key, body)
    ensures MultihashOf(o.prefix, key) == Some(mh) && key == KeyFor(o.prefix, mh)
    ensures var (t, r) := Keep(store, o, mh, body, rep);
      ImportFrom(store, o, pre + Frame(mh, body) + post, |pre|, rep)
      == ImportFrom(t, o, pre + Frame(mh, body) + post, |pre| + |Frame(mh, body)|, r)
  {
    hide KeepFrame;
    hide Keep;
    hide Exportable;
    hide MultihashOf;
    hide KeyFor;
    hide Cid;
    hide ImportFrom;
    hide Varint.ReadAt;
    hide Varint.Write;
    mh := FrameKept(store, o, key, body, rep);
    var frame, len := Cid(mh) + body, Varint.Write(|Cid(mh) + body|);
    assert Frame(mh, body) == len + frame;
    hide Frame;
    FrameReads(pre, frame, post);
    ImportStep(store, o, pre + Frame(mh, body) + post, |pre|, rep, |frame|, |pre| + |len|);
  }

  lemma ImportStep(store: Table, o: Options, s: Bytes, i: nat, rep: Report, len: nat, n: nat)
    requires i <= |s| && Varint.ReadAt(s, i) == Varint.Value(len, n) && 0 < len <= MAX_FRAME && n + len <= |s|
    ensures var (t, r) := KeepFrame(store, o, s[n..n + len], rep);
      ImportFrom(store, o, s, i, rep) == ImportFrom(t, o, s, n + len, r)
  {
    hide KeepFrame;
    hide Varint.ReadFrom;
  }

  /** The blocks of keys. */
  function Pick(keys: seq<Key>, bodies: map<Key, Bytes>): map<Key, Bytes> { map k | k in keys && k in bodies :: bodies[k] }

  function Total(keys: seq<Key>, bodies: map<Key, Bytes>): nat {
    if keys == [] then 0 else (if keys[0] in bodies then |bodies[keys[0]]| else 0) + Total(keys[1..], bodies)
  }

  function Fresh(keys: seq<Key>, bodies: map<Key, Bytes>, rep: Report): Report {
    rep.(blocks := rep.blocks + |keys|, bytes := rep.bytes + Total(keys, bodies))
  }

  lemma PickFirst(base: map<Key, Bytes>, keys: seq<Key>, bodies: map<Key, Bytes>)
    requires keys != [] && keys[0] in bodies && keys[0] !in keys[1..]
    ensures base[keys[0] := bodies[keys[0]]] + Pick(keys[1..], bodies) == base + Pick(keys, bodies)
  {
    assert keys == [keys[0]] + keys[1..];
    var a, b := Pick(keys[1..], bodies), Pick(keys, bodies);
    assert forall k :: k in b <==> k == keys[0] || k in a;
  }

  lemma FirstOnce(keys: seq<Key>)
    requires keys != [] && Distinct(keys)
    ensures keys[0] !in keys[1..] && Distinct(keys[1..])
  {
    var rest := keys[1..];
    forall j | 0 <= j < |rest| ensures rest[j] != keys[0] { assert rest[j] == keys[j + 1]; }
  }

  /** What is left to import after the first key's block was stored. */
  lemma KeptFirst(store: Table, o: Options, keys: seq<Key>, bodies: map<Key, Bytes>)
    requires keys != [] && Distinct(keys) && AllExportable(o, keys, bodies) && (forall k :: k in keys ==> k !in store.bodies)
    requires store.Valid()
    ensures var t := Store(store, keys[0], bodies[keys[0]]);
      && t.Valid() && Distinct(keys[1..]) && AllExportable(o, keys[1..], bodies) && (forall k :: k in keys[1..] ==> k !in t.bodies)
      && t.bodies + Pick(keys[1..], bodies) == store.bodies + Pick(keys, bodies)
  {
    FirstOnce(keys);
    StoreValid(store, keys[0], bodies[keys[0]]);
    PickFirst(store.bodies, keys, bodies);
    hide Exportable;
    hide Distinct;
    hide Pick;
    hide InsertKey;
    assert keys == [keys[0]] + keys[1..];
  }

  lemma KeepNew(store: Table, o: Options, mh: Bytes, key: Key, body: Bytes, rep: Report)
    requires key == KeyFor(o.prefix, mh) && key !in store.bodies && o.failing == {}
    ensures Keep(store, o, mh, body, rep) == (Store(store, key, body), rep.(blocks := rep.blocks + 1, bytes := rep.bytes + |body|))
  {
    hide KeyFor;
    hide Store;
  }

  lemma FramesFirst(keys: seq<Key>, bodies: map<Key, Bytes>, prefix: Key, mh: Bytes)
    requires keys != [] && keys[0] in bodies && MultihashOf(prefix, keys[0]) == Some(mh) && Frames(keys, bodies, prefix).Some?
    ensures Frames(keys[1..], bodies, prefix).Some?
    ensures Frames(keys, bodies, prefix).value == Frame(mh, bodies[keys[0]]) + Frames(keys[1..], bodies, prefix).value
  {
  }

  lemma FreshFirst(keys: seq<Key>, bodies: map<Key, Bytes>, rep: Report)
    requires keys != [] && keys[0] in bodies
    ensures Fresh(keys[1..], bodies, rep.(blocks := rep.blocks + 1, bytes := rep.bytes + |bodies[keys[0]]|)) == Fresh(keys, bodies, rep)
  {
  }

  /** Importing the frames of new keys adds exactly their blocks. */
  lemma {:induction false} ImportsFrames(store: Table, o: Options, pre: Bytes, keys: seq<Key>, bodies: map<Key, Bytes>, rep: Report)
    requires Frames(keys, bodies, o.prefix).Some? && AllExportable(o, keys, bodies) && o.failing == {}
    requires Distinct(keys) && (forall k :: k in keys ==> k !in store.bodies) && store.Valid()
    ensures var r := ImportFrom(store, o, pre + Frames(keys, bodies, o.prefix).value, |pre|, rep);
      && r.store.Valid() && r.store.bodies == store.bodies + Pick(keys, bodies) && r.report == Some(Fresh(keys, bodies, rep))
    decreases |keys|
  {
    hide ImportFrom;
    hide Exportable;
    hide Frame;
    hide Store;
    hide Keep;
    hide MultihashOf;
    hide KeyFor;
    hide Table.Valid;
    if keys == [] {
      assert pre + [] == pre;
      EndOfStream(store, o, pre, rep);
      assert Pick(keys, bodies) == map[];
    } else {
      var key, body, rest := keys[0], bodies[keys[0]], keys[1..];
      assert Exportable(o, key, body);
      KeptFirst(store, o, keys, bodies);
      FreshFirst(keys, bodies, rep);
      hide Fresh;
      hide AllExportable;
      hide Distinct;
      hide Pick;
      var mh := FrameKept(store, o, key, body, rep);
      FramesFirst(keys, bodies, o.prefix, mh);
      hide Frames;
      var post := Frames(rest, bodies, o.prefix).value;
      var again := FrameImports(store, o, pre, key, body, post, rep);
      KeepNew(store, o, mh, key, body, rep);
      var next := pre + Frame(mh, body);
      assert pre + (Frame(mh, body) + post) == next + post;
      ImportsFrames(Store(store, key, body), o, next, rest, bodies, rep.(blocks := rep.blocks + 1, bytes := rep.bytes + |body|));
    }
  }

  lemma EndOfStream(store: Table, o: Options, s: Bytes, rep: Report)
    ensures ImportFrom(store, o, s, |s|, rep) == Outcome(store, Some(rep))
  {
  }

  lemma KeepOld(store: Table, o: Options, mh: Bytes, key: Key, body: Bytes, rep: Report)
    requires key == KeyFor(o.prefix, mh) && key in store.bodies
    ensures Keep(store, o, mh, body, rep) == (store, rep.(skipped := rep.skipped + 1))
  {
    hide KeyFor;
  }

  /** Importing frames of keys that are there only counts them. */
  lemma {:induction false} SkipsFrames(store: Table, o: Options, pre: Bytes, keys: seq<Key>, bodies: map<Key, Bytes>, rep: Report)
    requires Frames(keys, bodies, o.prefix).Some? && AllExportable(o, keys, bodies) && forall k :: k in keys ==> k in store.bodies
    ensures ImportFrom(store, o, pre + Frames(keys, bodies, o.prefix).value, |pre|, rep)
            == Outcome(store, Some(rep.(skipped := rep.skipped + |keys|)))
    decreases |keys|
  {
    hide ImportFrom;
    hide Exportable;
    hide Frame;
    hide Keep;
    hide MultihashOf;
    hide KeyFor;
    if keys == [] {
      assert pre + [] == pre;
      EndOfStream(store, o, pre, rep);
    } else {
      var key, body, rest := keys[0], bodies[keys[0]], keys[1..];
      assert Exportable(o, key, body);
      assert keys == [key] + rest;
      assert AllExportable(o, rest, bodies);
      hide AllExportable;
      var mh := FrameKept(store, o, key, body, rep);
      FramesFirst(keys, bodies, o.prefix, mh);
      hide Frames;
      var post := Frames(rest, bodies, o.prefix).value;
      var again := FrameImports(store, o, pre, key, body, post, rep);
      KeepOld(store, o, mh, key, body, rep);
      var next := pre + Frame(mh, body);
      assert pre + (Frame(mh, body) + post) == next + post;
      SkipsFrames(store, o, next, rest, bodies, rep.(skipped := rep.skipped + 1));
    }
  }

  /** The header an export writes is accepted. */
  lemma HeaderReads(store: Table, o: Options, rest: Bytes)
    ensures ImportAll(store, o, HeaderFrame() + rest)
            == ImportFrom(store, o, HeaderFrame() + rest, |HeaderFrame()|, Report(0, 0, 0, 0, 0))
  {
    var s := HeaderFrame() + rest;
    assert Varint.Write(17) == [17];
    assert HeaderFrame() == [17] + HEADER;
    ReadByte(s, 0);
    assert s[1..18] == HEADER;
    assert HEADER[0] != V2_PRAGMA[0];
    hide ImportFrom;
  }

  /** Exportable keys always have frames, so an export of them does not fail. */
  lemma {:induction false} FramesOfExportable(o: Options, keys: seq<Key>, bodies: map<Key, Bytes>)
    requires AllExportable(o, keys, bodies)
    ensures Frames(keys, bodies, o.prefix).Some?
  {
    hide Exportable;
    hide MultihashOf;
    hide KeyFor;
    hide Frame;
    hide KeepFrame;
    hide Keep;
    if keys != [] {
      assert Exportable(o, keys[0], bodies[keys[0]]);
      var mh := FrameKept(NOTHING, o, keys[0], bodies[keys[0]], Report(0, 0, 0, 0, 0));
      assert keys == [keys[0]] + keys[1..];
      FramesOfExportable(o, keys[1..], bodies);
    }
  }

  /** The blocks under a prefix. */
  function Under(bodies: map<Key, Bytes>, prefix: Key): map<Key, Bytes> { map k | k in bodies && StartsWith(k, prefix) :: bodies[k] }

  const NOTHING := Table([], map[])

  lemma AscendingDistinct(keys: seq<Key>)
    requires Ascending(keys)
    ensures Distinct(keys)
  {
    forall i, j | 0 <= i < j < |keys| ensures keys[i] != keys[j] { LessSelf(keys[i]); }
  }

  lemma PickIsUnder(keys: seq<Key>, bodies: map<Key, Bytes>, prefix: Key)
    requires Set(keys) == After(bodies.Keys, prefix, None)
    ensures Pick(keys, bodies) == Under(bodies, prefix) && forall k :: k in keys ==> k in bodies
  {
    forall k ensures k in keys <==> k in bodies && StartsWith(k, prefix) { assert k in keys <==> k in Set(keys); }
  }

  /**
   What an export of a store writes under a prefix, an import into an empty store reads back as the same blocks; importing
   it again changes nothing and skips every block.
   */
  lemma ImportUndoesExport(store: Table, o: Options, stream: Bytes, keys: seq<Key>)
    requires o.failing == {} && Ascending(keys) && Set(keys) == After(store.bodies.Keys, o.prefix, None)
    requires AllExportable(o, keys, store.bodies) && Streamed(stream, keys, store.bodies, o.prefix)
    ensures var r := ImportAll(NOTHING, o, stream);
      && r.store.Valid() && r.store.bodies == Under(store.bodies, o.prefix)
      && r.report == Some(Report(|keys|, Total(keys, store.bodies), 0, 0, 0))
      && ImportAll(r.store, o, stream) == Outcome(r.store, Some(Report(0, 0, |keys|, 0, 0)))
  {
    hide ImportAll;
    hide AllExportable;
    hide Streamed;
    hide Ascending;
    PickIsUnder(keys, store.bodies, o.prefix);
    FirstImport(o, stream, keys, store.bodies);
    var r := ImportAll(NOTHING, o, stream);
    assert forall k :: k in keys ==> k in r.store.bodies;
    SecondImport(r.store, o, stream, keys, store.bodies);
  }

  lemma FirstImport(o: Options, stream: Bytes, keys: seq<Key>, bodies: map<Key, Bytes>)
    requires o.failing == {} && Ascending(keys) && AllExportable(o, keys, bodies) && Streamed(stream, keys, bodies, o.prefix)
    ensures var r := ImportAll(NOTHING, o, stream);
      r.store.Valid() && r.store.bodies == Pick(keys, bodies) && r.report == Some(Report(|keys|, Total(keys, bodies), 0, 0, 0))
  {
    hide ImportAll;
    hide ImportFrom;
    hide HeaderFrame;
    hide Frames;
    hide AllExportable;
    hide Pick;
    hide Total;
    AscendingDistinct(keys);
    hide Ascending;
    hide Distinct;
    var rest := Frames(keys, bodies, o.prefix).value;
    HeaderReads(NOTHING, o, rest);
    EmptyValid();
    hide Table.Valid;
    ImportsFrames(NOTHING, o, HeaderFrame(), keys, bodies, Report(0, 0, 0, 0, 0));
    assert map[] + Pick(keys, bodies) == Pick(keys, bodies);
  }

  lemma SecondImport(store: Table, o: Options, stream: Bytes, keys: seq<Key>, bodies: map<Key, Bytes>)
    requires AllExportable(o, keys, bodies) && Streamed(stream, keys, bodies, o.prefix) && forall k :: k in keys ==> k in store.bodies
    ensures ImportAll(store, o, stream) == Outcome(store, Some(Report(0, 0, |keys|, 0, 0)))
  {
    hide ImportAll;
    hide ImportFrom;
    hide HeaderFrame;
    hide Frames;
    hide AllExportable;
    HeaderReads(store, o, Frames(keys, bodies, o.prefix).value);
    SkipsFrames(store, o, HeaderFrame(), keys, bodies, Report(0, 0, 0, 0, 0));
  }

  lemma EmptyValid()
    ensures NOTHING.Valid()
  {
  }
}
