/**
 Puts in two parts: the record is appended under the writer's lock, the row committed in a later transaction, and anything
 may happen in between. When that leaves the shard in order, and when it can still be replayed.
 */
module SplitPuts {
  import opened Bytes
  import opened Segments
  import opened Engine
  import opened GcRuns
  import opened Recovery
  import opened ReplayRuns

  /** A put that has appended its record, at the place its row will name. */
  datatype Pending = Pending(key: Key, data: Bytes, era: Option<nat>, row: Addr)

  datatype Busy = Busy(sys: Sys, puts: map<nat, Pending>)

  datatype Move =
    | Begin(id: nat, key: Key, data: Bytes, era: Option<nat>)
    | Commit(id: nat)
    | Other(step: Step)

  /** The index transaction of a put. */
  function CommitRow(st: State, k: Key, row: Addr): State {
    st.(addr := st.addr[k := row], inl := st.inl - {k}, discard := Charge(st, k))
  }

  /** The row that names the record an append to st puts down. */
  function NewRow(cfg: Config, st: State, rec: Record, era: Option<nat>): Addr
    requires st.active in st.segs
  {
    LastRow(Append(cfg, st, rec), rec, era)
  }

  ghost predicate CanMove(cfg: Config, r: real, b: Busy, move: Move) {
    match move
    case Begin(id, _, data, era) => id !in b.puts && !GoesInline(cfg, data, era)
    case Commit(id) => id in b.puts
    case Other(step) => Enabled(r, b.sys, step)
  }

  ghost function After(cfg: Config, r: real, b: Busy, move: Move): Busy
    requires b.sys.eng.active in b.sys.eng.segs && CanMove(cfg, r, b, move)
  {
    match move
    case Begin(id, k, data, era) =>
      var rec := Pack(cfg, k, data);
      var y := Lost(cfg, b.sys, k, data, era);
      Busy(y, b.puts[id := Pending(k, data, era, NewRow(cfg, b.sys.eng, rec, era))])
    case Commit(id) =>
      Busy(b.sys.(eng := CommitRow(b.sys.eng, b.puts[id].key, b.puts[id].row)), b.puts - {id})
    case Other(step) => b.(sys := Next(cfg, r, b.sys, step))
  }

  /** With nothing in between the two parts are the put of the other theorems. */
  lemma PutIsBoth(cfg: Config, st: State, k: Key, data: Bytes, era: Option<nat>)
    requires st.active in st.segs && !GoesInline(cfg, data, era)
    ensures var s := Append(cfg, st, Pack(cfg, k, data));
      s.active in s.segs && s.segs[s.active] != [] && CommitRow(s, k, LastRow(s, Pack(cfg, k, data), era)) == Put(cfg, st, k, data, era)
  {
    hide Pack;
    hide SegLen;
  }

  // ----- what the records of pending puts satisfy

  /** No table row and no copy in flight is at the put's place; the record there, while its segment exists, is the put's. */
  ghost predicate PendingOk(cfg: Config, y: Sys, p: Pending) {
    && p.row.seg <= y.eng.active && Unpointed(y.eng.addr, p.row.seg, p.row.idx)
    && (y.gc.Copied? ==> !(y.gc.to.seg == p.row.seg && y.gc.to.idx == p.row.idx))
    && (p.row.seg in y.eng.segs ==>
          && p.row.idx < |y.eng.segs[p.row.seg]| && y.eng.segs[p.row.seg][p.row.idx] == Pack(cfg, p.key, p.data)
          && p.row == RowOfRecord(p.row, Pack(cfg, p.key, p.data), p.era))
  }

  function RowOfRecord(place: Addr, rec: Record, era: Option<nat>): Addr {
    Addr(place.seg, place.idx, |rec.stored|, rec.logicalLen, rec.flags, era)
  }

  ghost predicate Apart(puts: map<nat, Pending>) {
    forall i, j :: i in puts && j in puts && i != j ==> !SamePlace(puts[i].row, puts[j].row)
  }

  ghost predicate Good(cfg: Config, b: Busy) {
    Safe(cfg, b.sys) && Apart(b.puts) && forall id :: id in b.puts ==> PendingOk(cfg, b.sys, b.puts[id])
  }

  /** The put's segment is still there, and the collector has not gone past its record. */
  predicate CommitOk(y: Sys, row: Addr) {
    && row.seg in y.eng.segs
    && match y.gc
       case Scanning(v, pos, _) => row.seg == v ==> row.idx >= pos
       case Checked(v, pos, _) => row.seg == v ==> row.idx >= pos
       case Copied(v, pos, _, _) => row.seg == v ==> row.idx >= pos
       case Charged(v) => row.seg != v
       case Flushed(v) => row.seg != v
       case _ => true
  }

  /** A commit leaves the shard in order exactly then, and does what the put was for. */
  lemma CommitSafe(cfg: Config, b: Busy, id: nat)
    requires GoodZip(cfg) && Good(cfg, b) && id in b.puts
    ensures var p := b.puts[id];
      var y := b.sys.(eng := CommitRow(b.sys.eng, p.key, p.row));
      && (Safe(cfg, y) <==> CommitOk(b.sys, p.row))
      && (Safe(cfg, y) ==> View(cfg, y.eng) == View(cfg, b.sys.eng)[p.key := Obj(p.data, p.era)])
  {
    var p := b.puts[id];
    var st := b.sys.eng;
    var y := b.sys.(eng := CommitRow(st, p.key, p.row));
    assert PendingOk(cfg, b.sys, p);
    hide View;
    hide Charge;
    if p.row.seg in st.segs {
      PackReads(cfg, p.key, p.data);
      hide Pack;
      RowSet(cfg, st, y.eng, p.key);
      CommitGc(cfg, b.sys, p.key, p.row);
    } else {
      assert !RowOk(cfg, st.segs, p.key, y.eng.addr[p.key]);
    }
  }

  lemma CommitGc(cfg: Config, y: Sys, k: Key, row: Addr)
    requires Safe(cfg, y) && row.seg in y.eng.segs
    requires y.gc.Copied? ==> !(y.gc.to.seg == row.seg && y.gc.to.idx == row.idx)
    ensures GcOk(cfg, CommitRow(y.eng, k, row), y.gc) <==> CommitOk(y, row)
  {
    hide RowsOk;
    hide Charge;
    var st2 := CommitRow(y.eng, k, row);
    assert st2.addr[k] == row;
    assert forall j :: j in st2.addr && j != k ==> j in y.eng.addr && st2.addr[j] == y.eng.addr[j];
  }

  // ----- every move keeps the pending puts in order

  lemma AppendApart(cfg: Config, st: State, rec: Record, seg: nat, idx: nat)
    requires Well(cfg, st) && seg <= st.active && (seg in st.segs ==> idx < |st.segs[seg]|)
    ensures var s := Append(cfg, st, rec); s.active in s.segs && !(s.active == seg && |s.segs[s.active]| - 1 == idx)
  {
    AppendPlace(cfg, st, rec);
    hide Append;
  }

  lemma SurvivorsKeep(cfg: Config, a: State, b: State, p: Pending)
    requires Later(a, b) && p.row.seg <= a.active && (p.row.seg in a.segs ==> p.row.idx < |a.segs[p.row.seg]|)
    ensures p.row.seg <= b.active
    ensures p.row.seg in b.segs ==>
      && p.row.seg in a.segs && p.row.idx < |b.segs[p.row.seg]|
      && b.segs[p.row.seg][p.row.idx] == a.segs[p.row.seg][p.row.idx]
  {
  }

  lemma StepPending(cfg: Config, r: real, y: Sys, step: Step, p: Pending)
    requires Safe(cfg, y) && Enabled(r, y, step) && PendingOk(cfg, y, p)
    ensures PendingOk(cfg, Next(cfg, r, y, step), p)
  {
    StepLater(cfg, r, y, step);
    var n := Next(cfg, r, y, step);
    SurvivorsKeep(cfg, y.eng, n.eng, p);
    StepUnpointed(cfg, r, y, step, p);
    hide Next;
    hide Enabled;
    hide Later;
    hide Unpointed;
    hide GcOk;
    hide RowsOk;
    hide Pack;
  }

  /** Rows and copies only ever go to places where no pending put is. */
  lemma StepUnpointed(cfg: Config, r: real, y: Sys, step: Step, p: Pending)
    requires Safe(cfg, y) && Enabled(r, y, step) && PendingOk(cfg, y, p)
    ensures var n := Next(cfg, r, y, step);
      && Unpointed(n.eng.addr, p.row.seg, p.row.idx)
      && (n.gc.Copied? ==> !(n.gc.to.seg == p.row.seg && n.gc.to.idx == p.row.idx))
  {
    hide Append;
    hide Seal;
    hide Sync;
    hide Pack;
    hide RowsOk;
    hide ChargeOrphans;
    match step
    case DoPut(k, data, era) =>
      AppendApart(cfg, y.eng, Pack(cfg, k, data), p.row.seg, p.row.idx);
      AppendGrows(cfg, y.eng, Pack(cfg, k, data));
    case PutLost(k, data, era) => AppendGrows(cfg, y.eng, Pack(cfg, k, data));
    case GcCopy =>
      AppendApart(cfg, y.eng, y.eng.segs[y.gc.v][y.gc.pos], p.row.seg, p.row.idx);
      AppendGrows(cfg, y.eng, y.eng.segs[y.gc.v][y.gc.pos]);
    case Rotate => SealKeeps(cfg, y.eng);
    case Flush => SyncKeeps(cfg, y.eng);
    case GcFlush => SyncKeeps(cfg, y.eng);
    case _ =>
  }

  lemma BeginGood(cfg: Config, r: real, b: Busy, id: nat, k: Key, data: Bytes, era: Option<nat>)
    requires GoodZip(cfg) && Good(cfg, b) && id !in b.puts && !GoesInline(cfg, data, era)
    ensures Good(cfg, After(cfg, r, b, Begin(id, k, data, era)))
    ensures View(cfg, After(cfg, r, b, Begin(id, k, data, era)).sys.eng) == View(cfg, b.sys.eng)
  {
    hide Pack;
    hide Append;
    hide View;
    hide RowsOk;
    hide PendingOk;
    LostSafe(cfg, b.sys, k, data, era);
    NewPending(cfg, b.sys, k, data, era);
    var y, rec := Lost(cfg, b.sys, k, data, era), Pack(cfg, k, data);
    forall i | i in b.puts
      ensures PendingOk(cfg, y, b.puts[i]) && !SamePlace(b.puts[i].row, NewRow(cfg, b.sys.eng, rec, era))
    {
      OldPending(cfg, r, b.sys, k, data, era, b.puts[i]);
    }
    hide GcOk;
  }

  lemma NewPending(cfg: Config, y: Sys, k: Key, data: Bytes, era: Option<nat>)
    requires Safe(cfg, y) && !GoesInline(cfg, data, era)
    ensures PendingOk(cfg, Lost(cfg, y, k, data, era), Pending(k, data, era, NewRow(cfg, y.eng, Pack(cfg, k, data), era)))
  {
    hide RowsOk;
    hide View;
    var rec := Pack(cfg, k, data);
    AppendPlace(cfg, y.eng, rec);
    AppendGrows(cfg, y.eng, rec);
    hide Pack;
    if y.gc.Copied? { AppendApart(cfg, y.eng, rec, y.gc.to.seg, y.gc.to.idx); }
    hide Append;
  }

  lemma OldPending(cfg: Config, r: real, y: Sys, k: Key, data: Bytes, era: Option<nat>, p: Pending)
    requires Safe(cfg, y) && PendingOk(cfg, y, p) && !GoesInline(cfg, data, era)
    ensures PendingOk(cfg, Lost(cfg, y, k, data, era), p)
    ensures !SamePlace(p.row, NewRow(cfg, y.eng, Pack(cfg, k, data), era))
  {
    StepPending(cfg, r, y, PutLost(k, data, era), p);
    AppendApart(cfg, y.eng, Pack(cfg, k, data), p.row.seg, p.row.idx);
    hide Pack;
    hide Append;
    hide RowsOk;
  }

  lemma CommitGood(cfg: Config, r: real, b: Busy, id: nat)
    requires GoodZip(cfg) && Good(cfg, b) && id in b.puts && CommitOk(b.sys, b.puts[id].row)
    ensures Good(cfg, After(cfg, r, b, Commit(id)))
    ensures View(cfg, After(cfg, r, b, Commit(id)).sys.eng) == View(cfg, b.sys.eng)[b.puts[id].key := Obj(b.puts[id].data, b.puts[id].era)]
  {
    CommitSafe(cfg, b, id);
    var n := After(cfg, r, b, Commit(id));
    hide View;
    hide Safe;
    hide Pack;
    forall i | i in n.puts ensures PendingOk(cfg, n.sys, n.puts[i]) {
      assert PendingOk(cfg, b.sys, b.puts[i]) && !SamePlace(b.puts[i].row, b.puts[id].row);
    }
  }

  lemma OtherGood(cfg: Config, r: real, b: Busy, step: Step)
    requires GoodZip(cfg) && Good(cfg, b) && Enabled(r, b.sys, step)
    ensures Good(cfg, After(cfg, r, b, Other(step)))
    ensures View(cfg, After(cfg, r, b, Other(step)).sys.eng) == Intend(View(cfg, b.sys.eng), step)
  {
    hide PendingOk;
    hide Enabled;
    hide Next;
    hide View;
    hide Intend;
    StepSafe(cfg, r, b.sys, step);
    forall i | i in b.puts ensures PendingOk(cfg, Next(cfg, r, b.sys, step), b.puts[i]) {
      StepPending(cfg, r, b.sys, step, b.puts[i]);
    }
    hide GcOk;
    hide RowsOk;
  }

  // ----- runs

  ghost predicate Possible(cfg: Config, r: real, b: Busy, moves: seq<Move>)
    decreases |moves|
  {
    moves == [] ||
    (b.sys.eng.active in b.sys.eng.segs && CanMove(cfg, r, b, moves[0]) && Possible(cfg, r, After(cfg, r, b, moves[0]), moves[1..]))
  }

  ghost function AfterAll(cfg: Config, r: real, b: Busy, moves: seq<Move>): Busy
    requires Possible(cfg, r, b, moves)
    decreases |moves|
  {
    if moves == [] then b else AfterAll(cfg, r, After(cfg, r, b, moves[0]), moves[1..])
  }

  predicate MoveOk(b: Busy, move: Move) {
    match move case Commit(id) => id in b.puts && CommitOk(b.sys, b.puts[id].row) case _ => true
  }

  /** No commit of the run comes after its segment was unlinked or the collector went past its record. */
  ghost predicate InTime(cfg: Config, r: real, b: Busy, moves: seq<Move>)
    requires Possible(cfg, r, b, moves)
    decreases |moves|
  {
    moves == [] || (MoveOk(b, moves[0]) && InTime(cfg, r, After(cfg, r, b, moves[0]), moves[1..]))
  }

  datatype Wish = Wish(key: Key, data: Bytes, era: Option<nat>)

  function WishesOf(puts: map<nat, Pending>): map<nat, Wish> { map id | id in puts :: Wish(puts[id].key, puts[id].data, puts[id].era) }

  /** What the callers asked for: a put counts from its commit on. */
  function Asked(view: map<Key, Obj>, wishes: map<nat, Wish>, moves: seq<Move>): map<Key, Obj>
    decreases |moves|
  {
    if moves == [] then view else
    match moves[0]
    case Begin(id, k, data, era) => Asked(view, wishes[id := Wish(k, data, era)], moves[1..])
    case Commit(id) =>
      if id in wishes then Asked(view[wishes[id].key := Obj(wishes[id].data, wishes[id].era)], wishes - {id}, moves[1..])
      else Asked(view, wishes, moves[1..])
    case Other(step) => Asked(Intend(view, step), wishes, moves[1..])
  }

  /** Over any run whose commits are in time, the map is what the commits and the other operations make of it. */
  lemma {:induction false} SplitRefinesMap(cfg: Config, r: real, b: Busy, moves: seq<Move>)
    requires GoodZip(cfg) && Good(cfg, b) && Possible(cfg, r, b, moves) && InTime(cfg, r, b, moves)
    ensures Good(cfg, AfterAll(cfg, r, b, moves))
    ensures View(cfg, AfterAll(cfg, r, b, moves).sys.eng) == Asked(View(cfg, b.sys.eng), WishesOf(b.puts), moves)
    decreases |moves|
  {
    if moves != [] {
      var n := After(cfg, r, b, moves[0]);
      WishesMove(cfg, r, b, moves[0]);
      match moves[0]
      case Begin(id, k, data, era) => BeginGood(cfg, r, b, id, k, data, era);
      case Commit(id) => CommitGood(cfg, r, b, id);
      case Other(step) => OtherGood(cfg, r, b, step);
    }
    hide Good;
    hide View;
    hide After;
    hide CanMove;
    hide WishesOf;
    if moves != [] { SplitRefinesMap(cfg, r, After(cfg, r, b, moves[0]), moves[1..]); }
  }

  lemma WishesMove(cfg: Config, r: real, b: Busy, move: Move)
    requires b.sys.eng.active in b.sys.eng.segs && CanMove(cfg, r, b, move)
    ensures var n, w := WishesOf(After(cfg, r, b, move).puts), WishesOf(b.puts);
      match move
      case Begin(id, k, data, era) => n == w[id := Wish(k, data, era)]
      case Commit(id) => id in w && w[id] == Wish(b.puts[id].key, b.puts[id].data, b.puts[id].era) && n == w - {id}
      case Other(step) => n == w
  {
    hide Enabled;
    hide Next;
    hide Append;
    hide Pack;
  }

  lemma PossibleCons(cfg: Config, r: real, b: Busy, moves: seq<Move>)
    requires moves != [] && b.sys.eng.active in b.sys.eng.segs && CanMove(cfg, r, b, moves[0])
    requires Possible(cfg, r, After(cfg, r, b, moves[0]), moves[1..])
    ensures Possible(cfg, r, b, moves)
    ensures AfterAll(cfg, r, b, moves) == AfterAll(cfg, r, After(cfg, r, b, moves[0]), moves[1..])
  {
    hide After;
    hide CanMove;
  }

  // ----- replay

  predicate InFlight(puts: map<nat, Pending>, k: Key) { exists id :: id in puts && puts[id].key == k }

  /** Rows and pending puts have the eras their bodies carry, and every key without a pending put is current. */
  ghost predicate Replays(cfg: Config, b: Busy) {
    && Good(cfg, b) && Honest(cfg, b.sys.eng)
    && (forall id :: id in b.puts ==> b.puts[id].era == EraOf(cfg, Pack(cfg, b.puts[id].key, b.puts[id].data)))
    && (forall k :: InFlight(b.puts, k) || Current(cfg, b.sys.eng, k))
  }

  /** Besides being in time, a commit must find no later record of its key past the recovery point. */
  ghost predicate TailSafeMove(cfg: Config, b: Busy, move: Move)
    requires b.sys.eng.active in b.sys.eng.segs
  {
    match move
    case Begin(_, k, data, era) => era == EraOf(cfg, Pack(cfg, k, data))
    case Commit(id) => MoveOk(b, move) && LastInTail(b.sys.eng, b.puts[id])
    case Other(step) => TailSafe(cfg, b.sys, step)
  }

  predicate LastInTail(st: State, p: Pending)
    requires st.active in st.segs
  {
    Tail(st, p.key).Some? ==> p.row.seg == st.active && p.row.idx == Tail(st, p.key).value
  }

  lemma BeginReplays(cfg: Config, r: real, b: Busy, id: nat, k: Key, data: Bytes, era: Option<nat>)
    requires GoodZip(cfg) && Replays(cfg, b) && id !in b.puts && !GoesInline(cfg, data, era) && era == EraOf(cfg, Pack(cfg, k, data))
    ensures Replays(cfg, After(cfg, r, b, Begin(id, k, data, era)))
  {
    hide Current;
    hide Append;
    hide Pack;
    hide EraOf;
    hide Good;
    hide Honest;
    BeginGood(cfg, r, b, id, k, data, era);
    GoodSafe(cfg, b);
    hide PendingOk;
    var y, rec := Lost(cfg, b.sys, k, data, era), Pack(cfg, k, data);
    assert rec.key == k by { PackReads(cfg, k, data); }
    AppendHonest(cfg, b.sys.eng, rec);
    var n := b.puts[id := Pending(k, data, era, NewRow(cfg, b.sys.eng, rec, era))];
    forall j ensures InFlight(n, j) || (y.eng.active in y.eng.segs && Current(cfg, y.eng, j)) {
      FlightAdds(b.puts, id, n[id], j);
      if j != k && !InFlight(b.puts, j) { AppendOther(cfg, b.sys.eng, rec, j); }
    }
    hide InFlight;
  }

  lemma AppendHonest(cfg: Config, st: State, rec: Record)
    requires Well(cfg, st) && Honest(cfg, st)
    ensures Honest(cfg, Append(cfg, st, rec))
  {
    AppendGrows(cfg, st, rec);
    hide Append;
    hide EraOf;
    hide View;
    HonestKept(cfg, st, Append(cfg, st, rec));
  }

  lemma FlightAdds(puts: map<nat, Pending>, id: nat, p: Pending, j: Key)
    requires id !in puts
    ensures InFlight(puts[id := p], j) <==> j == p.key || InFlight(puts, j)
  {
    var n := puts[id := p];
    if j == p.key { assert n[id].key == j; }
    if i :| i in puts && puts[i].key == j { assert n[i].key == j; }
  }

  lemma GoodSafe(cfg: Config, b: Busy)
    requires Good(cfg, b)
    ensures Safe(cfg, b.sys)
    ensures forall id :: id in b.puts ==> PendingOk(cfg, b.sys, b.puts[id])
  {
  }

  /** Committed as the last record of its key, a put is current; the other keys are as they were. */
  lemma CommitCurrent(cfg: Config, st: State, p: Pending, j: Key)
    requires Well(cfg, st) && LastInTail(st, p) && (j == p.key || Current(cfg, st, j))
    requires p.row.seg in st.segs && p.row.idx < |st.segs[p.row.seg]|
    requires p.row == RowOfRecord(p.row, st.segs[p.row.seg][p.row.idx], p.era) && p.era == EraOf(cfg, st.segs[p.row.seg][p.row.idx])
    ensures Current(cfg, CommitRow(st, p.key, p.row), j)
  {
    hide LastTail;
    hide EraOf;
    hide Charge;
    hide BodyAt;
    var n := CommitRow(st, p.key, p.row);
    SameTail(st, n, j, |st.segs[st.active]|);
    hide Current;
    if j == p.key {
      RowIsTail(cfg, n, j);
    } else {
      StillCurrent(cfg, st, n, j);
    }
  }

  lemma CommitReplays(cfg: Config, r: real, b: Busy, id: nat)
    requires GoodZip(cfg) && Replays(cfg, b) && id in b.puts && CommitOk(b.sys, b.puts[id].row)
    requires b.sys.eng.active in b.sys.eng.segs && LastInTail(b.sys.eng, b.puts[id])
    ensures Replays(cfg, After(cfg, r, b, Commit(id)))
  {
    hide Current;
    hide EraOf;
    hide Good;
    hide Honest;
    hide Charge;
    hide LastInTail;
    var p, n := b.puts[id], After(cfg, r, b, Commit(id));
    CommitGood(cfg, r, b, id);
    GoodSafe(cfg, b);
    assert PendingOk(cfg, b.sys, p);
    hide Pack;
    HonestKept(cfg, b.sys.eng, n.sys.eng);
    forall j ensures InFlight(n.puts, j) || Current(cfg, n.sys.eng, j) {
      if i :| i in b.puts && b.puts[i].key == j && i != id {
        assert n.puts[i].key == j;
      } else {
        assert j == p.key || !InFlight(b.puts, j);
        CommitCurrent(cfg, b.sys.eng, p, j);
      }
    }
  }

  lemma OtherReplays(cfg: Config, r: real, b: Busy, step: Step)
    requires GoodZip(cfg) && Replays(cfg, b) && Enabled(r, b.sys, step) && b.sys.eng.active in b.sys.eng.segs && TailSafe(cfg, b.sys, step)
    ensures Replays(cfg, After(cfg, r, b, Other(step)))
  {
    hide Current;
    hide Good;
    hide Honest;
    hide Next;
    hide Enabled;
    hide TailSafe;
    OtherGood(cfg, r, b, step);
    GoodSafe(cfg, b);
    GoodSafe(cfg, After(cfg, r, b, Other(step)));
    StepHonest(cfg, r, b.sys, step);
    forall j ensures InFlight(b.puts, j) || Current(cfg, Next(cfg, r, b.sys, step).eng, j) {
      if !InFlight(b.puts, j) { StepCurrent(cfg, r, b.sys, step, j); }
    }
  }

  ghost predicate TailSafeMoves(cfg: Config, r: real, b: Busy, moves: seq<Move>)
    requires Possible(cfg, r, b, moves)
    decreases |moves|
  {
    moves == [] || (TailSafeMove(cfg, b, moves[0]) && TailSafeMoves(cfg, r, After(cfg, r, b, moves[0]), moves[1..]))
  }

  lemma {:induction false} MovesReplay(cfg: Config, r: real, b: Busy, moves: seq<Move>)
    requires GoodZip(cfg) && Replays(cfg, b) && Possible(cfg, r, b, moves) && TailSafeMoves(cfg, r, b, moves)
    ensures Replays(cfg, AfterAll(cfg, r, b, moves))
    decreases |moves|
  {
    hide Replays;
    hide LastInTail;
    hide CommitOk;
    hide TailSafe;
    if moves != [] {
      match moves[0]
      case Begin(id, k, data, era) => BeginReplays(cfg, r, b, id, k, data, era);
      case Commit(id) => CommitReplays(cfg, r, b, id);
      case Other(step) => OtherReplays(cfg, r, b, step);
    }
    hide After;
    hide CanMove;
    hide TailSafeMove;
    if moves != [] { MovesReplay(cfg, r, After(cfg, r, b, moves[0]), moves[1..]); }
  }

  /**
   From a state just flushed with no put pending, every run of split puts with such commits, ending with no put pending,
   leaves a shard whose replay keeps the map.
   */
  lemma SplitReplaysToItself(cfg: Config, r: real, b: Busy, moves: seq<Move>)
    requires GoodZip(cfg) && Safe(cfg, b.sys) && Honest(cfg, b.sys.eng) && b.puts == map[]
    requires Mark(b.sys.eng) == |b.sys.eng.segs[b.sys.eng.active]|
    requires Possible(cfg, r, b, moves) && TailSafeMoves(cfg, r, b, moves) && AfterAll(cfg, r, b, moves).puts == map[]
    ensures var st := AfterAll(cfg, r, b, moves).sys.eng;
      Well(cfg, st) && View(cfg, Replay(cfg, st)) == View(cfg, st)
  {
    hide AfterAll;
    hide Possible;
    hide TailSafeMoves;
    hide EraOf;
    forall k ensures Current(cfg, b.sys.eng, k) { NoTail(b.sys.eng, k); }
    hide Current;
    MovesReplay(cfg, r, b, moves);
    var n := AfterAll(cfg, r, b, moves);
    forall k ensures Current(cfg, n.sys.eng, k) { assert !InFlight(n.puts, k); }
    hide Replay;
    hide View;
    hide RowsOk;
    ReplayKeepsView(cfg, n.sys.eng);
  }
}
