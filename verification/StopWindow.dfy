/** Runs of a fresh shard into states in which a stop loses a key that was durable, or a sweep or an eviction one that was put. */
module StopWindow {
  import opened Bytes
  import opened Segments
  import opened Engine
  import opened GcRuns
  import opened DiskEngines
  import opened Recovery
  import opened SplitPuts
  import opened SplitSweep

  /** Nothing inline or compressed, small segments, rare syncs. */
  const CFG := Config(40, 0, 100, false, 0, d => None, (b, n) => None)

  const A: Key := [1]
  const B: Key := [2]
  const REC_A := Record(A, [7], 1, 0)
  const REC_B := Record(B, [8], 1, 0)

  /** Two puts and a rotation; then the second key is deleted. */
  const LOADED := State(map[0 := [REC_A, REC_B], 1 := []], 1, 0, map[A := Addr(0, 0, 1, 1, 0, None)], map[], map[0 := 1], map[])

  /** The collector has copied the first key's record into the new segment. */
  const COPIED := LOADED.(segs := map[0 := [REC_A, REC_B], 1 := [REC_A]])

  lemma Lengths()
    ensures SegLen([]) == 0 && SegLen([REC_A]) == 22 && SegLen([REC_A, REC_B]) == 44
  {
    assert [REC_A][1..] == [] && [REC_B][1..] == [] && [REC_A, REC_B][1..] == [REC_B];
    assert SegLen([REC_B]) == 22;
  }

  const ONE := State(map[0 := [REC_A]], 0, 0, map[A := Addr(0, 0, 1, 1, 0, None)], map[], map[], map[])
  const TWO := State(map[0 := [REC_A, REC_B]], 0, 0, map[A := Addr(0, 0, 1, 1, 0, None), B := Addr(0, 1, 1, 1, 0, None)], map[], map[], map[])

  lemma TwoPuts()
    ensures Put(CFG, Fresh().eng, A, [7], None) == ONE && Put(CFG, ONE, B, [8], None) == TWO
  {
    Lengths();
    hide SegLen;
    assert Pack(CFG, A, [7]) == REC_A && Pack(CFG, B, [8]) == REC_B;
    assert [] + [REC_A] == [REC_A] && [REC_A] + [REC_B] == [REC_A, REC_B];
    assert Append(CFG, Fresh().eng, REC_A).segs == map[0 := [REC_A]];
    assert Append(CFG, ONE, REC_B).segs == map[0 := [REC_A, REC_B]];
  }

  lemma DeleteAndRotate()
    ensures Engine.Delete(TWO, B).active in Engine.Delete(TWO, B).segs && Seal(CFG, Engine.Delete(TWO, B)) == LOADED
  {
    Lengths();
    hide SegLen;
    assert TWO.addr - {B} == LOADED.addr;
  }

  lemma VictimAndCopy()
    ensures IsVictim(0.01, LOADED, 0) && PointsAt(LOADED.addr, A, 0, 0) && Append(CFG, LOADED, REC_A) == COPIED
  {
    Lengths();
    hide SegLen;
    assert [] + [REC_A] == [REC_A];
  }

  /** The row after the swap points at the copy, which no sync has covered. */
  lemma SwapLoses()
    ensures Durable(CFG, COPIED, A)
    ensures !Durable(CFG, Cas(COPIED, A, 0, 0, Addr(1, 0, 1, 1, 0, None)), A)
  {
  }

  /** y is a state of a run from a fresh shard. */
  ghost predicate Reached(y: Sys) { Reaches(CFG, 0.01, Fresh(), y) }

  lemma Onward(y: Sys, step: Step)
    requires Reached(y) && y.eng.active in y.eng.segs && Enabled(0.01, y, step)
    ensures Reached(Next(CFG, 0.01, y, step))
  {
    ReachesStep(CFG, 0.01, Fresh(), y, step);
  }

  lemma LoadedReached() returns (y: Sys)
    ensures Reached(y) && y.eng == LOADED && y.gc == Idle
  {
    TwoPuts();
    DeleteAndRotate();
    hide Put;
    hide Engine.Delete;
    hide Seal;
    hide Reached;
    y := Fresh();
    assert Reached(y) by { FreshReached(); }
    Onward(y, DoPut(A, [7], None));
    y := Next(CFG, 0.01, y, DoPut(A, [7], None));
    Onward(y, DoPut(B, [8], None));
    y := Next(CFG, 0.01, y, DoPut(B, [8], None));
    Onward(y, DoDelete(B));
    y := Next(CFG, 0.01, y, DoDelete(B));
    Onward(y, Rotate);
    y := Next(CFG, 0.01, y, Rotate);
  }

  lemma FreshReached()
    ensures Reached(Fresh())
  {
    ReachesSelf(CFG, 0.01, Fresh());
  }

  /**
   Two puts, a delete, a rotation and half of a collection reach a state in which a key is durable; its row swap leads
   to one in which it is not: a stop there loses a key whose record lies in a sealed segment.
   */
  lemma WindowReached() returns (y: Sys)
    ensures GoodZip(CFG) && Reached(y) && y.gc == Copied(0, 0, [], Addr(1, 0, 1, 1, 0, None)) && y.eng == COPIED && Durable(CFG, y.eng, A)
    ensures Enabled(0.01, y, GcCas) && Reached(Next(CFG, 0.01, y, GcCas)) && !Durable(CFG, Next(CFG, 0.01, y, GcCas).eng, A)
  {
    y := LoadedReached();
    VictimAndCopy();
    SwapLoses();
    hide Reached;
    hide Append;
    hide Durable;
    hide IsVictim;
    Onward(y, GcStart(0));
    y := Next(CFG, 0.01, y, GcStart(0));
    Onward(y, GcCheck);
    y := Next(CFG, 0.01, y, GcCheck);
    Onward(y, GcCopy);
    y := Next(CFG, 0.01, y, GcCopy);
    Onward(y, GcCas);
  }

  // ----- the flush that an open turns off

  /** After the swap the first key's row points at the copy. */
  const MOVED := COPIED.(addr := map[A := Addr(1, 0, 1, 1, 0, None)])

  /** Stopped there with nothing lost, and opened again: the flush offset is past the copy, the recovery point is not. */
  const REOPENED := MOVED.(synced := 1, soft := map[1 := 0])

  const GONE := REOPENED.(segs := map[1 := [REC_A]])

  const ALL: map<nat, nat> := map[0 := 2, 1 := 1]

  lemma Reopening()
    ensures Leaves(MOVED, ALL) && Crash(MOVED, ALL) == MOVED && Replay(CFG, MOVED) == REOPENED
  {
    assert [REC_A, REC_B][..2] == [REC_A, REC_B] && [REC_A][..1] == [REC_A];
    assert Crash(MOVED, ALL).segs == MOVED.segs;
    assert EraOf(CFG, REC_A) == None;
    assert ReplayTo(CFG, MOVED, 1) == ReplayTo(CFG, MOVED, 0)[A := RowFor(CFG, MOVED, 0)];
  }

  lemma VictimAgain()
    ensures IsVictim(0.01, REOPENED, 0) && !PointsAt(REOPENED.addr, A, 0, 0) && !PointsAt(REOPENED.addr, B, 0, 1)
  {
    Lengths();
    hide SegLen;
  }

  ghost predicate SinceOpen(books: Books, y: Sys) { Reaches(CFG, 0.01, Sys(REOPENED, Idle, books), y) }

  lemma OnwardFrom(books: Books, y: Sys, step: Step)
    requires SinceOpen(books, y) && y.eng.active in y.eng.segs && Enabled(0.01, y, step)
    ensures SinceOpen(books, Next(CFG, 0.01, y, step))
  {
    ReachesStep(CFG, 0.01, Sys(REOPENED, Idle, books), y, step);
  }

  lemma OpenSelf(books: Books)
    ensures SinceOpen(books, Sys(REOPENED, Idle, books))
  {
    ReachesSelf(CFG, 0.01, Sys(REOPENED, Idle, books));
  }

  /** The pass after the open finds nothing to move. */
  lemma ScanAfterOpen(books: Books) returns (y: Sys)
    ensures SinceOpen(books, y) && y == Sys(REOPENED, Scanning(0, 2, []), books)
  {
    VictimAgain();
    OpenSelf(books);
    hide SinceOpen;
    hide IsVictim;
    y := Sys(REOPENED, Idle, books);
    OnwardFrom(books, y, GcStart(0));
    y := Next(CFG, 0.01, y, GcStart(0));
    OnwardFrom(books, y, GcCheck);
    y := Next(CFG, 0.01, y, GcCheck);
    OnwardFrom(books, y, GcCheck);
    y := Next(CFG, 0.01, y, GcCheck);
  }

  /** Its flush does nothing, and then the victim goes. */
  lemma PassAfterOpen(books: Books) returns (y: Sys)
    ensures SinceOpen(books, y) && y.gc == Unlinked(0) && y.eng == GONE
  {
    y := ScanAfterOpen(books);
    hide SinceOpen;
    OnwardFrom(books, y, GcCharge);
    y := Next(CFG, 0.01, y, GcCharge);
    OnwardFrom(books, y, GcFlush);
    y := Next(CFG, 0.01, y, GcFlush);
    assert y.eng == REOPENED;
    OnwardFrom(books, y, GcUnlink);
    y := Next(CFG, 0.01, y, GcUnlink);
  }

  /**
   The process stops right after that swap and nothing at all is lost. The next open takes the copy over without a sync;
   a pass then flushes nothing and unlinks the victim, and no stop-proof copy of the key is left.
   */
  lemma ReopenLoses() returns (x: Sys, y: Sys)
    ensures Reached(x) && x.eng == MOVED && Leaves(x.eng, ALL) && Crash(x.eng, ALL).segs == x.eng.segs
    ensures Reaches(CFG, 0.01, Sys(Replay(CFG, Crash(x.eng, ALL)), Idle, x.books), y) && y.gc == Unlinked(0)
    ensures A in View(CFG, y.eng) && y.eng.active in y.eng.segs && !Durable(CFG, y.eng, A)
    ensures forall s, i :: s in y.eng.segs && OnDisk(y.eng, s) > i >= 0 ==> y.eng.segs[s][i].key != A
  {
    hide Reached;
    var w := WindowReached();
    SwapMoves(w);
    x := Next(CFG, 0.01, w, GcCas);
    Reopening();
    y := PassAfterOpen(x.books);
    NoneLeft();
    hide *;
  }

  lemma SwapMoves(w: Sys)
    requires w.eng == COPIED && w.gc == Copied(0, 0, [], Addr(1, 0, 1, 1, 0, None))
    ensures Enabled(0.01, w, GcCas) && Next(CFG, 0.01, w, GcCas).eng == MOVED
  {
  }

  lemma NoneLeft()
    ensures A in View(CFG, GONE) && !Durable(CFG, GONE, A)
    ensures forall s, i :: s in GONE.segs && OnDisk(GONE, s) > i >= 0 ==> GONE.segs[s][i].key != A
  {
  }

  // ----- a put between its append and its commit

  const BEFORE := Busy(Fresh(), map[])
  const MOVES := [Begin(0, A, [7], None), Begin(1, B, [8], None), Other(Rotate), Other(Sweep(0)), Commit(0)]
  const PUT_A := Pending(A, [7], None, Addr(0, 0, 1, 1, 0, None))
  const PUT_B := Pending(B, [8], None, Addr(0, 1, 1, 1, 0, None))

  const AFTER_ONE := State(map[0 := [REC_A]], 0, 0, map[], map[], map[], map[])
  const AFTER_TWO := AFTER_ONE.(segs := map[0 := [REC_A, REC_B]])
  const ROTATED := AFTER_TWO.(segs := map[0 := [REC_A, REC_B], 1 := []], active := 1)
  const SWEPT := ROTATED.(segs := map[1 := []])

  lemma TwoBegins() returns (b1: Busy, b2: Busy)
    ensures CanMove(CFG, 0.01, BEFORE, MOVES[0]) && After(CFG, 0.01, BEFORE, MOVES[0]) == b1
    ensures b1.sys.eng == AFTER_ONE && b1.sys.gc == Idle && CanMove(CFG, 0.01, b1, MOVES[1])
    ensures After(CFG, 0.01, b1, MOVES[1]) == b2
    ensures b2.sys.eng == AFTER_TWO && b2.sys.gc == Idle && b2.puts == map[0 := PUT_A, 1 := PUT_B]
  {
    Lengths();
    hide SegLen;
    assert Pack(CFG, A, [7]) == REC_A && Pack(CFG, B, [8]) == REC_B;
    assert [] + [REC_A] == [REC_A] && [REC_A] + [REC_B] == [REC_A, REC_B];
    assert Append(CFG, Fresh().eng, REC_A) == AFTER_ONE;
    assert Append(CFG, AFTER_ONE, REC_B) == AFTER_TWO;
    hide Append;
    hide Pack;
    b1 := After(CFG, 0.01, BEFORE, MOVES[0]);
    b2 := After(CFG, 0.01, b1, MOVES[1]);
  }

  lemma RotateAndSweep(b2: Busy) returns (b3: Busy, b4: Busy)
    requires b2.sys.eng == AFTER_TWO && b2.sys.gc == Idle && b2.puts == map[0 := PUT_A, 1 := PUT_B]
    ensures CanMove(CFG, 0.01, b2, MOVES[2]) && After(CFG, 0.01, b2, MOVES[2]) == b3
    ensures b3.sys.eng.active in b3.sys.eng.segs && CanMove(CFG, 0.01, b3, MOVES[3]) && After(CFG, 0.01, b3, MOVES[3]) == b4
    ensures b4.sys.eng == SWEPT && b4.puts == b2.puts && CanMove(CFG, 0.01, b4, MOVES[4])
  {
    Lengths();
    hide SegLen;
    b3 := After(CFG, 0.01, b2, MOVES[2]);
    assert b3.sys.eng == ROTATED;
    b4 := After(CFG, 0.01, b3, MOVES[3]);
  }

  /**
   Two puts append, another put rotates, and a sweep finds the sealed segment without references and unlinks it; then the
   first put commits its row and returns, and its record is gone.
   */
  lemma SweepLosesPut()
    ensures Good(CFG, BEFORE) && Possible(CFG, 0.01, BEFORE, MOVES)
    ensures Asked(View(CFG, BEFORE.sys.eng), map[], MOVES) == map[A := Obj([7], None)]
    ensures var st := AfterAll(CFG, 0.01, BEFORE, MOVES).sys.eng; A in st.addr && A !in st.inl && ReadAt(CFG, st.segs, st.addr[A]) == None
  {
    var b1, b2 := TwoBegins();
    var b3, b4 := RotateAndSweep(b2);
    Chain(b1, b2, b3, b4);
    AskedFor();
    assert Good(CFG, BEFORE) by { FreshSafe(CFG); }
    CommitDangles(b4);
    hide *;
  }

  lemma CommitDangles(b4: Busy)
    requires b4.sys.eng == SWEPT && 0 in b4.puts && b4.puts[0] == PUT_A
    ensures var st := After(CFG, 0.01, b4, Commit(0)).sys.eng; A in st.addr && A !in st.inl && ReadAt(CFG, st.segs, st.addr[A]) == None
  {
  }

  lemma Chain(b1: Busy, b2: Busy, b3: Busy, b4: Busy)
    requires CanMove(CFG, 0.01, BEFORE, MOVES[0]) && After(CFG, 0.01, BEFORE, MOVES[0]) == b1
    requires b1.sys.eng.active in b1.sys.eng.segs && CanMove(CFG, 0.01, b1, MOVES[1]) && After(CFG, 0.01, b1, MOVES[1]) == b2
    requires b2.sys.eng.active in b2.sys.eng.segs && CanMove(CFG, 0.01, b2, MOVES[2]) && After(CFG, 0.01, b2, MOVES[2]) == b3
    requires b3.sys.eng.active in b3.sys.eng.segs && CanMove(CFG, 0.01, b3, MOVES[3]) && After(CFG, 0.01, b3, MOVES[3]) == b4
    requires b4.sys.eng.active in b4.sys.eng.segs && CanMove(CFG, 0.01, b4, MOVES[4])
    ensures Possible(CFG, 0.01, BEFORE, MOVES) && AfterAll(CFG, 0.01, BEFORE, MOVES) == After(CFG, 0.01, b4, MOVES[4])
  {
    hide After;
    hide CanMove;
    assert MOVES[4..][1..] == [];
    PossibleCons(CFG, 0.01, b4, MOVES[4..]);
    assert MOVES[3..][1..] == MOVES[4..];
    PossibleCons(CFG, 0.01, b3, MOVES[3..]);
    assert MOVES[2..][1..] == MOVES[3..];
    PossibleCons(CFG, 0.01, b2, MOVES[2..]);
    assert MOVES[1..][1..] == MOVES[2..];
    PossibleCons(CFG, 0.01, b1, MOVES[1..]);
    PossibleCons(CFG, 0.01, BEFORE, MOVES);
  }

  lemma AskedFor()
    ensures Asked(View(CFG, BEFORE.sys.eng), map[], MOVES) == map[A := Obj([7], None)]
  {
    var w1 := map[0 := Wish(A, [7], None)];
    var w2 := w1[1 := Wish(B, [8], None)];
    assert View(CFG, BEFORE.sys.eng) == map[];
    assert Asked(map[], w2, MOVES[4..]) == map[A := Obj([7], None)] by {
      assert MOVES[4..] == [Commit(0)];
      assert Asked(map[A := Obj([7], None)], w2 - {0}, []) == map[A := Obj([7], None)];
    }
    assert MOVES[3..][1..] == MOVES[4..];
    assert Asked(map[], w2, MOVES[3..]) == Asked(map[], w2, MOVES[4..]);
    assert MOVES[2..][1..] == MOVES[3..];
    assert Asked(map[], w2, MOVES[2..]) == Asked(map[], w2, MOVES[3..]);
    assert MOVES[1..][1..] == MOVES[2..];
    assert Asked(map[], w1, MOVES[1..]) == Asked(map[], w2, MOVES[2..]);
  }

  // ----- a sweep between its notes and its unlinks

  const PUTS := [DoPut(A, [7], None), DoPut(B, [8], None), Rotate]

  const FULL := TWO.(segs := map[0 := [REC_A, REC_B], 1 := []], active := 1)

  lemma FullReached()
    ensures Safe(CFG, Fresh()) && Feasible(CFG, 0.01, Fresh(), PUTS) && forall i :: 0 <= i < |PUTS| ==> FromUsers(PUTS[i])
    ensures Run(CFG, 0.01, Fresh(), PUTS).eng == FULL
  {
    TwoPuts();
    FreshSafe(CFG);
    Lengths();
    hide SegLen;
    assert Seal(CFG, TWO) == FULL;
    hide Put;
    hide Seal;
    var y1 := Next(CFG, 0.01, Fresh(), PUTS[0]);
    var y2 := Next(CFG, 0.01, y1, PUTS[1]);
    var y3 := Next(CFG, 0.01, y2, PUTS[2]);
    assert y1.eng == ONE && y2.eng == TWO && y3.eng == FULL;
    assert PUTS[1..][0] == PUTS[1] && PUTS[1..][1..] == [Rotate] && [Rotate][1..] == [];
    assert Feasible(CFG, 0.01, y3, []) && Run(CFG, 0.01, y3, []) == y3;
    assert Feasible(CFG, 0.01, y2, [Rotate]) && Run(CFG, 0.01, y2, [Rotate]) == y3;
    assert Feasible(CFG, 0.01, y1, PUTS[1..]) && Run(CFG, 0.01, y1, PUTS[1..]) == y3;
    assert Run(CFG, 0.01, Fresh(), PUTS) == y3;
  }

  /**
   On a fresh shard the sweep notes nothing; two puts complete and fill the segment, a rotation seals it, and the sweep
   unlinks it as unreferenced: both keys are gone.
   */
  lemma SweepRace()
    ensures Feasible(CFG, 0.01, Fresh(), PUTS) && forall i :: 0 <= i < |PUTS| ==> FromUsers(PUTS[i])
    ensures var st := Run(CFG, 0.01, Fresh(), PUTS).eng;
      && A in st.addr && B in st.addr && View(CFG, st).Keys == {A, B} && Sweepable(Noted(Fresh().eng.addr), st, 0)
      && ReadAt(CFG, Unlink(st, {0}).segs, st.addr[A]) == None == ReadAt(CFG, Unlink(st, {0}).segs, st.addr[B])
  {
    FullReached();
    hide Run;
    hide Feasible;
  }

  /** Then an eviction notes both keys in the sealed segment; the first is put anew, and loses that body too. */
  lemma EvictRace()
    ensures Feasible(CFG, 0.01, Fresh(), PUTS) && FULL == Run(CFG, 0.01, Fresh(), PUTS).eng
    ensures var st := Put(CFG, FULL, A, [9], None);
      A in View(CFG, st) && A !in View(CFG, Evict(st, 0, KeysIn(FULL.addr, 0)))
  {
    FullReached();
    hide Run;
    hide Feasible;
    hide Append;
    assert A in KeysIn(FULL.addr, 0);
  }
}
