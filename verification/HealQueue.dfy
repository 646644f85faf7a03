/**
 The heal queue: a heap whose stale copies are skipped when they surface, beside a map from each queued key to its
 priority. Queue is its state as a value and HealQueue the object that updates it.
 */
module HealQueues {
  import opened Bytes

  type Key = Bytes
  datatype Priority = Low | Normal | High | Urgent

  function Rank(p: Priority): nat { match p case Low => 0 case Normal => 1 case High => 2 case Urgent => 3 }

  datatype Item = Item(prio: Priority, seq_: nat, key: Key)
  datatype Queue = Queue(heap: seq<Item>, dedup: map<Key, Priority>, last: nat)

  const CAP: nat := 100000

  /** a surfaces before b: higher priority, then smaller sequence number. */
  predicate Before(a: Item, b: Item) { Rank(a.prio) > Rank(b.prio) || (a.prio == b.prio && a.seq_ < b.seq_) }

  /** The item the heap surfaces. */
  function Best(heap: seq<Item>): (i: nat)
    requires heap != []
    ensures i < |heap| && forall j :: 0 <= j < |heap| ==> !Before(heap[j], heap[i])
  {
    if |heap| == 1 then 0
    else var i := Best(heap[1..]) + 1; if Before(heap[i], heap[0]) then i else 0
  }

  function Without(heap: seq<Item>, i: nat): (rest: seq<Item>)
    requires i < |heap|
    ensures |rest| == |heap| - 1
  {
    heap[..i] + heap[i + 1..]
  }

  /** Where the other items end up. */
  lemma WithoutAt(heap: seq<Item>, i: nat, j: nat)
    requires i < |heap| && j < |heap| && j != i
    ensures Without(heap, i)[if j < i then j else j - 1] == heap[j]
  {
  }

  lemma WithoutFrom(heap: seq<Item>, i: nat, k: nat)
    requires i < |heap| && k < |heap| - 1
    ensures Without(heap, i)[k] == heap[if k < i then k else k + 1]
  {
  }

  function Pushed(q: Queue, key: Key, prio: Priority): Queue {
    if key in q.dedup && Rank(q.dedup[key]) >= Rank(prio) then q
    else if key !in q.dedup && |q.dedup| >= CAP then q
    else Queue(q.heap + [Item(prio, q.last + 1, key)], q.dedup[key := prio], q.last + 1)
  }

  /** The item matches what its key is queued with. */
  predicate Current(q: Queue, x: Item) { x.key in q.dedup && q.dedup[x.key] == x.prio }

  function Popped(q: Queue): (Queue, Option<Item>)
    decreases |q.heap|
  {
    if q.heap == [] then (q, None)
    else
      var i := Best(q.heap);
      var x, rest := q.heap[i], q.(heap := Without(q.heap, i));
      if Current(q, x) then (rest.(dedup := q.dedup - {x.key}), Some(x)) else Popped(rest)
  }

  /** Every queued key has a matching item; no two items share a sequence number. */
  ghost predicate Sound(q: Queue) {
    && |q.dedup| <= CAP
    && (forall k :: k in q.dedup ==> Matched(q, k))
    && (forall i :: 0 <= i < |q.heap| ==> q.heap[i].seq_ <= q.last)
    && (forall i, j :: 0 <= i < j < |q.heap| ==> q.heap[i].seq_ != q.heap[j].seq_)
  }

  ghost predicate Matched(q: Queue, k: Key) { exists i :: 0 <= i < |q.heap| && q.heap[i].key == k && Current(q, q.heap[i]) }

  lemma PushSound(q: Queue, key: Key, prio: Priority)
    requires Sound(q)
    ensures Sound(Pushed(q, key, prio))
  {
    var n := Pushed(q, key, prio);
    if n != q {
      forall k | k in n.dedup ensures Matched(n, k) { PushMatched(q, key, prio, k); }
      hide Matched;
      PutCount(q.dedup, key, prio);
    }
  }

  lemma PutCount(m: map<Key, Priority>, k: Key, v: Priority)
    ensures |m[k := v]| == if k in m then |m| else |m| + 1
  {
    assert m[k := v].Keys == m.Keys + {k};
    CountKeys(m);
    CountKeys(m[k := v]);
    if k in m { assert m.Keys + {k} == m.Keys; }
  }

  /** An effective push leaves every key matched, its own by the new item. */
  lemma PushMatched(q: Queue, key: Key, prio: Priority, k: Key)
    requires Sound(q) && Pushed(q, key, prio) != q && k in Pushed(q, key, prio).dedup
    ensures Matched(Pushed(q, key, prio), k)
  {
    var n := Pushed(q, key, prio);
    if k == key {
      assert n.heap[|q.heap|].key == key && Current(n, n.heap[|q.heap|]);
    } else {
      assert Matched(q, k);
      var i :| 0 <= i < |q.heap| && q.heap[i].key == k && Current(q, q.heap[i]);
      assert n.heap[i] == q.heap[i] && Current(n, n.heap[i]);
    }
  }

  lemma CountKeys(m: map<Key, Priority>)
    ensures |m| == |m.Keys|
  {
  }

  /** Taking an item out leaves the heap's other items, with distinct sequence numbers. */
  lemma WithoutDistinct(q: Queue, i: nat)
    requires Sound(q) && i < |q.heap|
    ensures var rest := Without(q.heap, i);
      && (forall k :: 0 <= k < |rest| ==> rest[k].seq_ <= q.last)
      && (forall k, l :: 0 <= k < l < |rest| ==> rest[k].seq_ != rest[l].seq_)
  {
    hide Matched;
    var rest := Without(q.heap, i);
    hide Without;
    forall k, l | 0 <= k < l < |rest| ensures rest[k].seq_ != rest[l].seq_ {
      WithoutFrom(q.heap, i, k);
      WithoutFrom(q.heap, i, l);
    }
    forall k | 0 <= k < |rest| ensures rest[k].seq_ <= q.last { WithoutFrom(q.heap, i, k); }
  }

  /** Dropping a stale item leaves every queued key matched. */
  lemma DropStale(q: Queue, i: nat)
    requires Sound(q) && i < |q.heap| && !Current(q, q.heap[i])
    ensures Sound(q.(heap := Without(q.heap, i)))
  {
    WithoutDistinct(q, i);
    var n := q.(heap := Without(q.heap, i));
    hide Without;
    forall k | k in n.dedup ensures Matched(n, k) {
      assert Matched(q, k);
      var j :| 0 <= j < |q.heap| && q.heap[j].key == k && Current(q, q.heap[j]);
      WithoutAt(q.heap, i, j);
    }
  }

  lemma TakeCurrent(q: Queue, i: nat)
    requires Sound(q) && i < |q.heap| && Current(q, q.heap[i])
    ensures Sound(Queue(Without(q.heap, i), q.dedup - {q.heap[i].key}, q.last))
  {
    WithoutDistinct(q, i);
    var key := q.heap[i].key;
    var n := Queue(Without(q.heap, i), q.dedup - {key}, q.last);
    hide Without;
    forall k | k in n.dedup ensures Matched(n, k) {
      assert Matched(q, k);
      var j :| 0 <= j < |q.heap| && q.heap[j].key == k && Current(q, q.heap[j]);
      WithoutAt(q.heap, i, j);
    }
    FewerKeys(q.dedup, key);
  }

  lemma FewerKeys(m: map<Key, Priority>, k: Key)
    requires k in m
    ensures |m - {k}| == |m| - 1
  {
    CountKeys(m);
    CountKeys(m - {k});
    assert (m - {k}).Keys == m.Keys - {k};
  }

  lemma PoppedEmpty(q: Queue)
    requires q.heap == []
    ensures Popped(q) == (q, None)
  {
  }

  lemma NothingQueued(q: Queue)
    requires Sound(q) && q.heap == []
    ensures q.dedup == map[]
  {
    assert forall k :: k in q.dedup ==> Matched(q, k);
  }

  /** One turn of the pop: the surfaced item is taken if it is current and dropped if not. */
  lemma PoppedStep(q: Queue)
    requires q.heap != []
    ensures var i := Best(q.heap);
      Popped(q) == if Current(q, q.heap[i])
                   then (Queue(Without(q.heap, i), q.dedup - {q.heap[i].key}, q.last), Some(q.heap[i]))
                   else Popped(Queue(Without(q.heap, i), q.dedup, q.last))
  {
  }

  /** The popped item x is the one of highest priority among those queued; ties go to the earliest matching item. */
  ghost predicate FirstOf(q: Queue, x: Item) {
    && Current(q, x) && x in q.heap
    && (forall k :: k in q.dedup ==> Rank(q.dedup[k]) <= Rank(x.prio))
    && (forall y :: y in q.heap && Current(q, y) && y.prio == x.prio ==> x.seq_ <= y.seq_)
  }

  /** The surfaced item, if current, is first. */
  lemma BestIsFirst(q: Queue, i: nat)
    requires Sound(q) && q.heap != [] && i == Best(q.heap) && Current(q, q.heap[i])
    ensures FirstOf(q, q.heap[i])
  {
    hide Best;
    var x := q.heap[i];
    forall k | k in q.dedup ensures Rank(q.dedup[k]) <= Rank(x.prio) {
      assert Matched(q, k);
      var j :| 0 <= j < |q.heap| && q.heap[j].key == k && Current(q, q.heap[j]);
      assert !Before(q.heap[j], x);
    }
    hide Sound;
    forall y | y in q.heap && Current(q, y) && y.prio == x.prio ensures x.seq_ <= y.seq_ {
      var j :| 0 <= j < |q.heap| && q.heap[j] == y;
      assert !Before(q.heap[j], x);
    }
  }

  /** Pop yields a queued key of highest priority with its latest priority and unqueues it, or nothing when none is queued. */
  lemma {:induction false} PopTakesFirst(q: Queue)
    requires Sound(q)
    ensures var (n, x) := Popped(q);
      && Sound(n) && n.last == q.last
      && (x.None? ==> q.dedup == map[] && n.dedup == map[])
      && (x.Some? ==> FirstOf(q, x.value) && x.value.key in q.dedup && n.dedup == q.dedup - {x.value.key})
    decreases |q.heap|
  {
    hide Sound;
    hide FirstOf;
    if q.heap == [] {
      NothingQueued(q);
    } else {
      var i := Best(q.heap);
      hide Best;
      var x, rest := q.heap[i], q.(heap := Without(q.heap, i));
      if Current(q, x) {
        TakeCurrent(q, i);
        BestIsFirst(q, i);
      } else {
        DropStale(q, i);
        PopTakesFirst(rest);
        var (n, y) := Popped(rest);
        if y.Some? { FirstWithout(q, i, y.value); }
      }
    }
  }

  /** What is first after a stale item is dropped was first before. */
  lemma FirstWithout(q: Queue, i: nat, x: Item)
    requires i < |q.heap| && !Current(q, q.heap[i]) && FirstOf(q.(heap := Without(q.heap, i)), x)
    ensures FirstOf(q, x)
  {
    var n := q.(heap := Without(q.heap, i));
    forall y | y in q.heap && Current(q, y) ensures y in n.heap && Current(n, y) {
      var j :| 0 <= j < |q.heap| && q.heap[j] == y;
      WithoutAt(q.heap, i, j);
    }
    assert Current(q, x) && x in q.heap;
  }

  // ----- emptying the queue

  function PopAll(q: Queue): seq<Item>
    requires Sound(q)
    decreases |q.dedup|
  {
    PopTakesFirst(q);
    var (n, x) := Popped(q);
    if x.None? then []
    else
      FewerKeys(q.dedup, x.value.key);
      [x.value] + PopAll(n)
  }

  /** Emptying the queue yields each queued key once, with its latest priority, by falling priority. */
  lemma {:induction false} PopAllSorted(q: Queue)
    requires Sound(q)
    ensures var out := PopAll(q);
      && (forall i, j :: 0 <= i < j < |out| ==> Rank(out[i].prio) >= Rank(out[j].prio) && out[i].key != out[j].key)
      && (forall i :: 0 <= i < |out| ==> Current(q, out[i]))
      && |out| == |q.dedup|
    decreases |q.dedup|
  {
    hide Sound;
    hide Popped;
    hide FirstOf;
    hide Current;
    PopTakesFirst(q);
    var (n, x) := Popped(q);
    if x.Some? {
      FewerKeys(q.dedup, x.value.key);
      PopAllSorted(n);
      PrependFirst(q, n, x.value, PopAll(n));
    } else {
      CountKeys(q.dedup);
    }
  }

  lemma PrependFirst(q: Queue, n: Queue, x: Item, rest: seq<Item>)
    requires FirstOf(q, x) && n.dedup == q.dedup - {x.key}
    requires forall i, j :: 0 <= i < j < |rest| ==> Rank(rest[i].prio) >= Rank(rest[j].prio) && rest[i].key != rest[j].key
    requires forall i :: 0 <= i < |rest| ==> Current(n, rest[i])
    ensures var out := [x] + rest;
      && (forall i, j :: 0 <= i < j < |out| ==> Rank(out[i].prio) >= Rank(out[j].prio) && out[i].key != out[j].key)
      && (forall i :: 0 <= i < |out| ==> Current(q, out[i]))
  {
    forall j | 0 <= j < |rest| ensures Rank(x.prio) >= Rank(rest[j].prio) && rest[j].key != x.key && Current(q, rest[j]) {
      assert Current(n, rest[j]);
    }
    hide Current;
    hide Rank;
    hide FirstOf;
  }

  // ----- stale copies and first-in-first-out

  /** An item in the heap that matches what its key is queued with. */
  predicate Live(q: Queue, x: Item) { x in q.heap && Current(q, x) }

  /** Of the live items of its key, the earliest and the latest; the latest is the one its last push added. */
  ghost predicate IsFirst(q: Queue, x: Item) { Live(q, x) && forall y :: Live(q, y) && y.key == x.key ==> x.seq_ <= y.seq_ }
  ghost predicate IsLatest(q: Queue, x: Item) { Live(q, x) && forall y :: Live(q, y) && y.key == x.key ==> y.seq_ <= x.seq_ }

  lemma Extremes(q: Queue, k: Key) returns (first: Item, latest: Item)
    requires Sound(q) && k in q.dedup
    ensures IsFirst(q, first) && IsLatest(q, latest) && first.key == k == latest.key
  {
    assert Matched(q, k);
    hide Sound;
    var m :| 0 <= m < |q.heap| && q.heap[m].key == k && Current(q, q.heap[m]);
    IsLive(q, m);
    hide *;
    first, latest := ExtremesOf(q, q.heap[m], |q.heap|);
    AllBetween(q, first, latest);
  }

  lemma {:induction false} ExtremesOf(q: Queue, x: Item, n: nat) returns (first: Item, latest: Item)
    requires n <= |q.heap| && Live(q, x)
    ensures Live(q, first) && Live(q, latest) && first.key == x.key == latest.key
    ensures Between(q, x.key, n, first.seq_, latest.seq_)
    decreases n
  {
    if n == 0 {
      first, latest := x, x;
    } else {
      hide *;
      first, latest := ExtremesOf(q, x, n - 1);
      var y := q.heap[n - 1];
      var lo, hi := first.seq_, latest.seq_;
      if y.key == x.key && Current(q, y) {
        IsLive(q, n - 1);
        if y.seq_ < lo { first := y; }
        if y.seq_ > hi { latest := y; }
      }
      BetweenNext(q, x.key, n - 1, lo, hi, first.seq_, latest.seq_);
    }
  }

  lemma BetweenNext(q: Queue, k: Key, n: nat, lo: nat, hi: nat, lo2: nat, hi2: nat)
    requires n < |q.heap| && Between(q, k, n, lo, hi) && lo2 <= lo && hi <= hi2
    requires q.heap[n].key == k && Current(q, q.heap[n]) ==> lo2 <= q.heap[n].seq_ <= hi2
    ensures Between(q, k, n + 1, lo2, hi2)
  {
    hide Current;
  }

  /** The live items of k among the first n have numbers from lo to hi. */
  ghost predicate Between(q: Queue, k: Key, n: nat, lo: nat, hi: nat)
    requires n <= |q.heap|
  {
    forall j :: 0 <= j < n && q.heap[j].key == k && Current(q, q.heap[j]) ==> lo <= q.heap[j].seq_ <= hi
  }

  lemma IsLive(q: Queue, i: nat)
    requires i < |q.heap|
    ensures Current(q, q.heap[i]) ==> Live(q, q.heap[i])
  {
  }

  lemma AllBetween(q: Queue, first: Item, latest: Item)
    requires Live(q, first) && Live(q, latest) && first.key == latest.key
    requires Between(q, first.key, |q.heap|, first.seq_, latest.seq_)
    ensures IsFirst(q, first) && IsLatest(q, latest)
  {
  }

  lemma ExtremesExist(q: Queue, k: Key)
    requires Sound(q) && k in q.dedup
    ensures exists x :: IsFirst(q, x) && x.key == k
    ensures exists x :: IsLatest(q, x) && x.key == k
  {
    var first, latest := Extremes(q, k);
  }

  /** When the key's earliest live item was numbered, and when it was last pushed. */
  ghost function FirstNumber(q: Queue, k: Key): (n: nat)
    requires Sound(q) && k in q.dedup
    ensures exists x :: IsFirst(q, x) && x.key == k && x.seq_ == n
  {
    ExtremesExist(q, k);
    var x :| IsFirst(q, x) && x.key == k;
    x.seq_
  }

  ghost function PushNumber(q: Queue, k: Key): (n: nat)
    requires Sound(q) && k in q.dedup
    ensures exists x :: IsLatest(q, x) && x.key == k && x.seq_ == n
  {
    ExtremesExist(q, k);
    var x :| IsLatest(q, x) && x.key == k;
    x.seq_
  }

  lemma FirstIs(q: Queue, x: Item)
    requires Sound(q) && IsFirst(q, x)
    ensures x.key in q.dedup && FirstNumber(q, x.key) == x.seq_
  {
    hide Sound;
    var y :| IsFirst(q, y) && y.key == x.key && y.seq_ == FirstNumber(q, x.key);
  }

  lemma LatestIs(q: Queue, x: Item)
    requires Sound(q) && IsLatest(q, x)
    ensures x.key in q.dedup && PushNumber(q, x.key) == x.seq_
  {
    hide Sound;
    var y :| IsLatest(q, y) && y.key == x.key && y.seq_ == PushNumber(q, x.key);
  }

  lemma PushedLatest(q: Queue, key: Key, prio: Priority)
    requires Sound(q) && Pushed(q, key, prio) != q
    ensures IsLatest(Pushed(q, key, prio), Item(prio, q.last + 1, key))
  {
    var n := Pushed(q, key, prio);
    hide Matched;
    assert n.heap[|q.heap|] == Item(prio, q.last + 1, key);
  }

  lemma OtherLatest(q: Queue, key: Key, prio: Priority, x: Item)
    requires Pushed(q, key, prio) != q && x.key != key && IsLatest(q, x)
    ensures IsLatest(Pushed(q, key, prio), x)
  {
    var n := Pushed(q, key, prio);
    forall y | Live(n, y) && y.key == x.key ensures Live(q, y) {}
  }

  /** A push that changes the queue numbers its key's push last and leaves the other keys' numbers alone. */
  lemma PushNumbers(q: Queue, key: Key, prio: Priority, k: Key)
    requires Sound(q) && Pushed(q, key, prio) != q && k in Pushed(q, key, prio).dedup
    ensures Sound(Pushed(q, key, prio))
    ensures PushNumber(Pushed(q, key, prio), k) == if k == key then q.last + 1 else PushNumber(q, k)
  {
    var n := Pushed(q, key, prio);
    PushSound(q, key, prio);
    assert k == key || k in q.dedup;
    hide Pushed;
    hide Sound;
    hide IsLatest;
    if k == key {
      PushedLatest(q, key, prio);
      LatestIs(n, Item(prio, q.last + 1, key));
    } else {
      var first, latest := Extremes(q, k);
      OtherLatest(q, key, prio, latest);
      LatestIs(n, latest);
      LatestIs(q, latest);
    }
  }

  /** A pop keeps exactly the live items of the keys that stay queued. */
  lemma {:induction false} PoppedKeeps(q: Queue, y: Item)
    ensures var (n, x) := Popped(q);
      x.Some? ==> (Live(n, y) <==> Live(q, y) && y.key != x.value.key)
    decreases |q.heap|
  {
    if q.heap != [] {
      var i := Best(q.heap);
      var rest := q.(heap := Without(q.heap, i));
      WithoutHas(q.heap, i, y);
      if !Current(q, q.heap[i]) { PoppedKeeps(rest, y); }
    }
  }

  lemma WithoutHas(heap: seq<Item>, i: nat, y: Item)
    requires i < |heap|
    ensures y in Without(heap, i) ==> y in heap
    ensures y in heap && y != heap[i] ==> y in Without(heap, i)
  {
    if y in heap && y != heap[i] {
      var j :| 0 <= j < |heap| && heap[j] == y;
      WithoutAt(heap, i, j);
    }
  }

  /** Items that differ have different numbers. */
  lemma NumbersDiffer(q: Queue, x: Item, y: Item)
    requires Sound(q) && x in q.heap && y in q.heap && x != y
    ensures x.seq_ != y.seq_
  {
    var i :| 0 <= i < |q.heap| && q.heap[i] == x;
    var j :| 0 <= j < |q.heap| && q.heap[j] == y;
  }

  /** Emptying the queue yields each queued key by its first live item, ascending within a priority. */
  lemma {:induction false} PopAllFirst(q: Queue)
    requires Sound(q)
    ensures forall i :: 0 <= i < |PopAll(q)| ==> IsFirst(q, PopAll(q)[i])
    ensures Rising(PopAll(q))
    ensures forall k :: k in q.dedup ==> Yields(PopAll(q), k)
    decreases |q.dedup|
  {
    hide Sound;
    hide Popped;
    PopTakesFirst(q);
    var (n, x) := Popped(q);
    if x.Some? {
      FewerKeys(q.dedup, x.value.key);
      PopAllFirst(n);
      forall y: Item ensures Live(n, y) <==> Live(q, y) && y.key != x.value.key { PoppedKeeps(q, y); }
      FirstThenRest(q, n, x.value, PopAll(n));
    }
  }

  ghost predicate Yields(out: seq<Item>, k: Key) { exists i :: 0 <= i < |out| && out[i].key == k }

  /** What was popped was its key's first. */
  lemma PoppedFirst(q: Queue, x: Item)
    requires FirstOf(q, x)
    ensures IsFirst(q, x)
  {
    forall z | Live(q, z) && z.key == x.key ensures x.seq_ <= z.seq_ { assert z.prio == x.prio; }
  }

  /** What is first for a key that stays was first before, and comes after what was popped. */
  lemma StillFirst(q: Queue, n: Queue, x: Item, y: Item)
    requires Sound(q) && FirstOf(q, x) && IsFirst(n, y)
    requires forall z :: Live(n, z) <==> Live(q, z) && z.key != x.key
    ensures IsFirst(q, y) && (y.prio == x.prio ==> x.seq_ < y.seq_)
  {
    assert Live(n, y);
    NumbersDiffer(q, x, y);
  }

  lemma FirstThenRest(q: Queue, n: Queue, x: Item, rest: seq<Item>)
    requires Sound(q) && FirstOf(q, x) && n.dedup == q.dedup - {x.key}
    requires forall y :: Live(n, y) <==> Live(q, y) && y.key != x.key
    requires forall i :: 0 <= i < |rest| ==> IsFirst(n, rest[i])
    requires Rising(rest)
    requires forall k :: k in n.dedup ==> Yields(rest, k)
    ensures var out := [x] + rest;
      && (forall i :: 0 <= i < |out| ==> IsFirst(q, out[i]))
      && Rising(out) && (forall k :: k in q.dedup ==> Yields(out, k))
  {
    hide Sound;
    hide IsFirst;
    hide Live;
    hide FirstOf;
    hide Yields;
    var out := [x] + rest;
    PoppedFirst(q, x);
    forall i | 0 <= i < |rest| ensures IsFirst(q, rest[i]) && (rest[i].prio == x.prio ==> x.seq_ < rest[i].seq_) {
      StillFirst(q, n, x, rest[i]);
    }
    forall k | k in q.dedup ensures Yields(out, k) {
      assert k == x.key || k in n.dedup;
      ThenYields(x, rest, k);
    }
  }

  lemma ThenYields(x: Item, rest: seq<Item>, k: Key)
    ensures k == x.key || Yields(rest, k) ==> Yields([x] + rest, k)
  {
    var out := [x] + rest;
    assert out[0] == x;
    if Yields(rest, k) {
      var i :| 0 <= i < |rest| && rest[i].key == k;
      assert out[i + 1].key == k;
    }
  }

  /** Keys of one priority stand in the order of their last pushes. */
  ghost predicate InPushOrder(q: Queue, out: seq<Item>)
    requires Sound(q)
  {
    forall i, j :: 0 <= i < j < |out| && out[i].prio == out[j].prio ==>
      && out[i].key in q.dedup && out[j].key in q.dedup
      && PushNumber(q, out[i].key) < PushNumber(q, out[j].key)
  }

  /** Two keys are ordered alike by their earliest live items and by their last pushes. */
  ghost predicate Alike(q: Queue, a: Key, b: Key)
    requires Sound(q) && a in q.dedup && b in q.dedup
  {
    FirstNumber(q, a) < FirstNumber(q, b) <==> PushNumber(q, a) < PushNumber(q, b)
  }

  /** So are all keys of one priority. */
  ghost predicate SameOrder(q: Queue)
    requires Sound(q)
  {
    forall a, b :: a in q.dedup && b in q.dedup && q.dedup[a] == q.dedup[b] ==> Alike(q, a, b)
  }

  /** out yields the key of each item by its first live item. */
  ghost predicate ByFirst(q: Queue, out: seq<Item>)
    requires Sound(q)
  {
    forall i :: 0 <= i < |out| ==>
      out[i].key in q.dedup && q.dedup[out[i].key] == out[i].prio && FirstNumber(q, out[i].key) == out[i].seq_
  }

  ghost predicate Rising(out: seq<Item>) {
    forall i, j :: 0 <= i < j < |out| && out[i].prio == out[j].prio ==> out[i].seq_ < out[j].seq_
  }

  lemma YieldedAlike(q: Queue, out: seq<Item>, a: Key, b: Key)
    requires Sound(q) && ByFirst(q, out) && Rising(out) && InPushOrder(q, out)
    requires a in q.dedup && b in q.dedup && q.dedup[a] == q.dedup[b] && Yields(out, a) && Yields(out, b)
    ensures Alike(q, a, b)
  {
    hide Sound;
    hide FirstNumber;
    hide PushNumber;
    var i :| 0 <= i < |out| && out[i].key == a;
    var j :| 0 <= j < |out| && out[j].key == b;
    assert out[i].prio == out[j].prio;
  }

  lemma AlikeInOrder(q: Queue, out: seq<Item>)
    requires Sound(q) && ByFirst(q, out) && Rising(out) && SameOrder(q)
    ensures InPushOrder(q, out)
  {
    hide Sound;
    hide FirstNumber;
    hide PushNumber;
    forall i, j | 0 <= i < j < |out| && out[i].prio == out[j].prio
      ensures out[i].key in q.dedup && out[j].key in q.dedup && PushNumber(q, out[i].key) < PushNumber(q, out[j].key)
    {
      assert Alike(q, out[i].key, out[j].key);
    }
  }

  /**
   Emptied, the queue yields the keys of each priority in the order of their last pushes, first in first out, exactly
   when no live leftover of an earlier push puts a key before one whose last push came earlier.
   */
  lemma FifoExactly(q: Queue)
    requires Sound(q)
    ensures InPushOrder(q, PopAll(q)) <==> SameOrder(q)
  {
    hide *;
    hide Sound;
    var out := PopAll(q);
    PopAllByFirst(q);
    if InPushOrder(q, out) { OrderAlike(q, out); }
    if SameOrder(q) { AlikeInOrder(q, out); }
  }

  lemma PopAllByFirst(q: Queue)
    requires Sound(q)
    ensures ByFirst(q, PopAll(q)) && Rising(PopAll(q)) && forall k :: k in q.dedup ==> Yields(PopAll(q), k)
  {
    hide Sound;
    hide PopAll;
    PopAllFirst(q);
    hide Rising;
    hide Yields;
    hide FirstNumber;
    var out := PopAll(q);
    forall i | 0 <= i < |out|
      ensures out[i].key in q.dedup && q.dedup[out[i].key] == out[i].prio && FirstNumber(q, out[i].key) == out[i].seq_
    {
      FirstIs(q, out[i]);
    }
  }

  lemma OrderAlike(q: Queue, out: seq<Item>)
    requires Sound(q) && ByFirst(q, out) && Rising(out) && InPushOrder(q, out) && forall k :: k in q.dedup ==> Yields(out, k)
    ensures SameOrder(q)
  {
    hide Sound;
    hide ByFirst;
    hide Rising;
    hide InPushOrder;
    hide Alike;
    forall a, b | a in q.dedup && b in q.dedup && q.dedup[a] == q.dedup[b] ensures Alike(q, a, b) {
      YieldedAlike(q, out, a, b);
    }
  }

  /** No queued key has two live items. */
  ghost predicate NoStale(q: Queue) { forall x, y :: Live(q, x) && Live(q, y) && x.key == y.key ==> x == y }

  /** In particular while no live leftover is in the heap. */
  lemma FifoWithoutStale(q: Queue)
    requires Sound(q) && NoStale(q)
    ensures InPushOrder(q, PopAll(q))
  {
    hide *;
    hide Sound;
    forall a, b | a in q.dedup && b in q.dedup && q.dedup[a] == q.dedup[b] ensures Alike(q, a, b) {
      OneNumber(q, a, b);
    }
    AllAlike(q);
    FifoExactly(q);
  }

  lemma AllAlike(q: Queue)
    requires Sound(q) && forall a, b :: a in q.dedup && b in q.dedup && q.dedup[a] == q.dedup[b] ==> Alike(q, a, b)
    ensures SameOrder(q)
  {
  }

  lemma OneNumber(q: Queue, a: Key, b: Key)
    requires Sound(q) && a in q.dedup && b in q.dedup && NoStale(q)
    ensures Alike(q, a, b)
  {
    var x, y := Extremes(q, a);
    FirstIs(q, x);
    LatestIs(q, y);
    var z, w := Extremes(q, b);
    FirstIs(q, z);
    LatestIs(q, w);
    hide Sound;
    hide Current;
    hide FirstNumber;
    hide PushNumber;
    assert x == y && z == w;
  }

  /** A copy left over from an earlier residency lets a key pushed last leave before one that waited. */
  lemma StaleCopyJumps(a: Key, b: Key)
    requires a != b
    ensures var q0 := Queue([], map[], 0);
      var q1 := Popped(Pushed(Pushed(q0, a, Low), a, High)).0;
      Sound(q0) && q1.dedup == map[] && Popped(Pushed(Pushed(q1, b, Low), a, Low)).1 == Some(Item(Low, 1, a))
  {
    var q0 := Queue([], map[], 0);
    var up := Pushed(Pushed(q0, a, Low), a, High);
    assert up == Queue([Item(Low, 1, a), Item(High, 2, a)], map[a := High], 2);
    hide Best;
    assert Before(up.heap[1], up.heap[0]) && Best(up.heap) == 1;
    var q1 := Queue([Item(Low, 1, a)], map[], 2);
    assert Without(up.heap, 1) == [Item(Low, 1, a)];
    assert map[a := High] - {a} == map[];
    assert Popped(up) == (q1, Some(Item(High, 2, a)));
    var q2 := Pushed(Pushed(q1, b, Low), a, Low);
    assert q2.heap == [Item(Low, 1, a), Item(Low, 3, b), Item(Low, 4, a)];
    assert Before(q2.heap[0], q2.heap[1]) && Before(q2.heap[0], q2.heap[2]) && Best(q2.heap) == 0;
  }

  // ----- the queue object

  class HealQueue {
    var heap: seq<Item>
    var dedup: map<Key, Priority>
    var last: nat

    function Value(): Queue
      reads this
    {
      Queue(heap, dedup, last)
    }

    ghost predicate Valid()
      reads this
    {
      Sound(Value())
    }

    constructor ()
      ensures Valid() && Value() == Queue([], map[], 0)
    {
      heap, dedup, last := [], map[], 0;
    }

    method Push(key: Key, prio: Priority)
      requires Valid()
      modifies this
      ensures Valid() && Value() == Pushed(old(Value()), key, prio)
    {
      hide Sound;
      ghost var n := Pushed(Value(), key, prio);
      assert Sound(n) by { PushSound(Value(), key, prio); }
      if key in dedup && Rank(dedup[key]) >= Rank(prio) { return; }
      if |dedup| >= CAP && key !in dedup { return; }
      dedup := dedup[key := prio];
      last := last + 1;
      heap := heap + [Item(prio, last, key)];
      assert Value() == n;
    }

    /** Surface one item; it is unqueued if it matches its key's priority and only dropped if not. */
    method Surface() returns (item: Item, taken: bool)
      requires Valid() && heap != []
      modifies this
      ensures Valid() && |heap| < old(|heap|)
      ensures Popped(old(Value())) == if taken then (Value(), Some(item)) else Popped(Value())
      ensures taken == Current(old(Value()), item) && (!taken ==> dedup == old(dedup))
    {
      ghost var q := Value();
      PoppedStep(q);
      hide Sound;
      hide Popped;
      var i := Best(heap);
      hide Best;
      item := heap[i];
      taken := item.key in dedup && dedup[item.key] == item.prio;
      if taken { TakeCurrent(q, i); } else { DropStale(q, i); }
      heap := Without(heap, i);
      hide Without;
      if taken { dedup := dedup - {item.key}; }
    }

    /** Surface items until one matches its key's priority; it is unqueued and returned. */
    method Pop() returns (x: Option<Item>)
      requires Valid()
      modifies this
      ensures Valid() && (Value(), x) == Popped(old(Value()))
      ensures x.None? <==> old(dedup) == map[]
      ensures x.Some? ==> FirstOf(old(Value()), x.value) && dedup == old(dedup) - {x.value.key}
    {
      hide Sound;
      hide FirstOf;
      hide Popped;
      x := None;
      while heap != [] && x.None?
        invariant Valid() && Popped(old(Value())) == if x.None? then Popped(Value()) else (Value(), x)
        decreases |heap|
      {
        var item, taken := Surface();
        if taken { x := Some(item); }
      }
      if x.None? { PoppedEmpty(Value()); }
      PopOutcome(old(Value()));
    }
  }

  lemma PopOutcome(q: Queue)
    requires Sound(q)
    ensures Popped(q).1.None? <==> q.dedup == map[]
    ensures Popped(q).1.Some? ==> FirstOf(q, Popped(q).1.value) && Popped(q).0.dedup == q.dedup - {Popped(q).1.value.key}
  {
    PopTakesFirst(q);
  }
}
