/** The order of byte strings, and stable sorting by any order. */
module Order {
  import opened Bytes

  // ----- byte strings

  predicate Less(a: Bytes, b: Bytes) {
    if b == [] then false
    else a == [] || a[0] < b[0] || (a[0] == b[0] && Less(a[1..], b[1..]))
  }

  lemma {:induction false} LessOrder(a: Bytes, b: Bytes)
    ensures !(Less(a, b) && Less(b, a)) && (Less(a, b) || Less(b, a) || a == b) && !Less(a, a)
  {
    if a != [] && b != [] { LessOrder(a[1..], b[1..]); }
    if a != [] {
      LessSelf(a);
      if b != [] && a[0] == b[0] { assert a == [a[0]] + a[1..] && b == [b[0]] + b[1..]; }
    }
  }

  lemma {:induction false} LessSelf(a: Bytes)
    ensures !Less(a, a)
  {
    if a != [] { LessSelf(a[1..]); }
  }

  lemma {:induction false} LessTrans(a: Bytes, b: Bytes, c: Bytes)
    ensures Less(a, b) && Less(b, c) ==> Less(a, c)
    ensures !Less(b, a) && !Less(c, b) ==> !Less(c, a)
  {
    if a != [] && b != [] && c != [] { LessTrans(a[1..], b[1..], c[1..]); }
  }

  lemma {:induction false} LessFront(a: Bytes, b: Bytes, x: Bytes, y: Bytes)
    requires |a| == |b| && Less(a, b)
    ensures Less(a + x, b + y)
  {
    assert (a + x)[1..] == a[1..] + x && (b + y)[1..] == b[1..] + y;
    if a[0] == b[0] { LessFront(a[1..], b[1..], x, y); }
  }

  lemma {:induction false} LessBack(a: Bytes, x: Bytes, y: Bytes)
    requires Less(x, y)
    ensures Less(a + x, a + y)
  {
    if a == [] {
      assert a + x == x && a + y == y;
    } else {
      assert (a + x)[1..] == a[1..] + x && (a + y)[1..] == a[1..] + y;
      LessBack(a[1..], x, y);
    }
  }

  // ----- sorting

  /** before(a, b) puts a in front of b; what neither puts first may stand either way. */
  ghost predicate Orders<T(!new)>(before: (T, T) -> bool) {
    && (forall a, b :: !(before(a, b) && before(b, a)))
    && (forall a, b, c :: !before(b, a) && !before(c, b) ==> !before(c, a))
  }

  ghost predicate Sorted<T>(before: (T, T) -> bool, xs: seq<T>) {
    forall i, j :: 0 <= i < j < |xs| ==> !before(xs[j], xs[i])
  }

  /** Put x in front of the first element that does not go before it. */
  function Insert<T>(before: (T, T) -> bool, x: T, xs: seq<T>): (r: seq<T>)
    ensures |r| == |xs| + 1
  {
    if xs == [] || !before(xs[0], x) then [x] + xs else [xs[0]] + Insert(before, x, xs[1..])
  }

  /** Stable sort. */
  function Sort<T>(before: (T, T) -> bool, xs: seq<T>): (r: seq<T>)
    ensures |r| == |xs|
  {
    if xs == [] then [] else Insert(before, xs[0], Sort(before, xs[1..]))
  }

  lemma {:induction false} InsertHas<T>(before: (T, T) -> bool, x: T, xs: seq<T>)
    ensures multiset(Insert(before, x, xs)) == multiset(xs) + multiset{x}
    ensures forall y :: y in Insert(before, x, xs) <==> y == x || y in xs
  {
    if xs != [] {
      assert xs == [xs[0]] + xs[1..];
      InsertHas(before, x, xs[1..]);
    }
  }

  lemma {:induction false} InsertSorted<T(!new)>(before: (T, T) -> bool, x: T, xs: seq<T>)
    requires Orders(before) && Sorted(before, xs)
    ensures Sorted(before, Insert(before, x, xs))
  {
    if xs != [] {
      if before(xs[0], x) {
        InsertSorted(before, x, xs[1..]);
        InsertHas(before, x, xs[1..]);
        var rest := Insert(before, x, xs[1..]);
        forall j | 0 <= j < |rest| ensures !before(rest[j], xs[0]) {
          assert rest[j] in rest;
          if rest[j] != x {
            var i :| 0 <= i < |xs[1..]| && xs[1..][i] == rest[j];
            assert rest[j] == xs[i + 1];
          }
        }
      } else {
        forall j | 0 <= j < |xs| ensures !before(xs[j], x) {
          if j > 0 { assert !before(xs[j], xs[0]); }
        }
      }
    }
  }

  lemma {:induction false} SortKeeps<T(!new)>(before: (T, T) -> bool, xs: seq<T>)
    ensures multiset(Sort(before, xs)) == multiset(xs)
    ensures Orders(before) ==> Sorted(before, Sort(before, xs))
  {
    if xs != [] {
      SortKeeps(before, xs[1..]);
      InsertHas(before, xs[0], Sort(before, xs[1..]));
      if Orders(before) { InsertSorted(before, xs[0], Sort(before, xs[1..])); }
      assert xs == [xs[0]] + xs[1..];
    }
  }

  // ----- sorting with one element more

  /** t is s with e put in at place p. */
  ghost predicate Inserted<T>(s: seq<T>, t: seq<T>, p: nat, e: T) {
    p <= |s| && t == s[..p] + [e] + s[p..]
  }

  lemma {:induction false} InsertIs<T>(before: (T, T) -> bool, x: T, s: seq<T>) returns (p: nat)
    ensures Inserted(s, Insert(before, x, s), p, x)
  {
    p := 0;
    if s != [] && before(s[0], x) {
      var q := InsertIs(before, x, s[1..]);
      p := q + 1;
      assert s[..p] == [s[0]] + s[1..][..q] && s[p..] == s[1..][q..];
    }
  }

  /** Inserting x into a list and into it with e in front. */
  lemma InsertBothFront<T(!new)>(before: (T, T) -> bool, x: T, s: seq<T>, e: T) returns (q: nat)
    requires Orders(before) && Sorted(before, [e] + s)
    ensures Inserted(Insert(before, x, s), Insert(before, x, [e] + s), q, e)
  {
    var t := [e] + s;
    assert t[1..] == s;
    q := if before(e, x) then 0 else 1;
    if !before(e, x) && s != [] {
      assert t[1] == s[0] && !before(t[1], t[0]);
      assert !before(s[0], x);
    }
  }

  lemma PutAfter<T>(y: T, s: seq<T>, t: seq<T>, p: nat, e: T)
    requires Inserted(s, t, p, e)
    ensures Inserted([y] + s, [y] + t, p + 1, e)
  {
    assert ([y] + s)[..p + 1] == [y] + s[..p] && ([y] + s)[p + 1..] == s[p..];
  }

  lemma InsertedRest<T>(s: seq<T>, t: seq<T>, p: nat, e: T)
    requires Inserted(s, t, p, e) && p > 0
    ensures t[0] == s[0] && Inserted(s[1..], t[1..], p - 1, e)
  {
    assert t[1..] == s[1..][..p - 1] + [e] + s[1..][p - 1..];
  }

  /** Inserting another element into both lists leaves one the other with e put in. */
  lemma {:induction false} InsertBoth<T(!new)>(before: (T, T) -> bool, x: T, s: seq<T>, t: seq<T>, p: nat, e: T) returns (q: nat)
    requires Orders(before) && Inserted(s, t, p, e) && Sorted(before, t)
    ensures Inserted(Insert(before, x, s), Insert(before, x, t), q, e)
  {
    hide Orders;
    if p == 0 {
      assert t == [e] + s;
      q := InsertBothFront(before, x, s, e);
    } else {
      InsertedRest(s, t, p, e);
      hide Inserted;
      if before(s[0], x) {
        var r := InsertBoth(before, x, s[1..], t[1..], p - 1, e);
        PutAfter(s[0], Insert(before, x, s[1..]), Insert(before, x, t[1..]), r, e);
        q := r + 1;
      } else {
        PutAfter(x, s, t, p, e);
        q := p + 1;
      }
    }
  }

  lemma SortCons<T>(before: (T, T) -> bool, x: T, xs: seq<T>)
    ensures Sort(before, [x] + xs) == Insert(before, x, Sort(before, xs))
  {
    assert ([x] + xs)[1..] == xs;
  }

  /** Sorting a list with e added anywhere gives the sorted list with e put in. */
  lemma {:induction false} SortBoth<T(!new)>(before: (T, T) -> bool, a: seq<T>, e: T, b: seq<T>) returns (p: nat)
    requires Orders(before)
    ensures Inserted(Sort(before, a + b), Sort(before, a + [e] + b), p, e)
  {
    hide *;
    if a == [] {
      assert a + b == b && a + [e] + b == [e] + b;
      SortCons(before, e, b);
      p := InsertIs(before, e, Sort(before, b));
    } else {
      var x, rest := a[0], a[1..];
      assert a + b == [x] + (rest + b) && a + [e] + b == [x] + (rest + [e] + b);
      SortCons(before, x, rest + b);
      SortCons(before, x, rest + [e] + b);
      p := SortBoth(before, rest, e, b);
      SortKeeps(before, rest + [e] + b);
      p := InsertBoth(before, x, Sort(before, rest + b), Sort(before, rest + [e] + b), p, e);
    }
  }
}
