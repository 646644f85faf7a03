/**
 Listing keys in order, page by page: one engine's page merges its address and inline tables, a pool's page merges the
 engines' pages. A table is its rows in key order, as an ordered index iterates them.
 */
module Listing {
  import opened Bytes
  import opened Order

  type Key = Bytes

  predicate StartsWith(k: Key, prefix: Key) { |prefix| <= |k| && k[..|prefix|] == prefix }

  /** The keys that start with a prefix lie together, from the prefix on. */
  lemma {:induction false} PrefixFirst(k: Key, prefix: Key)
    requires StartsWith(k, prefix)
    ensures !Less(k, prefix)
  {
    if prefix != [] {
      assert k[1..][..|prefix| - 1] == k[..|prefix|][1..];
      PrefixFirst(k[1..], prefix[1..]);
    }
  }

  lemma {:induction false} PrefixTogether(a: Key, b: Key, c: Key, prefix: Key)
    requires StartsWith(a, prefix) && !Less(b, a) && !Less(c, b) && StartsWith(c, prefix)
    ensures StartsWith(b, prefix)
  {
    if prefix != [] {
      assert a[0] == prefix[0] == c[0];
      assert a[1..][..|prefix| - 1] == a[..|prefix|][1..] && c[1..][..|prefix| - 1] == c[..|prefix|][1..];
      PrefixTogether(a[1..], b[1..], c[1..], prefix[1..]);
      assert b[..|prefix|] == [b[0]] + b[1..][..|prefix| - 1];
      assert prefix == [prefix[0]] + prefix[1..];
    }
  }

  /** Appending a zero gives the next key. */
  lemma {:induction false} NextKey(k: Key, x: Key)
    ensures Less(x, k + [0]) <==> !Less(k, x)
  {
    if k == [] {
      assert k + [0] == [0];
    } else if x != [] {
      assert (k + [0])[1..] == k[1..] + [0];
      NextKey(k[1..], x[1..]);
    }
  }

  ghost predicate Ascending(keys: seq<Key>) { forall i, j :: 0 <= i < j < |keys| ==> Less(keys[i], keys[j]) }

  ghost predicate Distinct(keys: seq<Key>) { forall i, j :: 0 <= i < j < |keys| ==> keys[i] != keys[j] }

  ghost function Set(keys: seq<Key>): set<Key> { set k | k in keys }

  /** out is the first keys of s in order: all of them, or at least limit. */
  ghost predicate IsPage(out: seq<Key>, s: set<Key>, limit: nat) {
    && Ascending(out) && (forall k :: k in out ==> k in s)
    && (forall k :: k in s && k !in out ==> |out| >= limit && forall o :: o in out ==> Less(o, k))
  }

  /** out is the first limit keys of s in order, or all of them if there are fewer. */
  ghost predicate IsFirst(out: seq<Key>, s: set<Key>, limit: nat) { IsPage(out, s, limit) && |out| <= limit }

  /** What a page lists from: the keys with the prefix after the cursor. */
  ghost function After(s: set<Key>, prefix: Key, after: Option<Key>): set<Key> {
    set k | k in s && StartsWith(k, prefix) && (after.Some? ==> Less(after.value, k))
  }

  // ----- one engine

  /** Where a page starts scanning. */
  function Start(prefix: Key, after: Option<Key>): Key {
    match after case Some(k) => k + [0] case None => prefix
  }

  /** Insert a key in order unless it is there. */
  function InsertKey(keys: seq<Key>, k: Key): seq<Key> {
    if keys == [] || Less(k, keys[0]) then [k] + keys
    else if k == keys[0] then keys
    else [keys[0]] + InsertKey(keys[1..], k)
  }

  lemma {:induction false} InsertKeyIs(keys: seq<Key>, k: Key)
    requires Ascending(keys)
    ensures Ascending(InsertKey(keys, k)) && forall x :: x in InsertKey(keys, k) <==> x == k || x in keys
  {
    if keys != [] {
      assert keys == [keys[0]] + keys[1..];
      InsertKeyIs(keys[1..], k);
      LessOrder(k, keys[0]);
      if Less(k, keys[0]) {
        forall j | 0 <= j < |keys| ensures Less(k, keys[j]) { if j > 0 { LessTrans(k, keys[0], keys[j]); } }
      } else if k != keys[0] {
        var rest := InsertKey(keys[1..], k);
        forall j | 0 <= j < |rest| ensures Less(keys[0], rest[j]) { assert rest[j] in rest; }
      }
    }
  }

  function InsertAll(keys: seq<Key>, more: seq<Key>): seq<Key>
    decreases |more|
  {
    if more == [] then keys else InsertAll(InsertKey(keys, more[0]), more[1..])
  }

  lemma {:induction false} InsertAllIs(keys: seq<Key>, more: seq<Key>)
    requires Ascending(keys)
    ensures Ascending(InsertAll(keys, more)) && forall x :: x in InsertAll(keys, more) <==> x in keys || x in more
    decreases |more|
  {
    if more != [] {
      InsertKeyIs(keys, more[0]);
      assert more == [more[0]] + more[1..];
      hide InsertKey;
      InsertAllIs(InsertKey(keys, more[0]), more[1..]);
    }
  }

  /** Cutting an ordered list of all the keys gives the first. */
  lemma TakeIsFirst(keys: seq<Key>, limit: nat)
    requires Ascending(keys)
    ensures IsFirst(Take(keys, limit), Set(keys), limit)
  {
    var out := Take(keys, limit);
    forall k | k in keys && k !in out ensures |out| >= limit && forall o :: o in out ==> Less(o, k) {
      var i :| 0 <= i < |keys| && keys[i] == k;
    }
  }

  lemma {:induction false} AscendingCount(a: seq<Key>, b: seq<Key>, extra: Key)
    requires Ascending(a) && Ascending(b) && (forall k :: k in a ==> k in b) && extra in b && extra !in a
    ensures |a| < |b|
  {
    SetCount(a);
    SetCount(b);
    assert Set(a) + {extra} <= Set(b);
    SubsetSize(Set(a) + {extra}, Set(b));
  }

  lemma {:induction false} SetCount(a: seq<Key>)
    requires Ascending(a)
    ensures |Set(a)| == |a|
  {
    if a != [] {
      var n := |a| - 1;
      SetCount(a[..n]);
      assert a == a[..n] + [a[n]];
      if a[n] in a[..n] { LessSelf(a[n]); }
      assert Set(a) == Set(a[..n]) + {a[n]};
    }
  }

  /** First pages of parts, merged in order and cut, are the first page of the whole. */
  lemma MergedFirst(pages: seq<seq<Key>>, parts: seq<set<Key>>, merged: seq<Key>, whole: set<Key>, limit: nat)
    requires |pages| == |parts| && forall i :: 0 <= i < |pages| ==> IsPage(pages[i], parts[i], limit)
    requires Ascending(merged) && forall k :: k in merged <==> InPage(pages, k)
    requires forall k :: k in whole <==> InPart(parts, k)
    ensures IsFirst(Take(merged, limit), whole, limit)
  {
    var out := Take(merged, limit);
    TakeIsFirst(merged, limit);
    forall k | k in whole && k !in out ensures |out| >= limit && forall o :: o in out ==> Less(o, k) {
      assert InPart(parts, k);
      var i :| 0 <= i < |parts| && k in parts[i];
      if k in pages[i] {
        assert InPage(pages, k);
      } else {
        PageFills(pages[i], merged, parts[i], limit, k, pages, i);
      }
    }
    forall k | k in out ensures k in whole {
      assert InPage(pages, k);
      var i :| 0 <= i < |pages| && k in pages[i];
      assert InPart(parts, k);
    }
  }

  ghost predicate InPage(pages: seq<seq<Key>>, k: Key) { exists i :: 0 <= i < |pages| && k in pages[i] }
  ghost predicate InPart(parts: seq<set<Key>>, k: Key) { exists i :: 0 <= i < |parts| && k in parts[i] }

  /** A part's page that ends before k fills the merged page with keys before k. */
  lemma PageFills(page: seq<Key>, merged: seq<Key>, part: set<Key>, limit: nat, k: Key, pages: seq<seq<Key>>, i: nat)
    requires i < |pages| && page == pages[i] && IsPage(page, part, limit) && k in part && k !in page
    requires Ascending(merged) && forall x :: x in merged <==> InPage(pages, x)
    ensures |Take(merged, limit)| == limit && forall o :: o in Take(merged, limit) ==> Less(o, k)
  {
    var out := Take(merged, limit);
    TakeIsFirst(merged, limit);
    assert |page| >= limit;
    forall x | x in page ensures x in merged { assert InPage(pages, x); }
    SetCount(page);
    SetCount(merged);
    SubsetSize(Set(page), Set(merged));
    forall o | o in out ensures Less(o, k) {
      LessOrder(o, k);
      if !Less(o, k) {
        forall x | x in page ensures x in out && x != o {
          LessTrans(x, k, o);
          LessOrder(x, o);
          assert x !in out ==> Less(o, x);
        }
        AscendingCount(page, out, o);
      }
    }
  }

  /** A cursor a page can start from: none, one not before the prefix, or the key just before it. */
  predicate GoodCursor(prefix: Key, after: Option<Key>) {
    after.None? || !Less(after.value, prefix) || after.value + [0] == prefix
  }

  /** A key with the prefix is past the cursor exactly when it is not before the place where scanning starts. */
  lemma StartIs(prefix: Key, after: Option<Key>, k: Key)
    requires StartsWith(k, prefix)
    ensures (after.Some? ==> Less(after.value, k)) <==> !Less(k, Start(prefix, after))
  {
    match after
    case Some(c) => NextKey(c, k); LessOrder(c, k);
    case None => PrefixFirst(k, prefix);
  }

  /** Between the start and a key with the prefix every key has it. */
  lemma StartTogether(prefix: Key, after: Option<Key>, b: Key, c: Key)
    requires GoodCursor(prefix, after) && !Less(b, Start(prefix, after)) && Less(b, c) && StartsWith(c, prefix)
    ensures StartsWith(b, prefix)
  {
    LessOrder(b, c);
    if after.Some? && !Less(after.value, prefix) {
      NextKey(after.value, b);
      LessOrder(after.value, b);
      LessTrans(prefix, after.value, b);
    }
    PrefixTogether(prefix, b, c, prefix);
  }

  // ----- what a scan returns

  /** The first row from the i-th on that is not before start. */
  function FirstFrom(rows: seq<Key>, start: Key, i: nat): (lo: nat)
    requires i <= |rows|
    ensures i <= lo <= |rows| && (lo < |rows| ==> !Less(rows[lo], start))
    ensures forall j :: i <= j < lo ==> Less(rows[j], start)
    decreases |rows| - i
  {
    if i == |rows| || !Less(rows[i], start) then i else FirstFrom(rows, start, i + 1)
  }

  /** Where the scan begun at lo stops, seen from its i-th row: without the prefix, or once it has found cap keys. */
  function StopFrom(rows: seq<Key>, prefix: Key, cap: Option<nat>, lo: nat, i: nat): (hi: nat)
    requires lo <= i <= |rows|
    ensures i <= hi <= |rows| && forall j :: i <= j < hi ==> StartsWith(rows[j], prefix)
    ensures hi < |rows| && StartsWith(rows[hi], prefix) ==> lo < hi && cap.Some? && cap.value <= hi - lo
    decreases |rows| - i
  {
    if i == |rows| || !StartsWith(rows[i], prefix) || (lo < i && cap.Some? && cap.value <= i - lo) then i
    else StopFrom(rows, prefix, cap, lo, i + 1)
  }

  /** The keys a scan of one table returns. */
  function ScanRows(rows: seq<Key>, prefix: Key, after: Option<Key>, cap: Option<nat>): seq<Key> {
    var lo := FirstFrom(rows, Start(prefix, after), 0);
    rows[lo..StopFrom(rows, prefix, cap, lo, lo)]
  }

  /** A row that is due and was not scanned lies past the stop, and the scan did not stop for want of the prefix. */
  lemma DuePastStop(rows: seq<Key>, prefix: Key, after: Option<Key>, lo: nat, hi: nat, j: nat)
    requires Ascending(rows) && GoodCursor(prefix, after) && lo <= hi <= |rows| && j < |rows| && !(lo <= j < hi)
    requires lo < |rows| ==> !Less(rows[lo], Start(prefix, after))
    requires forall i :: 0 <= i < lo ==> Less(rows[i], Start(prefix, after))
    requires StartsWith(rows[j], prefix) && (after.Some? ==> Less(after.value, rows[j]))
    ensures hi <= j && StartsWith(rows[hi], prefix)
  {
    StartIs(prefix, after, rows[j]);
    if hi < j {
      if lo < hi { LessTrans(rows[lo], rows[hi], Start(prefix, after)); }
      StartTogether(prefix, after, rows[hi], rows[j]);
    }
  }

  lemma ScannedDue(rows: seq<Key>, prefix: Key, after: Option<Key>, lo: nat, j: nat)
    requires Ascending(rows) && lo <= j < |rows| && !Less(rows[lo], Start(prefix, after)) && StartsWith(rows[j], prefix)
    ensures rows[j] in After(Set(rows), prefix, after)
  {
    if lo < j { LessTrans(rows[lo], rows[j], Start(prefix, after)); }
    StartIs(prefix, after, rows[j]);
  }

  /** From a good cursor a scan returns a page. */
  lemma ScanIsPage(rows: seq<Key>, prefix: Key, after: Option<Key>, cap: Option<nat>, limit: nat)
    requires Ascending(rows) && GoodCursor(prefix, after) && (cap.Some? ==> limit <= cap.value)
    ensures IsPage(ScanRows(rows, prefix, after, cap), After(Set(rows), prefix, after), limit)
  {
    var lo := FirstFrom(rows, Start(prefix, after), 0);
    var hi := StopFrom(rows, prefix, cap, lo, lo);
    var out := rows[lo..hi];
    hide StopFrom;
    hide FirstFrom;
    hide GoodCursor;
    hide StartsWith;
    hide Start;
    hide Less;
    forall k | k in out ensures k in After(Set(rows), prefix, after) {
      var j :| lo <= j < hi && rows[j] == k;
      ScannedDue(rows, prefix, after, lo, j);
    }
    forall k | k in After(Set(rows), prefix, after) && k !in out
      ensures |out| >= limit && forall o :: o in out ==> Less(o, k)
    {
      var j :| 0 <= j < |rows| && rows[j] == k;
      NotScanned(rows, lo, hi, j);
      DuePastStop(rows, prefix, after, lo, hi, j);
    }
  }

  /** A row outside a scanned stretch of ascending rows, if past it, is past all of them. */
  lemma NotScanned(rows: seq<Key>, lo: nat, hi: nat, j: nat)
    requires Ascending(rows) && lo <= hi <= |rows| && j < |rows| && rows[j] !in rows[lo..hi]
    ensures !(lo <= j < hi) && (hi <= j ==> forall o :: o in rows[lo..hi] ==> Less(o, rows[j]))
  {
    var out := rows[lo..hi];
    forall i | lo <= i < hi ensures rows[i] in out { assert out[i - lo] == rows[i]; }
    forall o | o in out && hi <= j ensures Less(o, rows[j]) {
      var i :| lo <= i < hi && rows[i] == o;
    }
  }

  /** Scan one table in key order; stop without the prefix, or when cap keys are found. */
  method ScanTable(rows: seq<Key>, prefix: Key, after: Option<Key>, cap: Option<nat>) returns (out: seq<Key>)
    ensures out == ScanRows(rows, prefix, after, cap)
  {
    hide Less;
    hide StartsWith;
    hide Start;
    var lo := 0;
    while lo < |rows| && Less(rows[lo], Start(prefix, after))
      invariant lo <= |rows| && FirstFrom(rows, Start(prefix, after), lo) == FirstFrom(rows, Start(prefix, after), 0)
    {
      lo := lo + 1;
    }
    out := [];
    var hi := lo;
    var full := false;
    while hi < |rows| && !full && StartsWith(rows[hi], prefix)
      invariant lo <= hi <= |rows| && out == rows[lo..hi]
      invariant full <==> lo < hi && cap.Some? && cap.value <= hi - lo
      invariant StopFrom(rows, prefix, cap, lo, hi) == StopFrom(rows, prefix, cap, lo, lo)
    {
      out := out + [rows[hi]];
      hi := hi + 1;
      full := cap.Some? && |out| >= cap.value;
    }
  }

  /** One engine's page: its address rows up to the limit, all its inline rows, in order, without duplicates, cut. */
  function EnginePage(addr: seq<Key>, inlined: seq<Key>, prefix: Key, after: Option<Key>, limit: nat): seq<Key> {
    var a, b := ScanRows(addr, prefix, after, Some(limit)), ScanRows(inlined, prefix, after, None);
    Take(InsertAll(InsertAll([], a), b), limit)
  }

  method EngineList(addr: seq<Key>, inlined: seq<Key>, prefix: Key, after: Option<Key>, limit: nat) returns (out: seq<Key>)
    requires Ascending(addr) && Ascending(inlined)
    ensures out == EnginePage(addr, inlined, prefix, after, limit) && Ascending(out) && |out| <= limit
    ensures GoodCursor(prefix, after) ==> IsFirst(out, After(Set(addr) + Set(inlined), prefix, after), limit)
  {
    var a := ScanTable(addr, prefix, after, Some(limit));
    var b := ScanTable(inlined, prefix, after, None);
    out := Take(InsertAll(InsertAll([], a), b), limit);
    PageAscends(addr, inlined, prefix, after, limit);
    if GoodCursor(prefix, after) { PageIsFirst(addr, inlined, prefix, after, limit); }
  }

  lemma PageAscends(addr: seq<Key>, inlined: seq<Key>, prefix: Key, after: Option<Key>, limit: nat)
    requires Ascending(addr) && Ascending(inlined)
    ensures Ascending(EnginePage(addr, inlined, prefix, after, limit)) && |EnginePage(addr, inlined, prefix, after, limit)| <= limit
  {
    var a, b := ScanRows(addr, prefix, after, Some(limit)), ScanRows(inlined, prefix, after, None);
    InsertAllIs([], a);
    InsertAllIs(InsertAll([], a), b);
    hide InsertAll;
    hide ScanRows;
  }

  lemma PageIsFirst(addr: seq<Key>, inlined: seq<Key>, prefix: Key, after: Option<Key>, limit: nat)
    requires Ascending(addr) && Ascending(inlined) && GoodCursor(prefix, after)
    ensures IsFirst(EnginePage(addr, inlined, prefix, after, limit), After(Set(addr) + Set(inlined), prefix, after), limit)
  {
    var a, b := ScanRows(addr, prefix, after, Some(limit)), ScanRows(inlined, prefix, after, None);
    ScanIsPage(addr, prefix, after, Some(limit), limit);
    ScanIsPage(inlined, prefix, after, None, limit);
    hide ScanRows;
    hide GoodCursor;
    var merged := InsertAll(InsertAll([], a), b);
    InsertAllIs([], a);
    InsertAllIs(InsertAll([], a), b);
    hide InsertAll;
    TakeIsFirst(merged, limit);
    var pages, parts := [a, b], [After(Set(addr), prefix, after), After(Set(inlined), prefix, after)];
    forall k ensures k in merged <==> InPage(pages, k) {
      assert k in a ==> k in pages[0];
      assert k in b ==> k in pages[1];
    }
    forall k ensures k in After(Set(addr) + Set(inlined), prefix, after) <==> InPart(parts, k) {
      assert k in After(Set(addr), prefix, after) ==> k in parts[0];
      assert k in After(Set(inlined), prefix, after) ==> k in parts[1];
    }
    MergedFirst(pages, parts, merged, After(Set(addr) + Set(inlined), prefix, after), limit);
  }

  // ----- which cursors page

  /** Every page of every engine from this cursor is the first keys due. */
  ghost predicate AlwaysPages(prefix: Key, after: Option<Key>) {
    forall addr, inlined, limit: nat :: Ascending(addr) && Ascending(inlined) ==>
      IsFirst(EnginePage(addr, inlined, prefix, after, limit), After(Set(addr) + Set(inlined), prefix, after), limit)
  }

  /** From any other cursor the scan can meet the cursor's successor, stop there, and miss the prefix itself. */
  lemma BadCursor(prefix: Key, cursor: Key)
    requires Less(cursor, prefix) && cursor + [0] != prefix
    ensures var addr := [cursor + [0], prefix];
      && Ascending(addr) && EnginePage(addr, [], prefix, Some(cursor), 1) == []
      && prefix in After(Set(addr) + Set([]), prefix, Some(cursor))
  {
    var start, addr := cursor + [0], [cursor + [0], prefix];
    NextKey(cursor, prefix);
    LessOrder(cursor, prefix);
    LessOrder(start, prefix);
    if StartsWith(start, prefix) { PrefixFirst(start, prefix); }
    LessSelf(start);
    assert prefix in Set(addr) by { assert addr[1] == prefix; }
    assert FirstFrom(addr, start, 0) == 0 && StopFrom(addr, prefix, Some(1), 0, 0) == 0;
    assert ScanRows(addr, prefix, Some(cursor), Some(1)) == [] && ScanRows([], prefix, Some(cursor), None) == [];
    assert InsertAll([], []) == [];
  }

  /** A cursor pages from every engine exactly when it is absent, not before the prefix, or the key just before it. */
  lemma CursorExactly(prefix: Key, after: Option<Key>)
    ensures AlwaysPages(prefix, after) <==> GoodCursor(prefix, after)
  {
    hide EnginePage;
    hide Ascending;
    if GoodCursor(prefix, after) {
      forall addr, inlined, limit: nat | Ascending(addr) && Ascending(inlined)
        ensures IsFirst(EnginePage(addr, inlined, prefix, after, limit), After(Set(addr) + Set(inlined), prefix, after), limit)
      {
        PageIsFirst(addr, inlined, prefix, after, limit);
      }
    } else {
      BadCursor(prefix, after.value);
      var addr: seq<Key>, inlined: seq<Key> := [after.value + [0], prefix], [];
      EmptyAscends();
      assert !IsFirst(EnginePage(addr, inlined, prefix, after, 1), After(Set(addr) + Set(inlined), prefix, after), 1);
    }
  }

  lemma EmptyAscends()
    ensures Ascending([])
  {
  }

  // ----- paged walks

  /** visited lists the keys from the start up to the cursor. */
  ghost predicate Walked(u: set<Key>, prefix: Key, start: Option<Key>, visited: seq<Key>, after: Option<Key>) {
    && Ascending(visited)
    && Set(visited) + After(u, prefix, after) == After(u, prefix, start)
    && Set(visited) !! After(u, prefix, after)
    && (forall v, k :: v in visited && k in After(u, prefix, after) ==> Less(v, k))
  }

  lemma WalkStarts(u: set<Key>, prefix: Key, start: Option<Key>)
    ensures Walked(u, prefix, start, [], start)
  {
  }

  /** The keys left after a page's last are those before it without the page. */
  lemma PageLeaves(u: set<Key>, prefix: Key, after: Option<Key>, page: seq<Key>, batch: nat)
    requires IsFirst(page, After(u, prefix, after), batch) && page != []
    ensures var left := After(u, prefix, Some(page[|page| - 1]));
      && left + Set(page) == After(u, prefix, after) && left !! Set(page) && |left| < |After(u, prefix, after)|
      && forall v, k :: v in page && k in left ==> Less(v, k)
  {
    var rest, last := After(u, prefix, after), page[|page| - 1];
    var left := After(u, prefix, Some(last));
    assert last in page && last in rest;
    hide Less;
    forall k | k in rest ensures k in page || k in left {
      assert k !in page ==> Less(last, k);
    }
    forall k | k in left ensures k in rest && k !in page {
      PastCursor(after, last, k);
      LastOf(page, k);
    }
    assert left + Set(page) == rest;
    SubsetSize(left + {last}, rest);
    forall v, k | v in page && k in left ensures Less(v, k) { BelowLast(page, v, k); }
  }

  /** A page moves the cursor past its keys; if it was short or empty nothing is left. */
  lemma WalkOn(u: set<Key>, prefix: Key, start: Option<Key>, visited: seq<Key>, after: Option<Key>, page: seq<Key>, batch: nat)
    requires Walked(u, prefix, start, visited, after) && IsFirst(page, After(u, prefix, after), batch)
    ensures page != [] ==> Walked(u, prefix, start, visited + page, Some(page[|page| - 1]))
    ensures page != [] ==> |After(u, prefix, Some(page[|page| - 1]))| < |After(u, prefix, after)|
    ensures |page| < batch ==> Ascending(visited + page) && Set(visited + page) == After(u, prefix, start)
    ensures Set(visited + page) == Set(visited) + Set(page)
  {
    hide Less;
    hide Ascending;
    var rest := After(u, prefix, after);
    FirstWhole(page, rest, batch);
    Concatenated(visited, page, rest);
    SetOfBoth(visited, page);
    if page != [] {
      PageLeaves(u, prefix, after, page, batch);
      hide After;
      hide IsFirst;
      hide Set;
      var left := After(u, prefix, Some(page[|page| - 1]));
      MoveSets(Set(visited), Set(page), rest, left);
      forall v, k | v in visited + page && k in left ensures Less(v, k) { assert k in rest; }
    }
  }

  lemma SetOfBoth(a: seq<Key>, b: seq<Key>)
    ensures Set(a + b) == Set(a) + Set(b)
  {
  }

  lemma MoveSets(before: set<Key>, page: set<Key>, rest: set<Key>, left: set<Key>)
    requires before !! rest && left + page == rest && left !! page
    ensures before + page + left == before + rest && before + page !! left
  {
  }

  lemma FirstWhole(page: seq<Key>, s: set<Key>, batch: nat)
    requires IsFirst(page, s, batch)
    ensures Ascending(page) && Set(page) <= s && (|page| < batch ==> Set(page) == s)
  {
    if |page| < batch {
      forall k | k in s ensures k in Set(page) {}
    }
  }

  lemma Concatenated(a: seq<Key>, b: seq<Key>, rest: set<Key>)
    requires Ascending(a) && Ascending(b) && Set(b) <= rest
    requires forall v, k :: v in a && k in rest ==> Less(v, k)
    ensures Ascending(a + b)
  {
    hide Less;
    forall i | 0 <= i < |b| ensures b[i] in rest { assert b[i] in Set(b); }
  }

  lemma PastCursor(after: Option<Key>, last: Key, k: Key)
    requires (after.Some? ==> Less(after.value, last)) && Less(last, k)
    ensures after.Some? ==> Less(after.value, k)
  {
    if after.Some? { LessTrans(after.value, last, k); }
  }

  lemma LastOf(page: seq<Key>, k: Key)
    requires page != [] && Ascending(page) && Less(page[|page| - 1], k)
    ensures k !in page
  {
    LessSelf(k);
    forall i | 0 <= i < |page| ensures page[i] != k { LessOrder(page[i], page[|page| - 1]); }
  }

  lemma BelowLast(page: seq<Key>, v: Key, k: Key)
    requires Ascending(page) && v in page && Less(page[|page| - 1], k)
    ensures Less(v, k)
  {
    LessTrans(v, page[|page| - 1], k);
  }

  // ----- stores

  /** A store: its keys in order and their bodies. */
  datatype Table = Table(keys: seq<Key>, bodies: map<Key, Bytes>) {
    ghost predicate Valid() { Ascending(keys) && forall k :: k in keys <==> k in bodies }
  }

  function Store(t: Table, k: Key, body: Bytes): Table { Table(InsertKey(t.keys, k), t.bodies[k := body]) }

  lemma StoreValid(t: Table, k: Key, body: Bytes)
    requires t.Valid()
    ensures Store(t, k, body).Valid()
  {
    InsertKeyIs(t.keys, k);
  }
}
