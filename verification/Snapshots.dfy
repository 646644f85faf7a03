/** Snapshot names from seconds since 1970, request dates read back as seconds, and which snapshots retention keeps. */
module Snapshots {
  import opened Bytes
  import opened Order
  import opened Calendar

  /** Text as its character codes. */
  type Text = Bytes

  const DASH: Text := [45]
  const TEE: Text := [84]
  const ZED: Text := [90]

  datatype Stamp = Stamp(date: Date, hour: int, minute: int, second: int)

  function StampOf(secs: nat): Stamp {
    var rem := secs % 86400;
    Stamp(Civil(secs / 86400), rem / 3600, rem % 3600 / 60, rem % 60)
  }

  /** Seconds since 1970 of a request date's fields. */
  function AmzSeconds(t: Stamp): int { AmzDays(t.date) * 86400 + t.hour * 3600 + t.minute * 60 + t.second }

  lemma Clock(rem: nat)
    ensures (rem / 3600) * 3600 + (rem % 3600 / 60) * 60 + rem % 60 == rem
  {
    var r := rem % 3600;
    assert rem == rem / 3600 * 3600 + r && r == r / 60 * 60 + r % 60;
    Quotient(rem, 60, rem / 3600 * 60 + r / 60, r % 60);
  }

  lemma AmzSecondsInvert(secs: nat)
    ensures AmzSeconds(StampOf(secs)) == secs
  {
    hide Civil;
    hide AmzDays;
    AmzInverts(secs / 86400);
    Clock(secs % 86400);
    var day, rem := secs / 86400, secs % 86400;
    assert secs == day * 86400 + rem;
    assert AmzSeconds(StampOf(secs)) == day * 86400 + (rem / 3600) * 3600 + (rem % 3600 / 60) * 60 + rem % 60;
  }

  function Digit(n: nat): byte
    requires n < 10
  {
    48 + n
  }

  /** n in decimal, with zeros in front up to the width; wider numbers keep all their digits. */
  function Padded(n: nat, width: nat): Text
    decreases n + width
  {
    if n < 10 && width <= 1 then [Digit(n)]
    else Padded(n / 10, if width == 0 then 0 else width - 1) + [Digit(n % 10)]
  }

  function Chrono(t: Stamp): Text
    requires t.date.year >= 0 && t.date.month >= 0 && t.date.day >= 0 && t.hour >= 0 && t.minute >= 0 && t.second >= 0
  {
    Padded(t.date.year, 4) + Padded(t.date.month, 2) + Padded(t.date.day, 2) + DASH
    + Padded(t.hour, 2) + Padded(t.minute, 2) + Padded(t.second, 2)
  }

  // ----- numbers as text

  function Pow10(w: nat): (p: nat)
    ensures p >= 1
  {
    if w == 0 then 1 else 10 * Pow10(w - 1)
  }

  lemma {:induction false} PaddedWidth(n: nat, w: nat)
    requires w >= 1 && n < Pow10(w)
    ensures |Padded(n, w)| == w
  {
    if w > 1 { PaddedWidth(n / 10, w - 1); }
  }

  lemma DigitLess(a: nat, b: nat)
    requires a < b < 10
    ensures Less([Digit(a)], [Digit(b)])
  {
    assert [Digit(a)][0] == Digit(a) && [Digit(b)][0] == Digit(b);
  }

  lemma {:induction false} PaddedLess(a: nat, b: nat, w: nat)
    requires w >= 1 && a < b < Pow10(w)
    ensures Less(Padded(a, w), Padded(b, w))
  {
    hide Less;
    hide Digit;
    if w == 1 {
      DigitLess(a, b);
    } else if a / 10 < b / 10 {
      PaddedWidth(a / 10, w - 1);
      PaddedWidth(b / 10, w - 1);
      PaddedLess(a / 10, b / 10, w - 1);
      LessFront(Padded(a / 10, w - 1), Padded(b / 10, w - 1), [Digit(a % 10)], [Digit(b % 10)]);
    } else {
      DigitLess(a % 10, b % 10);
      LessBack(Padded(a / 10, w - 1), [Digit(a % 10)], [Digit(b % 10)]);
    }
  }

  // ----- names sort in time order

  predicate DateLess(a: Date, b: Date) {
    a.year < b.year || (a.year == b.year && (a.month < b.month || (a.month == b.month && a.day < b.day)))
  }

  /** Within the range a conversion yields. */
  predicate Proper(d: Date) { 1970 <= d.year && 1 <= d.month <= 12 && 1 <= d.day <= 31 }

  lemma {:induction false} DatesGrow(n: nat, m: nat)
    requires n < m
    ensures DateLess(Civil(n), Civil(m))
    decreases m - n
  {
    hide Civil;
    CivilStep(m - 1);
    if n < m - 1 { DatesGrow(n, m - 1); }
  }

  lemma {:induction false} DatesProper(n: nat)
    ensures Proper(Civil(n))
  {
    hide Civil;
    if n == 0 {
      CivilStart();
    } else {
      DatesProper(n - 1);
      CivilStep(n - 1);
    }
  }

  predicate Fits(t: Stamp) {
    Proper(t.date) && t.date.year <= 9999 && 0 <= t.hour < 24 && 0 <= t.minute < 60 && 0 <= t.second < 60
  }

  lemma StampsFit(secs: nat)
    ensures Proper(StampOf(secs).date) && (StampOf(secs).date.year <= 9999 ==> Fits(StampOf(secs)))
  {
    hide Civil;
    DatesProper(secs / 86400);
  }

  predicate StampLess(a: Stamp, b: Stamp) {
    DateLess(a.date, b.date)
    || (a.date == b.date && (a.hour < b.hour || (a.hour == b.hour && (a.minute < b.minute || (a.minute == b.minute && a.second < b.second)))))
  }

  lemma StampsGrow(a: nat, b: nat)
    requires a < b
    ensures StampLess(StampOf(a), StampOf(b))
  {
    DaysGrow(a, b);
    if a / 86400 < b / 86400 { DatesGrow(a / 86400, b / 86400); } else { ClockGrows(a % 86400, b % 86400); }
    hide Civil;
    hide DateLess;
  }

  lemma DaysGrow(a: nat, b: nat)
    requires a < b
    ensures a / 86400 < b / 86400 || (a / 86400 == b / 86400 && a % 86400 < b % 86400)
  {
  }

  lemma ClockGrows(a: nat, b: nat)
    requires a < b
    ensures var x, y := a % 3600, b % 3600;
      a / 3600 < b / 3600 || (a / 3600 == b / 3600 && (x / 60 < y / 60 || (x / 60 == y / 60 && a % 60 < b % 60)))
  {
    Clock(a);
    Clock(b);
  }

  /** A fixed-width number followed by more text. */
  function Then(n: nat, w: nat, rest: Text): Text { Padded(n, w) + rest }

  lemma ThenLess(a: nat, b: nat, w: nat, x: Text, y: Text)
    requires w >= 1 && a < Pow10(w) && b < Pow10(w)
    ensures a < b ==> Less(Then(a, w, x), Then(b, w, y))
    ensures a == b && Less(x, y) ==> Less(Then(a, w, x), Then(b, w, y))
  {
    hide Padded;
    hide Less;
    if a < b {
      PaddedLess(a, b, w);
      PaddedWidth(a, w);
      PaddedWidth(b, w);
      LessFront(Padded(a, w), Padded(b, w), x, y);
    } else if a == b && Less(x, y) {
      LessBack(Padded(a, w), x, y);
    }
  }

  function ClockText(t: Stamp): Text
    requires Fits(t)
  {
    Then(t.hour, 2, Then(t.minute, 2, Then(t.second, 2, [])))
  }

  lemma ChronoNested(t: Stamp)
    requires Fits(t)
    ensures Chrono(t) == Then(t.date.year, 4, Then(t.date.month, 2, Then(t.date.day, 2, DASH + ClockText(t))))
  {
    hide Padded;
  }

  lemma Widths()
    ensures Pow10(1) == 10 && Pow10(2) == 100 && Pow10(4) == 10000
  {
    assert Pow10(0) == 1 && Pow10(3) == 10 * Pow10(2);
  }

  lemma ClockLess(a: Stamp, b: Stamp)
    requires Fits(a) && Fits(b)
    requires a.hour < b.hour || (a.hour == b.hour && (a.minute < b.minute || (a.minute == b.minute && a.second < b.second)))
    ensures Less(ClockText(a), ClockText(b))
  {
    hide Less;
    hide Then;
    Widths();
    ThenLess(a.second, b.second, 2, [], []);
    ThenLess(a.minute, b.minute, 2, Then(a.second, 2, []), Then(b.second, 2, []));
    ThenLess(a.hour, b.hour, 2, Then(a.minute, 2, Then(a.second, 2, [])), Then(b.minute, 2, Then(b.second, 2, [])));
  }

  lemma NamesLess(a: Stamp, b: Stamp)
    requires Fits(a) && Fits(b) && StampLess(a, b)
    ensures Less(Chrono(a), Chrono(b))
  {
    hide Less;
    hide Then;
    hide Chrono;
    Widths();
    ChronoNested(a);
    ChronoNested(b);
    if a.date == b.date {
      ClockLess(a, b);
      LessBack(DASH, ClockText(a), ClockText(b));
    }
    var x, y := DASH + ClockText(a), DASH + ClockText(b);
    ThenLess(a.date.day, b.date.day, 2, x, y);
    ThenLess(a.date.month, b.date.month, 2, Then(a.date.day, 2, x), Then(b.date.day, 2, y));
    ThenLess(a.date.year, b.date.year, 4, Then(a.date.month, 2, Then(a.date.day, 2, x)), Then(b.date.month, 2, Then(b.date.day, 2, y)));
  }

  /** The name of a snapshot taken at a time. */
  function Name(secs: nat): Text
  {
    StampsFit(secs);
    Chrono(StampOf(secs))
  }

  /** Up to the year 9999 names are in the order of the times. */
  lemma NamesInTimeOrder(a: nat, b: nat)
    requires StampOf(a).date.year <= 9999 && StampOf(b).date.year <= 9999
    ensures Less(Name(a), Name(b)) <==> a < b
  {
    hide StampOf;
    hide Chrono;
    hide StampLess;
    StampsFit(a);
    StampsFit(b);
    if a < b { StampsGrow(a, b); NamesLess(StampOf(a), StampOf(b)); }
    if b < a { StampsGrow(b, a); NamesLess(StampOf(b), StampOf(a)); }
    LessOrder(Name(a), Name(b));
  }

  // ----- retention

  lemma LessOrders()
    ensures Orders(Less)
  {
    forall a, b ensures !(Less(a, b) && Less(b, a)) { LessOrder(a, b); }
    forall a, b, c | !Less(b, a) && !Less(c, b) ensures !Less(c, a) { LessTrans(a, b, c); }
  }

  datatype Retention = Refused | Kept(kept: nat, deleted: seq<Text>)

  lemma SortedIds(ids: seq<Text>)
    ensures var s := Sort(Less, ids); |s| == |ids| && multiset(s) == multiset(ids) && Sorted(Less, s)
  {
    LessOrders();
    SortKeeps(Less, ids);
    hide *;
    var s := Sort(Less, ids);
    assert |s| == |multiset(s)| && |ids| == |multiset(ids)|;
  }

  /** Delete all but the newest snapshots; remaining lists what is left. */
  method DeleteOld(ids: seq<Text>, keep: nat) returns (r: Retention, remaining: seq<Text>)
    ensures r == Refused <==> keep == 0
    ensures r.Refused? ==> remaining == ids
    ensures r.Kept? ==> r.kept == |remaining| == (if |ids| < keep then |ids| else keep)
    ensures r.Kept? ==> multiset(r.deleted) + multiset(remaining) == multiset(ids)
    ensures r.Kept? ==> forall d, k :: d in r.deleted && k in remaining ==> !Less(k, d)
  {
    if keep < 1 { return Refused, ids; }
    if |ids| <= keep { return Kept(|ids|, []), ids; }
    hide Less;
    hide Sorted;
    hide Sort;
    var sorted := Sort(Less, ids);
    SortedIds(ids);
    var cut := |ids| - keep;
    CutSorted(sorted, cut);
    var deleted := DeleteFirst(sorted, cut);
    hide *;
    remaining := sorted[cut..];
    r := Kept(keep, deleted);
  }

  /** Delete the first snapshots of the list one by one. */
  method DeleteFirst(sorted: seq<Text>, cut: nat) returns (deleted: seq<Text>)
    requires cut <= |sorted|
    ensures deleted == sorted[..cut]
  {
    deleted := [];
    var i := 0;
    while i < cut
      invariant i <= cut && deleted == sorted[..i]
    {
      deleted := deleted + [sorted[i]];
      i := i + 1;
    }
  }

  lemma CutSorted(sorted: seq<Text>, cut: nat)
    requires cut <= |sorted| && Sorted(Less, sorted)
    ensures multiset(sorted[..cut]) + multiset(sorted[cut..]) == multiset(sorted)
    ensures forall d, k :: d in sorted[..cut] && k in sorted[cut..] ==> !Less(k, d)
  {
    hide Less;
    assert sorted == sorted[..cut] + sorted[cut..];
    forall d, k | d in sorted[..cut] && k in sorted[cut..] ensures !Less(k, d) {
      var i :| 0 <= i < cut && sorted[..cut][i] == d;
      var j :| 0 <= j < |sorted| - cut && sorted[cut..][j] == k;
      assert sorted[i] == d && sorted[cut + j] == k;
    }
  }

  /** Of snapshots named by their times, none deleted is newer than one left. */
  lemma NewestKept(times: seq<nat>, ids: seq<Text>, deleted: seq<Text>, remaining: seq<Text>, i: nat, j: nat)
    requires |ids| == |times| && i < |ids| && j < |ids|
    requires forall t :: 0 <= t < |ids| ==> ids[t] == Name(times[t]) && StampOf(times[t]).date.year <= 9999
    requires forall d, k :: d in deleted && k in remaining ==> !Less(k, d)
    ensures ids[i] in deleted && ids[j] in remaining ==> times[i] <= times[j]
  {
    hide StampOf;
    hide Name;
    NamesInTimeOrder(times[j], times[i]);
  }

  const LAST_SECOND: nat := 253402300799

  /** The first name with five year digits sorts before the last with four. */
  lemma YearTenThousand()
    ensures StampOf(LAST_SECOND) == Stamp(Date(9999, 12, 31), 23, 59, 59)
    ensures StampOf(LAST_SECOND + 1) == Stamp(Date(10000, 1, 1), 0, 0, 0)
    ensures Less(Name(LAST_SECOND + 1), Name(LAST_SECOND))
  {
    LastDays();
    Quotient(LAST_SECOND, 86400, 2932896, 86399);
    Quotient(LAST_SECOND + 1, 86400, 2932897, 0);
    hide Civil;
    assert StampOf(LAST_SECOND) == Stamp(Date(9999, 12, 31), 23, 59, 59);
    assert StampOf(LAST_SECOND + 1) == Stamp(Date(10000, 1, 1), 0, 0, 0);
    YearDigits();
    hide Padded;
    assert Name(LAST_SECOND)[0] == 57 && Name(LAST_SECOND + 1)[0] == 49;
  }

  lemma YearDigits()
    ensures |Padded(10000, 4)| > 0 && Padded(10000, 4)[0] == 49 && |Padded(9999, 4)| > 0 && Padded(9999, 4)[0] == 57
  {
    assert Padded(10, 2) == [49, 48] && Padded(100, 3) == [49, 48, 48] && Padded(1000, 3) == [49, 48, 48, 48];
    assert Padded(10000, 4) == [49, 48, 48, 48, 48];
    assert Padded(9, 1) == [57] && Padded(99, 2) == [57, 57] && Padded(999, 3) == [57, 57, 57];
    assert Padded(9999, 4) == [57, 57, 57, 57];
  }

  /** The names of all seconds up to n are in the order of the times exactly when n is no later than the year 9999. */
  lemma OrderedUntil(n: nat)
    ensures (forall a: nat, b: nat :: a < b <= n ==> Less(Name(a), Name(b))) <==> n <= LAST_SECOND
  {
    YearTenThousand();
    hide StampOf;
    hide Name;
    if n <= LAST_SECOND {
      forall a: nat, b: nat | a < b <= n ensures Less(Name(a), Name(b)) {
        StampsStay(a);
        StampsStay(b);
        NamesInTimeOrder(a, b);
      }
    } else {
      LessOrder(Name(LAST_SECOND), Name(LAST_SECOND + 1));
    }
  }

  lemma StampsStay(b: nat)
    requires b <= LAST_SECOND
    ensures StampOf(b).date.year <= 9999
  {
    YearTenThousand();
    hide StampOf;
    if b < LAST_SECOND { StampsGrow(b, LAST_SECOND); }
  }

  lemma LastDays()
    ensures Civil(2932896) == Date(9999, 12, 31) && Civil(2932897) == Date(10000, 1, 1)
  {
    assert YearStart(399) == 145731 && YearLength(399) == 366;
    PartsCivil(2932896, 24, 399, 305);
    PartsCivil(2932897, 24, 399, 306);
    assert MarchDate(9999, 305) == Date(9999, 12, 31) && MarchDate(9999, 306) == Date(10000, 1, 1);
  }

  // ----- request dates as text

  function DigitOf(c: byte): Option<nat> { if 48 <= c <= 57 then Some(c - 48) else None }

  function Decimal(s: Text): Option<nat> {
    if s == [] then Some(0)
    else match (Decimal(s[..|s| - 1]), DigitOf(s[|s| - 1]))
      case (Some(n), Some(d)) => Some(10 * n + d)
      case _ => None
  }

  /** A number as the source's integer parser reads it: an optional sign and at least one digit. */
  function ParseNum(s: Text): Option<int> {
    var digits := if s != [] && (s[0] == 43 || s[0] == 45) then s[1..] else s;
    if digits == [] then None
    else match Decimal(digits)
      case Some(n) =>
        var value: int := if s[0] == 45 then 0 - n else n;
        Some(value)
      case None => None
  }

  /** Seconds since 1970 of a request date; the fields are not checked against their ranges. */
  function ParseAmz(s: Text): Option<int> {
    if |s| != 16 || s[15] != ZED[0] || s[8] != TEE[0] then None
    else match (ParseNum(s[0..4]), ParseNum(s[4..6]), ParseNum(s[6..8]), ParseNum(s[9..11]), ParseNum(s[11..13]), ParseNum(s[13..15]))
      case (Some(y), Some(mo), Some(d), Some(h), Some(mi), Some(sec)) => Some(AmzSeconds(Stamp(Date(y, mo, d), h, mi, sec)))
      case _ => None
  }

  /** An optional sign and at least one digit. */
  predicate Numeric(s: Text) {
    var digits := if s != [] && (s[0] == 43 || s[0] == 45) then s[1..] else s;
    digits != [] && AllDigits(digits)
  }

  predicate AllDigits(s: Text) { forall i :: 0 <= i < |s| ==> 48 <= s[i] <= 57 }

  lemma {:induction false} DecimalDigits(s: Text)
    ensures Decimal(s).Some? <==> AllDigits(s)
  {
    if s != [] {
      var n := |s| - 1;
      DecimalDigits(s[..n]);
      assert s == s[..n] + [s[n]];
      assert AllDigits(s) <==> AllDigits(s[..n]) && 48 <= s[n] <= 57;
    }
  }

  lemma NumericParses(s: Text)
    ensures ParseNum(s).Some? <==> Numeric(s)
  {
    DecimalDigits(if s != [] && (s[0] == 43 || s[0] == 45) then s[1..] else s);
  }

  /** Signs are read as such. */
  lemma SignedParses(n: nat, w: nat)
    ensures ParseNum([45] + Padded(n, w)) == Some(0 - n) && ParseNum([43] + Padded(n, w)) == Some(n)
  {
    PaddedDecimal(n, w);
    assert ([45] + Padded(n, w))[1..] == Padded(n, w) && ([43] + Padded(n, w))[1..] == Padded(n, w);
  }

  /** A request date is accepted exactly when it has the separators in place and six numbers between them. */
  lemma AmzAccepts(s: Text)
    ensures ParseAmz(s).Some?
      <==> && |s| == 16 && s[8..9] == TEE && s[15..16] == ZED
           && Numeric(s[0..4]) && Numeric(s[4..6]) && Numeric(s[6..8]) && Numeric(s[9..11]) && Numeric(s[11..13]) && Numeric(s[13..15])
  {
    if |s| == 16 {
      NumericParses(s[0..4]);
      NumericParses(s[4..6]);
      NumericParses(s[6..8]);
      NumericParses(s[9..11]);
      NumericParses(s[11..13]);
      NumericParses(s[13..15]);
      hide ParseNum;
      hide Numeric;
      assert s[8..9] == [s[8]] && s[15..16] == [s[15]] && TEE == [TEE[0]] && ZED == [ZED[0]];
    }
  }

  function AmzText(t: Stamp): Text
    requires Fits(t)
  {
    Padded(t.date.year, 4) + Padded(t.date.month, 2) + Padded(t.date.day, 2) + TEE
    + Padded(t.hour, 2) + Padded(t.minute, 2) + Padded(t.second, 2) + ZED
  }

  lemma DigitBack(n: nat)
    requires n < 10
    ensures DigitOf(Digit(n)) == Some(n)
  {
  }

  lemma DecimalPush(s: Text, c: byte)
    requires Decimal(s).Some? && DigitOf(c).Some?
    ensures Decimal(s + [c]) == Some(10 * Decimal(s).value + DigitOf(c).value)
  {
    assert (s + [c])[..|s|] == s;
  }

  lemma OneDigit(n: nat)
    requires n < 10
    ensures Decimal([Digit(n)]) == Some(n) && DigitOf(Digit(n)).Some?
  {
    DigitBack(n);
    DecimalPush([], Digit(n));
    assert [] + [Digit(n)] == [Digit(n)];
  }

  lemma {:induction false} PaddedDecimal(n: nat, w: nat)
    ensures Decimal(Padded(n, w)) == Some(n) && Padded(n, w) != [] && DigitOf(Padded(n, w)[0]).Some?
    decreases n + w
  {
    hide Digit;
    hide DigitOf;
    hide Decimal;
    if n < 10 && w <= 1 {
      OneDigit(n);
    } else {
      var w' := if w == 0 then 0 else w - 1;
      PaddedDecimal(n / 10, w');
      DigitBack(n % 10);
      var front := Padded(n / 10, w');
      DecimalPush(front, Digit(n % 10));
      assert Padded(n, w) == front + [Digit(n % 10)];
      hide Padded;
    }
  }

  lemma PaddedParses(n: nat, w: nat)
    ensures ParseNum(Padded(n, w)) == Some(n)
  {
    PaddedDecimal(n, w);
    hide Padded;
    hide Decimal;
  }

  lemma Three(a: Text, b: Text, c: Text)
    ensures var w := a + b + c; w[0..|a|] == a && w[|a|..|a| + |b|] == b && w[|a| + |b|..|w|] == c
  {
  }

  lemma Inner(pre: Text, w: Text, post: Text, i: nat, j: nat)
    requires i <= j <= |w|
    ensures (pre + w + post)[|pre| + i..|pre| + j] == w[i..j]
  {
  }

  lemma Halves(y: Text, mo: Text, d: Text, h: Text, mi: Text, sec: Text)
    ensures y + mo + d + TEE + h + mi + sec + ZED == (y + mo + d + TEE) + (h + mi + sec) + ZED
    ensures y + mo + d + TEE + h + mi + sec + ZED == [] + (y + mo + d) + (TEE + h + mi + sec + ZED)
  {
    assert (y + mo + d + TEE) + h + mi + sec == (y + mo + d + TEE) + (h + mi + sec);
    var date := y + mo + d;
    assert date + TEE + h + mi + sec + ZED == date + (TEE + h + mi + sec + ZED);
  }

  lemma Fields(y: Text, mo: Text, d: Text, h: Text, mi: Text, sec: Text)
    requires |y| == 4 && |mo| == |d| == |h| == |mi| == |sec| == 2
    ensures var s := y + mo + d + TEE + h + mi + sec + ZED;
      && |s| == 16 && s[15] == ZED[0] && s[8] == TEE[0] && s[0..4] == y && s[4..6] == mo && s[6..8] == d
      && s[9..11] == h && s[11..13] == mi && s[13..15] == sec
  {
    Halves(y, mo, d, h, mi, sec);
    var date, clock, rest := y + mo + d, h + mi + sec, TEE + h + mi + sec + ZED;
    Three(y, mo, d);
    Inner([], date, rest, 0, 4);
    Inner([], date, rest, 4, 6);
    Inner([], date, rest, 6, 8);
    Three(h, mi, sec);
    Inner(date + TEE, clock, ZED, 0, 2);
    Inner(date + TEE, clock, ZED, 2, 4);
    Inner(date + TEE, clock, ZED, 4, 6);
  }

  lemma AmzSlices(t: Stamp)
    requires Fits(t)
    ensures var s := AmzText(t);
      && |s| == 16 && s[15] == ZED[0] && s[8] == TEE[0] && s[0..4] == Padded(t.date.year, 4) && s[4..6] == Padded(t.date.month, 2)
      && s[6..8] == Padded(t.date.day, 2) && s[9..11] == Padded(t.hour, 2) && s[11..13] == Padded(t.minute, 2) && s[13..15] == Padded(t.second, 2)
  {
    Widths();
    PaddedWidth(t.date.year, 4);
    PaddedWidth(t.date.month, 2);
    PaddedWidth(t.date.day, 2);
    PaddedWidth(t.hour, 2);
    PaddedWidth(t.minute, 2);
    PaddedWidth(t.second, 2);
    hide Padded;
    Fields(Padded(t.date.year, 4), Padded(t.date.month, 2), Padded(t.date.day, 2),
           Padded(t.hour, 2), Padded(t.minute, 2), Padded(t.second, 2));
  }

  /** The text of any second up to the year 9999 is read back as that second. */
  lemma AmzRoundTrip(secs: nat)
    requires StampOf(secs).date.year <= 9999
    ensures Fits(StampOf(secs)) && ParseAmz(AmzText(StampOf(secs))) == Some(secs)
  {
    StampsFit(secs);
    hide StampOf;
    hide AmzText;
    hide ParseNum;
    hide AmzSeconds;
    var t := StampOf(secs);
    AmzSlices(t);
    PaddedParses(t.date.year, 4);
    PaddedParses(t.date.month, 2);
    PaddedParses(t.date.day, 2);
    PaddedParses(t.hour, 2);
    PaddedParses(t.minute, 2);
    PaddedParses(t.second, 2);
    AmzSecondsInvert(secs);
  }
}
