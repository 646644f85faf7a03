/** Variable-length integers, seven bits to a byte, lowest first, as the source writes 64-bit and reads 63-bit ones. */
module Varint {
  import opened Bytes

  function Pow128(n: nat): (p: nat)
    ensures p >= 1
  {
    if n == 0 then 1 else 128 * Pow128(n - 1)
  }

  /** Seven-bit groups a reader takes before it reports overflow. */
  const GROUPS: nat := 9

  function Write(x: nat): (b: Bytes)
    ensures 1 <= |b|
  {
    if x < 128 then [x] else [x % 128 + 128] + Write(x / 128)
  }

  /** A value and the position after it, the clean end of the input, or a broken number. */
  datatype Read = Value(x: nat, next: nat) | End | Broken

  /** Continue reading at position i with the given groups already summed into x. */
  function ReadFrom(s: Bytes, i: nat, x: nat, groups: nat): (r: Read)
    ensures r.Value? ==> i < r.next <= |s|
    decreases |s| - i
  {
    if i >= |s| then (if groups == 0 then End else Broken)
    else if groups >= GROUPS then Broken
    else
      var x' := x + s[i] % 128 * Pow128(groups);
      if s[i] < 128 then Value(x', i + 1) else ReadFrom(s, i + 1, x', groups + 1)
  }

  function ReadAt(s: Bytes, i: nat): Read { ReadFrom(s, i, 0, 0) }

  method ReadVarint(s: Bytes, start: nat) returns (r: Read)
    ensures r == ReadAt(s, start)
  {
    var x: nat, groups: nat, i: nat := 0, 0, start;
    while true
      invariant ReadFrom(s, i, x, groups) == ReadAt(s, start)
      decreases |s| - i
    {
      if i >= |s| { return if groups == 0 then End else Broken; }
      if groups >= GROUPS { return Broken; }
      x := x + s[i] % 128 * Pow128(groups);
      if s[i] < 128 { return Value(x, i + 1); }
      i, groups := i + 1, groups + 1;
    }
  }

  method WriteVarint(x0: nat) returns (out: Bytes)
    ensures out == Write(x0)
  {
    out := [];
    var x := x0;
    while x / 128 > 0
      invariant out + Write(x) == Write(x0)
    {
      assert out + ([x % 128 + 128] + Write(x / 128)) == out + [x % 128 + 128] + Write(x / 128);
      out := out + [x % 128 + 128];
      x := x / 128;
    }
    out := out + [x];
  }

  lemma {:induction false} ReadWritten(pre: Bytes, x: nat, post: Bytes, acc: nat, groups: nat)
    requires groups <= GROUPS
    ensures ReadFrom(pre + Write(x) + post, |pre|, acc, groups)
            == if groups < GROUPS && x < Pow128(GROUPS - groups) then Value(acc + x * Pow128(groups), |pre| + |Write(x)|) else Broken
    decreases x
  {
    if groups == GROUPS || x < 128 {
      ReadLast(pre, x, post, acc, groups);
    } else {
      WriteFirst(pre, x, post);
      ReadWritten(pre + [x % 128 + 128], x / 128, post, acc + x % 128 * Pow128(groups), groups + 1);
      ReadOne(pre + Write(x) + post, |pre|, acc, groups);
      PowNext(groups);
      PowNext(GROUPS - groups - 1);
      Smaller(x, Pow128(GROUPS - groups - 1), Pow128(GROUPS - groups));
      Digits(x, Pow128(groups), Pow128(groups + 1));
      hide *;
    }
  }

  lemma ReadLast(pre: Bytes, x: nat, post: Bytes, acc: nat, groups: nat)
    requires groups == GROUPS || (groups < GROUPS && x < 128)
    ensures ReadFrom(pre + Write(x) + post, |pre|, acc, groups)
            == if groups < GROUPS && x < Pow128(GROUPS - groups) then Value(acc + x * Pow128(groups), |pre| + |Write(x)|) else Broken
  {
    if groups < GROUPS {
      WriteShort(pre, x, post);
      ReadEnd(pre + Write(x) + post, |pre|, acc, groups);
      PowNext(GROUPS - groups - 1);
      hide *;
    }
  }

  lemma WriteShort(pre: Bytes, x: nat, post: Bytes)
    requires x < 128
    ensures |pre| < |pre + Write(x) + post| && (pre + Write(x) + post)[|pre|] == x && |Write(x)| == 1
  {
    assert Write(x) == [x];
    hide Write;
  }

  /** Reading the last byte of a number. */
  lemma ReadEnd(s: Bytes, i: nat, x: nat, groups: nat)
    requires i < |s| && groups < GROUPS && s[i] < 128
    ensures ReadFrom(s, i, x, groups) == Value(x + s[i] * Pow128(groups), i + 1)
  {
    assert s[i] % 128 == s[i];
  }

  /** Reading a byte that is not the last of its number. */
  lemma ReadOne(s: Bytes, i: nat, x: nat, groups: nat)
    requires i < |s| && groups < GROUPS && s[i] >= 128
    ensures ReadFrom(s, i, x, groups) == ReadFrom(s, i + 1, x + s[i] % 128 * Pow128(groups), groups + 1)
  {
  }

  lemma WriteFirst(pre: Bytes, x: nat, post: Bytes)
    requires x >= 128
    ensures pre + Write(x) + post == (pre + [x % 128 + 128]) + Write(x / 128) + post
    ensures |pre| < |pre + Write(x) + post| && (pre + Write(x) + post)[|pre|] == x % 128 + 128
    ensures |pre + [x % 128 + 128]| == |pre| + 1 && |Write(x)| == 1 + |Write(x / 128)| && (x % 128 + 128) % 128 == x % 128
  {
    var d: byte := x % 128 + 128;
    assert Write(x) == [d] + Write(x / 128);
    hide Write;
    Join(pre, d, Write(x / 128), post);
    assert (x % 128 + 128) % 128 == x % 128;
  }

  lemma Join(pre: Bytes, d: byte, w: Bytes, post: Bytes)
    ensures pre + ([d] + w) + post == (pre + [d]) + w + post && (pre + ([d] + w) + post)[|pre|] == d
  {
    assert pre + ([d] + w) == (pre + [d]) + w;
  }

  lemma PowNext(n: nat)
    ensures Pow128(n + 1) == 128 * Pow128(n)
  {
  }

  lemma Smaller(x: nat, p: nat, q: nat)
    requires q == 128 * p
    ensures x / 128 < p <==> x < q
  {
  }

  lemma Digits(x: nat, p: nat, q: nat)
    requires q == 128 * p
    ensures x % 128 * p + x / 128 * q == x * p
  {
    var h, l := x / 128, x % 128;
    Distribute(h * 128, l, p);
    assert h * 128 * p == h * q;
    assert x == h * 128 + l;
  }

  lemma Distribute(a: nat, b: nat, p: nat)
    ensures (a + b) * p == a * p + b * p
  {
  }

  /** A written number is read back exactly when it is below 2 to the 63rd; above, the reader reports it broken. */
  lemma RoundTrip(pre: Bytes, x: nat, post: Bytes)
    ensures ReadAt(pre + Write(x) + post, |pre|)
            == if x < 0x8000_0000_0000_0000 then Value(x, |pre| + |Write(x)|) else Broken
  {
    ReadWritten(pre, x, post, 0, 0);
    Pow128Size();
  }

  lemma Pow128Size()
    ensures Pow128(9) == 0x8000_0000_0000_0000
  {
    assert Pow128(3) == 0x20_0000;
    assert Pow128(6) == 0x20_0000 * Pow128(3);
  }
}
