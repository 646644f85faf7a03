/** Unpadded base-32 text as the source's bit accumulator produces and reads it; section 6 of RFC 4648 is its alphabet. */
module Base32 {
  import opened Bytes

  /** n shifted left and right by k bits, and its low w bits. */
  function Shl(n: nat, k: nat): nat { if k == 0 then n else 2 * Shl(n, k - 1) }
  function Shr(n: nat, k: nat): nat { if k == 0 then n else Shr(n / 2, k - 1) }
  function Low(n: nat, w: nat): (l: nat)
    ensures l < Pow2(w)
  {
    if w == 0 then 0 else 2 * Low(n / 2, w - 1) + n % 2
  }

  /** The low w bits of n, most significant first. */
  function Bits(n: nat, w: nat): (b: seq<bool>)
    ensures |b| == w
  {
    if w == 0 then [] else Bits(n / 2, w - 1) + [n % 2 == 1]
  }

  /** The accumulator takes in a field of a width: a 64-bit shift drops what leaves at the top. */
  function Push(buf: nat, width: nat, x: nat): nat { Low(Shl(buf, width), 64) + x }

  /** The field of a width at a distance from the accumulator's low end. */
  function Field(buf: nat, at: nat, width: nat): (f: nat)
    ensures f < Pow2(width)
  {
    Low(Shr(buf, at), width)
  }

  // ----- bit strings

  lemma {:induction false} BitsLow(n: nat, v: nat, w: nat)
    requires w <= v
    ensures Bits(Low(n, v), w) == Bits(n, w)
  {
    if w > 0 { BitsLow(n / 2, v - 1, w - 1); }
  }

  lemma {:induction false} BitsSplit(n: nat, a: nat, b: nat)
    ensures Bits(n, a + b) == Bits(Shr(n, b), a) + Bits(n, b)
  {
    if b > 0 { BitsSplit(n / 2, a, b - 1); }
  }

  lemma {:induction false} LowAdd(buf: nat, width: nat, x: nat, v: nat)
    requires x < Pow2(width) && width <= v
    ensures Low(Shl(buf, width), v) + x == Low(Shl(buf, width) + x, v)
  {
    hide Low;
    if width > 0 {
      LowAdd(buf, width - 1, x / 2, v - 1);
      var h := Shl(buf, width - 1);
      Halve(h, x);
      LowHalf(2 * h + x, v);
      LowHalf(2 * h, v);
    }
  }

  lemma LowHalf(n: nat, v: nat)
    requires v > 0
    ensures Low(n, v) == 2 * Low(n / 2, v - 1) + n % 2
  {
  }

  lemma Halve(h: nat, x: nat)
    ensures (2 * h + x) / 2 == h + x / 2 && (2 * h + x) % 2 == x % 2 && 2 * h / 2 == h && 2 * h % 2 == 0
  {
  }

  lemma {:induction false} ShlBits(buf: nat, bits: nat, width: nat, x: nat)
    requires x < Pow2(width)
    ensures Bits(Shl(buf, width) + x, bits + width) == Bits(buf, bits) + Bits(x, width)
  {
    if width > 0 {
      ShlBits(buf, bits, width - 1, x / 2);
      assert (Shl(buf, width) + x) / 2 == Shl(buf, width - 1) + x / 2;
    }
  }

  /** Taking in x appends its bits to the pending ones. */
  lemma PushBits(buf: nat, bits: nat, width: nat, x: nat)
    requires x < Pow2(width) && bits + width <= 64
    ensures Bits(Push(buf, width, x), bits + width) == Bits(buf, bits) + Bits(x, width)
  {
    LowAdd(buf, width, x, 64);
    BitsLow(Shl(buf, width) + x, 64, bits + width);
    ShlBits(buf, bits, width, x);
    hide Low;
    hide Shl;
    hide Bits;
    hide Pow2;
  }

  /** A field taken above the low bits is their front. */
  lemma FieldBits(buf: nat, at: nat, width: nat)
    ensures Bits(buf, width + at) == Bits(Field(buf, at, width), width) + Bits(buf, at)
  {
    BitsSplit(buf, width, at);
    BitsLow(Shr(buf, at), width, width);
  }

  function Zeros(n: nat): (z: seq<bool>)
    ensures |z| == n
  {
    if n == 0 then [] else Zeros(n - 1) + [false]
  }

  lemma {:induction false} ZeroBits(w: nat)
    ensures Bits(0, w) == Zeros(w)
  {
    if w > 0 { ZeroBits(w - 1); }
  }

  lemma {:induction false} BitsEqual(a: nat, b: nat, w: nat)
    requires a < Pow2(w) && b < Pow2(w) && Bits(a, w) == Bits(b, w)
    ensures a == b
  {
    if w > 0 {
      assert Bits(a, w)[w - 1] == (a % 2 == 1) && Bits(b, w)[w - 1] == (b % 2 == 1);
      assert Bits(a, w)[..w - 1] == Bits(a / 2, w - 1) && Bits(b, w)[..w - 1] == Bits(b / 2, w - 1);
      BitsEqual(a / 2, b / 2, w - 1);
    }
  }

  /** The bits of numbers of one width, from the i-th on. */
  function AllBits(xs: seq<nat>, w: nat, i: nat): (b: seq<bool>)
    requires i <= |xs|
    decreases |xs| - i
  {
    if i == |xs| then [] else Bits(xs[i], w) + AllBits(xs, w, i + 1)
  }

  lemma {:induction false} OctetCount(xs: seq<nat>, i: nat)
    requires i <= |xs|
    ensures |AllBits(xs, 8, i)| == 8 * (|xs| - i)
    decreases |xs| - i
  {
    if i < |xs| { OctetCount(xs, i + 1); }
  }

  lemma Assoc(a: seq<bool>, b: seq<bool>, c: seq<bool>)
    ensures a + b + c == a + (b + c)
  {
  }

  lemma {:induction false} AllBitsTail(xs: seq<nat>, w: nat, i: nat, k: nat)
    requires k <= i <= |xs|
    ensures AllBits(xs, w, i) == AllBits(xs[k..], w, i - k)
    decreases |xs| - i
  {
    hide Bits;
    if i < |xs| {
      AllBitsTail(xs, w, i + 1, k);
      assert xs[k..][i - k] == xs[i];
    }
  }

  lemma AllBitsCons(x: nat, xs: seq<nat>, w: nat)
    ensures AllBits([x] + xs, w, 0) == Bits(x, w) + AllBits(xs, w, 0)
  {
    AllBitsTail([x] + xs, w, 1, 1);
    assert ([x] + xs)[1..] == xs;
  }

  // ----- encoding

  /** The digits the accumulator yields while five bits are pending. */
  function Emitted(buf: nat, bits: nat): (d: seq<nat>)
    ensures forall k :: 0 <= k < |d| ==> d[k] < 32
  {
    if bits < 5 then [] else
    assert Pow2(5) == 32;
    [Field(buf, bits - 5, 5)] + Emitted(buf, bits - 5)
  }

  /** The digits of the data from the i-th byte on; a last partial digit is filled with zeros. */
  function DigitsFrom(data: Bytes, i: nat, buf: nat, bits: nat): (d: seq<nat>)
    requires i <= |data| && bits < 5
    ensures forall k :: 0 <= k < |d| ==> d[k] < 32
    decreases |data| - i
  {
    if i == |data| then
      assert Pow2(5) == 32;
      if bits > 0 then [Low(Shl(buf, 5 - bits), 5)] else []
    else
      var b := Push(buf, 8, data[i]);
      Emitted(b, bits + 8) + DigitsFrom(data, i + 1, b, (bits + 8) % 5)
  }

  function Symbol(d: nat): byte
    requires d < 32
  {
    if d < 26 then 65 + d else 50 + d - 26
  }

  function Symbols(d: seq<nat>): (s: Bytes)
    requires forall k :: 0 <= k < |d| ==> d[k] < 32
    ensures |s| == |d| && forall k :: 0 <= k < |d| ==> s[k] == Symbol(d[k])
  {
    seq(|d|, k requires 0 <= k < |d| => Symbol(d[k]))
  }

  function Encode(data: Bytes): Bytes { Symbols(DigitsFrom(data, 0, 0, 0)) }

  function Widen(data: Bytes): (xs: seq<nat>)
    ensures |xs| == |data| && forall i :: 0 <= i < |xs| ==> xs[i] == data[i]
  {
    seq(|data|, i requires 0 <= i < |data| => data[i])
  }

  lemma {:induction false} EmittedBits(buf: nat, bits: nat)
    ensures Bits(buf, bits) == AllBits(Emitted(buf, bits), 5, 0) + Bits(buf, bits % 5)
  {
    hide Bits;
    hide Field;
    if bits >= 5 {
      var f, rest := Field(buf, bits - 5, 5), Emitted(buf, bits - 5);
      FieldBits(buf, bits - 5, 5);
      EmittedBits(buf, bits - 5);
      AllBitsCons(f, rest, 5);
      hide AllBits;
      Assoc(Bits(f, 5), AllBits(rest, 5, 0), Bits(buf, bits % 5));
      assert (bits - 5) % 5 == bits % 5;
    } else {
      assert AllBits([], 5, 0) == [];
    }
  }

  lemma {:induction false} AllBitsJoin(a: seq<nat>, b: seq<nat>, w: nat)
    ensures AllBits(a + b, w, 0) == AllBits(a, w, 0) + AllBits(b, w, 0)
  {
    hide Bits;
    if a == [] {
      assert a + b == b && AllBits(a, w, 0) == [];
    } else {
      AllBitsJoin(a[1..], b, w);
      AllBitsCons(a[0], a[1..], w);
      AllBitsCons(a[0], a[1..] + b, w);
      hide AllBits;
      assert [a[0]] + a[1..] == a && [a[0]] + (a[1..] + b) == a + b;
      Assoc(Bits(a[0], w), AllBits(a[1..], w, 0), AllBits(b, w, 0));
    }
  }

  lemma OctetBound(b: byte)
    ensures b < Pow2(8)
  {
    assert Pow2(4) == 16;
  }

  lemma LastDigit(buf: nat, bits: nat)
    requires 0 < bits < 5
    ensures AllBits([Low(Shl(buf, 5 - bits), 5)], 5, 0) == Bits(buf, bits) + Zeros(5 - bits)
  {
    hide *;
    var k: nat := 5 - bits;
    var x := Low(Shl(buf, k), 5);
    BitsLow(Shl(buf, k), 5, 5);
    ShlBits(buf, bits, k, 0);
    ZeroBits(k);
    OneOf(x, 5);
  }

  lemma OneOf(x: nat, w: nat)
    ensures AllBits([x], w, 0) == Bits(x, w)
  {
    hide Bits;
    assert AllBits([x], w, 1) == [];
    assert AllBits([x], w, 0) == Bits(x, w) + AllBits([x], w, 1);
  }

  /** The digits carry exactly the pending bits and the data's, followed by fewer than five zeros. */
  lemma {:induction false} DigitsCarry(data: Bytes, i: nat, buf: nat, bits: nat) returns (pad: nat)
    requires i <= |data| && bits < 5
    ensures pad < 5
    ensures AllBits(DigitsFrom(data, i, buf, bits), 5, 0) == Bits(buf, bits) + AllBits(Widen(data), 8, i) + Zeros(pad)
    decreases |data| - i
  {
    hide Push;
    if i == |data| {
      pad := if bits > 0 then 5 - bits else 0;
      assert AllBits(Widen(data), 8, i) == [] && Zeros(0) == [];
      if bits > 0 { LastDigit(buf, bits); } else { assert AllBits([], 5, 0) == [] && Bits(buf, 0) == []; }
    } else {
      var b := Push(buf, 8, data[i]);
      var left := (bits + 8) % 5;
      pad := DigitsCarry(data, i + 1, b, left);
      OctetBound(data[i]);
      PushBits(buf, bits, 8, data[i]);
      EmittedBits(b, bits + 8);
      var e, d := Emitted(b, bits + 8), DigitsFrom(data, i + 1, b, left);
      AllBitsJoin(e, d, 5);
      assert DigitsFrom(data, i, buf, bits) == e + d;
      assert AllBits(Widen(data), 8, i) == Bits(data[i], 8) + AllBits(Widen(data), 8, i + 1);
      hide *;
      Regroup(AllBits(e, 5, 0), Bits(b, left), AllBits(Widen(data), 8, i + 1), Zeros(pad), Bits(buf, bits), Bits(data[i], 8));
    }
  }

  lemma Regroup(e: seq<bool>, l: seq<bool>, rest: seq<bool>, z: seq<bool>, p: seq<bool>, x: seq<bool>)
    requires e + l == p + x
    ensures e + (l + rest + z) == p + (x + rest) + z
  {
    assert e + (l + rest + z) == (e + l) + rest + z;
    assert p + (x + rest) + z == (p + x) + rest + z;
  }

  // ----- decoding

  function Value(c: byte): Option<nat> {
    if 65 <= c <= 90 then Some(c - 65) else if 50 <= c <= 55 then Some(c - 50 + 26) else None
  }

  /** The bytes of the text from the i-th symbol on; leftover bits are dropped. */
  function DecodeFrom(s: Bytes, i: nat, buf: nat, bits: nat): Option<Bytes>
    requires i <= |s| && bits < 8
    decreases |s| - i
  {
    if i == |s| then Some([])
    else match Value(s[i])
      case None => None
      case Some(v) =>
        var b := Push(buf, 5, v);
        if bits + 5 >= 8 then
          assert Pow2(8) == 256 by { assert Pow2(4) == 16; }
          match DecodeFrom(s, i + 1, b, bits + 5 - 8)
          case Some(rest) => Some([Field(b, bits + 5 - 8, 8)] + rest)
          case None => None
        else DecodeFrom(s, i + 1, b, bits + 5)
  }

  function Decode(s: Bytes): Option<Bytes> { DecodeFrom(s, 0, 0, 0) }

  lemma SymbolValue(d: nat)
    requires d < 32
    ensures Value(Symbol(d)) == Some(d)
  {
  }

  /** A character has a value exactly when it is that digit's symbol. */
  lemma ValueExact(c: byte, v: nat)
    ensures Value(c) == Some(v) <==> v < 32 && Symbol(v) == c
  {
  }

  lemma {:induction false} DecodesValues(s: Bytes, i: nat, buf: nat, bits: nat)
    requires i <= |s| && bits < 8
    ensures DecodeFrom(s, i, buf, bits).Some? <==> forall k :: i <= k < |s| ==> Value(s[k]).Some?
    decreases |s| - i
  {
    hide Value;
    hide Push;
    if i < |s| && Value(s[i]).Some? {
      var b := Push(buf, 5, Value(s[i]).value);
      if bits + 5 >= 8 { DecodesValues(s, i + 1, b, bits + 5 - 8); } else { DecodesValues(s, i + 1, b, bits + 5); }
    }
  }

  /** A text decodes exactly when it is the symbols of some digits; the bytes are then the bits of those. */
  lemma DecodeExact(s: Bytes)
    ensures Decode(s).Some? <==> exists d: seq<nat> :: (forall k :: 0 <= k < |d| ==> d[k] < 32) && s == Symbols(d)
  {
    DecodesValues(s, 0, 0, 0);
    if Decode(s).Some? {
      var d := seq(|s|, k requires 0 <= k < |s| => Value(s[k]).value);
      forall k | 0 <= k < |s| ensures d[k] < 32 && Symbol(d[k]) == s[k] { ValueExact(s[k], d[k]); }
      hide Value;
      hide Symbol;
      assert s == Symbols(d);
    }
    if d: seq<nat> :| (forall k :: 0 <= k < |d| ==> d[k] < 32) && s == Symbols(d) {
      forall k | 0 <= k < |s| ensures Value(s[k]).Some? { SymbolValue(d[k]); }
    }
  }

  /** Decoding symbols recovers the bits of their digits, but for fewer than eight left over. */
  lemma {:induction false} DecodeCarries(d: seq<nat>, i: nat, buf: nat, bits: nat) returns (rest: seq<bool>)
    requires (forall k :: 0 <= k < |d| ==> d[k] < 32) && i <= |d| && bits < 8
    ensures DecodeFrom(Symbols(d), i, buf, bits).Some? && |rest| < 8
    ensures Bits(buf, bits) + AllBits(d, 5, i) == AllBits(Widen(DecodeFrom(Symbols(d), i, buf, bits).value), 8, 0) + rest
    decreases |d| - i
  {
    hide Push;
    hide Bits;
    hide Value;
    hide Symbol;
    hide Field;
    if i == |d| {
      rest := Bits(buf, bits);
      assert AllBits(d, 5, i) == [] && AllBits(Widen([]), 8, 0) == [];
    } else {
      SymbolValue(d[i]);
      var b := Push(buf, 5, d[i]);
      assert Pow2(5) == 32;
      PushBits(buf, bits, 5, d[i]);
      assert AllBits(d, 5, i) == Bits(d[i], 5) + AllBits(d, 5, i + 1);
      Assoc(Bits(buf, bits), Bits(d[i], 5), AllBits(d, 5, i + 1));
      if bits + 5 >= 8 {
        var left: nat := bits + 5 - 8;
        rest := DecodeCarries(d, i + 1, b, left);
        var out := DecodeFrom(Symbols(d), i + 1, b, left).value;
        FieldBits(b, left, 8);
        OctetField(b, left);
        var f: byte := Field(b, left, 8);
        AllBitsCons(f, Widen(out), 8);
        assert Widen([f] + out) == [f] + Widen(out);
        Assoc(Bits(f, 8), Bits(b, left), AllBits(d, 5, i + 1));
        Assoc(Bits(f, 8), AllBits(Widen(out), 8, 0), rest);
        assert DecodeFrom(Symbols(d), i, buf, bits) == Some([f] + out);
      } else {
        rest := DecodeCarries(d, i + 1, b, bits + 5);
      }
    }
  }

  lemma OctetField(b: nat, at: nat)
    ensures Field(b, at, 8) < 256
  {
    assert Pow2(8) == 256 by { assert Pow2(4) == 16; }
  }

  lemma {:induction false} SameBytes(a: Bytes, b: Bytes)
    requires |a| == |b| && AllBits(Widen(a), 8, 0) == AllBits(Widen(b), 8, 0)
    ensures a == b
  {
    if a != [] {
      assert Widen(a) == [Widen(a)[0]] + Widen(a[1..]) && Widen(b) == [Widen(b)[0]] + Widen(b[1..]);
      AllBitsCons(Widen(a)[0], Widen(a[1..]), 8);
      AllBitsCons(Widen(b)[0], Widen(b[1..]), 8);
      assert AllBits(Widen(a), 8, 0)[..8] == Bits(a[0], 8) && AllBits(Widen(b), 8, 0)[..8] == Bits(b[0], 8);
      assert AllBits(Widen(a), 8, 0)[8..] == AllBits(Widen(a[1..]), 8, 0) && AllBits(Widen(b), 8, 0)[8..] == AllBits(Widen(b[1..]), 8, 0);
      assert Pow2(8) == 256 by { assert Pow2(4) == 16; }
      BitsEqual(a[0], b[0], 8);
      SameBytes(a[1..], b[1..]);
    }
  }

  lemma SameLength(x: seq<bool>, rest: seq<bool>, y: seq<bool>, z: seq<bool>, n: nat, m: nat)
    requires x + rest == y + z && |x| == 8 * n && |y| == 8 * m && |rest| < 8 && |z| < 8
    ensures n == m && x == y
  {
    assert |x + rest| == |y + z|;
    assert (x + rest)[..|x|] == x && (y + z)[..|y|] == y;
  }

  /** Decoding undoes encoding, for every byte string. */
  lemma RoundTrip(data: Bytes)
    ensures Decode(Encode(data)) == Some(data)
  {
    hide AllBits;
    hide DigitsFrom;
    hide DecodeFrom;
    var d := DigitsFrom(data, 0, 0, 0);
    var pad := DigitsCarry(data, 0, 0, 0);
    var rest := DecodeCarries(d, 0, 0, 0);
    var out := Decode(Encode(data)).value;
    var x, y := AllBits(Widen(out), 8, 0), AllBits(Widen(data), 8, 0);
    assert Bits(0, 0) == [] && [] + y == y && [] + AllBits(d, 5, 0) == AllBits(d, 5, 0);
    OctetCount(Widen(out), 0);
    OctetCount(Widen(data), 0);
    SameLength(x, rest, y, Zeros(pad), |out|, |data|);
    SameBytes(out, data);
  }

  // ----- the loops

  lemma SymbolsFirst(d: nat, rest: seq<nat>)
    requires d < 32 && forall k :: 0 <= k < |rest| ==> rest[k] < 32
    ensures forall k :: 0 <= k < |rest| + 1 ==> ([d] + rest)[k] < 32
    ensures Symbols([d] + rest) == [Symbol(d)] + Symbols(rest)
  {
  }

  /** Emit symbols while five bits are pending. */
  method Drain(buf: nat, bits0: nat, out0: Bytes) returns (out: Bytes, bits: nat)
    ensures bits == bits0 % 5 && out == out0 + Symbols(Emitted(buf, bits0))
  {
    hide Field;
    hide Symbol;
    out, bits := out0, bits0;
    while bits >= 5
      invariant bits % 5 == bits0 % 5 && out + Symbols(Emitted(buf, bits)) == out0 + Symbols(Emitted(buf, bits0))
    {
      bits := bits - 5;
      FieldFits(buf, bits);
      var d := Field(buf, bits, 5);
      SymbolsFirst(d, Emitted(buf, bits));
      assert Emitted(buf, bits + 5) == [d] + Emitted(buf, bits);
      out := out + [Symbol(d)];
    }
    assert Symbols(Emitted(buf, bits)) == [];
  }

  method EncodeText(data: Bytes) returns (out: Bytes)
    ensures out == Encode(data)
  {
    hide Push;
    hide Symbol;
    hide Emitted;
    out := [];
    var buf: nat, bits: nat := 0, 0;
    var i := 0;
    while i < |data|
      invariant i <= |data| && bits < 5 && out + Symbols(DigitsFrom(data, i, buf, bits)) == Encode(data)
    {
      ghost var was, had := out, bits;
      ghost var d := DigitsFrom(data, i, buf, bits);
      buf := Push(buf, 8, data[i]);
      ghost var e, rest := Emitted(buf, had + 8), DigitsFrom(data, i + 1, buf, (had + 8) % 5);
      assert d == e + rest;
      SymbolsJoin(e, rest);
      out, bits := Drain(buf, bits + 8, out);
      assert was + (Symbols(e) + Symbols(rest)) == was + Symbols(e) + Symbols(rest);
      i := i + 1;
    }
    if bits > 0 {
      LowFits(Shl(buf, 5 - bits));
      var last := Low(Shl(buf, 5 - bits), 5);
      SymbolsFirst(last, []);
      assert DigitsFrom(data, |data|, buf, bits) == [last] + [];
      assert Symbols([]) == [];
      out := out + [Symbol(last)];
    } else {
      assert Symbols(DigitsFrom(data, |data|, buf, bits)) == [];
    }
  }

  lemma SymbolsJoin(a: seq<nat>, b: seq<nat>)
    requires (forall k :: 0 <= k < |a| ==> a[k] < 32) && forall k :: 0 <= k < |b| ==> b[k] < 32
    ensures forall k :: 0 <= k < |a| + |b| ==> (a + b)[k] < 32
    ensures Symbols(a + b) == Symbols(a) + Symbols(b)
  {
  }

  lemma FieldFits(buf: nat, at: nat)
    ensures Field(buf, at, 5) < 32
  {
    assert Pow2(5) == 32;
  }

  lemma LowFits(n: nat)
    ensures Low(n, 5) < 32
  {
    assert Pow2(5) == 32;
  }

  method DecodeText(s: Bytes) returns (out: Option<Bytes>)
    ensures out == Decode(s)
  {
    hide Field;
    hide Push;
    var done: Bytes := [];
    var buf: nat, bits: nat := 0, 0;
    var i := 0;
    PrependNothing(Decode(s));
    while i < |s|
      invariant i <= |s| && bits < 8
      invariant Prepend(done, DecodeFrom(s, i, buf, bits)) == Decode(s)
    {
      var v := Value(s[i]);
      if v.None? { return None; }
      buf := Push(buf, 5, v.value);
      bits := bits + 5;
      if bits >= 8 {
        bits := bits - 8;
        OctetField(buf, bits);
        var f: byte := Field(buf, bits, 8);
        PrependOne(done, f, DecodeFrom(s, i + 1, buf, bits));
        done := done + [f];
      }
      i := i + 1;
    }
    assert done + [] == done;
    out := Some(done);
  }

  function Prepend(front: Bytes, rest: Option<Bytes>): Option<Bytes> {
    match rest case Some(r) => Some(front + r) case None => None
  }

  lemma PrependNothing(rest: Option<Bytes>)
    ensures Prepend([], rest) == rest
  {
    if rest.Some? { assert [] + rest.value == rest.value; }
  }

  lemma PrependOne(front: Bytes, x: byte, rest: Option<Bytes>)
    ensures Prepend(front + [x], rest) == Prepend(front, Prepend([x], rest))
  {
    if rest.Some? { assert front + [x] + rest.value == front + ([x] + rest.value); }
  }
}
