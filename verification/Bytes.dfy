/** Bytes, optional values, little-endian fields and sums over finite maps. */
module Bytes {
  type byte = x: int | 0 <= x < 256
  type Bytes = seq<byte>

  datatype Option<+T> = None | Some(value: T)

  const U16: nat := 0x1_0000
  const U32: nat := 0x1_0000_0000
  const U64: nat := 0x1_0000_0000_0000_0000

  function Min(a: nat, b: nat): nat { if a < b then a else b }

  function Take<T>(xs: seq<T>, n: nat): seq<T> { if n < |xs| then xs[..n] else xs }

  lemma SubsetSize<T>(a: set<T>, b: set<T>)
    requires a <= b
    ensures |a| <= |b|
  {
    assert b == a + (b - a);
  }

  function Pow2(n: nat): (p: nat)
    ensures p >= 1
  {
    if n == 0 then 1 else 2 * Pow2(n - 1)
  }

  /** 256 to the power n. */
  function Pow256(n: nat): (p: nat)
    ensures p >= 1
  {
    if n == 0 then 1 else 256 * Pow256(n - 1)
  }

  lemma WidthSizes()
    ensures Pow256(2) == U16 && Pow256(4) == U32 && Pow256(8) == U64
  {
    assert Pow256(4) == 256 * (256 * Pow256(2));
    assert Pow256(8) == 256 * (256 * (256 * (256 * Pow256(4))));
  }

  /** The low n bytes of x, least significant first; higher bytes are dropped as an integer cast does. */
  function ToLe(x: nat, n: nat): (b: Bytes)
    ensures |b| == n
  {
    if n == 0 then [] else [x % 256] + ToLe(x / 256, n - 1)
  }

  function FromLe(b: Bytes): (x: nat)
    ensures x < Pow256(|b|)
  {
    if b == [] then 0 else b[0] + 256 * FromLe(b[1..])
  }

  /** A value that fits its field is read back unchanged. */
  lemma {:induction false} LeFits(x: nat, n: nat)
    requires x < Pow256(n)
    ensures FromLe(ToLe(x, n)) == x
  {
    if n > 0 {
      var p := Pow256(n - 1);
      assert x < 256 * p;
      LeFits(x / 256, n - 1);
      assert ToLe(x, n)[1..] == ToLe(x / 256, n - 1);
    }
  }

  /** Reading then writing a field gives back its bytes. */
  lemma {:induction false} LeBytes(b: Bytes)
    ensures ToLe(FromLe(b), |b|) == b
  {
    if b != [] {
      LeBytes(b[1..]);
      var x := b[0] + 256 * FromLe(b[1..]);
      assert FromLe(b) == x && x % 256 == b[0] && x / 256 == FromLe(b[1..]);
      assert b == [b[0]] + b[1..];
    }
  }

  /** Sum of the values of a finite map. */
  ghost function Sum<T(!new)>(m: map<T, nat>): nat {
    if m == map[] then 0
    else
      var k :| k in m;
      m[k] + Sum(m - {k})
  }

  lemma {:induction false} SumRemove<T(!new)>(m: map<T, nat>, x: T)
    requires x in m
    ensures Sum(m) == m[x] + Sum(m - {x})
    decreases |m|
  {
    var k :| k in m && Sum(m) == m[k] + Sum(m - {k});
    if k != x {
      SumRemove(m - {k}, x);
      SumRemove(m - {x}, k);
      assert m - {k} - {x} == m - {x} - {k};
    }
  }

  /** Setting one entry changes the sum by the difference. */
  lemma SumUpdate<T(!new)>(m: map<T, nat>, x: T, v: nat)
    ensures Sum(m[x := v]) + At(m, x) == Sum(m) + v
  {
    SumRemove(m[x := v], x);
    assert m[x := v] - {x} == m - {x};
    if x in m {
      SumRemove(m, x);
    } else {
      assert m - {x} == m;
    }
  }

  lemma SumDrop<T(!new)>(m: map<T, nat>, x: T)
    ensures Sum(m - {x}) + At(m, x) == Sum(m)
  {
    if x in m {
      SumRemove(m, x);
    } else {
      assert m - {x} == m;
    }
  }

  /** The counter stored under x, zero when there is none. */
  function At<T>(m: map<T, nat>, x: T): nat {
    if x in m then m[x] else 0
  }
}
