/** Fixed-width machine integers and big-endian byte strings, with their numeric value. */
module Bytes {

  type byte = x: int | 0 <= x < 0x100
  type u32 = x: int | 0 <= x < 0x1_0000_0000
  type u64 = x: int | 0 <= x < 0x1_0000_0000_0000_0000

  /** A 256-bit value as the program holds it: 32 bytes, most significant first. */
  type Bytes32 = s: seq<byte> | |s| == 32 witness seq(32, _ => 0)

  /** `v * 256^k`. */
  function Scale(v: nat, k: nat): nat
    decreases k, v
  {
    if k == 0 then v else 256 * Scale(v, k - 1)
  }

  /** `256^k`; `Pow256(32)` is 2^256. */
  function Pow256(k: nat): nat {
    Scale(1, k)
  }

  /** `v` without its `k` low bytes. */
  function ShiftDown(v: nat, k: nat): nat
    decreases k, v
  {
    if k == 0 then v else ShiftDown(v / 256, k - 1)
  }

  /** The `k` low bytes of `v`: its remainder modulo 256^k. */
  function LowBytes(v: nat, k: nat): nat
    decreases k, v
  {
    if k == 0 then 0 else 256 * LowBytes(v / 256, k - 1) + v % 256
  }

  /** The number a big-endian byte string denotes. */
  function Value(s: seq<byte>): nat {
    if |s| == 0 then 0 else 256 * Value(s[..|s| - 1]) + s[|s| - 1]
  }

  /** Lexicographic order, the derived order on byte arrays of one length. */
  predicate LexLess(a: seq<byte>, b: seq<byte>)
    requires |a| == |b|
  {
    |a| != 0 && (a[0] < b[0] || (a[0] == b[0] && LexLess(a[1..], b[1..])))
  }

  function Reverse<T>(s: seq<T>): (r: seq<T>)
    ensures |r| == |s|
    ensures forall i :: 0 <= i < |s| ==> r[i] == s[|s| - 1 - i]
  {
    seq(|s|, i requires 0 <= i < |s| => s[|s| - 1 - i])
  }

  // Scaling is additive, cancels, and composes; all of it by linear induction.

  lemma {:induction false} ScaleAdd(x: nat, y: nat, k: nat)
    ensures Scale(x + y, k) == Scale(x, k) + Scale(y, k)
    decreases k
  {
    if k != 0 {
      ScaleAdd(x, y, k - 1);
    }
  }

  lemma {:induction false} ScaleTwice(x: nat, j: nat, k: nat)
    ensures Scale(Scale(x, j), k) == Scale(x, j + k) == Scale(Scale(x, k), j)
    decreases k
  {
    if k != 0 {
      ScaleTwice(x, j, k - 1);
      ScaleConstant(Scale(x, k - 1), j);
    } else {
      assert Scale(x, 0) == x;
    }
  }

  lemma {:induction false} ScaleConstant(x: nat, k: nat)
    ensures Scale(256 * x, k) == 256 * Scale(x, k)
    decreases k
  {
    if k != 0 {
      ScaleConstant(x, k - 1);
    }
  }

  /** Scaling is multiplication by the power. */
  lemma {:induction false} ScaleProduct(x: nat, m: nat, k: nat)
    ensures Scale(x * m, k) == Scale(x, k) * m
    decreases k
  {
    if k != 0 {
      ScaleProduct(x, m, k - 1);
      assert Scale(x, k) * m == 256 * (Scale(x, k - 1) * m);
    }
  }

  lemma {:induction false} ScaleMonotone(x: nat, y: nat, k: nat)
    requires x <= y
    ensures Scale(x, k) <= Scale(y, k)
    ensures x < y ==> Scale(x, k) + Pow256(k) <= Scale(y, k)
    decreases k
  {
    if k != 0 {
      ScaleMonotone(x, y, k - 1);
    }
  }

  lemma {:induction false} ScaleCancel(x: nat, y: nat, k: nat)
    requires Scale(x, k) < Scale(y, k)
    ensures x < y
  {
    if y <= x {
      ScaleMonotone(y, x, k);
    }
  }

  lemma {:induction false} ScaleExponent(x: nat, a: nat, b: nat)
    requires a <= b
    ensures x <= Scale(x, a) <= Scale(x, b)
    decreases b
  {
    if 0 < a {
      ScaleExponent(x, a - 1, b - 1);
    } else if 0 < b {
      ScaleExponent(x, a, b - 1);
    }
  }

  // Splitting a number at a byte position.

  lemma {:induction false} Split(v: nat, k: nat)
    ensures v == Scale(ShiftDown(v, k), k) + LowBytes(v, k)
    ensures LowBytes(v, k) < Pow256(k)
    decreases k
  {
    if k != 0 {
      Split(v / 256, k - 1);
    }
  }

  lemma {:induction false} LowBytesBound(v: nat, k: nat)
    ensures LowBytes(v, k) < Pow256(k)
    ensures LowBytes(v, k) <= v
  {
    Split(v, k);
  }

  /** Splitting a number at byte `k` can be done in one way only. */
  lemma {:induction false} SplitUnique(v: nat, k: nat, high: nat, low: nat)
    requires low < Pow256(k) && v == Scale(high, k) + low
    ensures ShiftDown(v, k) == high && LowBytes(v, k) == low
  {
    Split(v, k);
    if high <= ShiftDown(v, k) {
      ScaleMonotone(high, ShiftDown(v, k), k);
    } else {
      ScaleMonotone(ShiftDown(v, k), high, k);
    }
  }

  /** A number below 256^k is its own `k` low bytes. */
  lemma {:induction false} SplitSmall(v: nat, k: nat)
    requires v < Pow256(k)
    ensures ShiftDown(v, k) == 0 && LowBytes(v, k) == v
  {
    ScaleProduct(1, 0, k);
    SplitUnique(v, k, 0, v);
  }

  /** A scaled number has only zeros in its low bytes. */
  lemma {:induction false} SplitScaled(x: nat, k: nat)
    ensures ShiftDown(Scale(x, k), k) == x && LowBytes(Scale(x, k), k) == 0
  {
    ScaleExponent(1, 0, k);
    SplitUnique(Scale(x, k), k, x, 0);
  }

  lemma {:induction false} SmallScale(v: nat)
    ensures Scale(v, 0) == v && Scale(v, 1) == 256 * v
    ensures Scale(v, 2) == 0x1_0000 * v && Scale(v, 3) == 0x100_0000 * v
  {
  }

  lemma {:induction false} ShiftDownMonotone(v: nat, w: nat, k: nat)
    requires v <= w
    ensures ShiftDown(v, k) <= ShiftDown(w, k)
  {
    Split(v, k);
    Split(w, k);
    if ShiftDown(w, k) < ShiftDown(v, k) {
      ScaleMonotone(ShiftDown(w, k), ShiftDown(v, k), k);
    }
  }

  lemma {:induction false} ShiftDownTwice(v: nat, j: nat, k: nat)
    ensures ShiftDown(ShiftDown(v, j), k) == ShiftDown(v, j + k)
    decreases j
  {
    if j != 0 {
      ShiftDownTwice(v / 256, j - 1, k);
    }
  }

  // Byte strings as numbers.

  lemma {:induction false} ValueBound(s: seq<byte>)
    ensures Value(s) < Pow256(|s|)
  {
    if |s| != 0 {
      ValueBound(s[..|s| - 1]);
    }
  }

  lemma {:induction false} ValueConcat(a: seq<byte>, b: seq<byte>)
    ensures Value(a + b) == Scale(Value(a), |b|) + Value(b)
  {
    if |b| == 0 {
      assert a + b == a;
    } else {
      var b' := b[..|b| - 1];
      assert (a + b)[..|a + b| - 1] == a + b';
      ValueConcat(a, b');
    }
  }

  lemma {:induction false} ValueCons(s: seq<byte>)
    requires |s| != 0
    ensures Value(s) == Scale(s[0], |s| - 1) + Value(s[1..])
  {
    ValueConcat([s[0]], s[1..]);
    assert [s[0]] + s[1..] == s;
    assert Value([s[0]]) == s[0] by {
      assert [s[0]][..0] == [];
    }
  }

  /** Array order is numeric order: comparing the byte arrays compares the 256-bit numbers. */
  lemma {:induction false} LexIsNumeric(a: seq<byte>, b: seq<byte>)
    requires |a| == |b|
    ensures LexLess(a, b) <==> Value(a) < Value(b)
    ensures a == b <==> Value(a) == Value(b)
  {
    if |a| != 0 {
      LexIsNumeric(a[1..], b[1..]);
      ValueCons(a);
      ValueCons(b);
      ValueBound(a[1..]);
      ValueBound(b[1..]);
      assert a == [a[0]] + a[1..] && b == [b[0]] + b[1..];
      if a[0] <= b[0] {
        ScaleMonotone(a[0], b[0], |a| - 1);
      } else {
        ScaleMonotone(b[0], a[0], |a| - 1);
      }
    }
  }
}
