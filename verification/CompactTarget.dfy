/** The byte-array programs of the compact codec (crates/rfq-consignment/src/difficulty.rs:29-75). */
module CompactTarget {
  import opened Bytes
  import opened Compact

  /** The range of a machine word, in which index arithmetic wraps. */
  const WORD := 0x1_0000_0000_0000_0000

  function Zeros(n: nat): (z: seq<byte>)
    ensures |z| == n && forall i :: 0 <= i < n ==> z[i] == 0
  {
    seq(n, _ => 0)
  }

  lemma {:induction false} ZerosValue(n: nat)
    ensures Value(Zeros(n)) == 0
  {
    if n > 0 {
      ZerosValue(n - 1);
      assert Zeros(n)[..n - 1] == Zeros(n - 1);
    }
  }

  lemma {:induction false} ZerosPad(s: seq<byte>, before: nat, after: nat)
    ensures Value(Zeros(before) + s + Zeros(after)) == Scale(Value(s), after)
  {
    ZerosValue(before);
    ZerosValue(after);
    ValueConcat(Zeros(before), s);
    ScaleProduct(1, 0, |s|);
    ValueConcat(Zeros(before) + s, Zeros(after));
  }

  /** Keeping the last `n` bytes keeps the value modulo 256^n. */
  lemma {:induction false} SuffixValue(s: seq<byte>, n: nat)
    requires n <= |s|
    ensures Value(s[|s| - n..]) == LowBytes(Value(s), n)
  {
    var a, b := s[..|s| - n], s[|s| - n..];
    assert a + b == s;
    ValueConcat(a, b);
    ValueBound(b);
    SplitUnique(Value(s), n, Value(a), Value(b));
  }

  lemma ThreeBytes(b0: byte, b1: byte, b2: byte)
    ensures Value([b0, b1, b2]) == b0 * 0x1_0000 + b1 * 0x100 + b2
  {
    assert [b0, b1, b2][..2] == [b0, b1] && [b0, b1][..1] == [b0] && [b0][..0] == [];
    assert Value([b0]) == b0;
    assert Value([b0, b1]) == 256 * b0 + b1;
  }

  /** The three low bytes of a number below 2^24, leading byte first. */
  function BytesOf24(n: nat): (b: seq<byte>)
    ensures |b| == 3
  {
    [n / 0x1_0000 % 256, n / 0x100 % 256, n % 256]
  }

  lemma BytesOf24Value(n: nat)
    requires n < SIZE_UNIT
    ensures Value(BytesOf24(n)) == n
  {
    ThreeBytes(n / 0x1_0000 % 256, n / 0x100 % 256, n % 256);
  }

  /** The byte at offset `at` once the first `count` bytes of `mant` have been written. */
  function Placed(mant: seq<byte>, count: nat, at: int): byte {
    if 0 <= at < count && at < |mant| then mant[at] else 0
  }

  /** Places the mantissa bytes in a zeroed array, dropping those whose wrapped index is outside it. */
  method TargetFromCompact(bits: u32) returns (t: Bytes32)
    ensures Value(t) == DecodeCompact(bits)
  {
    var exponent, mantissa := bits / SIZE_UNIT, bits % SIGN_BIT;
    var target := new byte[32](_ => 0);
    if exponent <= 3 {
      var shifted := ShiftDown(mantissa, 3 - exponent);
      var b := BytesOf24(shifted);
      target[29], target[30], target[31] := b[0], b[1], b[2];
      t := target[..];
      assert t == Zeros(29) + b + Zeros(0);
      SmallPlacement(mantissa, exponent, t);
    } else {
      var mant := BytesOf24(mantissa);
      var idx := (32 - exponent) % WORD;
      for j := 0 to 3
        invariant forall k :: 0 <= k < 32 ==> target[k] == Placed(mant, j, exponent + k - 32)
      {
        var pos := (idx + j) % WORD;
        WrappedIndex(32 - exponent, j);
        if pos < 32 {
          target[pos] := mant[j];
        }
      }
      t := target[..];
      WidePlacement(mantissa, exponent, t);
    }
  }

  /** A wrapped index lies in the array exactly where the unwrapped one does. */
  lemma WrappedIndex(base: int, j: nat)
    requires -WORD / 2 <= base < 32 && j < 3
    ensures (base % WORD + j) % WORD < 32 <==> 0 <= base + j < 32
    ensures 0 <= base + j < 32 ==> (base % WORD + j) % WORD == base + j
    ensures 0 <= (base % WORD + j) % WORD
  {
  }

  lemma {:induction false} SmallPlacement(mantissa: nat, size: nat, t: Bytes32)
    requires mantissa < SIGN_BIT && size <= 3
    requires t == Zeros(29) + BytesOf24(ShiftDown(mantissa, 3 - size)) + Zeros(0)
    ensures Value(t) == Expand(size, mantissa)
  {
    var shifted := ShiftDown(mantissa, 3 - size);
    Split(mantissa, 3 - size);
    ScaleExponent(shifted, 0, 3 - size);
    BytesOf24Value(shifted);
    ZerosPad(BytesOf24(shifted), 29, 0);
  }

  /** A 32-byte window over the mantissa followed by zeros is the scaled mantissa modulo 2^256. */
  lemma {:induction false} WidePlacement(mantissa: nat, size: nat, t: Bytes32)
    requires mantissa < SIGN_BIT && size > 3
    requires forall k :: 0 <= k < 32 ==> t[k] == Placed(BytesOf24(mantissa), 3, size + k - 32)
    ensures Value(t) == Expand(size, mantissa)
  {
    var mant := BytesOf24(mantissa);
    var wide := Zeros(32) + mant + Zeros(size - 3);
    assert t == wide[|wide| - 32..];
    SuffixValue(wide, 32);
    ZerosPad(mant, 32, size - 3);
    BytesOf24Value(mantissa);
  }

  /** Scans for the leading byte, takes three bytes from there, and keeps the sign bit clear. */
  method CompactFromTarget(target: Bytes32) returns (bits: nat)
    ensures bits == EncodeCompact(Value(target))
  {
    var firstNonzero: nat := 0;
    while firstNonzero < 32 && target[firstNonzero] == 0
      invariant 0 <= firstNonzero <= 32
      invariant forall i :: 0 <= i < firstNonzero ==> target[i] == 0
    {
      firstNonzero := firstNonzero + 1;
    }
    var size: nat := 32 - firstNonzero;
    if size == 0 {
      assert target == Zeros(32);
      ZerosValue(32);
      ZeroWord();
      return 0;
    }
    var b0: nat := target[firstNonzero];
    var b1: nat := if firstNonzero + 1 < 32 then target[firstNonzero + 1] else 0;
    var b2: nat := if firstNonzero + 2 < 32 then target[firstNonzero + 2] else 0;
    var mantissa: nat := b0 * 0x1_0000 + b1 * 0x100 + b2;
    LeadingBytes(target, firstNonzero, b0, b1, b2);
    var nsize := size;
    if mantissa >= SIGN_BIT {
      mantissa := mantissa / 256;
      nsize := nsize + 1;
    }
    bits := nsize * SIZE_UNIT + mantissa % SIGN_BIT;
  }

  /** The three bytes from the leading one on are the number scaled to three bytes. */
  lemma {:induction false} LeadingBytes(t: Bytes32, first: nat, b0: byte, b1: byte, b2: byte)
    requires first < 32 && t[first] != 0
    requires forall i :: 0 <= i < first ==> t[i] == 0
    requires b0 == t[first]
    requires b1 == if first + 1 < 32 then t[first + 1] else 0
    requires b2 == if first + 2 < 32 then t[first + 2] else 0
    ensures ByteLength(Value(t)) == 32 - first
    ensures b0 * 0x1_0000 + b1 * 0x100 + b2 == Lead(Value(t), 32 - first)
  {
    var rest := t[first..];
    assert t == Zeros(first) + rest + Zeros(0);
    ZerosPad(rest, first, 0);
    LeadingDigitLength(rest);
    FirstThree(rest, b0, b1, b2);
  }

  lemma {:induction false} FirstThree(s: seq<byte>, b0: byte, b1: byte, b2: byte)
    requires |s| != 0 && b0 == s[0]
    requires b1 == if 1 < |s| then s[1] else 0
    requires b2 == if 2 < |s| then s[2] else 0
    ensures b0 * 0x1_0000 + b1 * 0x100 + b2 == Lead(Value(s), |s|)
  {
    ThreeBytes(b0, b1, b2);
    if |s| <= 3 {
      assert [b0, b1, b2] == Zeros(0) + s + Zeros(3 - |s|);
      ZerosPad(s, 0, 3 - |s|);
    } else {
      assert s == [b0, b1, b2] + s[3..];
      ValueConcat([b0, b1, b2], s[3..]);
      ValueBound(s[3..]);
      SplitUnique(Value(s), |s| - 3, Value([b0, b1, b2]), Value(s[3..]));
    }
  }

  lemma {:induction false} LeadingDigitLength(s: seq<byte>)
    requires |s| != 0 && s[0] != 0
    ensures ByteLength(Value(s)) == |s|
  {
    ValueBound(s);
    ValueCons(s);
    ScaleMonotone(1, s[0], |s| - 1);
    ByteLengthUnique(Value(s), |s|);
  }
}
