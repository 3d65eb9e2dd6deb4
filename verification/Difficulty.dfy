/**
 256-bit by 64-bit arithmetic and the difficulty retarget
 (crates/rfq-consignment/src/difficulty.rs:77-118).
 */
module Difficulty {
  import opened Arithmetic
  import opened Bytes
  import opened Compact
  import opened CompactTarget

  const RETARGET_INTERVAL := 2016
  const TARGET_TIMESPAN := 1_209_600
  const POW_LIMIT_BITS: u32 := 0x1d00_ffff
  const U128_RANGE := 0x1_0000_0000_0000_0000_0000_0000_0000_0000

  /** `carry` above the bytes `out` is the product of the number `a` and `m`. */
  ghost predicate PartialProduct(a: seq<byte>, m: nat, carry: nat, out: seq<byte>) {
    Scale(carry, |out|) + Value(out) == Value(a) * m
  }

  /** Least significant byte first, carrying upwards: the product modulo 2^256. */
  method MulU64(a: Bytes32, m: u64) returns (res: Bytes32)
    ensures Value(res) == LowBytes(Value(a) * m, 32)
  {
    var buffer := new byte[32](_ => 0);
    var carry: nat := 0;
    var i: nat := 32;
    assert PartialProduct([], m, 0, []);
    assert a[32..] == [] && buffer[32..] == [];
    while i > 0
      invariant 0 <= i <= 32 && carry <= m
      invariant PartialProduct(a[i..], m, carry, buffer[i..])
    {
      i := i - 1;
      ghost var low := buffer[i + 1..];
      var prod: nat := a[i] * m + carry;
      ProductStep(a[i], m, carry);
      assert prod < U128_RANGE;
      buffer[i] := prod % 256;
      assert a[i..][1..] == a[i + 1..] && buffer[i..] == [prod % 256] + low;
      MulDigit(a[i..], m, carry, prod, low);
      carry := prod / 256;
    }
    assert buffer[0..] == buffer[..] && a[0..] == a;
    res := buffer[..];
    ProductModulo(a, m, carry, res);
  }

  lemma {:induction false} ProductModulo(a: Bytes32, m: nat, carry: nat, res: Bytes32)
    requires PartialProduct(a, m, carry, res)
    ensures Value(res) == LowBytes(Value(a) * m, 32)
  {
    ValueBound(res);
    SplitUnique(Value(a) * m, 32, carry, Value(res));
  }

  /** One digit's product stays within 128 bits and carries at most the multiplier. */
  lemma ProductStep(digit: nat, m: nat, carry: nat)
    requires digit <= 255 && m < 0x1_0000_0000_0000_0000 && carry <= m
    ensures 0 <= digit * m + carry < U128_RANGE
    ensures (digit * m + carry) / 256 <= m
  {
    MulMonotone(digit, 255, m);
  }

  /** Writing the low digit of `a[0] * m + carry` keeps the partial product exact. */
  lemma MulDigit(a: seq<byte>, m: nat, carry: nat, prod: nat, low: seq<byte>)
    requires |a| == |low| + 1 && prod == a[0] * m + carry
    requires PartialProduct(a[1..], m, carry, low)
    ensures PartialProduct(a, m, prod / 256, [prod % 256] + low)
  {
    var n := |low|;
    var out: seq<byte> := [prod % 256] + low;
    ValueCons(a);
    ValueCons(out);
    Distribute(Scale(a[0], n), Value(a[1..]), m);
    ScaleProduct(a[0], m, n);
    ScaleAdd(a[0] * m, carry, n);
    ScaleAdd(256 * (prod / 256), prod % 256, n);
    ScaleConstant(prod / 256, n);
  }

  lemma Distribute(x: nat, y: nat, m: nat)
    ensures (x + y) * m == x * m + y * m
  {
  }

  /** Long division, most significant byte first; every quotient digit fits a byte. */
  method DivU64(a: Bytes32, d: u64) returns (res: Bytes32)
    requires d > 0
    ensures Value(res) == Value(a) / d
    ensures Value(a) - Value(res) * d < d
  {
    var buffer := new byte[32](_ => 0);
    var rem: nat := 0;
    for i := 0 to 32
      invariant rem < d
      invariant Value(a[..i]) == Value(buffer[..i]) * d + rem
    {
      ghost var quotient := buffer[..i];
      var cur: nat := rem * 256 + a[i];
      assert cur < U128_RANGE;
      QuotientDigit(cur, d, rem, a[i]);
      buffer[i] := cur / d;
      rem := cur % d;
      assert a[..i + 1][..i] == a[..i] && buffer[..i + 1][..i] == quotient;
      DivDigit(Value(a[..i]), Value(quotient), d, a[i], cur, buffer[i], rem);
    }
    res := buffer[..];
    assert buffer[..32] == res && a[..32] == a;
    DivModUnique(Value(a), d, Value(res), rem);
  }

  lemma QuotientDigit(cur: nat, d: nat, rem: nat, digit: byte)
    requires rem < d && cur == rem * 256 + digit
    ensures 0 <= cur / d < 256 && 0 <= cur % d < d && cur == cur / d * d + cur % d
  {
    Division(cur, d);
    MulCancel(cur / d, 256, d);
  }

  lemma DivDigit(value: nat, quotient: nat, d: nat, digit: nat, cur: nat, q: nat, r: nat)
    requires value * 256 + digit == (quotient * d) * 256 + cur && cur == q * d + r
    ensures value * 256 + digit == (quotient * 256 + q) * d + r
  {
    MulAssoc(256, quotient, d);
  }

  /** The observed timespan, held between a quarter and four times the intended one. */
  function ClampedTimespan(lastTime: u32, firstTime: u32): (t: u64)
    ensures TARGET_TIMESPAN / 4 <= t <= 4 * TARGET_TIMESPAN
  {
    var actual := if lastTime >= firstTime then lastTime - firstTime else 0;
    if actual < TARGET_TIMESPAN / 4 then TARGET_TIMESPAN / 4
    else if actual > 4 * TARGET_TIMESPAN then 4 * TARGET_TIMESPAN
    else actual
  }

  /** The easiest target, difficulty 1. */
  function PowLimit(): nat {
    DecodeCompact(POW_LIMIT_BITS)
  }

  function Min(a: int, b: int): int {
    if a <= b then a else b
  }

  /** The target the retarget asks for, before it is put in compact form; the product is cut to 256 bits
      as the byte-array multiplication cuts it. */
  function NextTarget(prev: nat, timespan: nat): nat {
    Capped(LowBytes(prev * timespan, 32))
  }

  function Capped(product: nat): (t: nat)
    ensures t == Min(product / TARGET_TIMESPAN, PowLimit())
  {
    if product / TARGET_TIMESPAN <= PowLimit() then product / TARGET_TIMESPAN else PowLimit()
  }

  function RetargetBits(lastBits: u32, lastTime: u32, firstTime: u32): nat {
    EncodeCompact(NextTarget(DecodeCompact(lastBits), ClampedTimespan(lastTime, firstTime)))
  }

  /** The compact target required of the first block of an epoch. */
  method ExpectedRetargetBits(lastBits: u32, lastTime: u32, firstTime: u32) returns (bits: u32)
    ensures bits == RetargetBits(lastBits, lastTime, firstTime)
  {
    var actual := if lastTime >= firstTime then lastTime - firstTime else 0;
    if actual < TARGET_TIMESPAN / 4 {
      actual := TARGET_TIMESPAN / 4;
    }
    if actual > 4 * TARGET_TIMESPAN {
      actual := 4 * TARGET_TIMESPAN;
    }
    var prev := TargetFromCompact(lastBits);
    var product := MulU64(prev, actual);
    var newT := DivU64(product, TARGET_TIMESPAN);
    var limit := TargetFromCompact(POW_LIMIT_BITS);
    LexIsNumeric(limit, newT);
    if LexLess(limit, newT) {
      newT := limit;
    }
    ValueBound(newT);
    EncodedIsCanonical(Value(newT));
    bits := CompactFromTarget(newT);
  }

  lemma PowLimitValue()
    ensures PowLimit() == Scale(0xFFFF, 26) < Pow256(32)
  {
    SmallScale(1);
    ScaleMonotone(0xFFFF, Pow256(2), 26);
    ScaleExponent(1, 0, 26);
    ScaleTwice(1, 2, 26);
    ScaleExponent(1, 28, 32);
    SplitSmall(Scale(0xFFFF, 26), 32);
  }

  /** The largest product a retarget from a target within the limit can form stays below 2^256. */
  lemma LimitProduct(x: nat, t: nat)
    requires x <= PowLimit() && t <= 4 * TARGET_TIMESPAN
    ensures x * t < Pow256(32)
  {
    PowLimitValue();
    ScaledProduct(x, t);
  }

  lemma ScaledProduct(x: nat, t: nat)
    requires x <= Scale(0xFFFF, 26) && t <= 4 * TARGET_TIMESPAN
    ensures x * t < Pow256(32)
  {
    MulMonotone(x, Scale(0xFFFF, 26), t);
    ScaleProduct(0xFFFF, t, 26);
    SmallScale(1);
    SmallScale(Pow256(3));
    ScaleTwice(1, 3, 3);
    MulMonotone(t, 4 * TARGET_TIMESPAN, 0xFFFF);
    ScaleMonotone(0xFFFF * t, Pow256(6), 26);
    ScaleExponent(1, 0, 26);
    ScaleTwice(1, 6, 26);
  }

  /** No multiplication overflows for a previous target within the limit: the retarget is exactly the
      specified `min(limit, prev * timespan / expected)` on unbounded numbers. */
  lemma NextTargetExact(prev: nat, timespan: nat)
    requires prev <= PowLimit() && timespan <= 4 * TARGET_TIMESPAN
    ensures NextTarget(prev, timespan) == Capped(prev * timespan)
    ensures prev * timespan < Pow256(32)
  {
    LimitProduct(prev, timespan);
    var product: nat := prev * timespan;
    SplitSmall(product, 32);
  }

  /** Whatever the previous word was, the next target is within the limit and at most four times the
      previous target. */
  lemma NextTargetBounded(prev: nat, timespan: nat)
    requires timespan <= 4 * TARGET_TIMESPAN
    ensures NextTarget(prev, timespan) <= PowLimit()
    ensures NextTarget(prev, timespan) <= 4 * prev
  {
    MulMonotone(timespan, 4 * TARGET_TIMESPAN, prev);
    var product: nat := prev * timespan;
    LowBytesBound(product, 32);
    CappedBounded(LowBytes(product, 32), prev);
  }

  lemma CappedBounded(product: nat, prev: nat)
    requires product <= 4 * TARGET_TIMESPAN * prev
    ensures Capped(product) <= PowLimit() && Capped(product) <= 4 * prev
  {
  }

  /** The decoded retarget never exceeds the limit nor four times the previous target. */
  lemma RetargetBounded(lastBits: u32, lastTime: u32, firstTime: u32)
    ensures RetargetBits(lastBits, lastTime, firstTime) < 0x1_0000_0000
    ensures DecodeCompact(RetargetBits(lastBits, lastTime, firstTime)) <= PowLimit()
    ensures DecodeCompact(RetargetBits(lastBits, lastTime, firstTime)) <= 4 * DecodeCompact(lastBits)
  {
    var prev, t := DecodeCompact(lastBits), ClampedTimespan(lastTime, firstTime);
    NextTargetBounded(prev, t);
    PowLimitValue();
    DecodeEncodeTruncates(NextTarget(prev, t));
  }

  /** The retarget in numbers: within the limit of difficulty 1, the old target times the timespan of the epoch
      over two weeks, where the timespan counts as no less than half a week and no more than eight weeks. The
      product is cut to 256 bits, which changes nothing for an old target within the limit. */
  lemma {:induction false} RetargetMeaning(lastBits: u32, last: u32, first: u32, timespan: nat, product: nat, limit: nat)
    requires timespan ==
      if last - first < 302_400 then 302_400 else if last - first > 4_838_400 then 4_838_400 else last - first
    requires product == DecodeCompact(lastBits) * timespan && limit == DecodeCompact(0x1d00_ffff)
    ensures var cut := LowBytes(product, 32);
      RetargetBits(lastBits, last, first) == EncodeCompact(if cut / 1_209_600 <= limit then cut / 1_209_600 else limit)
    ensures DecodeCompact(lastBits) <= limit ==>
      RetargetBits(lastBits, last, first)
        == EncodeCompact(if product / 1_209_600 <= limit then product / 1_209_600 else limit)
  {
    if DecodeCompact(lastBits) <= limit {
      NextTargetExact(DecodeCompact(lastBits), timespan);
    }
  }

  /** The retarget at height 840672 of mainnet, the source's own vector. */
  lemma MainnetRetarget(bits: u32, last: u32, first: u32)
    requires bits == 0x1703_4219 && last == 1_713_969_900 && first == 1_712_783_853
    ensures RetargetBits(bits, last, first) == 0x1703_31db
  {
    RetargetOfWord(bits - 23 * SIZE_UNIT, last, first, last - first, 0x3_31db);
  }

  /** A retarget between words of 23 significant bytes is a division of their mantissas. */
  lemma RetargetOfWord(mantissa: nat, last: u32, first: u32, timespan: nat, mantissa': nat)
    requires mantissa < SIGN_BIT && 0x8000 <= mantissa' < SIGN_BIT
    requires timespan == last - first && TARGET_TIMESPAN / 4 <= timespan <= 4 * TARGET_TIMESPAN
    requires mantissa' == mantissa * timespan / TARGET_TIMESPAN
    ensures RetargetBits(23 * SIZE_UNIT + mantissa, last, first) == 23 * SIZE_UNIT + mantissa'
  {
    WordOfParts(23, mantissa);
    WordWithinLimit(mantissa, 20);
    WordWithinLimit(mantissa', 20);
    WordWithinLimit(mantissa' + 1, 20);
    NextTargetExact(Scale(mantissa, 20), timespan);
    ScaleProduct(mantissa, timespan, 20);
    var product: nat := mantissa * timespan;
    ScaledQuotient(product, TARGET_TIMESPAN, 20);
    EncodeMeaning(Scale(product, 20) / TARGET_TIMESPAN, 23, mantissa');
  }

  lemma {:induction false} WordWithinLimit(mantissa: nat, k: nat)
    requires mantissa <= SIGN_BIT && k <= 22
    ensures Scale(mantissa, k) <= PowLimit() && LowBytes(Scale(mantissa, k), 32) == Scale(mantissa, k)
  {
    PowLimitValue();
    ScaleMonotone(mantissa, Scale(0xFFFF, 4), k);
    ScaleTwice(0xFFFF, 4, k);
    ScaleExponent(0xFFFF, k + 4, 26);
    SplitSmall(Scale(mantissa, k), 32);
  }

  /** Dividing a shifted number, then shifting back, is dividing the number. */
  lemma {:induction false} ScaledQuotient(x: nat, d: nat, k: nat)
    requires d > 0
    ensures Scale(x / d, k) <= Scale(x, k) / d < Scale(x / d + 1, k)
  {
    Division(x, d);
    Division(Scale(x, k), d);
    QuotientBracket(x, d, k, x / d, x % d, Scale(x, k) / d, Scale(x, k) % d);
  }

  lemma QuotientBracket(x: nat, d: nat, k: nat, q: nat, r: nat, q': nat, r': nat)
    requires x == q * d + r && r < d && Scale(x, k) == q' * d + r' && r' < d
    ensures Scale(q, k) <= q' < Scale(q + 1, k)
  {
    ScaleProduct(q, d, k);
    ScaleProduct(q + 1, d, k);
    var low, high: nat := q * d, (q + 1) * d;
    assert high == low + d;
    ScaleMonotone(low, x, k);
    assert x < high;
    ScaleMonotone(x, high, k);
    ScaleExponent(1, 0, k);
    assert Scale(high, k) == Scale(q + 1, k) * d && Scale(x, k) < Scale(high, k);
    assert (q' + 1) * d == q' * d + d;
    MulCancel(Scale(q, k), q' + 1, d);
    MulCancel(q', Scale(q + 1, k), d);
  }

  /** A longer epoch never makes the target harder: the decoded retarget is monotone in the last time
      and antitone in the first. */
  lemma RetargetMonotone(bits: u32, last: u32, first: u32, last': u32, first': u32)
    requires DecodeCompact(bits) <= PowLimit()
    requires last <= last' && first' <= first
    ensures RetargetBits(bits, last, first) < 0x1_0000_0000 && RetargetBits(bits, last', first') < 0x1_0000_0000
    ensures DecodeCompact(RetargetBits(bits, last, first)) <= DecodeCompact(RetargetBits(bits, last', first'))
  {
    var prev, t, t' := DecodeCompact(bits), ClampedTimespan(last, first), ClampedTimespan(last', first');
    NextTargetExact(prev, t);
    NextTargetExact(prev, t');
    NextTargetBounded(prev, t');
    PowLimitValue();
    MulMonotone(t, t', prev);
    DivMonotone(prev * t, prev * t', TARGET_TIMESPAN);
    TruncationMonotone(NextTarget(prev, t), NextTarget(prev, t'));
  }

  /** An epoch of exactly the intended length leaves a canonical target within the limit unchanged. */
  lemma RetargetUnchanged(bits: u32, last: u32, first: u32)
    requires Canonical(bits) && DecodeCompact(bits) <= PowLimit()
    requires last - first == TARGET_TIMESPAN
    ensures RetargetBits(bits, last, first) == bits
  {
    var prev := DecodeCompact(bits);
    NextTargetExact(prev, TARGET_TIMESPAN);
    DivModUnique(prev * TARGET_TIMESPAN, TARGET_TIMESPAN, prev, 0);
    EncodeDecodeIffCanonical(bits);
  }
}
