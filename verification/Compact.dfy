/**
 The compact "nBits" form of a 256-bit target (crates/rfq-consignment/src/difficulty.rs): what the
 numbers mean and the laws of the codec. `CompactTarget` holds the byte-array programs.
 */
module Compact {
  import opened Bytes

  const SIGN_BIT := 0x80_0000
  const SIZE_UNIT := 0x100_0000

  /** The number `mantissa * 256^(size - 3)`, cut to 256 bits. */
  function Expand(size: nat, mantissa: nat): nat {
    if size <= 3 then ShiftDown(mantissa, 3 - size) else LowBytes(Scale(mantissa, size - 3), 32)
  }

  /** The target a compact word stands for: a size byte and a mantissa whose sign bit is ignored. */
  function DecodeCompact(bits: u32): nat {
    Expand(bits / SIZE_UNIT, bits % SIGN_BIT)
  }

  /** Number of significant bytes. */
  function ByteLength(v: nat): nat {
    if v == 0 then 0 else 1 + ByteLength(v / 256)
  }

  /** The leading three bytes of a number of `size` significant bytes. */
  function Lead(v: nat, size: nat): nat {
    if size <= 3 then Scale(v, 3 - size) else ShiftDown(v, size - 3)
  }

  datatype Parts = Parts(size: nat, mantissa: nat)

  /** Size and leading bytes, moved down one byte when the leading bit would read as a sign. */
  function Normalise(v: nat): Parts {
    var size := ByteLength(v);
    var lead := Lead(v, size);
    if lead >= SIGN_BIT then Parts(size + 1, lead / 256) else Parts(size, lead)
  }

  /** The compact word for a target. */
  function EncodeCompact(v: nat): nat {
    Normalise(v).size * SIZE_UNIT + Normalise(v).mantissa
  }

  /** `size` and `mantissa` are the normalised compact form of the non-zero number `v`. */
  ghost predicate Shape(v: nat, size: nat, mantissa: nat) {
    size >= 1 && 0x8000 <= mantissa < SIGN_BIT && mantissa == Lead(v, size)
  }

  /** The words that are the compact form of some target. */
  predicate Canonical(bits: u32) {
    var size, mantissa := bits / SIZE_UNIT, bits % SIZE_UNIT;
    bits == 0 || CanonicalParts(size, mantissa)
  }

  predicate CanonicalParts(size: nat, mantissa: nat) {
    && 0x8000 <= mantissa < SIGN_BIT
    && 1 <= size <= 33
    && (size < 3 ==> LowBytes(mantissa, 3 - size) == 0)
    && (size == 33 ==> mantissa <= 0xFFFF)
  }

  lemma {:induction false} ByteLengthBounds(v: nat)
    requires v > 0
    ensures ByteLength(v) >= 1 && Pow256(ByteLength(v) - 1) <= v < Pow256(ByteLength(v))
  {
    if v >= 256 {
      ByteLengthBounds(v / 256);
    } else {
      assert ByteLength(v / 256) == 0;
    }
  }

  lemma {:induction false} ByteLengthUnique(v: nat, n: nat)
    requires n >= 1 && Pow256(n - 1) <= v < Pow256(n)
    ensures ByteLength(v) == n
  {
    ByteLengthBounds(v);
    var len := ByteLength(v);
    if len < n {
      ScaleExponent(1, len, n - 1);
    } else if n < len {
      ScaleExponent(1, n, len - 1);
    }
  }

  /** The three leading bytes of a number of `size` significant bytes lie between 2^16 and 2^24. */
  lemma LeadBounds(v: nat, size: nat)
    requires size >= 1 && Pow256(size - 1) <= v < Pow256(size)
    ensures 0x1_0000 <= Lead(v, size) < SIZE_UNIT
  {
    SmallScale(1);
    SmallScale(v);
    if size > 3 {
      var lead := Lead(v, size);
      ScaleTwice(1, 2, size - 3);
      ScaleTwice(1, 3, size - 3);
      Split(v, size - 3);
      if lead < 0x1_0000 {
        ScaleMonotone(lead, 0x1_0000, size - 3);
      } else {
        ScaleCancel(lead, SIZE_UNIT, size - 3);
      }
    }
  }

  /** Moving the leading bytes down by one is taking them one byte higher. */
  lemma LeadShift(v: nat, size: nat)
    ensures Lead(v, size + 1) == Lead(v, size) / 256
  {
    if size >= 3 {
      ShiftDownTwice(v, size - 3, 1);
      assert ShiftDown(Lead(v, size), 1) == Lead(v, size) / 256;
    }
  }

  /** Encoding a non-zero number gives its normalised form, within 33 size units below 2^256. */
  lemma NormaliseShape(v: nat)
    requires v > 0
    ensures Shape(v, Normalise(v).size, Normalise(v).mantissa)
    ensures v < Pow256(32) ==> Normalise(v).size <= 33
  {
    var size := ByteLength(v);
    ByteLengthBounds(v);
    LeadBounds(v, size);
    LeadShift(v, size);
    if size > 32 {
      ScaleExponent(1, 32, size - 1);
    }
  }

  /** A normalised form brackets its number: the scale of the number fixes the size. */
  lemma {:induction false} ShapeScale(v: nat, size: nat, mantissa: nat)
    requires Shape(v, size, mantissa)
    ensures Scale(0x8000, size) <= Scale(mantissa, size) <= Scale(v, 3) < Scale(SIGN_BIT, size)
  {
    ScaleMonotone(0x8000, mantissa, size);
    ScaleMonotone(mantissa, SIGN_BIT, size);
    if size <= 3 {
      ScaleTwice(v, 3 - size, size);
      ScaleExponent(1, 0, size);
    } else {
      Split(v, size - 3);
      ScaleAdd(mantissa, 1, size - 3);
      ScaleBracket(v, mantissa, size);
      ScaleMonotone(mantissa + 1, SIGN_BIT, size);
    }
  }

  lemma ScaleBracket(v: nat, mantissa: nat, size: nat)
    requires size >= 3 && Scale(mantissa, size - 3) <= v < Scale(mantissa + 1, size - 3)
    ensures Scale(mantissa, size) <= Scale(v, 3) < Scale(mantissa + 1, size)
  {
    ScaleTwice(mantissa, size - 3, 3);
    ScaleTwice(mantissa + 1, size - 3, 3);
    ScaleMonotone(Scale(mantissa, size - 3), v, 3);
    ScaleMonotone(v, Scale(mantissa + 1, size - 3), 3);
    ScaleExponent(1, 0, 3);
  }

  /** Larger numbers never have a smaller size. */
  lemma ShapeSizeMonotone(v: nat, size: nat, mantissa: nat, w: nat, size': nat, mantissa': nat)
    requires Shape(v, size, mantissa) && Shape(w, size', mantissa') && v <= w
    ensures size <= size'
  {
    ShapeScale(v, size, mantissa);
    ShapeScale(w, size', mantissa');
    ScaleMonotone(v, w, 3);
    ScaleConstant(0x8000, size');
    if size' < size {
      ScaleExponent(0x8000, size' + 1, size);
    }
  }

  /** The normalised form is unique. */
  lemma ShapeUnique(v: nat, size: nat, mantissa: nat, size': nat, mantissa': nat)
    requires Shape(v, size, mantissa) && Shape(v, size', mantissa')
    ensures size == size' && mantissa == mantissa'
  {
    ShapeSizeMonotone(v, size, mantissa, v, size', mantissa');
    ShapeSizeMonotone(v, size', mantissa', v, size, mantissa);
  }

  /** What a word decodes to: its low 23 bits, scaled by the power of 256 its high byte names less 3, the bytes
      beyond either end lost. */
  lemma {:induction false} DecodeMeaning(bits: u32, size: nat, mantissa: nat)
    requires size == bits / 0x100_0000 && mantissa == bits % 0x80_0000
    ensures size > 3 ==> DecodeCompact(bits) == LowBytes(mantissa * Pow256(size - 3), 32)
    ensures size == 3 ==> DecodeCompact(bits) == mantissa
    ensures size == 2 ==> DecodeCompact(bits) == mantissa / 0x100
    ensures size == 1 ==> DecodeCompact(bits) == mantissa / 0x1_0000
    ensures size == 0 ==> DecodeCompact(bits) == 0
  {
    if size > 3 {
      ScaleIsProduct(mantissa, size - 3);
    } else {
      ShiftDownFew(mantissa);
    }
  }

  lemma {:induction false} ScaleIsProduct(v: nat, k: nat)
    ensures Scale(v, k) == v * Pow256(k)
  {
    ScaleProduct(1, v, k);
  }

  lemma {:induction false} ShiftDownFew(v: nat)
    ensures ShiftDown(v, 1) == v / 0x100 && ShiftDown(v, 2) == v / 0x1_0000 && ShiftDown(v, 3) == v / 0x100_0000
  {
    assert ShiftDown(v, 2) == ShiftDown(v / 256, 1) == v / 256 / 256;
    assert ShiftDown(v, 3) == ShiftDown(v / 256, 2) == ShiftDown(v / 256 / 256, 1) == v / 256 / 256 / 256;
  }

  /** What a number encodes to: the size and the mantissa between whose scale, and that of the mantissa after it,
      the number lies. */
  lemma EncodeMeaning(v: nat, size: nat, mantissa: nat)
    requires 0x8000 <= mantissa < 0x80_0000
    requires if size >= 3 then Scale(mantissa, size - 3) <= v < Scale(mantissa + 1, size - 3)
             else size > 0 && mantissa == Scale(v, 3 - size)
    ensures EncodeCompact(v) == size * 0x100_0000 + mantissa
  {
    if size >= 3 {
      ScaleAdd(mantissa, 1, size - 3);
      SplitUnique(v, size - 3, mantissa, v - Scale(mantissa, size - 3));
      ScaleExponent(mantissa, 0, size - 3);
      assert Scale(mantissa, 0) == mantissa;
    } else {
      ScaleProduct(1, 0, 3 - size);
    }
    assert v > 0;
    NormaliseShape(v);
    ShapeUnique(v, size, mantissa, Normalise(v).size, Normalise(v).mantissa);
  }

  /** How many low bytes the compact form of `v` drops. */
  function DroppedBytes(v: nat): nat {
    var size := Normalise(v).size;
    if size <= 3 then 0 else size - 3
  }

  /** Expanding a normalised form gives the number with the low bytes below its mantissa cleared. */
  lemma {:induction false} ExpandShape(v: nat, size: nat, mantissa: nat)
    requires v < Pow256(32) && Shape(v, size, mantissa)
    ensures Expand(size, mantissa) == v - LowBytes(v, if size <= 3 then 0 else size - 3)
  {
    if size <= 3 {
      SplitScaled(v, 3 - size);
    } else {
      Split(v, size - 3);
      SplitSmall(Scale(mantissa, size - 3), 32);
    }
  }

  lemma ZeroWord()
    ensures Normalise(0) == Parts(0, 0) && EncodeCompact(0) == 0 && Expand(0, 0) == 0
  {
    assert ShiftDown(0, 3) == 0;
  }

  lemma WordOfParts(size: nat, mantissa: nat)
    requires mantissa < SIGN_BIT
    ensures (size * SIZE_UNIT + mantissa) / SIZE_UNIT == size
    ensures (size * SIZE_UNIT + mantissa) % SIZE_UNIT == mantissa
    ensures (size * SIZE_UNIT + mantissa) % SIGN_BIT == mantissa
  {
  }

  /** An encoded word splits back into its parts. */
  lemma WordParts(v: nat)
    requires v < Pow256(32)
    ensures EncodeCompact(v) < 0x1_0000_0000
    ensures EncodeCompact(v) / SIZE_UNIT == Normalise(v).size
    ensures EncodeCompact(v) % SIZE_UNIT == EncodeCompact(v) % SIGN_BIT == Normalise(v).mantissa
  {
    ZeroWord();
    if v > 0 {
      NormaliseShape(v);
    }
    WordOfParts(Normalise(v).size, Normalise(v).mantissa);
  }

  lemma {:induction false} ExpandNormalised(v: nat)
    requires v < Pow256(32)
    ensures Expand(Normalise(v).size, Normalise(v).mantissa) == v - LowBytes(v, DroppedBytes(v))
  {
    ZeroWord();
    if v > 0 {
      NormaliseShape(v);
      ExpandShape(v, Normalise(v).size, Normalise(v).mantissa);
    }
  }

  /** Decoding an encoded target gives the target with exactly its dropped low bytes cleared. */
  lemma {:induction false} DecodeEncodeTruncates(v: nat)
    requires v < Pow256(32)
    ensures EncodeCompact(v) < 0x1_0000_0000
    ensures DecodeCompact(EncodeCompact(v)) == v - LowBytes(v, DroppedBytes(v))
    ensures LowBytes(v, DroppedBytes(v)) < Pow256(DroppedBytes(v))
  {
    WordParts(v);
    ExpandNormalised(v);
    LowBytesBound(v, DroppedBytes(v));
  }

  /** Truncation through the compact form keeps order. */
  lemma TruncationMonotone(v: nat, w: nat)
    requires v <= w < Pow256(32)
    ensures EncodeCompact(v) < 0x1_0000_0000 && EncodeCompact(w) < 0x1_0000_0000
    ensures DecodeCompact(EncodeCompact(v)) <= DecodeCompact(EncodeCompact(w))
  {
    DecodeEncodeTruncates(v);
    DecodeEncodeTruncates(w);
    if v > 0 {
      TruncatedOrder(v, w);
    }
  }

  lemma {:induction false} TruncatedOrder(v: nat, w: nat)
    requires 0 < v <= w
    ensures v - LowBytes(v, DroppedBytes(v)) <= w - LowBytes(w, DroppedBytes(w))
  {
    NormaliseShape(v);
    NormaliseShape(w);
    var a, b := Normalise(v), Normalise(w);
    ShapeSizeMonotone(v, a.size, a.mantissa, w, b.size, b.mantissa);
    Split(v, DroppedBytes(v));
    Split(w, DroppedBytes(w));
    if a.size == b.size {
      ShiftDownMonotone(v, w, DroppedBytes(v));
      ScaleMonotone(ShiftDown(v, DroppedBytes(v)), ShiftDown(w, DroppedBytes(w)), DroppedBytes(v));
    } else if b.size > 3 {
      MantissaDominates(v, a.size, a.mantissa, b.size, b.mantissa);
    }
  }

  /** Any mantissa of a larger size outweighs every number of a smaller size. */
  lemma MantissaDominates(v: nat, size: nat, mantissa: nat, size': nat, mantissa': nat)
    requires Shape(v, size, mantissa) && size < size' && size' > 3 && 0x8000 <= mantissa'
    ensures v < Scale(mantissa', size' - 3)
  {
    ShapeScale(v, size, mantissa);
    ScaleConstant(0x8000, size);
    ScaleExponent(0x8000, size + 1, size');
    ScaleMonotone(0x8000, mantissa', size');
    ScaleTwice(mantissa', size' - 3, 3);
    ScaleCancel(v, Scale(mantissa', size' - 3), 3);
  }

  /** The codec is the identity on exactly the canonical words. */
  lemma EncodeDecodeIffCanonical(bits: u32)
    ensures EncodeCompact(DecodeCompact(bits)) == bits <==> Canonical(bits)
  {
    DecodeInRange(bits);
    EncodedIsCanonical(DecodeCompact(bits));
    if Canonical(bits) {
      CanonicalWordFixed(bits);
    }
  }

  lemma DecodeInRange(bits: u32)
    ensures DecodeCompact(bits) < Pow256(32)
  {
    ExpandInRange(bits / SIZE_UNIT, bits % SIGN_BIT);
  }

  lemma CanonicalWordFixed(bits: u32)
    requires Canonical(bits)
    ensures EncodeCompact(DecodeCompact(bits)) == bits
  {
    if bits == 0 {
      ZeroWord();
    } else {
      var size, mantissa := bits / SIZE_UNIT, bits % SIZE_UNIT;
      WordOfParts(size, mantissa);
      CanonicalPartsFixed(size, mantissa);
    }
  }

  lemma CanonicalPartsFixed(size: nat, mantissa: nat)
    requires CanonicalParts(size, mantissa)
    ensures Normalise(Expand(size, mantissa)) == Parts(size, mantissa)
  {
    var v := Expand(size, mantissa);
    CanonicalShape(size, mantissa);
    NormaliseShape(v);
    ShapeUnique(v, size, mantissa, Normalise(v).size, Normalise(v).mantissa);
  }

  lemma ExpandInRange(size: nat, mantissa: nat)
    requires mantissa < SIGN_BIT
    ensures Expand(size, mantissa) < Pow256(32)
  {
    if size <= 3 {
      Split(mantissa, 3 - size);
      ScaleExponent(ShiftDown(mantissa, 3 - size), 0, 3 - size);
      SmallScale(1);
      ScaleExponent(1, 3, 32);
    } else {
      LowBytesBound(Scale(mantissa, size - 3), 32);
    }
  }

  lemma CanonicalShape(size: nat, mantissa: nat)
    requires CanonicalParts(size, mantissa)
    ensures Expand(size, mantissa) > 0 && Shape(Expand(size, mantissa), size, mantissa)
  {
    if size <= 3 {
      Split(mantissa, 3 - size);
    } else {
      CanonicalFits(size, mantissa);
      ExpandExact(size, mantissa);
    }
  }

  lemma {:induction false} ExpandExact(size: nat, mantissa: nat)
    requires size > 3 && 0 < mantissa && Scale(mantissa, size - 3) < Pow256(32)
    ensures Expand(size, mantissa) > 0 && Lead(Expand(size, mantissa), size) == mantissa
  {
    var v := Scale(mantissa, size - 3);
    ScaleExponent(mantissa, 0, size - 3);
    SplitSmall(v, 32);
    SplitScaled(mantissa, size - 3);
  }

  lemma CanonicalFits(size: nat, mantissa: nat)
    requires 3 < size <= 33 && mantissa < SIGN_BIT && (size == 33 ==> mantissa <= 0xFFFF)
    ensures Scale(mantissa, size - 3) < Pow256(32)
  {
    var width := if size == 33 then 2 else 3;
    assert Pow256(2) == 0x1_0000 && Pow256(3) == SIZE_UNIT;
    ScaleMonotone(mantissa, Pow256(width), size - 3);
    ScaleExponent(1, 0, size - 3);
    ScaleTwice(1, width, size - 3);
    ScaleExponent(1, size - 3 + width, 32);
  }

  /** Every encoded target is a canonical word. */
  lemma EncodedIsCanonical(v: nat)
    requires v < Pow256(32)
    ensures EncodeCompact(v) < 0x1_0000_0000 && Canonical(EncodeCompact(v))
  {
    WordParts(v);
    if v > 0 {
      NormaliseShape(v);
      ShapeCanonical(v, Normalise(v).size, Normalise(v).mantissa);
    } else {
      ZeroWord();
    }
  }

  lemma ShapeCanonical(v: nat, size: nat, mantissa: nat)
    requires v < Pow256(32) && Shape(v, size, mantissa) && size <= 33
    ensures CanonicalParts(size, mantissa)
  {
    if size < 3 {
      SplitScaled(v, 3 - size);
    } else if size == 33 {
      Split(v, 30);
      ScaleTwice(1, 2, 30);
      assert Pow256(2) == 0x1_0000;
      ScaleCancel(mantissa, 0x1_0000, 30);
    }
  }
}
