/**
 The hexadecimal codec and the display-order form of hashes
 (crates/rfq-consignment/src/merkle.rs). Strings are sequences of Unicode scalar values; a character
 outside ASCII is never a hexadecimal digit, so counting characters instead of UTF-8 bytes changes no
 result.
 */
module Hex {
  import opened Bytes
  import opened Options

  /** The Unicode White_Space property, which trimming a string removes at both ends. */
  predicate IsWhitespace(c: char) {
    var n := c as int;
    || 0x09 <= n <= 0x0D || n == 0x20 || n == 0x85 || n == 0xA0 || n == 0x1680
    || 0x2000 <= n <= 0x200A || n == 0x2028 || n == 0x2029 || n == 0x202F || n == 0x205F || n == 0x3000
  }

  function Trim(s: string): string {
    if |s| == 0 then s
    else if IsWhitespace(s[0]) then Trim(s[1..])
    else if IsWhitespace(s[|s| - 1]) then Trim(s[..|s| - 1])
    else s
  }

  /** ASCII lower-casing, character by character. */
  function LowerChar(c: char): char {
    if 'A' <= c <= 'Z' then ((c as int) + 32) as char else c
  }

  function Lower(s: string): (r: string)
    ensures |r| == |s|
    ensures forall i :: 0 <= i < |s| ==> r[i] == LowerChar(s[i])
  {
    seq(|s|, i requires 0 <= i < |s| => LowerChar(s[i]))
  }

  function Digit(c: char): Option<nat> {
    if '0' <= c <= '9' then Some(c as int - '0' as int)
    else if 'a' <= c <= 'f' then Some(c as int - 'a' as int + 10)
    else if 'A' <= c <= 'F' then Some(c as int - 'A' as int + 10)
    else None
  }

  const DIGITS: string := "0123456789abcdef"

  /** Lower-case hexadecimal text of a byte string. */
  function Encode(b: seq<byte>): string {
    if |b| == 0 then "" else [DIGITS[b[0] / 16], DIGITS[b[0] % 16]] + Encode(b[1..])
  }

  /** The bytes a text without surrounding white space denotes, if it denotes any. */
  function Decode(s: string): Option<seq<byte>> {
    if |s| == 0 then Some([])
    else if |s| == 1 then None
    else match (Digit(s[0]), Digit(s[1]), Decode(s[2..]))
      case (Some(hi), Some(lo), Some(rest)) => Some([hi * 16 + lo] + rest)
      case _ => None
  }

  /** A display-order hash text read into the byte order used for hashing. */
  function ParseHash(display: string): (r: Option<Bytes32>) {
    match Decode(Trim(display))
    case Some(b) => if |b| == 32 then Some(Reverse(b)) else None
    case None => None
  }

  /** The display text of a hash. */
  function DisplayHash(h: Bytes32): string {
    Encode(Reverse(h))
  }

  lemma DigitsAreDigits(n: nat)
    requires n < 16
    ensures Digit(DIGITS[n]) == Some(n) && LowerChar(DIGITS[n]) == DIGITS[n] && !IsWhitespace(DIGITS[n])
  {
  }

  lemma DigitIsDigits(c: char)
    requires Digit(c).Some?
    ensures Digit(c).value < 16 && DIGITS[Digit(c).value] == LowerChar(c)
  {
  }

  /** Encoded text consists of lower-case digits, so trimming and lower-casing leave it alone. */
  lemma {:induction false} EncodeIsPlain(b: seq<byte>)
    ensures |Encode(b)| == 2 * |b|
    ensures forall i :: 0 <= i < |Encode(b)| ==>
      !IsWhitespace(Encode(b)[i]) && LowerChar(Encode(b)[i]) == Encode(b)[i]
  {
    if |b| != 0 {
      EncodeIsPlain(b[1..]);
      DigitsAreDigits(b[0] / 16);
      DigitsAreDigits(b[0] % 16);
    }
  }

  /** Encoding then decoding gives the bytes back. */
  lemma {:induction false} EncodeDecode(b: seq<byte>)
    ensures Decode(Encode(b)) == Some(b)
  {
    if |b| != 0 {
      EncodeDecode(b[1..]);
      DigitsAreDigits(b[0] / 16);
      DigitsAreDigits(b[0] % 16);
      assert Encode(b)[2..] == Encode(b[1..]);
      assert [b[0]] + b[1..] == b;
    }
  }

  /** A text decodes exactly if it is an even number of digits, and then byte `k` is written by digits `2k` and
      `2k + 1`, the higher half first. */
  lemma {:induction false} DecodeMeaning(s: string)
    ensures Decode(s).Some? <==> |s| % 2 == 0 && forall i :: 0 <= i < |s| ==> Digit(s[i]).Some?
    ensures Decode(s).Some? ==> |Decode(s).value| == |s| / 2
    ensures Decode(s).Some? ==>
      forall k :: 0 <= k < |s| / 2 ==> Decode(s).value[k] == Digit(s[2 * k]).value * 16 + Digit(s[2 * k + 1]).value
  {
    if |s| >= 2 {
      var rest := s[2..];
      DecodeMeaning(rest);
      assert forall i :: 0 <= i < |rest| ==> rest[i] == s[i + 2];
      assert (forall i :: 0 <= i < |s| ==> Digit(s[i]).Some?) <==>
        Digit(s[0]).Some? && Digit(s[1]).Some? && forall i :: 0 <= i < |rest| ==> Digit(rest[i]).Some? by {
        assert forall i :: 2 <= i < |s| ==> s[i] == rest[i - 2];
      }
      if Decode(s).Some? {
        forall k | 0 <= k < |s| / 2
          ensures Decode(s).value[k] == Digit(s[2 * k]).value * 16 + Digit(s[2 * k + 1]).value
        {
          if k > 0 {
            assert Decode(s).value[k] == Decode(rest).value[k - 1];
          }
        }
      }
    }
  }

  lemma {:induction false} EncodeStable(b: seq<byte>)
    ensures Lower(Encode(b)) == Encode(b) && Trim(Encode(b)) == Encode(b)
  {
    EncodeIsPlain(b);
  }

  /** Any text that decodes is, up to letter case, the encoding of what it decodes to. */
  lemma {:induction false} DecodeEncode(s: string)
    requires Decode(s).Some?
    ensures Encode(Decode(s).value) == Lower(s)
  {
    if |s| == 0 {
      assert Lower(s) == "" && Decode(s) == Some([]);
    } else {
      var pair := DecodePair(s);
      var (hi, lo) := (DIGITS[pair.0], DIGITS[pair.1]);
      calc {
        Encode(Decode(s).value);
        { EncodePair(pair.0, pair.1, pair.2); }
        [hi, lo] + Encode(pair.2);
        { DecodeEncode(s[2..]); }
        [hi, lo] + Lower(s[2..]);
        { LowerSplit(s); }
        Lower(s);
      }
    }
  }

  /** The two digits a decodable text starts with, and what the rest of it denotes. */
  lemma DecodePair(s: string) returns (p: (nat, nat, seq<byte>))
    requires |s| != 0 && Decode(s).Some?
    ensures |s| >= 2 && Decode(s[2..]) == Some(p.2) && p.0 < 16 && p.1 < 16
    ensures DIGITS[p.0] == LowerChar(s[0]) && DIGITS[p.1] == LowerChar(s[1])
    ensures Decode(s).value == [p.0 * 16 + p.1] + p.2
  {
    DigitIsDigits(s[0]);
    DigitIsDigits(s[1]);
    p := (Digit(s[0]).value, Digit(s[1]).value, Decode(s[2..]).value);
  }

  lemma {:induction false} EncodePair(hi: nat, lo: nat, rest: seq<byte>)
    requires hi < 16 && lo < 16
    ensures Encode([hi * 16 + lo] + rest) == [DIGITS[hi], DIGITS[lo]] + Encode(rest)
  {
    var b: seq<byte> := [hi * 16 + lo] + rest;
    assert b[1..] == rest && b[0] / 16 == hi && b[0] % 16 == lo;
  }

  lemma LowerSplit(s: string)
    requires |s| >= 2
    ensures Lower(s) == [LowerChar(s[0]), LowerChar(s[1])] + Lower(s[2..])
  {
  }

  /** Odd-length text never decodes. */
  lemma {:induction false} OddNeverDecodes(s: string)
    requires |s| % 2 == 1
    ensures Decode(s).None?
  {
    if |s| > 1 {
      OddNeverDecodes(s[2..]);
    }
  }

  /** Display text determines the hash and back: the two directions of the display/internal reversal. */
  lemma DisplayRoundTrip(h: Bytes32)
    ensures ParseHash(DisplayHash(h)) == Some(h)
    ensures Lower(DisplayHash(h)) == DisplayHash(h)
  {
    EncodeDecode(Reverse(h));
    EncodeStable(Reverse(h));
    assert Reverse(Reverse(h)) == h;
  }

  lemma {:induction false} ParsedDisplay(s: string)
    requires ParseHash(s).Some?
    ensures DisplayHash(ParseHash(s).value) == Lower(Trim(s))
  {
    var b := Decode(Trim(s)).value;
    DecodeEncode(Trim(s));
    assert Reverse(Reverse(b)) == b;
  }

  /** What a text denotes, given the bytes its first digits denote and what the rest does. */
  function After(out: seq<byte>, rest: Option<seq<byte>>): Option<seq<byte>> {
    match rest case Some(bytes) => Some(out + bytes) case None => None
  }

  lemma AfterNothing(d: Option<seq<byte>>)
    ensures After([], d) == d
  {
    if d.Some? {
      assert [] + d.value == d.value;
    }
  }

  /** One pair of digits: without two digits the whole text denotes nothing, otherwise one byte more is known. */
  lemma DecodeStep(out: seq<byte>, s: string, i: nat)
    requires i + 1 < |s|
    ensures match (Digit(s[i]), Digit(s[i + 1]))
      case (Some(hi), Some(lo)) => After(out, Decode(s[i..])) == After(out + [hi * 16 + lo], Decode(s[i + 2..]))
      case _ => Decode(s[i..]).None?
  {
    assert s[i..][2..] == s[i + 2..];
    match (Digit(s[i]), Digit(s[i + 1]))
    case (Some(hi), Some(lo)) =>
      if Decode(s[i + 2..]).Some? {
        var rest := Decode(s[i + 2..]).value;
        assert out + ([hi * 16 + lo] + rest) == (out + [hi * 16 + lo]) + rest;
      }
    case _ =>
  }

  /** Decodes upper- or lower-case text pair by pair, ignoring surrounding white space. */
  method HexToBytes(text: string) returns (r: Option<seq<byte>>)
    ensures r == Decode(Trim(text))
    ensures r.Some? <==> |Trim(text)| % 2 == 0 && forall i :: 0 <= i < |Trim(text)| ==> Digit(Trim(text)[i]).Some?
    ensures r.Some? ==> |r.value| == |Trim(text)| / 2
    ensures r.Some? ==> forall k :: 0 <= k < |r.value| ==>
      r.value[k] == Digit(Trim(text)[2 * k]).value * 16 + Digit(Trim(text)[2 * k + 1]).value
  {
    var s := Trim(text);
    DecodeMeaning(s);
    if |s| % 2 != 0 {
      OddNeverDecodes(s);
      return None;
    }
    var out: seq<byte> := [];
    var i := 0;
    assert s[0..] == s;
    AfterNothing(Decode(s));
    while i < |s|
      invariant 0 <= i <= |s| && i % 2 == 0
      invariant Decode(s) == After(out, Decode(s[i..]))
    {
      DecodeStep(out, s, i);
      var hi, lo := Digit(s[i]), Digit(s[i + 1]);
      if hi.None? || lo.None? {
        return None;
      }
      out := out + [hi.value * 16 + lo.value];
      i := i + 2;
    }
    assert s[i..] == "" && Decode("") == Some([]) && out + [] == out;
    r := Some(out);
  }

  /** Encodes byte by byte. */
  method BytesToHex(b: seq<byte>) returns (s: string)
    ensures s == Encode(b)
  {
    s := "";
    for i := 0 to |b|
      invariant Encode(b) == s + Encode(b[i..])
    {
      assert b[i..][1..] == b[i + 1..];
      s := s + [DIGITS[b[i] / 16], DIGITS[b[i] % 16]];
    }
  }

  /** Reads a 32-byte display hash; anything but exactly 32 bytes is refused. */
  method Hash32DisplayToInternal(display: string) returns (r: Option<Bytes32>)
    ensures r == ParseHash(display)
    ensures r.Some? <==> |Trim(display)| == 64 && forall i :: 0 <= i < 64 ==> Digit(Trim(display)[i]).Some?
    ensures r.Some? ==> forall k :: 0 <= k < 32 ==>
      r.value[k] == Digit(Trim(display)[2 * (31 - k)]).value * 16 + Digit(Trim(display)[2 * (31 - k) + 1]).value
  {
    var bytes := HexToBytes(display);
    if bytes.None? || |bytes.value| != 32 {
      return None;
    }
    r := Some(Reverse(bytes.value));
  }
}
