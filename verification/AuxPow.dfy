/** Reading the proof side of a raw block (src/auxpow.rs:254-385): the compact
    target, CompactSize and the Equihash solution. */
module AuxPow {
  import opened Wrappers
  import opened Schema
  import opened Bytes

  // ---- compact target (section 7.7.4 of the Zcash Protocol Specification) ----

  function HexValue(c: char): Option<nat> {
    if '0' <= c <= '9' then Some((c - '0') as nat)
    else if 'a' <= c <= 'f' then Some((c - 'a') as nat + 10)
    else if 'A' <= c <= 'F' then Some((c - 'A') as nat + 10)
    else None
  }

  predicate HexDigits(text: string) {
    forall i :: 0 <= i < |text| ==> HexValue(text[i]).Some?
  }

  function FromHex(text: string): nat
    requires HexDigits(text)
  {
    if text == [] then 0 else 16 * FromHex(text[..|text| - 1]) + HexValue(text[|text| - 1]).value
  }

  ghost predicate WellFormedBits(bits: string) {
    |bits| == 8 && HexDigits(bits)
  }

  function Power16(n: nat): nat {
    if n == 0 then 1 else 16 * Power16(n - 1)
  }

  lemma {:induction false} HexBound(text: string)
    requires HexDigits(text)
    ensures FromHex(text) < Power16(|text|)
    decreases |text|
  {
    if text != [] {
      HexBound(text[..|text| - 1]);
    }
  }

  /** Eight hexadecimal digits always fit the 32-bit word they are read into. */
  lemma BitsFit(bits: string)
    requires WellFormedBits(bits)
    ensures FromHex(bits) <= U32_MAX && SizeOf(FromHex(bits)) < 256
  {
    HexBound(bits);
    assert Power16(8) == 16 * Power16(7) && Power16(7) == 16 * Power16(6);
    assert Power16(6) == 16 * Power16(5) && Power16(5) == 16 * Power16(4);
    assert Power16(4) == 16 * Power16(3) && Power16(3) == 16 * Power16(2);
  }

  // The digits of a word in base 16, with leading zeros, in lower case.
  function HexText(word: nat, digits: nat): (text: string)
    ensures |text| == digits
  {
    if digits == 0 then "" else HexText(word / 16, digits - 1) + ["0123456789abcdef"[word % 16]]
  }

  function LowerCase(c: char): char {
    if 'A' <= c <= 'F' then "abcdef"[(c - 'A') as nat] else c
  }

  function Lowered(text: string): string {
    seq(|text|, i requires 0 <= i < |text| => LowerCase(text[i]))
  }

  lemma DigitExact(c: char, d: nat)
    requires d < 16
    ensures HexValue(c) == Some(d) <==> LowerCase(c) == "0123456789abcdef"[d]
  {
    assert "0123456789abcdef" ==
           ['0', '1', '2', '3', '4', '5', '6', '7', '8', '9', 'a', 'b', 'c', 'd', 'e', 'f'];
    assert "abcdef" == ['a', 'b', 'c', 'd', 'e', 'f'];
  }

  lemma LastDigit(text: string, word: nat)
    requires text != []
    ensures var n := |text| - 1;
            HexDigits(text) && FromHex(text) == word <==>
            && HexValue(text[n]) == Some(word % 16)
            && HexDigits(text[..n]) && FromHex(text[..n]) == word / 16
  {
    var n := |text| - 1;
    assert HexDigits(text) <==> HexDigits(text[..n]) && HexValue(text[n]).Some?;
    if HexDigits(text) {
      assert FromHex(text) == 16 * FromHex(text[..n]) + HexValue(text[n]).value;
    }
  }

  /** A text reads back as a word exactly when it prints it, in either case of the
      letters. */
  lemma {:induction false} HexExact(text: string, word: nat)
    requires word < Power16(|text|)
    ensures HexDigits(text) && FromHex(text) == word <==> Lowered(text) == HexText(word, |text|)
    decreases |text|
  {
    if text != [] {
      var n := |text| - 1;
      HexExact(text[..n], word / 16);
      LastDigit(text, word);
      DigitExact(text[n], word % 16);
      var low, shown := Lowered(text), HexText(word, n + 1);
      assert low == Lowered(text[..n]) + [LowerCase(text[n])];
      assert low[..n] == Lowered(text[..n]) && low[n] == LowerCase(text[n]);
      assert shown[..n] == HexText(word / 16, n) && shown[n] == "0123456789abcdef"[word % 16];
      assert low == shown <==> low[..n] == shown[..n] && low[n] == shown[n];
    }
  }

  // The word of the bits: one byte of size, one sign bit, 23 bits of mantissa.
  function SizeOf(compact: nat): nat {
    compact / 0x100_0000
  }

  predicate Negative(compact: nat) {
    compact / 0x80_0000 % 2 == 1
  }

  function Mantissa(compact: nat): nat {
    compact % 0x80_0000
  }

  /** The size is the high byte, the sign the next bit and the mantissa the rest. */
  lemma CompactParts(compact: nat, size: nat, negative: bool, mantissa: nat)
    requires mantissa < 0x80_0000
    ensures SizeOf(compact) == size && Negative(compact) == negative && Mantissa(compact) == mantissa <==>
            compact == 0x100_0000 * size + (if negative then 0x80_0000 else 0) + mantissa
  {
    var bits := compact / 0x80_0000;
    assert compact == 0x80_0000 * bits + Mantissa(compact);
    assert SizeOf(compact) == bits / 2;
  }

  /** Mantissa times 256 to the power size - 3, rounded down. */
  ghost function TargetOf(size: nat, word: nat): nat {
    if size >= 3 then word * Power256(size - 3) else Quotient(word, Power256(3 - size))
  }

  ghost function TargetValue(compact: nat): nat {
    TargetOf(SizeOf(compact), Mantissa(compact))
  }

  method CopyInto(target: array<Byte>, offset: nat, bytes: seq<Byte>)
    requires offset + |bytes| <= target.Length
    modifies target
    ensures target[offset..offset + |bytes|] == bytes
    ensures forall i :: 0 <= i < target.Length && !(offset <= i < offset + |bytes|) ==>
              target[i] == old(target[i])
  {
    var n := 0;
    while n < |bytes|
      invariant n <= |bytes|
      invariant forall i :: 0 <= i < n ==> target[offset + i] == bytes[i]
      invariant forall i :: 0 <= i < target.Length && !(offset <= i < offset + n) ==>
                  target[i] == old(target[i])
    {
      target[offset + n] := bytes[n];
      n := n + 1;
    }
  }

  // Sizes up to 3 shift the mantissa down.
  method NarrowTarget(size: nat, word: nat) returns (r: seq<Byte>)
    requires size <= 3 && word < 0x80_0000
    ensures |r| == 32 && FromLittleEndian(r) == TargetOf(size, word)
  {
    var target := new Byte[32](_ => 0);
    var value := Quotient(word, Power256(3 - size));
    SmallWord(word, 3 - size);
    CopyInto(target, 0, LittleEndian(value, 4));
    ShiftedBytes(target[..], 0, LittleEndian(value, 4));
    ReadBackLittle(value, 4);
    return target[..];
  }

  // Greater sizes place its three bytes higher up.
  method WideTarget(size: nat, word: nat) returns (r: seq<Byte>)
    requires 3 < size <= 32 && word < 0x80_0000
    ensures |r| == 32 && FromLittleEndian(r) == TargetOf(size, word)
  {
    var target := new Byte[32](_ => 0);
    var offset := size - 3;
    CopyInto(target, offset, LittleEndian(word, 4)[..3]);
    WordBytes(word);
    ShiftedBytes(target[..], offset, LittleEndian(word, 4)[..3]);
    return target[..];
  }

  // The bytes of a word whose size is in range.
  method TargetBytes(size: nat, word: nat) returns (r: seq<Byte>)
    requires size <= 32 && word < 0x80_0000
    ensures |r| == 32 && FromLittleEndian(r) == TargetOf(size, word) < Power256(32)
  {
    hide TargetOf, LittleEndian, FromLittleEndian, Power256;
    if size <= 3 {
      r := NarrowTarget(size, word);
    } else {
      r := WideTarget(size, word);
    }
    WriteBackLittle(r);
  }

  /** Rejected are exactly the words that are malformed, zero, negative or wider
      than the array; for all others the 32 bytes, least significant first, are
      the target value. What the library makes of them comes after this. */
  method CompactTarget(bits: string) returns (r: Outcome<seq<Byte>>)
    ensures r.Ok? <==>
              && WellFormedBits(bits)
              && Mantissa(FromHex(bits)) != 0 && !Negative(FromHex(bits))
              && SizeOf(FromHex(bits)) <= 32
    ensures r.Ok? ==>
              && |r.value| == 32
              && FromLittleEndian(r.value) == TargetValue(FromHex(bits)) < Power256(32)
    ensures r.Err? ==> r.error == InvalidAuxPow
  {
    if |bits| != 8 || exists i :: 0 <= i < |bits| && HexValue(bits[i]).None? {
      return Err(InvalidAuxPow);
    }
    var compact := FromHex(bits);
    var size, word := SizeOf(compact), Mantissa(compact);
    if word == 0 || Negative(compact) {
      return Err(InvalidAuxPow);
    }
    if size > 3 && size - 3 + 3 > 32 {
      return Err(InvalidAuxPow);
    }
    var target := TargetBytes(size, word);
    return Ok(target);
  }

  lemma SmallPowers()
    ensures Power256(0) == 1 && Power256(1) == 256 && Power256(2) == 0x1_0000
    ensures Power256(3) == 0x100_0000 && Power256(4) == 0x1_0000_0000
  {
    assert Power256(4) == 256 * Power256(3) && Power256(3) == 256 * Power256(2);
  }

  lemma SmallWord(word: nat, shift: nat)
    requires word < 0x80_0000 && shift <= 3
    ensures Quotient(word, Power256(shift)) < Power256(4)
    ensures shift == 0 ==> Quotient(word, Power256(shift)) == word * Power256(0)
  {
    SmallPowers();
    assert shift == 0 || shift == 1 || shift == 2 || shift == 3;
  }

  // The mantissa has no fourth byte.
  lemma WordBytes(word: nat)
    requires word < 0x80_0000
    ensures FromLittleEndian(LittleEndian(word, 4)[..3]) == word
  {
    assert Power256(3) == 256 * Power256(2) && Power256(2) == 65536;
    ReadBackLittle(word, 3);
    assert LittleEndian(word, 4)[..3] == LittleEndian(word, 3) by {
      assert LittleEndian(word, 4) == [word % 256] + LittleEndian(word / 256, 3);
      assert LittleEndian(word / 256, 3) == [word / 256 % 256] + LittleEndian(word / 256 / 256, 2);
      assert LittleEndian(word, 3) == [word % 256] + LittleEndian(word / 256, 2);
      assert LittleEndian(word / 256, 2) == [word / 256 % 256] + LittleEndian(word / 256 / 256, 1);
    }
  }

  // ---- CompactSize ----

  // Marker, width of the value that follows and the least value of that width.
  function EncodeCompactSize(value: nat): seq<Byte>
    requires value <= U64_MAX
  {
    if value < 0xfd then [value]
    else if value <= 0xffff then [0xfd] + LittleEndian(value, 2)
    else if value <= U32_MAX then [0xfe] + LittleEndian(value, 4)
    else [0xff] + LittleEndian(value, 8)
  }

  // A value after a marker, refused when a shorter form exists.
  function DecodeWide(bytes: seq<Byte>, width: nat, least: nat): Option<(nat, nat)> {
    if |bytes| < 1 + width || FromLittleEndian(bytes[1..1 + width]) < least then None
    else Some((FromLittleEndian(bytes[1..1 + width]), 1 + width))
  }

  // The value and the number of bytes it took.
  function DecodeCompactSize(bytes: seq<Byte>): Option<(nat, nat)> {
    if bytes == [] then None
    else if bytes[0] <= 0xfc then Some((bytes[0], 1))
    else if bytes[0] == 0xfd then DecodeWide(bytes, 2, 0xfd)
    else if bytes[0] == 0xfe then DecodeWide(bytes, 4, 0x1_0000)
    else DecodeWide(bytes, 8, U32_MAX + 1)
  }

  lemma WideInverse(bytes: seq<Byte>, width: nat, least: nat, value: nat, marker: Byte)
    requires bytes != [] && bytes[0] == marker && value < Power256(width)
    ensures DecodeWide(bytes, width, least) == Some((value, 1 + width)) <==>
            value >= least && [marker] + LittleEndian(value, width) <= bytes
  {
    var encoded := [marker] + LittleEndian(value, width);
    if encoded <= bytes {
      assert bytes[1..1 + width] == LittleEndian(value, width);
      ReadBackLittle(value, width);
    }
    if |bytes| >= 1 + width {
      WriteBackLittle(bytes[1..1 + width]);
      assert bytes[..1 + width] == [bytes[0]] + bytes[1..1 + width];
    }
  }

  lemma WideFits(bytes: seq<Byte>, width: nat, least: nat)
    ensures DecodeWide(bytes, width, least).Some? ==>
              DecodeWide(bytes, width, least).value.0 < Power256(width)
  {
    if |bytes| >= 1 + width {
      WriteBackLittle(bytes[1..1 + width]);
    }
  }

  lemma Powers()
    ensures Power256(2) == 0x1_0000 && Power256(4) == U32_MAX + 1 && Power256(8) == U64_MAX + 1
  {
    assert Power256(2) == 256 * Power256(1);
    Widths();
  }

  /** Decoding inverts encoding for every 64-bit value and accepts nothing else:
      bytes decode to a value exactly when its one canonical form begins them. */
  lemma CompactSizeExact(bytes: seq<Byte>, value: nat, used: nat)
    requires value <= U64_MAX
    ensures DecodeCompactSize(bytes) == Some((value, used)) <==>
            EncodeCompactSize(value) <= bytes && used == |EncodeCompactSize(value)|
  {
    Powers();
    if bytes != [] && bytes[0] == 0xfd && value < Power256(2) {
      WideInverse(bytes, 2, 0xfd, value, 0xfd);
    }
    if bytes != [] && bytes[0] == 0xfe && value < Power256(4) {
      WideInverse(bytes, 4, 0x1_0000, value, 0xfe);
    }
    if bytes != [] && bytes[0] == 0xff {
      WideInverse(bytes, 8, U32_MAX + 1, value, 0xff);
    }
    WideFits(bytes, 2, 0xfd);
    WideFits(bytes, 4, 0x1_0000);
    WideFits(bytes, 8, U32_MAX + 1);
  }

  // ---- the solution of a block (section 7.6) ----

  const SOLUTION_OFFSET: nat := 140
  const SOLUTION_LIMIT: nat := 256 * 1024

  function SolutionFrom(raw: seq<Byte>): Option<seq<Byte>> {
    if |raw| < SOLUTION_OFFSET then None
    else
      match DecodeCompactSize(raw[SOLUTION_OFFSET..])
      case None => None
      case Some((length, used)) =>
        var start := SOLUTION_OFFSET + used;
        if length > SOLUTION_LIMIT || |raw| < start + length then None
        else Some(raw[start..start + length])
  }

  ghost predicate Serialized(raw: seq<Byte>, header: seq<Byte>, solution: seq<Byte>, rest: seq<Byte>) {
    && |header| == 140 && |solution| <= 262144
    && raw == header + EncodeCompactSize(|solution|) + solution + rest
  }

  lemma SolutionRead(raw: seq<Byte>, header: seq<Byte>, solution: seq<Byte>, rest: seq<Byte>)
    requires Serialized(raw, header, solution, rest)
    ensures SolutionFrom(raw) == Some(solution)
  {
    var encoded := EncodeCompactSize(|solution|);
    assert raw[SOLUTION_OFFSET..] == encoded + (solution + rest);
    assert encoded <= raw[SOLUTION_OFFSET..];
    CompactSizeExact(raw[SOLUTION_OFFSET..], |solution|, |encoded|);
    var start := SOLUTION_OFFSET + |encoded|;
    assert raw[start..start + |solution|] == solution;
  }

  /** The solution is read exactly from a header, a canonical length within the
      bound, that many bytes and any rest. */
  lemma SolutionExact(raw: seq<Byte>, solution: seq<Byte>)
    ensures SolutionFrom(raw) == Some(solution) <==>
            exists header, rest :: Serialized(raw, header, solution, rest)
  {
    forall header, rest | Serialized(raw, header, solution, rest)
      ensures SolutionFrom(raw) == Some(solution)
    {
      SolutionRead(raw, header, solution, rest);
    }
    if SolutionFrom(raw) == Some(solution) {
      var tail := raw[SOLUTION_OFFSET..];
      var (length, used) := DecodeCompactSize(tail).value;
      assert length == |solution|;
      CompactSizeExact(tail, length, used);
      var start := SOLUTION_OFFSET + used;
      assert tail[..used] == EncodeCompactSize(length);
      assert raw == raw[..SOLUTION_OFFSET] + tail[..used] + raw[start..start + length] + raw[start + length..];
      assert Serialized(raw, raw[..SOLUTION_OFFSET], solution, raw[start + length..]);
    }
  }
}
