/** Fixed-width integers as big-endian and little-endian bytes. */
module Bytes {
  import opened Schema

  type Byte = n: nat | n < 256

  // `count` big-endian bytes.
  function BigEndian(value: nat, count: nat): (r: seq<Byte>)
    ensures |r| == count
  {
    if count == 0 then [] else BigEndian(value / 256, count - 1) + [value % 256]
  }

  function FromBigEndian(bytes: seq<Byte>): nat {
    if bytes == [] then 0 else 256 * FromBigEndian(bytes[..|bytes| - 1]) + bytes[|bytes| - 1]
  }

  function Power256(count: nat): (r: nat)
    ensures r > 0
  {
    if count == 0 then 1 else 256 * Power256(count - 1)
  }

  lemma {:induction false} ReadBack(value: nat, count: nat)
    requires value < Power256(count)
    ensures FromBigEndian(BigEndian(value, count)) == value
    decreases count
  {
    if count > 0 {
      ReadBack(value / 256, count - 1);
      assert BigEndian(value, count)[..count - 1] == BigEndian(value / 256, count - 1);
    }
  }

  lemma {:induction false} WriteBack(bytes: seq<Byte>)
    ensures FromBigEndian(bytes) < Power256(|bytes|)
    ensures BigEndian(FromBigEndian(bytes), |bytes|) == bytes
    decreases |bytes|
  {
    if bytes != [] {
      WriteBack(bytes[..|bytes| - 1]);
    }
  }

  lemma Widths()
    ensures Power256(4) == U32_MAX + 1 && Power256(8) == U64_MAX + 1
  {
    assert Power256(4) == 256 * Power256(3) && Power256(2) == 65536;
    assert Power256(8) == 256 * Power256(7) && Power256(7) == 256 * Power256(6);
    assert Power256(6) == 256 * Power256(5) && Power256(5) == 256 * Power256(4);
  }

  // Rounding down.
  function Quotient(n: nat, d: nat): nat
    requires d > 0
  {
    n / d
  }

  lemma FirstByte(b: Byte, x: nat, p: nat)
    requires x < p
    ensures (b + 256 * x) / 256 == x && (b + 256 * x) % 256 == b && b + 256 * x < 256 * p
  {
  }

  // `count` little-endian bytes.
  function LittleEndian(value: nat, count: nat): (r: seq<Byte>)
    ensures |r| == count
  {
    if count == 0 then [] else [value % 256] + LittleEndian(value / 256, count - 1)
  }

  function FromLittleEndian(bytes: seq<Byte>): nat {
    if bytes == [] then 0 else bytes[0] + 256 * FromLittleEndian(bytes[1..])
  }

  lemma {:induction false} ReadBackLittle(value: nat, count: nat)
    requires value < Power256(count)
    ensures FromLittleEndian(LittleEndian(value, count)) == value
    decreases count
  {
    if count > 0 {
      ReadBackLittle(value / 256, count - 1);
      assert LittleEndian(value, count)[1..] == LittleEndian(value / 256, count - 1);
    }
  }

  lemma {:induction false} WriteBackLittle(bytes: seq<Byte>)
    ensures FromLittleEndian(bytes) < Power256(|bytes|)
    ensures LittleEndian(FromLittleEndian(bytes), |bytes|) == bytes
    decreases |bytes|
  {
    if bytes != [] {
      WriteBackLittle(bytes[1..]);
      FirstByte(bytes[0], FromLittleEndian(bytes[1..]), Power256(|bytes| - 1));
      assert bytes == [bytes[0]] + bytes[1..];
    }
  }

  lemma {:induction false} ZerosAfter(bytes: seq<Byte>, n: nat)
    requires n <= |bytes| && forall i :: n <= i < |bytes| ==> bytes[i] == 0
    ensures FromLittleEndian(bytes) == FromLittleEndian(bytes[..n])
    decreases |bytes|
  {
    if n > 0 {
      ZerosAfter(bytes[1..], n - 1);
      assert bytes[1..][..n - 1] == bytes[..n][1..];
    } else if bytes != [] {
      ZerosAfter(bytes[1..], 0);
    }
  }

  lemma {:induction false} ZerosBefore(bytes: seq<Byte>, n: nat)
    requires n <= |bytes| && forall i :: 0 <= i < n ==> bytes[i] == 0
    ensures FromLittleEndian(bytes) == FromLittleEndian(bytes[n..]) * Power256(n)
    decreases n
  {
    if n > 0 {
      ZerosBefore(bytes[1..], n - 1);
      assert bytes[1..][n - 1..] == bytes[n..];
      Regroup(FromLittleEndian(bytes[n..]), Power256(n - 1));
    }
  }

  lemma Regroup(x: nat, y: nat)
    ensures 256 * (x * y) == x * (256 * y)
  {
  }

  // `bytes` at `offset` in an array of zeros.
  lemma ShiftedBytes(all: seq<Byte>, offset: nat, bytes: seq<Byte>)
    requires offset + |bytes| <= |all| && all[offset..offset + |bytes|] == bytes
    requires forall i :: 0 <= i < |all| && !(offset <= i < offset + |bytes|) ==> all[i] == 0
    ensures FromLittleEndian(all) == FromLittleEndian(bytes) * Power256(offset)
  {
    ZerosBefore(all, offset);
    ZerosAfter(all[offset..], |bytes|);
    assert all[offset..][..|bytes|] == bytes;
  }
}
