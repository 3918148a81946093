/** The bytes beneath the Base64 text of page cursors (src/api.rs:1851-1889). */
module Cursors {
  import opened Wrappers
  import opened Schema
  import opened Bytes

  // ---- block cursors ----

  function EncodeCursor(height: nat): seq<Byte> {
    BigEndian(height, 8)
  }

  function DecodeCursor(bytes: seq<Byte>): Option<nat> {
    if |bytes| != 8 || FromBigEndian(bytes) > I64_MAX then None else Some(FromBigEndian(bytes))
  }

  /** A block cursor decodes to a height exactly when it is the encoding of that
      height and the height fits the database. */
  lemma BlockCursorInverse(bytes: seq<Byte>, height: nat)
    requires height <= U64_MAX
    ensures DecodeCursor(bytes) == Some(height) <==> bytes == EncodeCursor(height) && height <= I64_MAX
  {
    Widths();
    if bytes == EncodeCursor(height) {
      ReadBack(height, 8);
    }
    WriteBack(bytes);
  }

  // ---- transaction cursors ----

  /** Fills a buffer with the height and then the position. */
  method EncodeTxCursor(height: nat, position: nat) returns (bytes: seq<Byte>)
    requires height <= U64_MAX && position <= I32_MAX
    ensures |bytes| == 12
    ensures DecodeTxCursor(bytes) == Some((height, position))
    ensures forall other :: DecodeTxCursor(other) == Some((height, position)) ==> other == bytes
  {
    bytes := [];
    bytes := bytes + BigEndian(height, 8);
    bytes := bytes + BigEndian(position, 4);
    Widths();
    ReadBack(height, 8);
    ReadBack(position, 4);
    assert bytes[..8] == BigEndian(height, 8) && bytes[8..] == BigEndian(position, 4);
    forall other | DecodeTxCursor(other) == Some((height, position))
      ensures other == bytes
    {
      WriteBack(other[..8]);
      WriteBack(other[8..]);
      assert other == other[..8] + other[8..];
    }
  }

  // Two's complement: a set top bit is a negative position.
  function SignedWord(word: nat): int {
    if word > I32_MAX then word - U32_MAX - 1 else word
  }

  function DecodeTxCursor(bytes: seq<Byte>): Option<(nat, nat)> {
    if |bytes| != 12 then None
    else
      var position := SignedWord(FromBigEndian(bytes[8..]));
      if position < 0 then None else Some((FromBigEndian(bytes[..8]), position))
  }

  /** Exactly the encodings of a 64-bit height and a non-negative 32-bit position
      decode. */
  lemma TxCursorDecodes(bytes: seq<Byte>)
    ensures DecodeTxCursor(bytes).Some? <==>
            exists height: nat, position: nat :: height <= U64_MAX && position <= I32_MAX &&
              bytes == BigEndian(height, 8) + BigEndian(position, 4)
  {
    Widths();
    if DecodeTxCursor(bytes).Some? {
      WriteBack(bytes[..8]);
      WriteBack(bytes[8..]);
      assert bytes == bytes[..8] + bytes[8..];
    }
    forall height: nat, position: nat | height <= U64_MAX && position <= I32_MAX &&
        bytes == BigEndian(height, 8) + BigEndian(position, 4)
      ensures DecodeTxCursor(bytes).Some?
    {
      assert bytes[8..] == BigEndian(position, 4);
      ReadBack(position, 4);
    }
  }
}
