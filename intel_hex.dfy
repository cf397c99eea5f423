/**
 * An independent reader of Intel HEX records (one line: `:`, then byte
 * count, 16-bit address, record type, data and checksum as hex digit
 * pairs, all bytes summing to 0 modulo 256). It is the partner against
 * which the records the station writes are judged.
 */
module IntelHex {
  import opened Wrappers
  import opened Text
  import opened Numerals
  import opened HexCodec

  datatype Record = Record(byteCount: nat, address: nat, recordType: nat, data: seq<nat>, checksum: nat)

  /** A line is a record when it is `:` followed by an even number of hex digits whose bytes decode. */
  function ParseRecord(line: string): Option<Record>
  {
    if |line| == 0 || line[0] != ':' || !IsHexString(line[1..]) then None
    else
      var b := Bytes(line[1..]);
      if |line| != 2 * |b| + 1 then None else DecodeRecord(b)
  }

  /** The bytes of a record: count, address (two bytes), type, data, checksum; all summing to 0 mod 256. */
  function DecodeRecord(b: seq<nat>): Option<Record>
  {
    if |b| < 5 || b[0] != |b| - 5 || Sum(b) % 256 != 0 then None
    else Some(Record(b[0], b[1] * 256 + b[2], b[3], b[4..|b| - 1], b[|b| - 1]))
  }

  /** A marked line of an even number of hex digits is read through its bytes. */
  lemma ParseRecordBytes(line: string, h: string)
    requires line == ":" + h && IsHexString(h) && |h| % 2 == 0
    ensures ParseRecord(line) == DecodeRecord(Bytes(h))
  {
    assert line[1..] == h;
    BytesLength(h);
  }

  /** A line that starts with the mark and continues with an even number of hex digits is read through its bytes. */
  lemma ParseMarkedLine(line: string)
    requires |line| > 0 && line[0] == ':' && IsHexString(line[1..]) && |line| % 2 == 1
    ensures ParseRecord(line) == DecodeRecord(Bytes(line[1..]))
  {
    BytesLength(line[1..]);
  }

  /** The first pair of digits is the first byte. */
  lemma BytesCons(a: string, rest: string)
    requires |a| == 2
    ensures Bytes(a + rest) == [Value(a, Hexadecimal)] + Bytes(rest)
  {
    assert (a + rest)[..2] == a;
    assert (a + rest)[2..] == rest;
  }

  /** The `k`-th byte is the `k`-th pair of digits. */
  lemma {:induction false} BytesAt(h: string, k: nat)
    requires 2 * k + 2 <= |h|
    ensures k < |Bytes(h)| && Bytes(h)[k] == Value(h[2 * k..2 * k + 2], Hexadecimal)
    decreases k
  {
    if k > 0 {
      BytesAt(h[2..], k - 1);
      assert h[2..][2 * (k - 1)..2 * (k - 1) + 2] == h[2 * k..2 * k + 2];
    }
  }

  lemma ElaBytes()
    ensures Bytes(ExtendedLinearAddressRecord[1..]) == [2, 0, 0, 4, 0x10, 0, 0xEA]
  {
    var h := ExtendedLinearAddressRecord[1..];
    BytesLength(h);
    BytesAt(h, 0);
    ValueOfPair(h[0..2]);
    BytesAt(h, 1);
    ValueOfPair(h[2..4]);
    BytesAt(h, 2);
    ValueOfPair(h[4..6]);
    BytesAt(h, 3);
    ValueOfPair(h[6..8]);
    BytesAt(h, 4);
    ValueOfPair(h[8..10]);
    BytesAt(h, 5);
    ValueOfPair(h[10..12]);
    BytesAt(h, 6);
    ValueOfPair(h[12..14]);
  }

  lemma ElaHex()
    ensures IsHexString(ExtendedLinearAddressRecord[1..])
    ensures |ExtendedLinearAddressRecord| == 15 && ExtendedLinearAddressRecord[0] == ':'
  {
  }

  /** The address record of `product.hex` selects the upper address 0x1000. */
  lemma ParseExtendedLinearAddress()
    ensures ParseRecord(ExtendedLinearAddressRecord) == Some(Record(2, 0, 4, [0x10, 0x00], 0xEA))
  {
    ElaBytes();
    ElaHex();
    ElaDecode();
    ParseMarkedLine(ExtendedLinearAddressRecord);
  }

  lemma ElaDecode()
    ensures DecodeRecord([2, 0, 0, 4, 0x10, 0, 0xEA]) == Some(Record(2, 0, 4, [0x10, 0x00], 0xEA))
  {
    var b: seq<nat> := [2, 0, 0, 4, 0x10, 0, 0xEA];
    assert Sum(b) == 256;
    assert b[4..|b| - 1] == [0x10, 0x00];
  }

  lemma EofBytes()
    ensures Bytes(EndOfFileRecord[1..]) == [0, 0, 0, 1, 0xFF]
  {
    var h := EndOfFileRecord[1..];
    BytesLength(h);
    BytesAt(h, 0);
    ValueOfPair(h[0..2]);
    BytesAt(h, 1);
    ValueOfPair(h[2..4]);
    BytesAt(h, 2);
    ValueOfPair(h[4..6]);
    BytesAt(h, 3);
    ValueOfPair(h[6..8]);
    BytesAt(h, 4);
    ValueOfPair(h[8..10]);
  }

  /** The last line of `product.hex` is an end-of-file record. */
  lemma ParseEndOfFile()
    ensures ParseRecord(EndOfFileRecord) == Some(Record(0, 0, 1, [], 0xFF))
  {
    EofBytes();
    EofHex();
    EofDecode();
    ParseMarkedLine(EndOfFileRecord);
  }

  lemma EofHex()
    ensures IsHexString(EndOfFileRecord[1..])
    ensures |EndOfFileRecord| == 11 && EndOfFileRecord[0] == ':'
  {
  }

  lemma EofDecode()
    ensures DecodeRecord([0, 0, 0, 1, 0xFF]) == Some(Record(0, 0, 1, [], 0xFF))
  {
    var b: seq<nat> := [0, 0, 0, 1, 0xFF];
    assert Sum(b) == 256;
    assert b[4..|b| - 1] == [];
  }

  lemma HexAppend(a: string, b: string)
    requires IsHexString(a) && IsHexString(b)
    ensures IsHexString(a + b)
  {
    assert forall i :: |a| <= i < |a + b| ==> (a + b)[i] == b[i - |a|];
  }

  /** An even-length string followed by one more pair: its bytes, then that pair's value. */
  lemma BytesSnoc(x: string, c: string)
    requires |x| % 2 == 0 && |c| == 2
    ensures Bytes(x + c) == Bytes(x) + [Value(c, Hexadecimal)]
  {
    BytesAppend(x, c);
    BytesCons(c, "");
    assert c + "" == c;
  }

  /** Decoding a payload's bytes followed by a checksum byte. */
  lemma DecodeWithChecksum(p: seq<nat>, v: nat)
    requires |p| >= 4
    ensures DecodeRecord(p + [v]).Some? <==> p[0] == |p| - 4 && (Sum(p) + v) % 256 == 0
    ensures DecodeRecord(p + [v]).Some? ==> DecodeRecord(p + [v]) == Some(Record(p[0], p[1] * 256 + p[2], p[3], p[4..], v))
  {
    var b := p + [v];
    SumSnoc(p, v);
    ModOfEqual(Sum(b), Sum(p) + v);
    SnocFields(p, v);
    if p[0] == |p| - 4 && (Sum(p) + v) % 256 == 0 {
      assert DecodeRecord(b) == Some(Record(p[0], p[1] * 256 + p[2], p[3], p[4..], v));
    } else {
      assert DecodeRecord(b) == None;
    }
  }

  /** The fields of a payload followed by one more byte. */
  lemma SnocFields(p: seq<nat>, v: nat)
    requires |p| >= 4
    ensures var b := p + [v];
      |b| == |p| + 1 && b[0] == p[0] && b[1] == p[1] && b[2] == p[2] && b[3] == p[3]
      && b[|b| - 1] == v && b[4..|b| - 1] == p[4..]
  {
    var b := p + [v];
    assert b[4..|b| - 1] == p[4..];
  }

  lemma ModOfEqual(a: int, b: int)
    requires a == b
    ensures a % 256 == b % 256
  {
  }

  lemma SumSnoc(p: seq<nat>, v: nat)
    ensures Sum(p + [v]) == Sum(p) + v
  {
    SumAppend(p, [v]);
    assert [v][1..] == [];
  }

  /** The record made of a payload and any two checksum digits is read through the payload's bytes. */
  lemma ParseMarkedPayload(x: string, c: string)
    requires IsHexString(x) && |x| % 2 == 0 && IsHexString(c) && |c| == 2
    ensures ParseRecord(":" + x + c) == DecodeRecord(Bytes(x) + [Value(c, Hexadecimal)])
  {
    HexAppend(x, c);
    assert ":" + x + c == ":" + (x + c);
    ParseRecordBytes(":" + x + c, x + c);
    BytesSnoc(x, c);
  }

  /**
   * What `get_hex_line` writes for an even-length hex payload of at least
   * four bytes is a valid record exactly when the payload's count byte is
   * its number of data bytes and its byte sum is at least 128; the record
   * then carries the payload's fields and the checksum that
   * `twos_complement` gives.
   */
  lemma ParseHexLine(x: string)
    requires IsHexString(x) && |x| % 2 == 0 && |x| >= 8
    ensures |Bytes(x)| >= 4
    ensures ParseRecord(HexLine(x)).Some? <==> Bytes(x)[0] == |Bytes(x)| - 4 && ByteSum(x) >= 128
    ensures ParseRecord(HexLine(x)).Some? ==> ParseRecord(HexLine(x)) == Some(Record(
      Bytes(x)[0], Bytes(x)[1] * 256 + Bytes(x)[2], Bytes(x)[3], Bytes(x)[4..],
      TwosComplement(ByteSum(x)) % 256))
  {
    var s := ByteSum(x);
    var v := TwosComplement(s) % 256;
    ChecksumBalancesIff(s);
    DecodeChecked(x, s, v);
    HexLineDecodes(x);
  }

  /** `DecodeBalanced` for a checksum byte that balances exactly the sums of at least 128. */
  lemma DecodeChecked(x: string, s: nat, v: nat)
    requires IsHexString(x) && |x| % 2 == 0 && |x| >= 8 && s == ByteSum(x)
    requires (s + v) % 256 == 0 <==> s >= 128
    ensures |Bytes(x)| >= 4
    ensures DecodeRecord(Bytes(x) + [v]).Some? <==> Bytes(x)[0] == |Bytes(x)| - 4 && s >= 128
    ensures DecodeRecord(Bytes(x) + [v]).Some? ==> DecodeRecord(Bytes(x) + [v]) == Some(Record(
      Bytes(x)[0], Bytes(x)[1] * 256 + Bytes(x)[2], Bytes(x)[3], Bytes(x)[4..], v))
  {
    DecodeBalanced(x, v);
  }

  /** The record written for an even-length hex payload decodes through its bytes and its checksum byte. */
  lemma HexLineDecodes(x: string)
    requires IsHexString(x) && |x| % 2 == 0
    ensures ParseRecord(HexLine(x)) == DecodeRecord(Bytes(x) + [TwosComplement(ByteSum(x)) % 256])
  {
    var s := ByteSum(x);
    var c := ChecksumText(s);
    ChecksumTextSpec(s);
    LowerHexIsHex(c);
    ParseMarkedPayload(x, c);
  }

  /**
   * A payload of at least four bytes followed by any byte `v` is a record
   * exactly when its count byte is its number of data bytes and `v`
   * balances the payload's byte sum.
   */
  lemma DecodeBalanced(x: string, v: nat)
    requires IsHexString(x) && |x| % 2 == 0 && |x| >= 8
    ensures |Bytes(x)| >= 4
    ensures DecodeRecord(Bytes(x) + [v]).Some?
      <==> Bytes(x)[0] == |Bytes(x)| - 4 && (ByteSum(x) + v) % 256 == 0
    ensures DecodeRecord(Bytes(x) + [v]).Some? ==> DecodeRecord(Bytes(x) + [v]) == Some(Record(
      Bytes(x)[0], Bytes(x)[1] * 256 + Bytes(x)[2], Bytes(x)[3], Bytes(x)[4..], v))
  {
    BytesLength(x);
    DecodeWithChecksum(Bytes(x), v);
    ByteSumIsBytes(x);
    SumModEqual(Sum(Bytes(x)), v, ByteSum(x), v);
  }

  /** Equal summands give equal sums modulo 256. */
  lemma SumModEqual(a: int, b: int, a': int, b': int)
    requires a == a' && b == b'
    ensures (a + b) % 256 == (a' + b') % 256
  {
  }

  lemma PrefixBytes()
    ensures Bytes(ProductRecordPrefix) == [0x10, 0x10, 0x80, 0x00]
  {
    var h := ProductRecordPrefix;
    BytesLength(h);
    BytesAt(h, 0);
    ValueOfPair(h[0..2]);
    BytesAt(h, 1);
    ValueOfPair(h[2..4]);
    BytesAt(h, 2);
    ValueOfPair(h[4..6]);
    BytesAt(h, 3);
    ValueOfPair(h[6..8]);
  }

  /** The payload of the identifier record: the prefix's four bytes, then the identifier's codes. */
  lemma ProductPayload(boardId: string)
    requires IsByteString(boardId)
    ensures var x := ProductRecordPrefix + EncodeAscii(boardId);
      IsHexString(x) && |x| % 2 == 0 && |x| >= 8
    ensures ByteSum(ProductRecordPrefix + EncodeAscii(boardId)) >= 128
    ensures Bytes(ProductRecordPrefix + EncodeAscii(boardId)) == [0x10, 0x10, 0x80, 0x00] + Ords(boardId)
  {
    var e := EncodeAscii(boardId);
    var x := ProductRecordPrefix + e;
    var n := |boardId|;
    assert |x| == 2 * (4 + n) by {
      EncodeAsciiLength(boardId);
    }
    assert IsHexString(x) by {
      EncodeAsciiIsLowerHex(boardId);
      assert IsHexString(ProductRecordPrefix);
      HexAppend(ProductRecordPrefix, e);
    }
    assert ByteSum(x) >= 128 by {
      ProductRecordChecksum(boardId);
    }
    assert Bytes(x) == [0x10, 0x10, 0x80, 0x00] + Ords(boardId) by {
      BytesOfEncodeAscii(boardId);
      BytesAppend(ProductRecordPrefix, e);
      PrefixBytes();
    }
  }

  /**
   * The identifier record of `product.hex` declares 16 data bytes, so for a
   * one-byte identifier it is a valid record exactly when the identifier
   * has 16 characters.
   */
  lemma ProductRecordValidIff(boardId: string)
    requires IsByteString(boardId)
    ensures ParseRecord(ProductRecord(boardId)).Some? <==> |boardId| == 16
  {
    var x := ProductRecordPrefix + EncodeAscii(boardId);
    ProductPayload(boardId);
    ParseHexLine(x);
    var p := Bytes(x);
    assert p[0] == 16 && |p| - 4 == |boardId|;
  }

  /**
   * A 16-character one-byte identifier is stored as a data record holding
   * its character codes at address 0x1080, with the textbook checksum.
   */
  lemma ProductRecordFields(boardId: string)
    requires IsByteString(boardId) && |boardId| == 16
    ensures ParseRecord(ProductRecord(boardId)) == Some(Record(16, 0x1080, 0,
      Ords(boardId), StandardChecksum(ByteSum(ProductRecordPrefix + EncodeAscii(boardId)))))
  {
    var x := ProductRecordPrefix + EncodeAscii(boardId);
    ProductPayload(boardId);
    ProductRecordChecksum(boardId);
    ParseHexLine(x);
    var p := Bytes(x);
    assert p[0] == 16 && p[1] * 256 + p[2] == 0x1080 && p[3] == 0;
    assert |p| - 4 == |boardId|;
    assert p[4..] == Ords(boardId);
  }

  /**
   * Read line by line, `product.hex` for a 16-character one-byte identifier
   * is the address record, the identifier's data record and the
   * end-of-file record, then nothing after the last newline.
   */
  lemma ProductHexRecords(boardId: string)
    requires IsByteString(boardId) && |boardId| == 16
    ensures var lines := Split(ProductHexContents(boardId), '\n');
      |lines| == 4
      && ParseRecord(lines[0]) == Some(Record(2, 0, 4, [0x10, 0x00], 0xEA))
      && ParseRecord(lines[1]).Some? && ParseRecord(lines[1]).value.data == Ords(boardId)
      && ParseRecord(lines[1]).value.address == 0x1080
      && ParseRecord(lines[2]) == Some(Record(0, 0, 1, [], 0xFF))
      && lines[3] == ""
  {
    ProductHexLines(boardId);
    ParseExtendedLinearAddress();
    ProductRecordFields(boardId);
    ParseEndOfFile();
  }

  /**
   * An identifier in the layout of `new_board_id` with a four-letter product
   * code has 18 characters, two more than the record's count byte declares,
   * so its record is not a valid one.
   */
  lemma EighteenCharacterIdRecord()
    ensures ParseRecord(ProductRecord("APPB01XX2501010000")).None?
  {
    var id := "APPB01XX2501010000";
    assert IsByteString(id);
    ProductRecordValidIff(id);
  }
}
