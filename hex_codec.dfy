/**
 * The record builder of the test station: the hex rendering of the device
 * identifier (`intToHexStr`, `charToASCII`), the chunking and summing of a
 * hex payload (`split_len`, `get_hex_line`), the source's own checksum rule
 * (`twos_complement`) and the text of the small image written before the
 * merge (`gen_product_hex`).
 */
module HexCodec {
  import opened Text
  import opened Numerals

  predicate IsHexString(s: string)
  {
    AllDigitsOf(s, Hexadecimal)
  }

  predicate IsLowerHex(s: string)
  {
    forall i :: 0 <= i < |s| ==> IsLowerHexDigit(s[i])
  }

  lemma LowerHexIsHex(s: string)
    requires IsLowerHex(s)
    ensures IsHexString(s)
  {
    assert forall i :: 0 <= i < |s| ==> IsDigitOf(s[i], Hexadecimal);
  }

  /** Every character has a code below 256, so each one is one byte. */
  predicate IsByteString(s: string)
  {
    forall i :: 0 <= i < |s| ==> s[i] as int < 256
  }

  /** The two lowercase hex digits of a byte. */
  function ByteText(b: nat): string
    requires b < 256
  {
    [DigitChar(b / 16), DigitChar(b % 16)]
  }

  lemma ByteTextValue(b: nat)
    requires b < 256
    ensures Value(ByteText(b), Hexadecimal) == b && IsLowerHex(ByteText(b))
  {
    DigitRoundTrip(b / 16);
    DigitRoundTrip(b % 16);
    ValueOfPair(ByteText(b));
  }

  /** `intToHexStr(var)`: `format(var, 'x').zfill(2)`. */
  function IntToHexStr(v: nat): string
  {
    ZFill(ToBase(v, Hexadecimal), 2)
  }

  lemma ToBaseWide(n: nat)
    requires n >= 256
    ensures |ToBase(n, Hexadecimal)| >= 3
  {
    assert ToBase(n / 16, Hexadecimal) == ToBase(n / 256, Hexadecimal) + [DigitChar((n / 16) % 16)];
  }

  /**
   * `intToHexStr` writes lowercase hex digits denoting `v`, at least two of
   * them, and exactly the two digits of the byte when `v < 256`.
   */
  lemma IntToHexStrSpec(v: nat)
    ensures IsLowerHex(IntToHexStr(v)) && Value(IntToHexStr(v), Hexadecimal) == v
    ensures |IntToHexStr(v)| >= 2
    ensures |IntToHexStr(v)| == 2 <==> v < 256
    ensures v < 256 ==> IntToHexStr(v) == ByteText(v)
  {
    var d := ToBase(v, Hexadecimal);
    ToBaseDigits(v, Hexadecimal);
    ValueOfToBase(v, Hexadecimal);
    ZFillUnsigned(d, 2);
    var k := |IntToHexStr(v)| - |d|;
    ValueZeros(k, d, Hexadecimal);
    assert IntToHexStr(v) == Zeros(k) + d;
    if v < 256 {
      PadTwo(v, Hexadecimal);
    } else {
      ToBaseWide(v);
    }
  }

  /** `charToASCII(val)`: each character's code as `intToHexStr` writes it, concatenated. */
  function EncodeAscii(s: string): string
  {
    if |s| == 0 then "" else IntToHexStr(s[0] as nat) + EncodeAscii(s[1..])
  }

  /** `charToASCII`, as the source does it: build the list of per-character texts, then join it. */
  method CharToAscii(val: string) returns (r: string)
    ensures r == EncodeAscii(val)
  {
    var tempLst: seq<string> := [];
    var i := 0;
    while i < |val|
      invariant 0 <= i <= |val|
      invariant |tempLst| == i
      invariant Concat(tempLst) == EncodeAscii(val[..i])
    {
      ConcatAppend(tempLst, IntToHexStr(val[i] as nat));
      EncodeAsciiAppend(val[..i], [val[i]]);
      assert val[..i + 1] == val[..i] + [val[i]];
      tempLst := tempLst + [IntToHexStr(val[i] as nat)];
      i := i + 1;
    }
    assert val[..i] == val;
    r := Concat(tempLst);
  }

  lemma {:induction false} EncodeAsciiAppend(a: string, b: string)
    ensures EncodeAscii(a + b) == EncodeAscii(a) + EncodeAscii(b)
  {
    if |a| > 0 {
      assert (a + b)[1..] == a[1..] + b;
      EncodeAsciiAppend(a[1..], b);
    } else {
      assert a + b == b;
    }
  }

  /** Whatever the characters, the encoding is made of lowercase hex digits only. */
  lemma {:induction false} EncodeAsciiIsLowerHex(s: string)
    ensures IsLowerHex(EncodeAscii(s)) && IsHexString(EncodeAscii(s))
  {
    if |s| > 0 {
      IntToHexStrSpec(s[0] as nat);
      EncodeAsciiIsLowerHex(s[1..]);
    }
    LowerHexIsHex(EncodeAscii(s));
  }

  /** Two digits per character of a byte string. */
  lemma EncodeAsciiLength(s: string)
    requires IsByteString(s)
    ensures |EncodeAscii(s)| == 2 * |s|
  {
    EncodeAsciiOfBytes(s);
  }

  /** On one-byte characters the encoding is two digits per character, in order. */
  lemma {:induction false} EncodeAsciiOfBytes(s: string)
    requires IsByteString(s)
    ensures |EncodeAscii(s)| == 2 * |s|
    ensures forall i :: 0 <= i < |s| ==> EncodeAscii(s)[2 * i..2 * i + 2] == ByteText(s[i] as nat)
  {
    if |s| > 0 {
      IntToHexStrSpec(s[0] as nat);
      EncodeAsciiOfBytes(s[1..]);
      var e := EncodeAscii(s);
      var tail := EncodeAscii(s[1..]);
      assert e == ByteText(s[0] as nat) + tail;
      forall i | 0 <= i < |s| ensures e[2 * i..2 * i + 2] == ByteText(s[i] as nat) {
        if i > 0 {
          assert e[2 * i..2 * i + 2] == tail[2 * (i - 1)..2 * (i - 1) + 2];
        }
      }
    }
  }

  /** Reads hex digit pairs back into characters: the inverse of `charToASCII` on one-byte text. */
  function DecodeAscii(h: string): string
  {
    if |h| < 2 then "" else [ByteChar(Value(h[..2], Hexadecimal))] + DecodeAscii(h[2..])
  }

  function ByteChar(v: nat): char
  {
    if v < 256 then v as char else 0 as char
  }

  lemma {:induction false} AsciiRoundTrip(s: string)
    requires IsByteString(s)
    ensures DecodeAscii(EncodeAscii(s)) == s
  {
    if |s| > 0 {
      IntToHexStrSpec(s[0] as nat);
      ByteTextValue(s[0] as nat);
      var e := EncodeAscii(s);
      assert e[..2] == ByteText(s[0] as nat);
      assert e[2..] == EncodeAscii(s[1..]);
      AsciiRoundTrip(s[1..]);
    }
  }

  /** `charToASCII` is injective on one-byte text. */
  lemma EncodeAsciiInjective(a: string, b: string)
    requires IsByteString(a) && IsByteString(b)
    requires EncodeAscii(a) == EncodeAscii(b)
    ensures a == b
  {
    AsciiRoundTrip(a);
    AsciiRoundTrip(b);
  }

  /**
   * Beyond one byte per character the encoding is not injective: the one
   * character U+1234 and the two characters U+0012, '4' encode alike.
   */
  lemma EncodeAsciiWideCollision()
    ensures EncodeAscii("\U{1234}") == EncodeAscii("\U{12}4") == "1234"
  {
    EncodeWideChar();
    EncodeTwoBytes();
  }

  lemma EncodeWideChar()
    ensures EncodeAscii("\U{1234}") == "1234"
  {
    assert ToBase(0x1234, Hexadecimal) == "1234" by {
      assert ToBase(0x123, Hexadecimal) == ToBase(0x12, Hexadecimal) + "3";
      assert ToBase(0x12, Hexadecimal) == "12";
    }
    assert IntToHexStr(0x1234) == "1234";
    assert "\U{1234}"[1..] == "";
  }

  lemma EncodeTwoBytes()
    ensures EncodeAscii("\U{12}4") == "1234"
  {
    IntToHexStrSpec(0x12);
    IntToHexStrSpec(0x34);
    assert "\U{12}4"[1..] == "4";
    assert "4"[1..] == "";
  }

  /** The byte values of hex digit pairs, two characters per byte; an odd last digit is dropped. */
  function Bytes(h: string): (r: seq<nat>)
    ensures 2 * |r| <= |h| <= 2 * |r| + 1
  {
    if |h| < 2 then [] else [Value(h[..2], Hexadecimal)] + Bytes(h[2..])
  }

  /** An even-length string has one byte per pair of digits. */
  lemma {:induction false} BytesLength(h: string)
    requires |h| % 2 == 0
    ensures 2 * |Bytes(h)| == |h|
    decreases |h|
  {
    if |h| >= 2 {
      BytesLength(h[2..]);
    }
  }

  /** The character codes of a string. */
  function Ords(s: string): (r: seq<nat>)
    ensures |r| == |s|
  {
    if |s| == 0 then [] else [s[0] as nat] + Ords(s[1..])
  }

  lemma {:induction false} BytesAppend(a: string, b: string)
    requires |a| % 2 == 0
    ensures Bytes(a + b) == Bytes(a) + Bytes(b)
    decreases |a|
  {
    if |a| == 0 {
      assert a + b == b;
    } else {
      assert (a + b)[..2] == a[..2];
      assert (a + b)[2..] == a[2..] + b;
      BytesAppend(a[2..], b);
    }
  }

  /** Reading the encoding back byte by byte gives the character codes. */
  lemma {:induction false} BytesOfEncodeAscii(s: string)
    requires IsByteString(s)
    ensures Bytes(EncodeAscii(s)) == Ords(s)
  {
    if |s| > 0 {
      IntToHexStrSpec(s[0] as nat);
      ByteTextValue(s[0] as nat);
      var e := EncodeAscii(s);
      assert e[..2] == ByteText(s[0] as nat);
      assert e[2..] == EncodeAscii(s[1..]);
      BytesOfEncodeAscii(s[1..]);
    }
  }

  /** `split_len(seq, length)`: consecutive slices of `length` characters, the last one possibly shorter. */
  function SplitLen(s: string, length: int): seq<string>
    requires length != 0
    decreases |s|
  {
    if length < 0 || |s| == 0 then []
    else if |s| <= length then [s]
    else [s[..length]] + SplitLen(s[length..], length)
  }

  /**
   * For a positive length the chunks concatenate back to the input, each is
   * non-empty and at most `length` long, and all but the last are exactly
   * `length` long; a negative length gives no chunks (an empty `range`).
   */
  lemma {:induction false} SplitLenSpec(s: string, length: int)
    requires length != 0
    ensures length < 0 ==> SplitLen(s, length) == []
    ensures length > 0 ==> Concat(SplitLen(s, length)) == s
    ensures length > 0 ==> forall i :: 0 <= i < |SplitLen(s, length)| ==>
      0 < |SplitLen(s, length)[i]| <= length
    ensures length > 0 ==> forall i :: 0 <= i < |SplitLen(s, length)| - 1 ==>
      |SplitLen(s, length)[i]| == length
    decreases |s|
  {
    if length > 0 && |s| > length {
      SplitLenSpec(s[length..], length);
      var r := SplitLen(s, length);
      assert r[1..] == SplitLen(s[length..], length);
      assert forall i :: 1 <= i < |r| ==> r[i] == SplitLen(s[length..], length)[i - 1];
    }
  }

  /** Chunks of an even-length prefix do not straddle the join. */
  lemma {:induction false} SplitLenAppend(a: string, b: string)
    requires |a| % 2 == 0
    ensures SplitLen(a + b, 2) == SplitLen(a, 2) + SplitLen(b, 2)
    decreases |a|
  {
    if |a| == 0 {
      assert a + b == b;
    } else if |a| == 2 && |b| == 0 {
      assert a + b == a;
    } else if |a| == 2 {
      assert (a + b)[..2] == a;
      assert (a + b)[2..] == b;
    } else {
      assert (a + b)[..2] == a[..2];
      assert (a + b)[2..] == a[2..] + b;
      SplitLenAppend(a[2..], b);
    }
  }

  /** The running total of `get_hex_line`: the chunks' values, last chunk added last. */
  function ChunkSum(z: seq<string>): nat
  {
    if |z| == 0 then 0 else ChunkSum(z[..|z| - 1]) + Value(z[|z| - 1], Hexadecimal)
  }

  lemma {:induction false} ChunkSumAppend(a: seq<string>, b: seq<string>)
    ensures ChunkSum(a + b) == ChunkSum(a) + ChunkSum(b)
    decreases |b|
  {
    if |b| == 0 {
      assert a + b == a;
    } else {
      assert (a + b)[..|a + b| - 1] == a + b[..|b| - 1];
      ChunkSumAppend(a, b[..|b| - 1]);
    }
  }

  /** The sum `get_hex_line` computes: the values of the 2-character chunks of its payload. */
  function ByteSum(x: string): nat
  {
    ChunkSum(SplitLen(x, 2))
  }

  /** For an even-length payload, the 2-character chunks are exactly its bytes. */
  lemma {:induction false} ByteSumIsBytes(x: string)
    requires |x| % 2 == 0
    ensures ByteSum(x) == Sum(Bytes(x))
    decreases |x|
  {
    if |x| >= 2 {
      SplitLenAppend(x[..2], x[2..]);
      assert x[..2] + x[2..] == x;
      ChunkSumAppend(SplitLen(x[..2], 2), SplitLen(x[2..], 2));
      assert SplitLen(x[..2], 2) == [x[..2]];
      assert ChunkSum([x[..2]]) == Value(x[..2], Hexadecimal) by {
        assert [x[..2]][..0] == [];
      }
      ByteSumIsBytes(x[2..]);
    }
  }

  /** The sum of a sequence of byte values. */
  function Sum(b: seq<nat>): nat
  {
    if |b| == 0 then 0 else b[0] + Sum(b[1..])
  }

  lemma {:induction false} SumAppend(a: seq<nat>, b: seq<nat>)
    ensures Sum(a + b) == Sum(a) + Sum(b)
  {
    if |a| == 0 {
      assert a + b == b;
    } else {
      assert (a + b)[1..] == a[1..] + b;
      SumAppend(a[1..], b);
    }
  }

  lemma ByteSumAppend(a: string, b: string)
    requires |a| % 2 == 0
    ensures ByteSum(a + b) == ByteSum(a) + ByteSum(b)
  {
    SplitLenAppend(a, b);
    ChunkSumAppend(SplitLen(a, 2), SplitLen(b, 2));
  }

  function Pow2(k: nat): (r: nat)
    ensures r >= 1
  {
    if k == 0 then 1 else 2 * Pow2(k - 1)
  }

  /** Python's `int.bit_length()` of a non-negative integer. */
  function BitLength(n: nat): nat
  {
    if n == 0 then 0 else 1 + BitLength(n / 2)
  }

  function Abs(x: int): nat
  {
    if x < 0 then -x else x
  }

  /** `twos_complement(j)`: `abs(j - (1 << j.bit_length()))`. */
  function TwosComplement(j: int): nat
  {
    Abs(j - Pow2(BitLength(Abs(j))))
  }

  /** A positive `n` has `BitLength(n)` bits: `2^(b-1) <= n < 2^b`. */
  lemma {:induction false} BitLengthBounds(n: nat)
    requires n > 0
    ensures BitLength(n) >= 1
    ensures Pow2(BitLength(n) - 1) <= n < Pow2(BitLength(n))
  {
    if n >= 2 {
      BitLengthBounds(n / 2);
    }
  }

  lemma {:induction false} Pow2Monotone(i: nat, j: nat)
    requires i <= j
    ensures Pow2(i) <= Pow2(j)
    decreases j
  {
    if i < j {
      Pow2Monotone(i, j - 1);
    }
  }

  lemma {:induction false} Pow2Wide(k: nat)
    requires k >= 8
    ensures Pow2(k) % 256 == 0
  {
    if k > 8 {
      Pow2Wide(k - 1);
    } else {
      assert Pow2(8) == 256;
    }
  }

  /**
   * `twos_complement` tops a positive number up to the next power of two
   * (for an exact power `n`, to `2 * n`), and maps 0 to 1.
   */
  lemma TwosComplementSpec(j: nat)
    ensures j == 0 ==> TwosComplement(j) == 1
    ensures j > 0 ==> j + TwosComplement(j) == Pow2(BitLength(j))
    ensures j > 0 ==> 0 < TwosComplement(j) <= j
  {
    if j > 0 {
      BitLengthBounds(j);
    }
  }

  /** The textbook Intel HEX checksum of a byte sum: the byte that brings it to 0 mod 256. */
  function StandardChecksum(s: nat): nat
  {
    (256 - s % 256) % 256
  }

  /** The textbook checksum is the only byte that balances the sum. */
  lemma StandardChecksumUnique(s: nat, c: nat)
    requires c < 256
    ensures (s + c) % 256 == 0 <==> c == StandardChecksum(s)
  {
  }

  /** A sum of at least 128 has at least 8 bits, a smaller positive one at most 7. */
  lemma BitLengthAt128(s: nat)
    requires s > 0
    ensures s >= 128 <==> BitLength(s) >= 8
  {
    var b := BitLength(s);
    BitLengthBounds(s);
    assert Pow2(7) == 128;
    if b < 8 {
      Pow2Monotone(b, 7);
    } else {
      Pow2Monotone(7, b - 1);
    }
  }

  /** Modular arithmetic on plain numbers: topping `s` up to `p` with `t`, seen through the low byte of `t`. */
  lemma TopUpModulo(s: nat, t: nat, p: nat)
    requires s + t == p && (p % 256 == 0 || 0 < p <= 128)
    ensures (s + t % 256) % 256 == 0 <==> p % 256 == 0
  {
  }

  /** The checksum byte brings the sum to 0 modulo 256 exactly when the sum is at least 128. */
  lemma ChecksumBalancesIff(s: nat)
    ensures (s + TwosComplement(s) % 256) % 256 == 0 <==> s >= 128
  {
    var t := TwosComplement(s);
    TwosComplementSpec(s);
    if s == 0 {
      assert (s + t % 256) % 256 == 1;
    } else {
      var b := BitLength(s);
      var p := Pow2(b);
      BitLengthAt128(s);
      if b >= 8 {
        Pow2Wide(b);
        TopUpModulo(s, t, p);
        assert s >= 128;
      } else {
        Pow2Monotone(b, 7);
        assert Pow2(7) == 128;
        assert 0 < p <= 128;
        TopUpModulo(s, t, p);
        assert p % 256 != 0;
        assert s < 128;
      }
    }
  }

  /** Only for a sum of at least 128 is the checksum the textbook one. */
  lemma ChecksumIsStandardIff(s: nat)
    ensures TwosComplement(s) % 256 == StandardChecksum(s) <==> s >= 128
  {
    ChecksumBalancesIff(s);
    StandardChecksumUnique(s, TwosComplement(s) % 256);
  }

  /** `format(twos_complement(s), 'x').zfill(2)[-2:]`: the checksum text of `get_hex_line`. */
  function ChecksumText(s: nat): string
  {
    var h := IntToHexStr(TwosComplement(s));
    h[|h| - 2..]
  }

  lemma LowByteDigits(t: nat)
    ensures (t % 256) / 16 == (t / 16) % 16 && (t % 256) % 16 == t % 16
  {
    var a, r := t / 256, t % 256;
    assert t == 256 * a + r;
    var h, l := r / 16, r % 16;
    assert r == 16 * h + l && h < 16;
    assert t == 16 * (16 * a + h) + l;
    assert t / 16 == 16 * a + h && t % 16 == l;
  }

  /** The last two digits of a number of three or more digits. */
  lemma ToBaseLastTwo(t: nat)
    requires t >= 256
    ensures |ToBase(t, Hexadecimal)| >= 3
    ensures var h := ToBase(t, Hexadecimal);
      h[|h| - 2..] == [DigitChar((t / 16) % 16), DigitChar(t % 16)]
  {
    ToBaseWide(t);
    var q := t / 16;
    assert q >= 16;
    var front := ToBase(q / 16, Hexadecimal);
    var x := DigitChar(q % 16);
    var y := DigitChar(t % 16);
    assert ToBase(q, Hexadecimal) == front + [x];
    assert ToBase(t, Hexadecimal) == front + [x] + [y];
    LastTwo(front, x, y);
  }

  lemma LastTwo(front: string, x: char, y: char)
    ensures var h := front + [x] + [y]; |h| >= 2 && h[|h| - 2..] == [x, y]
  {
    var h := front + [x] + [y];
    assert h[|h| - 2] == x && h[|h| - 1] == y;
  }

  /** Taking the last two digits is taking the low byte. */
  lemma LastTwoDigits(t: nat)
    ensures IntToHexStr(t)[|IntToHexStr(t)| - 2..] == ByteText(t % 256)
  {
    var h := IntToHexStr(t);
    if t < 256 {
      IntToHexStrSpec(t);
      assert h[|h| - 2..] == h;
      assert t % 256 == t;
    } else {
      ToBaseWide(t);
      assert h == ToBase(t, Hexadecimal);
      ToBaseLastTwo(t);
      LowByteDigits(t);
    }
  }

  /** The checksum text is the two lowercase digits of the low byte of `twos_complement(s)`. */
  lemma ChecksumTextSpec(s: nat)
    ensures ChecksumText(s) == ByteText(TwosComplement(s) % 256)
    ensures |ChecksumText(s)| == 2 && IsLowerHex(ChecksumText(s))
    ensures Value(ChecksumText(s), Hexadecimal) == TwosComplement(s) % 256
  {
    LastTwoDigits(TwosComplement(s));
    ByteTextValue(TwosComplement(s) % 256);
  }

  /** An empty sum gets checksum `01`, not the textbook `00`. */
  lemma ChecksumOfZero()
    ensures ChecksumText(0) == "01"
  {
    ChecksumTextSpec(0);
    TwosComplementSpec(0);
  }

  /** `get_hex_line(x)`: the record mark, the payload, then the checksum text of the payload's byte sum. */
  function HexLine(x: string): string
  {
    ":" + x + ChecksumText(ByteSum(x))
  }

  /** `get_hex_line`, as the source does it: sum the chunks in a loop, then append the checksum. */
  method GetHexLine(x: string) returns (line: string)
    requires IsHexString(x)
    ensures line == HexLine(x)
  {
    var z := SplitLen(x, 2);
    var val := 0;
    var k := 0;
    while k < |z|
      invariant 0 <= k <= |z|
      invariant val == ChunkSum(z[..k])
    {
      assert z[..k + 1][..k] == z[..k];
      val := val + Value(z[k], Hexadecimal);
      k := k + 1;
    }
    assert z[..k] == z;
    var chkSum := ChecksumText(val);
    line := ":" + x + chkSum;
  }

  /**
   * The record is `:`, the payload, and two lowercase hex digits whose value
   * is the low byte of `twos_complement` of the payload's byte sum; for an
   * even-length payload the bytes after the mark sum to 0 modulo 256 exactly
   * when that byte sum is at least 128.
   */
  lemma HexLineSpec(x: string)
    ensures |HexLine(x)| == |x| + 3 && HexLine(x)[..|x| + 1] == ":" + x
    ensures IsLowerHex(HexLine(x)[|x| + 1..])
    ensures Value(HexLine(x)[|x| + 1..], Hexadecimal) == TwosComplement(ByteSum(x)) % 256
    ensures |x| % 2 == 0 ==> (ByteSum(HexLine(x)[1..]) % 256 == 0 <==> ByteSum(x) >= 128)
  {
    var c := ChecksumText(ByteSum(x));
    ChecksumTextSpec(ByteSum(x));
    assert HexLine(x)[|x| + 1..] == c;
    if |x| % 2 == 0 {
      HexLineBalanced(x);
    }
  }

  /** The bytes after the mark of an even-length payload's record sum to payload sum plus checksum. */
  lemma HexLineBalanced(x: string)
    requires |x| % 2 == 0
    ensures ByteSum(HexLine(x)[1..]) % 256 == 0 <==> ByteSum(x) >= 128
  {
    var s := ByteSum(x);
    var c := ChecksumText(s);
    ChecksumTextSpec(s);
    AfterMark(x, c);
    ByteSumAppend(x, c);
    ByteSumPair(c);
    var t := TwosComplement(s) % 256;
    assert ByteSum(HexLine(x)[1..]) == s + t;
    ChecksumBalancesIff(s);
  }

  /** The address-select prefix of the identifier record: 16 data bytes, address 0x1080, type 00. */
  const ProductRecordPrefix: string := "10108000"

  /** Selects the upper address 0x1000, so the identifier lands at 0x10001080. */
  const ExtendedLinearAddressRecord: string := ":020000041000EA"

  const EndOfFileRecord: string := ":00000001FF"

  /** The identifier's data record: `get_hex_line("10108000" + charToASCII(boardId))`. */
  function ProductRecord(boardId: string): string
  {
    HexLine(ProductRecordPrefix + EncodeAscii(boardId))
  }

  /** The text `gen_product_hex` writes to `product.hex`. */
  function ProductHexContents(boardId: string): string
  {
    ExtendedLinearAddressRecord + "\n" + ProductRecord(boardId) + "\n" + EndOfFileRecord + "\n"
  }

  /** Dropping the start mark of a record leaves payload then checksum. */
  lemma AfterMark(x: string, c: string)
    ensures (":" + x + c)[1..] == x + c
  {
    var line := ":" + x + c;
    assert forall i :: 0 <= i < |x + c| ==> line[1..][i] == (x + c)[i];
  }

  /** A single pair is summed as its own value. */
  lemma ByteSumPair(c: string)
    requires |c| == 2
    ensures ByteSum(c) == Value(c, Hexadecimal)
  {
    var z := SplitLen(c, 2);
    assert z == [c];
    assert z[..|z| - 1] == [];
    assert ChunkSum(z) == ChunkSum(z[..|z| - 1]) + Value(z[|z| - 1], Hexadecimal);
  }

  lemma PrefixSum()
    ensures ByteSum(ProductRecordPrefix) == 0xA0
  {
    assert ProductRecordPrefix == "10" + ("10" + ("80" + "00"));
    ByteSumAppend("10", "10" + ("80" + "00"));
    ByteSumAppend("10", "80" + "00");
    ByteSumAppend("80", "00");
    ByteSumPair("10");
    ByteSumPair("80");
    ByteSumPair("00");
    ValueOfPair("10");
    ValueOfPair("80");
    ValueOfPair("00");
  }

  /**
   * Whatever the identifier, the record's byte sum is at least 0xA0, so its
   * checksum is the textbook one.
   */
  lemma ProductRecordChecksum(boardId: string)
    ensures ByteSum(ProductRecordPrefix + EncodeAscii(boardId)) >= 0xA0
    ensures var s := ByteSum(ProductRecordPrefix + EncodeAscii(boardId));
      TwosComplement(s) % 256 == StandardChecksum(s)
  {
    ProductRecordSum(boardId);
    ChecksumIsStandardIff(ByteSum(ProductRecordPrefix + EncodeAscii(boardId)));
  }

  lemma ProductRecordSum(boardId: string)
    ensures ByteSum(ProductRecordPrefix + EncodeAscii(boardId)) >= 0xA0
  {
    ByteSumAppend(ProductRecordPrefix, EncodeAscii(boardId));
    PrefixSum();
  }

  /** For a one-byte identifier the bytes of the record after the mark sum to 0 modulo 256. */
  lemma ProductRecordBalanced(boardId: string)
    requires IsByteString(boardId)
    ensures ByteSum(ProductRecord(boardId)[1..]) % 256 == 0
  {
    var x := ProductRecordPrefix + EncodeAscii(boardId);
    ProductRecordSum(boardId);
    EncodeAsciiLength(boardId);
    assert |x| % 2 == 0;
    HexLineBalanced(x);
  }

  /** A string that holds no separator splits after the separator that follows it. */
  lemma {:induction false} SplitAfter(a: string, sep: char, b: string)
    requires sep !in a
    ensures Split(a + [sep] + b, sep) == [a] + Split(b, sep)
    decreases |a|
  {
    var s := a + [sep] + b;
    if |a| == 0 {
      assert s == [sep] + b;
      assert s[1..] == b;
    } else {
      assert s[1..] == a[1..] + [sep] + b;
      SplitAfter(a[1..], sep, b);
      assert [a[0]] + a[1..] == a;
    }
  }

  lemma LowerHexAppend(a: string, b: string)
    requires IsLowerHex(a) && IsLowerHex(b)
    ensures IsLowerHex(a + b)
  {
    assert forall i :: |a| <= i < |a + b| ==> (a + b)[i] == b[i - |a|];
  }

  /** A record is the mark followed by lowercase hex digits, so it holds no line break. */
  lemma ProductRecordOneLine(boardId: string)
    ensures '\n' !in ProductRecord(boardId)
  {
    var x := ProductRecordPrefix + EncodeAscii(boardId);
    EncodeAsciiIsLowerHex(boardId);
    assert IsLowerHex(ProductRecordPrefix);
    LowerHexAppend(ProductRecordPrefix, EncodeAscii(boardId));
    HexLineSpec(x);
    var c := ChecksumText(ByteSum(x));
    ChecksumTextSpec(ByteSum(x));
    LowerHexAppend(x, c);
    LowerHexNoBreak(x + c);
    assert ProductRecord(boardId) == [':'] + (x + c);
  }

  lemma LowerHexNoBreak(w: string)
    requires IsLowerHex(w)
    ensures '\n' !in [':'] + w
  {
    forall i | 0 <= i < |w| ensures w[i] != '\n' {
      assert IsLowerHexDigit(w[i]);
    }
    assert forall i :: 1 <= i < |[':'] + w| ==> ([':'] + w)[i] == w[i - 1];
  }

  /** The file holds three lines: the address record, the identifier record, the end-of-file record. */
  lemma ProductHexLines(boardId: string)
    ensures Split(ProductHexContents(boardId), '\n')
      == [ExtendedLinearAddressRecord, ProductRecord(boardId), EndOfFileRecord, ""]
  {
    var rec := ProductRecord(boardId);
    ProductRecordOneLine(boardId);
    var tail2 := EndOfFileRecord + ['\n'] + "";
    var tail1 := rec + ['\n'] + tail2;
    assert ProductHexContents(boardId) == ExtendedLinearAddressRecord + ['\n'] + tail1;
    SplitAfter(ExtendedLinearAddressRecord, '\n', tail1);
    SplitAfter(rec, '\n', tail2);
    SplitAfter(EndOfFileRecord, '\n', "");
  }
}
