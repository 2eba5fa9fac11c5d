/** MagicNumber: one signature of a file format, a byte pattern expected at
    an offset of the file. */
module MagicNumbers {
  import opened Common
  import opened Text
  import HexUtils

  /** The value of a MagicNumber object; the matcher reads only this. */
  datatype Pattern = Pattern(offset: int, bytes: Option<Bytes>, hex: Option<string>)

  /** `(byte) ((Character.digit(hi, 16) << 4) + Character.digit(lo, 16))`:
      a character that is not a hex digit counts as -1. */
  function PairByte(hi: char, lo: char): Byte {
    ToByte(16 * HexDigitValue(hi) + HexDigitValue(lo))
  }

  /** The lenient decoding of an even-length text, one byte per pair. */
  function LenientDecode(s: string): Bytes
    requires |s| % 2 == 0
  {
    seq(|s| / 2, k requires 0 <= k < |s| / 2 => PairByte(s[2 * k], s[2 * k + 1]))
  }

  /** Decoding works pair by pair, so it distributes over concatenation. */
  lemma LenientDecodeAppend(a: string, b: string)
    requires |a| % 2 == 0 && |b| % 2 == 0
    ensures LenientDecode(a + b) == LenientDecode(a) + LenientDecode(b)
  {
    var r, ra, rb := LenientDecode(a + b), LenientDecode(a), LenientDecode(b);
    forall k | 0 <= k < |r|
      ensures r[k] == (ra + rb)[k]
    {
      if k < |ra| {
        assert (a + b)[2 * k] == a[2 * k] && (a + b)[2 * k + 1] == a[2 * k + 1];
      } else {
        var m := k - |ra|;
        assert (a + b)[2 * k] == b[2 * m] && (a + b)[2 * k + 1] == b[2 * m + 1];
      }
    }
  }

  /** The bytes `setHex` stores for a non-blank text: the decoding of the text
      with whitespace removed, or no bytes at all when an odd number of
      characters is left. */
  function HexBytes(hex: string): Bytes
  {
    var clean := StripWhitespace(hex);
    if |clean| % 2 == 0 then LenientDecode(clean) else []
  }

  class MagicNumber {
    var offset: int
    var bytes: Option<Bytes>
    var hex: Option<string>

    /** The no-argument constructor: Java's defaults. */
    constructor Default()
      ensures offset == 0 && bytes == None && hex == None
    {
      offset, bytes, hex := 0, None, None;
    }

    /** Stores the three values as given; `hex` and `bytes` need not agree. */
    constructor (offset: int, bytes: Option<Bytes>, hex: Option<string>)
      ensures this.offset == offset && this.bytes == bytes && this.hex == hex
    {
      this.offset, this.bytes, this.hex := offset, bytes, hex;
    }

    function Value(): Pattern
      reads this
    {
      Pattern(offset, bytes, hex)
    }

    method SetOffset(offset: int)
      modifies this
      ensures this.offset == offset && bytes == old(bytes) && hex == old(hex)
    {
      this.offset := offset;
    }

    method SetBytes(bytes: Option<Bytes>)
      modifies this
      ensures this.bytes == bytes && offset == old(offset) && hex == old(hex)
    {
      this.bytes := bytes;
    }

    /** Stores the text and, when it is not blank, replaces the bytes by its
        decoding; a null or blank text leaves the bytes as they were. */
    method SetHex(hex: Option<string>)
      modifies this
      ensures this.hex == hex && offset == old(offset)
      ensures hex.Some? && !IsBlank(hex.value) ==> bytes == Some(HexBytes(hex.value))
      ensures hex.None? || IsBlank(hex.value) ==> bytes == old(bytes)
    {
      this.hex := hex;
      if hex.Some? && !IsBlank(hex.value) {
        var decoded := HexStringToByteArray(StripWhitespace(hex.value));
        this.bytes := Some(decoded);
      }
    }

    /** The private `hexStringToByteArray`: fills the array pair by pair; on an
        odd length the read past the end throws, and the caught exception
        turns into an empty array. */
    static method HexStringToByteArray(hexString: string) returns (data: Bytes)
      ensures |hexString| % 2 == 0 ==> data == LenientDecode(hexString)
      ensures |hexString| % 2 != 0 ==> data == []
    {
      var len := |hexString|;
      var a := new Byte[len / 2];
      var i := 0;
      while i < len
        invariant 0 <= i <= len && i % 2 == 0
        invariant forall k :: 0 <= k < i / 2 ==> a[k] == PairByte(hexString[2 * k], hexString[2 * k + 1])
      {
        if i + 1 >= len {
          return [];
        }
        a[i / 2] := PairByte(hexString[i], hexString[i + 1]);
        i := i + 2;
      }
      data := a[..];
    }

    /** `getLength`: the number of pattern bytes, 0 when there are none. */
    function GetLength(): (n: nat)
      reads this
      ensures bytes.None? ==> n == 0
      ensures bytes.Some? ==> n == |bytes.value|
    {
      if bytes.Some? then |bytes.value| else 0
    }
  }

  /** On hex digits the lenient decoding is exact: byte k is
      16 * digit(s[2k]) + digit(s[2k+1]), with no wrap-around. */
  lemma LenientDecodeOfDigits(s: string)
    requires |s| % 2 == 0
    requires forall i :: 0 <= i < |s| ==> IsHexDigit(s[i])
    ensures |LenientDecode(s)| == |s| / 2
    ensures forall k :: 0 <= k < |s| / 2 ==>
      LenientDecode(s)[k] == 16 * HexDigitValue(s[2 * k]) + HexDigitValue(s[2 * k + 1])
  {
    forall k | 0 <= k < |s| / 2
      ensures LenientDecode(s)[k] == 16 * HexDigitValue(s[2 * k]) + HexDigitValue(s[2 * k + 1])
    {
      assert IsHexDigit(s[2 * k]) && IsHexDigit(s[2 * k + 1]);
    }
  }

  lemma LenientDecodeAt(s: string, k: int)
    requires |s| % 2 == 0 && 0 <= k < |s| / 2
    ensures |LenientDecode(s)| == |s| / 2
    ensures LenientDecode(s)[k] == PairByte(s[2 * k], s[2 * k + 1])
  {
  }

  /** A non-hex character is not an error: 'G' counts as -1, so "G0" is
      (byte) (-16), that is 0xF0. */
  lemma NonHexDigitDecodes()
    ensures HexBytes("G0") == [0xF0]
  {
    StripWhitespaceKeepsSolid("G0");
    assert PairByte('G', '0') == 0xF0;
  }

  /** The lenient decoder agrees with the strict one of HexUtils wherever the
      strict one succeeds on a text of hex digits. */
  lemma LenientAgreesWithStrict(hex: string)
    requires !IsBlank(hex)
    requires |StripWhitespace(hex)| % 2 == 0
    requires forall i :: 0 <= i < |StripWhitespace(hex)| ==> IsHexDigit(StripWhitespace(hex)[i])
    ensures HexUtils.ParseHex(Some(hex)) == Success(HexBytes(hex))
  {
    var clean := StripWhitespace(hex);
    HexUtils.ParseHexOfDigits(hex);
    LenientDecodeOfDigits(clean);
    var r := HexUtils.ParseHex(Some(hex)).value;
    assert r == LenientDecode(clean);
  }

  /** Where every pair is a pair of hex digits with value b[k], the lenient
      decoding gives b. */
  lemma LenientDecodeOfPairs(clean: string, bytes: Bytes)
    requires |clean| == 2 * |bytes|
    requires forall k :: 0 <= k < |bytes| ==>
      IsHexDigit(clean[2 * k]) && HexUtils.PairAt(clean, k) == Some(bytes[k])
    ensures LenientDecode(clean) == bytes
  {
    forall k | 0 <= k < |bytes|
      ensures LenientDecode(clean)[k] == bytes[k]
    {
      assert HexUtils.PairAt(clean, k) == Some(bytes[k]);
      assert IsHexDigit(clean[2 * k]) && IsHexDigit(clean[2 * k + 1]);
    }
  }

  /** Setting the canonical text of a byte sequence stores exactly those
      bytes. */
  lemma CanonicalHexRoundTrip(bytes: Bytes)
    requires |bytes| > 0
    ensures !IsBlank(HexUtils.HexEncode(bytes))
    ensures HexBytes(HexUtils.HexEncode(bytes)) == bytes
  {
    HexUtils.HexEncodeNotBlank(bytes);
    HexUtils.StripHexEncode(bytes);
    HexUtils.HexDigitsPairs(bytes);
    HexUtils.HexDigitsLayout(bytes);
    LenientDecodeOfPairs(HexUtils.HexDigits(bytes), bytes);
  }
}
