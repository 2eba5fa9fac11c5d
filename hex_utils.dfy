/** HexUtils: strict hex decoding (whitespace tolerant), the canonical
    "FF D8 FF" encoding, and matching a hex pattern against data. */
module HexUtils {
  import opened Common
  import opened Text

  /** `Integer.parseInt(pair, 16)` on a two-character string: either two hex
      digits, or a sign followed by one hex digit. None where it throws
      NumberFormatException. */
  function ParsePair(hi: char, lo: char): (r: Option<int>)
    ensures r.Some? ==> -15 <= r.value < 256 && IsHexDigit(lo)
    ensures r.Some? <==> IsHexDigit(lo) && (IsHexDigit(hi) || hi == '-' || hi == '+')
    ensures IsHexDigit(hi) && IsHexDigit(lo) ==> r == Some(16 * HexDigitValue(hi) + HexDigitValue(lo))
    ensures IsHexDigit(lo) && hi == '-' ==> r == Some(-HexDigitValue(lo))
    ensures IsHexDigit(lo) && hi == '+' ==> r == Some(HexDigitValue(lo))
  {
    if !IsHexDigit(lo) then None
    else if hi == '-' then Some(-HexDigitValue(lo))
    else if hi == '+' then Some(HexDigitValue(lo))
    else if IsHexDigit(hi) then Some(16 * HexDigitValue(hi) + HexDigitValue(lo))
    else None
  }

  /** Pair number `k` of a cleaned hex string, parsed. */
  function PairAt(clean: string, k: int): Option<int>
    requires 0 <= k && 2 * k + 1 < |clean|
  {
    ParsePair(clean[2 * k], clean[2 * k + 1])
  }

  /** What `hexStringToBytes` returns or throws. */
  function ParseHex(hexString: Option<string>): (r: Result<Bytes>)
    ensures hexString.None? || IsBlank(hexString.value) ==> r == Success([])
    ensures hexString.Some? && !IsBlank(hexString.value) && |StripWhitespace(hexString.value)| % 2 != 0 ==>
      r == Failure(IllegalArgument)
    ensures r.Failure? ==> r.error == IllegalArgument || r.error == NumberFormat
  {
    if hexString.None? || IsBlank(hexString.value) then Success([])
    else
      var clean := StripWhitespace(hexString.value);
      if |clean| % 2 != 0 then Failure(IllegalArgument)
      else if exists k :: 0 <= k < |clean| / 2 && PairAt(clean, k).None? then Failure(NumberFormat)
      else Success(seq(|clean| / 2, k requires 0 <= k < |clean| / 2 => ToByte(PairAt(clean, k).value)))
  }

  /** `hexStringToBytes`: fills the result array pair by pair; the first pair
      that does not parse aborts with NumberFormatException. */
  method HexStringToBytes(hexString: Option<string>) returns (r: Result<Bytes>)
    ensures r == ParseHex(hexString)
  {
    if hexString.None? || IsBlank(hexString.value) {
      return Success([]);
    }
    var cleanHex := StripWhitespace(hexString.value);
    if |cleanHex| % 2 != 0 {
      return Failure(IllegalArgument);
    }
    var bytes := new Byte[|cleanHex| / 2];
    var i := 0;
    while i < |cleanHex|
      invariant 0 <= i <= |cleanHex| && i % 2 == 0
      invariant forall k :: 0 <= k < i / 2 ==> PairAt(cleanHex, k).Some? && bytes[k] == ToByte(PairAt(cleanHex, k).value)
    {
      var v := ParsePair(cleanHex[i], cleanHex[i + 1]);
      if v.None? {
        assert PairAt(cleanHex, i / 2).None?;
        return Failure(NumberFormat);
      }
      bytes[i / 2] := ToByte(v.value);
      i := i + 2;
    }
    assert !exists k :: 0 <= k < |cleanHex| / 2 && PairAt(cleanHex, k).None?;
    assert bytes[..] == seq(|cleanHex| / 2, k requires 0 <= k < |cleanHex| / 2 => ToByte(PairAt(cleanHex, k).value));
    return Success(bytes[..]);
  }

  /** `String.format("%02X", b & 0xFF)`. */
  function EncodeByte(b: Byte): string {
    [UpperHexDigit(b / 16), UpperHexDigit(b % 16)]
  }

  /** What `bytesToHexString` builds for a non-null array: the two-digit
      upper-case pairs, separated by single spaces. */
  function HexEncode(bytes: Bytes): string
  {
    if |bytes| == 0 then ""
    else if |bytes| == 1 then EncodeByte(bytes[0])
    else HexEncode(bytes[..|bytes| - 1]) + " " + EncodeByte(bytes[|bytes| - 1])
  }

  /** `bytesToHexString`: appends pair after pair to a StringBuilder. */
  method BytesToHexString(bytes: Option<Bytes>) returns (s: string)
    ensures s == if bytes.None? then "" else HexEncode(bytes.value)
  {
    if bytes.None? || |bytes.value| == 0 {
      return "";
    }
    var b := bytes.value;
    var sb := "";
    var i := 0;
    while i < |b|
      invariant 0 <= i <= |b|
      invariant sb == HexEncode(b[..i])
    {
      if i > 0 {
        sb := sb + " ";
      }
      sb := sb + EncodeByte(b[i]);
      assert b[..i + 1][..i] == b[..i];
      i := i + 1;
    }
    assert b[..i] == b;
    return sb;
  }

  /** The layout of the canonical encoding: byte k sits at 3k and 3k+1,
      a space at 3k+2 between two bytes, 3n-1 characters in all. */
  lemma {:induction false} HexEncodeLayout(bytes: Bytes)
    requires |bytes| > 0
    ensures |HexEncode(bytes)| == 3 * |bytes| - 1
    ensures forall k :: 0 <= k < |bytes| ==>
      HexEncode(bytes)[3 * k] == UpperHexDigit(bytes[k] / 16) &&
      HexEncode(bytes)[3 * k + 1] == UpperHexDigit(bytes[k] % 16)
    ensures forall k :: 0 <= k < |bytes| - 1 ==> HexEncode(bytes)[3 * k + 2] == ' '
  {
    if |bytes| > 1 {
      var init := bytes[..|bytes| - 1];
      HexEncodeLayout(init);
      forall k | 0 <= k < |bytes|
        ensures HexEncode(bytes)[3 * k] == UpperHexDigit(bytes[k] / 16)
        ensures HexEncode(bytes)[3 * k + 1] == UpperHexDigit(bytes[k] % 16)
      {
        if k < |bytes| - 1 {
          assert bytes[k] == init[k];
        }
      }
    }
  }

  /** The canonical encoding with the separators taken out. */
  function HexDigits(bytes: Bytes): string
  {
    if |bytes| == 0 then "" else HexDigits(bytes[..|bytes| - 1]) + EncodeByte(bytes[|bytes| - 1])
  }

  lemma {:induction false} HexDigitsLayout(bytes: Bytes)
    ensures |HexDigits(bytes)| == 2 * |bytes|
    ensures forall k :: 0 <= k < |bytes| ==>
      HexDigits(bytes)[2 * k] == UpperHexDigit(bytes[k] / 16) &&
      HexDigits(bytes)[2 * k + 1] == UpperHexDigit(bytes[k] % 16)
  {
    if |bytes| > 0 {
      var init := bytes[..|bytes| - 1];
      HexDigitsLayout(init);
      forall k | 0 <= k < |bytes|
        ensures HexDigits(bytes)[2 * k] == UpperHexDigit(bytes[k] / 16)
        ensures HexDigits(bytes)[2 * k + 1] == UpperHexDigit(bytes[k] % 16)
      {
        if k < |bytes| - 1 {
          assert bytes[k] == init[k];
        }
      }
    }
  }

  lemma {:induction false} StripHexEncode(bytes: Bytes)
    ensures StripWhitespace(HexEncode(bytes)) == HexDigits(bytes)
  {
    var n := |bytes|;
    if n == 1 {
      StripWhitespaceKeepsSolid(EncodeByte(bytes[0]));
      assert bytes[..0] == [];
    } else if n > 1 {
      var init := bytes[..n - 1];
      var last := EncodeByte(bytes[n - 1]);
      StripHexEncode(init);
      StripWhitespaceAppend(HexEncode(init) + " ", last);
      StripWhitespaceAppend(HexEncode(init), " ");
      StripWhitespaceKeepsSolid(last);
      assert StripWhitespace(" ") == "" by {
        assert " "[..0] == "";
      }
    }
  }

  /** Every pair of the separator-free digits parses back to its byte. */
  lemma HexDigitsPairs(bytes: Bytes)
    ensures |HexDigits(bytes)| == 2 * |bytes|
    ensures forall k :: 0 <= k < |bytes| ==> PairAt(HexDigits(bytes), k) == Some(bytes[k])
  {
    HexDigitsLayout(bytes);
    var clean := HexDigits(bytes);
    forall k | 0 <= k < |bytes|
      ensures PairAt(clean, k) == Some(bytes[k])
    {
      EncodedPairParses(bytes[k]);
    }
  }

  /** The two printed digits of a byte parse back to it. */
  lemma EncodedPairParses(b: Byte)
    ensures ParsePair(UpperHexDigit(b / 16), UpperHexDigit(b % 16)) == Some(b)
  {
  }

  /** When every pair of the cleaned text parses, decoding succeeds with one
      byte per pair. */
  lemma ParseHexAllPairs(hexString: string, clean: string)
    requires !IsBlank(hexString) && clean == StripWhitespace(hexString) && |clean| % 2 == 0
    requires forall k :: 0 <= k < |clean| / 2 ==> PairAt(clean, k).Some?
    ensures ParseHex(Some(hexString)).Success?
    ensures |ParseHex(Some(hexString)).value| == |clean| / 2
    ensures forall k :: 0 <= k < |clean| / 2 ==> ParseHex(Some(hexString)).value[k] == ToByte(PairAt(clean, k).value)
  {
  }

  lemma HexEncodeNotBlank(bytes: Bytes)
    requires |bytes| > 0
    ensures !IsBlank(HexEncode(bytes))
  {
    HexEncodeLayout(bytes);
    var s := HexEncode(bytes);
    assert s[3 * 0] == UpperHexDigit(bytes[0] / 16);
    assert s[0] as int > 0x20;
  }

  /** Decoding the canonical encoding gives back the bytes. */
  lemma HexRoundTrip(bytes: Bytes)
    ensures ParseHex(Some(HexEncode(bytes))) == Success(bytes)
  {
    var n := |bytes|;
    if n > 0 {
      var s := HexEncode(bytes);
      HexEncodeNotBlank(bytes);
      StripHexEncode(bytes);
      HexDigitsPairs(bytes);
      ParseHexOfPairs(s, HexDigits(bytes), bytes);
    }
  }

  /** A text whose cleaned pairs have the values `bytes` decodes to `bytes`. */
  lemma ParseHexOfPairs(hexString: string, clean: string, bytes: Bytes)
    requires !IsBlank(hexString) && clean == StripWhitespace(hexString) && |clean| == 2 * |bytes|
    requires forall k :: 0 <= k < |bytes| ==> PairAt(clean, k) == Some(bytes[k])
    ensures ParseHex(Some(hexString)) == Success(bytes)
  {
    ParseHexAllPairs(hexString, clean);
    PairsDecodeTo(ParseHex(Some(hexString)).value, bytes, clean);
  }

  /** Bytes decoded from pairs whose values are `bytes` are `bytes`. */
  lemma PairsDecodeTo(r: Bytes, bytes: Bytes, clean: string)
    requires |r| == |bytes| && |clean| == 2 * |bytes|
    requires forall k :: 0 <= k < |bytes| ==> PairAt(clean, k) == Some(bytes[k])
    requires forall k :: 0 <= k < |bytes| ==> r[k] == ToByte(PairAt(clean, k).value)
    ensures r == bytes
  {
    forall k | 0 <= k < |bytes|
      ensures r[k] == bytes[k]
    {
      assert PairAt(clean, k) == Some(bytes[k]);
    }
  }

  /** A cleaned string of 2n hex digits decodes to n bytes, byte k being the
      value of pair k. */
  lemma ParseHexOfDigits(hexString: string)
    requires !IsBlank(hexString)
    requires |StripWhitespace(hexString)| % 2 == 0
    requires forall i :: 0 <= i < |StripWhitespace(hexString)| ==> IsHexDigit(StripWhitespace(hexString)[i])
    ensures ParseHex(Some(hexString)).Success?
    ensures var clean, r := StripWhitespace(hexString), ParseHex(Some(hexString)).value;
      |r| == |clean| / 2 &&
      forall k :: 0 <= k < |r| ==> r[k] == 16 * HexDigitValue(clean[2 * k]) + HexDigitValue(clean[2 * k + 1])
  {
    var clean := StripWhitespace(hexString);
    forall k | 0 <= k < |clean| / 2
      ensures PairAt(clean, k).Some?
    {
      assert IsHexDigit(clean[2 * k]) && IsHexDigit(clean[2 * k + 1]);
    }
  }

  /** Integer.parseInt accepts a sign: the pair "-1" is the byte 0xFF. */
  lemma SignedPairAccepted()
    ensures ParseHex(Some("-1")) == Success([0xFF])
  {
    StripWhitespaceKeepsSolid("-1");
    assert PairAt("-1", 0) == Some(-1);
    assert !IsBlank("-1") by {
      assert "-1"[0] as int > 0x20;
    }
    ParseHexAllPairs("-1", "-1");
    var r := ParseHex(Some("-1")).value;
    assert r[0] == 0xFF;
    assert r == [0xFF];
  }

  /** What `matchesPattern` returns or throws. */
  function MatchOutcome(data: Option<Bytes>, offset: int, hexPattern: Option<string>): Result<bool>
  {
    if data.None? || hexPattern.None? then Success(false)
    else match ParseHex(hexPattern)
      case Failure(e) => Failure(e)
      case Success(pattern) =>
        if offset + |pattern| > |data.value| then Success(false)
        else if offset < 0 && |pattern| > 0 then Failure(IndexOutOfBounds)
        else Success(forall i :: 0 <= i < |pattern| ==> data.value[offset + i] == pattern[i])
  }

  /** `matchesPattern`: compares position by position and stops at the first
      difference; the first access below index 0 throws. */
  method MatchesPattern(data: Option<Bytes>, offset: int, hexPattern: Option<string>) returns (r: Result<bool>)
    ensures r == MatchOutcome(data, offset, hexPattern)
  {
    if data.None? || hexPattern.None? {
      return Success(false);
    }
    var parsed := HexStringToBytes(hexPattern);
    if parsed.Failure? {
      return Failure(parsed.error);
    }
    var pattern := parsed.value;
    if offset + |pattern| > |data.value| {
      return Success(false);
    }
    var i := 0;
    while i < |pattern|
      invariant 0 <= i <= |pattern|
      invariant i > 0 ==> offset >= 0
      invariant forall j :: 0 <= j < i ==> data.value[offset + j] == pattern[j]
    {
      if offset + i < 0 {
        return Failure(IndexOutOfBounds);
      }
      if data.value[offset + i] != pattern[i] {
        return Success(false);
      }
      i := i + 1;
    }
    return Success(true);
  }

  /** A blank pattern matches wherever `offset <= data.length`, negative
      offsets included, because nothing is read. */
  lemma BlankPatternMatches(data: Bytes, offset: int, hexPattern: string)
    requires IsBlank(hexPattern)
    ensures MatchOutcome(Some(data), offset, Some(hexPattern)) == Success(offset <= |data|)
  {
  }

  /** Unlike the catalog matcher, a negative offset with a non-empty pattern
      that fits throws instead of answering false. */
  lemma NegativeOffsetThrows(data: Bytes, offset: int, hexPattern: string)
    requires offset < 0
    requires ParseHex(Some(hexPattern)).Success?
    requires 0 < |ParseHex(Some(hexPattern)).value| && offset + |ParseHex(Some(hexPattern)).value| <= |data|
    ensures MatchOutcome(Some(data), offset, Some(hexPattern)) == Failure(IndexOutOfBounds)
  {
  }
}
