/** DatabaseService: the signature catalog and the matcher that picks the
    first catalog entry with a signature found in a file header. */
module Database {
  import opened Common
  import opened MagicNumbers
  import opened FileTypes

  /** The extension of the entry the matcher falls back to. */
  const TextExtension: string := "txt"

  /** `matchesMagicNumber`: the pattern fits within the first `length` bytes
      and every pattern byte equals the header byte at `offset + i`. Null
      bytes, a negative index or an index past the header throw inside a
      try block whose handler answers false, so they are mismatches. */
  predicate PatternMatches(header: Bytes, length: int, magic: Pattern)
  {
    && magic.bytes.Some?
    && magic.offset + |magic.bytes.value| <= length
    && (|magic.bytes.value| > 0 ==> 0 <= magic.offset && magic.offset + |magic.bytes.value| <= |header|)
    && forall i :: 0 <= i < |magic.bytes.value| ==> header[magic.offset + i] == magic.bytes.value[i]
  }

  /** `matchesMagicNumber`, with its loop and early returns. */
  method MatchesMagicNumber(header: Bytes, length: int, magic: Pattern) returns (r: bool)
    ensures r == PatternMatches(header, length, magic)
  {
    if magic.bytes.None? {
      return false;
    }
    var offset := magic.offset;
    var magicBytes := magic.bytes.value;
    if offset + |magicBytes| > length {
      return false;
    }
    var i := 0;
    while i < |magicBytes|
      invariant 0 <= i <= |magicBytes|
      invariant i > 0 ==> 0 <= offset && offset + i <= |header|
      invariant forall j :: 0 <= j < i ==> header[offset + j] == magicBytes[j]
    {
      if offset + i < 0 || offset + i >= |header| {
        return false;
      }
      if header[offset + i] != magicBytes[i] {
        return false;
      }
      i := i + 1;
    }
    assert magicBytes == magic.bytes.value && offset == magic.offset;
    return true;
  }

  /** An entry the match step selects: it has signatures and one of them
      matches (any of them, not all). */
  predicate IsMatch(header: Bytes, length: int, t: Descriptor)
  {
    t.HasMagicNumbers() && exists p :: p in t.magicNumbers.value && PatternMatches(header, length, p)
  }

  predicate IsTextEntry(t: Descriptor) {
    t.extension == Some(TextExtension)
  }

  /** `findFirst` over a filtered stream: the index of the first element
      satisfying `p`. */
  function FindFirst<T>(s: seq<T>, p: T -> bool): (r: Option<nat>)
    ensures r.Some? ==> r.value < |s| && p(s[r.value]) && forall j :: 0 <= j < r.value ==> !p(s[j])
    ensures r.None? ==> forall j :: 0 <= j < |s| ==> !p(s[j])
  {
    if |s| == 0 then None
    else if p(s[0]) then Some(0)
    else match FindFirst(s[1..], p)
      case None => None
      case Some(i) => Some(i + 1)
  }

  /** `findFileTypeByMagicNumbers` over a catalog. */
  function FindFileType(catalog: seq<Descriptor>, header: Option<Bytes>, length: int): (r: Option<Descriptor>)
    ensures header.None? || length <= 0 ==> r.None?
    ensures r.Some? ==> r.value in catalog
  {
    if header.None? || length <= 0 then None
    else match FindFirst(catalog, t => IsMatch(header.value, length, t))
      case Some(i) => Some(catalog[i])
      case None =>
        match FindFirst(catalog, IsTextEntry)
        case Some(i) => Some(catalog[i])
        case None => None
  }

  /** Two predicates that agree on every element find the same first one. */
  lemma {:induction false} FindFirstCongruent<T>(s: seq<T>, p: T -> bool, q: T -> bool)
    requires forall x :: x in s ==> p(x) == q(x)
    ensures FindFirst(s, p) == FindFirst(s, q)
  {
    if |s| > 0 {
      FindFirstCongruent(s[1..], p, q);
    }
  }

  /** First-match rule: the earliest matching entry is the result. */
  lemma FirstMatchWins(catalog: seq<Descriptor>, header: Bytes, length: int, i: nat)
    requires length > 0 && i < |catalog|
    requires IsMatch(header, length, catalog[i])
    requires forall j :: 0 <= j < i ==> !IsMatch(header, length, catalog[j])
    ensures FindFileType(catalog, Some(header), length) == Some(catalog[i])
  {
    var m := FindFirst(catalog, t => IsMatch(header, length, t));
    assert m == Some(i);
  }

  /** Whatever else matches, the result is an entry no later than any matching
      one, and it is itself a matching entry. */
  lemma EarlierEntryHasPriority(catalog: seq<Descriptor>, header: Bytes, length: int, i: nat)
    requires length > 0 && i < |catalog|
    requires IsMatch(header, length, catalog[i])
    ensures exists k :: 0 <= k <= i && FindFileType(catalog, Some(header), length) == Some(catalog[k]) &&
                        IsMatch(header, length, catalog[k])
  {
    var m := FindFirst(catalog, t => IsMatch(header, length, t));
    assert m.Some?;
    var k := m.value;
    assert k <= i;
    assert FindFileType(catalog, Some(header), length) == Some(catalog[k]);
  }

  /** Fallback rule: when nothing matches, the result is the first entry whose
      extension is exactly "txt", signatures or not, and empty when there is
      none. */
  lemma FallbackToText(catalog: seq<Descriptor>, header: Bytes, length: int)
    requires length > 0
    requires forall j :: 0 <= j < |catalog| ==> !IsMatch(header, length, catalog[j])
    ensures (exists j :: 0 <= j < |catalog| && IsTextEntry(catalog[j])) ==>
      exists j :: 0 <= j < |catalog| && IsTextEntry(catalog[j])
        && FindFileType(catalog, Some(header), length) == Some(catalog[j])
        && forall i :: 0 <= i < j ==> !IsTextEntry(catalog[i])
    ensures (forall j :: 0 <= j < |catalog| ==> !IsTextEntry(catalog[j])) ==>
      FindFileType(catalog, Some(header), length) == None
  {
    var m := FindFirst(catalog, t => IsMatch(header, length, t));
    assert m.None?;
  }

  /** A result is either a matching entry or the text fallback; an entry
      without signatures is only ever returned as the fallback. */
  lemma ResultIsMatchOrFallback(catalog: seq<Descriptor>, header: Bytes, length: int)
    ensures var r := FindFileType(catalog, Some(header), length);
      r.Some? ==> IsMatch(header, length, r.value) || IsTextEntry(r.value)
    ensures var r := FindFileType(catalog, Some(header), length);
      r.Some? && !r.value.HasMagicNumbers() ==> r.value.extension == Some(TextExtension)
  {
  }

  /** A pattern that does not fit within `length` bytes never matches; one
      that ends exactly at `length` can. */
  lemma PatternBoundary(header: Bytes, magic: Pattern)
    requires magic.bytes.Some? && 0 <= magic.offset
    requires magic.offset + |magic.bytes.value| <= |header|
    requires header[magic.offset..magic.offset + |magic.bytes.value|] == magic.bytes.value
    ensures PatternMatches(header, magic.offset + |magic.bytes.value|, magic)
    ensures !PatternMatches(header, magic.offset + |magic.bytes.value| - 1, magic)
  {
    var b := magic.bytes.value;
    forall i | 0 <= i < |b|
      ensures header[magic.offset + i] == b[i]
    {
      assert header[magic.offset..magic.offset + |b|][i] == b[i];
    }
  }

  /** A zero-length pattern reads nothing: it matches exactly when its offset
      is at most `length`, negative offsets included. */
  lemma EmptyPatternMatches(header: Bytes, length: int, offset: int, hex: Option<string>)
    ensures PatternMatches(header, length, Pattern(offset, Some([]), hex)) <==> offset <= length
  {
  }

  /** Only the first `length` header bytes can influence a match. */
  lemma PatternMatchesOnlyReadsPrefix(h1: Bytes, h2: Bytes, length: int, magic: Pattern)
    requires 0 <= length <= |h1| && length <= |h2|
    requires h1[..length] == h2[..length]
    ensures PatternMatches(h1, length, magic) == PatternMatches(h2, length, magic)
  {
    if magic.bytes.Some? && magic.offset + |magic.bytes.value| <= length {
      var b, off := magic.bytes.value, magic.offset;
      if |b| > 0 && 0 <= off {
        forall i | 0 <= i < |b|
          ensures h1[off + i] == b[i] <==> h2[off + i] == b[i]
        {
          assert h1[..length][off + i] == h2[..length][off + i];
        }
      }
    }
  }

  /** The identification depends on the first `length` header bytes only. */
  lemma FindFileTypeOnlyReadsPrefix(catalog: seq<Descriptor>, h1: Bytes, h2: Bytes, length: int)
    requires 0 <= length <= |h1| && length <= |h2|
    requires h1[..length] == h2[..length]
    ensures FindFileType(catalog, Some(h1), length) == FindFileType(catalog, Some(h2), length)
  {
    if length > 0 {
      forall t | t in catalog
        ensures IsMatch(h1, length, t) == IsMatch(h2, length, t)
      {
        forall p | t.magicNumbers.Some? && p in t.magicNumbers.value
          ensures PatternMatches(h1, length, p) == PatternMatches(h2, length, p)
        {
          PatternMatchesOnlyReadsPrefix(h1, h2, length, p);
        }
      }
      FindFirstCongruent(catalog, t => IsMatch(h1, length, t), t => IsMatch(h2, length, t));
    }
  }

  /** The PNG signature, 89 50 4E 47 0D 0A 1A 0A. */
  const PngSignature: Bytes := [0x89, 0x50, 0x4E, 0x47, 0x0D, 0x0A, 0x1A, 0x0A]

  const PngPattern: Pattern := Pattern(0, Some(PngSignature), Some("89 50 4E 47 0D 0A 1A 0A"))

  const PngEntry: Descriptor := Descriptor(Some("png"), Some("Portable Network Graphics"), Some([PngPattern]))

  /** The built-in catalog used when the resource cannot be loaded. */
  const DefaultCatalog: seq<Descriptor> := [PngEntry]

  /** What deserialising the catalog resource gave: a list of entries, no
      resource at all, or an exception. */
  datatype LoadOutcome = Loaded(fileTypes: seq<Descriptor>) | ResourceMissing | LoadFailed

  /** The catalog `loadFileTypes` settles on. */
  function SelectCatalog(source: LoadOutcome): (c: seq<Descriptor>)
    ensures source.Loaded? ==> c == source.fileTypes
    ensures !source.Loaded? ==> c == DefaultCatalog
    ensures |c| == 0 ==> source == Loaded([])
  {
    if source.Loaded? then source.fileTypes else DefaultCatalog
  }

  /** The hex text of the built-in signature decodes to the PNG signature. */
  lemma PngSignatureDecodes()
    ensures LenientDecode("89504E470D0A1A0A") == PngSignature
  {
    assert "89504E470D0A1A0A" == "89504E47" + "0D0A1A0A";
    LenientDecodeAppend("89504E47", "0D0A1A0A");
    PngSignatureHead();
    PngSignatureTail();
    assert PngSignature == [0x89, 0x50, 0x4E, 0x47] + [0x0D, 0x0A, 0x1A, 0x0A];
  }

  lemma PngSignatureHead()
    ensures LenientDecode("89504E47") == [0x89, 0x50, 0x4E, 0x47]
  {
    var r := LenientDecode("89504E47");
    assert PairByte('8', '9') == 0x89 && PairByte('5', '0') == 0x50;
    assert PairByte('4', 'E') == 0x4E && PairByte('4', '7') == 0x47;
    assert r[0] == PairByte('8', '9') && r[1] == PairByte('5', '0');
    assert r[2] == PairByte('4', 'E') && r[3] == PairByte('4', '7');
  }

  lemma PngSignatureTail()
    ensures LenientDecode("0D0A1A0A") == [0x0D, 0x0A, 0x1A, 0x0A]
  {
    var r := LenientDecode("0D0A1A0A");
    assert PairByte('0', 'D') == 0x0D && PairByte('0', 'A') == 0x0A;
    assert PairByte('1', 'A') == 0x1A;
    assert r[0] == PairByte('0', 'D') && r[1] == PairByte('0', 'A');
    assert r[2] == PairByte('1', 'A') && r[3] == PairByte('0', 'A');
  }

  /** Under the built-in catalog a header is PNG or nothing: there is no text
      entry to fall back to. */
  lemma DefaultCatalogPngOrNothing(header: Bytes, length: int)
    requires length > 0
    ensures PatternMatches(header, length, PngPattern) ==>
      FindFileType(DefaultCatalog, Some(header), length) == Some(PngEntry)
    ensures !PatternMatches(header, length, PngPattern) ==>
      FindFileType(DefaultCatalog, Some(header), length) == None
  {
    if PatternMatches(header, length, PngPattern) {
      FirstMatchWins(DefaultCatalog, header, length, 0);
    } else {
      assert !IsMatch(header, length, PngEntry);
      FallbackToText(DefaultCatalog, header, length);
    }
  }

  class DatabaseService {
    var fileTypes: seq<Descriptor>

    /** Loads the catalog once, from what the resource gave. */
    constructor (source: LoadOutcome)
      ensures fileTypes == SelectCatalog(source)
    {
      fileTypes := [];
      new;
      LoadFileTypes(source);
    }

    /** `loadFileTypes`: the loaded list when deserialisation succeeds, the
        built-in catalog when the resource is missing or reading it throws. */
    method LoadFileTypes(source: LoadOutcome)
      modifies this
      ensures fileTypes == SelectCatalog(source)
    {
      match source
      case Loaded(types) =>
        fileTypes := types;
      case ResourceMissing =>
        LoadDefaultFileTypes();
      case LoadFailed =>
        LoadDefaultFileTypes();
    }

    /** `loadDefaultFileTypes`: builds the PNG entry through the setters and
        makes it the only entry. */
    method LoadDefaultFileTypes()
      modifies this
      ensures fileTypes == DefaultCatalog
    {
      fileTypes := [];
      var pngType := new FileType.Default();
      pngType.SetExtension(Some("png"));
      pngType.SetDescription(Some("Portable Network Graphics"));
      var pngMagic := new MagicNumber.Default();
      pngMagic.SetOffset(0);
      pngMagic.SetHex(Some("89 50 4E 47 0D 0A 1A 0A"));
      var signature := HexStringToByteArray("89504E470D0A1A0A");
      PngSignatureDecodes();
      pngMagic.SetBytes(Some(signature));
      pngType.SetMagicNumbers(Some([pngMagic]));
      assert pngMagic.Value() == PngPattern;
      assert PatternsOf([pngMagic]) == [PngPattern];
      assert pngType.Value() == PngEntry;
      fileTypes := fileTypes + [pngType.Value()];
    }

    /** The service's own `hexStringToByteArray`: no exception handler, so
        its one caller passes an even-length text. */
    static method HexStringToByteArray(hexString: string) returns (data: Bytes)
      requires |hexString| % 2 == 0
      ensures data == LenientDecode(hexString)
    {
      var len := |hexString|;
      var a := new Byte[len / 2];
      var i := 0;
      while i < len
        invariant 0 <= i <= len && i % 2 == 0
        invariant forall k :: 0 <= k < i / 2 ==> a[k] == PairByte(hexString[2 * k], hexString[2 * k + 1])
      {
        a[i / 2] := PairByte(hexString[i], hexString[i + 1]);
        i := i + 2;
      }
      data := a[..];
    }

    /** `findFileTypeByMagicNumbers`: identification against this catalog. */
    function FindFileTypeByMagicNumbers(fileHeader: Option<Bytes>, length: int): (r: Option<Descriptor>)
      reads this
      ensures r == FindFileType(fileTypes, fileHeader, length)
      ensures r.Some? ==> r.value in fileTypes
    {
      FindFileType(fileTypes, fileHeader, length)
    }

    /** `getAllFileTypes`: a copy with the same entries in the same order. */
    function GetAllFileTypes(): (r: seq<Descriptor>)
      reads this
      ensures |r| == |fileTypes| && forall i :: 0 <= i < |r| ==> r[i] == fileTypes[i]
    {
      fileTypes
    }
  }

  /** The scenario of a PNG entry followed by a text entry without
      signatures. */
  const TextEntry: Descriptor := Descriptor(Some("txt"), Some("Text"), Some([]))

  lemma PngThenTextScenario(trailing: Bytes)
    ensures FindFileType([PngEntry, TextEntry], Some(PngSignature + trailing), 8) == Some(PngEntry)
    ensures FindFileType([PngEntry, TextEntry], Some([0x00, 0x01, 0x02]), 3) == Some(TextEntry)
  {
    var catalog := [PngEntry, TextEntry];
    var h := PngSignature + trailing;
    assert PatternMatches(h, 8, PngPattern) by {
      forall i | 0 <= i < 8
        ensures h[i] == PngSignature[i]
      {
      }
    }
    FirstMatchWins(catalog, h, 8, 0);
    var g: Bytes := [0x00, 0x01, 0x02];
    assert !PatternMatches(g, 3, PngPattern);
    assert !IsMatch(g, 3, PngEntry);
    assert !IsMatch(g, 3, TextEntry);
    FallbackToText(catalog, g, 3);
    assert IsTextEntry(catalog[1]);
    assert !IsTextEntry(catalog[0]);
  }
}
