# FileExtensionAnalyzer, modelled in Dafny

FileExtensionAnalyzer identifies a file's format from its first bytes, its
"magic numbers", and can restore a missing or wrong extension. This
project models the core of the analyzer and proves properties of that
model.

- **Catalog.** `DatabaseService` holds a catalog of file types. Each is a
  `FileType`: an extension, a description and a list of `MagicNumber`
  signatures. A signature is a byte pattern expected at an offset.
- **Built-in fallback.** When the catalog resource is missing or cannot be
  read, the catalog is one built-in PNG entry.
- **Matching.** The matcher takes the first 20 bytes of a file and returns
  the first catalog entry with a matching signature. When nothing matches,
  it returns the first entry whose extension is `txt`.
- **Restoring.** `FileRestoreService` copies a file under the extension of
  its detected type, and makes `.backup` copies.
- **Utilities.** `FileUtils` handles file names, reads headers and copies a
  file under a collision-free name. `HexUtils` converts between bytes and
  the `"89 50 4E 47"` text form and matches hex patterns.

## Modules

- `Common`:
  - bytes, seen unsigned; Java's `(byte)` cast is `ToByte`;
  - `Option`, which stands for a reference that may be null;
  - `Result`, which carries the exception that escapes an operation.
- `Text`: the parts of `java.lang.String` and `Character` the core relies
  on:
  - `Character.digit(c, 16)`;
  - `trim().isEmpty()`;
  - `replaceAll("\\s+", "")`;
  - `lastIndexOf`;
  - decimal printing of a counter.
- `HexUtils`:
  - strict decoding, as `hexStringToBytes`;
  - the canonical encoding, as `bytesToHexString`;
  - `matchesPattern`.
- `MagicNumbers`: the `MagicNumber` class, with its setters. `setHex`
  decodes leniently.
- `FileTypes`: the `FileType` class and its value `Descriptor`.
- `Database`:
  - the matcher;
  - the choice of catalog;
  - the `DatabaseService` class.
- `FileSystems`: regular files as a map from a path (directory and name) to
  their bytes. `Files.copy` with `REPLACE_EXISTING` is `FileSystem.Copy`.
- `FileUtils`: file-name functions, header reading, and the copy under a
  collision-free name.
- `FileRestore`: `restoreFileExtension` and `createBackup`.
- `Analyzer`: the `FileAnalyzerService` class.

### Where the model and the code's own promises differ

The repository's test of `isFileTypeDeterminable` expects `true` for a
null file. The code returns `false` for null. The model follows the code:
`Analyzer.FileAnalyzerService.IsFileTypeDeterminable` is false for `None`.

## Model

| member | source | states |
|---|---|---|
| Text.HexDigitValue | src/main/java/com/fileanalyzer/model/MagicNumber.java:101-102 | `Character.digit(c, 16)`: -1 exactly for non-hex-digits; for a hex digit, the index of that digit in "0123456789abcdef" or "0123456789ABCDEF", i.e. its value |
| Text.StripWhitespace | src/main/java/com/fileanalyzer/util/HexUtils.java:25 | removing whitespace leaves no whitespace and never lengthens the text; with the three lemmas that follow it keeps exactly the other characters, in order |
| Text.StripWhitespaceDropsSpace | src/main/java/com/fileanalyzer/util/HexUtils.java:25 | a lone `\s` character is removed |
| Text.StripWhitespaceAppend | src/main/java/com/fileanalyzer/util/HexUtils.java:25 | removing whitespace from joined texts is removing it from each and joining |
| Text.StripWhitespaceKeepsSolid | src/main/java/com/fileanalyzer/util/HexUtils.java:25 | a text without whitespace is left unchanged |
| Text.LastIndexOf | src/main/java/com/fileanalyzer/util/FileUtils.java:79 | -1 exactly when the character is absent; otherwise the index of an occurrence with none after it |
| Text.LastIndexOfAt | src/main/java/com/fileanalyzer/util/FileUtils.java:79 | a dot with no dot after it is the one `lastIndexOf` finds |
| Text.NatToDecimal | src/main/java/com/fileanalyzer/util/FileUtils.java:59 | the printed counter is a non-empty decimal string without a leading zero (except "0" itself), as `Integer.toString` prints it |
| Text.DecimalRoundTrip | src/main/java/com/fileanalyzer/util/FileUtils.java:59 | reading the printed counter back gives the counter |
| Text.DecimalInjective | src/main/java/com/fileanalyzer/util/FileUtils.java:59 | different counters print differently |
| HexUtils.ParsePair | src/main/java/com/fileanalyzer/util/HexUtils.java:33 | `Integer.parseInt(pair, 16)` succeeds exactly on two hex digits or a sign and one digit; two digits give 16*hi+lo, "-d" gives -d and "+d" gives d |
| HexUtils.ParseHex | src/main/java/com/fileanalyzer/util/HexUtils.java:20-37 | null or blank text gives no bytes; an odd number of non-space characters throws IllegalArgumentException; only that and NumberFormatException can escape |
| HexUtils.HexStringToBytes | src/main/java/com/fileanalyzer/util/HexUtils.java:20-37 | the array-filling loop with its early exit computes exactly `ParseHex` |
| HexUtils.ParseHexOfDigits | src/main/java/com/fileanalyzer/util/HexUtils.java:31-36 | a cleaned text of 2n hex digits decodes to n bytes, byte k being the value of pair k |
| HexUtils.SignedPairAccepted | src/main/java/com/fileanalyzer/util/HexUtils.java:33 | a signed pair is accepted: "-1" decodes to the byte 0xFF |
| HexUtils.BytesToHexString | src/main/java/com/fileanalyzer/util/HexUtils.java:45-58 | the StringBuilder loop gives "" for null or no bytes, else the canonical encoding |
| HexUtils.HexEncodeLayout | src/main/java/com/fileanalyzer/util/HexUtils.java:45-58 | n bytes encode to 3n-1 characters: byte k's upper-case digits at 3k and 3k+1, a space at 3k+2 between bytes |
| HexUtils.StripHexEncode | src/main/java/com/fileanalyzer/util/HexUtils.java:25 | removing the whitespace from an encoding leaves exactly the digit pairs |
| HexUtils.HexDigitsPairs | src/main/java/com/fileanalyzer/util/HexUtils.java:55 | each printed pair parses back to its byte |
| HexUtils.EncodedPairParses | src/main/java/com/fileanalyzer/util/HexUtils.java:55 | the two upper-case digits printed for a byte parse back to that byte |
| HexUtils.HexEncodeNotBlank | src/main/java/com/fileanalyzer/util/HexUtils.java:21 | the encoding of at least one byte is not blank |
| HexUtils.ParseHexOfPairs | src/main/java/com/fileanalyzer/util/HexUtils.java:31-36 | a non-blank text whose cleaned pairs have the values b decodes to exactly b |
| HexUtils.HexRoundTrip | src/main/java/com/fileanalyzer/util/HexUtils.java:20-58 | decoding the encoding of any byte sequence gives it back |
| HexUtils.MatchesPattern | src/main/java/com/fileanalyzer/util/HexUtils.java:68-86 | the comparison loop with its early exits computes exactly `MatchOutcome`, including the decoding errors and the index error it lets escape |
| HexUtils.BlankPatternMatches | src/main/java/com/fileanalyzer/util/HexUtils.java:75-85 | a blank pattern matches exactly when the offset is at most the data length, negative offsets included |
| HexUtils.NegativeOffsetThrows | src/main/java/com/fileanalyzer/util/HexUtils.java:79-80 | a negative offset with a non-empty pattern that fits throws an index error |
| MagicNumbers.MagicNumber.Default | src/main/java/com/fileanalyzer/model/MagicNumber.java:15-16 | a new signature has offset 0, no bytes and no hex text |
| MagicNumbers.MagicNumber.constructor | src/main/java/com/fileanalyzer/model/MagicNumber.java:25-29 | offset, bytes and hex are stored verbatim, with no consistency check |
| MagicNumbers.MagicNumber.SetOffset | src/main/java/com/fileanalyzer/model/MagicNumber.java:46-48 | the offset is set and nothing else changes |
| MagicNumbers.MagicNumber.SetBytes | src/main/java/com/fileanalyzer/model/MagicNumber.java:64-66 | the bytes are set and nothing else changes |
| MagicNumbers.MagicNumber.SetHex | src/main/java/com/fileanalyzer/model/MagicNumber.java:82-88 | the hex text is always stored; non-blank text also replaces the bytes by its lenient decoding without whitespace; null or blank text keeps the old bytes |
| MagicNumbers.MagicNumber.HexStringToByteArray | src/main/java/com/fileanalyzer/model/MagicNumber.java:96-108 | even length decodes pair by pair; odd length gives no bytes (the caught exception) |
| MagicNumbers.MagicNumber.GetLength | src/main/java/com/fileanalyzer/model/MagicNumber.java:115-117 | 0 without bytes, otherwise the number of bytes |
| MagicNumbers.LenientDecodeOfDigits | src/main/java/com/fileanalyzer/model/MagicNumber.java:100-103 | on hex digits, byte k is 16*digit(s[2k]) + digit(s[2k+1]) with no wrap-around |
| MagicNumbers.LenientDecodeAt | src/main/java/com/fileanalyzer/model/MagicNumber.java:100-103 | byte k of the lenient decoding comes from characters 2k and 2k+1 |
| MagicNumbers.NonHexDigitDecodes | src/main/java/com/fileanalyzer/model/MagicNumber.java:101-102 | a non-hex character counts as -1 instead of failing: "G0" gives 0xF0 |
| MagicNumbers.LenientAgreesWithStrict | src/main/java/com/fileanalyzer/model/MagicNumber.java:96-108 | on whitespace-separated hex digits the lenient `setHex` decoding equals strict `hexStringToBytes` |
| MagicNumbers.LenientDecodeAppend | src/main/java/com/fileanalyzer/model/MagicNumber.java:100-103 | each pair decodes on its own, so decoding two even-length texts joined is the two decodings joined |
| MagicNumbers.LenientDecodeOfPairs | src/main/java/com/fileanalyzer/model/MagicNumber.java:100-103 | pairs of hex digits whose values are b decode leniently to b |
| MagicNumbers.CanonicalHexRoundTrip | src/main/java/com/fileanalyzer/model/MagicNumber.java:82-88 | setting the canonical text of a non-empty byte sequence stores exactly those bytes |
| FileTypes.PatternsOf | src/main/java/com/fileanalyzer/model/FileType.java:12 | the signature values of a list, in order and of the same length |
| FileTypes.FileType.Default | src/main/java/com/fileanalyzer/model/FileType.java:17-18 | a new type has every field null |
| FileTypes.FileType.constructor | src/main/java/com/fileanalyzer/model/FileType.java:27-31 | extension, description and signature list are stored unchanged |
| FileTypes.FileType.Value | src/main/java/com/fileanalyzer/model/FileType.java:9-12 | the value has the object's extension, description and the values of its signatures |
| FileTypes.FileType.SetExtension | src/main/java/com/fileanalyzer/model/FileType.java:48-50 | the extension is set and nothing else changes |
| FileTypes.FileType.SetDescription | src/main/java/com/fileanalyzer/model/FileType.java:66-68 | the description is set and nothing else changes |
| FileTypes.FileType.SetMagicNumbers | src/main/java/com/fileanalyzer/model/FileType.java:84-86 | the signature list is set and nothing else changes |
| FileTypes.FileType.HasMagicNumbers | src/main/java/com/fileanalyzer/model/FileType.java:93-95 | false for a null or empty list, true for any non-empty one; the same answer as on the type's value |
| FileTypes.FileType.MagicNumbersCount | src/main/java/com/fileanalyzer/model/FileType.java:102 | the count `toString` reports: 0 for null, the list size otherwise, positive exactly when the type has signatures |
| Database.MatchesMagicNumber | src/main/java/com/fileanalyzer/service/DatabaseService.java:114-133 | the loop with early returns and the caught exception answers exactly `PatternMatches` |
| Database.FindFirst | src/main/java/com/fileanalyzer/service/DatabaseService.java:90-94 | the index of the first element satisfying the filter, none if there is none |
| Database.FindFileType | src/main/java/com/fileanalyzer/service/DatabaseService.java:84-104 | a null header or length <= 0 gives nothing, with no text fallback; a result is always a catalog entry |
| Database.FindFirstCongruent | src/main/java/com/fileanalyzer/service/DatabaseService.java:90-94 | filters that agree on every entry select the same one |
| Database.FirstMatchWins | src/main/java/com/fileanalyzer/service/DatabaseService.java:90-94 | the earliest entry with a matching signature is the result |
| Database.EarlierEntryHasPriority | src/main/java/com/fileanalyzer/service/DatabaseService.java:90-94 | if entry i matches, the result is a matching entry at index <= i |
| Database.FallbackToText | src/main/java/com/fileanalyzer/service/DatabaseService.java:97-103 | when nothing matches, the result is the first entry with extension exactly "txt", signatures or not, and nothing if there is none |
| Database.ResultIsMatchOrFallback | src/main/java/com/fileanalyzer/service/DatabaseService.java:90-103 | a result is a matching entry or a "txt" entry; one without signatures is always the "txt" fallback |
| Database.PatternBoundary | src/main/java/com/fileanalyzer/service/DatabaseService.java:119-121 | a pattern ending exactly at `length` can match; one byte less and it cannot |
| Database.EmptyPatternMatches | src/main/java/com/fileanalyzer/service/DatabaseService.java:116-128 | an empty pattern matches exactly when offset <= length, negative offsets included |
| Database.PatternMatchesOnlyReadsPrefix | src/main/java/com/fileanalyzer/service/DatabaseService.java:114-133 | headers with the same first `length` bytes match the same patterns |
| Database.FindFileTypeOnlyReadsPrefix | src/main/java/com/fileanalyzer/service/DatabaseService.java:84-104 | headers with the same first `length` bytes are identified alike |
| Database.SelectCatalog | src/main/java/com/fileanalyzer/service/DatabaseService.java:38-52 | a loaded list is used as is; a missing resource or a failure gives the built-in catalog; the catalog is empty only when an empty list was loaded |
| Database.PngSignatureDecodes | src/main/java/com/fileanalyzer/service/DatabaseService.java:68 | "89504E470D0A1A0A" decodes to the 8-byte PNG signature |
| Database.DefaultCatalogPngOrNothing | src/main/java/com/fileanalyzer/service/DatabaseService.java:57-74 | under the built-in catalog a header is PNG when the signature matches, and nothing otherwise |
| Database.DatabaseService.constructor | src/main/java/com/fileanalyzer/service/DatabaseService.java:28-33 | the catalog is the one `loadFileTypes` selects |
| Database.DatabaseService.LoadFileTypes | src/main/java/com/fileanalyzer/service/DatabaseService.java:38-52 | the catalog becomes `SelectCatalog` of what the resource gave |
| Database.DatabaseService.LoadDefaultFileTypes | src/main/java/com/fileanalyzer/service/DatabaseService.java:57-74 | building the PNG entry through the setters gives exactly the built-in catalog |
| Database.DatabaseService.HexStringToByteArray | src/main/java/com/fileanalyzer/service/DatabaseService.java:141-149 | on an even-length text, the loop computes the lenient pair decoding |
| Database.DatabaseService.FindFileTypeByMagicNumbers | src/main/java/com/fileanalyzer/service/DatabaseService.java:84-104 | identification against this service's catalog; a result is one of its entries |
| Database.DatabaseService.GetAllFileTypes | src/main/java/com/fileanalyzer/service/DatabaseService.java:156-158 | the same entries in the same order |
| Database.PngThenTextScenario | src/main/java/com/fileanalyzer/service/DatabaseService.java:84-104 | with a PNG entry and a text entry, a PNG header is PNG and any other header falls back to text |
| FileSystems.FileSystem.Copy | src/main/java/com/fileanalyzer/util/FileUtils.java:64 | the target holds the source's bytes, existing or not; every other file is unchanged |
| FileUtils.GetFileNameWithoutExtension | src/main/java/com/fileanalyzer/util/FileUtils.java:74-85 | null stays null; the result is a prefix of the name; it is the whole name exactly when there is no dot after index 0; otherwise it stops at the last dot |
| FileUtils.GetFileExtension | src/main/java/com/fileanalyzer/util/FileUtils.java:93-104 | never contains a dot; "" exactly for null, no dot or a trailing dot; otherwise the suffix after the last dot |
| FileUtils.HiddenFileAsymmetry | src/main/java/com/fileanalyzer/util/FileUtils.java:74-104 | for "." + rest, the extension is rest while the name without extension keeps the whole name |
| FileUtils.BashrcAsymmetry | src/main/java/com/fileanalyzer/util/FileUtils.java:74-104 | ".bashrc" has extension "bashrc" and name without extension ".bashrc" |
| FileUtils.Reconstruction | src/main/java/com/fileanalyzer/util/FileUtils.java:74-104 | when the last dot is neither first nor last, name without extension + "." + extension is the name |
| FileUtils.NameWithoutExtensionAt | src/main/java/com/fileanalyzer/util/FileUtils.java:79-84 | with the last dot after index 0, the name without extension is the text before it |
| FileUtils.ExtensionAt | src/main/java/com/fileanalyzer/util/FileUtils.java:98-103 | with the last dot before the last character, the extension is the text after it |
| FileUtils.ReadFileHeader | src/main/java/com/fileanalyzer/util/FileUtils.java:27-36 | null or missing file throws IOException, a negative `maxBytes` a NegativeArraySizeException; otherwise a prefix of the content of length min(size, maxBytes) |
| FileUtils.IsValidForAnalysis | src/main/java/com/fileanalyzer/util/FileUtils.java:112-118 | a file is valid exactly when a one-byte header can be read from it and holds one byte |
| FileUtils.CandidateInjective | src/main/java/com/fileanalyzer/util/FileUtils.java:52-59 | the plain name and the numbered names `base_k.ext` are pairwise different |
| FileUtils.FirstFreeUnique | src/main/java/com/fileanalyzer/util/FileUtils.java:57-62 | there is only one first free attempt |
| FileUtils.CopyFileWithNewExtension | src/main/java/com/fileanalyzer/util/FileUtils.java:46-66 | null or missing source throws IOException and copies nothing; otherwise the target is `base.ext`, or `base_k.ext` for the smallest free k, in the source's directory; it did not exist before and now holds the source's bytes; nothing else changes |
| FileRestore.StripLeadingDot | src/main/java/com/fileanalyzer/service/FileRestoreService.java:38-41 | the extension loses a dot exactly when it starts with one, and only one |
| FileRestore.StripOnlyOneDot | src/main/java/com/fileanalyzer/service/FileRestoreService.java:38-41 | "..png" keeps one dot, ".png" and "png" both become "png" |
| FileRestore.RestoredName | src/main/java/com/fileanalyzer/service/FileRestoreService.java:47-53 | the new name ends in a dot and the stripped extension |
| FileRestore.RestoredNameAgrees | src/main/java/com/fileanalyzer/service/FileRestoreService.java:47-53 | the part before the new extension is always what `getFileNameWithoutExtension` leaves of the name |
| FileRestore.RestorePhoto | src/main/java/com/fileanalyzer/service/FileRestoreService.java:47-53 | photo.jpg becomes photo.png, and ".png" acts like "png" |
| FileRestore.RestoreReadme | src/main/java/com/fileanalyzer/service/FileRestoreService.java:47-53 | README becomes README.png |
| FileRestore.RestoreHidden | src/main/java/com/fileanalyzer/service/FileRestoreService.java:47-53 | .hidden becomes .hidden.png |
| FileRestore.RestoredNameHasExtension | src/main/java/com/fileanalyzer/service/FileRestoreService.java:47-53 | for a non-empty extension without dots, `getFileExtension` of the new name is that extension |
| FileRestore.RestoreIdempotent | src/main/java/com/fileanalyzer/service/FileRestoreService.java:47-53 | restoring a restored name with the same extension changes nothing |
| FileRestore.BackupNameRoundTrip | src/main/java/com/fileanalyzer/service/FileRestoreService.java:78 | the backup name has extension "backup", and stripping it gives back the original name |
| FileRestore.RestoreFileExtension | src/main/java/com/fileanalyzer/service/FileRestoreService.java:29-64 | null or missing file, then null type or null extension, throw IllegalArgumentException and copy nothing; an empty extension is allowed; otherwise the bytes are copied to the new name in the same directory, overwriting, and nothing else changes |
| FileRestore.CreateBackup | src/main/java/com/fileanalyzer/service/FileRestoreService.java:73-86 | null or missing file throws IllegalArgumentException; otherwise an exact copy at name + ".backup" in the same directory replaces any earlier one, and nothing else changes |
| Analyzer.FileAnalyzerService.constructor | src/main/java/com/fileanalyzer/service/FileAnalyzerService.java:26-29 | the service keeps the catalog service it is given |
| Analyzer.FileAnalyzerService.AnalyzeFile | src/main/java/com/fileanalyzer/service/FileAnalyzerService.java:38-52 | null or missing file gives nothing, with no text fallback; an empty file gives nothing; a result is a catalog entry |
| Analyzer.FileAnalyzerService.IsFileTypeDeterminable | src/main/java/com/fileanalyzer/service/FileAnalyzerService.java:61-64 | true exactly for an existing non-empty file (so false for null), the same test as `isValidForAnalysis` |
| Analyzer.AnalyzeReadsHeader | src/main/java/com/fileanalyzer/service/FileAnalyzerService.java:46-51 | the analysis is the catalog lookup on the header `readFileHeader(file, 20)` returns, with its length |
| Analyzer.OnlyFirstBytesMatter | src/main/java/com/fileanalyzer/service/FileAnalyzerService.java:46-51 | bytes from index 20 on never change the result |
| Analyzer.UndeterminableIsUnidentified | src/main/java/com/fileanalyzer/service/FileAnalyzerService.java:38-52 | a file that is not determinable is never identified |
| Analyzer.PngFileIdentified | src/main/java/com/fileanalyzer/service/FileAnalyzerService.java:38-52 | with the built-in catalog, a file starting with the PNG signature is PNG whatever follows |

## Left out

- JSON deserialisation of the catalog is a foreign library. Its outcome is a parameter (`LoadOutcome`): a loaded list, a missing resource, or a failure.
- Logging, the JavaFX UI (`MainController`, `FileInfoDialog`, `App`) and the `toString` texts are left out. Of `toString`, only the signature count is modelled.
- Getters are not separate members: they are field reads.
- `FileUtils.formatFileSize` is left out: it uses floating-point division and `String.format`.
- Database.DatabaseService: the catalog holds the values (`Descriptor`) of the `FileType` objects. It does not hold references to them, so a change made to a `FileType` after it was added is not seen. For the same reason the list `getAllFileTypes` returns shares no state with the catalog.
- FileRestore.RestoreFileExtension takes the type's value, as the matcher returns it, not a `FileType` reference.
- MagicNumbers.MagicNumber: byte arrays are values. Aliasing between an array passed to `setBytes` and the caller's copy is not modelled.
- HexUtils.MatchesPattern does not model 32-bit overflow of `offset + pattern.length`. With `offset = 2^31 - 1` and a one-byte pattern, Java wraps past the bounds test and throws an index exception; `MatchOutcome` gives `Success(false)`.
- Database.MatchesMagicNumber does not model 32-bit overflow of `offset + magicBytes.length`; integers are unbounded.
- FileUtils.CopyFileWithNewExtension does not model wrap-around of the `int` counter after 2^31 attempts.
- FileUtils.CopyFileWithNewExtension takes the new extension as a string. A null extension, which Java would print as "null", is not modelled.
- The file system holds regular files only:
  - directories, `isFile()`, `canRead()` and permissions are not modelled;
  - a path always has a parent directory, so the `getParent() == null` case is left out;
  - I/O errors while reading or copying an existing file are not modelled.
- MagicNumbers.HexBytes, HexUtils.ParseHex and the other text members measure a string in Unicode scalar values, while Java counts UTF-16 units. For a character outside the Basic Multilingual Plane the lengths differ. For example, an emoji followed by "0" has an odd cleaned length in Java, so `setHex` stores an empty array, whereas `HexBytes` decodes one byte. For the same reason, `hexStringToBytes` may choose between its IllegalArgument and NumberFormat errors differently.
- `Character.digit` is restricted to ASCII hex digits, with -1 for anything else. Non-ASCII Unicode digits are not modelled.
- `trim()` counts every character up to U+0020 as blank. `\s` is the ASCII whitespace set.
- Null elements inside a signature list are not modelled.
- Database.DatabaseService.HexStringToByteArray requires an even length. Its only caller passes an even-length constant, and the uncaught index exception an odd length would raise is not modelled.
