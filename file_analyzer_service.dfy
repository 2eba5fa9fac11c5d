/** FileAnalyzerService: identifies a file from the first bytes of its
    content against the catalog of a DatabaseService. */
module Analyzer {
  import opened Common
  import opened FileSystems
  import opened FileTypes
  import opened Database
  import FileUtils

  /** How many leading bytes of a file the analysis looks at. */
  const HeaderLimit: int := 20

  class FileAnalyzerService {
    const databaseService: DatabaseService

    constructor (databaseService: DatabaseService)
      ensures this.databaseService == databaseService
    {
      this.databaseService := databaseService;
    }

    /** `analyzeFile`: nothing for a null or missing file; otherwise the
        whole content goes to the matcher with length `min(size, 20)`. */
    function AnalyzeFile(files: map<Path, Bytes>, file: Option<Path>): (r: Option<Descriptor>)
      reads databaseService
      ensures file.None? || file.value !in files ==> r.None?
      ensures r.Some? ==> r.value in databaseService.fileTypes
      ensures file.Some? && file.value in files && |files[file.value]| == 0 ==> r.None?
    {
      if file.None? || file.value !in files then None
      else
        var fileHeader := files[file.value];
        var bytesToRead := Min(|fileHeader|, HeaderLimit);
        databaseService.FindFileTypeByMagicNumbers(Some(fileHeader), bytesToRead)
    }

    /** `isFileTypeDeterminable`: an existing, non-empty file. A null file is
        not determinable. */
    predicate IsFileTypeDeterminable(files: map<Path, Bytes>, file: Option<Path>)
      ensures IsFileTypeDeterminable(files, file) <==> FileUtils.IsValidForAnalysis(files, file)
    {
      file != None && file.value in files && |files[file.value]| > 0
    }
  }

  /** The analysis is the catalog lookup on the first `min(size, 20)`
      bytes, the very header `readFileHeader(file, 20)` returns. */
  lemma AnalyzeReadsHeader(service: FileAnalyzerService, files: map<Path, Bytes>, file: Path)
    requires file in files
    ensures FileUtils.ReadFileHeader(files, Some(file), HeaderLimit).Success?
    ensures var header := FileUtils.ReadFileHeader(files, Some(file), HeaderLimit).value;
      service.AnalyzeFile(files, Some(file)) == FindFileType(service.databaseService.fileTypes, Some(header), |header|)
  {
    var content := files[file];
    var header := FileUtils.ReadFileHeader(files, Some(file), HeaderLimit).value;
    var n := Min(|content|, HeaderLimit);
    assert header == content[..n];
    assert header[..n] == content[..n];
    FindFileTypeOnlyReadsPrefix(service.databaseService.fileTypes, content, header, n);
  }

  /** Bytes from index 20 on never change the outcome. */
  lemma OnlyFirstBytesMatter(service: FileAnalyzerService, files: map<Path, Bytes>, file: Path, tail1: Bytes, tail2: Bytes, head: Bytes)
    requires |head| == HeaderLimit
    ensures service.AnalyzeFile(files[file := head + tail1], Some(file)) ==
            service.AnalyzeFile(files[file := head + tail2], Some(file))
  {
    var c1, c2 := head + tail1, head + tail2;
    assert c1[..HeaderLimit] == head == c2[..HeaderLimit];
    FindFileTypeOnlyReadsPrefix(service.databaseService.fileTypes, c1, c2, HeaderLimit);
  }

  /** A file the service does not consider determinable is never
      identified. */
  lemma UndeterminableIsUnidentified(service: FileAnalyzerService, files: map<Path, Bytes>, file: Option<Path>)
    requires !service.IsFileTypeDeterminable(files, file)
    ensures service.AnalyzeFile(files, file) == None
  {
  }

  /** With the built-in catalog, a file starting with the PNG signature is
      identified as PNG, whatever follows. */
  lemma PngFileIdentified(service: FileAnalyzerService, files: map<Path, Bytes>, file: Path, trailing: Bytes)
    requires service.databaseService.fileTypes == DefaultCatalog
    requires file in files && files[file] == PngSignature + trailing
    ensures service.AnalyzeFile(files, Some(file)) == Some(PngEntry)
  {
    var content := PngSignature + trailing;
    var n := Min(|content|, HeaderLimit);
    assert PatternMatches(content, n, PngPattern) by {
      forall i | 0 <= i < |PngSignature|
        ensures content[i] == PngSignature[i]
      {
      }
    }
    DefaultCatalogPngOrNothing(content, n);
  }
}
