/** FileUtils: file-name manipulation, header reading and copying a file
    under a new extension. */
module FileUtils {
  import opened Common
  import opened Text
  import opened FileSystems

  /** `getFileNameWithoutExtension`: null and "" come back unchanged; so does
      a name whose last dot is missing or at index 0 (a hidden file);
      otherwise the text before the last dot. */
  function GetFileNameWithoutExtension(fileName: Option<string>): (r: Option<string>)
    ensures r.None? <==> fileName.None?
    ensures fileName.Some? ==> r.value <= fileName.value
    ensures fileName.Some? ==>
      (r.value == fileName.value <==> |fileName.value| == 0 || '.' !in fileName.value[1..])
    ensures fileName.Some? && r.value != fileName.value ==>
      0 < |r.value| && fileName.value[|r.value|] == '.' && '.' !in fileName.value[|r.value| + 1..]
  {
    if fileName.None? || |fileName.value| == 0 then fileName
    else
      var name := fileName.value;
      var lastDotIndex := LastIndexOf(name, '.');
      if lastDotIndex == -1 || lastDotIndex == 0 then
        assert '.' !in name[1..] by {
          if lastDotIndex == 0 {
            assert name[1..] == name[lastDotIndex + 1..];
          }
        }
        fileName
      else
        assert name[1..][lastDotIndex - 1] == '.';
        Some(name[..lastDotIndex])
  }

  /** `getFileExtension`: "" for null, "", a name without a dot or one ending
      in a dot; otherwise the text after the last dot. */
  function GetFileExtension(fileName: Option<string>): (r: string)
    ensures '.' !in r
    ensures fileName.Some? ==> |r| < |fileName.value| || r == ""
    ensures fileName.Some? && r != "" ==>
      var name := fileName.value;
      r == name[|name| - |r|..] && name[|name| - |r| - 1] == '.'
    ensures r == "" <==>
      fileName.None? || '.' !in fileName.value || fileName.value[|fileName.value| - 1] == '.'
  {
    if fileName.None? || |fileName.value| == 0 then ""
    else
      var name := fileName.value;
      var lastDotIndex := LastIndexOf(name, '.');
      if lastDotIndex == -1 || lastDotIndex == |name| - 1 then ""
      else
        assert name[|name| - 1] != '.' by {
          assert name[|name| - 1] == name[lastDotIndex + 1..][|name| - 2 - lastDotIndex];
        }
        name[lastDotIndex + 1..]
  }

  /** A hidden file's whole name after its leading dot counts as the
      extension, yet the name keeps that dot-part: ".bashrc" has extension
      "bashrc" and name without extension ".bashrc". */
  lemma HiddenFileAsymmetry(rest: string)
    requires |rest| > 0 && '.' !in rest
    ensures GetFileExtension(Some("." + rest)) == rest
    ensures GetFileNameWithoutExtension(Some("." + rest)) == Some("." + rest)
  {
    var name := "." + rest;
    assert name[1..] == rest;
    assert LastIndexOf(name, '.') == 0;
  }

  lemma BashrcAsymmetry()
    ensures GetFileExtension(Some(".bashrc")) == "bashrc"
    ensures GetFileNameWithoutExtension(Some(".bashrc")) == Some(".bashrc")
  {
    HiddenFileAsymmetry("bashrc");
  }

  /** When the last dot is neither the first nor the last character, the name
      without its extension, a dot and the extension give the name back. */
  lemma Reconstruction(name: string)
    requires 1 <= LastIndexOf(name, '.') <= |name| - 2
    ensures GetFileNameWithoutExtension(Some(name)).value + "." + GetFileExtension(Some(name)) == name
  {
    var i := LastIndexOf(name, '.');
    NameWithoutExtensionAt(name);
    ExtensionAt(name);
    SplitAt(name, i);
  }

  lemma SplitAt(s: string, i: int)
    requires 0 <= i < |s| && s[i] == '.'
    ensures s[..i] + "." + s[i + 1..] == s
  {
    assert s == s[..i] + [s[i]] + s[i + 1..];
  }

  lemma NameWithoutExtensionAt(name: string)
    requires 1 <= LastIndexOf(name, '.')
    ensures GetFileNameWithoutExtension(Some(name)) == Some(name[..LastIndexOf(name, '.')])
  {
  }

  lemma ExtensionAt(name: string)
    requires 0 <= LastIndexOf(name, '.') <= |name| - 2
    ensures GetFileExtension(Some(name)) == name[LastIndexOf(name, '.') + 1..]
  {
  }

  /** `readFileHeader`: the first `min(size, maxBytes)` bytes of the file.
      A null or missing file is an IOException; a negative `maxBytes` makes
      `Arrays.copyOf` throw. */
  function ReadFileHeader(files: map<Path, Bytes>, file: Option<Path>, maxBytes: int): (r: Result<Bytes>)
    ensures file.None? || file.value !in files ==> r == Failure(IO)
    ensures file.Some? && file.value in files && maxBytes < 0 ==> r == Failure(NegativeArraySize)
    ensures r.Success? <==> file.Some? && file.value in files && maxBytes >= 0
    ensures r.Success? ==>
      r.value <= files[file.value] && |r.value| == Min(|files[file.value]|, maxBytes)
  {
    if file.None? || file.value !in files then Failure(IO)
    else
      var allBytes := files[file.value];
      var bytesToRead := Min(|allBytes|, maxBytes);
      if bytesToRead < 0 then Failure(NegativeArraySize)
      else Success(allBytes[..bytesToRead])
  }

  /** `isValidForAnalysis`: an existing, non-empty file, that is one whose
      one-byte header can be read and holds a byte. */
  predicate IsValidForAnalysis(files: map<Path, Bytes>, file: Option<Path>)
    ensures IsValidForAnalysis(files, file) <==>
      ReadFileHeader(files, file, 1).Success? && |ReadFileHeader(files, file, 1).value| == 1
  {
    file.Some? && file.value in files && |files[file.value]| > 0
  }

  /** The k-th name `copyFileWithNewExtension` tries: `base.ext` first, then
      `base_k.ext` for k = 1, 2, ... */
  function CandidateName(baseName: string, extension: string, k: nat): string
  {
    if k == 0 then baseName + "." + extension
    else baseName + "_" + NatToDecimal(k) + "." + extension
  }

  /** Different attempts give different names, so the search never revisits a
      name. */
  lemma {:induction false} CandidateInjective(baseName: string, extension: string, j: nat, k: nat)
    ensures CandidateName(baseName, extension, j) == CandidateName(baseName, extension, k) ==> j == k
  {
    if j != k {
      if j == 0 || k == 0 {
        assert |CandidateName(baseName, extension, j)| != |CandidateName(baseName, extension, k)|;
      } else {
        DecimalRoundTrip(j);
        DecimalRoundTrip(k);
        DistinctCounters(baseName, extension, NatToDecimal(j), NatToDecimal(k));
      }
    }
  }

  /** Numbered names with different counter texts differ. */
  lemma DistinctCounters(baseName: string, extension: string, dj: string, dk: string)
    requires dj != dk
    ensures baseName + "_" + dj + "." + extension != baseName + "_" + dk + "." + extension
  {
    var a, b := baseName + "_" + dj + "." + extension, baseName + "_" + dk + "." + extension;
    if |dj| == |dk| {
      var n := |baseName| + 1;
      assert a[n..n + |dj|] == dj;
      assert b[n..n + |dk|] == dk;
    } else {
      assert |a| != |b|;
    }
  }

  /** Attempt k is the first free one: its name is not taken and every
      earlier one is. */
  predicate IsFirstFree(files: map<Path, Bytes>, dir: string, baseName: string, extension: string, k: nat)
  {
    && Path(dir, CandidateName(baseName, extension, k)) !in files
    && forall j :: 0 <= j < k ==> Path(dir, CandidateName(baseName, extension, j)) in files
  }

  /** There is at most one first free attempt. */
  lemma FirstFreeUnique(files: map<Path, Bytes>, dir: string, baseName: string, extension: string, j: nat, k: nat)
    requires IsFirstFree(files, dir, baseName, extension, j)
    requires IsFirstFree(files, dir, baseName, extension, k)
    ensures j == k
  {
  }

  /** The attempts made before attempt `count`. */
  function Tried(dir: string, baseName: string, extension: string, count: nat): set<Path>
  {
    set j | 0 <= j < count :: Path(dir, CandidateName(baseName, extension, j))
  }

  /** `copyFileWithNewExtension`: a null or missing source is an IOException
      and nothing is copied; otherwise the source's bytes go to the first
      free name in the source's directory, and that path is returned. */
  method CopyFileWithNewExtension(fs: FileSystem, sourceFile: Option<Path>, newExtension: string)
    returns (r: Result<Path>)
    modifies fs
    ensures sourceFile.None? || sourceFile.value !in old(fs.files) ==>
      r == Failure(IO) && fs.files == old(fs.files)
    ensures sourceFile.Some? && sourceFile.value in old(fs.files) ==>
      var source := sourceFile.value;
      var baseName := GetFileNameWithoutExtension(Some(source.name)).value;
      && r.Success?
      && r.value !in old(fs.files)
      && (exists k: nat :: IsFirstFree(old(fs.files), source.dir, baseName, newExtension, k) &&
                           r.value == Path(source.dir, CandidateName(baseName, newExtension, k)))
      && fs.files == old(fs.files)[r.value := old(fs.files)[source]]
  {
    if sourceFile.None? || sourceFile.value !in fs.files {
      return Failure(IO);
    }
    var source := sourceFile.value;
    var baseName := GetFileNameWithoutExtension(Some(source.name)).value;
    var newFileName := baseName + "." + newExtension;
    var targetFile := Path(source.dir, newFileName);
    var counter := 1;
    ghost var tried: set<Path> := {};
    while targetFile in fs.files
      invariant counter >= 1
      invariant targetFile == Path(source.dir, CandidateName(baseName, newExtension, counter - 1))
      invariant forall j :: 0 <= j < counter - 1 ==> Path(source.dir, CandidateName(baseName, newExtension, j)) in fs.files
      invariant tried == Tried(source.dir, baseName, newExtension, counter - 1)
      decreases fs.files.Keys - tried
    {
      assert targetFile !in tried by {
        forall j | 0 <= j < counter - 1
          ensures Path(source.dir, CandidateName(baseName, newExtension, j)) != targetFile
        {
          CandidateInjective(baseName, newExtension, j, counter - 1);
        }
      }
      tried := tried + {targetFile};
      assert tried == Tried(source.dir, baseName, newExtension, counter);
      var numberedFileName := baseName + "_" + NatToDecimal(counter) + "." + newExtension;
      targetFile := Path(source.dir, numberedFileName);
      counter := counter + 1;
    }
    assert IsFirstFree(fs.files, source.dir, baseName, newExtension, counter - 1);
    fs.Copy(source, targetFile);
    return Success(targetFile);
  }
}
