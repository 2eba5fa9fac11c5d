/** FileRestoreService: copies a file under the extension of its detected
    type, and makes backup copies. */
module FileRestore {
  import opened Common
  import opened Text
  import opened FileSystems
  import opened FileTypes
  import FileUtils

  /** The extension with one leading dot removed, if it has one. */
  function StripLeadingDot(extension: string): (r: string)
    ensures extension == r || extension == "." + r
    ensures extension == "." + r <==> |extension| > 0 && extension[0] == '.'
  {
    if |extension| > 0 && extension[0] == '.' then extension[1..] else extension
  }

  /** Only one dot goes: "..png" keeps a dot. */
  lemma StripOnlyOneDot()
    ensures StripLeadingDot("..png") == ".png"
    ensures StripLeadingDot(".png") == "png"
    ensures StripLeadingDot("png") == "png"
  {
  }

  /** The new file name: the name up to its last dot (kept whole when the
      dot is missing or first), a dot, and the stripped extension. */
  function RestoredName(fileName: string, extension: string): (r: string)
    ensures |r| > |StripLeadingDot(extension)|
    ensures r[|r| - |StripLeadingDot(extension)| - 1..] == "." + StripLeadingDot(extension)
  {
    var ext := StripLeadingDot(extension);
    var lastDotIndex := LastIndexOf(fileName, '.');
    if lastDotIndex > 0 then fileName[..lastDotIndex] + "." + ext else fileName + "." + ext
  }

  /** The part before the new extension is always what
      `getFileNameWithoutExtension` leaves of the name. */
  lemma RestoredNameAgrees(fileName: string, extension: string)
    ensures RestoredName(fileName, extension) ==
      FileUtils.GetFileNameWithoutExtension(Some(fileName)).value + "." + StripLeadingDot(extension)
  {
  }

  /** photo.jpg becomes photo.png, whether the type says "png" or ".png". */
  lemma RestorePhoto()
    ensures RestoredName("photo.jpg", "png") == "photo.png"
    ensures RestoredName("photo.jpg", ".png") == "photo.png"
  {
    var n := "photo.jpg";
    assert n[6..] == "jpg";
    LastIndexOfAt(n, 5);
    assert n[..5] == "photo";
    assert StripLeadingDot(".png") == "png";
  }

  /** A name without a dot gets the extension appended. */
  lemma RestoreReadme()
    ensures RestoredName("README", "png") == "README.png"
  {
    assert '.' !in "README";
  }

  /** A hidden file keeps its whole name: .hidden becomes .hidden.png. */
  lemma RestoreHidden()
    ensures RestoredName(".hidden", "png") == ".hidden.png"
  {
    var n := ".hidden";
    assert n[1..] == "hidden";
    LastIndexOfAt(n, 0);
  }

  /** The restored file carries the requested extension: reading it back
      with `getFileExtension` gives the stripped extension, as long as that
      is a non-empty text without dots. */
  lemma RestoredNameHasExtension(fileName: string, extension: string)
    requires StripLeadingDot(extension) != "" && '.' !in StripLeadingDot(extension)
    ensures FileUtils.GetFileExtension(Some(RestoredName(fileName, extension))) == StripLeadingDot(extension)
  {
    var ext := StripLeadingDot(extension);
    var base := FileUtils.GetFileNameWithoutExtension(Some(fileName)).value;
    RestoredNameAgrees(fileName, extension);
    var r := RestoredName(fileName, extension);
    assert r[|base|] == '.';
    assert r[|base| + 1..] == ext;
    LastIndexOfAt(r, |base|);
  }

  /** Restoring twice with the same extension gives the name of the first
      restore: the second call only replaces the extension by itself. */
  lemma RestoreIdempotent(fileName: string, extension: string)
    requires StripLeadingDot(extension) != "" && '.' !in StripLeadingDot(extension)
    requires FileUtils.GetFileNameWithoutExtension(Some(fileName)).value != ""
    ensures RestoredName(RestoredName(fileName, extension), extension) == RestoredName(fileName, extension)
  {
    var ext := StripLeadingDot(extension);
    var base := FileUtils.GetFileNameWithoutExtension(Some(fileName)).value;
    RestoredNameAgrees(fileName, extension);
    var r := RestoredName(fileName, extension);
    assert r[|base|] == '.';
    assert r[|base| + 1..] == ext;
    LastIndexOfAt(r, |base|);
    assert r[..|base|] == base;
  }

  /** The name `createBackup` gives the copy. */
  function BackupName(fileName: string): string {
    fileName + ".backup"
  }

  /** The backup's extension is "backup", and taking it off gives the
      original name back (for a non-empty name). */
  lemma BackupNameRoundTrip(fileName: string)
    ensures |fileName| > 0 ==> FileUtils.GetFileNameWithoutExtension(Some(BackupName(fileName))) == Some(fileName)
    ensures FileUtils.GetFileExtension(Some(BackupName(fileName))) == "backup"
  {
    var r := BackupName(fileName);
    assert r[|fileName|] == '.';
    assert r[|fileName| + 1..] == "backup";
    LastIndexOfAt(r, |fileName|);
    assert r[..|fileName|] == fileName;
  }

  /** `restoreFileExtension`: a null or missing file, then a null type or a
      null extension, are IllegalArgumentExceptions and nothing is copied;
      otherwise the file's bytes are copied, replacing any file there, to the
      restored name in the same directory, and that path is returned. An
      empty extension is accepted. */
  method RestoreFileExtension(fs: FileSystem, originalFile: Option<Path>, fileType: Option<Descriptor>)
    returns (r: Result<Path>)
    modifies fs
    ensures originalFile.None? || originalFile.value !in old(fs.files) ==>
      r == Failure(IllegalArgument) && fs.files == old(fs.files)
    ensures originalFile.Some? && originalFile.value in old(fs.files) &&
            (fileType.None? || fileType.value.extension.None?) ==>
      r == Failure(IllegalArgument) && fs.files == old(fs.files)
    ensures originalFile.Some? && originalFile.value in old(fs.files) &&
            fileType.Some? && fileType.value.extension.Some? ==>
      var original := originalFile.value;
      && r == Success(Path(original.dir, RestoredName(original.name, fileType.value.extension.value)))
      && fs.files == old(fs.files)[r.value := old(fs.files)[original]]
  {
    if originalFile.None? || originalFile.value !in fs.files {
      return Failure(IllegalArgument);
    }
    if fileType.None? || fileType.value.extension.None? {
      return Failure(IllegalArgument);
    }
    var extension := fileType.value.extension.value;
    if |extension| > 0 && extension[0] == '.' {
      extension := extension[1..];
    }
    var original := originalFile.value;
    var fileName := original.name;
    var newFileName;
    var lastDotIndex := LastIndexOf(fileName, '.');
    if lastDotIndex > 0 {
      newFileName := fileName[..lastDotIndex] + "." + extension;
    } else {
      newFileName := fileName + "." + extension;
    }
    var newPath := Path(original.dir, newFileName);
    fs.Copy(original, newPath);
    return Success(newPath);
  }

  /** `createBackup`: a null or missing file is an IllegalArgumentException;
      otherwise an exact copy goes to `name.backup` in the same directory,
      replacing an earlier backup. */
  method CreateBackup(fs: FileSystem, file: Option<Path>) returns (r: Result<Path>)
    modifies fs
    ensures file.None? || file.value !in old(fs.files) ==>
      r == Failure(IllegalArgument) && fs.files == old(fs.files)
    ensures file.Some? && file.value in old(fs.files) ==>
      && r == Success(Path(file.value.dir, BackupName(file.value.name)))
      && fs.files == old(fs.files)[r.value := old(fs.files)[file.value]]
  {
    if file.None? || file.value !in fs.files {
      return Failure(IllegalArgument);
    }
    var backupName := file.value.name + ".backup";
    var backupPath := Path(file.value.dir, backupName);
    fs.Copy(file.value, backupPath);
    return Success(backupPath);
  }
}
