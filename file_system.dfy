/** The part of the file system the analyzer touches: regular files, named by
    a directory and a file name, with their contents. */
module FileSystems {
  import opened Common

  /** A file path: the parent directory and the file's own name. */
  datatype Path = Path(dir: string, name: string)

  /** The files that exist, with their bytes; a path that is not a key does
      not exist. */
  class FileSystem {
    var files: map<Path, Bytes>

    constructor (files: map<Path, Bytes>)
      ensures this.files == files
    {
      this.files := files;
    }

    /** `Files.copy(source, target, REPLACE_EXISTING)`: the target holds the
        source's bytes afterwards, whether or not it existed; nothing else
        changes. */
    method Copy(source: Path, target: Path)
      requires source in files
      modifies this
      ensures files == old(files)[target := old(files)[source]]
      ensures target in files && files[target] == old(files)[source]
      ensures forall p :: p in old(files) && p != target ==> p in files && files[p] == old(files)[p]
    {
      files := files[target := files[source]];
    }
  }
}
