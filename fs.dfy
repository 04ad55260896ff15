/**
 * The local filesystem as the blob store sees it: a map from path to file
 * contents, and a fixed environment of places where `create_dir_all` or
 * `write` fail (permissions, a full disk, ...). Directory entries are not
 * tracked. A path that ends in '/', or whose last component is "." or "..",
 * names a directory and cannot be written as a file. Paths are compared as
 * byte strings: "." and ".." inside a path are not resolved.
 */
module Fs {
  import opened Common

  type Path = Bytes

  datatype IoError = NotFound | PermissionDenied | IsADirectory

  /** How `std::io::Error` displays each error on Linux. */
  function IoErrorText(e: IoError): (t: Bytes)
    ensures |t| > 0
  {
    match e
    case NotFound => Ascii("No such file or directory (os error 2)")
    case PermissionDenied => Ascii("Permission denied (os error 13)")
    case IsADirectory => Ascii("Is a directory (os error 21)")
  }

  datatype IoResult<+T> = Ok(value: T) | Err(error: IoError)

  /** Where the environment makes calls fail. */
  datatype Faults = Faults(badDirs: set<Path>, badFiles: set<Path>)

  predicate EndsWithSlash(p: Path) {
    |p| > 0 && p[|p| - 1] == SLASH[0]
  }

  const DOT: Bytes := [46]
  const DOTDOT: Bytes := [46, 46]

  predicate EndsWith(p: Path, suffix: Bytes) {
    |suffix| <= |p| && p[|p| - |suffix|..] == suffix
  }

  /** The path names a directory: it ends in '/' or its last component is "." or "..". */
  predicate NamesDirectory(p: Path) {
    || EndsWithSlash(p)
    || p == DOT || p == DOTDOT
    || EndsWith(p, SLASH + DOT) || EndsWith(p, SLASH + DOTDOT)
  }

  /** `fs::create_dir_all(dir)`. */
  function CreateDirAllOn(faults: Faults, dir: Path): IoResult<()> {
    if dir in faults.badDirs then Err(PermissionDenied) else Ok(())
  }

  datatype WriteStep = WriteStep(files: map<Path, Bytes>, result: IoResult<()>)

  /** `fs::write(path, data)`: creates or overwrites the file. */
  function WriteOn(files: map<Path, Bytes>, faults: Faults, path: Path, data: Bytes): WriteStep {
    if NamesDirectory(path) then WriteStep(files, Err(IsADirectory))
    else if path in faults.badFiles then WriteStep(files, Err(PermissionDenied))
    else WriteStep(files[path := data], Ok(()))
  }

  /** `fs::read(path)`. */
  function ReadOn(files: map<Path, Bytes>, path: Path): IoResult<Bytes> {
    if path in files then Ok(files[path]) else Err(NotFound)
  }

  class FileSystem {
    var files: map<Path, Bytes>
    const faults: Faults

    constructor (faults: Faults)
      ensures files == map[] && this.faults == faults
    {
      files := map[];
      this.faults := faults;
    }

    method CreateDirAll(dir: Path) returns (r: IoResult<()>)
      ensures r == CreateDirAllOn(faults, dir)
    {
      r := CreateDirAllOn(faults, dir);
    }

    method Write(path: Path, data: Bytes) returns (r: IoResult<()>)
      modifies this
      ensures WriteStep(files, r) == WriteOn(old(files), faults, path, data)
    {
      var step := WriteOn(files, faults, path, data);
      files, r := step.files, step.result;
    }

    function Read(path: Path): IoResult<Bytes>
      reads this
    {
      ReadOn(files, path)
    }
  }
}
