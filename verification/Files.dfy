/** The file system as a map that only the code under study changes. Outputs are
    prepared in a temporary file and then renamed into place, so a path either
    keeps its old content or gets all of the new one. */
module Files {
  import opened Bytes
  import opened Io

  /** A path as its list of component names; the empty list is the root. */
  type Path = seq<bytes>

  function Parent(path: Path): Path
    requires path != []
  {
    path[..|path| - 1]
  }

  class FileSystem {
    const faulty: bool
    var files: map<Path, bytes>
    var dirs: set<Path>

    constructor (faulty: bool, files: map<Path, bytes>, dirs: set<Path>)
      ensures this.faulty == faulty && this.files == files && this.dirs == dirs
    {
      this.faulty, this.files, this.dirs := faulty, files, dirs;
    }

    predicate Exists(path: Path)
      reads this
    {
      path in files || path in dirs
    }

    /** No path is both a file and a directory. */
    predicate Tidy()
      reads this
    {
      files.Keys !! dirs
    }

    /** Writing the file `path` may fail: the device may, the path is a directory,
        or there is no directory to put it in. */
    predicate CanFail(path: Path)
      reads this
    {
      faulty || path in dirs || path == [] || Parent(path) !in dirs
    }

    /** Read a whole file; a missing one is an error. */
    method ReadFile(path: Path) returns (r: Result<bytes, IoError>)
      ensures r.Ok? ==> path in files && r.value == files[path]
      ensures r.Err? ==> faulty || path !in files
    {
      if path !in files { return Err(DeviceFailure); }
      if faulty {
        var fails: bool := *;
        if fails { return Err(DeviceFailure); }
      }
      r := Ok(files[path]);
    }

    /** Put a finished temporary file in place of `path`, replacing what is there. */
    method Persist(path: Path, content: bytes) returns (r: Result<(), IoError>)
      modifies this`files
      ensures r.Ok? ==> files == old(files)[path := content] && path !in dirs
      ensures r.Err? ==> CanFail(path) && files == old(files)
    {
      if path in dirs || path == [] || Parent(path) !in dirs { return Err(DeviceFailure); }
      if faulty {
        var fails: bool := *;
        if fails { return Err(DeviceFailure); }
      }
      files := files[path := content];
      r := Ok(());
    }

    /** Delete a temporary file. */
    method Remove(path: Path)
      modifies this`files
      ensures files == old(files) - {path}
    {
      files := files - {path};
    }

    /** Create one directory; its parent must be there and its name free. */
    method CreateDir(path: Path) returns (r: Result<(), IoError>)
      modifies this`dirs
      ensures r.Ok? ==> dirs == old(dirs) + {path} && path !in files
      ensures r.Err? ==> dirs == old(dirs) && (faulty || old(Exists(path)) || path == [] || Parent(path) !in dirs)
    {
      if Exists(path) || path == [] || Parent(path) !in dirs { return Err(DeviceFailure); }
      if faulty {
        var fails: bool := *;
        if fails { return Err(DeviceFailure); }
      }
      dirs := dirs + {path};
      r := Ok(());
    }
  }
}
