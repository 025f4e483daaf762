/** The abstract filesystem the download code observes: regular files
    with their sizes, the directories that exist, and the directories in
    which creating or moving something fails (permissions, full disk). */
module FileSystem {
  import opened PyStr

  datatype FS = FS(files: map<Str, int>, dirs: set<Str>, denied: set<Str>) {
    /** `os.path.isfile(p)` */
    predicate IsFile(p: Str) { p in files }

    /** `os.path.isdir(p)` */
    predicate IsDir(p: Str) { p in dirs }

    /** `os.path.exists(p)` */
    predicate Exists(p: Str) { p in files || p in dirs }
  }

  /** Why `os.makedirs` or `os.mkdir` failed. */
  datatype MkdirError = AlreadyExists | OtherOSError

  /** `os.makedirs(path)`: EEXIST when anything is there already; any other
      error for the empty path and for denied locations. */
  function MakeDirs(fs: FS, path: Str): (r: MkdirResult)
    ensures r.Created? ==> r.fs.dirs == fs.dirs + {path} && r.fs.files == fs.files
    ensures r.Created? <==> !fs.Exists(path) && path != "" && path !in fs.denied
    ensures r == Failed(AlreadyExists) <==> fs.Exists(path)
  {
    if fs.Exists(path) then Failed(AlreadyExists)
    else if path == "" || path in fs.denied then Failed(OtherOSError)
    else Created(fs.(dirs := fs.dirs + {path}))
  }

  datatype MkdirResult = Created(fs: FS) | Failed(error: MkdirError)
}
