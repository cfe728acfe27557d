/** The part of the filesystem the upload store and the prober look at. Paths are
    relative to the server's working directory; normalisation (`os.path.abspath`)
    is left abstract and passed in where it is needed. */
module FileStore {
  /** `entries` is every path that exists (files and directories); `files` are the
      regular files among them. */
  datatype FileSystem = FileSystem(entries: set<string>, files: set<string>)

  predicate Valid(fs: FileSystem) {
    fs.files <= fs.entries
  }

  /** `UPLOAD_DIR`. */
  const UploadDir := "uploads"

  /** `os.path.join(UPLOAD_DIR, name)`: an absolute `name` replaces the directory,
      anything else is appended after one `/`. */
  function JoinUploadDir(name: string): (path: string)
    ensures (|name| == 0 || name[0] != '/') ==> path == UploadDir + "/" + name
    ensures (|name| > 0 && name[0] == '/') ==> path == name
  {
    if |name| > 0 && name[0] == '/' then name else UploadDir + "/" + name
  }

  /** `os.path.exists(path)`. */
  predicate Exists(fs: FileSystem, path: string) {
    path in fs.entries
  }

  /** `os.path.isfile(path)`. */
  predicate IsFile(fs: FileSystem, path: string) {
    path in fs.files
  }

  /** Writing a regular file at `path`. */
  function WriteFile(fs: FileSystem, path: string): (fs': FileSystem)
    requires Valid(fs)
    ensures Valid(fs')
    ensures Exists(fs', path) && IsFile(fs', path)
    ensures forall q :: q != path ==> (Exists(fs', q) <==> Exists(fs, q)) && (IsFile(fs', q) <==> IsFile(fs, q))
  {
    FileSystem(fs.entries + {path}, fs.files + {path})
  }

  /** `os.remove(path)` of a regular file. */
  function RemoveFile(fs: FileSystem, path: string): (fs': FileSystem)
    requires Valid(fs)
    ensures Valid(fs')
    ensures !Exists(fs', path) && !IsFile(fs', path)
    ensures forall q :: q != path ==> (Exists(fs', q) <==> Exists(fs, q)) && (IsFile(fs', q) <==> IsFile(fs, q))
  {
    FileSystem(fs.entries - {path}, fs.files - {path})
  }
}
