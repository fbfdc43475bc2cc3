/**
 * An abstract filesystem: a map from path to entry. A file carries its bytes and
 * permission mode; a directory is a leaf carrying only its mode (the router never
 * moves directories, so their contents are not modelled).
 */
module FileSystem {
  import opened Paths

  newtype byte = x: int | 0 <= x < 256

  /** os.FileMode, a 32-bit word of type and permission bits. */
  type Mode = bv32

  datatype Node = File(data: seq<byte>, mode: Mode) | Dir(mode: Mode)

  type Fs = map<Path, Node>

  /** The POSIX error conditions the router's filesystem calls can report. */
  datatype Errno =
    | NotExist          // ENOENT
    | Exists            // EEXIST
    | PermissionDenied  // EACCES
    | IsDirectory       // EISDIR
    | NotDirectory      // ENOTDIR
    | CrossDevice       // EXDEV
    | NoSpace           // ENOSPC
    | IoError           // EIO

  /** The text of each error as Linux reports it (syscall.Errno.Error). */
  function Message(e: Errno): string {
    match e
    case NotExist => "no such file or directory"
    case Exists => "file exists"
    case PermissionDenied => "permission denied"
    case IsDirectory => "is a directory"
    case NotDirectory => "not a directory"
    case CrossDevice => "invalid cross-device link"
    case NoSpace => "no space left on device"
    case IoError => "input/output error"
  }

  /** A regular file exists at `p`. */
  predicate IsFile(fs: Fs, p: Path) {
    p in fs && fs[p].File?
  }

  /** A directory exists at `p`. */
  predicate IsDir(fs: Fs, p: Path) {
    p in fs && fs[p].Dir?
  }

  /** An entry other than the two touched ones keeps its place and content. */
  lemma Untouched(fs: Fs, fs': Fs, a: Path, b: Path, k: Path)
    requires fs' - {a, b} == fs - {a, b}
    requires k != a && k != b && k in fs
    ensures k in fs' && fs'[k] == fs[k]
  {
    assert k in fs - {a, b};
    assert (fs' - {a, b})[k] == fs'[k];
  }
}
