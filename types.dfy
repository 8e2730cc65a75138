/**
 The vocabulary shared by the duplicate finder: paths, digests, the
 digest-to-paths index it builds, and the three primitives it is
 parameterised by (the content hash, the directory walk and path joining).
 */
module Types {

  datatype Option<+T> = None | Some(value: T)

  type Path = string
  type FileName = string

  /** The hexadecimal MD5 digest of a file's content. */
  type Digest = string

  /**
   The content hash of a path: `Some(d)` when the file can be read to its end,
   `None` when opening or reading it raises. It is a mathematical function, so
   asking twice for the same path gives the same answer, which is all the
   unbounded per-path cache in front of the real hash adds.
   */
  type Hasher = Path -> Option<Digest>

  /** Joining a directory path and a file name into one path. */
  type Joiner = (Path, FileName) -> Path

  /** One tuple of a directory walk: a directory, its sub-directory names and its file names. */
  datatype WalkEntry = WalkEntry(dirPath: Path, dirNames: seq<FileName>, fileNames: seq<FileName>)

  /** The walk of one root: every directory under it, each as one entry, in the walk's order. */
  type Walker = Path -> seq<WalkEntry>

  /** The grouping: each digest seen, mapped to the set of paths having it. */
  type Index = map<Digest, set<Path>>

  /** The grouping pass either returns an index or stops at the first path whose hashing raised. */
  datatype Outcome = Ok(index: Index) | Unreadable(path: Path)
}
