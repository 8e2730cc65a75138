# df2py duplicate grouping, modelled in Dafny

`df2` finds duplicate files by content. Its grouping pass `df(paths, q, like)` walks
every root and hashes every file it finds with MD5. It builds a `defaultdict(set)`
from each digest to the set of paths that have that digest. If a reference file
`like` is given, the pass first adds that file under its own digest, and at the
end it keeps only that digest's entry. The caller then keeps only the groups with
more than one member; those are the duplicate sets it reports.

The model is parameterised by three primitives the pass takes from outside:

- `hash: Path -> Option<Digest>` stands for the memoised `md5_hash`. `None` means
  opening or reading the file raises. Because the hash is a mathematical function,
  hashing the same path twice gives the same answer, which is what the per-path
  cache provides.
- `walk: Path -> seq<WalkEntry>` stands for `os.walk`. It gives the list of
  `(dirpath, dirnames, filenames)` tuples for one root.
- `join: (Path, FileName) -> Path` stands for `os.path.join`.

Files and modules:

- `types.dfy` (`Types`): paths, digests, walk entries, the index type
  `map<Digest, set<Path>>` and `Outcome`. `Outcome` is either the index or the
  path whose hashing raised.
- `group_index.dfy` (`GroupIndex`): the index operations and the digest grouping.
  `Add` is `hash_dict[h].add(p)`. `ByDigest` groups a set of paths by digest.
  `Merge` is the pointwise union of two indexes.
- `traversal.dfy` (`Traversal`): `Visited` is the order in which the pass meets
  files: root by root, each walk entry in turn, each file name in turn, joined to
  its directory.
- `accumulation.dfy` (`Accumulation`): `Accumulate` hashes each visited path in
  turn and adds it to its group. It stops at the first path that cannot be hashed.
  Its results are characterised against `ByDigest`.
- `duplicate_finder.dfy` (`DuplicateFinder`): `Group` is the value `df` computes.
  `Df` is `df` as written: one index updated by three nested loops, and it is proved
  to return `Group`. `Duplicates` is the caller's more-than-one-member filter.
- `grouping_properties.dfy` (`GroupingProperties`): what the pass promises,
  stated about `Group` and the filter.
- `example.dfy` (`Example`): a directory `/d` with `a.txt` and `b.txt` of one
  content and `c.txt` of another, scanned without and with `c.txt` as the reference.

How the pass behaves on errors and unusual inputs:

- A file that cannot be hashed is not skipped. `md5_hash` raises, `df` does not
  catch the error, and the whole pass ends there. The model returns
  `Unreadable(path)` for the first such path, and for the reference file before
  any walk.
- A root that does not exist is not an error. `os.walk` skips it silently by
  default, so here it is a root whose walk is empty.
- `if like:` treats an empty reference path like a missing one (`Given`).

## Model

| member | source | states |
|---|---|---|
| `GroupIndex.Add` | df2.py:55 | Adding `p` under `h` creates `h` if it is missing. Every existing group keeps its members, `h`'s group gains only `p`, and no other group changes. Adding a path that is already in the group leaves the index unchanged (set semantics). |
| `GroupIndex.AddKeepsWellFormed` | df2.py:54-55 | Adding a path under its own digest keeps every stored path under its own digest. |
| `GroupIndex.WellFormedDisjoint` | df2.py:54-55 | In an index where every path sits under its own digest, two different groups share no path. |
| `GroupIndex.ByDigest` | df2.py:47-55 | The digest grouping has one key per digest of a readable path. Each group holds exactly the paths of its digest and is never empty. |
| `GroupIndex.ByDigestUnion` | df2.py:47-55 | Grouping a union of path sets gives the pointwise union of grouping each set. |
| `Traversal.EntriesFilesMember` | df2.py:48-55 | A path is met in a walk exactly when some entry lists a file name that joins with the entry's directory to that path. |
| `Traversal.VisitedMember` | df2.py:47-55 | A path is visited exactly when the walk of one of the roots produces it. |
| `Traversal.VisitedAppend` | df2.py:47-48 | Scanning two root lists in a row visits the files of the first list, then the files of the second. |
| `Traversal.VisitedSameRoots` | df2.py:47-48 | Which paths are visited depends only on which roots are given, not on their order or on repeats. |
| `Accumulation.AccumulateReadable` | df2.py:53-55 | If every path can be hashed, the pass succeeds. Its keys are the starting keys plus the digests it meets. Each group is the starting group plus exactly the paths met with that digest, so groups only grow. |
| `Accumulation.AccumulateIsMerge` | df2.py:53-55 | If every path can be hashed, the pass merges the digest grouping of the paths it meets into the starting index. |
| `Accumulation.AccumulateFirstUnreadable` | df2.py:53-55 | The first path that cannot be hashed ends the pass with that path, whatever comes after it. |
| `Accumulation.AccumulateFails` | df2.py:53-55 | The pass fails exactly when some path it meets cannot be hashed. |
| `Accumulation.AccumulateOrderFree` | df2.py:47-55 | A successful pass depends only on the set of paths met, not on their order or on repeats. |
| `DuplicateFinder.Df` | df2.py:39-58 | The nested-loop pass returns `Group`. It seeds the reference file, adds every visited file in walk order, stops at the first hashing failure, and narrows to the reference digest when a reference is given. |
| `DuplicateFinder.Duplicates` | df2.py:67 | The filter keeps exactly the keys whose group has more than one member. Their groups are unchanged and no key is added. |
| `GroupingProperties.GroupWithoutReference` | df2.py:43-58 | Without a reference, the pass succeeds exactly when every visited file can be hashed. It then returns the digest grouping of the visited files. |
| `GroupingProperties.GroupWithReference` | df2.py:44-57 | With a reference of digest `h`, the pass succeeds exactly when every visited file can be hashed. It then returns one entry, `h`, holding the reference and every visited file of digest `h`. |
| `GroupingProperties.GroupReferenceUnreadable` | df2.py:44-45 | If the reference file cannot be hashed, the pass fails with the reference path. |
| `GroupingProperties.GroupFirstUnreadable` | df2.py:47-55 | Otherwise it fails with the first visited path that cannot be hashed. |
| `GroupingProperties.GroupSound` | df2.py:43-58 | With or without a reference, every path in a returned group has that group's digest, and no path is in two groups. |
| `GroupingProperties.GroupComplete` | df2.py:47-58 | Without a reference, every visited file is in its digest's group. The keys are exactly the digests of the visited files, and an empty walk gives an empty index. |
| `GroupingProperties.GroupReferenceKey` | df2.py:56-57 | With a reference, the result has exactly one key, the reference's digest, and its group contains the reference file. |
| `GroupingProperties.GroupNarrowing` | df2.py:44-57 | The reference result is the group of the same digest from the pass without a reference, plus the reference file. |
| `GroupingProperties.GroupUnion` | df2.py:47-55 | Scanning roots `a` then `b` succeeds exactly when scanning each alone does. Its result is the pointwise union of the two results. |
| `GroupingProperties.GroupSameRoots` | df2.py:47-55 | Two root lists with the same roots, in any order and with any repeats, succeed or fail together, and when they succeed they return the same index. A failing pass may stop at a different path. |
| `GroupingProperties.DuplicatesOfGroup` | df2.py:67 | Without a reference, a digest is reported exactly when two different visited files have it. It is reported with all the visited files of that digest. |
| `GroupingProperties.DuplicatesOfReference` | df2.py:67 | With a reference, a duplicate group is reported exactly when some other visited file has the reference's digest. |
| `Example.ScanExample` | df2.py:39-67 | For `/d` with `a.txt` and `b.txt` equal and `c.txt` different, the pass gives `{hello: {a, b}, world: {c}}` and the filter keeps only `{hello: {a, b}}`. |
| `Example.ReferenceExample` | df2.py:44-57 | The same directory with `c.txt` as the reference gives only `{world: {c}}`. |

## Left out

- MD5, the block-reading loop and `open` in `md5_hash` (df2.py:30-37): the hashing library is foreign code and reading is file I/O. They are replaced by the abstract `hash`, so nothing about digest equality for equal contents is proved.
- The unbounded memoisation cache on `md5_hash` (df2.py:25): its only observable effect, the same digest for the same path, comes from `hash` being a function.
- `os.walk` (df2.py:48): filesystem traversal. It is modelled only by the entries it yields for each root. Whether those entries are complete, or free of repeats or cycles, is up to the walk. Because `walk` is a function of the root, a root listed twice yields the same entries both times; the source walks it again, so `GroupSameRoots` holds for repeated roots only if the directory tree does not change during the run.
- The progress output under the quiet flag (df2.py:50-51): an output side effect only. `Df` takes `quiet` and ignores it.
- Argument parsing, pretty-printing, the `--size` count and printing to standard output (df2.py:64-75): command-line glue.
- Writing the output file (df2.py:69-71): file I/O. Line 71 concatenates the mapping with a string, which raises a type error, so that path has no result to model.
- The interactive delete loop (df2.py:76-85): console input, file removal and swallowed exceptions, with no stable contract to model.
