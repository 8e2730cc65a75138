/**
 The duplicate finder's grouping pass `df` and the duplicates-only filter its
 caller applies. `Group` is the value the pass computes, `Df` is the pass as
 written (three nested loops updating one index), and the lemmas below say what
 that value is: the digest grouping of the visited files, narrowed to the
 reference file's group when one is given.
 */
module DuplicateFinder {
  import opened Types
  import opened GroupIndex
  import opened Traversal
  import opened Accumulation

  /** `if like:` is taken only for a reference path that is present and not the empty string. */
  predicate Given(like: Option<Path>)
  {
    like.Some? && like.value != ""
  }

  /**
   The outcome of the pass: seed the index with the reference file, add every
   visited file under its digest, then keep only the reference digest's entry.
   A hashing failure ends the pass with the path that raised.
   */
  function Group(roots: seq<Path>, like: Option<Path>, walk: Walker, join: Joiner, hash: Hasher): Outcome
  {
    var visited := Visited(roots, walk, join);
    if Given(like) then
      match hash(like.value)
      case None => Unreadable(like.value)
      case Some(h) =>
        match Accumulate(Add(map[], h, like.value), visited, hash)
        case Unreadable(p) => Unreadable(p)
        case Ok(m) => Ok(map[h := Get(m, h)])
    else
      Accumulate(map[], visited, hash)
  }

  /**
   The grouping pass as written: one index, updated in place by nested loops
   over the roots, each root's walk entries and each entry's file names. The
   `quiet` flag only silences the progress output, which is not modelled.
   */
  method Df(roots: seq<Path>, quiet: bool, like: Option<Path>, walk: Walker, join: Joiner, hash: Hasher)
    returns (r: Outcome)
    ensures r == Group(roots, like, walk, join, hash)
  {
    ghost var visited := Visited(roots, walk, join);
    var hashDict: Index := map[];
    var likeHash: Digest := "";
    if Given(like) {
      var lh := hash(like.value);
      if lh.None? {
        return Unreadable(like.value);
      }
      likeHash := lh.value;
      hashDict := Add(hashDict, likeHash, like.value);
    }
    ghost var seed := hashDict;
    for i := 0 to |roots|
      // what is left to add, added to the index so far, gives the outcome of the whole pass
      invariant Accumulate(seed, visited, hash) == Accumulate(hashDict, Visited(roots[i..], walk, join), hash)
    {
      var entries := walk(roots[i]);
      ghost var later := Visited(roots[i + 1..], walk, join);
      VisitedFrom(roots, i, walk, join);
      for j := 0 to |entries|
        invariant Accumulate(seed, visited, hash) == Accumulate(hashDict, EntriesFiles(entries[j..], join) + later, hash)
      {
        var directoryPath := entries[j].dirPath;
        var files := entries[j].fileNames;
        ghost var dir := DirFiles(entries[j], join);
        ghost var after := EntriesFiles(entries[j + 1..], join) + later;
        EntriesFilesFrom(entries, j, join, later);
        assert dir[0..] == dir;
        for k := 0 to |files|
          invariant Accumulate(seed, visited, hash) == Accumulate(hashDict, dir[k..] + after, hash)
        {
          var path := join(directoryPath, files[k]);
          AccumulateAt(hashDict, dir, k, after, hash);
          var h := hash(path);
          if h.None? {
            return Unreadable(path);
          }
          hashDict := Add(hashDict, h.value, path);
        }
        DirFilesDone(dir, after);
      }
      EntriesFilesDone(entries, join, later);
    }
    assert roots[|roots|..] == [];
    if Given(like) {
      return Ok(map[likeHash := Get(hashDict, likeHash)]);
    }
    return Ok(hashDict);
  }

  /** The caller's filter: keep exactly the groups with more than one member, unchanged. */
  function Duplicates(hd: Index): (r: Index)
    ensures forall k :: k in r <==> k in hd && |hd[k]| > 1
    ensures forall k :: k in r ==> r[k] == hd[k]
  {
    map k | k in hd && |hd[k]| > 1 :: hd[k]
  }
}
