/**
 The order in which the grouping pass meets files: root by root, each root's
 walk entry by entry, each entry's file names in order, every file name joined
 to the path of the directory that lists it.
 */
module Traversal {
  import opened Types

  /** The joined paths of the files listed by one walk entry, in order. */
  function DirFiles(e: WalkEntry, join: Joiner): seq<Path>
  {
    seq(|e.fileNames|, k requires 0 <= k < |e.fileNames| => join(e.dirPath, e.fileNames[k]))
  }

  /** The joined paths of every file listed by a sequence of walk entries, entry by entry. */
  function EntriesFiles(es: seq<WalkEntry>, join: Joiner): seq<Path>
  {
    if es == [] then [] else DirFiles(es[0], join) + EntriesFiles(es[1..], join)
  }

  /** Every path the pass visits, in visiting order, for the given roots. */
  function Visited(roots: seq<Path>, walk: Walker, join: Joiner): seq<Path>
  {
    if roots == [] then [] else EntriesFiles(walk(roots[0]), join) + Visited(roots[1..], walk, join)
  }

  /** The paths visited from the `i`-th root on: that root's walk, then the rest. */
  lemma VisitedFrom(roots: seq<Path>, i: nat, walk: Walker, join: Joiner)
    requires i < |roots|
    ensures Visited(roots[i..], walk, join) == EntriesFiles(walk(roots[i]), join) + Visited(roots[i + 1..], walk, join)
  {
    assert roots[i..][1..] == roots[i + 1..];
  }

  /** The paths met from the `j`-th entry on, then `later`: that entry's files, then the rest. */
  lemma EntriesFilesFrom(es: seq<WalkEntry>, j: nat, join: Joiner, later: seq<Path>)
    requires j < |es|
    ensures EntriesFiles(es[j..], join) + later == DirFiles(es[j], join) + (EntriesFiles(es[j + 1..], join) + later)
  {
    assert es[j..][1..] == es[j + 1..];
  }

  /** Nothing is left of a walk once all its entries are consumed. */
  lemma EntriesFilesDone(es: seq<WalkEntry>, join: Joiner, later: seq<Path>)
    ensures EntriesFiles(es[|es|..], join) + later == later
  {
    assert es[|es|..] == [];
  }

  /** Nothing is left of a directory's files once all are consumed. */
  lemma DirFilesDone(d: seq<Path>, after: seq<Path>)
    ensures d[|d|..] + after == after
  {
    assert d[|d|..] == [];
  }

  /** A path is met in a sequence of entries exactly when some entry lists a file that joins to it. */
  lemma {:induction false} EntriesFilesMember(es: seq<WalkEntry>, join: Joiner, p: Path)
    ensures p in EntriesFiles(es, join) <==>
      exists j, k :: 0 <= j < |es| && 0 <= k < |es[j].fileNames| && p == join(es[j].dirPath, es[j].fileNames[k])
  {
    if es != [] {
      EntriesFilesMember(es[1..], join, p);
      var d := DirFiles(es[0], join);
      if p in d {
        var k :| 0 <= k < |d| && d[k] == p;
        assert 0 <= k < |es[0].fileNames| && p == join(es[0].dirPath, es[0].fileNames[k]);
      } else if p in EntriesFiles(es[1..], join) {
        var j, k :| 0 <= j < |es[1..]| && 0 <= k < |es[1..][j].fileNames| && p == join(es[1..][j].dirPath, es[1..][j].fileNames[k]);
        assert es[1..][j] == es[j + 1];
      }
      if exists j, k :: 0 <= j < |es| && 0 <= k < |es[j].fileNames| && p == join(es[j].dirPath, es[j].fileNames[k]) {
        var j, k :| 0 <= j < |es| && 0 <= k < |es[j].fileNames| && p == join(es[j].dirPath, es[j].fileNames[k]);
        if j == 0 {
          assert d[k] == p;
        } else {
          assert es[1..][j - 1] == es[j];
        }
      }
    }
  }

  /** A path is visited exactly when the walk of one of the roots lists it. */
  lemma {:induction false} VisitedMember(roots: seq<Path>, walk: Walker, join: Joiner, p: Path)
    ensures p in Visited(roots, walk, join) <==> exists r :: r in roots && p in EntriesFiles(walk(r), join)
  {
    if roots != [] {
      VisitedMember(roots[1..], walk, join, p);
      if exists r :: r in roots && p in EntriesFiles(walk(r), join) {
        var r :| r in roots && p in EntriesFiles(walk(r), join);
        if r != roots[0] {
          assert r in roots[1..];
        }
      }
    }
  }

  /** Visiting the concatenation of two root lists visits the first, then the second. */
  lemma {:induction false} VisitedAppend(a: seq<Path>, b: seq<Path>, walk: Walker, join: Joiner)
    ensures Visited(a + b, walk, join) == Visited(a, walk, join) + Visited(b, walk, join)
  {
    if a == [] {
      assert a + b == b;
    } else {
      assert (a + b)[1..] == a[1..] + b;
      VisitedAppend(a[1..], b, walk, join);
    }
  }

  /** The paths visited depend only on which roots are given, not on their order or repetition. */
  lemma VisitedSameRoots(a: seq<Path>, b: seq<Path>, walk: Walker, join: Joiner, p: Path)
    requires forall r :: r in a <==> r in b
    ensures p in Visited(a, walk, join) <==> p in Visited(b, walk, join)
  {
    VisitedMember(a, walk, join, p);
    VisitedMember(b, walk, join, p);
  }
}
