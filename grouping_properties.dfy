/**
 What the grouping pass promises, stated about `Group` (the value `Df` is
 proved to return) and about the duplicates-only filter applied to it.
 */
module GroupingProperties {
  import opened Types
  import opened GroupIndex
  import opened Traversal
  import opened Accumulation
  import opened DuplicateFinder

  lemma MergeIntoEmpty(m: Index)
    ensures Merge(map[], m) == m
  {
    Extensionality(Merge(map[], m), m);
  }

  /**
   Without a reference file the pass succeeds exactly when every visited file
   can be hashed, and then returns the digest grouping of the visited files.
   */
  lemma GroupWithoutReference(roots: seq<Path>, like: Option<Path>, walk: Walker, join: Joiner, hash: Hasher)
    requires !Given(like)
    ensures Group(roots, like, walk, join, hash).Ok? <==> AllReadable(Visited(roots, walk, join), hash)
    ensures AllReadable(Visited(roots, walk, join), hash) ==>
      Group(roots, like, walk, join, hash) == Ok(ByDigest(Elems(Visited(roots, walk, join)), hash))
  {
    var visited := Visited(roots, walk, join);
    AccumulateFails(map[], visited, hash);
    if AllReadable(visited, hash) {
      AccumulateIsMerge(map[], visited, hash);
      MergeIntoEmpty(ByDigest(Elems(visited), hash));
    }
  }

  /**
   With a reference file whose digest is `h`, the pass succeeds exactly when
   every visited file can be hashed, and then returns the single entry `h`
   holding the reference file and every visited file of digest `h`.
   */
  lemma GroupWithReference(roots: seq<Path>, like: Option<Path>, walk: Walker, join: Joiner, hash: Hasher, h: Digest)
    requires Given(like) && hash(like.value) == Some(h)
    ensures Group(roots, like, walk, join, hash).Ok? <==> AllReadable(Visited(roots, walk, join), hash)
    ensures AllReadable(Visited(roots, walk, join), hash) ==>
      Group(roots, like, walk, join, hash) == Ok(map[h := {like.value} + Members(Elems(Visited(roots, walk, join)), hash, h)])
  {
    var visited := Visited(roots, walk, join);
    var seed := Add(map[], h, like.value);
    assert Group(roots, like, walk, join, hash) ==
      match Accumulate(seed, visited, hash)
      case Unreadable(p) => Unreadable(p)
      case Ok(m) => Ok(map[h := Get(m, h)]);
    AccumulateFails(seed, visited, hash);
    if AllReadable(visited, hash) {
      AccumulateReadable(seed, visited, hash);
      var m := Accumulate(seed, visited, hash).index;
      assert Get(m, h) == {like.value} + Members(Elems(visited), hash, h);
    }
  }

  /** A reference file that cannot be hashed ends the pass before any walk. */
  lemma GroupReferenceUnreadable(roots: seq<Path>, like: Option<Path>, walk: Walker, join: Joiner, hash: Hasher)
    requires Given(like) && hash(like.value).None?
    ensures Group(roots, like, walk, join, hash) == Unreadable(like.value)
  {
  }

  /** Otherwise the first visited file that cannot be hashed ends the pass. */
  lemma GroupFirstUnreadable(roots: seq<Path>, like: Option<Path>, walk: Walker, join: Joiner, hash: Hasher, i: int)
    requires Given(like) ==> hash(like.value).Some?
    requires FirstUnreadable(Visited(roots, walk, join), hash, i)
    ensures Group(roots, like, walk, join, hash) == Unreadable(Visited(roots, walk, join)[i])
  {
    var visited := Visited(roots, walk, join);
    if Given(like) {
      AccumulateFirstUnreadable(Add(map[], hash(like.value).value, like.value), visited, hash, i);
    } else {
      AccumulateFirstUnreadable(map[], visited, hash, i);
    }
  }

  /**
   Every path of a returned group has that group's digest, so no path is in two
   groups; this holds with and without a reference file.
   */
  lemma GroupSound(roots: seq<Path>, like: Option<Path>, walk: Walker, join: Joiner, hash: Hasher)
    requires Group(roots, like, walk, join, hash).Ok?
    ensures WellFormed(Group(roots, like, walk, join, hash).index, hash)
    ensures var r := Group(roots, like, walk, join, hash).index;
      forall k1, k2 :: k1 in r && k2 in r && k1 != k2 ==> r[k1] !! r[k2]
  {
    var visited := Visited(roots, walk, join);
    var r := Group(roots, like, walk, join, hash).index;
    if Given(like) {
      var h := hash(like.value).value;
      GroupWithReference(roots, like, walk, join, hash, h);
      assert WellFormed(r, hash) by {
        forall k, p | k in r && p in r[k]
          ensures hash(p) == Some(k)
        {
          assert k == h;
        }
      }
    } else {
      GroupWithoutReference(roots, like, walk, join, hash);
    }
    forall k1, k2 | k1 in r && k2 in r && k1 != k2
      ensures r[k1] !! r[k2]
    {
      WellFormedDisjoint(r, hash, k1, k2);
    }
  }

  /**
   Without a reference file: every visited file is in the group of its digest,
   the keys are exactly the digests of the visited files, and an empty walk gives
   an empty index.
   */
  lemma GroupComplete(roots: seq<Path>, like: Option<Path>, walk: Walker, join: Joiner, hash: Hasher)
    requires !Given(like)
    requires Group(roots, like, walk, join, hash).Ok?
    ensures var r := Group(roots, like, walk, join, hash).index;
      forall p :: p in Visited(roots, walk, join) ==> hash(p).Some? && hash(p).value in r && p in r[hash(p).value]
    ensures var r := Group(roots, like, walk, join, hash).index;
      forall d :: d in r <==> exists p :: p in Visited(roots, walk, join) && hash(p) == Some(d)
    ensures Visited(roots, walk, join) == [] ==> Group(roots, like, walk, join, hash) == Ok(map[])
  {
    var visited := Visited(roots, walk, join);
    GroupWithoutReference(roots, like, walk, join, hash);
    var r := Group(roots, like, walk, join, hash).index;
    forall p | p in visited
      ensures hash(p).Some? && hash(p).value in r && p in r[hash(p).value]
    {
      var i :| 0 <= i < |visited| && visited[i] == p;
      assert p in Members(Elems(visited), hash, hash(p).value);
      assert Get(r, hash(p).value) == Members(Elems(visited), hash, hash(p).value);
    }
    forall d
      ensures d in r <==> exists p :: p in visited && hash(p) == Some(d)
    {
      if d in r {
        var p :| p in Elems(visited) && hash(p).Some? && hash(p).value == d;
      }
      if exists p :: p in visited && hash(p) == Some(d) {
        var p :| p in visited && hash(p) == Some(d);
        assert hash(p).value in Digests(Elems(visited), hash);
      }
    }
    if visited == [] {
      Extensionality(r, map[]);
    }
  }

  /** With a reference file the result has the reference digest as its only key, and the reference file in its group. */
  lemma GroupReferenceKey(roots: seq<Path>, like: Option<Path>, walk: Walker, join: Joiner, hash: Hasher)
    requires Given(like)
    requires Group(roots, like, walk, join, hash).Ok?
    ensures hash(like.value).Some?
    ensures Group(roots, like, walk, join, hash).index.Keys == {hash(like.value).value}
    ensures like.value in Group(roots, like, walk, join, hash).index[hash(like.value).value]
  {
    GroupWithReference(roots, like, walk, join, hash, hash(like.value).value);
  }

  /**
   The reference mode is the plain pass narrowed: the reference group is the
   reference file together with the plain pass's group of the same digest.
   */
  lemma GroupNarrowing(roots: seq<Path>, like: Option<Path>, walk: Walker, join: Joiner, hash: Hasher)
    requires Given(like)
    requires Group(roots, like, walk, join, hash).Ok?
    ensures hash(like.value).Some?
    ensures Group(roots, None, walk, join, hash).Ok?
    ensures var h := hash(like.value).value;
      Group(roots, like, walk, join, hash).index == map[h := {like.value} + Get(Group(roots, None, walk, join, hash).index, h)]
  {
    var h := hash(like.value).value;
    GroupWithReference(roots, like, walk, join, hash, h);
    GroupWithoutReference(roots, None, walk, join, hash);
  }

  lemma AllReadableAppend(a: seq<Path>, b: seq<Path>, hash: Hasher)
    ensures AllReadable(a + b, hash) <==> AllReadable(a, hash) && AllReadable(b, hash)
  {
    if AllReadable(a, hash) && AllReadable(b, hash) {
      forall i | 0 <= i < |a + b|
        ensures hash((a + b)[i]).Some?
      {
        if i >= |a| {
          assert (a + b)[i] == b[i - |a|];
        }
      }
    }
    if AllReadable(a + b, hash) {
      forall i | 0 <= i < |b|
        ensures hash(b[i]).Some?
      {
        assert (a + b)[|a| + i] == b[i];
      }
      forall i | 0 <= i < |a|
        ensures hash(a[i]).Some?
      {
        assert (a + b)[i] == a[i];
      }
    }
  }

  /**
   Scanning two lists of roots together gives, digest by digest, the union of
   the groups found by scanning each list alone.
   */
  lemma GroupUnion(a: seq<Path>, b: seq<Path>, walk: Walker, join: Joiner, hash: Hasher)
    ensures Group(a + b, None, walk, join, hash).Ok? <==>
      Group(a, None, walk, join, hash).Ok? && Group(b, None, walk, join, hash).Ok?
    ensures Group(a + b, None, walk, join, hash).Ok? ==>
      Group(a + b, None, walk, join, hash).index ==
        Merge(Group(a, None, walk, join, hash).index, Group(b, None, walk, join, hash).index)
  {
    var va, vb := Visited(a, walk, join), Visited(b, walk, join);
    VisitedAppend(a, b, walk, join);
    AllReadableAppend(va, vb, hash);
    GroupWithoutReference(a + b, None, walk, join, hash);
    GroupWithoutReference(a, None, walk, join, hash);
    GroupWithoutReference(b, None, walk, join, hash);
    if AllReadable(va + vb, hash) {
      assert Elems(va + vb) == Elems(va) + Elems(vb);
      ByDigestUnion(Elems(va), Elems(vb), hash);
    }
  }

  /** The result depends only on which roots are scanned, not on their order or repetition. */
  lemma GroupSameRoots(a: seq<Path>, b: seq<Path>, like: Option<Path>, walk: Walker, join: Joiner, hash: Hasher)
    requires forall r :: r in a <==> r in b
    ensures Group(a, like, walk, join, hash).Ok? <==> Group(b, like, walk, join, hash).Ok?
    ensures Group(a, like, walk, join, hash).Ok? ==> Group(a, like, walk, join, hash) == Group(b, like, walk, join, hash)
  {
    var va, vb := Visited(a, walk, join), Visited(b, walk, join);
    forall p
      ensures p in Elems(va) <==> p in Elems(vb)
    {
      VisitedSameRoots(a, b, walk, join, p);
    }
    assert Elems(va) == Elems(vb);
    var seed: Index := if Given(like) && hash(like.value).Some? then Add(map[], hash(like.value).value, like.value) else map[];
    AccumulateFails(seed, va, hash);
    AccumulateFails(seed, vb, hash);
    if AllReadable(va, hash) {
      AccumulateOrderFree(seed, va, vb, hash);
    }
    if AllReadable(vb, hash) {
      AccumulateOrderFree(seed, vb, va, hash);
    }
  }

  /** A set has more than one element exactly when it holds two distinct ones. */
  lemma MoreThanOne(s: set<Path>)
    ensures |s| > 1 <==> exists p, q :: p in s && q in s && p != q
  {
    if |s| > 1 {
      var p :| p in s;
      assert |s - {p}| == |s| - 1;
      var q :| q in s - {p};
    }
    if exists p, q :: p in s && q in s && p != q {
      var p, q :| p in s && q in s && p != q;
      assert {p, q} <= s;
      assert |{p, q}| == 2;
      SubsetSize({p, q}, s);
    }
  }

  lemma {:induction false} SubsetSize(a: set<Path>, b: set<Path>)
    requires a <= b
    ensures |a| <= |b|
  {
    if a != {} {
      var x :| x in a;
      SubsetSize(a - {x}, b - {x});
    }
  }

  /**
   Without a reference file the reported duplicates are exactly the digests
   shared by two different visited files, each with the whole group of that digest.
   */
  lemma DuplicatesOfGroup(roots: seq<Path>, walk: Walker, join: Joiner, hash: Hasher, d: Digest)
    requires Group(roots, None, walk, join, hash).Ok?
    ensures var dups := Duplicates(Group(roots, None, walk, join, hash).index);
      d in dups <==> exists p, q :: p in Visited(roots, walk, join) && q in Visited(roots, walk, join) && p != q && hash(p) == Some(d) && hash(q) == Some(d)
    ensures var dups := Duplicates(Group(roots, None, walk, join, hash).index);
      d in dups ==> dups[d] == Members(Elems(Visited(roots, walk, join)), hash, d)
  {
    var visited := Visited(roots, walk, join);
    GroupWithoutReference(roots, None, walk, join, hash);
    var r := Group(roots, None, walk, join, hash).index;
    var g := Members(Elems(visited), hash, d);
    assert Get(r, d) == g;
    MoreThanOne(g);
    if exists p, q :: p in visited && q in visited && p != q && hash(p) == Some(d) && hash(q) == Some(d) {
      var p, q :| p in visited && q in visited && p != q && hash(p) == Some(d) && hash(q) == Some(d);
      assert p in g && q in g;
    }
  }

  /** A single-entry index reports a duplicate exactly when its one group has two members. */
  lemma DuplicatesOfSingle(h: Digest, g: set<Path>)
    ensures Duplicates(map[h := g]) != map[] <==> |g| > 1
  {
    if |g| > 1 {
      assert h in Duplicates(map[h := g]);
    }
  }

  /** The reference file's group has two members exactly when it holds a path other than the reference. */
  lemma ReferenceGroupShared(like: Path, others: set<Path>)
    ensures |{like} + others| > 1 <==> exists p :: p in others && p != like
  {
    var g := {like} + others;
    MoreThanOne(g);
    if |g| > 1 {
      var p, q :| p in g && q in g && p != q;
      var o := if p == like then q else p;
      assert o in others && o != like;
    }
    if exists p :: p in others && p != like {
      var p :| p in others && p != like;
      assert p in g && like in g;
    }
  }

  /**
   With a reference file a duplicate group is reported exactly when some
   visited file other than the reference has the reference's digest.
   */
  lemma DuplicatesOfReference(roots: seq<Path>, like: Option<Path>, walk: Walker, join: Joiner, hash: Hasher)
    requires Given(like)
    requires Group(roots, like, walk, join, hash).Ok?
    ensures Duplicates(Group(roots, like, walk, join, hash).index) != map[] <==>
      exists p :: p in Visited(roots, walk, join) && p != like.value && hash(p) == hash(like.value)
  {
    var visited := Visited(roots, walk, join);
    var h := hash(like.value).value;
    GroupWithReference(roots, like, walk, join, hash, h);
    var others := Members(Elems(visited), hash, h);
    DuplicatesOfSingle(h, {like.value} + others);
    ReferenceGroupShared(like.value, others);
    if exists p :: p in others && p != like.value {
      var p :| p in others && p != like.value;
      assert p in visited && hash(p) == hash(like.value);
    }
    if exists p :: p in visited && p != like.value && hash(p) == hash(like.value) {
      var p :| p in visited && p != like.value && hash(p) == hash(like.value);
      assert p in others;
    }
  }
}
