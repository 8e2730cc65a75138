/**
 The digest-to-paths index as a map of sets: the one mutation the grouping
 pass performs on it (adding a path to its digest's group), the digest
 grouping of a set of paths by digest, and pointwise union of two indexes.
 */
module GroupIndex {
  import opened Types

  /** The group of digest `h`, reading a missing key as the empty group, as a `defaultdict(set)` does. */
  function Get(m: Index, h: Digest): set<Path>
  {
    if h in m then m[h] else {}
  }

  /** The elements of a sequence of paths. */
  function Elems(s: seq<Path>): set<Path>
  {
    set p | p in s
  }

  /**
   `m[h].add(p)` on a `defaultdict(set)`: the key `h` is created if missing, its
   group gains `p` and nothing else, every other group is unchanged, and adding
   a path that is already there changes nothing.
   */
  function Add(m: Index, h: Digest, p: Path): (r: Index)
    ensures r.Keys == m.Keys + {h}
    ensures forall k :: k in m ==> m[k] <= r[k]
    ensures p in r[h] && r[h] - Get(m, h) <= {p}
    ensures forall k :: k in m && k != h ==> r[k] == m[k]
    ensures p in Get(m, h) ==> r == m
  {
    assert p in Get(m, h) ==> Get(m, h) + {p} == m[h];
    m[h := Get(m, h) + {p}]
  }

  /** Every path stored under a digest has that digest. */
  ghost predicate WellFormed(m: Index, hash: Hasher)
  {
    forall k, p :: k in m && p in m[k] ==> hash(p) == Some(k)
  }

  /** Adding a path under its own digest keeps every group faithful to its digest. */
  lemma AddKeepsWellFormed(m: Index, hash: Hasher, h: Digest, p: Path)
    requires WellFormed(m, hash)
    requires hash(p) == Some(h)
    ensures WellFormed(Add(m, h, p), hash)
  {
    var r := Add(m, h, p);
    forall k, q | k in r && q in r[k]
      ensures hash(q) == Some(k)
    {
      if k == h && q !in Get(m, h) {
        assert q == p;
      }
    }
  }

  /** In a well-formed index no path belongs to two groups. */
  lemma WellFormedDisjoint(m: Index, hash: Hasher, k1: Digest, k2: Digest)
    requires WellFormed(m, hash)
    requires k1 in m && k2 in m && k1 != k2
    ensures m[k1] !! m[k2]
  {
    forall p | p in m[k1]
      ensures p !in m[k2]
    {
      assert hash(p) == Some(k1);
    }
  }

  /** The digests of the readable paths of `s`. */
  function Digests(s: set<Path>, hash: Hasher): set<Digest>
  {
    set p | p in s && hash(p).Some? :: hash(p).value
  }

  /** The paths of `s` whose digest is `d`. */
  function Members(s: set<Path>, hash: Hasher, d: Digest): set<Path>
  {
    set p | p in s && hash(p) == Some(d)
  }

  /**
   The digest grouping of a set of paths: one key per digest of a readable
   path, holding exactly the paths of that digest.
   */
  function ByDigest(s: set<Path>, hash: Hasher): (r: Index)
    ensures r.Keys == Digests(s, hash)
    ensures forall d :: Get(r, d) == Members(s, hash, d)
    ensures WellFormed(r, hash)
    ensures forall d :: d in r ==> r[d] != {}
  {
    var r := map d | d in Digests(s, hash) :: Members(s, hash, d);
    forall d | Members(s, hash, d) != {}
      ensures d in r
    {
      var p :| p in Members(s, hash, d);
      assert hash(p).value in Digests(s, hash);
    }
    forall d | d in r
      ensures r[d] != {}
    {
      var p :| p in s && hash(p).Some? && hash(p).value == d;
      assert p in Members(s, hash, d);
    }
    r
  }

  /** Pointwise union of two indexes: a key of either, holding the union of its two groups. */
  function Merge(a: Index, b: Index): (r: Index)
    ensures r.Keys == a.Keys + b.Keys
    ensures forall k :: Get(r, k) == Get(a, k) + Get(b, k)
  {
    map k | k in a.Keys + b.Keys :: Get(a, k) + Get(b, k)
  }

  /** Two indexes with the same keys and the same groups are equal. */
  lemma Extensionality(a: Index, b: Index)
    requires a.Keys == b.Keys
    requires forall k :: Get(a, k) == Get(b, k)
    ensures a == b
  {
    forall k | k in a
      ensures a[k] == b[k]
    {
      assert Get(a, k) == Get(b, k);
    }
  }

  /** Grouping a union of path sets is merging the groupings of the parts. */
  lemma ByDigestUnion(s: set<Path>, t: set<Path>, hash: Hasher)
    ensures ByDigest(s + t, hash) == Merge(ByDigest(s, hash), ByDigest(t, hash))
  {
    var l, r := ByDigest(s + t, hash), Merge(ByDigest(s, hash), ByDigest(t, hash));
    forall k
      ensures Get(l, k) == Get(r, k)
    {
      MembersUnion(s, t, hash, k);
    }
    DigestsUnion(s, t, hash);
    Extensionality(l, r);
  }

  lemma MembersUnion(s: set<Path>, t: set<Path>, hash: Hasher, d: Digest)
    ensures Members(s + t, hash, d) == Members(s, hash, d) + Members(t, hash, d)
  {
  }

  lemma DigestsUnion(s: set<Path>, t: set<Path>, hash: Hasher)
    ensures Digests(s + t, hash) == Digests(s, hash) + Digests(t, hash)
  {
  }
}
