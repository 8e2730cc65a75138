/**
 The accumulation at the heart of the grouping pass: hash each visited path
 in turn and add it to the group of its digest, stopping at the first path
 whose hashing raises. Its result is characterised against the digest
 grouping `ByDigest`.
 */
module Accumulation {
  import opened Types
  import opened GroupIndex

  /** Every path of `ps` can be hashed. */
  predicate AllReadable(ps: seq<Path>, hash: Hasher)
  {
    forall i :: 0 <= i < |ps| ==> hash(ps[i]).Some?
  }

  /** Position `i` is the first of `ps` whose hashing raises. */
  predicate FirstUnreadable(ps: seq<Path>, hash: Hasher, i: int)
  {
    0 <= i < |ps| && hash(ps[i]).None? && forall j :: 0 <= j < i ==> hash(ps[j]).Some?
  }

  /** Starting from `m`, hash each path of `ps` in order and add it under its digest. */
  function Accumulate(m: Index, ps: seq<Path>, hash: Hasher): Outcome
    decreases |ps|
  {
    if ps == [] then Ok(m)
    else match hash(ps[0])
      case None => Unreadable(ps[0])
      case Some(h) => Accumulate(Add(m, h, ps[0]), ps[1..], hash)
  }

  /** Accumulating `s[k..]` followed by `rest` is one step on `s[k]`, then `s[k + 1..]` followed by `rest`. */
  lemma AccumulateAt(m: Index, s: seq<Path>, k: nat, rest: seq<Path>, hash: Hasher)
    requires k < |s|
    ensures Accumulate(m, s[k..] + rest, hash) ==
      match hash(s[k])
      case None => Unreadable(s[k])
      case Some(h) => Accumulate(Add(m, h, s[k]), s[k + 1..] + rest, hash)
  {
    assert (s[k..] + rest)[0] == s[k];
    assert (s[k..] + rest)[1..] == s[k + 1..] + rest;
  }

  /**
   When every path can be hashed the pass succeeds, its keys are the starting
   keys plus the digests met, and each group is the starting group plus exactly
   the paths met that have its digest.
   */
  lemma {:induction false} AccumulateReadable(m: Index, ps: seq<Path>, hash: Hasher)
    requires AllReadable(ps, hash)
    ensures Accumulate(m, ps, hash).Ok?
    ensures Accumulate(m, ps, hash).index.Keys == m.Keys + Digests(Elems(ps), hash)
    ensures forall k :: Get(Accumulate(m, ps, hash).index, k) == Get(m, k) + Members(Elems(ps), hash, k)
    decreases |ps|
  {
    if ps == [] {
      assert Elems(ps) == {};
    } else {
      var p := ps[0];
      var h := hash(p).value;
      var m' := Add(m, h, p);
      assert AllReadable(ps[1..], hash) by {
        forall i | 0 <= i < |ps[1..]|
          ensures hash(ps[1..][i]).Some?
        {
          assert ps[1..][i] == ps[i + 1];
        }
      }
      AccumulateReadable(m', ps[1..], hash);
      assert Elems(ps) == {p} + Elems(ps[1..]);
      AddThenGroup(m, hash, h, p, Elems(ps[1..]), Accumulate(m', ps[1..], hash).index);
    }
  }

  /** One step of the pass: a path added before the rest of the set is grouped as part of it. */
  lemma AddThenGroup(m: Index, hash: Hasher, h: Digest, p: Path, tail: set<Path>, r: Index)
    requires hash(p) == Some(h)
    requires r.Keys == Add(m, h, p).Keys + Digests(tail, hash)
    requires forall k :: Get(r, k) == Get(Add(m, h, p), k) + Members(tail, hash, k)
    ensures r.Keys == m.Keys + Digests({p} + tail, hash)
    ensures forall k :: Get(r, k) == Get(m, k) + Members({p} + tail, hash, k)
  {
    assert Digests({p}, hash) == {h};
    DigestsUnion({p}, tail, hash);
    forall k
      ensures Get(r, k) == Get(m, k) + Members({p} + tail, hash, k)
    {
      MembersUnion({p}, tail, hash, k);
      assert Members({p}, hash, k) == if k == h then {p} else {};
    }
  }

  /** When every path can be hashed, the pass merges the digest grouping of the paths met into `m`. */
  lemma AccumulateIsMerge(m: Index, ps: seq<Path>, hash: Hasher)
    requires AllReadable(ps, hash)
    ensures Accumulate(m, ps, hash) == Ok(Merge(m, ByDigest(Elems(ps), hash)))
  {
    AccumulateReadable(m, ps, hash);
    var r := Accumulate(m, ps, hash).index;
    var b := ByDigest(Elems(ps), hash);
    forall k
      ensures Get(r, k) == Get(Merge(m, b), k)
    {
    }
    Extensionality(r, Merge(m, b));
  }

  /** The first path that cannot be hashed ends the pass, whatever follows it. */
  lemma {:induction false} AccumulateFirstUnreadable(m: Index, ps: seq<Path>, hash: Hasher, i: int)
    requires FirstUnreadable(ps, hash, i)
    ensures Accumulate(m, ps, hash) == Unreadable(ps[i])
    decreases i
  {
    if i > 0 {
      var h := hash(ps[0]).value;
      assert FirstUnreadable(ps[1..], hash, i - 1) by {
        forall j | 0 <= j < i - 1
          ensures hash(ps[1..][j]).Some?
        {
          assert ps[1..][j] == ps[j + 1];
        }
      }
      AccumulateFirstUnreadable(Add(m, h, ps[0]), ps[1..], hash, i - 1);
    }
  }

  /** A sequence with an unreadable path has a first one. */
  lemma {:induction false} FirstUnreadableExists(ps: seq<Path>, hash: Hasher)
    requires !AllReadable(ps, hash)
    ensures exists i :: FirstUnreadable(ps, hash, i)
  {
    if hash(ps[0]).Some? {
      assert !AllReadable(ps[1..], hash) by {
        var i :| 0 <= i < |ps| && hash(ps[i]).None?;
        assert ps[1..][i - 1] == ps[i];
      }
      FirstUnreadableExists(ps[1..], hash);
      var i :| FirstUnreadable(ps[1..], hash, i);
      forall j | 0 <= j < i + 1
        ensures hash(ps[j]).Some?
      {
        if j > 0 {
          assert ps[j] == ps[1..][j - 1];
        }
      }
      assert FirstUnreadable(ps, hash, i + 1);
    } else {
      assert FirstUnreadable(ps, hash, 0);
    }
  }

  /** The pass fails exactly when some path met cannot be hashed. */
  lemma AccumulateFails(m: Index, ps: seq<Path>, hash: Hasher)
    ensures Accumulate(m, ps, hash).Unreadable? <==> !AllReadable(ps, hash)
  {
    if AllReadable(ps, hash) {
      AccumulateReadable(m, ps, hash);
    } else {
      FirstUnreadableExists(ps, hash);
      var i :| FirstUnreadable(ps, hash, i);
      AccumulateFirstUnreadable(m, ps, hash, i);
    }
  }

  /** A successful pass depends only on which paths are met, not on their order or repetition. */
  lemma AccumulateOrderFree(m: Index, a: seq<Path>, b: seq<Path>, hash: Hasher)
    requires Elems(a) == Elems(b)
    requires AllReadable(a, hash)
    ensures Accumulate(m, a, hash) == Accumulate(m, b, hash)
  {
    assert AllReadable(b, hash) by {
      forall i | 0 <= i < |b|
        ensures hash(b[i]).Some?
      {
        assert b[i] in Elems(a);
      }
    }
    AccumulateIsMerge(m, a, hash);
    AccumulateIsMerge(m, b, hash);
  }
}
