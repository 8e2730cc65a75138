/**
 A worked example: directory `/d` holds `a.txt` and `b.txt` with one content
 and `c.txt` with another.
 */
module Example {
  import opened Types
  import opened GroupIndex
  import opened Accumulation
  import opened Traversal
  import opened GroupingProperties
  import opened DuplicateFinder

  const A: Path := "/d/a.txt"
  const B: Path := "/d/b.txt"
  const C: Path := "/d/c.txt"

  function ExampleWalk(root: Path): seq<WalkEntry>
  {
    if root == "/d" then [WalkEntry("/d", [], ["a.txt", "b.txt", "c.txt"])] else []
  }

  function ExampleJoin(dir: Path, name: FileName): Path
  {
    dir + "/" + name
  }

  /** Digest "hello" for the two equal files, "world" for the third; nothing else is readable. */
  function ExampleHash(p: Path): Option<Digest>
  {
    if p == A || p == B then Some("hello") else if p == C then Some("world") else None
  }

  const Expected: Index := map["hello" := {A, B}, "world" := {C}]

  lemma ExampleVisited()
    ensures Visited(["/d"], ExampleWalk, ExampleJoin) == [A, B, C]
  {
    var e := WalkEntry("/d", [], ["a.txt", "b.txt", "c.txt"]);
    assert ExampleJoin("/d", "a.txt") == A;
    assert ExampleJoin("/d", "b.txt") == B;
    assert ExampleJoin("/d", "c.txt") == C;
    assert DirFiles(e, ExampleJoin) == [A, B, C];
    assert [e][1..] == [];
    assert EntriesFiles([e], ExampleJoin) == [A, B, C];
  }

  lemma ExampleAccumulate()
    ensures Accumulate(map[], [A, B, C], ExampleHash) == Ok(Expected)
  {
    var m1 := Add(map[], "hello", A);
    var m2 := Add(m1, "hello", B);
    var m3 := Add(m2, "world", C);
    assert Accumulate(map[], [A, B, C], ExampleHash) == Accumulate(m1, [B, C], ExampleHash);
    assert Accumulate(m1, [B, C], ExampleHash) == Accumulate(m2, [C], ExampleHash);
    assert Accumulate(m2, [C], ExampleHash) == Ok(m3);
    assert Get(map[], "hello") + {A} == {A};
    assert m1 == map["hello" := {A}];
    assert Get(m1, "hello") + {B} == {A, B};
    assert m2 == map["hello" := {A, B}];
    assert Get(m2, "world") + {C} == {C};
  }

  /** Scanning `/d` groups the two equal files and the third apart; the filter keeps only the pair. */
  lemma ScanExample()
    ensures Group(["/d"], None, ExampleWalk, ExampleJoin, ExampleHash) == Ok(Expected)
    ensures Duplicates(Expected) == map["hello" := {A, B}]
  {
    ExampleVisited();
    ExampleAccumulate();
    assert |Expected["hello"]| == 2 && |Expected["world"]| == 1;
  }

  /** Scanning `/d` with `c.txt` as the reference reports only its own digest, holding only itself. */
  lemma ReferenceExample()
    ensures Group(["/d"], Some(C), ExampleWalk, ExampleJoin, ExampleHash) == Ok(map["world" := {C}])
  {
    ExampleVisited();
    assert Given(Some(C));
    assert AllReadable([A, B, C], ExampleHash);
    GroupWithReference(["/d"], Some(C), ExampleWalk, ExampleJoin, ExampleHash, "world");
    assert Members(Elems([A, B, C]), ExampleHash, "world") == {C};
    assert {C} + {C} == {C};
  }
}
