/** The demo graph of main.cpp: `a`, `b` without inputs, `c(a, b)`,
    `d(a, a)`, `e(c, d)`, submitted in the order a, b, c, d, e. */
module Demo {
  import opened TaskNodes
  import opened SubmissionSpec
  import opened TaskGraphs

  /** The demo graph's shape: the inputs main.cpp gives each node, and six
      distinct objects (the fence `f` last). */
  ghost predicate DemoShape(a: TaskBase, b: TaskBase, c: TaskBase, d: TaskBase, e: TaskBase, f: TaskBase)
  {
    && a.inputs == [] && b.inputs == [] && c.inputs == [a, b] && d.inputs == [a, a] && e.inputs == [c, d]
    && NoDuplicates([a, b, c, d, e, f])
  }

  lemma DemoPositions(a: TaskBase, b: TaskBase, c: TaskBase, d: TaskBase, e: TaskBase, f: TaskBase)
    requires DemoShape(a, b, c, d, e, f)
    ensures IndexOf([a, b, c, d, e], a) == 0 && IndexOf([a, b, c, d, e], b) == 1
    ensures IndexOf([a, b, c, d, e], c) == 2 && IndexOf([a, b, c, d, e], d) == 3
  {
    var ts := [a, b, c, d, e];
    var all := [a, b, c, d, e, f];
    assert all[0] != all[1] && all[0] != all[2] && all[1] != all[2];
    assert all[0] != all[3] && all[1] != all[3] && all[2] != all[3];
    IndexOfIsFirstMatch(ts, b, 1);
    IndexOfIsFirstMatch(ts, c, 2);
    IndexOfIsFirstMatch(ts, d, 3);
  }

  lemma DemoResolved(a: TaskBase, b: TaskBase, c: TaskBase, d: TaskBase, e: TaskBase, f: TaskBase)
    requires DemoShape(a, b, c, d, e, f)
    ensures ResolveDeps([a, b, c, d, e], IdRange(0, 6), c.inputs) == [0, 1]
    ensures ResolveDeps([a, b, c, d, e], IdRange(0, 6), d.inputs) == [0, 0]
    ensures ResolveDeps([a, b, c, d, e], IdRange(0, 6), e.inputs) == [2, 3]
  {
    DemoPositions(a, b, c, d, e, f);
    var ids := IdRange(0, 6);
    assert ids[0] == 0 && ids[1] == 1 && ids[2] == 2 && ids[3] == 3;
  }

  lemma DemoEdges(a: TaskBase, b: TaskBase, c: TaskBase, d: TaskBase, e: TaskBase, f: TaskBase)
    requires DemoShape(a, b, c, d, e, f)
    ensures EdgeCalls([a, b, c, d, e], IdRange(0, 6), 5) ==
      [AddDependencies([2], [0, 1]), AddDependencies([3], [0, 0]), AddDependencies([4], [2, 3])]
  {
    var ts := [a, b, c, d, e];
    var ids := IdRange(0, 6);
    DemoResolved(a, b, c, d, e, f);
    assert a.count == 0 && b.count == 0 && c.count == 2 && d.count == 2 && e.count == 2;
    assert EdgeCalls(ts, ids, 1) == [];
    assert EdgeCalls(ts, ids, 2) == [];
    assert EdgeCalls(ts, ids, 3) == [AddDependencies([2], [0, 1])];
    assert EdgeCalls(ts, ids, 4) == [AddDependencies([2], [0, 1]), AddDependencies([3], [0, 0])];
  }

  lemma FirstTwoAreRoots(ts: seq<TaskBase>)
    requires |ts| == 5 && ts[0].count == 0 && ts[1].count == 0
    requires ts[2].count > 0 && ts[3].count > 0 && ts[4].count > 0
    ensures RootIndices(ts, 5) == [0, 1]
  {
    var r0 := RootIndices(ts, 0);
    assert r0 == [];
    var r1 := RootIndices(ts, 1);
    assert r1 == r0 + [0];
    var r2 := RootIndices(ts, 2);
    assert r2 == r1 + [1];
    assert r2 == [0, 1];
    assert RootIndices(ts, 3) == r2;
    assert RootIndices(ts, 4) == r2;
  }

  lemma DemoRoots(a: TaskBase, b: TaskBase, c: TaskBase, d: TaskBase, e: TaskBase, f: TaskBase)
    requires DemoShape(a, b, c, d, e, f)
    ensures Roots([a, b, c, d, e], IdRange(0, 6)) == [0, 1]
  {
    var ts := [a, b, c, d, e];
    assert ts[0].count == 0 && ts[1].count == 0 && ts[2].count == 2 && ts[3].count == 2 && ts[4].count == 2;
    FirstTwoAreRoots(ts);
    assert IdRange(0, 6)[0] == 0 && IdRange(0, 6)[1] == 1;
  }

  lemma DemoHasDeps(a: TaskBase, b: TaskBase, c: TaskBase, d: TaskBase, e: TaskBase, f: TaskBase)
    requires DemoShape(a, b, c, d, e, f)
    ensures HasDeps([a, b, c, d, e], 5) == {a, b, c, d}
  {
    var ts := [a, b, c, d, e];
    assert (set x | x in a.inputs) == {} && (set x | x in b.inputs) == {};
    assert HasDeps(ts, 1) == {};
    assert HasDeps(ts, 2) == {};
    assert HasDeps(ts, 3) == {a, b};
    assert HasDeps(ts, 4) == {a, b};
  }

  lemma OnlyLastIsLeaf(ts: seq<TaskBase>, hd: set<TaskBase>)
    requires |ts| == 5 && ts[0] in hd && ts[1] in hd && ts[2] in hd && ts[3] in hd && ts[4] !in hd
    ensures LeafIndices(ts, hd, 5) == [4]
  {
    assert LeafIndices(ts, hd, 1) == [];
    assert LeafIndices(ts, hd, 2) == [];
    assert LeafIndices(ts, hd, 3) == [];
    assert LeafIndices(ts, hd, 4) == [];
  }

  lemma DemoLeaves(a: TaskBase, b: TaskBase, c: TaskBase, d: TaskBase, e: TaskBase, f: TaskBase)
    requires DemoShape(a, b, c, d, e, f)
    ensures Leaves([a, b, c, d, e], IdRange(0, 6)) == [4]
  {
    var ts := [a, b, c, d, e];
    var all := [a, b, c, d, e, f];
    assert all[0] != all[4] && all[1] != all[4] && all[2] != all[4] && all[3] != all[4];
    DemoHasDeps(a, b, c, d, e, f);
    var hd := HasDeps(ts, 5);
    assert ts[0] in hd && ts[1] in hd && ts[2] in hd && ts[3] in hd && ts[4] !in hd;
    OnlyLastIsLeaf(ts, hd);
    assert IdRange(0, 6)[4] == 4;
  }

  /** The calls `submit` makes for the demo graph when the scheduler gives out
      ids 0..5: `c`, `d`, `e` get one edge call each (with `a` listed twice
      for `d`), `has_deps` is {a, b, c, d}, the fence waits only on `e`, and
      `a`, `b` are released. */
  lemma DemoTrace(a: TaskBase, b: TaskBase, c: TaskBase, d: TaskBase, e: TaskBase, f: TaskBase)
    requires DemoShape(a, b, c, d, e, f)
    ensures SubmitTrace([a, b, c, d, e], f, IdRange(0, 6)) ==
      [ AddTasks([a, b, c, d, e, f], [0, 1, 2, 3, 4, 5]),
        AddDependencies([2], [0, 1]),
        AddDependencies([3], [0, 0]),
        AddDependencies([4], [2, 3]),
        AddDependencies([5], [4]),
        ReadyTasks([0, 1]) ]
  {
    DemoEdges(a, b, c, d, e, f);
    DemoRoots(a, b, c, d, e, f);
    DemoLeaves(a, b, c, d, e, f);
    assert IdRange(0, 6) == [0, 1, 2, 3, 4, 5];
    assert [a, b, c, d, e] + [f] == [a, b, c, d, e, f];
  }

  /** main.cpp's graph built with the node and graph constructors and
      submitted to a fresh scheduler. */
  method DemoSubmission() returns (g: TaskGraph, pool: ThreadPool)
    ensures |pool.trace| == 6 && pool.nextId == 6
    ensures |g.tasks| == 5 && pool.trace[0] == AddTasks(g.tasks + [g.fence.node], [0, 1, 2, 3, 4, 5])
    ensures g.fence.node !in g.tasks
    ensures && g.tasks[0].inputs == [] && g.tasks[1].inputs == []
            && g.tasks[2].inputs == [g.tasks[0], g.tasks[1]]
            && g.tasks[3].inputs == [g.tasks[0], g.tasks[0]]
            && g.tasks[4].inputs == [g.tasks[2], g.tasks[3]]
    ensures pool.trace[1..] ==
      [ AddDependencies([2], [0, 1]),
        AddDependencies([3], [0, 0]),
        AddDependencies([4], [2, 3]),
        AddDependencies([5], [4]),
        ReadyTasks([0, 1]) ]
  {
    var a := new TaskBase();
    var b := new TaskBase();
    var c := new TaskBase.WithInputs([a, b]);
    var d := new TaskBase.WithInputs([a, a]);
    var e := new TaskBase.WithInputs([c, d]);
    g := new TaskGraph([a, b, c, d, e]);
    pool := new ThreadPool();
    g.Submit(pool);
    assert g.tasks == [a, b, c, d, e];
    DemoTrace(a, b, c, d, e, g.fence.node);
  }
}
