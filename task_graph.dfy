/** `TaskGraph` (task_graph.h) and `TaskGraph::submit` (task_graph.cpp). */
module TaskGraphs {
  import opened TaskNodes
  import opened SubmissionSpec

  /** `std::find(tasks.begin(), tasks.end(), t)` as a distance from the start. */
  method Find(tasks: seq<TaskBase>, t: TaskBase) returns (k: nat)
    ensures k == IndexOf(tasks, t)
  {
    k := 0;
    while k < |tasks| && tasks[k] != t
      invariant k <= |tasks|
      invariant forall m :: 0 <= m < k ==> tasks[m] != t
    {
      k := k + 1;
    }
    IndexOfIsFirstMatch(tasks, t, k);
  }

  /** The inner loop of `submit` for one node: each input's id, found by
      position in `tasks`, and the inputs added to `has_deps`. */
  method ResolveInputs(tasks: seq<TaskBase>, ids: seq<nat>, inputs: seq<TaskBase>, hasDeps: set<TaskBase>)
    returns (deps: seq<nat>, hasDeps': set<TaskBase>)
    requires |ids| == |tasks| + 1
    ensures deps == ResolveDeps(tasks, ids, inputs)
    ensures hasDeps' == hasDeps + (set x | x in inputs)
  {
    deps := [];
    hasDeps' := hasDeps;
    var j := 0;
    while j < |inputs|
      invariant j <= |inputs|
      invariant deps == ResolveDeps(tasks, ids, inputs[..j])
      invariant hasDeps' == hasDeps + (set x | x in inputs[..j])
    {
      var dep := inputs[j];
      var depIdx := Find(tasks, dep);
      ResolveDepsAppend(tasks, ids, inputs, j);
      deps := deps + [ids[depIdx]];
      assert inputs[..j + 1] == inputs[..j] + [dep];
      hasDeps' := hasDeps' + {dep};
      j := j + 1;
    }
    assert inputs[..j] == inputs;
  }

  /** The second loop of `submit`: the ids of the nodes not in `has_deps`. */
  method CollectLeaves(tasks: seq<TaskBase>, ids: seq<nat>, hasDeps: set<TaskBase>) returns (leaves: seq<nat>)
    requires |ids| == |tasks| + 1
    ensures leaves == LeafIds(tasks, ids, hasDeps, |tasks|)
  {
    leaves := [];
    var i := 0;
    while i < |tasks|
      invariant i <= |tasks|
      invariant leaves == LeafIds(tasks, ids, hasDeps, i)
    {
      LeafIdsStep(tasks, ids, hasDeps, i);
      if tasks[i] !in hasDeps {
        leaves := leaves + [ids[i]];
      }
      i := i + 1;
    }
  }

  /** How the first loop of `submit` handles node `i`: a root adds its id to
      the roots, a node with inputs adds them to `has_deps`, and the node's own
      edge call, if any, follows the earlier ones. */
  lemma NodeLoopStep(tasks: seq<TaskBase>, ids: seq<nat>, i: nat)
    requires i < |tasks| && |ids| == |tasks| + 1
    ensures var s, s' := AfterNodes(tasks, ids, i), AfterNodes(tasks, ids, i + 1);
      tasks[i].count == 0 ==>
        s'.roots == s.roots + [ids[i]] && s'.hasDeps == s.hasDeps && s'.edges == s.edges
    ensures var s, s' := AfterNodes(tasks, ids, i), AfterNodes(tasks, ids, i + 1);
      tasks[i].count > 0 ==>
        && s'.roots == s.roots
        && s'.hasDeps == s.hasDeps + (set x | x in tasks[i].inputs)
        && s'.edges == s.edges + [AddDependencies([ids[i]], ResolveDeps(tasks, ids, tasks[i].inputs))]
  {
    IdsAppend(ids, RootIndices(tasks, i), i);
    if tasks[i].count == 0 {
      assert (set x | x in tasks[i].inputs) == {};
    }
  }

  /** Re-association of a trace that grows by `own`. */
  lemma Extend(start: seq<PoolCall>, edges: seq<PoolCall>, own: seq<PoolCall>, before: seq<PoolCall>, after: seq<PoolCall>)
    requires before == start + edges && after == before + own
    ensures after == start + (edges + own)
  {
  }

  lemma TraceShape(before: seq<PoolCall>, a: PoolCall, edges: seq<PoolCall>, b: PoolCall, c: PoolCall)
    ensures before + [a] + edges + [b] + [c] == before + ([a] + edges + [b, c])
  {
    assert [a] + edges + [b, c] == [a] + edges + [b] + [c];
  }

  /** A graph: the nodes to run, in the order given, and the fence that runs
      after all of them. */
  class TaskGraph {
    var tasks: seq<TaskBase>
    const fence: TaskGraphFence

    /** `TaskGraph(Tasks&... t)`: `push_back(&t)` for each argument in turn. */
    constructor (ts: seq<TaskBase>)
      ensures tasks == ts && fresh(fence) && fresh(fence.node) && fence.signal == 0
      ensures fence.node !in tasks
    {
      fence := new TaskGraphFence();
      tasks := [];
      new;
      var i := 0;
      while i < |ts|
        modifies this
        invariant i <= |ts| && tasks == ts[..i]
      {
        tasks := tasks + [ts[i]];
        i := i + 1;
      }
    }

    /** `TaskGraph(const std::vector<TaskBase *> &ts)`: a copy of `ts`. */
    constructor FromVector(ts: seq<TaskBase>)
      ensures tasks == ts && fresh(fence) && fresh(fence.node) && fence.signal == 0
      ensures fence.node !in tasks
    {
      fence := new TaskGraphFence();
      tasks := ts;
    }

    /** `submit(pool)`: register the nodes and the fence, register each node's
        edges and the fence's edges on the leaves, then release the roots. The
        node list is left as it was. */
    method Submit(pool: ThreadPool)
      modifies this, pool
      ensures tasks == old(tasks)
      ensures pool.nextId == old(pool.nextId) + |tasks| + 1
      ensures pool.trace == old(pool.trace) + SubmitTrace(tasks, fence.node, IdRange(old(pool.nextId), |tasks| + 1))
    {
      ghost var ts := tasks;
      tasks := tasks + [fence.node];
      var ids := pool.AddTasks(tasks);
      tasks := tasks[..|tasks| - 1];
      assert tasks == ts;
      ghost var registered := pool.trace;

      var roots, hasDeps := RegisterEdges(pool, ids);
      ghost var edges := pool.trace;
      var leaves := CollectLeaves(tasks, ids, hasDeps);

      var completionId := ids[|ids| - 1];
      pool.AddDependencies([completionId], leaves);
      pool.ReadyTasks(roots);
      TraceShape(old(pool.trace), PoolCall.AddTasks(ts + [fence.node], ids), EdgeCalls(ts, ids, |ts|),
        PoolCall.AddDependencies([ids[|ts|]], leaves), PoolCall.ReadyTasks(roots));
    }

    /** The first loop of `submit`: collect the roots and `has_deps`, and
        register the edges of every node with inputs. */
    method RegisterEdges(pool: ThreadPool, ids: seq<nat>) returns (roots: seq<nat>, hasDeps: set<TaskBase>)
      requires |ids| == |tasks| + 1
      modifies pool
      ensures roots == Roots(tasks, ids)
      ensures hasDeps == HasDeps(tasks, |tasks|)
      ensures pool.trace == old(pool.trace) + EdgeCalls(tasks, ids, |tasks|)
      ensures pool.nextId == old(pool.nextId)
    {
      var ts := tasks;
      roots := [];
      hasDeps := {};
      var i := 0;
      while i < |ts|
        invariant i <= |ts|
        invariant roots == AfterNodes(ts, ids, i).roots
        invariant hasDeps == AfterNodes(ts, ids, i).hasDeps
        invariant pool.trace == old(pool.trace) + AfterNodes(ts, ids, i).edges
        invariant pool.nextId == old(pool.nextId)
      {
        roots, hasDeps := RegisterNode(pool, ts, ids, i, roots, hasDeps, old(pool.trace));
        i := i + 1;
      }
    }
  }

  /** One pass of the first loop of `submit`, for node `i`: a root adds its id
      to the roots; otherwise its inputs are resolved to ids, added to
      `has_deps`, and registered as the node's dependencies. */
  method RegisterNode(pool: ThreadPool, ts: seq<TaskBase>, ids: seq<nat>, i: nat,
                      roots: seq<nat>, hasDeps: set<TaskBase>, ghost start: seq<PoolCall>)
    returns (roots': seq<nat>, hasDeps': set<TaskBase>)
    requires i < |ts| && |ids| == |ts| + 1
    requires roots == AfterNodes(ts, ids, i).roots
    requires hasDeps == AfterNodes(ts, ids, i).hasDeps
    requires pool.trace == start + AfterNodes(ts, ids, i).edges
    modifies pool
    ensures roots' == AfterNodes(ts, ids, i + 1).roots
    ensures hasDeps' == AfterNodes(ts, ids, i + 1).hasDeps
    ensures pool.trace == start + AfterNodes(ts, ids, i + 1).edges
    ensures pool.nextId == old(pool.nextId)
  {
    var t := ts[i];
    NodeLoopStep(ts, ids, i);
    roots', hasDeps' := roots, hasDeps;
    if t.count == 0 {
      roots' := roots + [ids[i]];
      return;
    }
    var deps;
    deps, hasDeps' := ResolveInputs(ts, ids, t.inputs, hasDeps);
    if |deps| > 0 {
      ghost var before := pool.trace;
      pool.AddDependencies([ids[i]], deps);
      Extend(start, AfterNodes(ts, ids, i).edges, [AddDependencies([ids[i]], deps)], before, pool.trace);
    }
  }
}
