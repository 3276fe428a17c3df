/** What `TaskGraph::submit` (task_graph.cpp) computes, as functions of the
    node sequence `tasks` and the ids `ids` the scheduler gave out for
    `tasks + [fence]` (so `ids[|tasks|]` is the fence's id). */
module SubmissionSpec {
  import opened TaskNodes

  /** `std::find(tasks.begin(), tasks.end(), t) - tasks.begin()`: the first
      position holding `t`, or `|tasks|` when there is none. */
  function IndexOf(tasks: seq<TaskBase>, t: TaskBase): (k: nat)
    ensures k <= |tasks|
    ensures k < |tasks| ==> tasks[k] == t
    ensures forall m :: 0 <= m < k ==> tasks[m] != t
    ensures k == |tasks| <==> t !in tasks
  {
    if tasks == [] then 0
    else if tasks[0] == t then 0
    else 1 + IndexOf(tasks[1..], t)
  }

  /** `IndexOf` is the only position that is a first occurrence (or the end). */
  lemma IndexOfIsFirstMatch(tasks: seq<TaskBase>, t: TaskBase, k: nat)
    requires k <= |tasks| && (k < |tasks| ==> tasks[k] == t)
    requires forall m :: 0 <= m < k ==> tasks[m] != t
    ensures k == IndexOf(tasks, t)
  {
  }

  /** The scheduler ids of dependency list `inputs`, one per entry, in order,
      repeats kept. */
  function ResolveDeps(tasks: seq<TaskBase>, ids: seq<nat>, inputs: seq<TaskBase>): seq<nat>
    requires |ids| == |tasks| + 1
  {
    seq(|inputs|, j requires 0 <= j < |inputs| => ids[IndexOf(tasks, inputs[j])])
  }

  ghost predicate Increasing(s: seq<nat>)
  {
    forall a, b :: 0 <= a < b < |s| ==> s[a] < s[b]
  }

  /** Positions `i < n` of the roots: the nodes with `count == 0`, in order. */
  function RootIndices(tasks: seq<TaskBase>, n: nat): (r: seq<nat>)
    requires n <= |tasks|
    ensures forall i :: i in r <==> 0 <= i < n && tasks[i].count == 0
    ensures forall k :: 0 <= k < |r| ==> r[k] < n
    ensures Increasing(r)
  {
    if n == 0 then []
    else RootIndices(tasks, n - 1) + (if tasks[n - 1].count == 0 then [n - 1] else [])
  }

  /** `has_deps` after the first `n` nodes: every node named as an input. */
  function HasDeps(tasks: seq<TaskBase>, n: nat): (s: set<TaskBase>)
    requires n <= |tasks|
    ensures forall k, j :: 0 <= k < n && 0 <= j < |tasks[k].inputs| ==> tasks[k].inputs[j] in s
  {
    if n == 0 then {}
    else
      var ins := tasks[n - 1].inputs;
      HasDeps(tasks, n - 1) + (set x | x in ins)
  }

  /** `has_deps` holds exactly the nodes some earlier node names as an input. */
  lemma {:induction false} HasDepsMembers(tasks: seq<TaskBase>, n: nat, x: TaskBase)
    requires n <= |tasks|
    ensures x in HasDeps(tasks, n) <==> exists k :: 0 <= k < n && x in tasks[k].inputs
  {
    if n > 0 {
      HasDepsMembers(tasks, n - 1, x);
    }
  }

  /** Positions `i < n` of the leaves: the nodes not in `hasDeps`, in order. */
  function LeafIndices(tasks: seq<TaskBase>, hasDeps: set<TaskBase>, n: nat): (r: seq<nat>)
    requires n <= |tasks|
    ensures forall i :: i in r <==> 0 <= i < n && tasks[i] !in hasDeps
    ensures forall k :: 0 <= k < |r| ==> r[k] < n
    ensures Increasing(r)
  {
    if n == 0 then []
    else LeafIndices(tasks, hasDeps, n - 1) + (if tasks[n - 1] !in hasDeps then [n - 1] else [])
  }

  /** The ids at the given positions. */
  function Ids(ids: seq<nat>, idx: seq<nat>): seq<nat>
    requires forall k :: 0 <= k < |idx| ==> idx[k] < |ids|
  {
    seq(|idx|, k requires 0 <= k < |idx| => ids[idx[k]])
  }

  /** The edge call the node loop makes for node `i`: none for a root, and
      otherwise `add_dependencies` with node `i` as the only dependent,
      waiting on its resolved inputs. */
  function OwnEdgeCall(tasks: seq<TaskBase>, ids: seq<nat>, i: nat): seq<PoolCall>
    requires i < |tasks| && |ids| == |tasks| + 1
  {
    if tasks[i].count == 0 then []
    else [AddDependencies([ids[i]], ResolveDeps(tasks, ids, tasks[i].inputs))]
  }

  /** The `add_dependencies` calls made for the first `n` nodes: one per node
      with inputs, in node order. */
  function EdgeCalls(tasks: seq<TaskBase>, ids: seq<nat>, n: nat): seq<PoolCall>
    requires n <= |tasks| && |ids| == |tasks| + 1
  {
    if n == 0 then []
    else EdgeCalls(tasks, ids, n - 1) + OwnEdgeCall(tasks, ids, n - 1)
  }

  /** `c` is the edge call `submit` makes for node `i`: node `i` has inputs and
      is the only dependent, waiting on its resolved inputs. */
  ghost predicate IsEdgeCallOf(tasks: seq<TaskBase>, ids: seq<nat>, c: PoolCall, i: nat)
    requires |ids| == |tasks| + 1
  {
    i < |tasks| && tasks[i].count > 0 && c == AddDependencies([ids[i]], ResolveDeps(tasks, ids, tasks[i].inputs))
  }

  /** `c` is the edge call of one of the nodes. */
  ghost predicate IsNodeEdgeCall(tasks: seq<TaskBase>, ids: seq<nat>, c: PoolCall)
    requires |ids| == |tasks| + 1
  {
    exists i :: 0 <= i < |tasks| && IsEdgeCallOf(tasks, ids, c, i)
  }

  /** The state of the first loop of `submit` after the first `n` nodes: the
      roots collected, `has_deps`, and the edge calls made. */
  datatype NodeLoop = NodeLoop(roots: seq<nat>, hasDeps: set<TaskBase>, edges: seq<PoolCall>)

  function AfterNodes(tasks: seq<TaskBase>, ids: seq<nat>, n: nat): NodeLoop
    requires n <= |tasks| && |ids| == |tasks| + 1
  {
    NodeLoop(Ids(ids, RootIndices(tasks, n)), HasDeps(tasks, n), EdgeCalls(tasks, ids, n))
  }

  function Roots(tasks: seq<TaskBase>, ids: seq<nat>): seq<nat>
    requires |ids| == |tasks| + 1
  {
    Ids(ids, RootIndices(tasks, |tasks|))
  }

  /** The ids of the leaves among the first `n` nodes. */
  function LeafIds(tasks: seq<TaskBase>, ids: seq<nat>, hasDeps: set<TaskBase>, n: nat): seq<nat>
    requires n <= |tasks| && |ids| == |tasks| + 1
  {
    Ids(ids, LeafIndices(tasks, hasDeps, n))
  }

  /** How the leaf loop of `submit` handles node `i`. */
  lemma LeafIdsStep(tasks: seq<TaskBase>, ids: seq<nat>, hasDeps: set<TaskBase>, i: nat)
    requires i < |tasks| && |ids| == |tasks| + 1
    ensures tasks[i] !in hasDeps ==> LeafIds(tasks, ids, hasDeps, i + 1) == LeafIds(tasks, ids, hasDeps, i) + [ids[i]]
    ensures tasks[i] in hasDeps ==> LeafIds(tasks, ids, hasDeps, i + 1) == LeafIds(tasks, ids, hasDeps, i)
  {
    IdsAppend(ids, LeafIndices(tasks, hasDeps, i), i);
  }

  function Leaves(tasks: seq<TaskBase>, ids: seq<nat>): seq<nat>
    requires |ids| == |tasks| + 1
  {
    Ids(ids, LeafIndices(tasks, HasDeps(tasks, |tasks|), |tasks|))
  }

  /** Every call `submit` makes, in order: register the nodes and the fence,
      the per-node edges, the fence's edge on the leaves, release the roots. */
  function SubmitTrace(tasks: seq<TaskBase>, fence: TaskBase, ids: seq<nat>): seq<PoolCall>
    requires |ids| == |tasks| + 1
  {
    [AddTasks(tasks + [fence], ids)]
    + EdgeCalls(tasks, ids, |tasks|)
    + [AddDependencies([ids[|tasks|]], Leaves(tasks, ids)), ReadyTasks(Roots(tasks, ids))]
  }

  ghost predicate Distinct(ids: seq<nat>)
  {
    forall a, b :: 0 <= a < b < |ids| ==> ids[a] != ids[b]
  }

  /** The consecutive ids the scheduler gives out are distinct. */
  lemma IdRangeDistinct(start: nat, n: nat)
    ensures Distinct(IdRange(start, n))
  {
  }

  lemma IdsAppend(ids: seq<nat>, idx: seq<nat>, x: nat)
    requires forall k :: 0 <= k < |idx| ==> idx[k] < |ids|
    requires x < |ids|
    ensures Ids(ids, idx + [x]) == Ids(ids, idx) + [ids[x]]
  {
  }

  lemma ResolveDepsAppend(tasks: seq<TaskBase>, ids: seq<nat>, inputs: seq<TaskBase>, j: nat)
    requires |ids| == |tasks| + 1 && j < |inputs|
    ensures ResolveDeps(tasks, ids, inputs[..j + 1]) ==
      ResolveDeps(tasks, ids, inputs[..j]) + [ids[IndexOf(tasks, inputs[j])]]
  {
    var l := ResolveDeps(tasks, ids, inputs[..j + 1]);
    var r := ResolveDeps(tasks, ids, inputs[..j]) + [ids[IndexOf(tasks, inputs[j])]];
    assert |l| == |r|;
    forall k | 0 <= k < |l|
      ensures l[k] == r[k]
    {
      assert inputs[..j + 1][k] == inputs[k];
      if k < j {
        assert inputs[..j][k] == inputs[k];
      }
    }
  }

  // ---------------------------------------------------------------------
  // Properties

  lemma DistinctAt(ids: seq<nat>, a: nat, b: nat)
    requires Distinct(ids) && a < |ids| && b < |ids| && a != b
    ensures ids[a] != ids[b]
  {
  }

  lemma SameIdSamePosition(ids: seq<nat>, a: nat, b: nat)
    requires Distinct(ids) && a < |ids| && b < |ids| && ids[a] == ids[b]
    ensures a == b
  {
  }

  /** With distinct ids, the roots released are the ids of exactly the nodes
      without dependencies, and never the fence's id (their order is node
      order, by `RootIndices`). */
  lemma RootsAreZeroDependencyNodes(tasks: seq<TaskBase>, ids: seq<nat>)
    requires |ids| == |tasks| + 1 && Distinct(ids)
    ensures forall i :: 0 <= i < |tasks| ==> (ids[i] in Roots(tasks, ids) <==> tasks[i].count == 0)
    ensures ids[|tasks|] !in Roots(tasks, ids)
  {
    var idx := RootIndices(tasks, |tasks|);
    var r := Roots(tasks, ids);
    forall i | 0 <= i < |tasks|
      ensures ids[i] in r <==> tasks[i].count == 0
    {
      if tasks[i].count == 0 {
        var k :| 0 <= k < |idx| && idx[k] == i;
        assert r[k] == ids[i];
      }
      if ids[i] in r {
        var k :| 0 <= k < |r| && r[k] == ids[i];
        SameIdSamePosition(ids, idx[k], i);
      }
    }
    forall k | 0 <= k < |r|
      ensures r[k] != ids[|tasks|]
    {
      assert idx[k] < |tasks|;
    }
  }

  /** With distinct ids, the fence waits on the ids of exactly the nodes that
      no node names as an input; the fence itself is not one. */
  lemma LeavesAreUnreferencedNodes(tasks: seq<TaskBase>, ids: seq<nat>)
    requires |ids| == |tasks| + 1 && Distinct(ids)
    ensures forall i :: 0 <= i < |tasks| ==>
      (ids[i] in Leaves(tasks, ids) <==> forall k :: 0 <= k < |tasks| ==> tasks[i] !in tasks[k].inputs)
    ensures ids[|tasks|] !in Leaves(tasks, ids)
  {
    var hd := HasDeps(tasks, |tasks|);
    var idx := LeafIndices(tasks, hd, |tasks|);
    var l := Leaves(tasks, ids);
    forall i | 0 <= i < |tasks|
      ensures ids[i] in l <==> forall k :: 0 <= k < |tasks| ==> tasks[i] !in tasks[k].inputs
    {
      if tasks[i] !in hd {
        var k :| 0 <= k < |idx| && idx[k] == i;
        assert l[k] == ids[i];
      }
      if ids[i] in l {
        var k :| 0 <= k < |l| && l[k] == ids[i];
        SameIdSamePosition(ids, idx[k], i);
      }
      HasDepsMembers(tasks, |tasks|, tasks[i]);
    }
    forall k | 0 <= k < |l|
      ensures l[k] != ids[|tasks|]
    {
      assert idx[k] < |tasks|;
    }
  }

  /** A dependency that is not one of the graph's nodes resolves to the id
      that `ids[tasks.size()]` holds: the fence's own id. */
  lemma MissingDependencyResolvesToFence(tasks: seq<TaskBase>, ids: seq<nat>, inputs: seq<TaskBase>, j: nat)
    requires |ids| == |tasks| + 1 && j < |inputs| && inputs[j] !in tasks
    ensures ResolveDeps(tasks, ids, inputs)[j] == ids[|tasks|]
  {
  }

  /** A dependency that is one of the graph's nodes resolves to the id of its
      first occurrence, which with distinct ids is never the fence's. */
  lemma PresentDependencyResolvesToNode(tasks: seq<TaskBase>, ids: seq<nat>, inputs: seq<TaskBase>, j: nat)
    requires |ids| == |tasks| + 1 && Distinct(ids) && j < |inputs| && inputs[j] in tasks
    ensures exists k ::
      && 0 <= k < |tasks| && tasks[k] == inputs[j] && ResolveDeps(tasks, ids, inputs)[j] == ids[k]
      && (forall m :: 0 <= m < k ==> tasks[m] != inputs[j])
    ensures ResolveDeps(tasks, ids, inputs)[j] != ids[|tasks|]
  {
    var k := IndexOf(tasks, inputs[j]);
    assert tasks[k] == inputs[j] && ResolveDeps(tasks, ids, inputs)[j] == ids[k];
  }

  /** The edge calls whose dependent is `id`. */
  function CallsFor(calls: seq<PoolCall>, id: nat): seq<PoolCall>
  {
    if calls == [] then []
    else (if calls[0].AddDependencies? && calls[0].tasks == [id] then [calls[0]] else []) + CallsFor(calls[1..], id)
  }

  /** Picking out the calls for `id` distributes over concatenation. */
  lemma {:induction false} CallsForAppend(a: seq<PoolCall>, b: seq<PoolCall>, id: nat)
    ensures CallsFor(a + b, id) == CallsFor(a, id) + CallsFor(b, id)
  {
    if a == [] {
      assert a + b == b;
    } else {
      assert (a + b)[0] == a[0];
      assert (a + b)[1..] == a[1..] + b;
      CallsForAppend(a[1..], b, id);
    }
  }

  lemma CallsForSnoc(calls: seq<PoolCall>, c: PoolCall, id: nat)
    ensures CallsFor(calls + [c], id) ==
      CallsFor(calls, id) + (if c.AddDependencies? && c.tasks == [id] then [c] else [])
  {
    CallsForAppend(calls, [c], id);
    assert [c][1..] == [];
  }

  /** The edge calls for the first `n` nodes whose dependent is `id`. */
  function NodeCalls(tasks: seq<TaskBase>, ids: seq<nat>, n: nat, id: nat): seq<PoolCall>
    requires n <= |tasks| && |ids| == |tasks| + 1
  {
    CallsFor(EdgeCalls(tasks, ids, n), id)
  }

  /** One more call on the end of `calls`: the calls for `id` gain it exactly
      when it is an edge call naming `id` alone as the dependent. */
  lemma CallsForStep(prev: seq<PoolCall>, own: seq<PoolCall>, id: nat, d: nat, deps: seq<nat>,
                     mine: seq<PoolCall>, wasBefore: bool, isLast: bool)
    requires own == [] || own == [AddDependencies([d], deps)]
    requires CallsFor(prev, id) == if wasBefore then mine else []
    requires isLast ==> own == mine && d == id && !wasBefore
    requires !isLast ==> d != id
    ensures CallsFor(prev + own, id) == if wasBefore || isLast then mine else []
  {
    if own == [] {
      assert prev + own == prev;
    } else {
      CallsForSnoc(prev, own[0], id);
    }
  }

  /** Node `n - 1`'s edge call is the only one the step adds, and with
      distinct ids it names a different dependent than any other node's. */
  lemma OneEdgeCallStep(tasks: seq<TaskBase>, ids: seq<nat>, n: nat, i: nat)
    requires 0 < n <= |tasks| && |ids| == |tasks| + 1 && Distinct(ids) && i < |tasks|
    requires NodeCalls(tasks, ids, n - 1, ids[i]) == if i < n - 1 then OwnEdgeCall(tasks, ids, i) else []
    ensures NodeCalls(tasks, ids, n, ids[i]) == if i < n then OwnEdgeCall(tasks, ids, i) else []
  {
    if n - 1 != i {
      DistinctAt(ids, n - 1, i);
    }
    CallsForStep(EdgeCalls(tasks, ids, n - 1), OwnEdgeCall(tasks, ids, n - 1), ids[i], ids[n - 1],
      ResolveDeps(tasks, ids, tasks[n - 1].inputs), OwnEdgeCall(tasks, ids, i), i < n - 1, i == n - 1);
  }

  /** With distinct ids, among the edge calls for the first `n` nodes, node
      `i < n` is the dependent of exactly its own edge call: one call, waiting
      on its resolved inputs, when it has inputs, and none when it is a root. */
  lemma {:induction false} OneEdgeCallPerNode(tasks: seq<TaskBase>, ids: seq<nat>, n: nat, i: nat)
    requires n <= |tasks| && |ids| == |tasks| + 1 && Distinct(ids) && i < |tasks|
    ensures NodeCalls(tasks, ids, n, ids[i]) == if i < n then OwnEdgeCall(tasks, ids, i) else []
    decreases n
  {
    if n > 0 {
      OneEdgeCallPerNode(tasks, ids, n - 1, i);
      OneEdgeCallStep(tasks, ids, n, i);
    }
  }

  /** Every edge call for the first `n` nodes is the call of some node `i < n`
      with inputs, naming that node alone as the dependent. */
  lemma {:induction false} EdgeCallOwner(tasks: seq<TaskBase>, ids: seq<nat>, n: nat, k: nat) returns (i: nat)
    requires n <= |tasks| && |ids| == |tasks| + 1 && k < |EdgeCalls(tasks, ids, n)|
    ensures i < n && IsEdgeCallOf(tasks, ids, EdgeCalls(tasks, ids, n)[k], i)
  {
    var prev := EdgeCalls(tasks, ids, n - 1);
    if k < |prev| {
      i := EdgeCallOwner(tasks, ids, n - 1, k);
    } else {
      i := n - 1;
    }
  }

  /** The order of `submit`'s calls: `add_tasks` on the nodes followed by the
      fence, then only single-node edge calls for the nodes, then the fence's
      edge call on the leaves, and `ready_tasks` on the roots last. */
  lemma SubmitCallOrder(tasks: seq<TaskBase>, fence: TaskBase, ids: seq<nat>)
    requires |ids| == |tasks| + 1
    ensures var st := SubmitTrace(tasks, fence, ids);
      && |st| >= 3
      && st[0] == AddTasks(tasks + [fence], ids)
      && st[|st| - 2] == AddDependencies([ids[|tasks|]], Leaves(tasks, ids))
      && st[|st| - 1] == ReadyTasks(Roots(tasks, ids))
      && forall k :: 0 < k < |st| - 2 ==> IsNodeEdgeCall(tasks, ids, st[k])
  {
    var st := SubmitTrace(tasks, fence, ids);
    var edges := EdgeCalls(tasks, ids, |tasks|);
    forall k | 0 < k < |st| - 2
      ensures IsNodeEdgeCall(tasks, ids, st[k])
    {
      assert st[k] == edges[k - 1];
      var i := EdgeCallOwner(tasks, ids, |tasks|, k - 1);
    }
  }

  /** A node whose input is not among the graph's nodes is made to wait on
      the fence; if no node names that node as an input, the fence also
      waits on it, so the edges `submit` registers form a cycle. */
  lemma MissingDependencyWaitsOnFence(tasks: seq<TaskBase>, i: nat, j: nat)
    requires i < |tasks| && j < |tasks[i].inputs| && tasks[i].inputs[j] !in tasks
    ensures WaitsFor(tasks, i, |tasks|)
    ensures (forall k :: 0 <= k < |tasks| ==> tasks[i] !in tasks[k].inputs) ==> WaitsFor(tasks, |tasks|, i)
  {
    assert IndexOf(tasks, tasks[i].inputs[j]) == |tasks|;
    HasDepsMembers(tasks, |tasks|, tasks[i]);
  }

  // ---------------------------------------------------------------------
  // The fence waits, transitively, on every node.

  /** Node (or fence, position `|tasks|`) `a` waits for node `b` in the edges
      `submit` registers. */
  ghost predicate WaitsFor(tasks: seq<TaskBase>, a: nat, b: nat)
  {
    || (a < |tasks| && tasks[a].count > 0 &&
        exists j :: 0 <= j < |tasks[a].inputs| && IndexOf(tasks, tasks[a].inputs[j]) == b)
    || (a == |tasks| && b in LeafIndices(tasks, HasDeps(tasks, |tasks|), |tasks|))
  }

  /** Some `add_dependencies` call in `trace` makes `x` the only dependent and
      has `y` among its dependencies. */
  ghost predicate Registers(trace: seq<PoolCall>, x: nat, y: nat)
  {
    exists c :: c in trace && c.AddDependencies? && c.tasks == [x] && y in c.deps
  }

  lemma CallsForSingle(c: PoolCall, id: nat)
    ensures CallsFor([c], id) == if c.AddDependencies? && c.tasks == [id] then [c] else []
  {
    assert [c][1..] == [];
  }

  /** `CallsFor` keeps exactly the calls with `id` as the only dependent. */
  lemma {:induction false} CallsForMembers(calls: seq<PoolCall>, id: nat, c: PoolCall)
    ensures c in CallsFor(calls, id) <==> c in calls && c.AddDependencies? && c.tasks == [id]
    decreases |calls|
  {
    if calls != [] {
      CallsForMembers(calls[1..], id, c);
      assert calls == [calls[0]] + calls[1..];
    }
  }

  lemma RegistersByCallsFor(trace: seq<PoolCall>, x: nat, y: nat)
    ensures Registers(trace, x, y) <==> exists c :: c in CallsFor(trace, x) && c.AddDependencies? && y in c.deps
  {
    if Registers(trace, x, y) {
      var c :| c in trace && c.AddDependencies? && c.tasks == [x] && y in c.deps;
      CallsForMembers(trace, x, c);
    }
    if exists c :: c in CallsFor(trace, x) && c.AddDependencies? && y in c.deps {
      var c :| c in CallsFor(trace, x) && c.AddDependencies? && y in c.deps;
      CallsForMembers(trace, x, c);
    }
  }

  /** No node edge call has the fence as its dependent. */
  lemma {:induction false} FenceHasNoNodeCalls(tasks: seq<TaskBase>, ids: seq<nat>, n: nat)
    requires n <= |tasks| && |ids| == |tasks| + 1 && Distinct(ids)
    ensures NodeCalls(tasks, ids, n, ids[|tasks|]) == []
    decreases n
  {
    if n > 0 {
      FenceHasNoNodeCalls(tasks, ids, n - 1);
      CallsForAppend(EdgeCalls(tasks, ids, n - 1), OwnEdgeCall(tasks, ids, n - 1), ids[|tasks|]);
      assert ids[n - 1] != ids[|tasks|];
      if tasks[n - 1].count > 0 {
        CallsForSingle(OwnEdgeCall(tasks, ids, n - 1)[0], ids[|tasks|]);
      }
    }
  }

  /** The calls of the whole submission whose dependent is position `a`: a
      node's own edge call, or for the fence its call on the leaves. */
  lemma SubmitCallsFor(tasks: seq<TaskBase>, fence: TaskBase, ids: seq<nat>, a: nat)
    requires |ids| == |tasks| + 1 && Distinct(ids) && a <= |tasks|
    ensures CallsFor(SubmitTrace(tasks, fence, ids), ids[a]) ==
      if a < |tasks| then OwnEdgeCall(tasks, ids, a)
      else [AddDependencies([ids[|tasks|]], Leaves(tasks, ids))]
  {
    var head := [AddTasks(tasks + [fence], ids)];
    var edges := EdgeCalls(tasks, ids, |tasks|);
    var fd := AddDependencies([ids[|tasks|]], Leaves(tasks, ids));
    var rt := ReadyTasks(Roots(tasks, ids));
    assert SubmitTrace(tasks, fence, ids) == (head + edges) + ([fd] + [rt]);
    CallsForAppend(head + edges, [fd] + [rt], ids[a]);
    CallsForAppend(head, edges, ids[a]);
    CallsForAppend([fd], [rt], ids[a]);
    CallsForSingle(head[0], ids[a]);
    CallsForSingle(fd, ids[a]);
    CallsForSingle(rt, ids[a]);
    if a < |tasks| {
      assert ids[|tasks|] != ids[a];
      OneEdgeCallPerNode(tasks, ids, |tasks|, a);
    } else {
      FenceHasNoNodeCalls(tasks, ids, |tasks|);
    }
  }

  /** With distinct ids, a resolved input list holds the id of position `b`
      exactly when some input is found at `b`. */
  lemma InResolvedDeps(tasks: seq<TaskBase>, ids: seq<nat>, inputs: seq<TaskBase>, b: nat)
    requires |ids| == |tasks| + 1 && Distinct(ids) && b <= |tasks|
    ensures ids[b] in ResolveDeps(tasks, ids, inputs) <==>
      exists j :: 0 <= j < |inputs| && IndexOf(tasks, inputs[j]) == b
  {
    var r := ResolveDeps(tasks, ids, inputs);
    if ids[b] in r {
      var j :| 0 <= j < |r| && r[j] == ids[b];
      assert IndexOf(tasks, inputs[j]) == b;
    }
    if exists j :: 0 <= j < |inputs| && IndexOf(tasks, inputs[j]) == b {
      var j :| 0 <= j < |inputs| && IndexOf(tasks, inputs[j]) == b;
      assert r[j] == ids[b];
    }
  }

  /** With distinct ids, the leaves hold the id of position `b` exactly when
      `b` is a leaf position. */
  lemma InLeaves(tasks: seq<TaskBase>, ids: seq<nat>, b: nat)
    requires |ids| == |tasks| + 1 && Distinct(ids) && b <= |tasks|
    ensures ids[b] in Leaves(tasks, ids) <==> b in LeafIndices(tasks, HasDeps(tasks, |tasks|), |tasks|)
  {
    var idx := LeafIndices(tasks, HasDeps(tasks, |tasks|), |tasks|);
    var l := Leaves(tasks, ids);
    if ids[b] in l {
      var k :| 0 <= k < |l| && l[k] == ids[b];
      assert ids[idx[k]] == ids[b];
      assert idx[k] == b;
    }
    if b in idx {
      var k :| 0 <= k < |idx| && idx[k] == b;
      assert l[k] == ids[b];
    }
  }

  /** `WaitsFor` is exactly the edge relation of the calls `submit` makes:
      position `a` waits for position `b` when some `add_dependencies` call of
      the submission has `ids[a]` as its dependent and `ids[b]` among its
      dependencies. */
  lemma WaitsForIsRegistered(tasks: seq<TaskBase>, fence: TaskBase, ids: seq<nat>, a: nat, b: nat)
    requires |ids| == |tasks| + 1 && Distinct(ids) && a <= |tasks| && b <= |tasks|
    ensures WaitsFor(tasks, a, b) <==> Registers(SubmitTrace(tasks, fence, ids), ids[a], ids[b])
  {
    var st := SubmitTrace(tasks, fence, ids);
    SubmitCallsFor(tasks, fence, ids, a);
    RegistersByCallsFor(st, ids[a], ids[b]);
    if a < |tasks| {
      if tasks[a].count > 0 {
        InResolvedDeps(tasks, ids, tasks[a].inputs, b);
        var c := AddDependencies([ids[a]], ResolveDeps(tasks, ids, tasks[a].inputs));
        assert CallsFor(st, ids[a]) == [c];
      } else {
        assert CallsFor(st, ids[a]) == [];
      }
    } else {
      InLeaves(tasks, ids, b);
      assert CallsFor(st, ids[a]) == [AddDependencies([ids[|tasks|]], Leaves(tasks, ids))];
    }
  }

  ghost predicate IsWaitChain(tasks: seq<TaskBase>, path: seq<nat>)
  {
    |path| >= 1 && forall s :: 0 <= s < |path| - 1 ==> WaitsFor(tasks, path[s + 1], path[s])
  }

  ghost predicate NoDuplicates(tasks: seq<TaskBase>)
  {
    forall a, b :: 0 <= a < b < |tasks| ==> tasks[a] != tasks[b]
  }

  /** Every input is a node of the graph, and `rank` strictly increases from a
      dependency to its dependent (the graph is acyclic). */
  ghost predicate RankedClosed(tasks: seq<TaskBase>, rank: seq<nat>)
  {
    && |rank| == |tasks|
    && forall k, j :: 0 <= k < |tasks| && 0 <= j < |tasks[k].inputs| ==>
         tasks[k].inputs[j] in tasks && rank[IndexOf(tasks, tasks[k].inputs[j])] < rank[k]
  }

  function MaxOf(s: seq<nat>): (m: nat)
    ensures forall k :: 0 <= k < |s| ==> s[k] <= m
  {
    if s == [] then 0 else var m := MaxOf(s[1..]); if s[0] > m then s[0] else m
  }

  /** For a duplicate-free, closed, acyclic graph, every node starts a chain of
      registered edges that ends at the fence: the fence runs only after every
      node has run. */
  lemma {:induction false} FenceWaitsOnEveryNode(tasks: seq<TaskBase>, rank: seq<nat>, i: nat) returns (path: seq<nat>)
    requires NoDuplicates(tasks) && RankedClosed(tasks, rank) && i < |tasks|
    ensures IsWaitChain(tasks, path) && path[0] == i && path[|path| - 1] == |tasks|
    decreases MaxOf(rank) - rank[i]
  {
    var hd := HasDeps(tasks, |tasks|);
    HasDepsMembers(tasks, |tasks|, tasks[i]);
    if tasks[i] !in hd {
      path := [i, |tasks|];
      assert WaitsFor(tasks, |tasks|, i);
    } else {
      var k :| 0 <= k < |tasks| && tasks[i] in tasks[k].inputs;
      var j :| 0 <= j < |tasks[k].inputs| && tasks[k].inputs[j] == tasks[i];
      assert IndexOf(tasks, tasks[i]) == i;
      assert WaitsFor(tasks, k, i);
      var rest := FenceWaitsOnEveryNode(tasks, rank, k);
      path := [i] + rest;
      ChainCons(tasks, i, rest);
    }
  }

  /** A wait chain extended at its start by a node its first element waits for. */
  lemma ChainCons(tasks: seq<TaskBase>, i: nat, rest: seq<nat>)
    requires IsWaitChain(tasks, rest) && WaitsFor(tasks, rest[0], i)
    ensures IsWaitChain(tasks, [i] + rest)
  {
    var path := [i] + rest;
    forall s | 0 <= s < |path| - 1
      ensures WaitsFor(tasks, path[s + 1], path[s])
    {
      if s > 0 {
        assert path[s] == rest[s - 1] && path[s + 1] == rest[s];
      }
    }
  }
}
