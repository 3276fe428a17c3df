/** The data model of task_graph.h: task nodes, the graph's fence, and the
    scheduler interface `ThreadPoolInterface`, modelled as a recorder of the
    calls made on it. A node is an object: pointer identity is object identity. */
module TaskNodes {

  /** `TaskBase`: the node's dependency pointers (`inputs[0..count)`), fixed
      when the node is constructed. */
  class TaskBase {
    const inputs: seq<TaskBase>
    const count: nat := |inputs|

    /** `TaskBase()`, and so `Task<>()`: null `inputs`, `count == 0`. */
    constructor ()
      ensures inputs == [] && count == 0
    {
      inputs := [];
    }

    /** `Task<T1..Tk>(d1..dk)`: `storage[i++] = &d` for each argument in turn,
        then `inputs = storage` and `count = NUM_DEPS`. Order and repeats are
        preserved. */
    constructor WithInputs(deps: seq<TaskBase>)
      ensures inputs == deps && count == |deps|
      ensures forall i :: 0 <= i < count ==> inputs[i] == deps[i]
    {
      var storage: seq<TaskBase> := [];
      var i := 0;
      while i < |deps|
        invariant i <= |deps| && storage == deps[..i]
      {
        storage := storage + [deps[i]];
        i := i + 1;
      }
      inputs := storage;
    }
  }

  /** `std::atomic<uint32_t>` holds values below 2^32. */
  const SignalModulus: nat := 0x1_0000_0000
  type Uint32 = x: nat | x < SignalModulus

  /** `TaskGraphFence`: a node without inputs (its `TaskBase` part) whose
      execution increments `signal`. */
  class TaskGraphFence {
    const node: TaskBase
    var signal: Uint32

    constructor ()
      ensures fresh(node) && node.inputs == [] && signal == 0
    {
      node := new TaskBase();
      signal := 0;
    }

    /** `operator()`: `signal.fetch_add(1)`, wrapping at 2^32. */
    method Execute()
      modifies this
      ensures signal == (old(signal) + 1) % SignalModulus
      ensures old(signal) + 1 < SignalModulus ==> signal == old(signal) + 1
    {
      signal := (signal + 1) % SignalModulus;
    }
  }

  /** A call made on the scheduler, with its arguments; `AddTasks` also records
      the ids it gave out. */
  datatype PoolCall =
    | AddTasks(nodes: seq<TaskBase>, ids: seq<nat>)
    | AddDependencies(tasks: seq<nat>, deps: seq<nat>)
    | ReadyTasks(tasks: seq<nat>)

  /** `n` consecutive ids starting at `start`. */
  function IdRange(start: nat, n: nat): seq<nat>
  {
    seq(n, k => start + k)
  }

  /** The scheduler as seen by the task graph: it gives out fresh ids and
      records every call in order. */
  class ThreadPool {
    var trace: seq<PoolCall>
    var nextId: nat

    constructor ()
      ensures trace == [] && nextId == 0
    {
      trace := [];
      nextId := 0;
    }

    /** `add_tasks(tasks, num_tasks, out_task_ids)`: one fresh id per node, in order. */
    method AddTasks(tasks: seq<TaskBase>) returns (ids: seq<nat>)
      modifies this
      ensures ids == IdRange(old(nextId), |tasks|)
      ensures nextId == old(nextId) + |tasks|
      ensures trace == old(trace) + [PoolCall.AddTasks(tasks, ids)]
    {
      ids := IdRange(nextId, |tasks|);
      nextId := nextId + |tasks|;
      trace := trace + [PoolCall.AddTasks(tasks, ids)];
    }

    /** `add_dependencies(tasks, num_tasks, dependencies, num_dependencies)`. */
    method AddDependencies(tasks: seq<nat>, deps: seq<nat>)
      modifies this
      ensures nextId == old(nextId)
      ensures trace == old(trace) + [PoolCall.AddDependencies(tasks, deps)]
    {
      trace := trace + [PoolCall.AddDependencies(tasks, deps)];
    }

    /** `ready_tasks(tasks, num_tasks)`. */
    method ReadyTasks(tasks: seq<nat>)
      modifies this
      ensures nextId == old(nextId)
      ensures trace == old(trace) + [PoolCall.ReadyTasks(tasks)]
    {
      trace := trace + [PoolCall.ReadyTasks(tasks)];
    }
  }
}
