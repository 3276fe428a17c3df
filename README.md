# Task graph submission and stack arena, in Dafny

This project models the core of a small C++ task-graph library. A caller
builds task nodes, each holding pointers to the nodes it depends on, and
groups them into a `TaskGraph`. `TaskGraph::submit` turns that graph into
calls on an external work scheduler:

- register every node plus a completion fence with `add_tasks`;
- register each node's dependency edges with `add_dependencies`;
- make the fence depend on every leaf (a node no other node depends on);
- release the roots (nodes without dependencies) with `ready_tasks`.

Four of the scratch containers of `submit` live in a bump allocator over a
stack buffer, `StackArena`, which falls back to an aligned heap allocation
when a request does not fit: the vectors `ids`, `roots` and `leaves` and the
set `has_deps`. The per-node dependency list `deps` is a plain
`std::vector` with the default allocator. `StackAllocator` is the standard-library allocator
adaptor over it.

Modules, in dependency order:

- `Bits` (bits.dfy): 64-bit words, unsigned subtraction, bitwise AND on naturals, powers of two, and the facts that `x & (a - 1) == x % a` and `a & (a - 1) == 0` tests for a power of two.
- `StackAlloc` (stack_allocator.dfy): `align_ptr` with the source's word arithmetic, the placement decision of `allocate`, the fallback heap, and the classes `StackArena` (its cursor `ptr` is updated in place) and `StackAllocator`.
- `ArenaProperties` (arena_properties.dfy): sequences of requests (no overlap, usage bounds) and the three findings below.
- `TaskNodes` (task_nodes.dfy): `TaskBase` and the `Task<...>` constructors, `TaskGraphFence`, and the scheduler interface. The scheduler is modelled as an object that records each call and hands out consecutive ids.
- `SubmissionSpec` (submission_spec.dfy): what `submit` computes, as functions of the node sequence and the ids. This covers first-occurrence lookup, roots, `has_deps`, leaves, the edge calls and the complete call trace, and the lemmas about them.
- `TaskGraphs` (task_graph.dfy): the `TaskGraph` class with its two constructors, and `Submit` written as the source's loops. `Submit` is proved to make exactly the calls `SubmitTrace` describes and to leave `tasks` as it was.
- `Demo` (demo.dfy): the graph of main.cpp (`a`, `b`, `c(a, b)`, `d(a, a)`, `e(c, d)`), with the exact calls `submit` makes for it.

Nodes are Dafny objects: pointer identity in the source is object identity
here, and `std::find` over node pointers is a search by object identity. A
node's `inputs` are fixed at construction time (a `const` field), as in the
source, where only the constructors assign them. The arena's addresses are
naturals below 2^64. The buffer is `[base, base + N)` with `base` a
multiple of `Alignment`. The fallback heap hands out addresses above the
buffer's one-past-the-end address.

A dependency that is not one of the graph's own nodes is meant to be a
contract violation, but `submit` does not check for it:
`std::find` returns the end position, and since `ids` still has
`tasks.size() + 1` entries at that point, the dependency resolves to the
fence's id. The model follows the code (`MissingDependencyResolvesToFence`).
`MissingDependencyWaitsOnFence` shows the consequence: such a node waits on
the fence, and if nothing depends on it, the fence also waits on it.

The arena has two decisions in two versions each. `PlaceAsWritten` and
`OwnsAsWritten` are the source as written, and the findings below are
stated about them. `Place` and `StackArena.Owns` are the corrected
versions: a wrapping alignment adjustment goes to the fallback, and
`base + N` counts as owned. Everything else about the arena is about the
corrected versions. This covers `PlaceBounds`, `PlaceInArena`,
`CursorAdvances`, `FreshArenaPlacesAtBase`, `ArenaOwnership`, the
`StackArena` and `StackAllocator` methods, and `Serve` with
`ServeDisjoint`, `ServeUsage` and `ServeUsedExactly`.

## Model

| member | source | states |
|---|---|---|
| Bits.WordSub | stack_allocator.h:80-81 | unsigned subtraction in a 64-bit word: the plain difference when no borrow is needed, otherwise the difference plus 2^64 |
| Bits.AndLowMask | stack_allocator.h:80 | for a power of two `a`, `x & (a - 1)` is `x % a` |
| Bits.PowerOfTwoTest | stack_allocator.h:26-36 | for non-zero `a`, `(a & (a - 1)) == 0` holds exactly when `a` is a power of two |
| StackAlloc.AlignPtr | stack_allocator.h:77-83 | `align_ptr`: the source's three word operations step by step, `misalign = p & (a - 1)`, `adjust = (a - misalign) & (a - 1)`, and `p + adjust` modulo 2^64 (its properties are the lemmas below) |
| StackAlloc.AlignmentAsserted | stack_allocator.h:36 | the runtime check `(alignment & (alignment - 1)) == 0` of `allocate` |
| StackAlloc.AlignPtrValue | stack_allocator.h:77-83 | for a power-of-two alignment, `align_ptr(p, a)` is `p + (a - p % a) % a` reduced modulo 2^64 |
| StackAlloc.AlignPtrFacts | stack_allocator.h:77-83 | the result is `a`-aligned and less than `a` above `p`; it lies below `p` exactly when `p` is unaligned within `a` of 2^64, and then it is 0 |
| StackAlloc.AlignPtrIsLeast | stack_allocator.h:77-83 | when it does not wrap, `align_ptr(p, a)` is the least `a`-aligned address at or above `p` |
| StackAlloc.AlignPtrOfAligned | stack_allocator.h:77-83 | an address that is already aligned is returned unchanged |
| StackAlloc.PlaceAsWritten | stack_allocator.h:38-53 | `allocate`'s decision as written: align the cursor, fall back when `n` does not fit above the aligned address in a word, serve from the buffer when the block ends at or before its end, and fall back otherwise |
| StackAlloc.Place | stack_allocator.h:38-53 | the corrected decision: as written, except that an alignment adjustment that wraps past 2^64 also falls back |
| StackAlloc.PlaceBounds | stack_allocator.h:38-51 | a request served from the buffer gets an aligned block inside the buffer, at most `alignment - 1` past the cursor |
| StackAlloc.PlaceInArena | stack_allocator.h:38-51 | a request is served from the buffer exactly when some aligned block at or after the cursor fits before the buffer's end |
| StackAlloc.CursorAdvances | stack_allocator.h:42-53 | serving a request never moves the cursor backwards or past the buffer's end, and moves it only when the buffer serves the request |
| StackAlloc.FreshArenaPlacesAtBase | stack_allocator.h:30-51 | on a fresh or reset arena, a request that fits, with alignment at most the buffer's `Alignment`, is placed at the start of the buffer |
| StackAlloc.ArenaOwnership | stack_allocator.h:47-75 | a block the buffer serves is owned by the arena (with `owns` corrected as in the findings); a fallback address is not |
| StackAlloc.OwnsAsWritten | stack_allocator.h:70-75 | `owns` as written: `base <= p < base + N` |
| StackAlloc.OverflowGuard | stack_allocator.h:113 | `n > size_t(-1) / s` holds exactly when `n * s` does not fit in a word |
| StackAlloc.FallbackHeap.Alloc | stack_allocator.h:11 | `fallback_alloc`: returns an address outside the buffer and records the call |
| StackAlloc.FallbackHeap.Free | stack_allocator.h:12 | `fallback_free`: records the call |
| StackAlloc.StackArena.constructor | stack_allocator.h:30 | the cursor starts at the aligned buffer, so `used() == 0` |
| StackAlloc.StackArena.Allocate | stack_allocator.h:34-54 | with the corrected placement decision (an alignment adjustment that wraps past 2^64 goes to the fallback), in the buffer: returns the aligned address, advances the cursor to the block's end and makes no heap call; otherwise: returns a fallback address, leaves the cursor, and makes exactly one `fallback_alloc(n, alignment)` call; `base <= ptr <= base + N` is kept and the cursor never moves back |
| StackAlloc.StackArena.Owns | stack_allocator.h:70-75 | the corrected `owns`: the source's test `base <= p < base + N`, extended to the one-past-the-end address `base + N` |
| StackAlloc.StackArena.Deallocate | stack_allocator.h:57-61 | leaves the cursor alone; calls `fallback_free(p)` exactly when the corrected `Owns` rejects `p` |
| StackAlloc.StackArena.Reset | stack_allocator.h:63 | rewinds the cursor to the buffer's start, so `used() == 0` |
| StackAlloc.StackArena.Used | stack_allocator.h:65-66 | `used()` never exceeds `capacity()` |
| StackAlloc.StackArena.Capacity | stack_allocator.h:66 | `capacity()`: the buffer size `N` |
| StackAlloc.StackAllocator.constructor | stack_allocator.h:104-105 | the allocator refers to the given arena |
| StackAlloc.StackAllocator.FromOther | stack_allocator.h:107-109 | the converting constructor from an allocator for another element type: the copy refers to the same arena |
| StackAlloc.StackAllocator.Allocate | stack_allocator.h:111-117 | `bad_alloc` exactly when `n * sizeof(T)` overflows, with no other effect; otherwise exactly the arena's `allocate(n * sizeof(T), alignof(T))` |
| StackAlloc.StackAllocator.Deallocate | stack_allocator.h:119-122 | forwards to the arena: `fallback_free(p)` exactly when the arena's corrected `Owns` rejects `p` |
| StackAlloc.StackAllocator.Equals | stack_allocator.h:124-128 | `operator==`: the two allocators refer to the same arena |
| StackAlloc.StackAllocator.NotEquals | stack_allocator.h:124-134 | `!=` is the negation of `==`, which compares the arenas |
| ArenaProperties.Serve | stack_allocator.h:34-54 | over successive `allocate` calls, the cursor stays inside the buffer and never moves back, and every block from the buffer lies between the first and the last cursor |
| ArenaProperties.ServeDisjoint | stack_allocator.h:45-51 | blocks served from the buffer by successive calls never overlap: for any two of them, the earlier one ends at or before the later one begins |
| ArenaProperties.ServeUsage | stack_allocator.h:45-65 | the growth of `used()` over successive calls is at least the bytes the buffer served and at most those bytes plus `alignment - 1` per call it served |
| ArenaProperties.ServeUsedExactly | stack_allocator.h:45-65 | the growth of `used()` over successive calls is exactly the bytes the buffer served plus the alignment padding in front of each served block |
| ArenaProperties.AlignmentWrapEscapesBuffer | stack_allocator.h:38-83 | as written, a buffer just below 2^64 with cursor `base + 16`, asked for 1 byte at alignment 8192, returns address 0 and moves the cursor below the buffer; the corrected decision uses the fallback |
| ArenaProperties.ZeroAlignmentAlignsToNull | stack_allocator.h:77-83 | alignment 0 passes the runtime check, and `align_ptr(p, 0)` is 0 for every `p` |
| ArenaProperties.ZeroAlignmentServesNull | stack_allocator.h:36-51 | as written, an alignment-0 request of `n <= base + N` bytes is served at address 0 |
| ArenaProperties.AssertedAlignmentIsPow2 | stack_allocator.h:36 | for non-zero alignments the runtime check accepts exactly the powers of two |
| ArenaProperties.ZeroByteBlockNotOwnedAsWritten | stack_allocator.h:45-75 | a 0-byte request on a full arena is served at `base + N`, which `owns` as written rejects |
| TaskNodes.TaskBase.constructor | task_graph.h:23 | a default node, and so `Task<>`, has no inputs and `count == 0` |
| TaskNodes.TaskBase.WithInputs | task_graph.h:56-67 | `Task<T1..Tk>(d1..dk)` has `count == k` and `inputs[i] == d(i+1)`, with order and repeats kept |
| TaskNodes.TaskGraphFence.constructor | task_graph.h:28-30 | a new fence has no inputs and `signal == 0` |
| TaskNodes.TaskGraphFence.Execute | task_graph.h:31 | running the fence adds 1 to `signal`, wrapping at 2^32 |
| TaskNodes.ThreadPool.AddTasks | task_graph.h:12 | one fresh id per node, in order, and the call is recorded |
| TaskNodes.ThreadPool.AddDependencies | task_graph.h:13 | the call is recorded with its arguments |
| TaskNodes.ThreadPool.ReadyTasks | task_graph.h:14 | the call is recorded with its argument |
| SubmissionSpec.IndexOf | task_graph.cpp:40-41 | `std::find` as a distance: the first position holding the node, or the end exactly when the node is absent |
| SubmissionSpec.IndexOfIsFirstMatch | task_graph.cpp:40-41 | a position preceded only by other nodes, and holding the node or at the end, is the position `std::find` gives |
| SubmissionSpec.RootIndices | task_graph.cpp:29-35 | the positions collected as roots are exactly those of nodes with `count == 0`, increasing |
| SubmissionSpec.HasDeps | task_graph.cpp:28-46 | every input of every node visited is in `has_deps` |
| SubmissionSpec.HasDepsMembers | task_graph.cpp:28-46 | `has_deps` holds exactly the nodes that some visited node names as an input |
| SubmissionSpec.LeafIndices | task_graph.cpp:53-57 | the positions collected as leaves are exactly those of nodes not in `has_deps`, increasing |
| SubmissionSpec.IdRangeDistinct | task_graph.h:12 | the ids the modelled scheduler gives out are distinct |
| SubmissionSpec.RootsAreZeroDependencyNodes | task_graph.cpp:29-62 | with distinct ids, `ready_tasks` gets the id of a node exactly when it has no dependencies, and never the fence's id |
| SubmissionSpec.LeavesAreUnreferencedNodes | task_graph.cpp:53-60 | with distinct ids, the fence waits on a node's id exactly when no node names that node as an input, and never on its own id |
| SubmissionSpec.MissingDependencyResolvesToFence | task_graph.cpp:17-42 | an input that is not among the nodes resolves to `ids[tasks.size()]`, the fence's id |
| SubmissionSpec.PresentDependencyResolvesToNode | task_graph.cpp:39-43 | an input that is among the nodes resolves to the id of its first occurrence, never the fence's |
| SubmissionSpec.OneEdgeCallPerNode | task_graph.cpp:37-50 | with distinct ids, the edge calls registered for the first `n` nodes with node `i` as dependent are exactly node `i`'s own call when `i < n`, and none otherwise; a node's own call waits on its resolved inputs in order with repeats kept, and a root has none |
| SubmissionSpec.EdgeCallOwner | task_graph.cpp:29-51 | every edge call from the node loop belongs to one node with inputs, which is its only dependent |
| SubmissionSpec.SubmitTrace | task_graph.cpp:17-62 | every call `submit` makes, in order: `add_tasks` on the nodes and the fence, each node's edge call, the fence's call on the leaves, and `ready_tasks` on the roots (its properties are the lemmas around it) |
| SubmissionSpec.SubmitCallOrder | task_graph.cpp:17-62 | `add_tasks` on the nodes followed by the fence comes first; then only node edge calls; then the fence's call on the leaves; `ready_tasks` on the roots comes last |
| SubmissionSpec.MissingDependencyWaitsOnFence | task_graph.cpp:39-60 | a node with an input outside the graph waits on the fence; if no node depends on it, the fence waits on it too, so the registered edges form a cycle |
| SubmissionSpec.WaitsForIsRegistered | task_graph.cpp:29-60 | with distinct ids, position `a` waits for position `b` exactly when some `add_dependencies` call of the submission has `ids[a]` as its only dependent and `ids[b]` among its dependencies |
| SubmissionSpec.FenceWaitsOnEveryNode | task_graph.cpp:29-60 | in a duplicate-free acyclic graph whose inputs are all nodes of the graph, every node starts a chain of registered edges ending at the fence, so the fence cannot run before any node |
| TaskGraphs.Find | task_graph.cpp:40-41 | the linear scan returns the position `std::find` gives |
| TaskGraphs.ResolveInputs | task_graph.cpp:37-46 | the inner loop yields the ids of the node's inputs, in order with repeats, and adds all of its inputs to `has_deps` |
| TaskGraphs.CollectLeaves | task_graph.cpp:53-57 | the leaf loop yields, in node order, the ids of the nodes not in `has_deps` |
| SubmissionSpec.LeafIdsStep | task_graph.cpp:55-57 | visiting node `i` appends its id to the leaves exactly when it is not in `has_deps`, and leaves them unchanged otherwise |
| SubmissionSpec.CallsForAppend | task_graph.cpp:48-50 | selecting the edge calls of one dependent distributes over concatenation of call sequences |
| TaskGraphs.TaskGraph.constructor | task_graph.h:39-45 | `TaskGraph(t1..tn)` holds exactly `[t1..tn]`, in order, and a new fence that is not among them |
| TaskGraphs.TaskGraph.FromVector | task_graph.h:47 | `TaskGraph(ts)` holds exactly `ts` and a new fence |
| TaskGraphs.NodeLoopStep | task_graph.cpp:30-50 | visiting a root appends its id to the roots and changes nothing else; visiting a node with inputs leaves the roots, adds its inputs to `has_deps` and appends one edge call on its resolved inputs |
| TaskGraphs.RegisterNode | task_graph.cpp:30-50 | one pass of the node loop moves the roots, `has_deps` and the scheduler's trace from their state after `i` nodes to their state after `i + 1`, and hands out no ids |
| TaskGraphs.TaskGraph.RegisterEdges | task_graph.cpp:25-51 | the node loop yields the roots and `has_deps` and makes exactly the nodes' edge calls, in node order |
| TaskGraphs.TaskGraph.Submit | task_graph.cpp:13-63 | `tasks` is unchanged afterwards; the scheduler receives exactly the calls of `SubmitTrace` for the ids it handed out, `tasks.size() + 1` of them, the fence's last |
| Demo.DemoRoots | main.cpp:207-213 | for the demo graph the roots are `a` and `b` |
| Demo.DemoHasDeps | main.cpp:207-213 | for the demo graph `has_deps` is `{a, b, c, d}` |
| Demo.DemoLeaves | main.cpp:207-213 | for the demo graph the only leaf is `e` |
| Demo.DemoEdges | main.cpp:207-213 | for the demo graph the edge calls are `c` on `a, b`, `d` on `a, a` and `e` on `c, d` |
| Demo.DemoTrace | main.cpp:207-214 | the complete call sequence for the demo graph with ids 0 to 5: the fence waits only on `e`, and `a`, `b` are released |
| Demo.DemoSubmission | main.cpp:207-214 | building the demo graph with the constructors and submitting it to a fresh scheduler makes exactly those calls |

## Left out

- `TaskGraph::wait` (task_graph.cpp:65-70): an unbounded spin on `signal` that calls `do_work` on the external scheduler, and `yield` when it found no work; whether it ends depends on other threads, so it has no terminating model here.
- `do_work` and `yield` of the scheduler interface: they are only used by `wait`.
- The scheduler itself (main.cpp's thread pool and the Bikeshed library it wraps) is not part of this model. The modelled scheduler hands out consecutive ids and records the calls. The lemmas about roots and leaves need only distinct ids.
- Execution order and happens-before between nodes: the scheduler enforces them. `FenceWaitsOnEveryNode` covers only the edges `submit` registers.
- Atomic memory ordering of the fence's `signal`: `signal` is a plain counter modulo 2^32.
- Scheduler ids are naturals, not `uint32_t`. The `unsigned` loop counters and node counts of `submit` are unbounded as well, so graphs with 2^32 or more nodes are not modelled.
- Capacity limits (maximum live tasks and edges) belong to the scheduler; `submit` does not check them, and neither does the model.
- That `submit` keeps `ids`, `roots`, `leaves` and `has_deps` in a `StackArena<4096>` (while `deps` uses the default allocator): it changes where the memory lives, not which calls are made. The arena is modelled on its own.
- `std::tuple<Ts&...> in` and `input<N>()` (task_graph.h:58, 69-70): typed access to the inputs, with no behaviour to state.
- Node bodies (`operator()` of user tasks) and main.cpp's printing and OS plumbing.
- `StackAlloc.FallbackHeap.Alloc`: stack_allocator.cpp's `_aligned_malloc` wrapper is modelled as an allocator that always succeeds and returns an address above the buffer. A failed allocation (null) and the heap's real placement are not modelled.
- `StackAlloc.StackArena.Allocate` takes the corrected placement decision `Place`: where the source serves address 0 and moves the cursor below the buffer because the alignment adjustment wrapped past 2^64, the model uses the fallback (first row of Findings).
- `StackAlloc.StackArena.Deallocate` tests the corrected `Owns`, which accepts `base + N`: for that address the source's `owns` fails and `deallocate` calls `fallback_free`, while the model makes no call (third row of Findings).
- `StackAlloc.StackAllocator.Deallocate` forwards to the arena's corrected `Owns` and so shares the difference above for `base + N`.
- `StackAlloc.StackArena.Allocate` requires a power-of-two alignment, which is stricter than the runtime check of the source. The check also admits 0 (see Findings); in builds with assertions enabled, the source marks every other alignment as an error; without them, any alignment goes straight into `align_ptr`.
- `StackArena`'s deleted copy operations and `StackAllocator`'s nested `rebind` struct and `propagate_on_*` typedefs are compile-time declarations with no behaviour to state.
- The data-parallel slicing helper and the function-wrapping node type do not appear in the modelled source files and are not part of this model.

## Findings

| source | as written | input that shows it | evidently intended | confidence | as-written member | corrected member |
|---|---|---|---|---|---|---|
| stack_allocator.h:38-83 | the overflow check covers only `aligned + n`, not the `adjust` added inside `align_ptr`, which can wrap past 2^64 to address 0 | buffer at `2^64 - 8192` of 4096 bytes, cursor `base + 16`, `allocate(1, 8192)`: returns 0 and sets the cursor to 1, below the buffer | an adjustment that wraps is treated like an overflow and falls back to the heap | not executed; low (needs a buffer within one alignment of the top of the address space) | ArenaProperties.AlignmentWrapEscapesBuffer | StackAlloc.PlaceBounds |
| stack_allocator.h:36-83 | the check `(alignment & (alignment - 1)) == 0` accepts alignment 0, and `align_ptr(p, 0)` is 0 | `allocate(8, 0)` with the buffer's end above 8: returns the null address as a block | only non-zero powers of two are accepted, as the class-level `static_assert`s require of `Alignment` | not executed; medium | ArenaProperties.ZeroAlignmentServesNull | StackAlloc.StackArena.Allocate |
| stack_allocator.h:45-75 | `allocate(0, 1)` on a full arena returns `buffer + N`, which `owns` rejects, so `deallocate` passes a buffer address to `fallback_free` | a full arena, `allocate(0, 1)` then `deallocate` of the result | `owns` accepts every address `allocate` hands out from the buffer, including the one-past-the-end address of a 0-byte block | not executed; medium | ArenaProperties.ZeroByteBlockNotOwnedAsWritten | StackAlloc.ArenaOwnership |
