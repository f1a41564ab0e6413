# Locality benchmark builders, modelled in Dafny

The benchmark in `itertest.c` compares how fast it is to write every element
of a linked list and of an array of the same size. This project models the
part of it that builds and writes those structures.

- `doit_list` first fills a pool of `POOLSIZE` (32) nodes.
- It then builds a list of `size` nodes. Each step:
  - takes the node in a randomly drawn pool slot;
  - gives that node a freshly allocated value cell;
  - prepends it to the list;
  - refills the slot with a fresh node.
- It then runs `ITERS` (20) trials. Each trial walks the list by `next` and
  stores the trial index in every node's cell.
- `doit_array` allocates a zero-filled buffer of `size` integers. It then runs
  `ITERS` trials, each storing the trial index in every element.

There are two modules.

- `PoolArena` (`pool_arena.dfy`) is a pure reference model of the pool.
  - Every node is named by its allocation number. The first pool nodes are
    0 .. 31, and the node that refills the pool at build step t is 32 + t.
  - `PoolAfter` says which node sits in each slot after a sequence of draws.
  - `ListAfter` says which nodes make up the list, head first.
  - Its lemmas prove the following:
    - allocation numbers stay in range;
    - pool and list never share a node, and neither repeats one;
    - no node is lost;
    - a slot still holds its first node exactly when no draw has chosen it.
- `IterTest` (`itertest.dfy`) is the imperative model. It has:
  - heap classes `Cell` (the `int *val` a node owns) and `Node`;
  - the pool as an array of node references.
  - Ghost sequences record the list's nodes (`spine`), their cells (`cells`)
    and every node in allocation order (`arena`). The predicate `Tracks`
    ties the heap to `PoolAfter` and `ListAfter`.

The random draws are an input: `rolls` holds the values `rand()` returned, one
per build step. The C functions return the mean trial time. The model returns
the built structure instead, so its final state can be stated.

## Model

| member | source | states |
|---|---|---|
| PoolArena.Slot | itertest.c:105 | the chosen pool index is always below POOLSIZE, so the pool access is in bounds |
| PoolArena.PoolAfter | itertest.c:96-99 | the pool holds exactly POOLSIZE nodes after any number of build steps |
| PoolArena.ListAfter | itertest.c:101-116 | after one step per draw the list holds exactly as many nodes as there were steps |
| PoolArena.KeepsOrder | itertest.c:110-111 | whatever draws follow, the nodes already on the list stay at its tail in the same order: later steps only put nodes in front of them |
| PoolArena.Bounded | itertest.c:98-115 | after n steps every node in the pool or on the list is one of the POOLSIZE + n nodes allocated so far |
| PoolArena.Disjoint | itertest.c:106-115 | no node is in two slots, none is on the list twice, and no pool node is on the list |
| PoolArena.Conservation | itertest.c:106-115 | every node allocated so far is in the pool or on the list |
| PoolArena.SlotUntouched | itertest.c:105-115 | a slot still holds the node it was first filled with if and only if no draw chose it |
| IterTest.Cell.constructor | itertest.c:109 | a new value cell holds zero, because the allocator zero-fills |
| IterTest.Node.constructor | itertest.c:98 | a new node has null `val` and `next`, because the allocator zero-fills |
| IterTest.ChosenIsFree | itertest.c:105-106 | the node in the drawn slot is in no other slot and is not yet on the list |
| IterTest.TracksStep | itertest.c:105-115 | a build step on the heap keeps the pool and list equal to the reference model's PoolAfter and ListAfter |
| IterTest.PoolNotOnList | itertest.c:106-115 | no node waiting in the pool is on the list |
| IterTest.NoneLost | itertest.c:98-115 | every allocated node is still in a pool slot or on the list |
| IterTest.LinkedTail | itertest.c:110-111 | the chain from a node's `next` is the rest of the list |
| IterTest.SpineDetermined | itertest.c:121-126 | the list reachable from `head` is unique, so its node sequence and length are fixed by the heap |
| IterTest.Prepend | itertest.c:109-111 | linking a node with a new cell in front of a well-formed list gives a well-formed list one longer, with distinct nodes and unshared cells |
| IterTest.NewPool | itertest.c:96-99 | the pool is filled with POOLSIZE distinct fresh nodes, each unlinked and without a cell |
| IterTest.TakeFromPool | itertest.c:105-115 | the new head is the chosen slot's node, now with a fresh zeroed cell and linked to the old head. The old list follows it, and no existing cell is changed. The chosen slot gets a fresh node and every other slot is unchanged |
| IterTest.BuildList | itertest.c:101-116 | after `size` steps the list has exactly `size` distinct nodes with distinct fresh cells, each holding 0. Pool and list match the reference model, with the first pool's nodes at the start of the allocation order and every later node fresh. No pool node is on the list, and every slot holds its first node or a fresh one |
| IterTest.WriteListTrial | itertest.c:121-126 | the walk by `next` ends after exactly one visit per list node. Afterwards every node's value is the trial index and the list's shape is unchanged |
| IterTest.DoitList | itertest.c:68-129 | the list has `size` distinct fresh nodes with distinct fresh cells, `head` is null iff `size` is 0, and after the trials every value is ITERS - 1. The order of the nodes is the one BuildList states |
| IterTest.NewBuffer | itertest.c:160 | the buffer has `size` elements, all zero |
| IterTest.WriteArrayTrial | itertest.c:166-168 | every element of the buffer equals the trial index, and nothing outside the buffer is written |
| IterTest.DoitArray | itertest.c:154-171 | the buffer is freshly allocated, and after the trials every one of its `size` elements equals ITERS - 1 |

## Left out

- Timing is not modelled. This covers `clock_gettime`, `diff_timespec` and averaging the `results` array into the returned mean (itertest.c:31-33, 122, 127-128, 143-149, 165, 169-180). These are clock reads and floating-point arithmetic.
- The failure path of `xmalloc` is not modelled: printing to stderr and exiting when `calloc` returns null (itertest.c:43-46). Allocation is Dafny's `new`, which does not fail.
- The `free` loops at the end of both benchmarks (itertest.c:131-141, 172) are not modelled, because Dafny memory is managed.
- `rand()` is a library call with hidden state. Its results are the `rolls` input, each a non-negative number, reduced modulo POOLSIZE as in the source.
- `main`, `usage` and the progress messages on stderr (itertest.c:120, 164, 183 onwards) are process I/O.
- sharing.c and sharing_fixed.c (threaded counter contention) are not part of this model. Their behaviour is threads and wall-clock timing.
- read_a_string.c is not part of this model. It is a printing demo unrelated to the benchmark.
- IterTest.WriteListTrial: the trial index is an unbounded integer. The source stores a `uint64_t` into an `int`, which truncates, but the indices never exceed ITERS - 1.
- IterTest.NewBuffer: `size * sizeof(int)` could overflow 64 bits for huge sizes. The model allocates exactly `size` elements.
