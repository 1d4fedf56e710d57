# Verified core of a small i386 kernel

A Dafny model of the data structures that the kernel's scheduler and memory management rest on, with proofs that
hold for every state and every run:

- the red-black tree with parent links (`lib/rbtree.c`) and the fair scheduler that keeps the run queue in it
  (`kernel/sched.c`, `kernel/sched_fair.c`, `kernel/clock.c`, `kernel/fork.c`, `kernel/exit.c`, the task loops of
  `init/main.c`);
- the height-balanced tree of memory areas, the search in it and the merging of areas (`mm/mmap.c`);
- the radix tree (`lib/radix-tree.c`);
- the buddy page allocator (`mm/page_alloc.c`, `mm/buddy.c`, the page loop of `mm/memory.c`), the slab free chains
  (`mm/slab.c`) and the linked lists under both (`lib/list.c`).

`dafny verify dfyconfig.toml` checks the whole project.

## How it is built

Records that the kernel links into trees are heap objects here, and every operation rewrites their fields as the C
code does. A ghost *shape* says which tree those fields form; a *context* is the same shape with one subtree missing,
and stands for the path from the root to the place where the code is working (`Zipper`). `Holds` (`RbMemory`,
`AvlMemory`) ties shape and fields together, parent links and stored heights included. Each low-level step is proved to
turn one shape into another; what the shapes mean (balance, order, contents) is proved about the shapes alone
(`RbBalance`, `AvlBalance`).

| files | contents |
|---|---|
| `Words`, `Zipper` | 32-bit words, pages, shifts; shapes, contexts and their order |
| `RbMemory`, `RbBalance`, `RbTree`, `RbWalk` | red-black tree: links, balance, operations, in-order steps |
| `CfsQueue`, `CfsClock` | the run queue as a state machine: invariant, runs, bounded waiting; the same with the clock's own rhythm |
| `SchedFair`, `SchedFork`, `Sched` | keyed search and insertion, the fork case, the scheduler on the real tree |
| `AvlMemory`, `AvlBalance`, `AvlTree`, `AvlCheck`, `AddressMap`, `Mmap` | areas: links, balance, operations, the kernel's own checks, address map, search and merging |
| `RadixShape`, `RadixTree` | radix tree as a finite map |
| `Ring`, `BuddyLists` | linked lists; the rings of page records under the buddy allocator |
| `Blocks`, `BuddyPages`, `BuddyTidy`, `Buddy` | page blocks, lists of them, when tidying the lists is right, and the allocator |
| `Slabs` | free chains and slab lists |

The scheduler is proved in two layers. `CfsQueue` is a state machine on the sequence of queued tasks with the events
tick, fork and schedule; its lemmas speak about every run from a state that meets the invariant, and nothing is asked of
the states in between. `Sched.Scheduler` is the code on the heap tree; each of its methods is proved to perform the step
of the state machine with the same name, and its constructor runs the loops that start the first tasks.

The buddy allocator is layered in the same way: `BuddyLists.Lists` changes the links of the page records, and proves what
that does to the lists as sequences; `BuddyPages` and `BuddyTidy` prove what the sequences mean for the pages; `Buddy` is the
allocator on top of both.

Facts about the code that the proofs bring out:

- A tick that comes while the kernel is already at work, in another interrupt or in a system call, raises the running
  task's key without ever scheduling; call it nested. Without nested ticks, and with a task to switch to, the running task has
  never run more than three ticks when it forks: every run keeps the invariant (`CfsClock.PromptRun`), and a waiting task runs
  within four clock interrupts for each step of its key above the minimum (`CfsClock.ClockWait`). With nested ticks a fork can
  put the child to the left of the running task, which then is no longer leftmost: `Sched.LateFork` runs the code from
  start-up through one turn of the first task and eleven nested ticks of the second to such a fork. `SchedFork.ForkKeeps` says
  exactly when the running task stays leftmost: it has run at most ten ticks, or it has a parent in the tree whose key is not
  above the child's.
- `ts_insert` silently drops an entity whose key is present, so `schedule` loses the running task when its new key is
  in use (`CfsQueue.ScheduleLoses`). Two forks and sixteen ticks after start-up are enough for that
  (`CfsClock.ScheduleDrops`).
- For the same reason start-up queues two tasks of four: both loops count their keys from the minimum, the kernel thread with
  the pid of init is skipped, and a task whose key is taken is refused. So at least one user process is not queued
  (`Sched.Scheduler.constructor`).
- `kmem_get_obj` can fail although an object is free, since a slab on the full list stays there until nothing in it is in
  use (`Slabs.Cache.Idle`, `Slabs.Starve`). `slab_free_obj` of an object that is not in use leaves a chain without an end
  (`Slabs.Circular`).
- `buddy_list_tidy` takes a page and the next one on its list for a pair in either order, but always files the block under
  the first of them. On the lists of start-up that is right; on others it can make a block that reaches into memory that is
  handed out (`BuddyPages.TidyOverlaps`). It is right exactly if no page is joined with a lower one (`BuddyTidy.TidyExact`).
  Only `init_mem` calls it.
- `free_pages` of a page that is on a list already leaves links that form no lists at all (`Buddy.Allocator.FreePages`,
  `Ring.Twice`).
- `avl_remove` of an area that is not in the tree, but whose end address another area has, cuts that other one out together
  with everything below it (`AvlTree.Mm.AvlRemove`).
- `radix_tree_insert` with a null item binds nothing, but the item is counted in its node (`RadixTree.Root.Insert`).
- `list_add` links at the tail and `list_add_tail` at the front, contrary to their names; the address order of the
  buddy lists depends on it. The model follows the code.

## Model

| member | source | states |
|---|---|---|
| RbTree.RbRoot.RotateLeft | lib/rbtree.c:28-49 | Wherever the node is in the tree, the links afterwards form the same tree with that subtree rotated to the left, parent links and the root pointer included. |
| RbTree.RbRoot.RotateRight | lib/rbtree.c:51-72 | The mirror image. |
| Zipper.RotLKeeps | lib/rbtree.c:28-49 | A left rotation keeps the records, their order and their being distinct. |
| Zipper.RotRKeeps | lib/rbtree.c:51-72 | So does a right rotation. |
| RbTree.RbRoot.InsertColor | lib/rbtree.c:74-137 | From a tree that is valid but for a red node below a red parent, the loop ends with a valid red-black tree (black root, no red node below a red one, equal black heights) in the same order. |
| RbBalance.UncleRed | lib/rbtree.c:86-93 | Recolouring with a red uncle moves the violation two levels up and changes nothing else. |
| RbBalance.Outer | lib/rbtree.c:105-107 | Recolouring and rotating the grandparent puts a black parent above the red node, with black heights and order unchanged. |
| RbTree.RbRoot.EraseColor | lib/rbtree.c:140-218 | From a tree with one place that is short of a black node, the loop ends with a valid red-black tree in the same order. |
| RbBalance.SibRed | lib/rbtree.c:150-156 | A red sibling is turned into a black one, with the same place short by the same amount and the order unchanged. |
| RbBalance.FarRed | lib/rbtree.c:173-178 | With a red far nephew, recolouring and one rotation make up for the missing black node: the whole tree is valid, in the same order. |
| RbTree.RbRoot.Erase | lib/rbtree.c:220-285 | For every valid tree and every node in it: the tree is valid afterwards and its order is the old one without exactly that node. |
| RbTree.RbRoot.Detach | lib/rbtree.c:220-285 | Unlinking the node, or moving its successor into its place, leaves the order without it; a black node taken out leaves exactly one place short, a red one none. |
| RbTree.RbRoot.First | lib/rbtree.c:291-301 | The first node in order, or null for the empty tree. |
| RbWalk.Next | lib/rbtree.c:317-343 | The node after the given one in order, or null after the last. |
| RbWalk.Prev | lib/rbtree.c:346-368 | The node before the given one in order, or null before the first. |
| RbTree.RbRoot.LinkNode | include/linux/rbtree.h:149-156 | The node hangs as a red leaf in the empty place that the link points to; the rest of the tree is as it was. |
| RbTree.RbRoot.SetColor | include/linux/rbtree.h:124-127 | Only the colour of the node changes. |
| CfsQueue.DiffIsDistance | kernel/sched_fair.c:32-39 | For keys within 2^31 above any base, across the wrap at 2^32, the unsigned difference taken as signed is the difference of their distances from the base, hence a strict total order. |
| SchedFair.SeSearch | kernel/sched_fair.c:24-42 | In every tree that `ts_insert` has built from the empty one, with keys within 2^31 above any base, an entity is found exactly when one with its key was ever offered, whatever key is asked for; what is found is in the tree and has the key. |
| SchedFair.InsertBuilt | kernel/sched_fair.c:50-77 | Inserting where the search in the tree ends makes of such a tree the one built from one entity more, whatever the shape of the tree. |
| CfsQueue.BuiltOrdered | kernel/sched_fair.c:50-77 | What is built that way from nothing is in strict order, and every key that was offered is in it. |
| SchedFair.FindPlace | kernel/sched_fair.c:55-70 | The walk ends in the empty place that the search on the shape ends at, or reports a present key, for any keys in the tree. |
| SchedFair.TsInsert | kernel/sched_fair.c:50-77 | A valid tree stays valid; the entity is inserted where the search for its key ends, or refused if the key is met, for any keys in the tree; a tree built by such calls from the empty one is so afterwards; below a black node, or in the empty tree, nothing else is moved. |
| SchedFair.SearchIsScan | kernel/sched_fair.c:50-77 | Where the order splits at the key, the tree search ends where a linear scan in order does. |
| Sched.Scheduler.CfsEnqueue | kernel/sched.c:124-135 | Raises the key by the minimum unless it is a wake-up and inserts, or is refused with the raised key; nothing else of the queue changes. |
| Sched.Scheduler.CfsDequeue | kernel/sched.c:137-146 | Takes exactly that task out of the tree, lowering its key only when it goes to sleep. |
| Sched.Scheduler.CfsNextTask | kernel/sched.c:148-169 | Performs the schedule step of the state machine on the tree and returns the task it picks; the time that the running task had run is what its key is above the new minimum, or above zero if it is not runnable. |
| Sched.Scheduler.Schedule | kernel/sched.c:185-211 | Keeps the invariant and performs the schedule step; the task picked is the second one and has the minimum as its key; the task that ran keeps the time it has run above the new minimum, for any time; of two tasks that take turns, the one picked is then the root and the other hangs to its right. |
| Sched.Scheduler.ClockHandler | kernel/clock.c:22-40 | Keeps the invariant although it changes the running task's key in place; schedules on every fourth tick that is not nested, which is the clock step of CfsClock, and otherwise leaves the tree as it is; all counters change by one. A tick that is not nested keeps the time since the last pick at most the ticks since the last fourth one. |
| Sched.Scheduler.DoFork | kernel/fork.c:127-129 | The child is runnable, has ten more than the minimum as its key and is enqueued where the search for it ends; the invariant holds afterwards exactly if the running task has run at most ten ticks or is shielded by its parent, and the call then is the fork step of the state machine; without nested ticks before, it always is. |
| Sched.Scheduler.DoExit | kernel/exit.c:47-80 | Keeps the invariant; the running task is a zombie, out of the queue, with the time it ran as its key; the next task runs; no other task changes its state. |
| Sched.Scheduler.Block | kernel/sched.c:39-43 | Keeps the invariant; the task given sleeps, and no other changes its state; the running task leaves the queue if it blocks itself or was not runnable. |
| Sched.Scheduler.constructor | init/main.c:239-247 | From the empty tree the two loops leave exactly two tasks in it, the first that is offered with each key; the one with the lesser key becomes the running one and the invariant holds; all tasks are runnable with 25 ticks, and the counters are zero; fewer than both user processes are queued. |
| Sched.Scheduler.EnrollAll | init/main.c:81-139 | One of the two loops: a key that is free goes to the task of that number, unless that is skipped as init; a key that is taken stays with its holder. |
| Sched.Scheduler.InitQueue | kernel/sched.c:46-56 | The empty tree holds neither key. |
| Sched.Refused | init/main.c:170-233 | Whichever kernel thread is skipped, at most one user process is queued. |
| CfsQueue.StepKeeps | kernel/sched.c:124-169 | Every tick, schedule, or fork whose search does not end before the running task keeps the invariant: the running task is leftmost, all others are in strict order above the minimum. |
| CfsQueue.RunKeeps | kernel/clock.c:22-40 | So does every run of such steps, of any length, with the invariant taken for its first state only. |
| CfsQueue.ScheduleKeeps | kernel/sched.c:148-169 | schedule picks the least key among the other queued tasks, which becomes the minimum. |
| CfsQueue.ScheduleLoses | kernel/sched.c:148-169 | The queued tasks are the same as before if the running one is runnable and its new key is unused, otherwise all but the running one; no other key changes; for any time that the running task had run, that is what its key is above the new minimum, or above zero if it is not runnable. |
| CfsQueue.BoundedWait | kernel/sched.c:148-169 | In every such run, whatever else happens, a waiting task whose key is d above the minimum becomes the running one after at most d schedules. |
| CfsQueue.ForkEarly | kernel/fork.c:127-129 | A fork before the tenth tick ends where it would have had the running task not run, so it is the fork step of the state machine. |
| CfsQueue.ForkAside | kernel/fork.c:127-129 | Such a fork keeps the invariant and every waiting task, however long the running task has run. |
| CfsClock.PromptStep | kernel/clock.c:22-40 | Without nested ticks, every clock interrupt, fork and schedule keeps the invariant together with the bound on the running task's time. |
| CfsClock.PromptRun | kernel/clock.c:22-40 | So does every run of them, with no condition on when it forks. |
| CfsClock.ClockWait | kernel/clock.c:22-40 | In every such run, whatever is forked and yielded, a waiting task whose key is d above the minimum runs within 4d clock interrupts, less those since the last fourth one. |
| CfsClock.ScheduleDrops | kernel/sched.c:148-169 | A run of two forks and sixteen ticks from start-up, all tasks runnable, after which one task is in the queue no more. |
| SchedFork.ForkKeeps | kernel/fork.c:127-129 | For every queue and tree: after a fork the running task is leftmost and the rest ordered if and only if it has run at most ten ticks or its parent's key is not above the child's; the outcome is then the fork step of the state machine. |
| SchedFork.Met | kernel/sched_fair.c:56-70 | A late fork whose search is not stopped by the parent ends at the running task. |
| SchedFork.Missed | kernel/sched_fair.c:56-70 | One that is stopped ends where it would have had the running task not run at all. |
| SchedFork.ForkBreaks | kernel/fork.c:127-129 | As a run of the state machine: from start-up, a turn of the first task and eleven nested ticks of the second lead to a state in which a fork puts the child first and the running task is no longer leftmost. |
| Sched.LateFork | kernel/fork.c:127-129 | The same run of the code itself, whichever kernel thread is skipped: start-up, fifteen clock interrupts and the fork leave the child, the running task and the other one in the tree, in this order. |
| AvlTree.Mm.Rebalance | mm/mmap.c:22-96 | From a tree in which one subtree has changed its height by one, the walk up the stacked places ends with every height stored correctly and every node balanced; whatever the stored heights, it ends and the order is unchanged. |
| AvlBalance.FixedBalance | mm/mmap.c:31-93 | Each of the four rotations, and the plain update of a height, balances its node and gives the height that the next step needs. |
| AvlBalance.FixedKeeps | mm/mmap.c:31-93 | They keep the records and their order, whatever the stored heights. |
| AvlBalance.Step | mm/mmap.c:24-95 | One round of the loop moves the change of height one level up; a node left as it was ends it. |
| AvlTree.Mm.AvlInsertNeighbours | mm/mmap.c:102-129 | The tree stays balanced and correctly labelled, the new area stands behind those with keys of at most its own, the order by end address is kept, strictly if the key is new, and the two results are its neighbours in order. |
| AvlTree.Mm.AvlInsert | mm/mmap.c:131-153 | The same without the neighbours. |
| AvlTree.InsertIncreasing | mm/mmap.c:131-153 | An area with a new key put in that place keeps the strict order by end address. |
| AvlTree.Mm.WalkDown | mm/mmap.c:109-124 | The stack holds the places from the root down and never overflows its 41 entries. |
| AvlTree.Mm.AvlRemove | mm/mmap.c:156-204 | An area in the tree is taken out, and nothing else, also when its predecessor takes its place; balance, heights and the strict order by end address are kept. For one that is not there, nothing changes exactly if no other area has its end address; otherwise that other one is cut out with all areas below it. |
| AvlTree.Mm.ReplaceByPredecessor | mm/mmap.c:184-202 | The patched stack is the path in the new tree, within its 41 entries. |
| AvlTree.RemoveIncreasing | mm/mmap.c:156-204 | What is left after a removal is in strict order. |
| AvlCheck.HeightsIff | mm/mmap.c:303-319 | The kernel's height check accepts exactly the balanced, correctly labelled trees. |
| AvlCheck.OrderIff | mm/mmap.c:322-354 | Its order check accepts exactly the trees in strict order. |
| AvlBalance.HeightBound | mm/mmap.c:19 | A balanced tree with fewer than 701,408,732 areas is at most 41 high. |
| Mmap.AreaCount | mm/mmap.c:19 | Disjoint areas of whole pages below the kernel's addresses number at most 786,432. |
| Mmap.AvlNeighbours | mm/mmap.c:208-246 | Both neighbours in order of an area in the tree; for one whose key is not there, the areas around its key; if another area has its key, the areas around the subtree of that one. |
| Mmap.BuildMmapAvl | mm/mmap.c:368-374 | The tree built from the list has the list as its order. |
| Mmap.FindVma | mm/mmap.c:376-395 | The area a linear scan finds first with its end above the address, or none, in spite of the early return. |
| Mmap.MergeSegments | mm/mmap.c:401-453 | Keeps list and tree equal and the areas disjoint; every address is mapped as before, with the same attributes and file offset; no pair that could be merged is left in the range; and an area is gone only if one that starts in the range covers it. |
| Mmap.MergeNext | mm/mmap.c:434-436 | Removing one area and raising the end of its predecessor in place keeps tree, list and order. |
| AddressMap.MergeKeeps | mm/mmap.c:417-436 | Two areas that pass all the comparisons map every address as the single one does, offsets in 32-bit arithmetic. |
| AddressMap.MergeableIff | mm/mmap.c:417-432 | The comparisons pass exactly if the two areas touch and the first, taken as far as the second, maps every address of the second as that does. |
| AddressMap.MapOfIs | mm/mmap.c:428-432 | An area with an inode or with the flag 0x0400 maps its addresses to offsets that count from its own and wrap at 2^32; one with neither has no offsets. |
| RadixTree.MaxIndexIs | lib/radix-tree.c:61-69 | The bit expression is one less than 16 to the height, capped at eight digits. |
| RadixTree.Fits | lib/radix-tree.c:61-69 | An index is within the bound exactly if no digit of it is left above the root. |
| RadixTree.Root.constructor | include/linux/radix-tree.h:50-61 | The empty root holds no bindings. |
| RadixTree.Root.Extend | lib/radix-tree.c:74-100 | Raises the tree to the least height that has room for the index and keeps every binding; the nodes run out exactly if there are fewer than levels to add above a root that is not empty, and then the height is raised by as many as there were. |
| RadixTree.Root.Descend | lib/radix-tree.c:123-143 | Reaches the slot of the index, adding exactly the nodes that are missing on the way, or fails exactly if there are fewer; a present index adds none. |
| RadixTree.Root.Reserve | lib/radix-tree.c:110-153 | Present index: -3 and no field changes. Absent: exactly one new binding and exactly the nodes used that are needed, or -2 if and only if there are fewer, with the bindings as they were and no node left; fifteen always suffice. |
| RadixTree.Root.Insert | lib/radix-tree.c:163-172 | The same with the item as the value, and no binding for a null item; where every node's count was the number of its used slots it is so afterwards exactly if the call fails, the item is not null or the tree has no node. |
| RadixTree.TopGaps | lib/radix-tree.c:85-95 | After the tree has grown for an index, all nodes on the way to it are missing but the new root. |
| RadixTree.Root.Lookup | lib/radix-tree.c:181-203 | The value bound to the index, or null. |
| RadixShape.Grown | lib/radix-tree.c:85-95 | A node put above the root holds the same bindings one level higher. |
| RadixShape.Linked | lib/radix-tree.c:128-135 | A cleared node in an empty slot changes no binding and is counted in its parent. |
| RadixShape.Bound | lib/radix-tree.c:145-151 | Filling the slot of an index binds that index and no other. |
| RadixShape.Unbound | lib/radix-tree.c:163-172 | Clearing it unbinds that index and no other. |
| RadixShape.CountedFill | lib/radix-tree.c:145-172 | Filling an empty slot must be counted and refilling a used one must not; emptying one leaves a wrong count. |
| Ring.Init | lib/list.c:8-12 | The head alone is an empty list. |
| Ring.AddBetween | lib/list.c:14-20 | The circle with the item between the two neighbours, in both directions; the four links it stores, also for an item that is in the circle already. |
| Ring.AddTail | lib/list.c:22-26 | The item becomes the first entry. |
| Ring.AddHead | lib/list.c:28-32 | The item becomes the last entry, if it was not in the list. |
| Ring.Twice | lib/list.c:14-20 | An entry of a circle that is put between two neighbours of that or another circle, without being taken out first, leaves no circle through the head. |
| Ring.Del | lib/list.c:34-49 | The circle without the entry, whose links are poisoned. |
| Ring.EmptyIs | lib/list.c:58-66 | Both tests hold exactly for the empty list. |
| Ring.GetHead | lib/list.c:69-83 | The first entry, or an error for the empty list. |
| Ring.GetTail | lib/list.c:85-99 | The last entry, or an error for the empty list. |
| Ring.GetHeadDel | lib/list.c:101-113 | The first entry, taken out, or an error for the empty list. |
| Ring.Num | lib/list.c:130-140 | The walk meets every entry once and ends. |
| Blocks.Power | lib/math.c:7-25 | Two to the given power, and 1 for a negative one. |
| Blocks.SplitExact | mm/page_alloc.c:73-77 | Replacing a block by its two halves leaves every page covered once. |
| Blocks.JoinExact | mm/buddy.c:161-170 | Replacing two halves by the block does too. |
| BuddyLists.Lists.constructor | mm/buddy.c:124-132 | Ten heads, each linked to itself, and no page on a list. |
| BuddyLists.Lists.Del | mm/buddy.c:51-65 | The links of the ring then run past its first page, which is returned; every other ring is as it was, and the counter is one less; an empty ring or a wrong order changes no list. |
| BuddyLists.Lists.Add | mm/buddy.c:67-79 | A page that is on no ring is linked between the last entry and the head; every other ring is as it was, and no page is on two rings. If it is on a ring already, no lists fit the links any more. |
| BuddyLists.Lists.AddLine | mm/buddy.c:81-122 | The walk along the links ends before the first page with a larger address or at the head, and the page is linked in there; every other ring is as it was. If it is on a ring already, no lists fit the links any more. |
| BuddyLists.Lists.Join | mm/buddy.c:163-169 | Two entries in a row leave their ring and the first becomes the last entry of the next ring. |
| BuddyLists.Lists.TidyOrder | mm/buddy.c:153-176 | The walk along the links of one ring, which changes under it, meets what a pass over the sequence of pages does, and ends. |
| BuddyLists.Lists.Tidy | mm/buddy.c:135-180 | For any lists: the passes over the orders in turn, up to the first list that is empty. |
| Buddy.Allocator.SplitHead | mm/page_alloc.c:70-77 | The halves of the head of one list become the two entries of the empty list below it. |
| Buddy.Allocator.GetFreePages | mm/page_alloc.c:38-82 | Hands out the lowest block of the first order that has one, halved down to the order asked for; each order passed keeps one upper half; free and handed-out blocks still cover every page exactly once; lists stay in address order with correct counts; the loop ends. |
| Buddy.Allocator.FreePages | mm/page_alloc.c:24-36 | The page of a RAM block goes to its place in its list. Free and handed-out blocks cover every page exactly once afterwards if and only if the block was handed out with that order; a page that is on a list already leaves links that fit no lists; bad arguments and pages outside the RAM change nothing. |
| BuddyPages.FreeTwice | mm/page_alloc.c:24-36 | A page freed with another order, or that was not handed out as the start of a block, is then shared by two blocks. |
| BuddyPages.ClosedIs | mm/buddy.c:35-49 | For pages of the RAM the 32-bit comparison means that they are one block apart, on either side. |
| Buddy.Allocator.Tidy | mm/buddy.c:135-180 | For any lists the passes of BuddyLists.Lists.Tidy; every page is covered exactly once afterwards if and only if no pass joins a page with a lower one; if larger blocks lie below smaller ones, the lists are in address order besides. |
| BuddyPages.TidyKeeps | mm/buddy.c:135-180 | The passes lose no page and cover none twice, if larger blocks lie below smaller ones. |
| BuddyPages.TidyOverlaps | mm/buddy.c:135-180 | Lists for which they do: a block of four pages, two of which are handed out. |
| BuddyTidy.TidyIff | mm/buddy.c:135-180 | For free lists in any order: afterwards every page is covered exactly once, by a block on a list or one that is handed out, if and only if no pass joins a page with a lower one. |
| BuddyTidy.TidyExact | mm/buddy.c:135-180 | So it is for every state of the allocator. |
| BuddyTidy.JoinWeight | mm/buddy.c:161-170 | Joining a page with the next higher one keeps the sum of the page numbers on the lists; joining it with the next lower one raises it. |
| BuddyTidy.CoverSum | mm/buddy.c:135-180 | Blocks that cover a stretch of memory exactly once sum up to its page numbers, whatever their sizes. |
| BuddyTidy.TidyCount | mm/buddy.c:135-180 | Whatever is on the lists, tidying keeps the number of pages on them. |
| BuddyTidy.TidyStops | mm/buddy.c:142-149 | If a list is empty and the lists below it have too few pages for one of its blocks, it and the lists above are left as they are. |
| BuddyPages.PairedTidied | mm/buddy.c:135-180 | From the seeded list of single pages the passes lead to the decomposition of BuddyPages.Binary. |
| BuddyPages.Binary | mm/buddy.c:135-180 | In that decomposition of n pages, list k below 9 holds bit k of n, list 9 holds n shifted right by 9, and each block starts at a multiple of its size from the start of the RAM. |
| Buddy.Allocator.constructor | mm/memory.c:200-250 | After start-up the free lists are the decomposition of the RAM pages, each page free exactly once and none below the RAM; every page record has its address, and the flags of reserved memory or of RAM. |
| Slabs.Slab.constructor | mm/slab.c:132-152 | A fresh slab's chain visits every index once, in ascending order, and ends at BUFCTL_END; nothing is in use. |
| Slabs.LiveCount | mm/slab.c:60-112 | The objects outside a chain are as many as the counter of objects in use. |
| Slabs.Cache.SlabGetObj | mm/slab.c:60-87 | The first object of the chain was not in use and now is, and no other object changes; null exactly if the chain is empty; the slab goes to the full list exactly when it has no object left. The lists stay right exactly if the slab was not on the free list or has but one object. |
| Slabs.Cache.SlabFreeObj | mm/slab.c:89-112 | An object in use is free again, at the front of its chain, and no other object changes; the slab goes to the free list exactly when its counter is zero; bad arguments change nothing. The cache is whole afterwards if and only if the object was in use; otherwise no chain leads to the end. |
| Slabs.Circular | mm/slab.c:89-112 | After a second free, or a free of the index one past the last, which the bound lets through, the links run in a circle or out of the slab. |
| Slabs.Cache.KmemGetSlab | mm/slab.c:154-190 | The last partial slab, or the first free one made partial, or none if both lists are empty. |
| Slabs.Cache.Grow | mm/slab.c:217-243 | Exactly one more slab, at the front of the free list, with nothing in use; the pages and free objects are counted. |
| Slabs.Cache.KmemGetObj | mm/slab.c:246-269 | The first object of the chain of the last partial slab, or else of the first unused one, or else of one slab that the cache grows by; it does not grow otherwise. Null exactly if both lists are empty and the cache has its 256 pages, and then nothing changes. The slab moves to the partial list, or to the full one with its last object; the other slabs stay as they are. |
| Slabs.UseUp | mm/slab.c:246-269 | A fresh cache hands out exactly 16 slabs full of objects before the first null. |
| Slabs.Cache.Idle | mm/slab.c:246-269 | When both lists are empty, an object is free exactly if a slab on the full list has one. |
| Slabs.Starve | mm/slab.c:246-269 | A cache with two or more objects to a slab that is used up and then gets one object back: the next request fails although that object is free. |
| Slabs.LiveBound | mm/slab.c:217-243 | There are never more objects in use than slabs times objects. |
| Slabs.Unlinked | mm/slab.c:81-83 | Taking a slab off its list leaves every other slab on exactly one. |

## Left out

- Memory shared between interrupt and process context: each method is one atomic step; the clock interrupt is a step of its own.
- The records are a fixed set (`space`) from which trees are built; their allocation and reuse by process creation and exit are not modelled.
- Sched.Scheduler.Schedule: needs a second queued task, as the code reads the key of the leftmost remaining task without a check; so do CfsNextTask, DoExit, Block and a switching ClockHandler.
- Sched.Scheduler.ClockHandler: `jiffies` and the `ticks` counters do not wrap, and the running task's time since its pick has to stay below 2^31, which only nested ticks can exceed.
- Sched.Scheduler.constructor: allocation in the boot loops always succeeds; pids, descriptors and registers are left out.
- Sched.Scheduler.DoFork: only the lines that schedule the child; pids, memory and registers are left out.
- The round-robin functions, which are not wired into the scheduler class; sleep, wake-up and semaphores, which never enqueue a task again.
- `rb_replace_node`, which puts a node in the place of another, and `rb_last`, the mirror image of `rb_first`; nothing calls them.
- `insert_vm_struct`, `unmap_fixup`, `do_munmap`, `do_mmap` and `get_unmmapped_area`, which do not keep list and tree together or are unfinished; `Mmap.MergeSegments` takes their agreement as given.
- Mmap.MergeSegments: inode counts, share rings, the close callback and the release of the record are not part of the address map.
- AvlTree.Mm.AvlRemove: an area that is not in the tree, but whose end address another area has, is taken to have empty links; with links left over from earlier use the code follows them.
- Mmap.FindVma and the other area operations: addresses are numbers without wrap-around, since areas end below the kernel's part of the address space; offsets do wrap.
- RadixTree.Root.Insert: a node from the cache counts as cleared, although the helper clears only its first eight bytes; the supply of nodes is a counter.
- `radix_tree_delete`, whose body is compiled out.
- `Slabs`: the lists of slabs are sequences from head to tail; that the ring operations have this effect is proved in `Ring`, and used on links only for the buddy lists.
- Buddy.Allocator.GetFreePages: needs a free block of at least the order asked for, as the scan for one has no upper limit.
- Buddy.Allocator.Tidy: says in one direction only when the lists stay in address order; when the pages stay covered it says in both.
- Buddy.Allocator.constructor: the flag words of the page records are taken to start as zero; boot parameters and the placement of the page array are left out.
- `alloc_mem`, `get_free_page` and `list_get_tail_del`: wrappers or unused code.
- Slabs.Cache.Grow: takes the pages as given and objects as at least one per slab; the byte layout, `obj_to_index`, `index_to_obj` and `kmem_free_obj` are left out.
- Everything else: buffer cache, file systems, block and character devices, networking, page tables, console, boot and assembly.
