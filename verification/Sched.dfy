/** The scheduler: the run queue, the running task and the clock (kernel/sched.c, kernel/clock.c,
    kernel/fork.c, kernel/exit.c). */
module Sched {
  import opened Words
  import opened Zipper
  import opened CfsQueue
  import CfsClock
  import opened RbMemory
  import opened RbBalance
  import opened RbTree
  import opened SchedFair
  import opened SchedFork

  const NR_SYSTEM_PROCS := 2
  const NR_USER_PROCS := 2
  const MIN_VRUNTIME: u32 := 100
  const KERNEL_PRIOR := 25

  class Scheduler {
    const rq: RbRoot
    var current: Task
    var minVruntime: u32
    var jiffies: nat
    var ticks: int

    ghost function View(): Queue<Task>
      reads this`current, this`minVruntime, rq`tree, rq`space, rq.space`vruntime
    {
      Queue(current, InOrder(rq.tree), Keys(rq.space), minVruntime)
    }

    ghost predicate Valid()
      reads this`current, this`minVruntime, rq, rq.space`left, rq.space`right, rq.space`parent, rq.space`red, rq.space`vruntime
    {
      rq.Valid() && Nodes(rq.tree) <= rq.space && Inv(View())
    }

    /** The state that the acts of CfsClock are about. */
    ghost function State(): CfsClock.System<Task>
      reads this`current, this`minVruntime, this`jiffies, rq`tree, rq`space, rq.space`vruntime
    {
      CfsClock.System(View(), jiffies)
    }

    /** The running task has run no longer than since the last fourth tick. */
    ghost predicate Prompt()
      reads this`current, this`minVruntime, this`jiffies, current`vruntime
    {
      Sub32(current.vruntime, minVruntime) <= jiffies % NR_PROCESS
    }

    /** init_sched and init_task. The two kernel threads and the two user processes are enqueued with keys that
        count from the minimum in each loop; init is the number of the kernel thread with the pid of init, which
        is left out, if there is one. The first of each key stays. */
    constructor (rq: RbRoot, sys: seq<Task>, usr: seq<Task>, init: nat)
      requires |sys| == NR_SYSTEM_PROCS && |usr| == NR_USER_PROCS && NoDup(sys + usr)
      requires forall n :: n in sys + usr ==> n in rq.space
      modifies rq`node, rq`tree, rq.space
      ensures Valid() && Prompt() && this.rq == rq && jiffies == ticks == 0 && minVruntime == MIN_VRUNTIME && Ready(sys) && Ready(usr)
      ensures var a, b := if init == 0 then usr[0] else sys[0], if init == 1 then usr[1] else sys[1];
              && View().tasks == [a, b] && a.vruntime == MIN_VRUNTIME && b.vruntime == MIN_VRUNTIME + 1
              && |(set n | n in usr && n in View().tasks)| < NR_USER_PROCS
    {
      hide Holds, Balanced, InOrder, Inv, NoDup;
      this.rq, current, minVruntime, jiffies, ticks := rq, sys[0], MIN_VRUNTIME, 0, 0;
      new;
      Apart(sys, usr);
      InitTask(sys, usr, init);
      Refused(sys, usr, init);
    }

    method InitTask(sys: seq<Task>, usr: seq<Task>, init: nat)
      requires |sys| == NR_SYSTEM_PROCS && |usr| == NR_USER_PROCS && NoDup(sys + usr)
      requires forall n :: n in sys + usr ==> n in rq.space
      requires minVruntime == MIN_VRUNTIME && jiffies == 0
      modifies this`current, this`ticks, rq`node, rq`tree, rq.space
      ensures Valid() && current.vruntime == MIN_VRUNTIME && ticks == 0 && Ready(sys) && Ready(usr)
      ensures var a, b := if init == 0 then usr[0] else sys[0], if init == 1 then usr[1] else sys[1];
              View().tasks == [a, b] && a.vruntime == MIN_VRUNTIME && b.vruntime == MIN_VRUNTIME + 1
    {
      hide Holds, Balanced, InOrder, Inv, NoDup, Held, Nodes, Keys, Ready;
      Apart(sys, usr);
      InitQueue();
      Fill(sys, usr, init);
      RunFirst(if init == 0 then usr[0] else sys[0], if init == 1 then usr[1] else sys[1]);
    }

    /** init_kernel_thread and init_user_process. */
    method Fill(sys: seq<Task>, usr: seq<Task>, init: nat)
      requires rq.Valid() && minVruntime == MIN_VRUNTIME && Held(View(), null, null)
      requires |sys| == NR_SYSTEM_PROCS && |usr| == NR_USER_PROCS && NoDup(sys + usr)
      requires forall n :: n in sys + usr ==> n in rq.space
      modifies this`ticks, rq`node, rq`tree, rq.space
      ensures rq.Valid() && ticks == 0 && Ready(sys) && Ready(usr)
      ensures Held(View(), if init == 0 then usr[0] else sys[0], if init == 1 then usr[1] else sys[1])
    {
      hide Holds, Balanced, InOrder, Inv, NoDup, Held, Nodes, Keys, Ready, View, RbRoot.Valid;
      Apart(sys, usr);
      ghost var x: Task?, y: Task? := if init != 0 then sys[0] else null, if init != 1 then sys[1] else null;
      KernelThreads(sys, init);
      assert Held(View(), x, y);
      UserProcesses(usr, x, y, sys);
    }

    method KernelThreads(sys: seq<Task>, init: nat)
      requires rq.Valid() && minVruntime == MIN_VRUNTIME && Held(View(), null, null)
      requires |sys| == NR_SYSTEM_PROCS && sys[0] != sys[1] && forall i :: 0 <= i < 2 ==> sys[i] in rq.space
      modifies this`ticks, sys`vruntime, sys`state, sys`ticks, rq`node, rq`tree
      modifies rq.space`left, rq.space`right, rq.space`parent, rq.space`red
      ensures rq.Valid() && ticks == 0 && Ready(sys)
      ensures Held(View(), if init != 0 then sys[0] else null, if init != 1 then sys[1] else null)
    {
      hide Holds, Balanced, InOrder, Inv, Held, Nodes, Keys, Ready, View, RbRoot.Valid;
      BothReady([]);
      EnrollAll(sys, init, null, null, []);
      ticks := 0;
    }

    method UserProcesses(usr: seq<Task>, ghost x: Task?, ghost y: Task?, ghost sys: seq<Task>)
      requires rq.Valid() && minVruntime == MIN_VRUNTIME && Held(View(), x, y)
      requires |usr| == NR_USER_PROCS && usr[0] != usr[1] && forall i :: 0 <= i < 2 ==> usr[i] in rq.space && usr[i] != x && usr[i] != y
      requires Ready(sys) && forall i :: 0 <= i < |sys| ==> sys[i] != usr[0] && sys[i] != usr[1]
      modifies this`ticks, usr`vruntime, usr`state, usr`ticks, rq`node, rq`tree
      modifies rq.space`left, rq.space`right, rq.space`parent, rq.space`red
      ensures rq.Valid() && ticks == 0 && Ready(sys) && Ready(usr)
      ensures Held(View(), if x == null then usr[0] else x, if y == null then usr[1] else y)
    {
      hide Holds, Balanced, InOrder, Inv, Held, Nodes, Keys, Ready, View, RbRoot.Valid;
      EnrollAll(usr, NR_USER_PROCS, x, y, sys);
      ticks := 0;
    }

    /** The empty tree of init_sched. */
    method InitQueue()
      requires minVruntime == MIN_VRUNTIME
      modifies rq`node, rq`tree
      ensures rq.Valid() && Held(View(), null, null)
    {
      rq.node := null;
      rq.tree := Leaf;
      NoTree(rq.Mem());
    }

    /** The end of init_task. */
    method RunFirst(ghost a: Task, ghost b: Task)
      requires rq.Valid() && Held(View(), a, b) && a != b
      modifies this`current
      ensures Valid() && View().tasks == [a, b] && current.vruntime == a.vruntime == MIN_VRUNTIME && b.vruntime == MIN_VRUNTIME + 1
    {
      hide Holds, Balanced, InOrder, Inv, Held, Nodes;
      Two(View(), a, b);
      var se := rq.First();
      current := se;
      Members(rq);
    }

    /** The loop of init_kernel_thread or init_user_process: x and y hold the two keys before it, if they are held. */
    method EnrollAll(ts: seq<Task>, skip: nat, ghost x: Task?, ghost y: Task?, ghost others: seq<Task>)
      requires rq.Valid() && minVruntime == MIN_VRUNTIME && Held(View(), x, y)
      requires |ts| == 2 && ts[0] != ts[1] && forall i :: 0 <= i < 2 ==> ts[i] in rq.space && ts[i] != x && ts[i] != y
      requires Ready(others) && forall i :: 0 <= i < |others| ==> others[i] !in ts
      modifies ts`vruntime, ts`state, ts`ticks, rq`node, rq`tree
      modifies rq.space`left, rq.space`right, rq.space`parent, rq.space`red
      ensures rq.Valid() && Ready(ts) && Ready(others)
      ensures Held(View(), if x == null && skip != 0 then ts[0] else x, if y == null && skip != 1 then ts[1] else y)
    {
      hide Holds, Balanced, InOrder, Held;
      ghost var x': Task?, y': Task? := x, y;
      for i := 0 to 2
        invariant rq.Valid() && Held(View(), x', y') && rq.space == old(rq.space) && Ready(ts[..i]) && Ready(others)
        invariant x' == if x == null && skip != 0 && i > 0 then ts[0] else x
        invariant y' == if y == null && skip != 1 && i > 1 then ts[1] else y
      {
        Enroll(ts[i], i, i != skip, x', y');
        x', y' := if i != skip && i == 0 && x' == null then ts[i] else x', if i != skip && i == 1 && y' == null then ts[i] else y';
      }
    }

    /** One round of such a loop. */
    method Enroll(tsk: Task, v: u32, wanted: bool, ghost x: Task?, ghost y: Task?)
      requires rq.Valid() && tsk in rq.space && v < 2 && minVruntime == MIN_VRUNTIME
      requires Held(View(), x, y) && tsk != x && tsk != y
      modifies tsk`vruntime, tsk`state, tsk`ticks, rq`node, rq`tree
      modifies rq.space`left, rq.space`right, rq.space`parent, rq.space`red
      ensures rq.Valid() && tsk.state == RUNNING && tsk.ticks == KERNEL_PRIOR
      ensures Held(View(), if wanted && v == 0 && x == null then tsk else x, if wanted && v == 1 && y == null then tsk else y)
    {
      hide Holds, InOrder, Balanced, Nodes, Search, Held, Scan, EnqueueAt, Keyed, Splits;
      ghost var q, k := View(), Add32(v, MIN_VRUNTIME);
      HeldOther(q, x, y, tsk, v);
      Members(rq);
      InOrderNodes(rq.tree, tsk);
      Prepare(tsk, v);
      ghost var q1 := View();
      if wanted {
        HeldSplits(q1, x, y, v);
        HeldInsert(q1, x, y, tsk, v);
        FromTop(rq.tree, Keys(rq.space), k);
        CfsEnqueue(tsk, 0);
      }
    }

    method Prepare(tsk: Task, v: u32)
      requires tsk in rq.space
      modifies tsk`vruntime, tsk`state, tsk`ticks
      ensures tsk.vruntime == v && tsk.state == RUNNING && tsk.ticks == KERNEL_PRIOR && View() == old(View()).(key := old(View()).key[tsk := v])
    {
      tsk.state := RUNNING;
      tsk.ticks := KERNEL_PRIOR;
      tsk.vruntime := v;
    }

    method SetVruntime(p: Task, v: u32)
      requires p in rq.space
      modifies p`vruntime
      ensures View() == old(View()).(key := old(View()).key[p := v]) && p.vruntime == v
    {
      p.vruntime := v;
    }

    /** cfs_enqueue. */
    method CfsEnqueue(p: Task, wakeup: int)
      requires rq.Valid() && Nodes(rq.tree) <= rq.space && p in rq.space && p !in Nodes(rq.tree)
      modifies p`vruntime, rq`node, rq`tree, rq.space`left, rq.space`right, rq.space`parent, rq.space`red
      ensures rq.Valid() && p.vruntime == if wakeup == 0 then Add32(old(p.vruntime), minVruntime) else old(p.vruntime)
      ensures var k := if wakeup == 0 then Add32(old(p.vruntime), minVruntime) else old(p.vruntime);
              View() == old(EnqueueAt(View(), p, k, Search(rq.tree, Keys(rq.space), k, 0)))
      ensures |old(View().tasks)| == 1 && View().tasks == old(View().tasks) + [p] ==> rq.tree == Pair(old(View().tasks)[0], p)
    {
      hide Holds, InOrder, Balanced, Nodes, Search;
      ghost var q, t := View(), rq.tree;
      if wakeup == 0 {
        SetVruntime(p, Add32(p.vruntime, minVruntime));
      }
      assert q.key[p := q.key[p]] == q.key;
      SearchOther(t, q.key, Keys(rq.space), p.vruntime, 0);
      var ok;
      ghost var c;
      ok, c := TsInsert(rq, p, [], 0);
      if |q.tasks| == 1 && View().tasks == q.tasks + [p] {
        InOrderNodes(t, p);
        Second(t, c, q.tasks[0], p);
      }
    }

    /** cfs_dequeue. */
    method CfsDequeue(p: Task, sleep: int)
      requires rq.Valid() && p in rq.space && p in Nodes(rq.tree)
      modifies p`vruntime, rq`node, rq`tree, rq.space`left, rq.space`right, rq.space`parent, rq.space`red
      ensures rq.Valid() && p.vruntime == if sleep == 1 then Sub32(old(p.vruntime), minVruntime) else old(p.vruntime)
      ensures View() == old(View().(tasks := Without(View().tasks, p),
                key := if sleep == 1 then Keys(rq.space)[p := Sub32(p.vruntime, minVruntime)] else Keys(rq.space)))
    {
      hide Holds, InOrder, Balanced, Nodes, Without;
      if sleep == 1 {
        SetVruntime(p, Sub32(p.vruntime, minVruntime));
      }
      rq.Erase(p);
    }

    /** The running task leaves the queue with the key it ran up. */
    method Leave()
      requires Valid()
      modifies current`vruntime, rq`node, rq`tree, rq.space`left, rq.space`right, rq.space`parent, rq.space`red
      ensures rq.Valid()
      ensures var q := old(View());
              View() == q.(tasks := q.tasks[1..], key := q.key[current := Sub32(q.key[current], minVruntime)])
    {
      hide Holds, InOrder, Balanced, Nodes, Ordered, Inv, Without;
      ghost var q := View();
      QueueFacts(q);
      InOrderNodes(rq.tree, current);
      SetVruntime(current, Sub32(current.vruntime, minVruntime));
      CfsDequeue(current, 0);
    }

    /** cfs_next_task up to the pick. */
    method PickNext() returns (tsk: Task)
      requires Valid() && |View().tasks| > 1
      modifies this`minVruntime, current`vruntime, rq`node, rq`tree
      modifies rq.space`left, rq.space`right, rq.space`parent, rq.space`red
      ensures rq.Valid() && var q1 := old(Pick(View())); tsk == q1.cur && View() == q1.(cur := current)
    {
      hide Holds, InOrder, Balanced, Nodes, Inv, Keys;
      ghost var q := View();
      QueueFacts(q);
      Leave();
      var se := rq.First();
      tsk := se;
      Members(rq);
      KeyOf(rq.space, tsk);
      minVruntime := tsk.vruntime;
    }

    /** cfs_next_task. */
    method CfsNextTask() returns (tsk: Task)
      requires Valid() && |View().tasks| > 1
      modifies this`minVruntime, current`vruntime, rq`node, rq`tree
      modifies rq.space`left, rq.space`right, rq.space`parent, rq.space`red
      ensures rq.Valid() && var q' := Do(old(View()), Event.Schedule(current.state.RUNNING?));
              tsk == q'.cur && View() == q'.(cur := current)
      ensures tsk == old(View().tasks)[1] && minVruntime == tsk.vruntime
      ensures Sub32(current.vruntime, if current.state.RUNNING? then minVruntime else 0) == old(Sub32(current.vruntime, minVruntime))
      ensures TookTurns(old(View().tasks), View().tasks, rq.tree)
    {
      hide Holds, InOrder, Balanced, Nodes, Splits, Place, Pick, Search, Enqueue, TookTurns;
      ghost var q := View();
      QueueFacts(q);
      BackSplits(q);
      PickTasks(q);
      ScheduleKeeps(q, current.state.RUNNING?);
      ScheduleTime(q, current.state.RUNNING?);
      InOrderNodes(rq.tree, current);
      tsk := PickNext();
      if current.state.RUNNING? {
        InOrderNodes(rq.tree, current);
        EnqueueAny(Pick(q), current, current, Add32(current.vruntime, minVruntime));
        GoBack();
      }
      Turns(q.tasks, View().tasks, rq.tree);
    }

    /** The running task is enqueued again. */
    method GoBack()
      requires rq.Valid() && current in rq.space && current !in Nodes(rq.tree) && Keyed(View().tasks, View().key)
      requires Splits(View().tasks, View().key, Add32(current.vruntime, minVruntime))
      modifies current`vruntime, rq`node, rq`tree, rq.space`left, rq.space`right, rq.space`parent, rq.space`red
      ensures rq.Valid() && View() == old(Enqueue(View(), current, Add32(current.vruntime, minVruntime)))
      ensures |old(View().tasks)| == 1 && View().tasks == old(View().tasks) + [current] ==> rq.tree == Pair(old(View().tasks)[0], current)
    {
      hide Holds, InOrder, Balanced, Nodes, Splits, Place, Search, Scan, EnqueueAt;
      Members(rq);
      FromTop(rq.tree, Keys(rq.space), Add32(current.vruntime, minVruntime));
      CfsEnqueue(current, 0);
    }

    /** schedule. */
    method Schedule()
      requires Valid() && |View().tasks| > 1
      modifies this`minVruntime, this`current, current`vruntime, rq`node, rq`tree
      modifies rq.space`left, rq.space`right, rq.space`parent, rq.space`red
      ensures Valid() && View() == Do(old(View()), Event.Schedule(old(current.state).RUNNING?)) && current.vruntime == minVruntime
      ensures State() == CfsClock.After(old(State()), CfsClock.Yield(old(current.state).RUNNING?)) && current == old(View().tasks)[1]
      ensures var zero := if old(current.state).RUNNING? then minVruntime else 0;
              Sub32(old(current).vruntime, zero) == old(Sub32(current.vruntime, minVruntime))
      ensures TookTurns(old(View().tasks), View().tasks, rq.tree)
    {
      hide Holds, InOrder, Balanced, Inv, Do;
      ghost var q := View();
      ScheduleKeeps(q, current.state.RUNNING?);
      ScheduleLoses(q, current.state.RUNNING?);
      QueueFacts(q);
      var p := CfsNextTask();
      Members(rq);
      if p == current {
      } else {
        current := p;
      }
    }

    /** clock_handler; `reenter` is k_reenter != 0. */
    method ClockHandler(reenter: bool)
      requires Valid() && Enabled(View(), Tick) && (!reenter && (jiffies + 1) % NR_PROCESS == 0 ==> |View().tasks| > 1)
      modifies this`minVruntime, this`current, this`jiffies, this`ticks, current`vruntime, current`ticks, rq`node, rq`tree
      modifies rq.space`left, rq.space`right, rq.space`parent, rq.space`red
      ensures Valid() && jiffies == old(jiffies) + 1 && ticks == old(ticks) + 1 && old(current).ticks == old(current.ticks) - 1
      ensures !reenter && old(Prompt()) ==> Prompt()
      ensures !reenter ==> State() == CfsClock.After(old(State()), CfsClock.Clock(old(current.state).RUNNING?))
      ensures var q := Do(old(View()), Tick);
              View() == if !reenter && jiffies % NR_PROCESS == 0 then Do(q, Event.Schedule(old(current.state).RUNNING?)) else q
      ensures if !reenter && jiffies % NR_PROCESS == 0 then TookTurns(old(View().tasks), View().tasks, rq.tree) else rq.tree == old(rq.tree)
    {
      hide Holds, InOrder, Balanced, Inv, Do, Enabled;
      Beat();
      if reenter {
        return;
      }
      if jiffies % NR_PROCESS == 0 {
        Schedule();
      }
    }

    /** The counters and the running task's key. */
    method Beat()
      requires Valid() && Enabled(View(), Tick)
      modifies this`jiffies, this`ticks, current`vruntime, current`ticks
      ensures Valid() && View() == Do(old(View()), Tick) && current.vruntime == Add32(old(current.vruntime), 1)
      ensures jiffies == old(jiffies) + 1 && ticks == old(ticks) + 1 && current.ticks == old(current.ticks) - 1
    {
      hide Holds, InOrder, Balanced, Inv;
      ghost var q := View();
      TickKeeps(q);
      QueueFacts(q);
      InOrderNodes(rq.tree, current);
      jiffies := jiffies + 1;
      ticks := ticks + 1;
      current.ticks := current.ticks - 1;
      SetVruntime(current, Add32(current.vruntime, 1));
    }

    /** The part of do_fork that schedules the new task p. */
    method DoFork(p: Task)
      requires Valid() && p in rq.space && p !in View().tasks
      modifies p`vruntime, p`state, rq`node, rq`tree
      modifies rq.space`left, rq.space`right, rq.space`parent, rq.space`red
      ensures rq.Valid() && p.state == RUNNING && p.vruntime == Add32(CHILD_VRUNTIME, minVruntime)
      ensures var k := Add32(CHILD_VRUNTIME, minVruntime);
              && View() == old(EnqueueAt(View(), p, k, Search(rq.tree, Keys(rq.space), k, 0)))
              && (Valid() <==> old(Sub32(current.vruntime, minVruntime)) <= CHILD_VRUNTIME || Shielded(old(View()), old(current.parent), k))
      ensures var k, d := Add32(CHILD_VRUNTIME, minVruntime), old(Sub32(current.vruntime, minVruntime));
              var shielded := Shielded(old(View()), old(current.parent), k);
              && (d < CHILD_VRUNTIME || shielded ==> View() == Do(old(View()), Fork(p, false)))
              && (d == CHILD_VRUNTIME && !shielded ==> View() == Do(old(View()), Fork(p, true)))
      ensures old(Prompt()) ==> Valid() && Prompt() && State() == CfsClock.After(old(State()), CfsClock.Spawn(p))
    {
      hide Holds, InOrder, Balanced, Inv, Scan, Search, Nodes, Shielded, Do, CfsClock.After;
      ghost var q, k := View(), Add32(CHILD_VRUNTIME, minVruntime);
      QueueFacts(q);
      InOrderNodes(rq.tree, current);
      InOrderNodes(rq.tree, p);
      ghost var c, t := Focus(rq, current);
      ForkKeeps(q, c, t, p);
      if Prompt() { SpawnIs(q, jiffies, p); }
      Newborn(p);
      SearchOther(rq.tree, q.key, Keys(rq.space), k, 0);
      assert q.key[p := CHILD_VRUNTIME][p := k] == q.key[p := k];
      CfsEnqueue(p, 0);
      Members(rq);
    }

    method Newborn(p: Task)
      requires p in rq.space
      modifies p`vruntime, p`state
      ensures p.vruntime == CHILD_VRUNTIME && p.state == RUNNING && View() == old(View()).(key := old(View()).key[p := CHILD_VRUNTIME])
    {
      p.vruntime := CHILD_VRUNTIME;
      p.state := RUNNING;
    }

    /** do_exit. */
    method DoExit()
      requires Valid() && |View().tasks| > 1
      modifies this`minVruntime, this`current, current`vruntime, current`state, rq`node, rq`tree
      modifies rq.space`left, rq.space`right, rq.space`parent, rq.space`red
      ensures Valid() && View() == Do(old(View()), Event.Schedule(false))
      ensures old(current).state == ZOMBIE && old(current) !in View().tasks && current == old(View().tasks)[1]
      ensures old(current).vruntime == old(Sub32(current.vruntime, minVruntime))
    {
      hide Holds, InOrder, Balanced, Inv, Do;
      current.state := ZOMBIE;
      Gone(View());
      Schedule();
    }

    /** block. */
    method Block(p: Task)
      requires Valid() && |View().tasks| > 1
      modifies this`minVruntime, this`current, current`vruntime, p`state, rq`node, rq`tree
      modifies rq.space`left, rq.space`right, rq.space`parent, rq.space`red
      ensures Valid() && View() == Do(old(View()), Event.Schedule(p != old(current) && old(current.state).RUNNING?))
      ensures p.state == INTERRUPTIBLE && current == old(View().tasks)[1]
      ensures p == old(current) ==> p !in View().tasks && p.vruntime == old(Sub32(current.vruntime, minVruntime))
    {
      hide Holds, InOrder, Balanced, Inv, Do;
      p.state := INTERRUPTIBLE;
      Gone(View());
      Schedule();
    }
  }

  /** What every task has after the loops of start-up. */
  ghost predicate Ready(ts: seq<Task>)
    reads ts`state, ts`ticks
  {
    forall i :: 0 <= i < |ts| ==> ts[i].state == RUNNING && ts[i].ticks == KERNEL_PRIOR
  }

  lemma {:induction false} BothReady(ts: seq<Task>)
    ensures ts == [] ==> Ready(ts)
    ensures |ts| == 2 && Ready(ts) ==> ts[0].state == RUNNING && ts[1].state == RUNNING
  {
  }

  /** The tree of a task and one inserted behind it. */
  ghost function Pair(a: Task, b: Task): T {
    Node(Leaf, a, false, Node(Leaf, b, true, Leaf))
  }

  /** After a turn of the first of two tasks the tree is the one that inserting it behind the other gives. */
  ghost predicate TookTurns(ts: seq<Task>, ts': seq<Task>, t: T) {
    |ts| == 2 && ts' == [ts[1], ts[0]] ==> t == Pair(ts[1], ts[0])
  }

  lemma {:induction false} Turns(ts: seq<Task>, ts': seq<Task>, t: T)
    requires |ts| > 1 && (ts' == ts[1..] || (|ts[1..]| == 1 && ts' == ts[1..] + [ts[0]] ==> t == Pair(ts[1..][0], ts[0])))
    ensures TookTurns(ts, ts', t)
  {
  }

  lemma {:induction false} EnqueueAny(q: Queue<Task>, cur: Task, n: Task, k: u32)
    requires Keyed(q.tasks, q.key)
    ensures Enqueue(q, n, k).cur == q.cur && Enqueue(q.(cur := cur), n, k) == Enqueue(q, n, k).(cur := cur)
  {
    hide Place;
  }

  lemma {:induction false} PickTasks(q: Queue<Task>)
    requires Keyed(q.tasks, q.key) && q.cur in q.key && |q.tasks| > 1
    ensures Pick(q).tasks == q.tasks[1..]
  {
  }

  lemma {:induction false} Lone(t: T, a: Task)
    requires Balanced(t) && InOrder(t) == [a]
    ensures t == Node(Leaf, a, false, Leaf)
  {
    assert t.Node?;
    assert |InOrder(t)| == |InOrder(t.left)| + 1 + |InOrder(t.right)|;
    assert InOrder(t)[|InOrder(t.left)|] == t.n;
    NoRecords(t.left);
    NoRecords(t.right);
  }

  lemma {:induction false} NoRecords(t: T)
    ensures InOrder(t) == [] <==> t.Leaf?
  {
  }

  lemma {:induction false} Behind(a: Task, b: Task, i: nat)
    requires a != b && i <= 1 && [a][..i] + [b] + [a][i..] == [a] + [b]
    ensures i == 1
  {
    assert ([a][..i] + [b] + [a][i..])[0] == if i == 0 then b else a;
  }

  /** A second task is inserted below the first, which is black, so that the tree is not turned. */
  lemma {:induction false} Second(t: T, c: C, a: Task, b: Task)
    requires Balanced(t) && InOrder(t) == [a] && Plug(c, Leaf) == t && a != b
    requires var i := |Before(c)|; i <= 1 && [a][..i] + [b] + [a][i..] == [a] + [b]
    ensures c == InRight(Top, Leaf, a, false) && Blackened(Plug(c, Node(Leaf, b, true, Leaf))) == Pair(a, b)
  {
    Lone(t, a);
    Behind(a, b, |Before(c)|);
    var l: T := Leaf;
    PlugInOrder(c.up, Whole(c, l));
    assert c.up.Top?;
  }

  ghost function One(x: Task?): seq<Task> {
    if x == null then [] else [x]
  }

  /** The queue while init_task fills it: x holds the first key and y the second, if they are there. */
  ghost predicate Held(q: Queue<Task>, x: Task?, y: Task?) {
    && q.tasks == One(x) + One(y) && q.min == MIN_VRUNTIME
    && (x != null ==> x in q.key && q.key[x] == MIN_VRUNTIME)
    && (y != null ==> y in q.key && q.key[y] == MIN_VRUNTIME + 1)
  }

  lemma {:induction false} HeldOther(q: Queue<Task>, x: Task?, y: Task?, n: Task, v: u32)
    requires Held(q, x, y) && n != x && n != y
    ensures Held(q.(key := q.key[n := v]), x, y) && n !in q.tasks
  {
  }

  lemma {:induction false} HeldSplits(q: Queue<Task>, x: Task?, y: Task?, v: u32)
    requires Held(q, x, y) && v < 2
    ensures Keyed(q.tasks, q.key) && Splits(q.tasks, q.key, Add32(v, MIN_VRUNTIME))
  {
    assert Ordered(q.tasks, q.key, MIN_VRUNTIME);
    OrderedSplits(q.tasks, q.key, MIN_VRUNTIME, Add32(v, MIN_VRUNTIME));
  }

  lemma {:induction false} HeldInsert(q: Queue<Task>, x: Task?, y: Task?, n: Task, v: u32)
    requires Held(q, x, y) && n != x && n != y && v < 2
    ensures var k := Add32(v, MIN_VRUNTIME);
            && Keyed(q.tasks, q.key)
            && Held(Enqueue(q, n, k), if v == 0 && x == null then n else x, if v == 1 && y == null then n else y)
  {
    var ts, k := q.tasks, Add32(v, MIN_VRUNTIME);
    HeldPlace(q, x, y, v);
    hide Scan;
    if v == 0 && x == null {
      assert ts[..0] + [n] + ts[0..] == [n] + One(y);
    } else if v == 1 && y == null {
      assert ts[..|ts|] + [n] + ts[|ts|..] == One(x) + [n];
    }
  }

  lemma {:induction false} HeldPlace(q: Queue<Task>, x: Task?, y: Task?, v: u32)
    requires Held(q, x, y) && v < 2
    ensures var r := Scan(q.tasks, q.key, Add32(v, MIN_VRUNTIME));
            && Keyed(q.tasks, q.key) && (r.found <==> if v == 0 then x != null else y != null)
            && (!r.found ==> r.i == if v == 0 then 0 else |q.tasks|)
  {
    var ts, k := q.tasks, Add32(v, MIN_VRUNTIME);
    assert x != null ==> ts[0] == x && x in ts;
    assert y != null ==> ts[|ts| - 1] == y && y in ts;
    assert Ordered(ts, q.key, MIN_VRUNTIME);
    PlaceInOrder(ts, q.key, MIN_VRUNTIME, k);
    hide Place;
  }

  lemma {:induction false} Two(q: Queue<Task>, a: Task, b: Task)
    requires Held(q, a, b) && a != b
    ensures q.tasks == [a, b] && Inv(q.(cur := a)) && q.key[a] == MIN_VRUNTIME && q.key[b] == MIN_VRUNTIME + 1
  {
    assert q.tasks == [a, b] && [a, b][1..] == [b];
    FirstRuns(q.(cur := a));
  }

  lemma {:induction false} SpawnIs(q: Queue<Task>, jiffies: nat, n: Task)
    requires Inv(q) && n !in q.tasks && Sub32(q.key[q.cur], q.min) < CHILD_VRUNTIME
    ensures CfsClock.After(CfsClock.System(q, jiffies), CfsClock.Spawn(n)) == CfsClock.System(Do(q, Fork(n, false)), jiffies)
  {
    ForkEarly(q, n);
    hide Inv, Do, Enqueue;
  }

  /** A task that is not runnable is in the queue no more. */
  lemma {:induction false} Gone(q: Queue<Task>)
    requires Inv(q) && |q.tasks| > 1
    ensures q.cur !in Do(q, Event.Schedule(false)).tasks
  {
    assert q.cur !in q.tasks[1..];
  }

  lemma {:induction false} QueueFacts(q: Queue<Task>)
    requires Inv(q)
    ensures Keyed(q.tasks, q.key) && q.cur in q.key && q.tasks != [] && q.cur in q.tasks
    ensures Without(q.tasks, q.cur) == q.tasks[1..] && (|q.tasks| > 1 ==> q.tasks[1] != q.cur) && q.tasks[0] == q.cur
  {}

  lemma {:induction false} KeyOf(space: set<Task>, n: Task)
    requires n in space
    ensures n in Keys(space) && Keys(space)[n] == n.vruntime
  {
  }

  /** The place of a task in the tree. */
  lemma {:induction false} Focus(rq: RbRoot, n: Task) returns (c: C, t: T)
    requires rq.Valid() && n in Nodes(rq.tree)
    ensures Plug(c, t) == rq.tree && t.Node? && t.n == n && Distinct(rq.tree) && n.parent == ParentOf(c)
  {
    c, t := Locate(Top, rq.tree, n);
    Root(rq.Mem(), rq.node, c, t);
    Around(rq.Mem(), rq.node, c, t);
  }

  lemma {:induction false} NoTree(m: Mem)
    ensures var t: T := Leaf; Holds(m, null, Top, t) && Balanced(t) && InOrder(t) == []
  {
    assert RB(Leaf, 0);
  }

  lemma {:induction false} Apart(sys: seq<Task>, usr: seq<Task>)
    requires NoDup(sys + usr) && |sys| == 2 && |usr| == 2
    ensures sys[0] != sys[1] && usr[0] != usr[1] && forall i, j :: 0 <= i < 2 && 0 <= j < 2 ==> sys[i] != usr[j]
    ensures forall i :: 0 <= i < 2 ==> sys[i] in sys + usr && usr[i] in sys + usr
  {
    var s := sys + usr;
    assert s[0] == sys[0] && s[1] == sys[1] && s[2] == usr[0] && s[3] == usr[1];
  }

  /** A user process whose key was taken is not queued. */
  lemma {:induction false} Refused(sys: seq<Task>, usr: seq<Task>, init: nat)
    requires NoDup(sys + usr) && |sys| == 2 && |usr| == 2
    ensures var ts := [if init == 0 then usr[0] else sys[0], if init == 1 then usr[1] else sys[1]];
            |(set n | n in usr && n in ts)| < 2
  {
    Apart(sys, usr);
    hide NoDup;
    var a, b := if init == 0 then usr[0] else sys[0], if init == 1 then usr[1] else sys[1];
    var u, v := if init == 0 then usr[0] else usr[1], if init == 0 then usr[1] else usr[0];
    assert v != a && v != b;
    var here := set n | n in usr && n in [a, b];
    forall n | n in here ensures n == u { Either(usr, n); Either([a, b], n); }
    AtMostOne(here, u);
  }

  lemma {:induction false} Either(ts: seq<Task>, n: Task)
    requires |ts| == 2 && n in ts
    ensures n == ts[0] || n == ts[1]
  {
  }

  lemma {:induction false} AtMostOne(s: set<Task>, u: Task)
    requires forall n :: n in s ==> n == u
    ensures |s| < 2
  {
    assert s == {} || s == {u};
  }

  // A fork that puts the child before the running task

  /** The turn of the first task after start-up: four clock interrupts, the last of which schedules. */
  method FirstTurn(s: Scheduler, ghost a: Task, ghost b: Task)
    requires s.Valid() && s.jiffies == 0 && a != b && a.state == RUNNING
    requires s.current == a && s.View().tasks == [a, b] && s.minVruntime == a.vruntime == MIN_VRUNTIME && b.vruntime == MIN_VRUNTIME + 1
    requires a in s.rq.space && b in s.rq.space
    modifies s, s.rq`node, s.rq`tree, s.rq.space`left, s.rq.space`right, s.rq.space`parent, s.rq.space`red
    modifies s.rq.space`vruntime, s.rq.space`ticks
    ensures s.Valid() && s.rq.tree == Pair(b, a)
    ensures s.View() == Queue(b, [b, a], old(s.View()).key[a := 105], 101)
  {
    hide Inv, InOrder, Holds, Balanced, Nodes, Do, TookTurns, Enabled, CfsClock.After, Keys, Scheduler.Valid;
    ghost var q := s.View();
    Leftmost(s);
    Unscheduled(s, 3, false);
    TickOn(q, 3);
    s.ClockHandler(false);
    FirstPick(q, a, b);
    TwoTurns(q.tasks, s.View().tasks, s.rq.tree);
  }

  ghost function Ticked(q: Queue<Task>, n: u32): Queue<Task>
    requires q.cur in q.key
  {
    q.(key := q.key[q.cur := Add32(q.key[q.cur], n)])
  }

  lemma {:induction false} TickOn(q: Queue<Task>, n: u32)
    requires Sane(q) && q.key[q.cur] == q.min && n < 100
    ensures var q' := Ticked(q, n); Sane(q') && Enabled(q', Tick) && Do(q', Tick) == Ticked(q, n + 1)
  {
    assert q.key[q.cur := Add32(q.key[q.cur], n)][q.cur := Add32(q.key[q.cur], n + 1)] == q.key[q.cur := Add32(q.key[q.cur], n + 1)];
  }

  lemma {:induction false} FirstPick(q: Queue<Task>, a: Task, b: Task)
    requires a != b && q.cur == a && q.tasks == [a, b] && a in q.key && b in q.key && q.key[a] == q.min == 100 && q.key[b] == 101
    ensures Sane(Ticked(q, 4)) && Do(Ticked(q, 4), Event.Schedule(true)) == Queue(b, [b, a], q.key[a := 105], 101)
  {
    CfsClock.TurnIs(a, [b], [], q.key, 100);
    assert [a] + [b] + [] == [a, b] && [b] + [a] + [] == [b, a];
    hide Do;
  }

  lemma {:induction false} TwoTurns(ts: seq<Task>, ts': seq<Task>, t: T)
    requires TookTurns(ts, ts', t) && |ts| == 2 && ts' == [ts[1], ts[0]]
    ensures t == Pair(ts[1], ts[0])
  {
  }

  /** Ticks that do not schedule: those before the first fourth one, and those while the kernel is at work. */
  method Unscheduled(s: Scheduler, n: u32, nested: bool)
    requires s.Valid() && n < 100 && s.current in s.rq.space && s.current.vruntime == s.minVruntime
    requires nested || (s.jiffies == 0 && n < NR_PROCESS)
    modifies s, s.rq`node, s.rq`tree, s.rq.space`left, s.rq.space`right, s.rq.space`parent, s.rq.space`red
    modifies s.rq.space`vruntime, s.rq.space`ticks
    ensures s.Valid() && s.rq.tree == old(s.rq.tree) && s.View() == Ticked(old(s.View()), n) && s.jiffies == old(s.jiffies) + n
  {
    hide Inv, InOrder, Holds, Balanced, Nodes, Do, TookTurns, Enabled, CfsClock.After, Keys, Scheduler.Valid;
    ghost var q := s.View();
    Leftmost(s);
    assert q.key[q.cur := Add32(q.key[q.cur], 0)] == q.key;
    for i := 0 to n
      invariant s.Valid() && s.rq.space == old(s.rq.space) && s.rq.tree == old(s.rq.tree) && s.View() == Ticked(q, i)
      invariant s.jiffies == old(s.jiffies) + i
    {
      TickOn(q, i);
      s.ClockHandler(nested);
    }
  }

  /** Start-up, one turn of the first task, eleven ticks in one system call of the second, and its fork: the child is
      queued before the running task. */
  method LateFork(rq: RbRoot, sys: seq<Task>, usr: seq<Task>, init: nat, p: Task) returns (s: Scheduler)
    requires |sys| == NR_SYSTEM_PROCS && |usr| == NR_USER_PROCS && NoDup(sys + usr)
    requires (forall n :: n in sys + usr ==> n in rq.space) && p in rq.space && p !in sys + usr
    modifies rq`node, rq`tree, rq.space
    ensures s.rq == rq && rq.Valid() && !s.Valid()
    ensures var a, b := if init == 0 then usr[0] else sys[0], if init == 1 then usr[1] else sys[1];
            s.current == b && s.View().tasks == [p, b, a]
  {
    hide Inv, InOrder, Holds, Balanced, Nodes, Do, NoDup, Search, Shielded, Ready, Keys, Scheduler.Valid;
    ghost var a, b;
    s, a, b := AfterTurn(rq, sys, usr, init);
    Leftmost(s);
    Unscheduled(s, 11, true);
    Leftmost(s);
    ForkNow(s, a, b, p);
  }

  method AfterTurn(rq: RbRoot, sys: seq<Task>, usr: seq<Task>, init: nat) returns (s: Scheduler, ghost a: Task, ghost b: Task)
    requires |sys| == NR_SYSTEM_PROCS && |usr| == NR_USER_PROCS && NoDup(sys + usr)
    requires forall n :: n in sys + usr ==> n in rq.space
    modifies rq`node, rq`tree, rq.space
    ensures s.Valid() && fresh(s) && s.rq == rq && s.rq.tree == Pair(b, a) && s.minVruntime == 101 && s.View().tasks == [b, a]
    ensures b.vruntime == 101 && a in rq.space && b in rq.space && a in sys + usr && b in sys + usr
    ensures a == (if init == 0 then usr[0] else sys[0]) && b == (if init == 1 then usr[1] else sys[1])
  {
    hide Inv, InOrder, Holds, Balanced, Nodes, Do, NoDup, Search, Shielded, Ready, Keys, Scheduler.Valid;
    s := new Scheduler(rq, sys, usr, init);
    Apart(sys, usr);
    a, b := if init == 0 then usr[0] else sys[0], if init == 1 then usr[1] else sys[1];
    BothReady(sys);
    BothReady(usr);
    Leftmost(s);
    FirstTurn(s, a, b);
    Leftmost(s);
  }

  lemma {:induction false} Leftmost(s: Scheduler)
    requires s.Valid()
    ensures Sane(s.View()) && s.View().tasks != [] && s.current == s.View().tasks[0]
    ensures forall n :: n in s.rq.space ==> n in s.View().key && s.View().key[n] == n.vruntime
  {
  }

  method ForkNow(s: Scheduler, ghost a: Task, ghost b: Task, p: Task)
    requires s.Valid() && s.rq.tree == Pair(b, a) && p in s.rq.space && p != a && p != b && b in s.rq.space
    requires s.current == b && s.View().tasks == [b, a] && s.minVruntime == 101 && b.vruntime == 112
    modifies p`vruntime, p`state, s.rq`node, s.rq`tree
    modifies s.rq.space`left, s.rq.space`right, s.rq.space`parent, s.rq.space`red
    ensures s.rq.Valid() && !s.Valid() && s.View().tasks == [p, b, a]
  {
    hide Inv, InOrder, Holds, Balanced, Do, Search, Shielded;
    RootParent(s.rq, b, a);
    LeftOfRoot(s.rq.tree, s.View().key, 111);
    Unshielded(s.View(), 111);
    assert [b, a][..0] + [p] + [b, a][0..] == [p, b, a];
    s.DoFork(p);
  }

  lemma {:induction false} Unshielded(q: Queue<Task>, k: u32)
    ensures !Shielded(q, null, k)
  {
  }

  lemma {:induction false} RootParent(rq: RbRoot, a: Task, b: Task)
    requires rq.Valid() && rq.tree == Pair(a, b)
    ensures a.parent == null
  {
    Around(rq.Mem(), rq.node, Top, rq.tree);
  }
}
