/** The fair run queue as a state machine: tasks in tree order, their 32-bit virtual run times,
    and the steps of kernel/sched.c, kernel/clock.c and kernel/fork.c on them. */
module CfsQueue {
  import opened Words

  const HALF := 0x8000_0000
  /** What do_fork gives a new task before it is enqueued. */
  const CHILD_VRUNTIME: u32 := 10
  /** NR_SYSTEM_PROCS + NR_USER_PROCS. */
  const NR_PROCESS := 4

  /** Unsigned 32-bit arithmetic. */
  function Add32(a: u32, b: u32): u32 { if a + b < M then a + b else a + b - M }
  function Sub32(a: u32, b: u32): u32 { if a >= b then a - b else a - b + M }

  /** The unsigned difference a - b stored in an int. */
  function Diff(a: u32, b: u32): int {
    var d := Sub32(a, b);
    if d < HALF then d else d - M
  }

  /** On keys less than 2^31 above a common base, modulo 2^32, the comparison is the order of the
      distances from the base. */
  lemma DiffIsDistance(a: u32, b: u32, base: u32)
    requires Sub32(a, base) < HALF && Sub32(b, base) < HALF
    ensures Diff(a, b) == Sub32(a, base) - Sub32(b, base)
  {}

  /** cur is the running task. The key of a task may be out of date with respect to its place in
      `tasks` only when it is cur. */
  datatype Queue<N> = Queue(cur: N, tasks: seq<N>, key: map<N, u32>, min: u32)

  ghost predicate Keyed<N>(ts: seq<N>, key: map<N, u32>) {
    forall n :: n in ts ==> n in key
  }

  /** In strict order, within 2^31 above min. */
  ghost predicate Ordered<N>(ts: seq<N>, key: map<N, u32>, min: u32)
    requires Keyed(ts, key)
  {
    && (forall i :: 0 <= i < |ts| ==> Sub32(key[ts[i]], min) < HALF)
    && (forall i, j :: 0 <= i < j < |ts| ==> Sub32(key[ts[i]], min) < Sub32(key[ts[j]], min))
  }

  /** The running task is leftmost, whatever its key; all others are above min in strict order. */
  ghost predicate Inv<N>(q: Queue<N>) {
    && q.tasks != [] && q.tasks[0] == q.cur && Keyed(q.tasks, q.key) && NoDup(q.tasks)
    && Sub32(q.key[q.cur], q.min) < HALF
    && Keyed(q.tasks[1..], q.key) && Ordered(q.tasks[1..], q.key, q.min)
    && forall n :: n in q.tasks[1..] ==> q.key[n] != q.min
  }

  /** Where ts_insert puts key k: after the tasks it compares greater than. */
  ghost function Place<N>(ts: seq<N>, key: map<N, u32>, k: u32): (i: nat)
    requires Keyed(ts, key)
    ensures i <= |ts|
  {
    if ts == [] || Diff(k, key[ts[0]]) <= 0 then 0 else 1 + Place(ts[1..], key, k)
  }

  /** Past the place of k there are only greater keys, so that a search for k in any tree with this
      order ends there. */
  ghost predicate Splits<N>(ts: seq<N>, key: map<N, u32>, k: u32)
    requires Keyed(ts, key)
  {
    forall j :: Place(ts, key, k) < j < |ts| ==> Diff(k, key[ts[j]]) < 0
  }

  /** Where a search for a key ends: at position i, which is the position of the same key or is free. */
  datatype Spot = Spot(i: nat, found: bool)

  /** cfs_enqueue of n with the key k, when the search for k ends at r: a key that is there already is refused. */
  ghost function EnqueueAt<N>(q: Queue<N>, n: N, k: u32, r: Spot): Queue<N>
    requires r.i <= |q.tasks|
  {
    var q' := q.(key := q.key[n := k]);
    if r.found then q' else q'.(tasks := q.tasks[..r.i] + [n] + q.tasks[r.i..])
  }

  /** The end of a scan of the tasks in order. */
  ghost function Scan<N>(ts: seq<N>, key: map<N, u32>, k: u32): (r: Spot)
    requires Keyed(ts, key)
    ensures r.i <= |ts|
  {
    var i := Place(ts, key, k);
    Spot(i, i < |ts| && key[ts[i]] == k)
  }

  ghost function Enqueue<N>(q: Queue<N>, n: N, k: u32): Queue<N>
    requires Keyed(q.tasks, q.key)
  {
    EnqueueAt(q, n, k, Scan(q.tasks, q.key, k))
  }

  /** The queue as if the running task had not run since it was picked. */
  ghost function Rewound<N>(q: Queue<N>): Queue<N> {
    q.(key := q.key[q.cur := q.min])
  }

  datatype Event<N> =
    | Tick                             // clock_handler bumps the running task's key in place
    | Fork(child: N, refused: bool)    // do_fork enqueues a new task, or is refused for having the running task's key
    | Schedule(runnable: bool)         // schedule, called by a task that may still be runnable or not

  ghost predicate Sane<N>(q: Queue<N>) {
    Keyed(q.tasks, q.key) && q.cur in q.key
  }

  /** A fork counts as an event when its search does not put the child before the running task: it ends
      beside that task, as if it had not run, or is refused by its key. */
  ghost predicate Enabled<N>(q: Queue<N>, e: Event<N>)
    requires Sane(q)
  {
    match e
    case Tick => Sub32(q.key[q.cur], q.min) + 1 < HALF
    case Fork(n, refused) => n !in q.tasks && (refused ==> Sub32(q.key[q.cur], q.min) == CHILD_VRUNTIME)
    case Schedule(_) => |q.tasks| > 1
  }

  ghost function Do<N>(q: Queue<N>, e: Event<N>): (q': Queue<N>)
    requires Sane(q) && (e.Schedule? ==> |q.tasks| > 1)
    ensures Sane(q')
  {
    match e
    case Tick => q.(key := q.key[q.cur := Add32(q.key[q.cur], 1)])
    case Fork(n, refused) =>
      var k := Add32(CHILD_VRUNTIME, q.min);
      EnqueueAt(q, n, k, if refused then Spot(0, true) else Scan(q.tasks, Rewound(q).key, k))
    case Schedule(runnable) =>
      var q1 := Pick(q);
      if runnable then Enqueue(q1, q.cur, Add32(q1.key[q.cur], q1.min)) else q1
  }

  /** The running task is out of the queue, its key what it ran since it was picked; the leftmost
      of the others is picked and sets the minimum. */
  ghost function Pick<N>(q: Queue<N>): (q1: Queue<N>)
    requires Keyed(q.tasks, q.key) && q.cur in q.key && |q.tasks| > 1
    ensures Keyed(q1.tasks, q1.key)
  {
    var next := q.tasks[1];
    Queue(next, q.tasks[1..], q.key[q.cur := Sub32(q.key[q.cur], q.min)], q.key[next])
  }

  lemma {:induction false} PlaceInOrder<N>(ts: seq<N>, key: map<N, u32>, min: u32, k: u32)
    requires Keyed(ts, key) && Ordered(ts, key, min) && Sub32(k, min) < HALF
    ensures var i := Place(ts, key, k);
            && (forall j :: 0 <= j < i ==> Sub32(key[ts[j]], min) < Sub32(k, min))
            && (forall j :: i <= j < |ts| ==> Sub32(k, min) <= Sub32(key[ts[j]], min))
            && ((i < |ts| && key[ts[i]] == k) || forall j :: 0 <= j < |ts| ==> key[ts[j]] != k)
  {
    if ts != [] {
      DiffIsDistance(k, key[ts[0]], min);
      PlaceInOrder(ts[1..], key, min, k);
    }
  }

  lemma {:induction false} InsertInOrder<N>(ts: seq<N>, key: map<N, u32>, min: u32, n: N, k: u32, i: nat)
    requires Keyed(ts, key) && Ordered(ts, key, min) && n !in ts && Sub32(k, min) < HALF && i <= |ts|
    requires forall j :: 0 <= j < i ==> Sub32(key[ts[j]], min) < Sub32(k, min)
    requires forall j :: i <= j < |ts| ==> Sub32(k, min) < Sub32(key[ts[j]], min)
    ensures var ts', key' := ts[..i] + [n] + ts[i..], key[n := k];
            Keyed(ts', key') && Ordered(ts', key', min)
  {}

  lemma {:induction false} OrderedSplits<N>(ts: seq<N>, key: map<N, u32>, min: u32, k: u32)
    requires Keyed(ts, key) && Ordered(ts, key, min) && Sub32(k, min) < HALF
    ensures Splits(ts, key, k)
  {
    PlaceInOrder(ts, key, min, k);
    forall j | Place(ts, key, k) < j < |ts|
      ensures Diff(k, key[ts[j]]) < 0
    {
      DiffIsDistance(k, key[ts[j]], min);
    }
  }

  /** Distances from a later base. */
  lemma Rebase(k: u32, base: u32, min: u32)
    requires Sub32(base, min) <= Sub32(k, min) < HALF
    ensures Sub32(k, base) == Sub32(k, min) - Sub32(base, min)
  {}

  lemma {:induction false} TickKeeps<N>(q: Queue<N>)
    requires Inv(q) && Enabled(q, Tick)
    ensures Inv(Do(q, Tick))
  {
    assert q.cur !in q.tasks[1..];
  }

  lemma {:induction false} MakeInv<N>(q: Queue<N>, rest: seq<N>)
    requires q.tasks == [q.cur] + rest && NoDup(rest) && q.cur !in rest && q.cur in q.key
    requires Sub32(q.key[q.cur], q.min) < HALF && Keyed(rest, q.key) && Ordered(rest, q.key, q.min)
    requires forall n :: n in rest ==> q.key[n] != q.min
    ensures Inv(q)
  {
    assert q.tasks[1..] == rest;
  }

  lemma {:induction false} InsertSeq<N>(ts: seq<N>, i: nat, n: N)
    requires i <= |ts|
    ensures var ts' := ts[..i] + [n] + ts[i..];
            && (forall m :: m in ts' <==> m in ts || m == n) && multiset(ts') == multiset(ts) + multiset{n}
            && (NoDup(ts) && n !in ts ==> NoDup(ts'))
  {
    assert ts == ts[..i] + ts[i..];
  }

  lemma {:induction false} InsertAfterFirst<N>(c: N, ts: seq<N>, i: nat, n: N)
    requires i <= |ts|
    ensures var all := [c] + ts; all[..i + 1] + [n] + all[i + 1..] == [c] + (ts[..i] + [n] + ts[i..])
    ensures multiset([c] + ts) == multiset(ts) + multiset{c}
  {}

  /** Inserting n at its place in an ordered sequence. */
  lemma {:induction false} Inserted<N>(ts: seq<N>, key: map<N, u32>, min: u32, n: N, k: u32)
    requires Keyed(ts, key) && Ordered(ts, key, min) && n !in ts && Sub32(k, min) < HALF
    ensures var i, key' := Place(ts, key, k), key[n := k]; var ts' := ts[..i] + [n] + ts[i..];
            if i < |ts| && key[ts[i]] == k then Keyed(ts, key') && Ordered(ts, key', min)
            else
              && (forall m :: m in ts ==> key[m] != k) && Keyed(ts', key') && Ordered(ts', key', min)
  {
    PlaceInOrder(ts, key, min, k);
    var i := Place(ts, key, k);
    if i == |ts| || key[ts[i]] != k {
      InsertInOrder(ts, key, min, n, k, i);
    }
  }

  /** The order of a tree that starts empty and takes the tasks of ins one after the other. */
  ghost function Built<N>(ins: seq<N>, key: map<N, u32>): (ts: seq<N>)
    requires Keyed(ins, key)
    ensures forall n :: n in ts ==> n in ins
  {
    if ins == [] then []
    else
      var ts, n := Built(ins[..|ins| - 1], key), ins[|ins| - 1];
      var r := Scan(ts, key, key[n]);
      assert forall x :: x in ins[..|ins| - 1] ==> x in ins;
      assert forall x :: x in ts[..r.i] + [n] + ts[r.i..] ==> x in ts || x == n;
      if r.found then ts else ts[..r.i] + [n] + ts[r.i..]
  }

  ghost predicate HasKey<N>(ts: seq<N>, key: map<N, u32>, k: u32)
    requires Keyed(ts, key)
  {
    exists n :: n in ts && key[n] == k
  }

  /** All keys are less than 2^31 above base. */
  ghost predicate Spans<N>(ts: seq<N>, key: map<N, u32>, base: u32)
    requires Keyed(ts, key)
  {
    forall n :: n in ts ==> Sub32(key[n], base) < HALF
  }

  /** Such an order is strict, and every key that was offered is in it exactly once. */
  lemma {:induction false} BuiltOrdered<N>(ins: seq<N>, key: map<N, u32>, base: u32)
    requires Keyed(ins, key) && Spans(ins, key, base)
    ensures Ordered(Built(ins, key), key, base)
    ensures forall n :: n in ins ==> HasKey(Built(ins, key), key, key[n])
  {
    if ins != [] {
      var ins0, n := ins[..|ins| - 1], ins[|ins| - 1];
      BuiltOrdered(ins0, key, base);
      var ts := Built(ins0, key);
      BuiltStep(ts, key, base, n);
      hide Ordered, Place;
      forall m | m in ins ensures HasKey(Built(ins, key), key, key[m]) {
        if m != n {
          assert m in ins0;
          var x :| x in ts && key[x] == key[m];
          assert x in Built(ins, key);
        }
      }
    }
  }

  lemma {:induction false} BuiltStep<N>(ts: seq<N>, key: map<N, u32>, base: u32, n: N)
    requires Keyed(ts, key) && Ordered(ts, key, base) && n in key && Sub32(key[n], base) < HALF
    ensures var r := Scan(ts, key, key[n]);
            var ts' := if r.found then ts else ts[..r.i] + [n] + ts[r.i..];
            && Keyed(ts', key) && Ordered(ts', key, base) && HasKey(ts', key, key[n]) && forall m :: m in ts ==> m in ts'
  {
    PlaceInOrder(ts, key, base, key[n]);
    var r := Scan(ts, key, key[n]);
    if r.found {
      assert ts[r.i] in ts;
    } else {
      assert n !in ts;
      Inserted(ts, key, base, n, key[n]);
      InsertSeq(ts, r.i, n);
      assert key[n := key[n]] == key;
      hide Place, Ordered;
      assert n in ts[..r.i] + [n] + ts[r.i..];
    }
  }

  /** The key of a task that is not in a sequence does not matter. */
  lemma {:induction false} PlaceOther<N>(ts: seq<N>, key: map<N, u32>, n: N, v: u32, k: u32)
    requires Keyed(ts, key) && n !in ts
    ensures Place(ts, key[n := v], k) == Place(ts, key, k)
  {
    if ts != [] { PlaceOther(ts[1..], key, n, v, k); }
  }

  /** A fork whose search ends beside the running task keeps the invariant and every waiting task, however
      long the running task has run. */
  lemma {:induction false} ForkAside<N>(q: Queue<N>, n: N)
    requires Inv(q) && n !in q.tasks
    ensures Inv(Do(q, Fork(n, false)))
    ensures forall m :: m in q.tasks ==> m in Do(q, Fork(n, false)).tasks
  {
    hide Do, Place, Ordered;
    var k, rest, q' := Add32(CHILD_VRUNTIME, q.min), q.tasks[1..], Do(q, Fork(n, false));
    assert q.tasks == [q.cur] + rest && q.cur !in rest;
    Inserted(rest, q.key, q.min, n, k);
    var i := Place(rest, q.key, k);
    InsertSeq(rest, i, n);
    ForkShape(q, n);
    if i < |rest| && q.key[rest[i]] == k {
      MakeInv(q', rest);
    } else {
      MakeInv(q', rest[..i] + [n] + rest[i..]);
    }
  }

  lemma {:induction false} ForkShape<N>(q: Queue<N>, n: N)
    requires Inv(q) && n !in q.tasks
    ensures var k, rest, q', key0 := Add32(CHILD_VRUNTIME, q.min), q.tasks[1..], Do(q, Fork(n, false)), Rewound(q).key;
            var i := Place(rest, q.key, k);
            && q'.cur == q.cur && q'.min == q.min && q'.key == q.key[n := k] && Place(q.tasks, key0, k) == i + 1
            && q'.tasks == [q.cur] + if i < |rest| && q.key[rest[i]] == k then rest else rest[..i] + [n] + rest[i..]
  {
    var k, rest := Add32(CHILD_VRUNTIME, q.min), q.tasks[1..];
    assert q.tasks == [q.cur] + rest && q.cur !in rest && Keyed(rest, q.key) && Keyed(rest, Rewound(q).key);
    hide Inv, Ordered, Place, Scan, Rewound;
    ForkPlace(q);
    InsertAfterFirst(q.cur, rest, Place(rest, q.key, k), n);
  }

  /** A child's key comes after the running task as if that had not run. */
  lemma {:induction false} ForkPlace<N>(q: Queue<N>)
    requires Inv(q)
    ensures var k, rest, key0 := Add32(CHILD_VRUNTIME, q.min), q.tasks[1..], Rewound(q).key;
            var i := Place(rest, q.key, k);
            && Keyed(q.tasks, key0) && Place(q.tasks, key0, k) == i + 1
            && Scan(q.tasks, key0, k) == Spot(i + 1, i < |rest| && q.key[rest[i]] == k)
  {
    var k, rest := Add32(CHILD_VRUNTIME, q.min), q.tasks[1..];
    assert q.tasks == [q.cur] + rest && q.cur !in rest && Keyed(rest, q.key) && Keyed(rest, Rewound(q).key);
    hide Inv, Ordered;
    PassFirst(q.cur, rest, Rewound(q).key, k);
    PlaceOther(rest, q.key, q.cur, q.min, k);
    var i := Place(rest, q.key, k);
    hide Place;
    assert i < |rest| ==> q.tasks[i + 1] == rest[i] && rest[i] in rest;
  }

  lemma {:induction false} PassFirst<N>(c: N, rest: seq<N>, key: map<N, u32>, k: u32)
    requires c in key && Keyed(rest, key) && Diff(k, key[c]) > 0
    ensures Keyed([c] + rest, key) && Place([c] + rest, key, k) == Place(rest, key, k) + 1
  {
    assert ([c] + rest)[1..] == rest;
  }

  /** For the rewound queue any tree search ends where the scan does. */
  lemma {:induction false} ForkSplits<N>(q: Queue<N>, n: N)
    requires Inv(q) && n !in q.tasks
    ensures Splits(q.tasks, Rewound(q).key, Add32(CHILD_VRUNTIME, q.min))
  {
    var k, rest := Add32(CHILD_VRUNTIME, q.min), q.tasks[1..];
    ForkShape(q, n);
    OrderedSplits(rest, q.key, q.min, k);
    assert q.cur !in rest;
    forall j | Place(q.tasks, Rewound(q).key, k) < j < |q.tasks|
      ensures Diff(k, Rewound(q).key[q.tasks[j]]) < 0
    {
      assert q.tasks[j] == rest[j - 1];
    }
  }

  /** While the running task has run less than a child's head start, its real key will do as well. */
  lemma {:induction false} ForkEarly<N>(q: Queue<N>, n: N)
    requires Inv(q) && n !in q.tasks && Sub32(q.key[q.cur], q.min) < CHILD_VRUNTIME
    ensures var k := Add32(CHILD_VRUNTIME, q.min);
            && Splits(q.tasks, q.key, k) && Scan(q.tasks, q.key, k) == Scan(q.tasks, Rewound(q).key, k)
            && Enqueue(q, n, k) == Do(q, Fork(n, false))
  {
    hide Inv, Scan, Splits;
    EarlyScan(q);
    EarlySplits(q, n);
  }

  lemma {:induction false} EarlyScan<N>(q: Queue<N>)
    requires Inv(q) && Sub32(q.key[q.cur], q.min) < CHILD_VRUNTIME
    ensures var k := Add32(CHILD_VRUNTIME, q.min);
            Place(q.tasks, q.key, k) == Place(q.tasks, Rewound(q).key, k) && Scan(q.tasks, q.key, k) == Scan(q.tasks, Rewound(q).key, k)
  {
    var k, rest := Add32(CHILD_VRUNTIME, q.min), q.tasks[1..];
    ForkPlace(q);
    DiffIsDistance(k, q.key[q.cur], q.min);
    assert q.tasks == [q.cur] + rest && Keyed(rest, q.key);
    hide Inv, Ordered;
    PassFirst(q.cur, rest, q.key, k);
    var i := Place(rest, q.key, k);
    hide Place, Rewound;
    assert i < |rest| ==> q.tasks[i + 1] == rest[i];
  }

  lemma {:induction false} EarlySplits<N>(q: Queue<N>, n: N)
    requires Inv(q) && n !in q.tasks && Sub32(q.key[q.cur], q.min) < CHILD_VRUNTIME
    ensures Splits(q.tasks, q.key, Add32(CHILD_VRUNTIME, q.min))
  {
    var k := Add32(CHILD_VRUNTIME, q.min);
    assert q.tasks[0] == q.cur && NoDup(q.tasks);
    EarlyScan(q);
    ForkSplits(q, n);
    hide Inv, Place, Scan;
    forall j | Place(q.tasks, q.key, k) < j < |q.tasks| ensures Diff(k, q.key[q.tasks[j]]) < 0 {
      assert q.tasks[j] != q.tasks[0];
      assert Diff(k, Rewound(q).key[q.tasks[j]]) < 0;
    }
  }

  /** A fork whose search ends at the running task. */
  lemma {:induction false} ForkInto<N>(q: Queue<N>, n: N, k: u32)
    requires Inv(q) && n !in q.tasks
    ensures Inv(EnqueueAt(q, n, k, Spot(0, true)))
    ensures !Inv(EnqueueAt(q, n, k, Spot(0, false)))
  {
    assert n != q.cur;
  }

  /** What a queue is after the running task has been taken out and the next one picked. */
  lemma {:induction false} Picked<N>(q: Queue<N>)
    requires Inv(q) && |q.tasks| > 1
    ensures var ts, min := q.tasks[1..], q.key[q.tasks[1]];
            && Ordered(ts, q.key, min) && q.cur !in ts && 0 < Sub32(min, q.min)
            && forall n :: n in ts ==> Sub32(q.key[n], min) == Sub32(q.key[n], q.min) - Sub32(min, q.min)
  {
    var ts, min := q.tasks[1..], q.key[q.tasks[1]];
    assert ts[0] == q.tasks[1];
    forall n | n in ts
      ensures Sub32(q.key[n], min) == Sub32(q.key[n], q.min) - Sub32(min, q.min)
    {
      Rebase(q.key[n], min, q.min);
    }
  }

  /** The key the running task is enqueued again with: what it ran since it was picked, above the
      new minimum. */
  ghost function Back<N>(q: Queue<N>): u32
    requires Inv(q) && |q.tasks| > 1
  {
    Add32(Sub32(q.key[q.cur], q.min), q.key[q.tasks[1]])
  }

  /** The time that the running task had run since it was picked is what its key is above the new minimum afterwards, or
      above zero if it is not runnable; no other task has another key. */
  ghost predicate KeptTime<N>(q: Queue<N>, q': Queue<N>, runnable: bool) {
    && q.cur in q.key && q'.key.Keys == q.key.Keys
    && Sub32(q'.key[q.cur], if runnable then q'.min else 0) == Sub32(q.key[q.cur], q.min)
    && forall n :: n in q.key && n != q.cur ==> q'.key[n] == q.key[n]
  }

  /** The running task stays in the queue. */
  ghost predicate Stays<N>(q: Queue<N>, runnable: bool)
    requires Inv(q) && |q.tasks| > 1
  {
    runnable && forall n :: n in q.tasks[1..] ==> q.key[n] != Back(q)
  }

  lemma {:induction false} ScheduleShape<N>(q: Queue<N>, runnable: bool) returns (i: nat)
    requires Inv(q) && |q.tasks| > 1
    ensures 0 < i < |q.tasks|
    ensures var q', ts := Do(q, Schedule(runnable)), q.tasks[1..];
            && Keyed(q'.tasks, q'.key) && Ordered(q'.tasks, q'.key, q'.min)
            && q'.tasks == (if Stays(q, runnable) then ts[..i] + [q.cur] + ts[i..] else ts)
            && q'.cur == q.tasks[1] && q'.min == q.key[q'.cur] && forall n :: n in ts ==> n in q'.key && q'.key[n] == q.key[n]
  {
    var ts, min := q.tasks[1..], q.key[q.tasks[1]];
    var key1 := q.key[q.cur := Sub32(q.key[q.cur], q.min)];
    Picked(q);
    assert ts[0] == q.tasks[1] && Keyed(ts, key1) && Ordered(ts, key1, min);
    hide Inv, Ordered;
    i := 1;
    if runnable {
      Inserted(ts, key1, min, q.cur, Back(q));
      if Stays(q, runnable) {
        i := Place(ts, key1, Back(q));
        DiffIsDistance(Back(q), min, min);
        assert i > 0;
      }
      hide Place;
    }
  }

  lemma {:induction false} ScheduleTime<N>(q: Queue<N>, runnable: bool)
    requires Inv(q) && |q.tasks| > 1
    ensures KeptTime(q, Do(q, Schedule(runnable)), runnable)
  {
    assert q.tasks[1] != q.cur && q.tasks[1] in q.tasks;
    hide Inv, Place, Keyed;
  }

  lemma {:induction false} BackSplits<N>(q: Queue<N>)
    requires Inv(q) && |q.tasks| > 1
    ensures var q1 := Pick(q); Splits(q1.tasks, q1.key, Add32(q1.key[q.cur], q1.min)) && q.cur !in q1.tasks && q1.cur == q1.tasks[0]
  {
    var ts, min := q.tasks[1..], q.key[q.tasks[1]];
    Picked(q);
    OrderedSplits(ts, q.key[q.cur := Sub32(q.key[q.cur], q.min)], min, Back(q));
  }

  /** schedule keeps the invariant, and picks the least key among the others. */
  lemma {:induction false} ScheduleKeeps<N>(q: Queue<N>, runnable: bool)
    requires Inv(q) && |q.tasks| > 1
    ensures var q' := Do(q, Schedule(runnable));
            && Inv(q') && q'.cur == q.tasks[1] && q'.min == q.key[q'.cur]
            && forall n :: n in q.tasks[1..] && n != q'.cur ==> Sub32(q.key[q'.cur], q.min) < Sub32(q.key[n], q.min)
  {
    hide Do, Stays;
    var ts := q.tasks[1..];
    var i := ScheduleShape(q, runnable);
    InsertSeq(ts, i, q.cur);
    assert ts[0] == q.tasks[1] && q.cur !in ts;
    FirstRuns(Do(q, Schedule(runnable)));
  }

  /** schedule loses no task but the running one, which stays exactly if it is runnable and its new
      key is unused; the others keep their keys, and it keeps the time it has run. */
  lemma {:induction false} ScheduleLoses<N>(q: Queue<N>, runnable: bool)
    requires Inv(q) && |q.tasks| > 1
    ensures var q' := Do(q, Schedule(runnable));
            && multiset(q'.tasks) == (if Stays(q, runnable) then multiset(q.tasks) else multiset(q.tasks[1..]))
            && KeptTime(q, q', runnable)
            && forall n :: n in q.tasks[1..] ==> n in q'.key && q'.key[n] == q.key[n] && n in q'.tasks
  {
    hide Do, Stays, Ordered, KeptTime, Sub32, Add32;
    ScheduleTime(q, runnable);
    var ts := q.tasks[1..];
    var i := ScheduleShape(q, runnable);
    InsertSeq(ts, i, q.cur);
    InsertAfterFirst(q.cur, ts, 0, q.cur);
    assert q.tasks == [q.cur] + ts;
  }

  /** The first task of an ordered queue can be the running one. */
  lemma {:induction false} FirstRuns<N>(q: Queue<N>)
    requires q.tasks != [] && q.tasks[0] == q.cur && NoDup(q.tasks) && Keyed(q.tasks, q.key)
    requires Ordered(q.tasks, q.key, q.min)
    ensures Inv(q)
  {
    MakeInv(q, q.tasks[1..]);
  }

  // Runs

  /** Each of a sequence of events is possible when it happens. */
  ghost predicate CanRun<N>(q: Queue<N>, es: seq<Event<N>>)
    requires Sane(q)
    decreases |es|
  {
    es == [] || (Enabled(q, es[0]) && CanRun(Do(q, es[0]), es[1..]))
  }

  ghost function Run<N>(q: Queue<N>, es: seq<Event<N>>): (q': Queue<N>)
    requires Sane(q) && CanRun(q, es)
    ensures Sane(q')
    decreases |es|
  {
    if es == [] then q else Run(Do(q, es[0]), es[1..])
  }

  lemma {:induction false} StepKeeps<N>(q: Queue<N>, e: Event<N>)
    requires Inv(q) && Enabled(q, e)
    ensures Inv(Do(q, e))
  {
    match e
    case Tick => TickKeeps(q);
    case Fork(n, refused) => if refused { ForkInto(q, n, Add32(CHILD_VRUNTIME, q.min)); } else { ForkAside(q, n); }
    case Schedule(runnable) => ScheduleKeeps(q, runnable);
  }

  /** From a state that meets the invariant, every run of events leads to one that does. */
  lemma {:induction false} RunKeeps<N>(q: Queue<N>, es: seq<Event<N>>)
    requires Inv(q) && CanRun(q, es)
    ensures Inv(Run(q, es))
    decreases |es|
  {
    assert Sane(q);
    hide Inv, Do;
    if es != [] {
      StepKeeps(q, es[0]);
      RunKeeps(Do(q, es[0]), es[1..]);
    }
  }

  lemma {:induction false} RunThen<N>(q: Queue<N>, first: seq<Event<N>>, rest: seq<Event<N>>)
    requires Sane(q) && CanRun(q, first) && CanRun(Run(q, first), rest)
    ensures CanRun(q, first + rest) && Run(q, first + rest) == Run(Run(q, first), rest)
    decreases |first|
  {
    hide Do;
    if first == [] {
      assert first + rest == rest;
    } else {
      assert (first + rest)[1..] == first[1..] + rest;
      RunThen(Do(q, first[0]), first[1..], rest);
    }
  }

  ghost function Ticks<N>(n: nat): seq<Event<N>> {
    if n == 0 then [] else [Tick] + Ticks(n - 1)
  }

  /** Ticks alone only raise the running task's key. */
  lemma {:induction false} TicksRun<N>(q: Queue<N>, n: nat)
    requires Sane(q) && Sub32(q.key[q.cur], q.min) + n < HALF
    ensures CanRun(q, Ticks(n)) && Run(q, Ticks(n)) == q.(key := q.key[q.cur := Add32(q.key[q.cur], n)])
    decreases n
  {
    if n > 0 {
      var q1 := Do(q, Tick);
      assert Ticks<N>(n)[1..] == Ticks(n - 1);
      TicksRun(q1, n - 1);
      assert q1.key[q.cur := Add32(q1.key[q.cur], n - 1)] == q.key[q.cur := Add32(q.key[q.cur], n)];
    } else {
      assert q.key[q.cur := q.key[q.cur]] == q.key;
    }
  }

  ghost function Schedules<N>(es: seq<Event<N>>): nat {
    if es == [] then 0 else (if es[0].Schedule? then 1 else 0) + Schedules(es[1..])
  }

  /** A waiting task is picked by a schedule, or comes at least one closer to the minimum by it;
      other steps leave its distance as it is. */
  lemma {:induction false} Closer<N>(q: Queue<N>, e: Event<N>, x: N)
    requires Inv(q) && Enabled(q, e) && x in q.tasks && x != q.cur
    ensures var q' := Do(q, e);
            && Inv(q') && x in q'.tasks && x in q'.key && q'.key[x] == q.key[x]
            && (e.Schedule? && x != q'.cur ==> Sub32(q.key[x], q'.min) < Sub32(q.key[x], q.min))
            && (!e.Schedule? ==> x != q'.cur && q'.min == q.min)
  {
    StepKeeps(q, e);
    assert x in q.tasks[1..];
    match e
    case Tick =>
    case Fork(n, refused) => if refused { ForkInto(q, n, Add32(CHILD_VRUNTIME, q.min)); } else { ForkAside(q, n); ForkShape(q, n); }
    case Schedule(runnable) =>
      ScheduleKeeps(q, runnable);
      ScheduleLoses(q, runnable);
      Picked(q);
  }

  /** Bounded waiting: whatever else happens, a queued task whose key is d above the minimum is
      picked by one of the next d schedules. */
  lemma {:induction false} BoundedWait<N>(q: Queue<N>, es: seq<Event<N>>, x: N) returns (k: nat)
    requires Inv(q) && CanRun(q, es) && x in q.tasks && x != q.cur && Sub32(q.key[x], q.min) <= Schedules(es)
    ensures k <= |es| && CanRun(q, es[..k]) && Run(q, es[..k]).cur == x
    ensures Schedules(es[..k]) <= Sub32(q.key[x], q.min)
    decreases |es|
  {
    WaitStep(q, es, x);
    hide Inv, Enabled, CanRun, Run, Schedules, Keyed, Do;
    var q', rest := Do(q, es[0]), es[1..];
    if q'.cur == x {
      k := 1;
      Still(q');
      Unroll(q, es[0], []);
      assert es[..1] == [es[0]] + [];
    } else {
      var k' := BoundedWait(q', rest, x);
      k := k' + 1;
      Unroll(q, es[0], rest[..k']);
      assert es[..k] == [es[0]] + rest[..k'];
    }
  }

  /** The first event of a run, seen from a waiting task. */
  lemma {:induction false} WaitStep<N>(q: Queue<N>, es: seq<Event<N>>, x: N)
    requires Inv(q) && CanRun(q, es) && x in q.tasks && x != q.cur && Sub32(q.key[x], q.min) <= Schedules(es)
    ensures es != [] && Enabled(q, es[0])
    ensures var q', n := Do(q, es[0]), if es[0].Schedule? then 1 else 0;
            && Inv(q') && CanRun(q', es[1..]) && n <= Sub32(q.key[x], q.min)
            && (q'.cur != x ==> x in q'.tasks && x in q'.key)
            && (q'.cur != x ==> n + Sub32(q'.key[x], q'.min) <= Sub32(q.key[x], q.min) <= n + Schedules(es[1..]))
  {
    assert x in q.tasks[1..] && q.key[x] != q.min;
    Closer(q, es[0], x);
    hide Inv, Enabled, Do;
  }

  lemma {:induction false} Still<N>(q: Queue<N>)
    requires Sane(q)
    ensures CanRun(q, []) && Run(q, []) == q && Schedules<N>([]) == 0
  {
  }

  lemma {:induction false} Unroll<N>(q: Queue<N>, e: Event<N>, es: seq<Event<N>>)
    requires Sane(q) && Enabled(q, e) && CanRun(Do(q, e), es)
    ensures var all := [e] + es;
            && CanRun(q, all) && Run(q, all) == Run(Do(q, e), es)
            && Schedules(all) == (if e.Schedule? then 1 else 0) + Schedules(es)
  {
    hide Inv, Do, Enabled;
    assert ([e] + es)[1..] == es;
  }
}
