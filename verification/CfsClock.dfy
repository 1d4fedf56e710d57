/** The scheduler driven by its own clock: every fourth tick schedules, so that a task is never far enough
    ahead of its place for a fork to go wrong, and runs from start-up that show what can be lost. */
module CfsClock {
  import opened Words
  import opened CfsQueue

  datatype System<N> = System(q: Queue<N>, jiffies: nat)

  datatype Act<N> =
    | Clock(runnable: bool)    // clock_handler, not nested, while the running task is runnable or not
    | Spawn(child: N)          // do_fork
    | Yield(runnable: bool)    // schedule from block, do_exit or anywhere else

  /** The running task has run no longer than since the last fourth tick. */
  ghost predicate Prompt<N>(s: System<N>)
    requires Sane(s.q)
  {
    Sub32(s.q.key[s.q.cur], s.q.min) <= s.jiffies % NR_PROCESS
  }

  /** What the code asks for: another task to switch to, and a new record for a child. */
  ghost predicate Possible<N>(s: System<N>, a: Act<N>) {
    match a
    case Clock(_) => (s.jiffies + 1) % NR_PROCESS == 0 ==> |s.q.tasks| > 1
    case Spawn(n) => n !in s.q.tasks
    case Yield(_) => |s.q.tasks| > 1
  }

  ghost function After<N>(s: System<N>, a: Act<N>): (s': System<N>)
    requires Sane(s.q) && Possible(s, a)
    ensures Sane(s'.q)
  {
    match a
    case Clock(runnable) =>
      var q := Do(s.q, Tick);
      System(if (s.jiffies + 1) % NR_PROCESS == 0 then Do(q, Schedule(runnable)) else q, s.jiffies + 1)
    case Spawn(n) => s.(q := Enqueue(s.q, n, Add32(CHILD_VRUNTIME, s.q.min)))
    case Yield(runnable) => s.(q := Do(s.q, Schedule(runnable)))
  }

  lemma {:induction false} PromptStep<N>(s: System<N>, a: Act<N>)
    requires Inv(s.q) && Prompt(s) && Possible(s, a)
    ensures Inv(After(s, a).q) && Prompt(After(s, a))
  {
    hide Place, Ordered;
    match a
    case Clock(runnable) =>
      TickKeeps(s.q);
      var q := Do(s.q, Tick);
      if (s.jiffies + 1) % NR_PROCESS == 0 { ScheduleKeeps(q, runnable); }
    case Spawn(n) =>
      ForkEarly(s.q, n);
      ForkAside(s.q, n);
      ForkShape(s.q, n);
    case Yield(runnable) =>
      ScheduleKeeps(s.q, runnable);
  }

  ghost predicate CanAct<N>(s: System<N>, acts: seq<Act<N>>)
    requires Sane(s.q)
    decreases |acts|
  {
    acts == [] || (Possible(s, acts[0]) && CanAct(After(s, acts[0]), acts[1..]))
  }

  ghost function AfterAll<N>(s: System<N>, acts: seq<Act<N>>): (s': System<N>)
    requires Sane(s.q) && CanAct(s, acts)
    ensures Sane(s'.q)
    decreases |acts|
  {
    if acts == [] then s else AfterAll(After(s, acts[0]), acts[1..])
  }

  /** Without nested ticks, every run keeps the invariant, whenever it forks. */
  lemma {:induction false} PromptRun<N>(s: System<N>, acts: seq<Act<N>>)
    requires Inv(s.q) && Prompt(s) && CanAct(s, acts)
    ensures Inv(AfterAll(s, acts).q) && Prompt(AfterAll(s, acts))
    decreases |acts|
  {
    if acts != [] {
      PromptStep(s, acts[0]);
      PromptRun(After(s, acts[0]), acts[1..]);
    }
  }

  // Waiting, counted in clock interrupts

  ghost function Clocks<N>(acts: seq<Act<N>>): nat {
    if acts == [] then 0 else (if acts[0].Clock? then 1 else 0) + Clocks(acts[1..])
  }

  /** The clock interrupts until as many schedules as the key of x is above the minimum. */
  ghost function Left<N>(s: System<N>, x: N): int
    requires x in s.q.key
  {
    NR_PROCESS * Sub32(s.q.key[x], s.q.min) - s.jiffies % NR_PROCESS
  }

  /** Between the two states x has been picked, or has no longer to wait, and n clock interrupts less. */
  ghost predicate Nearer<N>(s: System<N>, s': System<N>, n: nat, x: N) {
    && x in s.q.key && x in s'.q.key && n <= Left(s, x)
    && (s'.q.cur != x ==> x in s'.q.tasks && n + Left(s', x) <= Left(s, x))
  }

  lemma {:induction false} SpawnNearer<N>(s: System<N>, n: N, x: N)
    requires Inv(s.q) && Prompt(s) && n !in s.q.tasks && x in s.q.tasks && x != s.q.cur
    ensures Nearer(s, After(s, Spawn(n)), 0, x)
  {
    Behind(s.q, x);
    ForkEarly(s.q, n);
    Closer(s.q, Fork(n, false), x);
    hide Do, Inv, Enqueue;
  }

  lemma {:induction false} YieldNearer<N>(s: System<N>, runnable: bool, x: N)
    requires Inv(s.q) && |s.q.tasks| > 1 && x in s.q.tasks && x != s.q.cur
    ensures Nearer(s, After(s, Yield(runnable)), 0, x)
  {
    Behind(s.q, x);
    Closer(s.q, Schedule(runnable), x);
    hide Do, Inv;
  }

  lemma {:induction false} ClockNearer<N>(s: System<N>, runnable: bool, x: N)
    requires Inv(s.q) && Prompt(s) && Possible(s, Clock(runnable)) && x in s.q.tasks && x != s.q.cur
    ensures Nearer(s, After(s, Clock(runnable)), 1, x)
  {
    Behind(s.q, x);
    var q := Do(s.q, Tick);
    assert Enabled(s.q, Tick) && |q.tasks| == |s.q.tasks|;
    Closer(s.q, Tick, x);
    var s1 := System(q, s.jiffies + 1);
    hide Do, Inv;
    if s1.jiffies % NR_PROCESS == 0 {
      YieldNearer(s1, runnable, x);
    }
  }

  lemma {:induction false} ActNearer<N>(s: System<N>, a: Act<N>, x: N)
    requires Inv(s.q) && Prompt(s) && Possible(s, a) && x in s.q.tasks && x != s.q.cur
    ensures Nearer(s, After(s, a), if a.Clock? then 1 else 0, x)
  {
    hide Nearer, After;
    match a
    case Clock(runnable) => ClockNearer(s, runnable, x);
    case Spawn(n) => SpawnNearer(s, n, x);
    case Yield(runnable) => YieldNearer(s, runnable, x);
  }

  lemma {:induction false} Behind<N>(q: Queue<N>, x: N)
    requires Inv(q) && x in q.tasks && x != q.cur
    ensures Sane(q) && x in q.key && Sub32(q.key[x], q.min) > 0
  {
    assert x in q.tasks[1..] && q.key[x] != q.min;
  }

  /** Bounded waiting in time: whatever is forked and yielded meanwhile, a queued task whose key is d above the minimum
      runs within four times d clock interrupts, less those since the last fourth one. */
  lemma {:induction false} ClockWait<N>(s: System<N>, acts: seq<Act<N>>, x: N) returns (k: nat)
    requires Inv(s.q) && Prompt(s) && CanAct(s, acts) && x in s.q.tasks && x != s.q.cur && Left(s, x) <= Clocks(acts)
    ensures k <= |acts| && CanAct(s, acts[..k]) && AfterAll(s, acts[..k]).q.cur == x
    ensures Clocks(acts[..k]) <= Left(s, x)
    decreases |acts|
  {
    ClockWaits(s, acts, x);
    hide Inv, Possible, CanAct, AfterAll, Clocks, After, Left;
    var s', rest := After(s, acts[0]), acts[1..];
    if s'.q.cur == x {
      k := 1;
      Stay(s');
      UnrollActs(s, acts[0], []);
      assert acts[..1] == [acts[0]] + [];
    } else {
      var k' := ClockWait(s', rest, x);
      k := k' + 1;
      UnrollActs(s, acts[0], rest[..k']);
      assert acts[..k] == [acts[0]] + rest[..k'];
    }
  }

  lemma {:induction false} ClockWaits<N>(s: System<N>, acts: seq<Act<N>>, x: N)
    requires Inv(s.q) && Prompt(s) && CanAct(s, acts) && x in s.q.tasks && x != s.q.cur && Left(s, x) <= Clocks(acts)
    ensures acts != [] && Possible(s, acts[0])
    ensures var s', n := After(s, acts[0]), if acts[0].Clock? then 1 else 0;
            && Inv(s'.q) && Prompt(s') && CanAct(s', acts[1..]) && n <= Left(s, x) && x in s'.q.key
            && (s'.q.cur != x ==> x in s'.q.tasks && n + Left(s', x) <= Left(s, x) <= n + Clocks(acts[1..]))
  {
    Behind(s.q, x);
    assert acts != [];
    PromptStep(s, acts[0]);
    ActNearer(s, acts[0], x);
    hide Inv, After, Possible, Left;
  }

  lemma {:induction false} Stay<N>(s: System<N>)
    requires Sane(s.q)
    ensures CanAct(s, []) && AfterAll(s, []) == s && Clocks<N>([]) == 0
  {
  }

  lemma {:induction false} UnrollActs<N>(s: System<N>, a: Act<N>, acts: seq<Act<N>>)
    requires Sane(s.q) && Possible(s, a) && CanAct(After(s, a), acts)
    ensures var all := [a] + acts;
            && CanAct(s, all) && AfterAll(s, all) == AfterAll(After(s, a), acts)
            && Clocks(all) == (if a.Clock? then 1 else 0) + Clocks(acts)
  {
    hide After, Possible;
    assert ([a] + acts)[1..] == acts;
  }

  // A run from start-up that loses a task

  ghost function Four<N>(): seq<Act<N>> {
    [Clock(true), Clock(true), Clock(true), Clock(true)]
  }

  /** Four ticks of a runnable task, the last of which schedules. */
  ghost function Turn<N>(q: Queue<N>): Queue<N>
    requires Sane(q) && |q.tasks| > 1
  {
    Do(q.(key := q.key[q.cur := Add32(q.key[q.cur], 4)]), Schedule(true))
  }

  lemma {:induction false} FourIs<N>(s: System<N>)
    requires Sane(s.q) && s.jiffies % NR_PROCESS == 0 && |s.q.tasks| > 1
    ensures CanAct(s, Four()) && AfterAll(s, Four()) == System(Turn(s.q), s.jiffies + 4)
  {
    hide Do;
    var acts: seq<Act<N>> := Four();
    var s1 := Ticked(s, 1);
    var s2 := Ticked(s1, 1);
    var s3 := Ticked(s2, 1);
    TickIs(s);
    TickIs(s1);
    TickIs(s2);
    LastTick(s3);
    var s4 := After(s3, Clock(true));
    assert acts[3..] == [Clock(true)] && acts[3..][1..] == [];
    assert CanAct(s4, []) && AfterAll(s4, []) == s4;
    assert CanAct(s3, acts[3..]) && AfterAll(s3, acts[3..]) == s4;
    assert acts[2..][1..] == acts[3..] && acts[1..][1..] == acts[2..];
    assert CanAct(s2, acts[2..]) && AfterAll(s2, acts[2..]) == s4;
    assert CanAct(s1, acts[1..]) && AfterAll(s1, acts[1..]) == s4;
    assert s3.q == s.q.(key := s.q.key[s.q.cur := Add32(s.q.key[s.q.cur], 3)]);
    assert s.q.key[s.q.cur := s3.q.key[s.q.cur]][s.q.cur := Add32(s.q.key[s.q.cur], 4)] == s.q.key[s.q.cur := Add32(s.q.key[s.q.cur], 4)];
  }

  ghost function Ticked<N>(s: System<N>, n: u32): System<N>
    requires Sane(s.q)
  {
    System(s.q.(key := s.q.key[s.q.cur := Add32(s.q.key[s.q.cur], n)]), s.jiffies + n)
  }

  lemma {:induction false} TickIs<N>(s: System<N>)
    requires Sane(s.q) && (s.jiffies + 1) % NR_PROCESS != 0
    ensures Possible(s, Clock(true)) && After(s, Clock(true)) == Ticked(s, 1)
  {
  }

  lemma {:induction false} LastTick<N>(s: System<N>)
    requires Sane(s.q) && (s.jiffies + 1) % NR_PROCESS == 0 && |s.q.tasks| > 1
    ensures Possible(s, Clock(true)) && After(s, Clock(true)) == System(Do(Ticked(s, 1).q, Schedule(true)), s.jiffies + 1)
  {
  }

  lemma {:induction false} Then<N>(s: System<N>, first: seq<Act<N>>, rest: seq<Act<N>>)
    requires Sane(s.q) && CanAct(s, first) && CanAct(AfterAll(s, first), rest)
    ensures CanAct(s, first + rest) && AfterAll(s, first + rest) == AfterAll(AfterAll(s, first), rest)
    decreases |first|
  {
    if first == [] {
      assert first + rest == rest;
    } else {
      assert (first + rest)[1..] == first[1..] + rest;
      Then(After(s, first[0]), first[1..], rest);
    }
  }

  /** A turn of the running task c, who waits behind the tasks of a and before those of b. */
  lemma {:induction false} TurnIs<N>(c: N, a: seq<N>, b: seq<N>, key: map<N, u32>, min: u32)
    requires a != [] && c !in a && c !in b && c in key && Keyed(a + b, key)
    requires Sub32(key[c], min) == 0
    requires forall n :: n in a ==> Diff(Add32(4, key[a[0]]), key[n]) > 0
    requires b != [] ==> Diff(Add32(4, key[a[0]]), key[b[0]]) <= 0
    ensures var q := Queue(c, [c] + a + b, key, min);
            var k := Add32(4, key[a[0]]);
            && Sane(q)
            && Turn(q) == Queue(a[0], if b != [] && key[b[0]] == k then a + b else a + [c] + b, key[c := k], key[a[0]])
  {
    var k, key1, ts := Add32(4, key[a[0]]), key[c := 4], a + b;
    var q := Queue(c, [c] + a + b, key, min);
    assert q.tasks[1..] == ts && ts[0] == a[0];
    PlaceAfter(a, b, key1, k);
    hide Place;
    var q0 := q.(key := key[c := Add32(key[c], 4)]);
    assert Pick(q0) == Queue(a[0], ts, key1, key[a[0]]) by {
      assert key[c := Add32(key[c], 4)][c := 4] == key1;
    }
    assert key1[c := k] == key[c := k];
    assert ts[..|a|] == a && ts[|a|..] == b;
  }

  lemma {:induction false} PlaceAfter<N>(a: seq<N>, b: seq<N>, key: map<N, u32>, k: u32)
    requires Keyed(a + b, key) && (forall n :: n in a ==> Diff(k, key[n]) > 0) && (b != [] ==> Diff(k, key[b[0]]) <= 0)
    ensures Place(a + b, key, k) == |a|
  {
    if a == [] {
      assert a + b == b;
    } else {
      assert (a + b)[1..] == a[1..] + b;
      PlaceAfter(a[1..], b, key, k);
    }
  }

  lemma {:induction false} SpawnIs<N>(s: System<N>, n: N)
    requires Sane(s.q) && n !in s.q.tasks
    requires var k := Add32(CHILD_VRUNTIME, s.q.min); forall m :: m in s.q.tasks ==> Diff(k, s.q.key[m]) > 0
    ensures CanAct(s, [Spawn(n)])
    ensures var k := Add32(CHILD_VRUNTIME, s.q.min);
            AfterAll(s, [Spawn(n)]) == s.(q := s.q.(tasks := s.q.tasks + [n], key := s.q.key[n := k]))
  {
    var k, ts := Add32(CHILD_VRUNTIME, s.q.min), s.q.tasks;
    assert ts + [] == ts;
    PlaceAfter(ts, [], s.q.key, k);
    hide Place;
    assert ts[..|ts|] + [n] + ts[|ts|..] == ts + [n];
    var s' := After(s, Spawn(n));
    assert CanAct(s', []) && AfterAll(s', []) == s';
    assert [Spawn(n)][1..] == [];
  }

  /** The two tasks that start-up leaves in the queue. */
  ghost function Booted<N>(a: N, b: N): System<N> {
    System(Queue(a, [a, b], map[a := 100, b := 101], 100), 0)
  }

  lemma {:induction false} BootedInv<N>(a: N, b: N)
    requires a != b
    ensures Inv(Booted(a, b).q) && Prompt(Booted(a, b))
  {
    assert [a, b][1..] == [b];
  }

  ghost function LosingRun<N>(n: N, m: N): seq<Act<N>> {
    Four() + ([Spawn(n)] + (Four() + ([Spawn(m)] + (Four() + Four()))))
  }

  /** After start-up, two forks and sixteen ticks, none of them nested and every task runnable all the time,
      schedule gives task b a key that is in use and b is in the queue no more. */
  lemma {:induction false} ScheduleDrops<N>(a: N, b: N, n: N, m: N)
    requires a != b && a != n && a != m && b != n && b != m && n != m
    ensures var s := Booted(a, b);
            && Inv(s.q) && Prompt(s) && CanAct(s, LosingRun(n, m))
            && AfterAll(s, LosingRun(n, m)).q.tasks == [n, a, m] && b !in AfterAll(s, LosingRun(n, m)).q.tasks
  {
    hide Turn, Place, Do, CanAct, AfterAll;
    var s0, f: seq<Act<N>> := Booted(a, b), Four();
    var key0 := s0.q.key;
    assert [a] + [b] + [] == [a, b];
    TurnIs(a, [b], [], key0, 100);
    FourIs(s0);
    var key1 := key0[a := 105];
    var s1 := System(Queue(b, [b, a], key1, 101), 4);
    assert [b] + [a] + [] == [b, a];
    assert AfterAll(s0, f) == s1;
    SpawnIs(s1, n);
    var key2 := key1[n := 111];
    var s2 := System(Queue(b, [b, a, n], key2, 101), 4);
    assert [b, a] + [n] == [b, a, n];
    assert AfterAll(s1, [Spawn(n)]) == s2;
    assert [b] + [a] + [n] == [b, a, n];
    TurnIs(b, [a], [n], key2, 101);
    FourIs(s2);
    var key3 := key2[b := 109];
    var s3 := System(Queue(a, [a, b, n], key3, 105), 8);
    assert [a] + [b] + [n] == [a, b, n];
    assert AfterAll(s2, f) == s3;
    Losing2(a, b, n, m, key3, s3);
    Then(s2, f, [Spawn(m)] + (f + f));
    Then(s1, [Spawn(n)], f + ([Spawn(m)] + (f + f)));
    Then(s0, f, [Spawn(n)] + (f + ([Spawn(m)] + (f + f))));
  }

  lemma {:induction false} Losing2<N>(a: N, b: N, n: N, m: N, key3: map<N, u32>, s3: System<N>)
    requires a != b && a != n && a != m && b != n && b != m && n != m
    requires a in key3 && b in key3 && n in key3 && key3[a] == 105 && key3[b] == 109 && key3[n] == 111
    requires s3 == System(Queue(a, [a, b, n], key3, 105), 8)
    ensures var rest := [Spawn(m)] + (Four() + Four()); CanAct(s3, rest) && AfterAll(s3, rest).q.tasks == [n, a, m]
  {
    hide Turn, Place, Do, CanAct, AfterAll;
    var f: seq<Act<N>> := Four();
    SpawnIs(s3, m);
    var key4 := key3[m := 115];
    var s4 := System(Queue(a, [a, b, n, m], key4, 105), 8);
    assert [a, b, n] + [m] == [a, b, n, m];
    assert AfterAll(s3, [Spawn(m)]) == s4;
    assert [a] + [b, n] + [m] == [a, b, n, m];
    TurnIs(a, [b, n], [m], key4, 105);
    FourIs(s4);
    var key5 := key4[a := 113];
    var s5 := System(Queue(b, [b, n, a, m], key5, 109), 12);
    assert [b, n] + [a] + [m] == [b, n, a, m];
    assert AfterAll(s4, f) == s5;
    assert [b] + [n, a] + [m] == [b, n, a, m];
    TurnIs(b, [n, a], [m], key5, 109);
    FourIs(s5);
    assert [n, a] + [m] == [n, a, m];
    assert AfterAll(s5, f).q.tasks == [n, a, m];
    Then(s4, f, f);
    Then(s3, [Spawn(m)], f + f);
  }
}
