/** Runs of the memory half of sys_fork, sys_brk, kernel_thread, do_exit and the task switch: in
    every state every task has its own pages. */
module MemoryRuns {
  import opened Common
  import opened Break
  import opened Ring
  import opened BlockList
  import opened BlockCalls
  import opened Descriptors
  import opened PhysInit
  import opened PhysMem
  import opened Segments
  import opened ProcessMemory

  /** The block list, the pages of memory, the tasks and the position of the running one. */
  datatype State = State(bs: seq<Extent>, mem: seq<Page>, tasks: seq<Task>, current: nat)

  /** The first task is idle, alive and a user task; no other is idle. */
  ghost predicate IdleFirst(ts: seq<Task>)
  {
    && ts != [] && ts[0].pid == IDLE_TASK_PID && !ts[0].dead && ts[0].cs.kind != 0
    && forall i {:trigger ts[i]} :: 0 < i < |ts| ==> ts[i].pid != IDLE_TASK_PID
  }

  predicate Running(ts: seq<Task>, current: nat) { current < |ts| && !ts[current].dead }

  ghost predicate Inv(n: nat, kernel: Extent, s: State)
  {
    && Wf(s.bs, n) && |s.mem| == n && n * PAGE_SIZE < WORD && kernel.start == 0
    && Owns(s.tasks, Live(s.bs), kernel)
    && IdleFirst(s.tasks) && Running(s.tasks, s.current)
  }

  // ---- fork

  /** What a fork leaves behind, in terms of the task that called it. */
  ghost predicate Cloned(n: nat, bs: seq<Extent>, bs1: seq<Extent>, bs2: seq<Extent>, m: seq<Page>, m': seq<Page>,
                         cur: Task, t: Task, pid: int)
  {
    && IsUser(t, pid, t.kstack, Addr(t.ds), Size(cur.cs), Size(cur.ds))
    && Granted(bs, bs1, n, t.kstack, KSTACK_PAGES)
    && Granted(bs1, bs2, n, Addr(t.ds), DescriptorOf(Size(cur.ds)))
    && ForkedMemory(m, m', cur, t)
  }

  /** sys_fork, kernel/sys.c:48-117: two allocations, two copies and a new task. */
  ghost predicate Forks(n: nat, s: State, s': State, pid: int)
  {
    && Running(s.tasks, s.current) && s.tasks[s.current].cs.kind != 0 && pid != IDLE_TASK_PID
    && |s'.tasks| == |s.tasks| + 1 && s'.tasks[..|s.tasks|] == s.tasks && s'.current == s.current
    && exists bs1 :: Cloned(n, s.bs, bs1, s'.bs, s.mem, s'.mem, s.tasks[s.current], s'.tasks[|s.tasks|], pid)
  }

  lemma ChildOwns(n: nat, kernel: Extent, bs: seq<Extent>, bs1: seq<Extent>, bs2: seq<Extent>, cur: Task, child: Task,
                  pid: int)
    requires Wf(bs, n) && Sound(cur, Live(bs), kernel) && cur.cs.kind != 0 && pid != IDLE_TASK_PID
    requires IsUser(child, pid, child.kstack, Addr(child.ds), Size(cur.cs), Size(cur.ds))
    requires Granted(bs, bs1, n, child.kstack, KSTACK_PAGES)
    requires Granted(bs1, bs2, n, Addr(child.ds), DescriptorOf(Size(cur.ds)))
    ensures Wf(bs2, n) && Live(bs2) == Live(bs) + Holdings(child, kernel) && Holdings(child, kernel) !! Live(bs)
    ensures Sound(child, Live(bs2), kernel)
    ensures NewBlock(bs, bs1, n, child.kstack, KSTACK_PAGES)
    ensures !(SegBlock(child).start <= StackBlock(child).start < End(SegBlock(child)))
    ensures SegBlock(child).pages == SegBlock(cur).pages
  {
    GrantedIsNew(bs, bs1, n, child.kstack, KSTACK_PAGES);
    GrantedIsNew(bs1, bs2, n, Addr(child.ds), DescriptorOf(Size(cur.ds)));
    UserTaskSpace(child, Addr(child.ds), Size(cur.cs), Size(cur.ds), kernel);
    ForkHoldings(bs, bs1, bs2, n, kernel, child);
  }

  /** A new task with blocks of its own. */
  lemma StateGrows(n: nat, kernel: Extent, s: State, s': State, t: Task)
    requires Inv(n, kernel, s) && s'.tasks == s.tasks + [t] && s'.current == s.current
    requires !t.dead && t.pid != IDLE_TASK_PID && Wf(s'.bs, n) && |s'.mem| == n
    requires Live(s'.bs) == Live(s.bs) + Holdings(t, kernel) && Holdings(t, kernel) !! Live(s.bs)
    requires Sound(t, Live(s'.bs), kernel)
    ensures Inv(n, kernel, s')
  {
    AddTask(s.tasks, Live(s.bs), kernel, t);
  }

  lemma ForkOwns(n: nat, kernel: Extent, s: State, s': State, pid: int, child: Task)
    requires Wf(s.bs, n) && Forks(n, s, s', pid) && Sound(s.tasks[s.current], Live(s.bs), kernel)
    requires child == s'.tasks[|s.tasks|]
    ensures Wf(s'.bs, n) && |s'.mem| == |s.mem| && !child.dead && child.pid != IDLE_TASK_PID
    ensures Live(s'.bs) == Live(s.bs) + Holdings(child, kernel) && Holdings(child, kernel) !! Live(s.bs)
    ensures Sound(child, Live(s'.bs), kernel) && s'.tasks == s.tasks + [child]
  {
    var cur := s.tasks[s.current];
    var bs1 :| Cloned(n, s.bs, bs1, s'.bs, s.mem, s'.mem, cur, child, pid);
    CloneOwns(n, kernel, s.bs, bs1, s'.bs, s.mem, s'.mem, cur, child, pid);
    OneMoreTask(s.tasks, s'.tasks);
  }

  lemma OneMoreTask(ts: seq<Task>, us: seq<Task>)
    requires |us| == |ts| + 1 && us[..|ts|] == ts
    ensures us == ts + [us[|ts|]]
  {
  }

  lemma CloneOwns(n: nat, kernel: Extent, bs: seq<Extent>, bs1: seq<Extent>, bs2: seq<Extent>, m: seq<Page>,
                  m': seq<Page>, cur: Task, child: Task, pid: int)
    requires Wf(bs, n) && Sound(cur, Live(bs), kernel) && cur.cs.kind != 0 && pid != IDLE_TASK_PID
    requires Cloned(n, bs, bs1, bs2, m, m', cur, child, pid)
    ensures Wf(bs2, n) && |m'| == |m| && !child.dead && child.pid != IDLE_TASK_PID
    ensures Live(bs2) == Live(bs) + Holdings(child, kernel) && Holdings(child, kernel) !! Live(bs)
    ensures Sound(child, Live(bs2), kernel)
  {
    ChildOwns(n, kernel, bs, bs1, bs2, cur, child, pid);
  }

  lemma ForkKeeps(n: nat, kernel: Extent, s: State, s': State, pid: int)
    requires Inv(n, kernel, s) && Forks(n, s, s', pid)
    ensures Inv(n, kernel, s')
  {
    var child := s'.tasks[|s.tasks|];
    assert Sound(s.tasks[s.current], Live(s.bs), kernel);
    ForkOwns(n, kernel, s, s', pid, child);
    StateGrows(n, kernel, s, s', child);
  }

  /** A fork that fails: the list is as before, and memory in use too. */
  ghost predicate ForkFails(s: State, s': State)
  {
    s' == s.(mem := s'.mem) && LiveSame(s.bs, s.mem, s'.mem)
  }

  // ---- kernel_thread

  /** kernel/task.c:49-74: one stack, zeroed but for the initial context. */
  ghost predicate Threads(n: nat, s: State, s': State, pid: int, fn: nat)
  {
    && Running(s.tasks, s.current) && pid != IDLE_TASK_PID
    && |s'.tasks| == |s.tasks| + 1 && s'.current == s.current
    && var t := s'.tasks[|s.tasks|];
       && s'.tasks == s.tasks + [t] && t == Task(pid, false, t.kstack, NO_SEGMENT, NO_SEGMENT)
       && Granted(s.bs, s'.bs, n, t.kstack, KSTACK_PAGES)
       && StackMade(s.mem, s'.mem, DescriptorOf(t.kstack), fn)
  }

  lemma ThreadKeeps(n: nat, kernel: Extent, s: State, s': State, pid: int, fn: nat)
    requires Inv(n, kernel, s) && Threads(n, s, s', pid, fn)
    ensures Inv(n, kernel, s')
  {
    var t := s'.tasks[|s.tasks|];
    GrantedIsNew(s.bs, s'.bs, n, t.kstack, KSTACK_PAGES);
    StateGrows(n, kernel, s, s', t);
  }

  // ---- exit and the task switch

  /** kernel/task.c:107 and 120-138: stack and segment are freed, and another task runs. */
  ghost predicate Exits(n: nat, s: State, s': State, next: nat)
  {
    && Running(s.tasks, s.current) && s.tasks[s.current].pid != IDLE_TASK_PID
    && s'.mem == s.mem && s'.current == next && Running(s'.tasks, next)
    && var cur := s.tasks[s.current];
       && (exists bs1 {:trigger Returned(s.bs, bs1, n, cur.kstack)} ::
             && Returned(s.bs, bs1, n, cur.kstack)
             && if cur.cs.kind != 0 then Returned(bs1, s'.bs, n, Addr(cur.cs)) else s'.bs == bs1)
       && s'.tasks == s.tasks[s.current := cur.(dead := true)]
  }

  /** Exactly the pages of the exiting task come back. */
  lemma ExitReturns(n: nat, kernel: Extent, bs: seq<Extent>, bs1: seq<Extent>, bs2: seq<Extent>, t: Task)
    requires Wf(bs, n) && Sound(t, Live(bs), kernel) && t.pid != IDLE_TASK_PID
    requires Returned(bs, bs1, n, t.kstack)
    requires if t.cs.kind != 0 then Returned(bs1, bs2, n, Addr(t.cs)) else bs2 == bs1
    ensures Wf(bs2, n) && Live(bs2) == Live(bs) - Holdings(t, kernel)
  {
    ReturnedIsGone(bs, bs1, n, t.kstack, StackBlock(t));
    if t.cs.kind != 0 {
      ReturnedIsGone(bs1, bs2, n, Addr(t.cs), SegBlock(t));
    }
  }

  lemma ExitKeeps(n: nat, kernel: Extent, s: State, s': State, next: nat)
    requires Inv(n, kernel, s) && Exits(n, s, s', next)
    ensures Inv(n, kernel, s') && Live(s'.bs) == Live(s.bs) - Holdings(s.tasks[s.current], kernel)
  {
    var cur := s.tasks[s.current];
    var bs1 :| Returned(s.bs, bs1, n, cur.kstack) &&
               if cur.cs.kind != 0 then Returned(bs1, s'.bs, n, Addr(cur.cs)) else s'.bs == bs1;
    assert Sound(cur, Live(s.bs), kernel);
    ExitReturns(n, kernel, s.bs, bs1, s'.bs, cur);
    ChangeTask(s.tasks, Live(s.bs), kernel, s.current, cur.(dead := true), Live(s'.bs));
  }

  ghost predicate Switches(s: State, s': State, next: nat)
  {
    s' == s.(current := next) && Running(s.tasks, next)
  }

  // ---- brk

  /** What a successful sys_brk of the forked task `cur` leaves behind, kernel/sys.c:196-231. */
  ghost predicate Resized(n: nat, bs: seq<Extent>, bs': seq<Extent>, m: seq<Page>, m': seq<Page>,
                          cur: Task, t: Task, ebx: nat)
  {
    var p, k := SegBlock(cur).start, DescriptorOf(NewBreak(ebx));
    && Size(cur.cs) <= NewBreak(ebx) && ReallocResult(bs, n, p, k) == Ok
    && bs' == Apply(bs, n, Op.Realloc(p, k))
    && IsUser(t, cur.pid, cur.kstack, AddrOf(ReallocPage(bs, p, k)), Size(cur.cs), NewBreak(ebx))
    && ReallocMem(m, m', bs, p, k)
  }

  ghost predicate Brks(n: nat, s: State, s': State, ebx: nat)
  {
    && Running(s.tasks, s.current) && Forked(s.tasks[s.current]) && s'.current == s.current
    && |s'.tasks| == |s.tasks| && s'.tasks == s.tasks[s.current := s'.tasks[s.current]]
    && Resized(n, s.bs, s'.bs, s.mem, s'.mem, s.tasks[s.current], s'.tasks[s.current], ebx)
  }

  /** What sys_brk returns is what `NewSegment` says, where the kernel grants more pages exactly if
      realloc succeeds: giving pages back always does. */
  lemma BrkIsNewSegment(n: nat, kernel: Extent, bs: seq<Extent>, t: Task, ebx: nat)
    requires Wf(bs, n) && Sound(t, Live(bs), kernel) && Forked(t)
    ensures var size := NewBreak(ebx);
            var ok := ReallocResult(bs, n, SegBlock(t).start, DescriptorOf(size)) == Ok;
            NewSegment(Size(t.ds), Size(t.cs), ebx, ok) == if size < Size(t.cs) || !ok then Size(t.ds) else size
  {
    NewBreakFacts(ebx);
    FindLive(bs, n, SegBlock(t).start, SegBlock(t));
  }

  /** The resized segment: one live block in place of another, of exactly the new size. */
  lemma BrkOwns(n: nat, kernel: Extent, bs: seq<Extent>, bs': seq<Extent>, t: Task, t': Task, brk: nat)
    requires Wf(bs, n) && Sound(t, Live(bs), kernel) && Forked(t) && brk % PAGE_SIZE == 0 && Size(t.cs) <= brk
    requires ReallocResult(bs, n, SegBlock(t).start, DescriptorOf(brk)) == Ok
    requires bs' == Apply(bs, n, Op.Realloc(SegBlock(t).start, DescriptorOf(brk)))
    requires IsUser(t', t.pid, t.kstack, AddrOf(ReallocPage(bs, SegBlock(t).start, DescriptorOf(brk))), Size(t.cs), brk)
    ensures Wf(bs', n) && Live(bs') == Live(bs) - {SegBlock(t)} + {SegBlock(t')}
    ensures SegBlock(t') !in Live(bs) - {SegBlock(t)} && CommonSpace(t', kernel) && Forked(t')
    ensures End(SegBlock(t')) <= n
  {
    var k := DescriptorOf(brk);
    var to := ReallocPage(bs, SegBlock(t).start, k);
    assert DescriptorOf(AddrOf(to)) == to && AddrOf(to) % PAGE_SIZE == 0;
    ReallocLiveSet(bs, n, SegBlock(t), k);
    ApplyKeeps(bs, n, Op.Realloc(SegBlock(t).start, k));
    UserTaskSpace(t', AddrOf(to), Size(t.cs), brk, kernel);
  }

  /** The stack stays, so the holdings of the task change by its segment only. */
  lemma BrkHoldings(live: set<Extent>, live': set<Extent>, kernel: Extent, t: Task, t': Task)
    requires Sound(t, live, kernel) && Forked(t) && Forked(t') && t'.kstack == t.kstack
    requires live' == live - {SegBlock(t)} + {SegBlock(t')} && SegBlock(t') !in live - {SegBlock(t)}
    requires CommonSpace(t', kernel)
    ensures live' == live - Holdings(t, kernel) + Holdings(t', kernel)
    ensures Holdings(t', kernel) !! live - Holdings(t, kernel) && Sound(t', live', kernel)
  {
  }

  lemma BrkKeeps(n: nat, kernel: Extent, s: State, s': State, ebx: nat)
    requires Inv(n, kernel, s) && Brks(n, s, s', ebx)
    ensures Inv(n, kernel, s')
  {
    var cur, t' := s.tasks[s.current], s'.tasks[s.current];
    NewBreakFacts(ebx);
    assert Sound(cur, Live(s.bs), kernel);
    BrkOwns(n, kernel, s.bs, s'.bs, cur, t', NewBreak(ebx));
    BrkHoldings(Live(s.bs), Live(s'.bs), kernel, cur, t');
    ChangeTask(s.tasks, Live(s.bs), kernel, s.current, t', Live(s'.bs));
  }

  // ---- Other calls of the allocator

  /** Page `p` starts no block of a task that is not dead, nor the kernel image. */
  ghost predicate Unheld(ts: seq<Task>, p: nat)
  {
    && p != 0
    && forall i {:trigger ts[i]} :: 0 <= i < |ts| && !ts[i].dead ==>
         StackBlock(ts[i]).start != p && (Forked(ts[i]) ==> SegBlock(ts[i]).start != p)
  }

  /** Memory in use by the blocks of `bs` is the same. */
  ghost predicate LiveSame(bs: seq<Extent>, m: seq<Page>, m': seq<Page>)
  {
    && |m'| == |m|
    && forall e, q {:trigger e in Live(bs), m'[q]} ::
         e in Live(bs) && e.start <= q < End(e) && 0 <= q < |m| ==> m'[q] == m[q]
  }

  /** A call on behalf of something else than a task's stack or segment, such as kmalloc
      (kernel/kmem.c) or a RAM disk (drivers/ramdisk.c): a block is allocated, or one that no task
      holds is freed or resized. */
  ghost predicate Calls(n: nat, s: State, s': State, op: Op)
  {
    && (op.Free? ==> Unheld(s.tasks, op.p) && op.p + 1 < n)
    && (op.Realloc? ==> Unheld(s.tasks, op.p) && ReallocResult(s.bs, n, op.p, op.k) != Panic)
    && s' == s.(bs := Apply(s.bs, n, op), mem := s'.mem) && LiveSame(s.bs, s.mem, s'.mem)
  }

  /** A block whose start is not that of the call stays live. */
  lemma StaysLive(n: nat, bs: seq<Extent>, op: Op, e: Extent)
    requires Wf(bs, n) && e in Live(bs) && (op.Alloc? || e.start != op.p)
    requires op.Realloc? ==> ReallocResult(bs, n, op.p, op.k) != Panic
    ensures e in Live(Apply(bs, n, op))
  {
    match op
    case Alloc(k) =>
      if 0 < k && FirstFit(bs, k) < |bs| {
        AllocFacts(bs, n, k);
      }
    case Free(p) =>
      if p + 1 < n && Find(bs, p) < |bs| {
        LiveAt(bs, bs[Find(bs, p)]);
        FreeFacts(bs, n, bs[Find(bs, p)]);
      }
    case Realloc(p, k) =>
      if ReallocResult(bs, n, p, k) == Ok {
        LiveAt(bs, bs[Find(bs, p)]);
        ReallocLiveSet(bs, n, bs[Find(bs, p)], k);
      } else {
        ReallocFailure([], [], bs, n, p, k);
      }
  }

  lemma OwnsOther(ts: seq<Task>, live: set<Extent>, live': set<Extent>, kernel: Extent)
    requires Owns(ts, live, kernel)
    requires forall i {:trigger ts[i]} :: 0 <= i < |ts| && !ts[i].dead ==> Holdings(ts[i], kernel) <= live'
    ensures Owns(ts, live', kernel)
  {
    forall i | 0 <= i < |ts| && !ts[i].dead ensures Sound(ts[i], live', kernel) {
      assert Sound(ts[i], live, kernel);
    }
  }

  lemma HeldStays(n: nat, kernel: Extent, s: State, op: Op, t: Task)
    requires Wf(s.bs, n) && kernel.start == 0 && Sound(t, Live(s.bs), kernel)
    requires op.Alloc? || (op.p != 0 && StackBlock(t).start != op.p && (Forked(t) ==> SegBlock(t).start != op.p))
    requires op.Realloc? ==> ReallocResult(s.bs, n, op.p, op.k) != Panic
    ensures Holdings(t, kernel) <= Live(Apply(s.bs, n, op))
  {
    forall e | e in Holdings(t, kernel) ensures e in Live(Apply(s.bs, n, op)) {
      StaysLive(n, s.bs, op, e);
    }
  }

  lemma CallKeeps(n: nat, kernel: Extent, s: State, s': State, op: Op)
    requires Inv(n, kernel, s) && Calls(n, s, s', op)
    ensures Inv(n, kernel, s')
  {
    forall i {:trigger s.tasks[i]} | 0 <= i < |s.tasks| && !s.tasks[i].dead
      ensures Holdings(s.tasks[i], kernel) <= Live(s'.bs)
    {
      assert Sound(s.tasks[i], Live(s.bs), kernel);
      HeldStays(n, kernel, s, op, s.tasks[i]);
    }
    OwnsOther(s.tasks, Live(s.bs), Live(s'.bs), kernel);
    ApplyKeeps(s.bs, n, op);
  }

  // ---- Whole runs

  datatype Event =
    | Fork(pid: int)
    | ForkFailure
    | Thread(pid: int, fn: nat)
    | Exit(next: nat)
    | Brk(ebx: nat)
    | Switch(next: nat)
    | Call(op: Op)

  ghost predicate Next(n: nat, s: State, e: Event, s': State)
  {
    match e
    case Fork(pid) => Forks(n, s, s', pid)
    case ForkFailure => ForkFails(s, s')
    case Thread(pid, fn) => Threads(n, s, s', pid, fn)
    case Exit(next) => Exits(n, s, s', next)
    case Brk(ebx) => Brks(n, s, s', ebx)
    case Switch(next) => Switches(s, s', next)
    case Call(op) => Calls(n, s, s', op)
  }

  lemma NextKeeps(n: nat, kernel: Extent, s: State, e: Event, s': State)
    requires Inv(n, kernel, s) && Next(n, s, e, s')
    ensures Inv(n, kernel, s')
  {
    match e
    case Fork(pid) => ForkKeeps(n, kernel, s, s', pid);
    case ForkFailure =>
    case Thread(pid, fn) => ThreadKeeps(n, kernel, s, s', pid, fn);
    case Exit(next) => ExitKeeps(n, kernel, s, s', next);
    case Brk(ebx) => BrkKeeps(n, kernel, s, s', ebx);
    case Switch(next) =>
    case Call(op) => CallKeeps(n, kernel, s, s', op);
  }

  ghost predicate IsRun(n: nat, ss: seq<State>, es: seq<Event>)
  {
    |ss| == |es| + 1 && forall i {:trigger es[i]} :: 0 <= i < |es| ==> Next(n, ss[i], es[i], ss[i + 1])
  }

  lemma {:induction false} RunKeeps(n: nat, kernel: Extent, ss: seq<State>, es: seq<Event>, i: nat)
    requires IsRun(n, ss, es) && Inv(n, kernel, ss[0]) && i < |ss|
    ensures Inv(n, kernel, ss[i])
  {
    if i > 0 {
      RunKeeps(n, kernel, ss, es, i - 1);
      var e := es[i - 1];
      NextKeeps(n, kernel, ss[i - 1], e, ss[i]);
    }
  }

  /** In every state of every run, the code and data segments of a forked task that is not dead
      have one base, where a live block of exactly the data size starts. */
  lemma SegmentsAreBlocks(n: nat, kernel: Extent, ss: seq<State>, es: seq<Event>, i: nat, a: nat)
    requires IsRun(n, ss, es) && Inv(n, kernel, ss[0]) && i < |ss|
    requires a < |ss[i].tasks| && !ss[i].tasks[a].dead && Forked(ss[i].tasks[a])
    ensures var t := ss[i].tasks[a];
            && Addr(t.cs) == Addr(t.ds) && Size(t.cs) <= Size(t.ds) && t.cs.kind == 0xfa && t.ds.kind == 0xf2
            && exists e :: e in Live(ss[i].bs) && Addr(t.ds) == AddrOf(e.start) && Size(t.ds) == e.pages * PAGE_SIZE
  {
    RunKeeps(n, kernel, ss, es, i);
    var t := ss[i].tasks[a];
    assert Sound(t, Live(ss[i].bs), kernel);
    assert SegBlock(t) in Live(ss[i].bs);
  }

  /** In every state of every run, no two tasks that are not dead share a page. */
  lemma NoPageShared(n: nat, kernel: Extent, ss: seq<State>, es: seq<Event>, i: nat, a: nat, b: nat, e: Extent,
                     f: Extent)
    requires IsRun(n, ss, es) && Inv(n, kernel, ss[0]) && i < |ss|
    requires a < |ss[i].tasks| && b < |ss[i].tasks| && !ss[i].tasks[a].dead && !ss[i].tasks[b].dead
    requires e in Holdings(ss[i].tasks[a], kernel) && f in Holdings(ss[i].tasks[b], kernel) && (a != b || e != f)
    ensures End(e) <= f.start || End(f) <= e.start
  {
    RunKeeps(n, kernel, ss, es, i);
    NoSharedPages(ss[i].tasks, ss[i].bs, n, kernel, a, b, e, f);
  }

  // ---- The calls

  /** Freeing the new stack at once restores the list. Page 0 belongs to the kernel, so the address
      of the stack is never 0. */
  lemma UndoGrant(bs: seq<Extent>, bs1: seq<Extent>, n: nat, kernel: Extent, kstack: nat)
    requires Wf(bs, n) && Granted(bs, bs1, n, kstack, KSTACK_PAGES) && kernel in Live(bs) && kernel.start == 0
    ensures kstack != 0 && Extent(DescriptorOf(kstack), KSTACK_PAGES, false) in Live(bs1)
    ensures forall bs2 {:trigger Returned(bs1, bs2, n, kstack)} :: Returned(bs1, bs2, n, kstack) ==> bs2 == bs
  {
    GrantedIsNew(bs, bs1, n, kstack, KSTACK_PAGES);
    LiveBounds(bs, n, kernel);
    GrantedStart(bs, bs1, n, kstack, KSTACK_PAGES);
    forall bs2 {:trigger Returned(bs1, bs2, n, kstack)} | Returned(bs1, bs2, n, kstack) ensures bs2 == bs {
      ReturnUndoes(bs, bs1, bs2, n, kstack, KSTACK_PAGES);
    }
  }

  lemma GrantedStart(bs: seq<Extent>, bs1: seq<Extent>, n: nat, addr: nat, k: nat)
    requires Wf(bs, n) && Granted(bs, bs1, n, addr, k)
    ensures 0 < k && FirstFit(bs, k) < |bs| && addr == AddrOf(bs[FirstFit(bs, k)].start)
    ensures bs1 == Apply(bs, n, Op.Alloc(k)) && DescriptorOf(addr) == bs[FirstFit(bs, k)].start
  {
    assert Expand(0);
  }

  lemma ReturnUndoes(bs: seq<Extent>, bs1: seq<Extent>, bs2: seq<Extent>, n: nat, addr: nat, k: nat)
    requires Wf(bs, n) && Granted(bs, bs1, n, addr, k) && Returned(bs1, bs2, n, addr)
    ensures bs2 == bs
  {
    GrantedStart(bs, bs1, n, addr, k);
    assert Expand(0);
    FreeableIffNotLastPage(bs, n, k);
  }

  /** kernel/sys.c:119-125 when the first allocation was made and the second was not; `junk` is
      the value of `new_ds_addr`, which was never assigned. */
  method GiveUp(phys: Allocator, kernel: Extent, kstack: nat, junk: nat, ghost bs: seq<Extent>) returns (halted: bool)
    requires phys.Valid() && Wf(bs, phys.desc.Length) &&
              Granted(bs, phys.blocks, phys.desc.Length, kstack, KSTACK_PAGES)
    requires kernel in Live(bs) && kernel.start == 0
    modifies phys, phys.desc
    ensures phys.Valid()
    ensures junk == 0 && !halted ==> phys.blocks == bs
    ensures halted ==> phys.desc.Length <= DescriptorOf(kstack) + 1
  {
    halted := false;
    if junk != 0 {
      return;
    }
    UndoGrant(bs, phys.blocks, phys.desc.Length, kernel, kstack);
    if kstack != 0 {
      halted := Drop(phys, kstack, Extent(DescriptorOf(kstack), KSTACK_PAGES, false));
    }
  }

  lemma BlocksInMemory(bs: seq<Extent>, n: nat, kernel: Extent, t: Task)
    requires Wf(bs, n) && Sound(t, Live(bs), kernel) && t.cs.kind != 0
    ensures StackBlock(t).start + KSTACK_PAGES <= n && End(SegBlock(t)) <= n
    ensures AlignUp(Size(t.ds)) == Size(t.ds)
  {
    LiveBounds(bs, n, StackBlock(t));
    LiveBounds(bs, n, SpaceBlock(t, kernel));
  }

  lemma SpaceIsOld(bs: seq<Extent>, bs1: seq<Extent>, n: nat, kernel: Extent, t: Task, kstack: nat)
    requires Wf(bs, n) && Sound(t, Live(bs), kernel) && t.cs.kind != 0 && NewBlock(bs, bs1, n, kstack, KSTACK_PAGES)
    ensures !(SegBlock(t).start <= DescriptorOf(kstack) < End(SegBlock(t)))
  {
    assert SpaceBlock(t, kernel) in Live(bs);
  }

  /** kernel/sys.c:80-125, with the new stack at `kstack`; the panics at lines 83 and 88 are never
      reached. */
  method CloneSpace(phys: Allocator, kernel: Extent, cur: Task, pid: int, kstack: nat, junk: nat,
                    ghost bs: seq<Extent>, ghost m: seq<Page>)
    returns (r: Outcome, t: Task)
    requires phys.Valid() && phys.desc.Length * PAGE_SIZE < WORD && Wf(bs, phys.desc.Length)
    requires Sound(cur, Live(bs), kernel) && cur.cs.kind != 0 && pid != IDLE_TASK_PID
    requires kernel in Live(bs) && kernel.start == 0
    requires Granted(bs, phys.blocks, phys.desc.Length, kstack, KSTACK_PAGES)
    requires Copied(m, phys.mem[..], DescriptorOf(kstack), StackBlock(cur).start, KSTACK_PAGES)
    modifies phys, phys.desc, phys.mem
    ensures phys.Valid()
    ensures r == Done ==> Cloned(phys.desc.Length, bs, old(phys.blocks), phys.blocks, m, phys.mem[..], cur, t, pid)
    ensures r != Done ==> phys.mem[..] == old(phys.mem[..])
    ensures r == Refused && junk == 0 ==> phys.blocks == bs
    ensures r == Halted ==> phys.desc.Length <= DescriptorOf(kstack) + 1
  {
    t := cur;
    ghost var n, bs1, m1 := phys.desc.Length, phys.blocks, phys.mem[..];
    phys.ValidWf();
    BlocksInMemory(bs, n, kernel, cur);
    assert Addr(cur.cs) == Addr(cur.ds) && Size(cur.cs) <= Size(cur.ds);
    var size := AlignUp(Size(cur.ds));
    var ok, base := Clone(phys, DescriptorOf(Addr(cur.ds)), DescriptorOf(size));
    if !ok {
      var halted := GiveUp(phys, kernel, kstack, junk, bs);
      return if halted then Halted else Refused, t;
    }
    BaseFits(bs1, phys.blocks, n, base, DescriptorOf(size));
    t := UserTask(pid, kstack, base, Size(cur.cs), size);
    ghost var bs2, m2 := phys.blocks, phys.mem[..];
    GrantedIsNew(bs, bs1, n, kstack, KSTACK_PAGES);
    phys.mem[DescriptorOf(kstack)] := ForkStack(phys.mem[DescriptorOf(kstack)]);
    ghost var m3 := phys.mem[..];
    assert OnePage(m2, m3, DescriptorOf(kstack), ForkStack(m2[DescriptorOf(kstack)]));
    CloneDone(n, kernel, bs, bs1, bs2, m, m1, m2, m3, cur, t, pid);
    r := Done;
  }

  lemma CloneDone(n: nat, kernel: Extent, bs: seq<Extent>, bs1: seq<Extent>, bs2: seq<Extent>,
                  m: seq<Page>, m1: seq<Page>, m2: seq<Page>, m3: seq<Page>, cur: Task, t: Task, pid: int)
    requires Wf(bs, n) && |m| == n && Sound(cur, Live(bs), kernel) && cur.cs.kind != 0 && pid != IDLE_TASK_PID
    requires IsUser(t, pid, t.kstack, Addr(t.ds), Size(cur.cs), Size(cur.ds))
    requires Granted(bs, bs1, n, t.kstack, KSTACK_PAGES)
    requires Granted(bs1, bs2, n, Addr(t.ds), DescriptorOf(Size(cur.ds)))
    requires Copied(m, m1, StackBlock(t).start, StackBlock(cur).start, KSTACK_PAGES)
    requires Copied(m1, m2, DescriptorOf(Addr(t.ds)), DescriptorOf(Addr(cur.ds)), DescriptorOf(Size(cur.ds)))
    requires StackBlock(t).start < |m2| && OnePage(m2, m3, StackBlock(t).start, ForkStack(m2[StackBlock(t).start]))
    ensures Cloned(n, bs, bs1, bs2, m, m3, cur, t, pid)
  {
    BlocksInMemory(bs, n, kernel, cur);
    ChildOwns(n, kernel, bs, bs1, bs2, cur, t, pid);
    SpaceIsOld(bs, bs1, n, kernel, cur, t.kstack);
    ForkCopies(m, m1, m2, m3, cur, t);
  }

  lemma BaseFits(bs: seq<Extent>, bs': seq<Extent>, n: nat, addr: nat, k: nat)
    requires Granted(bs, bs', n, addr, k) && Wf(bs, n) && n * PAGE_SIZE < WORD
    ensures addr < WORD
  {
    GrantedIsNew(bs, bs', n, addr, k);
  }

  /** sys_fork without the task list, kernel/sys.c:70-125. */
  method CloneTask(phys: Allocator, kernel: Extent, cur: Task, pid: int, junk: nat)
    returns (r: Outcome, t: Task, ghost bs1: seq<Extent>)
    requires phys.Valid() && phys.desc.Length * PAGE_SIZE < WORD
    requires Sound(cur, Live(phys.blocks), kernel) && cur.cs.kind != 0 && pid != IDLE_TASK_PID
    requires kernel in Live(phys.blocks) && kernel.start == 0
    modifies phys, phys.desc, phys.mem
    ensures phys.Valid()
    ensures r == Done ==>
              Cloned(phys.desc.Length, old(phys.blocks), bs1, phys.blocks, old(phys.mem[..]), phys.mem[..], cur, t, pid)
    ensures r == Refused && junk == 0 ==>
              phys.blocks == old(phys.blocks) && LiveSame(old(phys.blocks), old(phys.mem[..]), phys.mem[..])
    ensures r == Halted ==> NewStackAt(old(phys.blocks), phys.desc.Length - 1)
  {
    t := cur;
    ghost var bs, m, n := phys.blocks, phys.mem[..], phys.desc.Length;
    bs1 := bs;
    phys.ValidWf();
    BlocksInMemory(bs, n, kernel, cur);
    var ok, kstack := Clone(phys, DescriptorOf(cur.kstack), KSTACK_PAGES);
    if !ok {
      return Refused, t, bs1;
    }
    bs1 := phys.blocks;
    GrantedIsNew(bs, bs1, n, kstack, KSTACK_PAGES);
    ghost var m1 := phys.mem[..];
    assert LiveSame(bs, m, m1);
    r, t := CloneSpace(phys, kernel, cur, pid, kstack, junk, bs, m);
    StackAt(bs, bs1, n, kstack);
  }

  lemma StackAt(bs: seq<Extent>, bs1: seq<Extent>, n: nat, kstack: nat)
    requires Granted(bs, bs1, n, kstack, KSTACK_PAGES)
    ensures NewStackAt(bs, DescriptorOf(kstack))
  {
    assert Expand(0);
  }

  /** Page `p` is where first fit puts a new stack. */
  predicate NewStackAt(bs: seq<Extent>, p: nat)
  {
    FirstFit(bs, KSTACK_PAGES) < |bs| && bs[FirstFit(bs, KSTACK_PAGES)].start == p
  }

  /** kernel/sys.c:201-230; the panics at lines 208 and 213 are never reached. */
  method ResizeTask(phys: Allocator, kernel: Extent, t: Task, ebx: nat) returns (r: Outcome, brk: nat, t': Task)
    requires phys.Valid() && phys.desc.Length * PAGE_SIZE < WORD
    requires Sound(t, Live(phys.blocks), kernel) && Forked(t)
    modifies phys, phys.desc, phys.mem
    ensures phys.Valid()
    ensures r == Refused ==>
              phys.blocks == old(phys.blocks) && phys.mem[..] == old(phys.mem[..]) && brk == Size(t.ds)
    ensures r == Done ==>
              && brk == NewBreak(ebx)
              && Resized(phys.desc.Length, old(phys.blocks), phys.blocks, old(phys.mem[..]), phys.mem[..], t, t', ebx)
    ensures r == Halted ==> phys.desc.Length <= SegBlock(t).start + 1
    ensures r != Halted ==> exists granted :: brk == NewSegment(Size(t.ds), Size(t.cs), ebx, granted)
  {
    ghost var bs, m, e := phys.blocks, phys.mem[..], SegBlock(t);
    phys.ValidWf();
    BrkIsNewSegment(phys.desc.Length, kernel, bs, t, ebx);
    t' := t;
    var size := NewBreak(ebx);
    NewBreakFacts(ebx);
    brk := Size(t.ds);
    assert Addr(t.cs) == Addr(t.ds) && Size(t.cs) <= Size(t.ds);
    if size < Size(t.cs) {
      return Refused, brk, t';
    }
    LiveData(phys.desc[..], phys.head, bs, phys.linked, e);
    var res, addr := phys.Realloc(Addr(t.ds), DescriptorOf(size));
    if res == Panic {
      return Halted, brk, t';
    }
    if res != Ok {
      ReallocFailure(m, phys.mem[..], bs, phys.desc.Length, e.start, DescriptorOf(size));
      return Refused, brk, t';
    }
    ReallocLiveSet(bs, phys.desc.Length, e, DescriptorOf(size));
    t' := UserTask(t.pid, t.kstack, addr, Size(t.cs), size);
    r, brk := Done, size;
  }

  /** do_exit without the task list, kernel/task.c:120-127. */
  method DropTask(phys: Allocator, kernel: Extent, t: Task) returns (halted: bool, ghost bs1: seq<Extent>)
    requires phys.Valid() && Sound(t, Live(phys.blocks), kernel) && t.pid != IDLE_TASK_PID
    modifies phys, phys.desc
    ensures !halted ==>
              && phys.Valid() && Returned(old(phys.blocks), bs1, phys.desc.Length, t.kstack)
              && if t.cs.kind != 0 then Returned(bs1, phys.blocks, phys.desc.Length, Addr(t.cs)) else phys.blocks == bs1
    ensures halted ==> exists e :: e in Holdings(t, kernel) && phys.desc.Length <= e.start + 1
  {
    ghost var bs := phys.blocks;
    phys.ValidWf();
    halted := Drop(phys, t.kstack, StackBlock(t));
    bs1 := phys.blocks;
    if halted {
      assert StackBlock(t) in Holdings(t, kernel);
      return;
    }
    ReturnedIsGone(bs, bs1, phys.desc.Length, t.kstack, StackBlock(t));
    if t.cs.kind != 0 {
      halted := Drop(phys, Addr(t.cs), SegBlock(t));
      assert SegBlock(t) in Holdings(t, kernel);
    }
  }

  // ---- The machine

  /** `ss` and `es` are a run from a sound state to `s`. */
  ghost predicate History(n: nat, kernel: Extent, s: State, ss: seq<State>, es: seq<Event>)
  {
    forall k {:trigger Expand(k)} :: Expand(k) ==> IsRun(n, ss, es) && ss[|es|] == s && Inv(n, kernel, ss[0])
  }

  lemma StartsRun(n: nat, kernel: Extent, s: State)
    requires Inv(n, kernel, s)
    ensures History(n, kernel, s, [s], [])
  {
  }

  lemma HistoryInv(n: nat, kernel: Extent, s: State, ss: seq<State>, es: seq<Event>)
    requires History(n, kernel, s, ss, es)
    ensures Inv(n, kernel, s) && IsRun(n, ss, es) && ss[|es|] == s && Inv(n, kernel, ss[0])
  {
    assert Expand(0);
    RunKeeps(n, kernel, ss, es, |es|);
  }

  lemma Extend(n: nat, kernel: Extent, s: State, ss: seq<State>, es: seq<Event>, e: Event, s': State)
    requires History(n, kernel, s, ss, es) && Next(n, s, e, s')
    ensures History(n, kernel, s', ss + [s'], es + [e])
  {
    assert Expand(0);
    var us, fs := ss + [s'], es + [e];
    forall i {:trigger fs[i]} | 0 <= i < |fs| ensures Next(n, us[i], fs[i], us[i + 1]) {
      if i < |es| {
        assert Next(n, ss[i], es[i], ss[i + 1]);
      }
    }
  }

  lemma ForkExtends(n: nat, kernel: Extent, s: State, ss: seq<State>, es: seq<Event>, s': State,
                    bs1: seq<Extent>, t: Task, pid: int)
    requires History(n, kernel, s, ss, es)
    requires Running(s.tasks, s.current) && s.tasks[s.current].cs.kind != 0 && pid != IDLE_TASK_PID
    requires Cloned(n, s.bs, bs1, s'.bs, s.mem, s'.mem, s.tasks[s.current], t, pid)
    requires s'.tasks == s.tasks + [t] && s'.current == s.current
    ensures History(n, kernel, s', ss + [s'], es + [Event.Fork(pid)])
  {
    assert s'.tasks[..|s.tasks|] == s.tasks && s'.tasks[|s.tasks|] == t;
    Extend(n, kernel, s, ss, es, Event.Fork(pid), s');
  }

  lemma FailureExtends(n: nat, kernel: Extent, s: State, ss: seq<State>, es: seq<Event>, s': State)
    requires History(n, kernel, s, ss, es) && s' == s.(mem := s'.mem) && LiveSame(s.bs, s.mem, s'.mem)
    ensures History(n, kernel, s', ss + [s'], es + [ForkFailure])
  {
    Extend(n, kernel, s, ss, es, ForkFailure, s');
  }

  lemma ThreadExtends(n: nat, kernel: Extent, s: State, ss: seq<State>, es: seq<Event>, s': State,
                      kstack: nat, pid: int, fn: nat)
    requires History(n, kernel, s, ss, es) && Running(s.tasks, s.current) && pid != IDLE_TASK_PID
    requires Granted(s.bs, s'.bs, n, kstack, KSTACK_PAGES)
    requires StackMade(s.mem, s'.mem, DescriptorOf(kstack), fn)
    requires s'.tasks == s.tasks + [Task(pid, false, kstack, NO_SEGMENT, NO_SEGMENT)] && s'.current == s.current
    ensures History(n, kernel, s', ss + [s'], es + [Event.Thread(pid, fn)])
  {
    Extend(n, kernel, s, ss, es, Event.Thread(pid, fn), s');
  }

  lemma ExitExtends(n: nat, kernel: Extent, s: State, ss: seq<State>, es: seq<Event>, s': State,
                    bs1: seq<Extent>, next: nat)
    requires History(n, kernel, s, ss, es) && Running(s.tasks, s.current) && s.tasks[s.current].pid != IDLE_TASK_PID
    requires Returned(s.bs, bs1, n, s.tasks[s.current].kstack)
    requires if s.tasks[s.current].cs.kind != 0 then Returned(bs1, s'.bs, n, Addr(s.tasks[s.current].cs))
              else s'.bs == bs1
    requires s' == State(s'.bs, s.mem, s.tasks[s.current := s.tasks[s.current].(dead := true)], next)
    requires next != s.current && Running(s.tasks, next)
    ensures History(n, kernel, s', ss + [s'], es + [Event.Exit(next)])
  {
    Extend(n, kernel, s, ss, es, Event.Exit(next), s');
  }

  lemma BrkExtends(n: nat, kernel: Extent, s: State, ss: seq<State>, es: seq<Event>, s': State, t: Task, ebx: nat)
    requires History(n, kernel, s, ss, es) && Running(s.tasks, s.current) && Forked(s.tasks[s.current])
    requires Resized(n, s.bs, s'.bs, s.mem, s'.mem, s.tasks[s.current], t, ebx)
    requires s'.tasks == s.tasks[s.current := t] && s'.current == s.current
    ensures History(n, kernel, s', ss + [s'], es + [Event.Brk(ebx)])
  {
    Extend(n, kernel, s, ss, es, Event.Brk(ebx), s');
  }

  /** The last event of a run is a step from the state before it. */
  lemma LastStep(n: nat, kernel: Extent, s: State, ss: seq<State>, es: seq<Event>, e: Event, s': State)
    requires History(n, kernel, s, ss, es) && History(n, kernel, s', ss + [s'], es + [e])
    ensures Next(n, s, e, s')
  {
    assert Expand(0);
    var fs := es + [e];
    assert fs[|es|] == e;
  }

  lemma CurrentFacts(n: nat, kernel: Extent, s: State, ss: seq<State>, es: seq<Event>)
    requires History(n, kernel, s, ss, es)
    ensures n * PAGE_SIZE < WORD && kernel in Live(s.bs) && kernel.start == 0
    ensures Running(s.tasks, s.current) && Sound(s.tasks[s.current], Live(s.bs), kernel)
  {
    HistoryInv(n, kernel, s, ss, es);
    assert Sound(s.tasks[0], Live(s.bs), kernel);
  }

  lemma AllocSame(bs: seq<Extent>, n: nat, k: nat, m: seq<Page>, m': seq<Page>, ok: bool, addr: nat)
    requires Wf(bs, n) && |m'| == |m| && (ok <==> 0 < k && FirstFit(bs, k) < |bs|)
    requires ok ==> addr == AddrOf(bs[FirstFit(bs, k)].start)
    requires forall q {:trigger m'[q]} :: 0 <= q < |m| ==>
               m'[q] == if ok && DescriptorOf(addr) <= q < DescriptorOf(addr) + k then ZERO_PAGE else m[q]
    ensures LiveSame(bs, m, m')
  {
    if ok {
      AllocFacts(bs, n, k);
    }
  }

  lemma ReallocSame(bs: seq<Extent>, n: nat, p: nat, k: nat, m: seq<Page>, m': seq<Page>)
    requires Wf(bs, n) && |m| == n && ReallocMem(m, m', bs, p, k) && ReallocResult(bs, n, p, k) != Panic
    ensures LiveSame(bs, m, m')
  {
    if ReallocResult(bs, n, p, k) == Ok {
      var e := bs[Find(bs, p)];
      LiveAt(bs, e);
      ReallocContent(m, m', bs, e, k, ReallocPage(bs, p, k));
    } else {
      ReallocFailure(m, m', bs, n, p, k);
    }
  }

  class Machine {
    const phys: Allocator
    /** The block of the kernel image, over which the idle task runs. */
    const kernel: Extent
    var tasks: seq<Task>
    var current: nat

    ghost var states: seq<State>
    ghost var events: seq<Event>

    ghost function Now(): State
      reads this, phys, phys.mem
    {
      State(phys.blocks, phys.mem[..], tasks, current)
    }

    /** The run is `ss` and `es` with one more event, which led to the present state. */
    ghost predicate Logged(ss: seq<State>, es: seq<Event>, e: Event)
      reads this, phys, phys.mem
    {
      states == ss + [Now()] && events == es + [e]
    }

    /** All that happened since the start is a run. */
    ghost predicate Valid()
      reads this, phys, phys.desc, phys.mem
    {
      phys.Valid() && History(phys.desc.Length, kernel, Now(), states, events)
    }

    /** The idle task of init_multitasking (kernel/sched.c:156-192) over a kernel image whose
        text ends at `textEnd` and whose idle user stack ends at `stackEnd`. */
    constructor (p: Allocator, image: Extent, kstack: nat, textEnd: nat, stackEnd: nat)
      requires p.Valid() && p.desc.Length * PAGE_SIZE < WORD
      requires image in Live(p.blocks) && image.start == 0
      requires textEnd <= stackEnd <= AddrOf(End(image)) && stackEnd < WORD
      requires kstack % PAGE_SIZE == 0
      requires Extent(DescriptorOf(kstack), KSTACK_PAGES, false) in Live(p.blocks) - {image}
      ensures Valid() && phys == p && kernel == image && events == []
      ensures current == 0 && |tasks| == 1 && IsUser(tasks[0], IDLE_TASK_PID, kstack, 0, textEnd, stackEnd)
    {
      phys := p;
      kernel := image;
      var t := UserTask(IDLE_TASK_PID, kstack, 0, textEnd, stackEnd);
      tasks := [t];
      current := 0;
      p.ValidWf();
      ghost var s := State(p.blocks, p.mem[..], [t], 0);
      IdleOwns(t, Live(p.blocks), image, textEnd, stackEnd);
      StartsRun(p.desc.Length, image, s);
      states, events := [s], [];
      new;
      assert Now() == s;
    }

    /** Adds an event that led to the present state. */
    ghost method Record(e: Event)
      requires phys.Valid() && History(phys.desc.Length, kernel, Now(), states + [Now()], events + [e])
      modifies this`states, this`events
      ensures Valid() && Logged(old(states), old(events), e)
    {
      states, events := states + [Now()], events + [e];
    }

    /** sys_fork. A refused fork restores the block list if the local `new_ds_addr`, which the C
        code reads without assigning it, is 0. */
    method Fork(pid: int, junk: nat) returns (r: Outcome)
      requires Valid() && current < |tasks| && tasks[current].cs.kind != 0 && pid != IDLE_TASK_PID
      modifies this, phys, phys.desc, phys.mem
      ensures r == Done ==> Valid() && Logged(old(states), old(events), Event.Fork(pid))
      ensures r == Refused && junk == 0 ==> Valid() && Logged(old(states), old(events), ForkFailure)
      ensures r == Halted ==> NewStackAt(old(phys.blocks), phys.desc.Length - 1)
    {
      ghost var s := Now();
      CurrentFacts(phys.desc.Length, kernel, s, states, events);
      var t;
      ghost var bs1;
      r, t, bs1 := CloneTask(phys, kernel, tasks[current], pid, junk);
      if r == Done {
        tasks := tasks + [t];
        ForkExtends(phys.desc.Length, kernel, s, states, events, Now(), bs1, t, pid);
        Record(Event.Fork(pid));
      } else if r == Refused && junk == 0 {
        FailureExtends(phys.desc.Length, kernel, s, states, events, Now());
        Record(ForkFailure);
      }
    }

    /** The memory half of kernel_thread. */
    method KernelThread(pid: int, fn: nat) returns (ok: bool)
      requires Valid() && pid != IDLE_TASK_PID
      modifies this, phys, phys.desc, phys.mem
      ensures Valid() && (ok ==> Logged(old(states), old(events), Event.Thread(pid, fn)))
      ensures !ok ==> Now() == old(Now()) && states == old(states) && events == old(events)
    {
      ghost var s := Now();
      CurrentFacts(phys.desc.Length, kernel, s, states, events);
      var kstack;
      ok, kstack := GrabStack(phys, fn);
      if ok {
        tasks := tasks + [Task(pid, false, kstack, NO_SEGMENT, NO_SEGMENT)];
        ThreadExtends(phys.desc.Length, kernel, s, states, events, Now(), kstack, pid, fn);
        Record(Event.Thread(pid, fn));
      }
    }

    /** do_exit; `next` is the task that schedule elects. */
    method Exit(next: nat) returns (halted: bool)
      requires Valid() && current < |tasks| && tasks[current].pid != IDLE_TASK_PID
      requires next != current && Running(tasks, next)
      modifies this, phys, phys.desc
      ensures !halted ==> Valid() && Logged(old(states), old(events), Event.Exit(next))
      ensures halted ==>
                exists e :: e in Holdings(old(tasks)[old(current)], kernel) && phys.desc.Length <= e.start + 1
    {
      ghost var s := Now();
      CurrentFacts(phys.desc.Length, kernel, s, states, events);
      var t := tasks[current];
      ghost var bs1;
      tasks := tasks[current := t.(dead := true)];
      halted, bs1 := DropTask(phys, kernel, t);
      if !halted {
        current := next;
        ExitExtends(phys.desc.Length, kernel, s, states, events, Now(), bs1, next);
        Record(Event.Exit(next));
      }
    }

    /** sys_brk of a forked task. The value returned is the break. */
    method Brk(ebx: nat) returns (r: Outcome, brk: nat)
      requires Valid() && current < |tasks| && Forked(tasks[current])
      modifies this, phys, phys.desc, phys.mem
      ensures r == Done ==> Valid() && Logged(old(states), old(events), Event.Brk(ebx)) && brk == NewBreak(ebx)
      ensures r == Refused ==> Valid() && Now() == old(Now()) && states == old(states) && events == old(events)
      ensures r == Refused ==> brk == Size(old(tasks)[old(current)].ds)
      ensures r == Halted ==> phys.desc.Length <= SegBlock(old(tasks)[old(current)]).start + 1
    {
      ghost var s := Now();
      CurrentFacts(phys.desc.Length, kernel, s, states, events);
      var t;
      r, brk, t := ResizeTask(phys, kernel, tasks[current], ebx);
      if r == Done {
        tasks := tasks[current := t];
        BrkExtends(phys.desc.Length, kernel, s, states, events, Now(), t, ebx);
        Record(Event.Brk(ebx));
      }
    }

    /** task_switch to a task that is not dead. */
    method SwitchTo(next: nat)
      requires Valid() && Running(tasks, next)
      modifies this
      ensures Valid() && Logged(old(states), old(events), Event.Switch(next))
    {
      ghost var s := Now();
      current := next;
      Extend(phys.desc.Length, kernel, s, states, events, Event.Switch(next), Now());
      Record(Event.Switch(next));
    }

    /** Any other allocation, alloc_physmem_block. */
    method AllocOther(k: nat) returns (res: Ret, addr: nat)
      requires Valid()
      modifies this, phys, phys.desc, phys.mem
      ensures Valid() && Logged(old(states), old(events), Event.Call(Op.Alloc(k)))
      ensures res == Ok ==> Granted(old(phys.blocks), phys.blocks, phys.desc.Length, addr, k)
      ensures res != Ok ==> phys.blocks == old(phys.blocks)
    {
      ghost var s := Now();
      phys.ValidWf();
      res, addr := phys.Alloc(k);
      AllocSame(s.bs, phys.desc.Length, k, s.mem, phys.mem[..], res == Ok, addr);
      Extend(phys.desc.Length, kernel, s, states, events, Event.Call(Op.Alloc(k)), Now());
      Record(Event.Call(Op.Alloc(k)));
    }

    /** free_physmem_block of a block that no task holds. */
    method FreeOther(addr: nat) returns (res: Ret)
      requires Valid() && Unheld(tasks, DescriptorOf(addr)) && DescriptorOf(addr) + 1 < phys.desc.Length
      requires DescriptorOf(addr) in phys.linked
      modifies this, phys, phys.desc
      ensures Valid() && Logged(old(states), old(events), Event.Call(Op.Free(DescriptorOf(addr))))
      ensures res == if LiveStart(old(phys.blocks), DescriptorOf(addr)) then Ok else Fail
    {
      ghost var s, e := Now(), Event.Call(Op.Free(DescriptorOf(addr)));
      res := phys.Free(addr);
      Extend(phys.desc.Length, kernel, s, states, events, e, Now());
      Record(e);
    }

    /** realloc_physmem_block of a block that no task holds. */
    method ReallocOther(addr: nat, k: nat) returns (res: Ret, paddr: nat)
      requires Valid() && Unheld(tasks, DescriptorOf(addr))
      requires addr % PAGE_SIZE == 0 && DescriptorOf(addr) in phys.linked
      modifies this, phys, phys.desc, phys.mem
      ensures res == ReallocResult(old(phys.blocks), phys.desc.Length, DescriptorOf(addr), k)
      ensures res == Ok ==> paddr == AddrOf(ReallocPage(old(phys.blocks), DescriptorOf(addr), k))
      ensures res != Panic ==>
                Valid() && Logged(old(states), old(events), Event.Call(Op.Realloc(DescriptorOf(addr), k)))
    {
      ghost var s, e := Now(), Event.Call(Op.Realloc(DescriptorOf(addr), k));
      phys.ValidWf();
      res, paddr := phys.Realloc(addr, k);
      if res != Panic {
        ReallocSame(s.bs, phys.desc.Length, DescriptorOf(addr), k, s.mem, phys.mem[..]);
        Extend(phys.desc.Length, kernel, s, states, events, e, Now());
        Record(e);
      }
    }
  }

  lemma StackGranted(bs: seq<Extent>, bs': seq<Extent>, n: nat, image: Extent, kernelEnd: nat, kstack: nat)
    requires Wf(bs, n) && Bootable(bs, image, kernelEnd) && bs' == Apply(bs, n, Op.Alloc(KSTACK_PAGES))
    requires kstack == AddrOf(bs[FirstFit(bs, KSTACK_PAGES)].start)
    ensures image in Live(bs') && kstack % PAGE_SIZE == 0
    ensures Extent(DescriptorOf(kstack), KSTACK_PAGES, false) in Live(bs') - {image}
  {
    AllocFacts(bs, n, KSTACK_PAGES);
    LiveBounds(bs, n, image);
  }

  /** init_physmem, and a page for the stack of the idle task; `image` is the block of the kernel image. */
  method BootMemory(memsize: nat, kernelEnd: nat, d: array<Node<Info>>, m: array<Page>)
    returns (phys: Allocator, image: Extent, kstack: nat)
    requires kernelEnd <= BIOS_START && BIOS_END <= memsize
    requires Choose(memsize, kernelEnd) != Impossible && Aligned(memsize, kernelEnd)
    requires d.Length == m.Length == PageCount(memsize)
    modifies d, m
    ensures phys.Valid() && phys.desc == d && phys.mem == m && image in Live(phys.blocks)
    ensures image.start == 0 && kernelEnd <= AddrOf(End(image)) && kstack % PAGE_SIZE == 0
    ensures var stack := Extent(DescriptorOf(kstack), KSTACK_PAGES, false);
            && stack in Live(phys.blocks) - {image}
            && Live(phys.blocks) == Live(InitialBlocks(memsize, kernelEnd)) + {stack}
  {
    phys := new Allocator(memsize, kernelEnd, d, m);
    ghost var bs, n := phys.blocks, phys.desc.Length;
    ghost var first :| Bootable(bs, first, kernelEnd);
    LiveData(phys.desc[..], phys.head, phys.blocks, phys.linked, first);
    image := Extent(0, phys.desc[0].data.pages, false);
    LiveAt(bs, first);
    phys.ValidWf();
    var res;
    res, kstack := phys.Alloc(KSTACK_PAGES);
    StackGranted(bs, phys.blocks, n, image, kernelEnd, kstack);
    AllocFacts(bs, n, KSTACK_PAGES);
  }

  /** From init_physmem to the idle task (kernel/physmem.c:83-136, kernel/sched.c:156-192): on every machine
      with page-aligned boundaries there is a page for the stack of the idle task, and the kernel image is
      a block of its own, so that the run of the machine starts. */
  method Boot(memsize: nat, kernelEnd: nat, textEnd: nat, stackEnd: nat, d: array<Node<Info>>, m: array<Page>)
    returns (machine: Machine)
    requires kernelEnd <= BIOS_START && BIOS_END <= memsize < WORD && textEnd <= stackEnd <= kernelEnd
    requires Choose(memsize, kernelEnd) != Impossible && Aligned(memsize, kernelEnd)
    requires d.Length == m.Length == PageCount(memsize)
    modifies d, m
    ensures machine.Valid() && machine.events == [] && machine.kernel.start == 0 && machine.current == 0
    ensures |machine.tasks| == 1 && machine.tasks[0].pid == IDLE_TASK_PID
    ensures Live(machine.phys.blocks) ==
              Live(InitialBlocks(memsize, kernelEnd)) + {StackBlock(machine.tasks[0])}
  {
    var phys, image, kstack := BootMemory(memsize, kernelEnd, d, m);
    machine := new Machine(phys, image, kstack, textEnd, stackEnd);
  }
}
