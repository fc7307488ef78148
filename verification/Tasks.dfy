/** The life cycle of tasks (kernel/task.c, kernel/sys.c) as a state machine over the task
    table: fork, exit with re-parenting, waitpid, sleep and the timer. Each step is one critical
    section of the kernel. The list order of the tasks does not matter here. */
module Tasks {
  import opened Common

  const IDLE: int := 0
  const INIT: int := 1
  const NOBODY: int := -1
  const MAX_PID: int := 65535
  const INITIAL_TIMESLICE: int := 100
  const MAX_TIMESLICE: int := 150
  const TIMESLICE_INCREMENT: int := 30
  const SCHED_TICKS: int := 10
  const HZ: nat := 1000

  datatype TaskState = Runnable | Interruptible | Uninterruptible | Dead

  /** `wait` is the pid argument of a waitpid call that has not returned yet. */
  datatype Waiting = NoWait | WaitFor(pid: int)

  datatype Task =
    Task(pid: int, ppid: int, state: TaskState, timeslice: int, timeout: nat, exitStatus: int, wait: Waiting)

  type Table = map<int, Task>

  /** A task that exited, and its exit status. */
  datatype Obit = Obit(pid: int, status: int)

  /** The table, the running task (NOBODY between a call that gives up the CPU and the election
      that follows it), and what happened so far: which tasks exited with which
      status, which were reaped with which status, and a rank that falls from child to parent. */
  datatype World = World(tasks: Table, current: int, exits: multiset<Obit>, reaps: multiset<Obit>,
                         rank: map<int, nat>)

  // ---- The invariant, task by task

  /** `t` is a child that waitpid(want) called by `p` is waiting for. */
  predicate Matches(t: Task, p: int, want: int) { t.ppid == p && (want == -1 || t.pid == want) }

  ghost predicate HasChild(m: Table, p: int, want: int)
  {
    exists c :: c in m && Matches(m[c], p, want)
  }

  ghost predicate HasDeadChild(m: Table, p: int, want: int)
  {
    exists c :: c in m && Matches(m[c], p, want) && m[c].state == Dead
  }

  /** No lost wakeup: a task asleep in waitpid has a child to wait for, and none that is already
      dead. */
  ghost predicate WaitsRightly(m: Table, p: int)
    requires p in m
  {
    m[p].state == Interruptible ==>
      m[p].wait.WaitFor? && HasChild(m, p, m[p].wait.pid) && !HasDeadChild(m, p, m[p].wait.pid)
  }

  /** The parent is listed and not dead, and ranks below the child. */
  predicate HasLiveParent(m: Table, rank: map<int, nat>, p: int)
    requires p in m
  {
    && p in rank
    && (m[p].ppid != NOBODY ==>
          m[p].ppid in m && m[m[p].ppid].state != Dead && m[p].ppid in rank && rank[m[p].ppid] < rank[p])
  }

  ghost predicate TaskOk(m: Table, rank: map<int, nat>, p: int)
    requires p in m
  {
    && m[p].pid == p && 0 <= p <= MAX_PID
    && HasLiveParent(m, rank, p)
    && (p != IDLE && p != INIT ==> 2 <= rank[p])
    && WaitsRightly(m, p)
    && (m[p].timeout > 0 <==> m[p].state == Uninterruptible)
    && 0 <= m[p].timeslice <= MAX_TIMESLICE
    && (m[p].wait.WaitFor? ==> m[p].state in {Runnable, Interruptible})
  }

  /** Idle is there and ready, and init is there and alive. */
  predicate Core(m: Table, rank: map<int, nat>)
  {
    && IDLE in m && m[IDLE].state == Runnable && m[IDLE].ppid == NOBODY && m[IDLE].timeslice == 0
    && m[IDLE].wait == NoWait
    && INIT in m && m[INIT].state != Dead && m[INIT].ppid == IDLE
    && IDLE in rank && rank[IDLE] == 0 && INIT in rank && rank[INIT] == 1
  }

  ghost predicate AllOk(m: Table, rank: map<int, nat>)
  {
    forall p {:trigger TaskOk(m, rank, p)} :: p in m ==> TaskOk(m, rank, p)
  }

  /** Zombies, with the status they exited with. */
  function Zombies(m: Table): set<Obit>
  {
    set p | p in m && m[p].state == Dead :: Obit(p, m[p].exitStatus)
  }

  lemma ZombieMember(m: Table, z: Obit)
    ensures z in Zombies(m) <==> z.pid in m && m[z.pid].state == Dead && m[z.pid].exitStatus == z.status
  {
    assert z == Obit(z.pid, z.status);
  }

  /** Tables that agree on who is dead, and with which status, have the same zombies. */
  lemma SameZombies(m: Table, m': Table)
    requires forall p :: (p in m && m[p].state == Dead) <==> (p in m' && m'[p].state == Dead)
    requires forall p :: p in m && p in m' && m[p].state == Dead ==> m'[p].exitStatus == m[p].exitStatus
    ensures Zombies(m') == Zombies(m)
  {
    forall z ensures z in Zombies(m) <==> z in Zombies(m') {
      ZombieMember(m, z);
      ZombieMember(m', z);
    }
  }

  /** Every exit was reaped once, or is still there to be reaped. */
  ghost predicate Conserved(w: World)
  {
    w.exits == w.reaps + multiset(Zombies(w.tasks))
  }

  ghost predicate Inv(w: World)
  {
    && Core(w.tasks, w.rank)
    && AllOk(w.tasks, w.rank)
    && (w.current != NOBODY ==> w.current in w.tasks && w.tasks[w.current].state == Runnable)
    && Conserved(w)
  }

  ghost predicate Active(w: World) { w.current != NOBODY && w.current in w.tasks }

  // ---- The start

  /** Idle has just forked init; `threads` are the kernel threads started before there was a
      current task, which have no parent (kernel/task.c:52, kernel/sys.c:62-68). */
  function BootTable(threads: set<int>): Table
  {
    map p | p in threads + {IDLE, INIT} ::
      Task(p, if p == INIT then IDLE else NOBODY, Runnable, if p in {IDLE, INIT} then 0
          else INITIAL_TIMESLICE, 0, 0, NoWait)
  }

  function BootWorld(threads: set<int>): World
  {
    World(BootTable(threads), IDLE, multiset{}, multiset{},
          map p | p in threads + {IDLE, INIT} :: if p == IDLE then 0 else if p == INIT then 1 else 2)
  }

  lemma BootIsSound(threads: set<int>)
    requires forall p :: p in threads ==> INIT < p <= MAX_PID
    ensures Inv(BootWorld(threads))
  {
    var w := BootWorld(threads);
    forall p {:trigger TaskOk(w.tasks, w.rank, p)} | p in w.tasks ensures TaskOk(w.tasks, w.rank, p) {
    }
    assert Zombies(w.tasks) == {};
  }

  /** That table is what idle alone makes by forking init, which inherits its empty slice. */
  lemma BootIsFork(w: World, w': World)
    requires w == World(map[0 := Task(0, -1, Runnable, 0, 0, 0, NoWait)], 0, multiset{}, multiset{}, map[0 := 0])
    requires Spawns(w, w', 1, w.tasks[0].timeslice)
    ensures w'.tasks == BootWorld({}).tasks && w'.current == BootWorld({}).current
  {
  }

  // ---- fork and kernel_thread

  /** A new child of the running task (kernel/sys.c:60-68, kernel/task.c:51-54). */
  ghost predicate Spawns(w: World, w': World, pid: int, slice: int)
  {
    && Active(w) && w.tasks[w.current].wait == NoWait && w.current in w.rank
    && pid !in w.tasks && 1 <= pid <= MAX_PID && 0 <= slice <= MAX_TIMESLICE
    && w' == w.(tasks := w.tasks[pid := Task(pid, w.current, Runnable, slice, 0, 0, NoWait)],
                rank := w.rank[pid := w.rank[w.current] + 2])
  }

  lemma SpawnKeeps(w: World, w': World, pid: int, slice: int)
    requires Inv(w) && Spawns(w, w', pid, slice)
    ensures Inv(w')
  {
    var m, m' := w.tasks, w'.tasks;
    assert TaskOk(m, w.rank, w.current);
    forall p {:trigger TaskOk(m', w'.rank, p)} | p in m' ensures TaskOk(m', w'.rank, p) {
      if p != pid {
        assert TaskOk(m, w.rank, p);
        if m[p].state == Interruptible {
          var want := m[p].wait.pid;
          var c :| c in m && Matches(m[c], p, want);
          assert m'[c] == m[c];
          assert p != w.current;
        }
      }
    }
    SameZombies(m, m');
  }

  // ---- exit

  /** The parent of an exiting task; one without a parent goes to init (kernel/task.c:112-113). */
  function Heir(t: Task): int { if t.ppid == NOBODY then INIT else t.ppid }

  /** What do_exit of task `cur` makes of task `t` (kernel/task.c:107-118 and 129-135). */
  function AfterExit(t: Task, cur: int, heir: int, status: int): Task
  {
    var t' := if t.pid == cur then t.(state := Dead, exitStatus := status, ppid := heir)
              else if t.ppid == cur then t.(ppid := heir) else t;
    if t'.pid == heir && t'.state == Interruptible then t'.(state := Runnable) else t'
  }

  function ExitTable(m: Table, cur: int, status: int): Table
    requires cur in m
  {
    map p | p in m :: AfterExit(m[p], cur, Heir(m[cur]), status)
  }

  ghost predicate Exits(w: World, w': World, status: int)
  {
    && Active(w) && w.current != IDLE && w.current != INIT && w.tasks[w.current].wait == NoWait
    && w' == w.(tasks := ExitTable(w.tasks, w.current, status), current := NOBODY,
                exits := w.exits + multiset{Obit(w.current, status)})
  }

  /** Nobody asleep in waitpid but the heir sees a change among the children it waits for. */
  lemma ExitWaiters(m: Table, rank: map<int, nat>, cur: int, status: int, p: int)
    requires Core(m, rank) && AllOk(m, rank) && cur in m && m[cur].state == Runnable && cur != IDLE && cur != INIT
    requires p in m && p != cur
    ensures WaitsRightly(ExitTable(m, cur, status), p)
  {
    var m', heir := ExitTable(m, cur, status), Heir(m[cur]);
    assert TaskOk(m, rank, p) && TaskOk(m, rank, cur);
    if m'[p].state == Interruptible {
      var want := m[p].wait.pid;
      var c :| c in m && Matches(m[c], p, want);
      assert TaskOk(m, rank, c);
      assert Matches(m'[c], p, want);
      forall d | d in m' && Matches(m'[d], p, want) ensures m'[d].state != Dead {
        assert TaskOk(m, rank, d);
        assert Matches(m[d], p, want);
      }
    }
  }

  lemma ExitParents(m: Table, rank: map<int, nat>, cur: int, status: int, p: int)
    requires Core(m, rank) && AllOk(m, rank) && cur in m && m[cur].state == Runnable && cur != IDLE && cur != INIT
    requires p in m
    ensures HasLiveParent(ExitTable(m, cur, status), rank, p)
  {
    assert TaskOk(m, rank, p) && TaskOk(m, rank, cur) && TaskOk(m, rank, INIT);
    assert TaskOk(m, rank, Heir(m[cur]));
    if m[p].ppid != NOBODY {
      assert TaskOk(m, rank, m[p].ppid);
    }
  }

  lemma ExitZombies(m: Table, cur: int, status: int)
    requires cur in m && m[cur].state != Dead && forall p :: p in m ==> m[p].pid == p
    ensures Zombies(ExitTable(m, cur, status)) == Zombies(m) + {Obit(cur, status)}
    ensures Obit(cur, status) !in Zombies(m)
  {
    var m' := ExitTable(m, cur, status);
    ZombieMember(m, Obit(cur, status));
    forall z ensures z in Zombies(m') <==> z in Zombies(m) + {Obit(cur, status)} {
      ZombieMember(m, z);
      ZombieMember(m', z);
    }
  }

  lemma ExitTaskOk(m: Table, rank: map<int, nat>, cur: int, status: int, p: int)
    requires Core(m, rank) && AllOk(m, rank) && cur in m && m[cur].state == Runnable && cur != IDLE && cur != INIT
    requires m[cur].wait == NoWait && p in m
    ensures TaskOk(ExitTable(m, cur, status), rank, p)
  {
    assert TaskOk(m, rank, p);
    ExitParents(m, rank, cur, status, p);
    if p != cur {
      ExitWaiters(m, rank, cur, status, p);
    }
  }

  lemma ExitAllOk(m: Table, rank: map<int, nat>, cur: int, status: int)
    requires Core(m, rank) && AllOk(m, rank) && cur in m && m[cur].state == Runnable && cur != IDLE && cur != INIT
    requires m[cur].wait == NoWait
    ensures Core(ExitTable(m, cur, status), rank) && AllOk(ExitTable(m, cur, status), rank)
  {
    var m' := ExitTable(m, cur, status);
    assert TaskOk(m, rank, IDLE) && TaskOk(m, rank, INIT) && TaskOk(m, rank, cur);
    forall p {:trigger TaskOk(m', rank, p)} | p in m' ensures TaskOk(m', rank, p) {
      ExitTaskOk(m, rank, cur, status, p);
    }
  }

  lemma PidsAreKeys(m: Table, rank: map<int, nat>)
    requires AllOk(m, rank)
    ensures forall p :: p in m ==> m[p].pid == p
  {
    forall p | p in m ensures m[p].pid == p {
      assert TaskOk(m, rank, p);
    }
  }

  lemma ExitKeeps(w: World, w': World, status: int)
    requires Inv(w) && Exits(w, w', status)
    ensures Inv(w')
  {
    ExitAllOk(w.tasks, w.rank, w.current, status);
    PidsAreKeys(w.tasks, w.rank);
    ExitZombies(w.tasks, w.current, status);
  }

  /** An exit, field by field: the children of the exiting task go to its parent, or to init if it has
      none, and so does the task itself; that heir is woken up if it sleeps in waitpid; and nothing else
      about any other task changes. */
  lemma ExitFields(w: World, w': World, status: int)
    requires Inv(w) && Exits(w, w', status)
    ensures w'.tasks.Keys == w.tasks.Keys
    ensures var m, m', cur := w.tasks, w'.tasks, w.current;
            var heir := if m[cur].ppid == NOBODY then INIT else m[cur].ppid;
            && m'[cur] == m[cur].(state := Dead, exitStatus := status, ppid := heir)
            && forall p {:trigger m'[p]} :: p in m && p != cur ==>
                 && m'[p].ppid == (if m[p].ppid == cur then heir else m[p].ppid)
                 && m'[p].state == (if p == heir && m[p].state == Interruptible then Runnable else m[p].state)
                 && m'[p].pid == p && m'[p].timeslice == m[p].timeslice && m'[p].timeout == m[p].timeout
                 && m'[p].exitStatus == m[p].exitStatus && m'[p].wait == m[p].wait
  {
    PidsAreKeys(w.tasks, w.rank);
    var m, m', cur := w.tasks, w'.tasks, w.current;
    assert TaskOk(m, w.rank, cur);
    forall p {:trigger m'[p]} | p in m && p != cur ensures m'[p] == AfterExit(m[p], cur, Heir(m[cur]), status) {
    }
  }

  /** Why init has to stay alive: a task's parent is alive after its exit exactly when the task
      had a parent, or init is there, alive, and not the one that exits. */
  lemma HeirAliveIff(m: Table, rank: map<int, nat>, cur: int, status: int)
    requires AllOk(m, rank) && cur in m && m[cur].state == Runnable
    ensures var m' := ExitTable(m, cur, status); var heir := m'[cur].ppid;
            (heir in m' && m'[heir].state != Dead) <==>
            (m[cur].ppid != NOBODY || (INIT in m && m[INIT].state != Dead && cur != INIT))
  {
    assert TaskOk(m, rank, cur);
    assert Heir(m[cur]) in m ==> TaskOk(m, rank, Heir(m[cur]));
  }

  /** After init has exited, a boot-time kernel thread that exits is left to a dead parent. */
  lemma InitGoneExample()
    ensures var m := ExitTable(ExitTable(BootTable({2}), INIT, 0), 2, 0);
            m[2].ppid == INIT && m[INIT].state == Dead
  {
  }

  // ---- waitpid

  /** A dead child that matches is removed, and its pid and status are returned
      (kernel/task.c:159-169). */
  ghost predicate Reaps(w: World, w': World, want: int, c: int, status: int)
  {
    && Active(w) && w.tasks[w.current].wait in {NoWait, WaitFor(want)}
    && c in w.tasks && Matches(w.tasks[c], w.current, want) && w.tasks[c].state == Dead
    && status == w.tasks[c].exitStatus
    && w' == w.(tasks := (w.tasks - {c})[w.current := w.tasks[w.current].(wait := NoWait)],
                reaps := w.reaps + multiset{Obit(c, status)})
  }

  /** No matching child at all: waitpid returns -1. */
  ghost predicate FindsNoChild(w: World, w': World, want: int)
  {
    && Active(w) && w.tasks[w.current].wait in {NoWait, WaitFor(want)}
    && !HasChild(w.tasks, w.current, want)
    && w' == w.(tasks := w.tasks[w.current := w.tasks[w.current].(wait := NoWait)])
  }

  /** Matching children, none dead: the caller goes to sleep
      (kernel/task.c:180, kernel/sched.c:284-288). */
  ghost predicate FallsAsleep(w: World, w': World, want: int)
  {
    && Active(w) && w.tasks[w.current].wait in {NoWait, WaitFor(want)}
    && HasChild(w.tasks, w.current, want) && !HasDeadChild(w.tasks, w.current, want)
    && w' == w.(tasks := w.tasks[w.current := w.tasks[w.current].(state := Interruptible, wait := WaitFor(want))],
                current := NOBODY)
  }

  lemma ReapTaskOk(m: Table, rank: map<int, nat>, cur: int, want: int, c: int, p: int)
    requires Core(m, rank) && AllOk(m, rank) && cur in m && m[cur].state == Runnable
    requires c in m && Matches(m[c], cur, want) && m[c].state == Dead
    requires p in m && p != c
    ensures c != cur && TaskOk((m - {c})[cur := m[cur].(wait := NoWait)], rank, p)
  {
    var m' := (m - {c})[cur := m[cur].(wait := NoWait)];
    assert TaskOk(m, rank, p) && TaskOk(m, rank, c) && TaskOk(m, rank, cur);
    if p != cur && m[p].state == Interruptible {
      var want' := m[p].wait.pid;
      var d :| d in m && Matches(m[d], p, want');
      assert d != c && Matches(m'[d], p, want');
    }
  }

  lemma ReapZombies(m: Table, cur: int, c: int)
    requires cur in m && c in m && c != cur && m[c].state == Dead && m[cur].state != Dead
    ensures Zombies(m) == Zombies((m - {c})[cur := m[cur].(wait := NoWait)]) + {Obit(c, m[c].exitStatus)}
    ensures Obit(c, m[c].exitStatus) !in Zombies((m - {c})[cur := m[cur].(wait := NoWait)])
  {
    var m', z := (m - {c})[cur := m[cur].(wait := NoWait)], Obit(c, m[c].exitStatus);
    ZombieMember(m', z);
    forall y ensures y in Zombies(m) <==> y in Zombies(m') + {z} {
      ZombieMember(m, y);
      ZombieMember(m', y);
    }
  }

  lemma ReapKeeps(w: World, w': World, want: int, c: int, status: int)
    requires Inv(w) && Reaps(w, w', want, c, status)
    ensures Inv(w')
  {
    var m, m' := w.tasks, w'.tasks;
    forall p {:trigger TaskOk(m', w'.rank, p)} | p in m' ensures TaskOk(m', w'.rank, p) {
      ReapTaskOk(m, w.rank, w.current, want, c, p);
    }
    ReapTaskOk(m, w.rank, w.current, want, c, IDLE);
    ReapZombies(m, w.current, c);
    ReapCounts(w.exits, w.reaps, Zombies(m'), Obit(c, status));
  }

  lemma ReapCounts(exits: multiset<Obit>, reaps: multiset<Obit>, zombies: set<Obit>, z: Obit)
    requires exits == reaps + multiset(zombies + {z}) && z !in zombies
    ensures exits == (reaps + multiset{z}) + multiset(zombies)
  {
    assert multiset(zombies + {z}) == multiset(zombies) + multiset{z};
  }

  /** Changing one task that stays alive, keeps its parent and does not sleep unduly keeps the
      invariant: what others wait for does not depend on it. */
  lemma ChangeKeeps(m: Table, rank: map<int, nat>, cur: int, t: Task)
    requires Core(m, rank) && AllOk(m, rank) && cur in m && m[cur].state != Dead
    requires t.pid == m[cur].pid && t.ppid == m[cur].ppid && t.state != Dead
    requires cur == IDLE ==> t.state == Runnable && t.timeslice == 0 && t.wait == NoWait
    requires t.timeout > 0 <==> t.state == Uninterruptible
    requires 0 <= t.timeslice <= MAX_TIMESLICE
    requires t.wait.WaitFor? ==> t.state in {Runnable, Interruptible}
    requires t.state == Interruptible ==>
               t.wait.WaitFor? && HasChild(m, cur, t.wait.pid) && !HasDeadChild(m, cur, t.wait.pid)
    ensures Core(m[cur := t], rank) && AllOk(m[cur := t], rank)
    ensures Zombies(m[cur := t]) == Zombies(m)
  {
    var m' := m[cur := t];
    assert TaskOk(m, rank, cur) && TaskOk(m, rank, INIT);
    forall p {:trigger TaskOk(m', rank, p)} | p in m' ensures TaskOk(m', rank, p) {
      ChangeTaskOk(m, rank, cur, t, p);
    }
    SameZombies(m, m');
  }

  lemma ChangeTaskOk(m: Table, rank: map<int, nat>, cur: int, t: Task, p: int)
    requires AllOk(m, rank) && cur in m && m[cur].state != Dead
    requires t.pid == m[cur].pid && t.ppid == m[cur].ppid && t.state != Dead
    requires t.timeout > 0 <==> t.state == Uninterruptible
    requires 0 <= t.timeslice <= MAX_TIMESLICE
    requires t.wait.WaitFor? ==> t.state in {Runnable, Interruptible}
    requires t.state == Interruptible ==>
               t.wait.WaitFor? && HasChild(m, cur, t.wait.pid) && !HasDeadChild(m, cur, t.wait.pid)
    requires p in m
    ensures TaskOk(m[cur := t], rank, p)
  {
    var m' := m[cur := t];
    assert TaskOk(m, rank, p) && TaskOk(m, rank, cur);
    if m'[p].state == Interruptible {
      var want := m'[p].wait.pid;
      var d :| d in m && Matches(m[d], p, want);
      assert Matches(m'[d], p, want);
      forall e | e in m' && Matches(m'[e], p, want) ensures m'[e].state != Dead {
        assert Matches(m[e], p, want);
      }
    }
  }

  lemma WaitKeeps(w: World, w': World, want: int)
    requires Inv(w) && w.current != IDLE
    requires FindsNoChild(w, w', want) || FallsAsleep(w, w', want)
    ensures Inv(w')
  {
    assert TaskOk(w.tasks, w.rank, w.current);
    ChangeKeeps(w.tasks, w.rank, w.current, w'.tasks[w.current]);
  }

  /** waitpid(want) by the running task, outcome by outcome: a child it returns was a dead child of the
      caller, the one asked for unless any will do, and only it leaves the table; -1 means that there is
      no such child; and the caller sleeps exactly when there are some and none is dead. */
  lemma WaitOutcomes(w: World, e: Event, w': World)
    requires Inv(w) && Next(w, e, w')
    ensures e.Reap? ==>
              && e.child in w.tasks && w.tasks[e.child].ppid == w.current && (e.want == -1 || e.child == e.want)
              && w.tasks[e.child].state == Dead && w.tasks[e.child].exitStatus == e.status
              && w'.current == w.current && w'.tasks.Keys == w.tasks.Keys - {e.child}
              && forall p {:trigger w'.tasks[p]} :: p in w'.tasks && p != w.current ==> w'.tasks[p] == w.tasks[p]
    ensures e.NoChild? ==>
              && w'.current == w.current
              && forall c {:trigger w.tasks[c]} :: c in w.tasks && w.tasks[c].ppid == w.current ==>
                   e.want != -1 && c != e.want
    ensures e.Await? ==>
              && w'.current == NOBODY && w'.tasks[w.current].state == Interruptible
              && (exists c :: c in w.tasks && w.tasks[c].ppid == w.current && (e.want == -1 || c == e.want))
              && forall c {:trigger w.tasks[c]} ::
                   c in w.tasks && w.tasks[c].ppid == w.current && (e.want == -1 || c == e.want) ==>
                     w.tasks[c].state != Dead
  {
    PidsAreKeys(w.tasks, w.rank);
    if e.Reap? {
      assert TaskOk(w.tasks, w.rank, w.current);
    } else if e.NoChild? {
      forall c {:trigger w.tasks[c]} | c in w.tasks && w.tasks[c].ppid == w.current
        ensures e.want != -1 && c != e.want
      {
        assert !Matches(w.tasks[c], w.current, e.want);
      }
    } else if e.Await? {
      var c :| c in w.tasks && Matches(w.tasks[c], w.current, e.want);
      assert c in w.tasks && w.tasks[c].ppid == w.current && (e.want == -1 || c == e.want);
    }
  }

  // ---- sleep and the timer

  /** do_sleep computes its timeout in 32 bits (kernel/task.c:201). */
  function SleepTicks(msec: nat): nat { msec * HZ % WORD / 1000 }

  /** The timeout is the one asked for exactly when the product does not wrap around; if what
      wraps is below one tick, the task never wakes up. */
  lemma SleepExactIffNoWrap(msec: nat)
    requires msec < WORD
    ensures SleepTicks(msec) == msec <==> msec * HZ < WORD
    ensures SleepTicks(msec) == 0 <==> msec * HZ % WORD < HZ
  {
  }

  ghost predicate Sleeps(w: World, w': World, msec: nat)
  {
    && Active(w) && w.current != IDLE && w.tasks[w.current].wait == NoWait
    && 0 < msec < WORD && 0 < SleepTicks(msec)
    && var t := w.tasks[w.current].(state := Uninterruptible, timeout := SleepTicks(msec));
       w' == w.(tasks := w.tasks[w.current := t], current := NOBODY)
  }

  lemma SleepKeeps(w: World, w': World, msec: nat)
    requires Inv(w) && Sleeps(w, w', msec)
    ensures Inv(w')
  {
    assert TaskOk(w.tasks, w.rank, w.current);
    ChangeKeeps(w.tasks, w.rank, w.current, w'.tasks[w.current]);
  }

  /** One timer tick on one task (kernel/timer.c:199-200 and 209-215). */
  function AfterTick(t: Task, current: int): Task
  {
    var t' := if t.pid == current && t.pid != IDLE && t.timeslice > 0 then t.(timeslice := t.timeslice - 1) else t;
    if t'.timeout > 1 then t'.(timeout := t'.timeout - 1)
    else if t'.timeout == 1 then t'.(timeout := 0, state := Runnable)
    else t'
  }

  /** Task `t` after ticks during which the tasks `curs` are running. */
  function Ticking(t: Task, curs: seq<int>): Task
    decreases |curs|
  {
    if curs == [] then t else Ticking(AfterTick(t, curs[0]), curs[1..])
  }

  /** A task in timed sleep wakes up after exactly as many ticks as its timeout; with a timeout of
      0 it never does. */
  lemma {:induction false} WakesAfterTimeout(t: Task, curs: seq<int>)
    requires t.state == Uninterruptible || (t.state == Runnable && t.timeout == 0)
    ensures Ticking(t, curs).state ==
              if t.state == Runnable || 0 < t.timeout <= |curs| then Runnable else Uninterruptible
    decreases |curs|
  {
    if curs != [] {
      WakesAfterTimeout(AfterTick(t, curs[0]), curs[1..]);
    }
  }

  /** A sleep of 4294968 ms, a little over 71 minutes, never ends. */
  lemma SleepForeverExample(t: Task, curs: seq<int>)
    ensures 4294968 < WORD
    ensures Ticking(t.(state := Uninterruptible, timeout := SleepTicks(4294968)), curs).state == Uninterruptible
  {
    WakesAfterTimeout(t.(state := Uninterruptible, timeout := SleepTicks(4294968)), curs);
  }

  /** Timer ticks among the events `lo` to `hi`. */
  function TickCount(es: seq<Event>, lo: nat, hi: nat): nat
    requires lo <= hi <= |es|
  {
    if lo == hi then 0 else TickCount(es, lo, hi - 1) + if es[hi - 1].Tick? then 1 else 0
  }

  /** A task in timed sleep stays so, and counts the ticks, until its timeout is used up. */
  lemma AsleepStep(w: World, e: Event, w': World, p: int)
    requires Inv(w) && Next(w, e, w') && p in w.tasks && w.tasks[p].state == Uninterruptible
    ensures p in w'.tasks
    ensures !e.Tick? ==> w'.tasks[p].state == Uninterruptible && w'.tasks[p].timeout == w.tasks[p].timeout
    ensures e.Tick? ==>
              && w'.tasks[p].timeout == w.tasks[p].timeout - 1
              && w'.tasks[p].state == if w.tasks[p].timeout == 1 then Runnable else Uninterruptible
  {
    assert TaskOk(w.tasks, w.rank, p);
  }

  /** In every run, a task that sleeps for `msec` milliseconds is asleep until as many ticks as do_sleep
      computed have passed, and the last of them wakes it up: `msec` ticks unless the product wraps
      around. */
  lemma {:induction false} SleepsThatLong(ws: seq<World>, es: seq<Event>, i: nat, n: nat, msec: nat)
    requires IsRun(ws, es) && Inv(ws[0]) && i < n < |ws| && es[i] == Sleep(msec)
    ensures var p, ticks := ws[i].current, TickCount(es, i + 1, n);
            var timeout := if msec * 1000 < 0x1_0000_0000 then msec else msec * 1000 % 0x1_0000_0000 / 1000;
            && (ticks < timeout ==>
                  && p in ws[n].tasks && ws[n].tasks[p].state == Uninterruptible
                  && ws[n].tasks[p].timeout == timeout - ticks)
            && (ticks == timeout && es[n - 1].Tick? ==>
                  p in ws[n].tasks && ws[n].tasks[p].state == Runnable && ws[n].tasks[p].timeout == 0)
    decreases n
  {
    RunKeeps(ws, es, n - 1);
    var e := es[n - 1];
    if n == i + 1 {
      SleepExactIffNoWrap(msec);
    } else {
      SleepsThatLong(ws, es, i, n - 1, msec);
      var p := ws[i].current;
      if p in ws[n - 1].tasks && ws[n - 1].tasks[p].state == Uninterruptible {
        AsleepStep(ws[n - 1], e, ws[n], p);
      }
    }
  }

  ghost predicate Ticks(w: World, w': World)
  {
    Active(w) && w' == w.(tasks := map p | p in w.tasks :: AfterTick(w.tasks[p], w.current))
  }

  /** A task may end a timed sleep and its slice may change; nothing else does. */
  predicate Ticked(t: Task, t': Task)
  {
    && t'.pid == t.pid && t'.ppid == t.ppid && t'.exitStatus == t.exitStatus && t'.wait == t.wait
    && (t'.state == t.state || (t.state == Uninterruptible && t'.state == Runnable))
    && (t'.timeout > 0 <==> t'.state == Uninterruptible)
    && 0 <= t'.timeslice <= MAX_TIMESLICE
    && (t.pid == IDLE ==> t'.timeslice == 0)
  }

  lemma TickedTaskOk(m: Table, m': Table, rank: map<int, nat>, p: int)
    requires AllOk(m, rank) && m'.Keys == m.Keys && p in m
    requires forall q {:trigger m'[q]} :: q in m ==> Ticked(m[q], m'[q])
    ensures TaskOk(m', rank, p)
  {
    assert TaskOk(m, rank, p) && Ticked(m[p], m'[p]);
    if m[p].ppid != NOBODY {
      assert Ticked(m[m[p].ppid], m'[m[p].ppid]);
    }
    if m'[p].state == Interruptible {
      var want := m[p].wait.pid;
      var c :| c in m && Matches(m[c], p, want);
      assert Matches(m'[c], p, want);
      forall d | d in m' && Matches(m'[d], p, want) ensures m'[d].state != Dead {
        assert Matches(m[d], p, want);
      }
    }
  }

  lemma TickedKeeps(m: Table, m': Table, rank: map<int, nat>)
    requires Core(m, rank) && AllOk(m, rank) && m'.Keys == m.Keys
    requires forall q {:trigger m'[q]} :: q in m ==> Ticked(m[q], m'[q])
    ensures Core(m', rank) && AllOk(m', rank) && Zombies(m') == Zombies(m)
  {
    assert Ticked(m[IDLE], m'[IDLE]) && Ticked(m[INIT], m'[INIT]);
    assert TaskOk(m, rank, IDLE);
    forall p {:trigger TaskOk(m', rank, p)} | p in m' ensures TaskOk(m', rank, p) {
      TickedTaskOk(m, m', rank, p);
    }
    forall p | p in m ensures m[p].state == Dead <==> m'[p].state == Dead {
      assert Ticked(m[p], m'[p]);
    }
    SameZombies(m, m');
  }

  lemma TickKeeps(w: World, w': World)
    requires Inv(w) && Ticks(w, w')
    ensures Inv(w')
  {
    var m, m' := w.tasks, w'.tasks;
    assert TaskOk(m, w.rank, w.current);
    forall q {:trigger m'[q]} | q in m ensures Ticked(m[q], m'[q]) {
      assert TaskOk(m, w.rank, q);
      assert q == IDLE ==> m[q].timeslice == 0;
    }
    TickedKeeps(m, m', w.rank);
  }

  /** A tick, field by field: the running task, unless it is idle, has one tick less of its slice, every
      timeout is one less, and a timeout that is over makes its task runnable. */
  lemma TickFields(w: World, w': World)
    requires Inv(w) && Ticks(w, w')
    ensures w'.tasks.Keys == w.tasks.Keys && w'.current == w.current
    ensures var m, m' := w.tasks, w'.tasks;
            forall p {:trigger m'[p]} :: p in m ==>
              && m'[p].timeslice ==
                   (if p == w.current && p != IDLE && m[p].timeslice > 0 then m[p].timeslice - 1 else m[p].timeslice)
              && m'[p].timeout == (if m[p].timeout > 0 then m[p].timeout - 1 else 0)
              && m'[p].state == (if m[p].timeout == 1 then Runnable else m[p].state)
              && m'[p].pid == p && m'[p].ppid == m[p].ppid && m'[p].exitStatus == m[p].exitStatus
              && m'[p].wait == m[p].wait
  {
    PidsAreKeys(w.tasks, w.rank);
  }

  // ---- schedule

  predicate Ready(t: Task) { t.state == Runnable && t.pid != IDLE }

  function Recharge(t: Task): Task
  {
    if t.pid == IDLE then t
    else if t.timeslice + TIMESLICE_INCREMENT > MAX_TIMESLICE then t.(timeslice := MAX_TIMESLICE)
    else t.(timeslice := t.timeslice + TIMESLICE_INCREMENT)
  }

  /** No runnable task has time left. */
  ghost predicate NoTimeLeft(m: Table)
  {
    forall p :: p in m && m[p].state == Runnable ==> m[p].timeslice <= 0
  }

  /** An election: a runnable task with the longest slice is next, and idle only if no other task
      is ready; when no slice is left, all are recharged. */
  ghost predicate Schedules(w: World, w': World, next: int)
  {
    && next in w.tasks && w.tasks[next].state == Runnable
    && (forall p :: p in w.tasks && w.tasks[p].state == Runnable ==> w.tasks[p].timeslice <= w.tasks[next].timeslice)
    && (next == IDLE ==> forall p :: p in w.tasks ==> !Ready(w.tasks[p]))
    && w'.tasks.Keys == w.tasks.Keys
    && (forall p {:trigger w'.tasks[p]} :: p in w.tasks ==>
          w'.tasks[p] == if NoTimeLeft(w.tasks) then Recharge(w.tasks[p]) else w.tasks[p])
    && w' == w.(tasks := w'.tasks, current := next)
  }

  lemma ScheduleKeeps(w: World, w': World, next: int)
    requires Inv(w) && Schedules(w, w', next)
    ensures Inv(w')
  {
    var m, m' := w.tasks, w'.tasks;
    forall q {:trigger m'[q]} | q in m ensures Ticked(m[q], m'[q]) {
      assert TaskOk(m, w.rank, q);
    }
    TickedKeeps(m, m', w.rank);
    assert TaskOk(m, w.rank, next);
  }

  /** An election, in numbers: when no runnable task has time left, every task but idle, in whatever
      state, gets 30 ticks more, up to 150; otherwise no slice changes. Nothing else changes ever. */
  lemma ScheduleFields(w: World, w': World, next: int)
    requires Inv(w) && Schedules(w, w', next)
    ensures w'.tasks.Keys == w.tasks.Keys && w'.current == next
    ensures var m, m' := w.tasks, w'.tasks;
            var over := forall p :: p in m && m[p].state == Runnable ==> m[p].timeslice == 0;
            forall p {:trigger m'[p]} :: p in m ==>
              m'[p] == m[p].(timeslice := if !over then m[p].timeslice
                                          else if p == 0 then 0
                                          else if m[p].timeslice + 30 < 150 then m[p].timeslice + 30 else 150)
  {
    var m, m' := w.tasks, w'.tasks;
    PidsAreKeys(m, w.rank);
    forall p | p in m ensures 0 <= m[p].timeslice <= 150 && (p == 0 ==> m[p].timeslice == 0) {
      assert TaskOk(m, w.rank, p);
    }
    forall p {:trigger m'[p]} | p in m
      ensures m'[p] == if NoTimeLeft(m) then Recharge(m[p]) else m[p]
    {
    }
  }

  // ---- Whole runs

  datatype Event =
    | Fork(pid: int, slice: int)
    | Exit(status: int)
    | Reap(want: int, child: int, status: int)
    | NoChild(want: int)
    | Await(want: int)
    | Sleep(msec: nat)
    | Tick
    | Schedule(next: int)

  ghost predicate Next(w: World, e: Event, w': World)
  {
    match e
    case Fork(pid, slice) => Spawns(w, w', pid, slice)
    case Exit(status) => Exits(w, w', status)
    case Reap(want, c, status) => Reaps(w, w', want, c, status)
    case NoChild(want) => w.current != IDLE && FindsNoChild(w, w', want)
    case Await(want) => w.current != IDLE && FallsAsleep(w, w', want)
    case Sleep(msec) => Sleeps(w, w', msec)
    case Tick => Ticks(w, w')
    case Schedule(next) => Schedules(w, w', next)
  }

  lemma NextKeeps(w: World, e: Event, w': World)
    requires Inv(w) && Next(w, e, w')
    ensures Inv(w')
  {
    match e
    case Fork(pid, slice) => SpawnKeeps(w, w', pid, slice);
    case Exit(status) => ExitKeeps(w, w', status);
    case Reap(want, c, status) => ReapKeeps(w, w', want, c, status);
    case NoChild(want) => WaitKeeps(w, w', want);
    case Await(want) => WaitKeeps(w, w', want);
    case Sleep(msec) => SleepKeeps(w, w', msec);
    case Tick => TickKeeps(w, w');
    case Schedule(next) => ScheduleKeeps(w, w', next);
  }

  /** A run: worlds `ws` joined by events `es`. */
  ghost predicate IsRun(ws: seq<World>, es: seq<Event>)
  {
    && |ws| == |es| + 1
    && forall i {:trigger es[i]} :: 0 <= i < |es| ==> Next(ws[i], es[i], ws[i + 1])
  }

  /** In every state of every run, as long as init lives: no wakeup is lost, every parent is
      alive, and every exit is reaped once or is still a zombie. */
  lemma {:induction false} RunKeeps(ws: seq<World>, es: seq<Event>, n: nat)
    requires IsRun(ws, es) && Inv(ws[0]) && n < |ws|
    ensures Inv(ws[n])
  {
    if n > 0 {
      RunKeeps(ws, es, n - 1);
      var e := es[n - 1];
      NextKeeps(ws[n - 1], e, ws[n]);
    }
  }

  /** In every run, idle is elected exactly when no other task is ready, and whoever is elected has
      a slice within bounds. */
  lemma IdleOnlyIfNothingElse(ws: seq<World>, es: seq<Event>, n: nat)
    requires IsRun(ws, es) && Inv(ws[0]) && n < |es| && es[n].Schedule?
    ensures ws[n + 1].current == IDLE <==> forall p :: p in ws[n].tasks ==> !Ready(ws[n].tasks[p])
    ensures forall p {:trigger ws[n + 1].tasks[p]} :: p in ws[n + 1].tasks ==>
              0 <= ws[n + 1].tasks[p].timeslice <= MAX_TIMESLICE && (p == IDLE ==> ws[n + 1].tasks[p].timeslice == 0)
  {
    RunKeeps(ws, es, n);
    RunKeeps(ws, es, n + 1);
    var e := es[n];
    assert Schedules(ws[n], ws[n + 1], e.next);
    PidsAreKeys(ws[n].tasks, ws[n].rank);
    forall p {:trigger ws[n + 1].tasks[p]} | p in ws[n + 1].tasks
      ensures 0 <= ws[n + 1].tasks[p].timeslice <= MAX_TIMESLICE
    {
      assert TaskOk(ws[n + 1].tasks, ws[n + 1].rank, p);
    }
  }

  /** A dead task stays dead, with its status, until it is reaped by its current parent. */
  lemma DeadStaysDead(w: World, e: Event, w': World, p: int)
    requires Inv(w) && Next(w, e, w') && p in w.tasks && w.tasks[p].state == Dead
    ensures p in w'.tasks ==> w'.tasks[p].state == Dead && w'.tasks[p].exitStatus == w.tasks[p].exitStatus
    ensures p !in w'.tasks ==>
              e.Reap? && e.child == p && e.status == w.tasks[p].exitStatus && w.tasks[p].ppid == w.current
  {
    assert TaskOk(w.tasks, w.rank, p);
  }

  // ---- No task is its own ancestor

  /** The pid `k` generations up from `p`, or NOBODY. */
  function Ancestor(m: Table, p: int, k: nat): int
  {
    if k == 0 then p
    else var q := Ancestor(m, p, k - 1); if q in m then m[q].ppid else NOBODY
  }

  lemma {:induction false} AncestorsRankLower(m: Table, rank: map<int, nat>, p: int, k: nat)
    requires AllOk(m, rank) && p in m
    ensures var q := Ancestor(m, p, k);
            q == NOBODY || (q in m && q in rank && p in rank && rank[q] + k <= rank[p])
  {
    assert TaskOk(m, rank, p);
    assert NOBODY in m ==> TaskOk(m, rank, NOBODY);
    if k > 0 {
      AncestorsRankLower(m, rank, p, k - 1);
      var q := Ancestor(m, p, k - 1);
      if q != NOBODY {
        assert TaskOk(m, rank, q);
      }
    }
  }

  /** The parent relation has no cycle: from every task the chain of parents ends. */
  lemma NoCycle(w: World, p: int, k: nat)
    requires Inv(w) && p in w.tasks && 0 < k
    ensures Ancestor(w.tasks, p, k) != p
    ensures p in w.rank && Ancestor(w.tasks, p, w.rank[p] + 1) == NOBODY
  {
    assert TaskOk(w.tasks, w.rank, p);
    AncestorsRankLower(w.tasks, w.rank, p, k);
    AncestorsRankLower(w.tasks, w.rank, p, w.rank[p] + 1);
  }

  // ---- An exit takes one task out of the chains of parents

  ghost predicate IsAncestor(m: Table, a: int, p: int) { exists k: nat :: Ancestor(m, p, k) == a }

  lemma {:induction false} AncestorsChain(m: Table, p: int, j: nat, k: nat)
    ensures Ancestor(m, p, j + k) == Ancestor(m, Ancestor(m, p, j), k)
    decreases k
  {
    if k > 0 {
      AncestorsChain(m, p, j, k - 1);
    }
  }

  /** The exit of `cur` leaves its heir as parent, for itself and its children. */
  ghost predicate Adopts(m: Table, m': Table, cur: int, heir: int)
  {
    && m'.Keys == m.Keys && NOBODY !in m && cur in m && heir != cur && m[cur].ppid in {NOBODY, heir} && heir != NOBODY
    && forall p {:trigger m'[p]} :: p in m && p != cur ==>
         m'[p].ppid == if m[p].ppid == cur then heir else m[p].ppid
  }

  /** Whoever is on the chain before is on it afterwards, but for `cur`, in whose place the heir is. */
  lemma {:induction false} StillAncestor(m: Table, m': Table, cur: int, heir: int, p: int, k: nat) returns (j: nat)
    requires Adopts(m, m', cur, heir) && p != cur && Ancestor(m, p, k) != NOBODY
    ensures Ancestor(m', p, j) == if Ancestor(m, p, k) == cur then heir else Ancestor(m, p, k)
  {
    if k == 0 {
      j := 0;
    } else {
      var q := Ancestor(m, p, k - 1);
      j := StillAncestor(m, m', cur, heir, p, k - 1);
      if q != cur {
        assert Ancestor(m', p, j + 1) == m'[q].ppid;
        j := j + 1;
      }
    }
  }

  /** Whoever is on the chain afterwards was on it, or is the heir or above it, and `cur` was on it. */
  lemma {:induction false} WasAncestor(m: Table, m': Table, cur: int, heir: int, p: int, j: nat)
    requires Adopts(m, m', cur, heir) && p != cur && Ancestor(m', p, j) != NOBODY
    ensures Ancestor(m', p, j) != cur
    ensures IsAncestor(m, Ancestor(m', p, j), p) ||
            (IsAncestor(m, cur, p) && IsAncestor(m, Ancestor(m', p, j), heir))
  {
    var a := Ancestor(m', p, j);
    if j == 0 {
      assert Ancestor(m, p, 0) == p;
    } else {
      var q := Ancestor(m', p, j - 1);
      WasAncestor(m, m', cur, heir, p, j - 1);
      if IsAncestor(m, q, p) {
        var k: nat :| Ancestor(m, p, k) == q;
        OneUp(m, p, k, q);
      } else {
        var k: nat :| Ancestor(m, heir, k) == q;
        OneUp(m, heir, k, q);
      }
      assert Ancestor(m, heir, 0) == heir;
    }
  }

  lemma OneUp(m: Table, p: int, k: nat, q: int)
    requires Ancestor(m, p, k) == q && q in m
    ensures IsAncestor(m, m[q].ppid, p)
  {
    assert Ancestor(m, p, k + 1) == m[q].ppid;
  }

  /** An exit changes no other line of descent: between two other tasks, one is above the other
      afterwards exactly if it was before, or if it is the heir or above it and the exiting task was
      between them. */
  lemma ExitKeepsDescent(w: World, w': World, status: int, a: int, p: int)
    requires Inv(w) && Exits(w, w', status) && p in w.tasks && p != w.current && a in w.tasks && a != w.current
    ensures var cur := w.current;
            var heir := if w.tasks[cur].ppid == NOBODY then INIT else w.tasks[cur].ppid;
            IsAncestor(w'.tasks, a, p) <==>
              IsAncestor(w.tasks, a, p) || (IsAncestor(w.tasks, cur, p) && IsAncestor(w.tasks, a, heir))
  {
    var m, m', cur, heir := w.tasks, w'.tasks, w.current, Heir(w.tasks[w.current]);
    ExitFields(w, w', status);
    assert TaskOk(m, w.rank, cur) && TaskOk(m, w.rank, a);
    assert NOBODY in m ==> TaskOk(m, w.rank, NOBODY);
    DescentIff(m, m', cur, heir, a, p);
  }

  lemma DescentIff(m: Table, m': Table, cur: int, heir: int, a: int, p: int)
    requires Adopts(m, m', cur, heir) && p != cur && a != cur && a != NOBODY
    ensures IsAncestor(m', a, p) <==> IsAncestor(m, a, p) || (IsAncestor(m, cur, p) && IsAncestor(m, a, heir))
  {
    if j: nat :| Ancestor(m', p, j) == a {
      WasAncestor(m, m', cur, heir, p, j);
    }
    if k: nat :| Ancestor(m, p, k) == a {
      var j := StillAncestor(m, m', cur, heir, p, k);
    }
    if IsAncestor(m, cur, p) && IsAncestor(m, a, heir) {
      var k: nat :| Ancestor(m, p, k) == cur;
      var l: nat :| Ancestor(m, heir, l) == a;
      var i := StillAncestor(m, m', cur, heir, p, k);
      var j := StillAncestor(m, m', cur, heir, heir, l);
      AncestorsChain(m', p, i, j);
    }
  }
}
