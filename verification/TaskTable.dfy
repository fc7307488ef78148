/** The global task list: the loops of kernel/task.c, kernel/sched.c and kernel/timer.c, and the
    kernel object whose calls are steps of the state machine in Tasks. */
module TaskTable {
  import opened Common
  import opened Tasks
  import opened Scheduler

  // ---- alloc_pid, kernel/sched.c:90-112

  predicate Used(ts: seq<Task>, pid: int)
  {
    exists i :: 0 <= i < |ts| && ts[i].pid == pid
  }

  function NextPid(pid: int): int { if pid < MAX_PID then pid + 1 else INIT }

  /** Increments from `a` to `b` among the pids 1 to MAX_PID. */
  function PidsTo(a: int, b: int): int { if a <= b then b - a else b - a + MAX_PID }

  /** The first unused pid after the counter, in the order in which they are tried. */
  ghost predicate FirstUnused(ts: seq<Task>, counter: int, pid: int)
  {
    && 1 <= pid <= MAX_PID && !Used(ts, pid)
    && forall q {:trigger Used(ts, q)} :: 1 <= q <= MAX_PID && !Used(ts, q) ==>
         PidsTo(NextPid(counter), pid) <= PidsTo(NextPid(counter), q)
  }

  /** `free` shows that some pid is unused; `rounds` counts the pids tried. */
  method AllocPid(ts: seq<Task>, counter: int, ghost free: int) returns (pid: int, ghost rounds: nat)
    requires 1 <= counter <= MAX_PID && 1 <= free <= MAX_PID && !Used(ts, free)
    ensures FirstUnused(ts, counter, pid) && 0 < rounds <= MAX_PID && pid == Tried(counter, rounds)
  {
    pid := counter;
    rounds := 0;
    ghost var first := NextPid(counter);
    var taken := true;
    while taken
      invariant 1 <= pid <= MAX_PID && (!taken ==> !Used(ts, pid))
      invariant rounds == 0 ==> taken && pid == counter
      invariant rounds > 0 ==> rounds == PidsTo(first, pid) + 1
      invariant forall q {:trigger Used(ts, q)} :: 1 <= q <= MAX_PID && !Used(ts, q) && rounds > 0 ==>
                  PidsTo(first, pid) <= PidsTo(first, q)
      invariant taken && rounds > 0 ==> Used(ts, pid)
      invariant pid == Tried(counter, rounds) && (!taken ==> 0 < rounds)
      decreases taken, MAX_PID - rounds
    {
      assert rounds > 0 ==> PidsTo(first, pid) < PidsTo(first, free);
      pid := NextPid(pid);
      rounds := rounds + 1;
      taken := false;
      var i := 0;
      while i < |ts|
        invariant 0 <= i <= |ts| && !taken
        invariant forall j {:trigger ts[j]} :: 0 <= j < i ==> ts[j].pid != pid
      {
        if ts[i].pid == pid {
          taken := true;
          break;
        }
        i := i + 1;
      }
    }
  }

  /** The pid tried in round `n` of the loop, counted from 1. */
  function Tried(counter: int, n: nat): int
  {
    if n == 0 then counter else NextPid(Tried(counter, n - 1))
  }

  lemma {:induction false} TriedInRange(counter: int, n: nat)
    requires 1 <= counter <= MAX_PID
    ensures 1 <= Tried(counter, n) <= MAX_PID
  {
    if n > 0 {
      TriedInRange(counter, n - 1);
    }
  }

  /** Round by round the pids after the counter are tried. */
  lemma {:induction false} TriedIs(counter: int, n: nat)
    requires 1 <= counter <= MAX_PID && n <= MAX_PID
    ensures Tried(counter, n) == if counter + n <= MAX_PID then counter + n else counter + n - MAX_PID
  {
    if n > 0 {
      TriedIs(counter, n - 1);
    }
  }

  /** The loop of alloc_pid ends, in some round, exactly if some pid is unused. */
  lemma LoopEndsIff(ts: seq<Task>, counter: int)
    requires 1 <= counter <= MAX_PID
    ensures (exists n: nat :: n > 0 && !Used(ts, Tried(counter, n))) <==>
            (exists p :: 1 <= p <= MAX_PID && !Used(ts, p))
  {
    if n: nat :| n > 0 && !Used(ts, Tried(counter, n)) {
      TriedInRange(counter, n);
    }
    if p :| 1 <= p <= MAX_PID && !Used(ts, p) {
      var n: nat := if counter < p then p - counter else p - counter + MAX_PID;
      TriedIs(counter, n);
      assert Tried(counter, n) == p;
    }
  }

  // ---- get_task, kernel/sched.c:118-134

  method GetTask(ts: seq<Task>, pid: int) returns (i: nat)
    ensures i <= |ts| && (i < |ts| ==> ts[i].pid == pid) && (i == |ts| ==> !Used(ts, pid))
    ensures forall j {:trigger ts[j]} :: 0 <= j < i ==> ts[j].pid != pid
  {
    i := 0;
    while i < |ts|
      invariant 0 <= i <= |ts| && forall j {:trigger ts[j]} :: 0 <= j < i ==> ts[j].pid != pid
    {
      if ts[i].pid == pid {
        return;
      }
      i := i + 1;
    }
  }

  // ---- schedule, kernel/sched.c:239-262

  method Elect(ts: seq<Task>, idle: nat) returns (ts': seq<Task>, next: nat)
    requires Sane(ts) && idle == IdleIndex(ts, 0)
    ensures ts' == Slices(ts) && next == Elected(ts)
  {
    ScanIsBest(ts, |ts|);
    LastReadyIsLast(ts, |ts|);
    ts' := ts;
    var n := 0;
    next := |ts|;
    var i := 0;
    while i < |ts|
      invariant 0 <= i <= |ts| && Scan(ts, i) == Best(n, next)
    {
      if ts[i].state == Runnable && ts[i].timeslice > n {
        n, next := ts[i].timeslice, i;
      }
      i := i + 1;
    }
    if n == 0 {
      ts', next := RechargeLoop(ts);
      if next == |ts| {
        next := idle;
      }
    }
  }

  method RechargeLoop(ts: seq<Task>) returns (ts': seq<Task>, next: nat)
    ensures ts' == RechargeAll(ts) && next == LastReady(ts, |ts|)
  {
    ts' := ts;
    next := |ts|;
    var i := 0;
    while i < |ts|
      invariant 0 <= i <= |ts| == |ts'| && next == LastReady(ts, i)
      invariant forall j {:trigger ts'[j]} :: 0 <= j < |ts| ==> ts'[j] == if j < i then Recharge(ts[j]) else ts[j]
    {
      if ts'[i].pid != IDLE {
        ts' := ts'[i := ts'[i].(timeslice := ts'[i].timeslice + TIMESLICE_INCREMENT)];
        if ts'[i].timeslice > MAX_TIMESLICE {
          ts' := ts'[i := ts'[i].(timeslice := MAX_TIMESLICE)];
        }
        if ts'[i].state == Runnable {
          next := i;
        }
      }
      i := i + 1;
    }
  }

  // ---- do_exit, kernel/task.c:106-135

  method ExitLoop(ts: seq<Task>, c: nat, status: int) returns (ts': seq<Task>)
    requires c < |ts| && ts[c].state == Runnable
    requires forall i, j {:trigger ts[i], ts[j]} :: 0 <= i < j < |ts| ==> ts[i].pid != ts[j].pid
    requires ts[c].ppid != ts[c].pid && ts[c].pid != INIT
    ensures |ts'| == |ts|
    ensures forall i {:trigger ts'[i]} :: 0 <= i < |ts| ==> ts'[i] == AfterExit(ts[i], ts[c].pid, Heir(ts[c]), status)
  {
    ts' := ts[c := ts[c].(state := Dead, exitStatus := status)];
    if ts'[c].ppid == NOBODY {
      ts' := ts'[c := ts'[c].(ppid := INIT)];
    }
    var cur, heir := ts'[c].pid, ts'[c].ppid;
    ghost var was := ts';
    var i := 0;
    while i < |ts'|
      invariant 0 <= i <= |ts'| == |ts|
      invariant forall j {:trigger ts'[j]} :: 0 <= j < |ts| ==>
                  ts'[j] == if j < i && was[j].ppid == cur then was[j].(ppid := heir) else was[j]
    {
      if ts'[i].ppid == cur {
        ts' := ts'[i := ts'[i].(ppid := heir)];
      }
      i := i + 1;
    }
    var p := GetTask(ts', heir);
    if p < |ts'| && ts'[p].state == Interruptible {
      ts' := ts'[p := ts'[p].(state := Runnable)];
    }
  }

  // ---- do_waitpid, kernel/task.c:158-170

  /** `found` tells whether any child matches; `k` is the first dead one that does, or `|ts|`. */
  method FindChild(ts: seq<Task>, cur: int, want: int) returns (found: bool, k: nat)
    ensures k <= |ts|
    ensures k < |ts| ==> found && Matches(ts[k], cur, want) && ts[k].state == Dead
    ensures k == |ts| ==> (found <==> exists j :: 0 <= j < |ts| && Matches(ts[j], cur, want))
    ensures forall j {:trigger ts[j]} :: 0 <= j < k && Matches(ts[j], cur, want) ==> ts[j].state != Dead
  {
    found := false;
    k := 0;
    while k < |ts|
      invariant 0 <= k <= |ts|
      invariant found <==> exists j :: 0 <= j < k && Matches(ts[j], cur, want)
      invariant forall j {:trigger ts[j]} :: 0 <= j < k && Matches(ts[j], cur, want) ==> ts[j].state != Dead
    {
      if Matches(ts[k], cur, want) {
        found := true;
        if ts[k].state == Dead {
          return;
        }
      }
      k := k + 1;
    }
  }

  // ---- handle_timer_interrupt, kernel/timer.c:198-215

  /** The assertion of the timer, that a task with a timeout is in a timed sleep, never fails. */
  method TickLoop(ts: seq<Task>, c: nat) returns (ts': seq<Task>)
    requires c < |ts|
    requires forall i, j {:trigger ts[i], ts[j]} :: 0 <= i < j < |ts| ==> ts[i].pid != ts[j].pid
    requires forall i {:trigger ts[i]} :: 0 <= i < |ts| ==>
               (ts[i].timeout > 0 ==> ts[i].state == Uninterruptible) && 0 <= ts[i].timeslice
    ensures |ts'| == |ts| && forall i {:trigger ts'[i]} :: 0 <= i < |ts| ==> ts'[i] == AfterTick(ts[i], ts[c].pid)
  {
    ts' := ts;
    if ts'[c].pid != IDLE && ts'[c].timeslice != 0 {
      ts' := ts'[c := ts'[c].(timeslice := ts'[c].timeslice - 1)];
    }
    ghost var was := ts';
    var i := 0;
    while i < |ts'|
      invariant 0 <= i <= |ts'| == |ts|
      invariant forall j {:trigger ts'[j]} :: 0 <= j < |ts| ==>
                    ts'[j] == if j < i then AfterTick(ts[j], ts[c].pid) else was[j]
    {
      if ts'[i].timeout != 0 {
        assert ts'[i].state == Uninterruptible;
        ts' := ts'[i := ts'[i].(timeout := ts'[i].timeout - 1)];
        if ts'[i].timeout == 0 {
          ts' := ts'[i := ts'[i].(state := Runnable)];
        }
      }
      i := i + 1;
    }
  }

  // ---- The list and the table it stands for

  ghost predicate Lists(ts: seq<Task>, m: Table)
  {
    && (forall i {:trigger ts[i]} :: 0 <= i < |ts| ==> ts[i].pid in m && m[ts[i].pid] == ts[i])
    && (forall p {:trigger p in m} :: p in m ==> Used(ts, p))
    && (forall i, j {:trigger ts[i], ts[j]} :: 0 <= i < j < |ts| ==> ts[i].pid != ts[j].pid)
  }

  lemma ListsAppend(ts: seq<Task>, m: Table, t: Task)
    requires Lists(ts, m) && t.pid !in m
    ensures Lists(ts + [t], m[t.pid := t])
  {
    var us := ts + [t];
    forall p | p in m[t.pid := t] ensures Used(us, p) {
      if p == t.pid {
        assert us[|ts|].pid == p;
      } else {
        var i :| 0 <= i < |ts| && ts[i].pid == p;
        assert us[i].pid == p;
      }
    }
  }

  /** A pass over the list that changes each task in the same way as the table. */
  lemma ListsMap(ts: seq<Task>, ts': seq<Task>, m: Table, m': Table)
    requires Lists(ts, m) && |ts'| == |ts| && m'.Keys == m.Keys
    requires forall i {:trigger ts'[i]} :: 0 <= i < |ts| ==>
                ts'[i].pid == ts[i].pid && ts[i].pid in m' && m'[ts[i].pid] == ts'[i]
    ensures Lists(ts', m')
  {
    forall p | p in m' ensures Used(ts', p) {
      var i :| 0 <= i < |ts| && ts[i].pid == p;
      assert ts'[i].pid == p;
    }
    forall i, j {:trigger ts'[i], ts'[j]} | 0 <= i < j < |ts'| ensures ts'[i].pid != ts'[j].pid {
      assert ts[i].pid != ts[j].pid;
    }
  }

  lemma ListsUpdate(ts: seq<Task>, m: Table, k: nat, t: Task)
    requires Lists(ts, m) && k < |ts| && t.pid == ts[k].pid
    ensures Lists(ts[k := t], m[t.pid := t])
  {
    var ts', m' := ts[k := t], m[t.pid := t];
    forall i {:trigger ts'[i]} | 0 <= i < |ts|
      ensures ts'[i].pid == ts[i].pid && ts[i].pid in m' && m'[ts[i].pid] == ts'[i]
    {
      assert i != k ==> ts[i].pid != ts[k].pid;
    }
    ListsMap(ts, ts', m, m');
  }

  lemma ListsRemove(ts: seq<Task>, m: Table, k: nat)
    requires Lists(ts, m) && k < |ts|
    ensures Lists(ts[..k] + ts[k + 1..], m - {ts[k].pid})
  {
    var us, m' := ts[..k] + ts[k + 1..], m - {ts[k].pid};
    forall i {:trigger us[i]} | 0 <= i < |us| ensures us[i].pid in m' && m'[us[i].pid] == us[i] {
      var j := if i < k then i else i + 1;
      assert us[i] == ts[j] && ts[j].pid != ts[k].pid;
    }
    forall p | p in m' ensures Used(us, p) {
      var j :| 0 <= j < |ts| && ts[j].pid == p;
      assert us[if j < k then j else j - 1].pid == p;
    }
    forall i, j {:trigger us[i], us[j]} | 0 <= i < j < |us| ensures us[i].pid != us[j].pid {
      assert ts[if i < k then i else i + 1].pid != ts[if j < k then j else j + 1].pid;
    }
  }

  /** The children of a task are the same in the list and in the table. */
  lemma ListsChildren(ts: seq<Task>, m: Table, p: int, want: int)
    requires Lists(ts, m)
    ensures HasChild(m, p, want) <==> exists j :: 0 <= j < |ts| && Matches(ts[j], p, want)
    ensures HasDeadChild(m, p, want) <==> exists j :: 0 <= j < |ts| && Matches(ts[j], p, want) && ts[j].state == Dead
  {
    forall c | c in m ensures exists j :: 0 <= j < |ts| && ts[j] == m[c] {
      var j :| 0 <= j < |ts| && ts[j].pid == c;
      assert ts[j] == m[c];
    }
    forall j | 0 <= j < |ts| ensures ts[j].pid in m && m[ts[j].pid] == ts[j] {
    }
    if j :| 0 <= j < |ts| && Matches(ts[j], p, want) && ts[j].state == Dead {
      assert Matches(m[ts[j].pid], p, want);
    }
    if j :| 0 <= j < |ts| && Matches(ts[j], p, want) {
      assert Matches(m[ts[j].pid], p, want);
    }
  }

  lemma SaneTable(ts: seq<Task>, m: Table, rank: map<int, nat>)
    requires Lists(ts, m) && Core(m, rank) && AllOk(m, rank)
    ensures Sane(ts)
  {
    forall i {:trigger ts[i]} | 0 <= i < |ts|
      ensures 0 <= ts[i].timeslice <= MAX_TIMESLICE
      ensures ts[i].pid == IDLE ==> ts[i].timeslice == 0 && ts[i].state == Runnable
    {
      assert TaskOk(m, rank, ts[i].pid);
    }
    assert IDLE in m;
  }

  /** The table after schedule has changed the slices. */
  ghost function SliceTable(ts: seq<Task>, m: Table): Table
    requires Lists(ts, m)
  {
    map p | p in m :: if Scan(ts, |ts|).slice > 0 then m[p] else Recharge(m[p])
  }

  lemma SliceLists(ts: seq<Task>, w: World)
    requires Lists(ts, w.tasks) && Sane(ts)
    ensures |Slices(ts)| == |ts| && Lists(Slices(ts), SliceTable(ts, w.tasks))
  {
    var m, m', ts' := w.tasks, SliceTable(ts, w.tasks), Slices(ts);
    forall i {:trigger ts'[i]} | 0 <= i < |ts|
      ensures ts'[i].pid == ts[i].pid && ts[i].pid in m' && m'[ts[i].pid] == ts'[i]
    {
      assert m[ts[i].pid] == ts[i];
    }
    ListsMap(ts, ts', m, m');
  }

  /** The election on the list is an election on the table. */
  lemma ElectionIs(ts: seq<Task>, m: Table, next: int)
    requires Lists(ts, m) && Sane(ts) && Elected(ts) < |ts| && next == ts[Elected(ts)].pid
    ensures next in m && m[next].state == Runnable
    ensures forall p :: p in m && m[p].state == Runnable ==> m[p].timeslice <= m[next].timeslice
    ensures next == IDLE ==> forall p :: p in m ==> !Ready(m[p])
    ensures NoTimeLeft(m) <==> Scan(ts, |ts|).slice <= 0
  {
    ElectedIsRight(ts);
    ScanIsBest(ts, |ts|);
    forall p | p in m
      ensures m[p].state == Runnable ==> m[p].timeslice <= m[next].timeslice && m[p].timeslice <= Scan(ts, |ts|).slice
      ensures next == IDLE ==> !Ready(m[p])
    {
      var i :| 0 <= i < |ts| && ts[i].pid == p;
      assert m[p] == ts[i];
    }
    if Scan(ts, |ts|).slice > 0 {
      var i := Scan(ts, |ts|).index;
      assert m[ts[i].pid] == ts[i];
    }
  }

  lemma SchedulesIs(ts: seq<Task>, w: World, m': Table, next: int)
    requires Lists(ts, w.tasks) && Sane(ts) && Elected(ts) < |ts| && next == ts[Elected(ts)].pid
    requires m' == SliceTable(ts, w.tasks)
    ensures Schedules(w, w.(tasks := m', current := next), next)
  {
    ElectionIs(ts, w.tasks, next);
  }

  lemma SlicePid(ts: seq<Task>, e: nat)
    requires e < |ts|
    ensures |Slices(ts)| == |ts| && Slices(ts)[e].pid == ts[e].pid
  {
  }

  lemma ScheduleStep(ts: seq<Task>, w: World, next: int)
    requires Lists(ts, w.tasks) && Core(w.tasks, w.rank) && AllOk(w.tasks, w.rank)
    requires Elected(ts) < |ts| ==> next == ts[Elected(ts)].pid
    ensures Sane(ts) && Elected(ts) < |ts| && |Slices(ts)| == |ts| && next == Slices(ts)[Elected(ts)].pid
    ensures Lists(Slices(ts), SliceTable(ts, w.tasks))
    ensures Schedules(w, w.(tasks := SliceTable(ts, w.tasks), current := next), next)
  {
    SaneTable(ts, w.tasks, w.rank);
    ElectedIsRight(ts);
    SliceLists(ts, w);
    SlicePid(ts, Elected(ts));
    SchedulesIs(ts, w, SliceTable(ts, w.tasks), next);
  }

  /** schedule on a list whose table is sound: slices and next task are those of the election. */
  method Switch(ts: seq<Task>, ghost w: World) returns (next: int, ts': seq<Task>)
    requires Lists(ts, w.tasks) && Core(w.tasks, w.rank) && AllOk(w.tasks, w.rank)
    ensures ts' == Slices(ts) && Lists(ts', SliceTable(ts, w.tasks))
    ensures Elected(ts) < |ts'| && next == ts'[Elected(ts)].pid
    ensures Schedules(w, w.(tasks := SliceTable(ts, w.tasks), current := next), next)
  {
    ScheduleStep(ts, w, if Elected(ts) < |ts| then ts[Elected(ts)].pid else NOBODY);
    var e;
    ts', e := Elect(ts, IdleIndex(ts, 0));
    next := ts'[e].pid;
  }

  lemma TickPre(ts: seq<Task>, m: Table, rank: map<int, nat>)
    requires Lists(ts, m) && AllOk(m, rank)
    ensures forall i {:trigger ts[i]} :: 0 <= i < |ts| ==>
              (ts[i].timeout > 0 ==> ts[i].state == Uninterruptible) && 0 <= ts[i].timeslice
  {
    forall i {:trigger ts[i]} | 0 <= i < |ts|
      ensures (ts[i].timeout > 0 ==> ts[i].state == Uninterruptible) && 0 <= ts[i].timeslice
    {
      assert TaskOk(m, rank, ts[i].pid);
    }
  }

  // ---- The steps, on values

  /** The tasks of the two lists are in the same order. */
  ghost predicate SameOrder(ts: seq<Task>, us: seq<Task>)
  {
    |us| == |ts| && forall i {:trigger us[i]} {:trigger ts[i]} :: 0 <= i < |ts| ==> us[i].pid == ts[i].pid
  }

  /** From a list in the order of `ts` that stands for the table `m`, the election led to `us` and
      `cur`. */
  ghost predicate ElectedFrom(ts: seq<Task>, m: Table, us: seq<Task>, cur: int)
  {
    exists mid :: && SameOrder(ts, mid) && Lists(mid, m)
                  && us == Slices(mid) && Elected(mid) < |us| && cur == us[Elected(mid)].pid
  }

  lemma ElectedFromList(ts: seq<Task>, mid: seq<Task>, w: World, us: seq<Task>, cur: int)
    requires SameOrder(ts, mid) && Stands(mid, NOBODY, w)
    requires us == Slices(mid) && Elected(mid) < |us| && cur == us[Elected(mid)].pid
    ensures ElectedFrom(ts, w.tasks, us, cur)
  {
    assert Unfold(0);
  }

  /** The list `ts` and the running task `cur` stand for the world `w`, which is sound. */
  ghost predicate Stands(ts: seq<Task>, cur: int, w: World)
  {
    forall k {:trigger Unfold(k)} :: Unfold(k) ==> Inv(w) && Lists(ts, w.tasks) && cur == w.current
  }

  /** The machine makes the step `e`. */
  ghost predicate Takes(w: World, e: Event, w': World)
  {
    forall k {:trigger Unfold(k)} :: Unfold(k) ==> Next(w, e, w')
  }

  method FindCurrent(ts: seq<Task>, cur: int, ghost w: World) returns (c: nat)
    requires Stands(ts, cur, w) && cur != NOBODY
    ensures c < |ts| && ts[c].pid == cur && cur in w.tasks && ts[c] == w.tasks[cur] && ts[c].state == Runnable
    ensures 0 <= ts[c].timeslice <= MAX_TIMESLICE
  {
    assert Unfold(0);
    assert TaskOk(w.tasks, w.rank, cur);
    c := GetTask(ts, cur);
    assert Used(ts, cur);
  }

  method ScheduleStepOn(ts: seq<Task>, cur: int, ghost w: World) returns (ts': seq<Task>, next: int, ghost w': World)
    requires Stands(ts, cur, w)
    ensures Stands(ts', next, w') && Takes(w, Event.Schedule(next), w') && next != NOBODY
    ensures ts' == Slices(ts) && Elected(ts) < |ts'| && next == ts'[Elected(ts)].pid
  {
    assert Unfold(0);
    next, ts' := Switch(ts, w);
    w' := w.(tasks := SliceTable(ts, w.tasks), current := next);
    ScheduleKeeps(w, w', next);
    assert TaskOk(w.tasks, w.rank, next);
  }

  method SpawnStep(ts: seq<Task>, cur: int, pid: int, slice: int, ghost w: World)
    returns (ts': seq<Task>, ghost w': World)
    requires Stands(ts, cur, w) && cur != NOBODY && cur in w.tasks && w.tasks[cur].wait == NoWait
    requires !Used(ts, pid) && 1 <= pid <= MAX_PID && 0 <= slice <= MAX_TIMESLICE
    ensures Stands(ts', cur, w') && Takes(w, Event.Fork(pid, slice), w')
    ensures ts' == ts + [Task(pid, cur, Runnable, slice, 0, 0, NoWait)]
  {
    assert Unfold(0);
    assert pid !in w.tasks;
    assert TaskOk(w.tasks, w.rank, cur);
    var t := Task(pid, cur, Runnable, slice, 0, 0, NoWait);
    ts' := ts + [t];
    w' := w.(tasks := w.tasks[pid := t], rank := w.rank[pid := w.rank[cur] + 2]);
    ListsAppend(ts, w.tasks, t);
    SpawnKeeps(w, w', pid, slice);
  }

  /** The current task exits, and nobody has been elected yet. */
  method ExitStep(ts: seq<Task>, cur: int, status: int, ghost w: World) returns (ts': seq<Task>, ghost w': World)
    requires Stands(ts, cur, w) && cur != NOBODY && cur != IDLE && cur != INIT
    requires cur in w.tasks && w.tasks[cur].wait == NoWait
    ensures Stands(ts', NOBODY, w') && Takes(w, Event.Exit(status), w') && SameOrder(ts, ts')
  {
    assert Unfold(0);
    var c := FindCurrent(ts, cur, w);
    assert TaskOk(w.tasks, w.rank, cur);
    ts' := ExitLoop(ts, c, status);
    w' := w.(tasks := ExitTable(w.tasks, cur, status), current := NOBODY,
             exits := w.exits + multiset{Obit(cur, status)});
    ListsMap(ts, ts', w.tasks, w'.tasks);
    ExitKeeps(w, w', status);
  }

  /** do_sleep: the current task is asleep, and nobody has been elected yet. */
  method SleepStep(ts: seq<Task>, cur: int, msec: nat, ghost w: World) returns (ts': seq<Task>, ghost w': World)
    requires Stands(ts, cur, w) && cur != NOBODY && cur != IDLE && cur in w.tasks && w.tasks[cur].wait == NoWait
    requires 0 < msec < WORD && 0 < SleepTicks(msec)
    ensures Stands(ts', NOBODY, w') && Takes(w, Event.Sleep(msec), w') && SameOrder(ts, ts')
  {
    assert Unfold(0);
    var c := FindCurrent(ts, cur, w);
    var t := ts[c].(state := Uninterruptible, timeout := SleepTicks(msec));
    ts' := ts[c := t];
    w' := w.(tasks := w.tasks[cur := t], current := NOBODY);
    ListsUpdate(ts, w.tasks, c, t);
    SleepKeeps(w, w', msec);
  }

  lemma RemovedOrder(ts: seq<Task>, us: seq<Task>, k: nat)
    requires SameOrder(ts, us) && k < |ts|
    ensures SameOrder(ts[..k] + ts[k + 1..], us[..k] + us[k + 1..])
  {
  }

  /** The table without the child `z`, and with the call of the caller `t` over. */
  lemma ReapLists(ts: seq<Task>, us: seq<Task>, m: Table, c: nat, k: nat, t: Task)
    requires Lists(ts, m) && c < |ts| && k < |ts| && c != k && t.pid == ts[c].pid && us == ts[c := t]
    ensures Lists(us[..k] + us[k + 1..], (m - {ts[k].pid})[t.pid := t])
  {
    ListsUpdate(ts, m, c, t);
    ListsRemove(us, m[t.pid := t], k);
    assert us[k].pid == ts[k].pid && ts[k].pid != t.pid;
    assert m[t.pid := t] - {ts[k].pid} == (m - {ts[k].pid})[t.pid := t];
  }

  /** list_remove of the dead child at `k`; `c` is the caller. */
  method ReapStep(ts: seq<Task>, c: nat, k: nat, want: int, ghost w: World) returns (ts': seq<Task>, ghost w': World)
    requires c < |ts| && Stands(ts, ts[c].pid, w) && ts[c].pid != NOBODY && ts[c].wait in {NoWait, WaitFor(want)}
    requires k < |ts| && Matches(ts[k], ts[c].pid, want) && ts[k].state == Dead
    ensures Stands(ts', ts[c].pid, w') && Takes(w, Event.Reap(want, ts[k].pid, ts[k].exitStatus), w')
    ensures SameOrder(ts[..k] + ts[k + 1..], ts')
  {
    assert Unfold(0);
    var t := ts[c].(wait := NoWait);
    var us := ts[c := t];
    ts' := us[..k] + us[k + 1..];
    w' := w.(tasks := (w.tasks - {ts[k].pid})[t.pid := t],
             reaps := w.reaps + multiset{Obit(ts[k].pid, ts[k].exitStatus)});
    ReapLists(ts, us, w.tasks, c, k, t);
    RemovedOrder(ts, us, k);
    ReapKeeps(w, w', want, ts[k].pid, ts[k].exitStatus);
  }

  method NoChildStep(ts: seq<Task>, c: nat, want: int, ghost w: World) returns (ts': seq<Task>, ghost w': World)
    requires c < |ts| && Stands(ts, ts[c].pid, w) && ts[c].pid != NOBODY && ts[c].pid != IDLE
    requires ts[c].wait in {NoWait, WaitFor(want)} && !HasChild(w.tasks, ts[c].pid, want)
    ensures Stands(ts', ts[c].pid, w') && Takes(w, Event.NoChild(want), w') && SameOrder(ts, ts')
  {
    assert Unfold(0);
    var t := ts[c].(wait := NoWait);
    ts' := ts[c := t];
    w' := w.(tasks := w.tasks[t.pid := t]);
    ListsUpdate(ts, w.tasks, c, t);
    WaitKeeps(w, w', want);
  }

  method AwaitStep(ts: seq<Task>, c: nat, want: int, ghost w: World) returns (ts': seq<Task>, ghost w': World)
    requires c < |ts| && Stands(ts, ts[c].pid, w) && ts[c].pid != NOBODY && ts[c].pid != IDLE
    requires ts[c].wait in {NoWait, WaitFor(want)}
    requires HasChild(w.tasks, ts[c].pid, want) && !HasDeadChild(w.tasks, ts[c].pid, want)
    ensures Stands(ts', NOBODY, w') && Takes(w, Event.Await(want), w') && SameOrder(ts, ts')
  {
    assert Unfold(0);
    var t := ts[c].(state := Interruptible, wait := WaitFor(want));
    ts' := ts[c := t];
    w' := w.(tasks := w.tasks[t.pid := t], current := NOBODY);
    ListsUpdate(ts, w.tasks, c, t);
    WaitKeeps(w, w', want);
  }

  /** The first dead child that waitpid(want) of `cur` can return. */
  ghost predicate IsFirstDead(ts: seq<Task>, cur: int, want: int, k: nat)
  {
    && k < |ts| && ts[k].state == Dead && Matches(ts[k], cur, want)
    && forall j {:trigger ts[j]} :: 0 <= j < k && ts[j].state == Dead ==> !Matches(ts[j], cur, want)
  }

  /** The caller `c` of do_waitpid, and the dead child `k` it finds, if any. */
  method Look(ts: seq<Task>, cur: int, want: int, ghost w: World) returns (c: nat, found: bool, k: nat)
    requires Stands(ts, cur, w) && cur != NOBODY && cur != IDLE
    requires cur in w.tasks && w.tasks[cur].wait in {NoWait, WaitFor(want)}
    ensures c < |ts| && ts[c].pid == cur && ts[c].wait in {NoWait, WaitFor(want)}
    ensures k < |ts| ==> IsFirstDead(ts, cur, want, k) && ts[k].pid != -1
    ensures k >= |ts| && !found ==> !HasChild(w.tasks, cur, want)
    ensures k >= |ts| && found ==> HasChild(w.tasks, cur, want) && !HasDeadChild(w.tasks, cur, want)
  {
    assert Unfold(0);
    c := FindCurrent(ts, cur, w);
    found, k := FindChild(ts, cur, want);
    ListsChildren(ts, w.tasks, cur, want);
    assert k < |ts| ==> TaskOk(w.tasks, w.rank, ts[k].pid);
  }

  method TickStep(ts: seq<Task>, cur: int, ghost w: World) returns (ts': seq<Task>, ghost w': World)
    requires Stands(ts, cur, w) && cur != NOBODY
    ensures Stands(ts', cur, w') && Takes(w, Event.Tick, w') && ts' == TickAll(ts, cur)
  {
    assert Unfold(0);
    var c := FindCurrent(ts, cur, w);
    TickPre(ts, w.tasks, w.rank);
    ts' := TickLoop(ts, c);
    w' := w.(tasks := map p | p in w.tasks :: AfterTick(w.tasks[p], w.current));
    TickKeeps(w, w');
    TickLists(ts, ts', w.tasks, w'.tasks, cur);
  }

  lemma TickLists(ts: seq<Task>, ts': seq<Task>, m: Table, m': Table, cur: int)
    requires Lists(ts, m) && |ts'| == |ts| && m'.Keys == m.Keys
    requires forall i {:trigger ts'[i]} :: 0 <= i < |ts| ==> ts'[i] == AfterTick(ts[i], cur)
    requires forall p {:trigger m'[p]} :: p in m ==> m'[p] == AfterTick(m[p], cur)
    ensures Lists(ts', m') && ts' == TickAll(ts, cur)
  {
    ListsMap(ts, ts', m, m');
  }

  // ---- The kernel object

  /** `ws` and `es` are a run from a sound world to `w`, which the list stands for. */
  ghost predicate History(ts: seq<Task>, cur: int, w: World, ws: seq<World>, es: seq<Event>)
  {
    && Stands(ts, cur, w)
    && forall k {:trigger Unfold(k)} :: Unfold(k) ==> IsRun(ws, es) && ws[|es|] == w && Inv(ws[0])
  }

  lemma RunAppend(ws: seq<World>, es: seq<Event>, e: Event, w: World)
    requires IsRun(ws, es) && Next(ws[|es|], e, w)
    ensures IsRun(ws + [w], es + [e])
  {
  }

  /** One more event. */
  lemma Append(ts: seq<Task>, cur: int, w: World, ws: seq<World>, es: seq<Event>, e: Event,
               ts': seq<Task>, cur': int, w': World)
    requires History(ts, cur, w, ws, es) && Takes(w, e, w') && Stands(ts', cur', w')
    ensures History(ts', cur', w', ws + [w'], es + [e])
  {
    assert Unfold(0);
    RunAppend(ws, es, e, w');
  }

  /** The last event of a run is a step from the world before it. */
  lemma LastStep(ts: seq<Task>, cur: int, w: World, ws: seq<World>, es: seq<Event>, e: Event,
                 ts': seq<Task>, cur': int, w': World)
    requires History(ts, cur, w, ws, es) && History(ts', cur', w', ws + [w'], es + [e])
    ensures Next(w, e, w')
  {
    assert Unfold(0);
    var fs := es + [e];
    assert fs[|es|] == e;
  }

  lemma BootLists(ts: seq<Task>)
    requires ts == [Task(IDLE, NOBODY, Runnable, 0, 0, 0, NoWait), Task(INIT, IDLE, Runnable, 0, 0, 0, NoWait)]
    ensures Lists(ts, BootWorld({}).tasks)
  {
    assert ts[0].pid == IDLE && ts[1].pid == INIT;
  }

  class Kernel {
    var tasks: seq<Task>
    /** NOBODY between a call that gives up the CPU and the election that ends it. */
    var current: int
    var nextPid: int
    var schedTicks: int

    ghost var world: World
    ghost var worlds: seq<World>
    ghost var events: seq<Event>

    /** All that happened since the start is a run of the state machine. */
    ghost predicate Valid()
      reads this
    {
      && History(tasks, current, world, worlds, events)
      && 1 <= nextPid <= MAX_PID && 1 <= schedTicks <= SCHED_TICKS
    }

    /** The current task is in no unfinished call. */
    ghost predicate Calm()
      reads this
    {
      current != NOBODY && current in world.tasks && world.tasks[current].wait == NoWait
    }

    /** The run is `ws` and `es`, then `e`, then the election of the present task from the list `ts`
        as `e` left it. */
    ghost predicate Went(ws: seq<World>, es: seq<Event>, ts: seq<Task>, e: Event)
      reads this
    {
      && |worlds| == |ws| + 2 && worlds[..|ws|] == ws && worlds[|ws| + 1] == world
      && events == es + [e] + [Event.Schedule(current)]
      && ElectedFrom(ts, worlds[|ws|].tasks, tasks, current)
    }

    ghost function Now(): Clock
      reads this
    {
      Clock(tasks, current, schedTicks)
    }

    /** The state once idle has forked init, over any list that satisfies the invariant. */
    constructor (ts: seq<Task>, cur: int, ghost w: World)
      requires Stands(ts, cur, w)
      ensures Valid() && tasks == ts && current == cur && world == w && events == []
    {
      tasks, current, nextPid, schedTicks := ts, cur, INIT, SCHED_TICKS;
      world, worlds, events := w, [w], [];
      new;
      assert IsRun([w], []);
    }

    /** Idle is running and has just forked init; no other task is there (kernel/sched.c:156-192). */
    constructor Boot()
      ensures Valid() && world == BootWorld({}) && current == IDLE && events == []
    {
      ghost var w := BootWorld({});
      BootIsSound({});
      tasks := [Task(IDLE, NOBODY, Runnable, 0, 0, 0, NoWait), Task(INIT, IDLE, Runnable, 0, 0, 0, NoWait)];
      current, nextPid, schedTicks := IDLE, INIT, SCHED_TICKS;
      world, worlds, events := w, [w], [];
      new;
      BootLists(tasks);
      assert IsRun([w], []);
    }

    /** Records an event. */
    method Record(ghost e: Event, ts: seq<Task>, cur: int, ghost w: World)
      requires History(tasks, current, world, worlds, events)
      requires Takes(world, e, w) && Stands(ts, cur, w)
      modifies this`tasks, this`current, this`world, this`worlds, this`events
      ensures History(tasks, current, world, worlds, events) && tasks == ts && current == cur && world == w
      ensures worlds == old(worlds) + [w] && events == old(events) + [e]
    {
      Append(tasks, current, world, worlds, events, e, ts, cur, w);
      tasks, current, world, worlds, events := ts, cur, w, worlds + [w], events + [e];
    }

    /** schedule: the slices and the task of the election. */
    method Schedule()
      requires Valid()
      modifies this`tasks, this`current, this`world, this`worlds, this`events
      ensures Valid() && current != NOBODY
      ensures worlds == old(worlds) + [world] && events == old(events) + [Event.Schedule(current)]
      ensures tasks == Slices(old(tasks)) && Elected(old(tasks)) < |tasks| && current == tasks[Elected(old(tasks))].pid
    {
      var ts, next;
      ghost var w;
      ts, next, w := ScheduleStepOn(tasks, current, world);
      Record(Event.Schedule(next), ts, next, w);
    }

    /** alloc_pid and the new entry of the list: pids stay distinct. `free` is some pid not in use. */
    method Spawn(slice: int, ghost free: int) returns (pid: int)
      requires Valid() && Calm()
      requires 0 <= slice <= MAX_TIMESLICE && 1 <= free <= MAX_PID && !Used(tasks, free)
      modifies this
      ensures Valid() && FirstUnused(old(tasks), old(nextPid), pid) && nextPid == pid
      ensures worlds == old(worlds) + [world] && events == old(events) + [Event.Fork(pid, slice)]
      ensures current == old(current)
      ensures tasks == old(tasks) + [Task(pid, current, Runnable, slice, 0, 0, NoWait)]
    {
      ghost var rounds, w;
      var ts;
      pid, rounds := AllocPid(tasks, nextPid, free);
      nextPid := pid;
      ts, w := SpawnStep(tasks, current, pid, slice, world);
      Record(Event.Fork(pid, slice), ts, current, w);
    }

    /** sys_fork by any task but idle: the child inherits the time slice. */
    method Fork(ghost free: int) returns (pid: int)
      requires Valid() && Calm() && current != IDLE && 1 <= free <= MAX_PID && !Used(tasks, free)
      modifies this
      ensures Valid() && FirstUnused(old(tasks), old(nextPid), pid) && nextPid == pid
      ensures worlds == old(worlds) + [world] && current == old(current)
      ensures |tasks| == |old(tasks)| + 1 && tasks[..|old(tasks)|] == old(tasks)
      ensures events == old(events) + [Event.Fork(pid, old(world).tasks[old(current)].timeslice)]
    {
      var c := FindCurrent(tasks, current, world);
      pid := Spawn(tasks[c].timeslice, free);
    }

    method KernelThread(ghost free: int) returns (pid: int)
      requires Valid() && Calm() && 1 <= free <= MAX_PID && !Used(tasks, free)
      modifies this
      ensures Valid() && FirstUnused(old(tasks), old(nextPid), pid) && nextPid == pid
      ensures worlds == old(worlds) + [world] && events == old(events) + [Event.Fork(pid, 100)]
      ensures tasks == old(tasks) + [Task(pid, current, Runnable, 100, 0, 0, NoWait)]
      ensures current == old(current)
    {
      pid := Spawn(INITIAL_TIMESLICE, free);
    }

    /** do_exit: the exit, then the switch to another task. */
    method Exit(status: int)
      requires Valid() && Calm() && current != IDLE && current != INIT
      modifies this
      ensures Valid() && Went(old(worlds), old(events), old(tasks), Event.Exit(status))
    {
      var ts;
      ghost var w;
      ts, w := ExitStep(tasks, current, status, world);
      Record(Event.Exit(status), ts, NOBODY, w);
      Schedule();
      ElectedFromList(old(tasks), ts, w, tasks, current);
    }

    /** do_sleep of a time whose timeout does not come out as 0; a time of 0 returns at once. */
    method Sleep(msec: nat)
      requires Valid() && Calm() && current != IDLE && msec < WORD && (msec == 0 || 0 < SleepTicks(msec))
      modifies this
      ensures Valid() && (msec != 0 ==> Went(old(worlds), old(events), old(tasks), Event.Sleep(msec)))
      ensures msec == 0 ==> Now() == old(Now()) && worlds == old(worlds) && events == old(events)
    {
      if msec != 0 {
        var ts;
        ghost var w;
        ts, w := SleepStep(tasks, current, msec, world);
        Record(Event.Sleep(msec), ts, NOBODY, w);
        Schedule();
        ElectedFromList(old(tasks), ts, w, tasks, current);
      }
    }

    /** One pass of do_waitpid: a child is reaped, there is none to wait for, or the task sleeps
        and makes another pass when it runs again. */
    method WaitPid(want: int) returns (r: int, status: int, asleep: bool)
      requires Valid() && current != NOBODY && current != IDLE
      requires current in world.tasks && world.tasks[current].wait in {NoWait, WaitFor(want)}
      modifies this
      ensures Valid()
      ensures asleep ==> Went(old(worlds), old(events), old(tasks), Event.Await(want))
      ensures !asleep ==> worlds == old(worlds) + [world] && current == old(current)
      ensures !asleep && r == -1 ==> SameOrder(old(tasks), tasks)
      ensures !asleep && r != -1 ==>
                exists k :: && 0 <= k && IsFirstDead(old(tasks), old(current), want, k) && old(tasks)[k].pid == r
                            && old(tasks)[k].exitStatus == status
                            && SameOrder(old(tasks)[..k] + old(tasks)[k + 1..], tasks)
      ensures !asleep ==> events == old(events) + [if r == -1 then Event.NoChild(want) else Event.Reap(want, r, status)]
    {
      var c, found, k := Look(tasks, current, want, world);
      r, status, asleep := -1, 0, false;
      var ts;
      ghost var w;
      if k < |tasks| {
        r, status := tasks[k].pid, tasks[k].exitStatus;
        ts, w := ReapStep(tasks, c, k, want, world);
        Record(Event.Reap(want, r, status), ts, current, w);
      } else if !found {
        ts, w := NoChildStep(tasks, c, want, world);
        Record(Event.NoChild(want), ts, current, w);
      } else {
        asleep := true;
        ts, w := AwaitStep(tasks, c, want, world);
        Record(Event.Await(want), ts, NOBODY, w);
        Schedule();
        ElectedFromList(old(tasks), ts, w, tasks, current);
      }
    }

    /** handle_timer_interrupt: a tick, and an election every SCHED_TICKS ticks. */
    method TimerInterrupt()
      requires Valid() && current != NOBODY
      modifies this
      ensures Valid() && current != NOBODY && Now() == OnInterrupt(old(Now()))
      ensures old(schedTicks) == 1 ==> |worlds| == |old(worlds)| + 2 && worlds[..|old(worlds)|] == old(worlds)
      ensures old(schedTicks) == 1 ==> events == old(events) + [Event.Tick] + [Event.Schedule(current)]
      ensures old(schedTicks) != 1 ==> worlds == old(worlds) + [world] && events == old(events) + [Event.Tick]
    {
      var ts;
      ghost var w;
      ts, w := TickStep(tasks, current, world);
      Record(Event.Tick, ts, current, w);
      schedTicks := schedTicks - 1;
      if schedTicks == 0 {
        schedTicks := SCHED_TICKS;
        Schedule();
      }
    }
  }

  lemma CurrentIn(ts: seq<Task>, cur: int, w: World) returns (e: nat)
    requires Stands(ts, cur, w) && cur != NOBODY
    ensures Sane(ts) && e < |ts| && ts[e].pid == cur
  {
    assert Unfold(0);
    SaneTable(ts, w.tasks, w.rank);
    assert Used(ts, cur);
    e :| 0 <= e < |ts| && ts[e].pid == cur;
  }

  /** Bounded waiting on the kernel: when nothing but the timer happens and no timeout is pending,
      a ready task becomes the current one within SCHED_TICKS * (16 * r + 1) timer interrupts,
      where `r` counts the other ready tasks. */
  method AwaitTurn(k: Kernel, x: nat) returns (n: nat)
    requires k.Valid() && k.current != NOBODY && Quiet(k.tasks) && x < |k.tasks| && Ready(k.tasks[x])
    modifies k
    ensures k.Valid() && k.current == old(k.tasks)[x].pid
    ensures n <= SCHED_TICKS * (16 * Rivals(old(k.tasks), x) + 1)
  {
    ghost var c := k.Now();
    ghost var e: nat := CurrentIn(k.tasks, k.current, k.world);
    ghost var bound: nat := InterruptBound(c, e, x);
    var pid := k.tasks[x].pid;
    n := 0;
    while k.current != pid
      invariant k.Valid() && k.current != NOBODY && k.Now() == Interrupts(c, n) && n <= bound
      decreases bound - n
    {
      k.TimerInterrupt();
      InterruptsAdd(c, n, 1);
      assert Interrupts(Interrupts(c, n), 1) == OnInterrupt(Interrupts(c, n));
      n := n + 1;
    }
  }
}
