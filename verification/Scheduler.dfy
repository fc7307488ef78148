/** schedule (kernel/sched.c:231-270): which task runs next, and how long a ready task can wait. */
module Scheduler {
  import opened Tasks

  // ---- The two loops

  datatype Best = Best(slice: int, index: nat)

  /** After `i` tasks: the largest slice of a runnable task, and the first task that has it. */
  function Scan(ts: seq<Task>, i: nat): Best
    requires i <= |ts|
  {
    if i == 0 then Best(0, |ts|)
    else
      var b := Scan(ts, i - 1);
      if ts[i - 1].state == Runnable && ts[i - 1].timeslice > b.slice then Best(ts[i - 1].timeslice, i - 1) else b
  }

  function RechargeAll(ts: seq<Task>): seq<Task>
  {
    seq(|ts|, i requires 0 <= i < |ts| => Recharge(ts[i]))
  }

  /** The last ready task among the first `i`, or `|ts|`. */
  function LastReady(ts: seq<Task>, i: nat): nat
    requires i <= |ts|
  {
    if i == 0 then |ts| else if Ready(ts[i - 1]) then i - 1 else LastReady(ts, i - 1)
  }

  function IdleIndex(ts: seq<Task>, i: nat): nat
    requires i <= |ts|
    decreases |ts| - i
  {
    if i == |ts| then i else if ts[i].pid == IDLE then i else IdleIndex(ts, i + 1)
  }

  /** The slices after schedule, and the position of the task it switches to. */
  function Slices(ts: seq<Task>): seq<Task>
  {
    if Scan(ts, |ts|).slice > 0 then ts else RechargeAll(ts)
  }

  function Elected(ts: seq<Task>): nat
  {
    if Scan(ts, |ts|).slice > 0 then Scan(ts, |ts|).index
    else if LastReady(ts, |ts|) < |ts| then LastReady(ts, |ts|)
    else IdleIndex(ts, 0)
  }

  /** Slices in range, and an idle task that is always runnable with none. */
  ghost predicate Sane(ts: seq<Task>)
  {
    && (forall i {:trigger ts[i]} :: 0 <= i < |ts| ==> 0 <= ts[i].timeslice <= MAX_TIMESLICE)
    && (forall i {:trigger ts[i]} :: 0 <= i < |ts| && ts[i].pid == IDLE ==>
          ts[i].timeslice == 0 && ts[i].state == Runnable)
    && (exists i :: 0 <= i < |ts| && ts[i].pid == IDLE)
  }

  lemma {:induction false} ScanIsBest(ts: seq<Task>, i: nat)
    requires i <= |ts| && forall j {:trigger ts[j]} :: 0 <= j < |ts| ==> 0 <= ts[j].timeslice
    ensures var b := Scan(ts, i);
            && (forall j {:trigger ts[j]} :: 0 <= j < i && ts[j].state == Runnable ==> ts[j].timeslice <= b.slice)
            && 0 <= b.slice
            && (b.slice == 0 ==> b.index == |ts|)
            && (b.slice > 0 ==> b.index < i && ts[b.index].state == Runnable && ts[b.index].timeslice == b.slice)
            && (forall j {:trigger ts[j]} :: 0 <= j < i && j < b.index && ts[j].state == Runnable && b.slice > 0 ==>
                  ts[j].timeslice < b.slice)
  {
    if i > 0 {
      ScanIsBest(ts, i - 1);
    }
  }

  lemma {:induction false} LastReadyIsLast(ts: seq<Task>, i: nat)
    requires i <= |ts|
    ensures var l := LastReady(ts, i);
            && l <= |ts|
            && (l < |ts| ==> l < i && Ready(ts[l]))
            && (forall j {:trigger ts[j]} :: 0 <= j < i && Ready(ts[j]) ==> l < |ts| && j <= l)
  {
    if i > 0 {
      LastReadyIsLast(ts, i - 1);
    }
  }

  lemma {:induction false} IdleIsFound(ts: seq<Task>, i: nat, k: nat)
    requires i <= k < |ts| && ts[k].pid == IDLE
    ensures IdleIndex(ts, i) < |ts| && ts[IdleIndex(ts, i)].pid == IDLE
    decreases |ts| - i
  {
    if ts[i].pid != IDLE {
      IdleIsFound(ts, i + 1, k);
    }
  }

  /** The task elected is runnable. Among runnable tasks with time left it has the most, and is
      the first of those; if none has any, slices are recharged and the last ready task runs.
      Idle runs exactly when nothing else is ready. */
  lemma ElectedIsRight(ts: seq<Task>)
    requires Sane(ts)
    ensures var e := Elected(ts);
            && e < |ts| && ts[e].state == Runnable
            && (ts[e].timeslice > 0 ==>
                  forall j {:trigger ts[j]} :: 0 <= j < |ts| && ts[j].state == Runnable ==>
                    ts[j].timeslice <= ts[e].timeslice && (j < e ==> ts[j].timeslice < ts[e].timeslice))
            && (ts[e].timeslice == 0 ==>
                  forall j {:trigger ts[j]} :: 0 <= j < |ts| && ts[j].state == Runnable ==>
                    ts[j].timeslice == 0 && (Ready(ts[j]) ==> Ready(ts[e]) && j <= e))
            && (ts[e].pid == IDLE <==> forall j {:trigger ts[j]} :: 0 <= j < |ts| ==> !Ready(ts[j]))
            && Slices(ts) == (if ts[e].timeslice > 0 then ts else RechargeAll(ts))
  {
    ScanIsBest(ts, |ts|);
    LastReadyIsLast(ts, |ts|);
    var k :| 0 <= k < |ts| && ts[k].pid == IDLE;
    IdleIsFound(ts, 0, k);
  }

  // ---- A quantum: schedule, then ten ticks for the task elected

  /** Task `t` after `n` ticks of its own. */
  function Spent(t: Task, n: nat): Task
  {
    if t.pid == IDLE then t else t.(timeslice := if t.timeslice > n then t.timeslice - n else 0)
  }

  function Ran(t: Task): Task { Spent(t, SCHED_TICKS) }

  function Quantum(ts: seq<Task>): seq<Task>
  {
    var e, ts' := Elected(ts), Slices(ts);
    if e < |ts'| then ts'[e := Ran(ts'[e])] else ts'
  }

  /** The table after `n` quanta in which no task changes state. */
  function After(ts: seq<Task>, n: nat): seq<Task>
    decreases n
  {
    if n == 0 then ts else After(Quantum(ts), n - 1)
  }

  lemma QuantumFacts(ts: seq<Task>)
    requires Sane(ts)
    ensures Sane(Quantum(ts)) && |Quantum(ts)| == |ts|
    ensures forall i {:trigger Quantum(ts)[i]} :: 0 <= i < |ts| ==>
              Quantum(ts)[i] == if i == Elected(ts) then Ran(Slices(ts)[i]) else Slices(ts)[i]
    ensures forall i {:trigger Quantum(ts)[i]} :: 0 <= i < |ts| ==> Ready(Quantum(ts)[i]) == Ready(ts[i])
  {
    ElectedIsRight(ts);
    var k :| 0 <= k < |ts| && ts[k].pid == IDLE;
    assert Quantum(ts)[k].pid == IDLE;
  }

  // ---- Counting

  function Sum(s: seq<nat>): nat
  {
    if s == [] then 0 else s[0] + Sum(s[1..])
  }

  lemma {:induction false} SumUpdate(s: seq<nat>, i: nat, v: nat)
    requires i < |s|
    ensures Sum(s[i := v]) + s[i] == Sum(s) + v
    decreases |s|
  {
    if i > 0 {
      SumUpdate(s[1..], i - 1, v);
      assert s[i := v][1..] == s[1..][i - 1 := v];
    } else {
      assert s[0 := v][1..] == s[1..];
    }
  }

  lemma {:induction false} SumScaled(s: seq<nat>, t: seq<nat>, c: nat)
    requires |s| == |t| && forall i :: 0 <= i < |s| ==> s[i] <= c * t[i]
    ensures Sum(s) <= c * Sum(t)
    decreases |s|
  {
    if s != [] {
      SumScaled(s[1..], t[1..], c);
    }
  }

  /** Quanta that task `t` can still run. */
  function Share(t: Task): nat { if t.timeslice <= 0 then 0 else (t.timeslice + SCHED_TICKS - 1) / SCHED_TICKS }

  /** For every ready task but `x`: its quanta left. */
  function Shares(ts: seq<Task>, x: nat): seq<nat>
  {
    seq(|ts|, i requires 0 <= i < |ts| => if i != x && Ready(ts[i]) then Share(ts[i]) else 0)
  }

  function Others(ts: seq<Task>, x: nat): seq<nat>
  {
    seq(|ts|, i requires 0 <= i < |ts| => if i != x && Ready(ts[i]) then 1 else 0)
  }

  /** Ready tasks other than `x`. */
  function Rivals(ts: seq<Task>, x: nat): nat { Sum(Others(ts, x)) }

  lemma SharesBounded(ts: seq<Task>, x: nat)
    requires Sane(ts)
    ensures Sum(Shares(ts, x)) <= 15 * Rivals(ts, x)
  {
    SumScaled(Shares(ts, x), Others(ts, x), 15);
  }

  ghost predicate Exhausted(ts: seq<Task>)
  {
    forall j {:trigger ts[j]} :: 0 <= j < |ts| && ts[j].state == Runnable ==> ts[j].timeslice == 0
  }

  /** A quantum that goes to another task uses up one of the others' quanta. */
  lemma ShareSpent(ts: seq<Task>, x: nat)
    requires Sane(ts) && x < |ts| && Ready(ts[x]) && !Exhausted(ts) && Elected(ts) != x
    ensures Sum(Shares(Quantum(ts), x)) == Sum(Shares(ts, x)) - 1
    ensures Quantum(ts)[x] == ts[x]
  {
    ElectedIsRight(ts);
    QuantumFacts(ts);
    var e := Elected(ts);
    assert Share(Ran(ts[e])) + 1 == Share(ts[e]);
    assert Shares(Quantum(ts), x) == Shares(ts, x)[e := Share(Ran(ts[e]))];
    SumUpdate(Shares(ts, x), e, Share(Ran(ts[e])));
  }

  lemma RivalsKept(ts: seq<Task>, x: nat)
    requires Sane(ts) && x < |ts|
    ensures Rivals(Quantum(ts), x) == Rivals(ts, x)
    ensures Ready(Quantum(ts)[x]) == Ready(ts[x])
  {
    QuantumFacts(ts);
    assert Others(Quantum(ts), x) == Others(ts, x);
  }

  /** First stretch: before the others run out of quanta, `x` is elected or all slices are used. */
  lemma {:induction false} UntilExhausted(ts: seq<Task>, x: nat) returns (n: nat)
    requires Sane(ts) && x < |ts| && Ready(ts[x])
    ensures n <= Sum(Shares(ts, x))
    ensures Sane(After(ts, n)) && |After(ts, n)| == |ts| && Ready(After(ts, n)[x])
    ensures Rivals(After(ts, n), x) == Rivals(ts, x)
    ensures Elected(After(ts, n)) == x || Exhausted(After(ts, n))
    decreases Sum(Shares(ts, x))
  {
    if Elected(ts) == x || Exhausted(ts) {
      n := 0;
    } else {
      ShareSpent(ts, x);
      QuantumFacts(ts);
      RivalsKept(ts, x);
      n := UntilExhausted(Quantum(ts), x);
      n := n + 1;
    }
  }

  /** Ready tasks other than `x` that still have a full recharge. */
  function Fresh(ts: seq<Task>, x: nat): seq<nat>
  {
    seq(|ts|, i requires 0 <= i < |ts| => if i != x && Ready(ts[i]) && ts[i].timeslice >= TIMESLICE_INCREMENT
        then 1 else 0)
  }

  /** Since the last recharge `x` has not run, and nobody has more than it. */
  ghost predicate Recharged(ts: seq<Task>, x: nat)
  {
    && Sane(ts) && x < |ts| && Ready(ts[x]) && ts[x].timeslice == TIMESLICE_INCREMENT
    && forall j {:trigger ts[j]} :: 0 <= j < |ts| && Ready(ts[j]) ==> ts[j].timeslice <= TIMESLICE_INCREMENT
  }

  lemma FreshSpent(ts: seq<Task>, x: nat)
    requires Recharged(ts, x) && Elected(ts) != x
    ensures Recharged(Quantum(ts), x)
    ensures Sum(Fresh(Quantum(ts), x)) == Sum(Fresh(ts, x)) - 1
  {
    ElectedIsRight(ts);
    QuantumFacts(ts);
    var e := Elected(ts);
    assert ts[e].timeslice == TIMESLICE_INCREMENT && Ready(ts[e]);
    assert Fresh(Quantum(ts), x) == Fresh(ts, x)[e := 0];
    SumUpdate(Fresh(ts, x), e, 0);
  }

  /** Second stretch: after a recharge every ready task runs once before any runs twice. */
  lemma {:induction false} AfterRecharge(ts: seq<Task>, x: nat) returns (n: nat)
    requires Recharged(ts, x)
    ensures n <= Sum(Fresh(ts, x)) && Elected(After(ts, n)) == x
    decreases Sum(Fresh(ts, x))
  {
    if Elected(ts) == x {
      n := 0;
    } else {
      FreshSpent(ts, x);
      n := AfterRecharge(Quantum(ts), x);
      n := n + 1;
    }
  }

  lemma RechargeStarts(ts: seq<Task>, x: nat)
    requires Sane(ts) && x < |ts| && Ready(ts[x]) && Exhausted(ts) && Elected(ts) != x
    ensures Recharged(Quantum(ts), x)
    ensures Sum(Fresh(Quantum(ts), x)) + 1 <= Rivals(ts, x)
  {
    ElectedIsRight(ts);
    QuantumFacts(ts);
    var e := Elected(ts);
    assert Ready(ts[e]);
    var q := Quantum(ts);
    forall j {:trigger q[j]} | 0 <= j < |ts| && Ready(ts[j])
      ensures q[j].timeslice == if j == e then TIMESLICE_INCREMENT - SCHED_TICKS else TIMESLICE_INCREMENT
    {
      assert ts[j].timeslice == 0;
    }
    assert Fresh(q, x) == Others(ts, x)[e := 0];
    SumUpdate(Others(ts, x), e, 0);
  }

  lemma {:induction false} AfterAdd(ts: seq<Task>, a: nat, b: nat)
    ensures After(After(ts, a), b) == After(ts, a + b)
    decreases a
  {
    if a > 0 {
      AfterAdd(Quantum(ts), a - 1, b);
    }
  }

  lemma AfterStep(ts: seq<Task>, k: nat)
    ensures After(ts, k + 1) == After(Quantum(ts), k)
  {
  }

  lemma FromExhausted(ts: seq<Task>, x: nat) returns (n: nat)
    requires Sane(ts) && x < |ts| && Ready(ts[x]) && (Elected(ts) == x || Exhausted(ts))
    ensures n <= Rivals(ts, x) && Elected(After(ts, n)) == x
  {
    if Elected(ts) == x {
      n := 0;
    } else {
      RechargeStarts(ts, x);
      var k := AfterRecharge(Quantum(ts), x);
      AfterStep(ts, k);
      n := k + 1;
    }
  }

  /** Bounded waiting: with `r` other ready tasks and no state changes, every ready task becomes
      the current one within 16 * r quanta. */
  lemma BoundedWaiting(ts: seq<Task>, x: nat) returns (n: nat)
    requires Sane(ts) && x < |ts| && Ready(ts[x])
    ensures n <= 16 * Rivals(ts, x) && Elected(After(ts, n)) == x
  {
    SharesBounded(ts, x);
    var a := UntilExhausted(ts, x);
    var b := FromExhausted(After(ts, a), x);
    AfterAdd(ts, a, b);
    n := a + b;
  }

  // ---- Timer interrupts

  /** The list, the running task, and the ticks left until the next election. */
  datatype Clock = Clock(ts: seq<Task>, cur: int, left: int)

  function TickAll(ts: seq<Task>, cur: int): seq<Task>
  {
    seq(|ts|, i requires 0 <= i < |ts| => AfterTick(ts[i], cur))
  }

  /** What an election makes of a list. */
  function Election(ts: seq<Task>): Clock
  {
    Clock(Slices(ts), if Elected(ts) < |Slices(ts)| then Slices(ts)[Elected(ts)].pid else NOBODY, SCHED_TICKS)
  }

  /** handle_timer_interrupt, kernel/timer.c:198-220. */
  function OnInterrupt(c: Clock): Clock
  {
    var ts := TickAll(c.ts, c.cur);
    if c.left == 1 then Election(ts) else Clock(ts, c.cur, c.left - 1)
  }

  function Interrupts(c: Clock, n: nat): Clock
    decreases n
  {
    if n == 0 then c else Interrupts(OnInterrupt(c), n - 1)
  }

  /** No timeout is pending, so that no tick changes a state, and pids are distinct. */
  ghost predicate Quiet(ts: seq<Task>)
  {
    && (forall i {:trigger ts[i]} :: 0 <= i < |ts| ==> ts[i].timeout == 0)
    && (forall i, j {:trigger ts[i], ts[j]} :: 0 <= i < j < |ts| ==> ts[i].pid != ts[j].pid)
  }

  /** The tasks keep their pids and states, and their slices stay in range. */
  ghost predicate SameButSlices(ts: seq<Task>, us: seq<Task>)
  {
    && |us| == |ts|
    && forall i {:trigger us[i]} {:trigger ts[i]} :: 0 <= i < |ts| ==> us[i] == ts[i].(timeslice := us[i].timeslice)
  }

  lemma QuietKept(ts: seq<Task>, us: seq<Task>)
    requires Quiet(ts) && SameButSlices(ts, us)
    ensures Quiet(us)
  {
    forall i, j {:trigger us[i], us[j]} | 0 <= i < j < |us| ensures us[i].pid != us[j].pid {
      assert ts[i].pid != ts[j].pid;
    }
  }

  lemma RivalsSame(ts: seq<Task>, us: seq<Task>, x: nat)
    requires SameButSlices(ts, us)
    ensures Rivals(us, x) == Rivals(ts, x)
  {
    assert Others(us, x) == Others(ts, x);
  }

  /** A tick takes from the slice of the running task only. */
  lemma TickAllIs(ts: seq<Task>, e: nat)
    requires Quiet(ts) && e < |ts| && 0 <= ts[e].timeslice
    ensures TickAll(ts, ts[e].pid) == ts[e := Spent(ts[e], 1)]
  {
  }

  function TickN(ts: seq<Task>, cur: int, n: nat): seq<Task>
    decreases n
  {
    if n == 0 then ts else TickN(TickAll(ts, cur), cur, n - 1)
  }

  lemma {:induction false} TickNIs(ts: seq<Task>, e: nat, n: nat)
    requires Quiet(ts) && e < |ts| && 0 <= ts[e].timeslice
    ensures TickN(ts, ts[e].pid, n) == ts[e := Spent(ts[e], n)]
    decreases n
  {
    if n == 0 {
      assert ts[e := Spent(ts[e], 0)] == ts;
    } else {
      var us := ts[e := Spent(ts[e], 1)];
      TickAllIs(ts, e);
      QuietKept(ts, us);
      TickNIs(us, e, n - 1);
      assert us[e := Spent(us[e], n - 1)] == ts[e := Spent(ts[e], n)];
    }
  }

  /** When the ticks left are over, there is an election. */
  lemma {:induction false} TicksThenElection(c: Clock)
    requires 1 <= c.left
    ensures Interrupts(c, c.left) == Election(TickN(c.ts, c.cur, c.left))
    decreases c.left
  {
    var d := OnInterrupt(c);
    if c.left > 1 {
      TicksThenElection(d);
    } else {
      assert Interrupts(d, 0) == d;
    }
  }

  lemma {:induction false} InterruptsAdd(c: Clock, a: nat, b: nat)
    ensures Interrupts(c, a + b) == Interrupts(Interrupts(c, a), b)
    decreases a
  {
    if a > 0 {
      InterruptsAdd(OnInterrupt(c), a - 1, b);
    }
  }

  lemma Chain(c: Clock, d: Clock, e: Clock, a: nat, b: nat, n: nat)
    requires Interrupts(c, a) == d && Interrupts(d, b) == e && n == a + b
    ensures Interrupts(c, n) == e
  {
    InterruptsAdd(c, a, b);
  }

  lemma QuantumKeeps(ts: seq<Task>)
    requires Sane(ts) && Quiet(ts)
    ensures Sane(Quantum(ts)) && SameButSlices(ts, Quantum(ts)) && Quiet(Quantum(ts))
  {
    ElectedIsRight(ts);
    QuantumFacts(ts);
    QuietKept(ts, Quantum(ts));
  }

  lemma QuantumIsTicks(ts: seq<Task>, us: seq<Task>, e: nat)
    requires Sane(ts) && Quiet(ts) && us == Slices(ts) && e == Elected(ts)
    ensures e < |us| && TickN(us, us[e].pid, SCHED_TICKS) == Quantum(ts)
  {
    ElectedIsRight(ts);
    QuietKept(ts, us);
    TickNIs(us, e, SCHED_TICKS);
  }

  /** An election and SCHED_TICKS timer interrupts make one quantum, and the next election. */
  lemma QuantumIsInterrupts(ts: seq<Task>)
    requires Sane(ts) && Quiet(ts)
    ensures Interrupts(Election(ts), SCHED_TICKS) == Election(Quantum(ts))
  {
    var c := Election(ts);
    QuantumIsTicks(ts, c.ts, Elected(ts));
    TicksThenElection(c);
  }

  lemma {:induction false} AfterKeeps(ts: seq<Task>, q: nat)
    requires Sane(ts) && Quiet(ts)
    ensures Sane(After(ts, q)) && SameButSlices(ts, After(ts, q))
    decreases q
  {
    if q > 0 {
      QuantumKeeps(ts);
      AfterKeeps(Quantum(ts), q - 1);
    }
  }

  lemma {:induction false} QuantaAreInterrupts(ts: seq<Task>, q: nat)
    requires Sane(ts) && Quiet(ts)
    ensures Interrupts(Election(ts), SCHED_TICKS * q) == Election(After(ts, q))
    decreases q
  {
    if q == 0 {
      assert After(ts, 0) == ts;
    } else {
      QuantumKeeps(ts);
      QuantumIsInterrupts(ts);
      QuantaAreInterrupts(Quantum(ts), q - 1);
      AfterStep(ts, q - 1);
      Chain(Election(ts), Election(Quantum(ts)), Election(After(ts, q)), SCHED_TICKS, SCHED_TICKS * (q - 1),
            SCHED_TICKS * q);
    }
  }

  /** Bounded waiting in timer interrupts: from any moment, with `r` other ready tasks and no
      timeout pending, a ready task runs within SCHED_TICKS * (16 * r + 1) interrupts. */
  lemma InterruptBound(c: Clock, e: nat, x: nat) returns (n: nat)
    requires Sane(c.ts) && Quiet(c.ts) && 1 <= c.left <= SCHED_TICKS
    requires e < |c.ts| && c.cur == c.ts[e].pid && x < |c.ts| && Ready(c.ts[x])
    ensures n <= SCHED_TICKS * (16 * Rivals(c.ts, x) + 1) && Interrupts(c, n).cur == c.ts[x].pid
  {
    var ts := c.ts[e := Spent(c.ts[e], c.left)];
    TicksThenElection(c);
    TickNIs(c.ts, e, c.left);
    SpentSane(c.ts, e, c.left);
    QuietKept(c.ts, ts);
    RivalsSame(c.ts, ts, x);
    var q := BoundedWaiting(ts, x);
    QuantaAreInterrupts(ts, q);
    AfterKeeps(ts, q);
    ElectedPid(After(ts, q), x);
    n := c.left + SCHED_TICKS * q;
    Chain(c, Election(ts), Election(After(ts, q)), c.left, SCHED_TICKS * q, n);
  }

  lemma ElectedPid(ts: seq<Task>, x: nat)
    requires Sane(ts) && Elected(ts) == x && x < |ts|
    ensures Election(ts).cur == ts[x].pid
  {
    ElectedIsRight(ts);
  }

  lemma SpentSane(ts: seq<Task>, e: nat, n: nat)
    requires Sane(ts) && e < |ts|
    ensures Sane(ts[e := Spent(ts[e], n)])
  {
    var us := ts[e := Spent(ts[e], n)];
    var k :| 0 <= k < |ts| && ts[k].pid == IDLE;
    assert us[k].pid == IDLE;
  }
}
