/** Who owns which block of physical memory: the memory half of sys_fork, sys_brk
    (kernel/sys.c), kernel_thread and do_exit (kernel/task.c). */
module ProcessMemory {
  import opened Common
  import opened BlockList
  import opened BlockCalls
  import opened Descriptors
  import opened PhysMem
  import opened Segments

  const IDLE_TASK_PID: int := 0
  const KSTACK_PAGES: nat := 1
  const LDT_CS_TYPE: nat := 0xfa
  const LDT_DS_TYPE: nat := 0xf2

  /** The fields of a task structure that concern memory; `cs.kind` is 0 for kernel threads. */
  datatype Task = Task(pid: int, dead: bool, kstack: nat, cs: Descriptor, ds: Descriptor)

  const NO_SEGMENT: Descriptor := Descriptor(0, 0, 0, 0, 0, false, 0)

  /** A user task other than idle, whose segments lie over the kernel image. */
  predicate Forked(t: Task) { t.cs.kind != 0 && t.pid != IDLE_TASK_PID }

  function StackBlock(t: Task): Extent { Extent(DescriptorOf(t.kstack), KSTACK_PAGES, false) }

  /** The block that starts at the task's segment base and has its data size in pages. */
  function SegBlock(t: Task): Extent { Extent(DescriptorOf(Addr(t.ds)), DescriptorOf(Size(t.ds)), false) }

  /** The live block that holds the segments of a user task: its own, or for the idle task the
      block of the kernel image. */
  function SpaceBlock(t: Task, kernel: Extent): Extent
  {
    if Forked(t) then SegBlock(t) else kernel
  }

  function Holdings(t: Task, kernel: Extent): set<Extent>
  {
    {StackBlock(t)} + if t.cs.kind != 0 then {SpaceBlock(t, kernel)} else {}
  }

  /** A user task has one address space for code and data, of the types of user code and user data, and
      code no larger than data. */
  predicate CommonSpace(t: Task, kernel: Extent)
  {
    && t.cs.kind == 0xfa && t.ds.kind == 0xf2
    && Addr(t.cs) == Addr(t.ds)
    && Size(t.cs) <= Size(t.ds)
    && Size(t.cs) % PAGE_SIZE == 0 && Size(t.ds) % PAGE_SIZE == 0 && Addr(t.ds) % PAGE_SIZE == 0
    && SpaceBlock(t, kernel).start <= SegBlock(t).start && End(SegBlock(t)) <= End(SpaceBlock(t, kernel))
  }

  ghost predicate Sound(t: Task, live: set<Extent>, kernel: Extent)
  {
    && t.kstack % PAGE_SIZE == 0
    && Holdings(t, kernel) <= live
    && (t.cs.kind != 0 ==> CommonSpace(t, kernel) && StackBlock(t) != SpaceBlock(t, kernel))
  }

  /** Every task that is not dead holds live blocks, and no two tasks hold the same one. */
  ghost predicate Owns(ts: seq<Task>, live: set<Extent>, kernel: Extent)
  {
    && (forall i :: 0 <= i < |ts| && !ts[i].dead ==> Sound(ts[i], live, kernel))
    && (forall i, j :: 0 <= i < j < |ts| && !ts[i].dead && !ts[j].dead ==>
          Holdings(ts[i], kernel) !! Holdings(ts[j], kernel))
  }

  lemma AddTask(ts: seq<Task>, live: set<Extent>, kernel: Extent, t: Task)
    requires Owns(ts, live, kernel) && !t.dead
    requires Holdings(t, kernel) !! live && Sound(t, live + Holdings(t, kernel), kernel)
    ensures Owns(ts + [t], live + Holdings(t, kernel), kernel)
  {
    var us := ts + [t];
    forall i | 0 <= i < |us| && !us[i].dead ensures Sound(us[i], live + Holdings(t, kernel), kernel) {
      if i < |ts| {
        assert Sound(ts[i], live, kernel);
      }
    }
    forall i, j | 0 <= i < j < |us| && !us[i].dead && !us[j].dead
      ensures Holdings(us[i], kernel) !! Holdings(us[j], kernel)
    {
      if j == |ts| {
        assert Sound(ts[i], live, kernel);
      }
    }
  }

  /** A task trades its holdings for others that nobody else holds. */
  lemma ChangeTask(ts: seq<Task>, live: set<Extent>, kernel: Extent, i: nat, t: Task, live': set<Extent>)
    requires Owns(ts, live, kernel) && i < |ts| && !ts[i].dead
    requires live' == live - Holdings(ts[i], kernel) + (if t.dead then {} else Holdings(t, kernel))
    requires !t.dead ==> Holdings(t, kernel) !! live - Holdings(ts[i], kernel) && Sound(t, live', kernel)
    ensures Owns(ts[i := t], live', kernel)
  {
    var us := ts[i := t];
    assert Sound(ts[i], live, kernel);
    forall j | 0 <= j < |us| && !us[j].dead && j != i
      ensures Sound(us[j], live', kernel)
      ensures Holdings(us[j], kernel) <= live - Holdings(ts[i], kernel)
    {
      assert Sound(ts[j], live, kernel);
      assert Holdings(ts[j], kernel) !! Holdings(ts[i], kernel);
    }
  }

  /** No two tasks share a page: distinct live blocks are disjoint ranges. */
  lemma NoSharedPages(ts: seq<Task>, bs: seq<Extent>, n: nat, kernel: Extent, i: nat, j: nat, e: Extent, f: Extent)
    requires Wf(bs, n) && Owns(ts, Live(bs), kernel)
    requires i < |ts| && j < |ts| && !ts[i].dead && !ts[j].dead
    requires e in Holdings(ts[i], kernel) && f in Holdings(ts[j], kernel) && (i != j || e != f)
    ensures End(e) <= f.start || End(f) <= e.start
  {
    assert Sound(ts[i], Live(bs), kernel) && Sound(ts[j], Live(bs), kernel);
    assert e != f by {
      if i < j {
        assert Holdings(ts[i], kernel) !! Holdings(ts[j], kernel);
      } else if j < i {
        assert Holdings(ts[j], kernel) !! Holdings(ts[i], kernel);
      }
    }
    LiveBlocksDisjoint(bs, n, e, f);
  }

  // ---- The allocator calls, in terms of live blocks

  /** The block list before and after `k` pages are handed out at `addr`. */
  ghost predicate Granted(bs: seq<Extent>, bs': seq<Extent>, n: nat, addr: nat, k: nat)
  {
    forall i {:trigger Expand(i)} :: Expand(i) ==>
      && 0 < k && FirstFit(bs, k) < |bs| && addr == AddrOf(bs[FirstFit(bs, k)].start)
      && bs' == Apply(bs, n, Op.Alloc(k))
  }

  /** `bs'` is `bs` with a new live block of `k` pages at `addr` that overlaps no other. */
  ghost predicate NewBlock(bs: seq<Extent>, bs': seq<Extent>, n: nat, addr: nat, k: nat)
  {
    && addr % PAGE_SIZE == 0 && 0 < k && DescriptorOf(addr) + k <= n
    && Extent(DescriptorOf(addr), k, false) !in Live(bs)
    && Live(bs') == Live(bs) + {Extent(DescriptorOf(addr), k, false)}
    && forall e {:trigger e in Live(bs)} :: e in Live(bs) ==>
         End(e) <= DescriptorOf(addr) || DescriptorOf(addr) + k <= e.start
  }

  lemma GrantedIsNew(bs: seq<Extent>, bs': seq<Extent>, n: nat, addr: nat, k: nat)
    requires Wf(bs, n) && Granted(bs, bs', n, addr, k)
    ensures Wf(bs', n) && NewBlock(bs, bs', n, addr, k)
  {
    assert Expand(0);
    AllocFacts(bs, n, k);
    ApplyKeeps(bs, n, Op.Alloc(k));
  }

  /** The block list before and after the block at `addr` is freed. */
  ghost predicate Returned(bs: seq<Extent>, bs': seq<Extent>, n: nat, addr: nat)
  {
    forall i {:trigger Expand(i)} :: Expand(i) ==>
      DescriptorOf(addr) + 1 < n && bs' == Apply(bs, n, Op.Free(DescriptorOf(addr)))
  }

  lemma ReturnedIsGone(bs: seq<Extent>, bs': seq<Extent>, n: nat, addr: nat, e: Extent)
    requires Wf(bs, n) && Returned(bs, bs', n, addr) && e in Live(bs) && e.start == DescriptorOf(addr)
    ensures Wf(bs', n) && Live(bs') == Live(bs) - {e}
  {
    assert Expand(0);
    FreeFacts(bs, n, e);
    ApplyKeeps(bs, n, Op.Free(e.start));
  }

  method Grab(phys: Allocator, k: nat) returns (ok: bool, addr: nat)
    requires phys.Valid()
    modifies phys, phys.desc
    ensures phys.Valid()
    ensures !ok ==> phys.blocks == old(phys.blocks)
    ensures ok ==> Granted(old(phys.blocks), phys.blocks, phys.desc.Length, addr, k)
  {
    var res;
    res, addr := phys.AllocRaw(k);
    ok := res == Ok;
  }

  method Drop(phys: Allocator, addr: nat, ghost e: Extent) returns (halted: bool)
    requires phys.Valid() && e in Live(phys.blocks) && DescriptorOf(addr) == e.start
    modifies phys, phys.desc
    ensures phys.Valid()
    ensures halted <==> phys.desc.Length <= e.start + 1
    ensures !halted ==> Returned(old(phys.blocks), phys.blocks, phys.desc.Length, addr)
  {
    LiveData(phys.desc[..], phys.head, phys.blocks, phys.linked, e);
    var res := phys.Free(addr);
    halted := res == Panic;
  }

  // ---- Saved contexts (include/simplix/context.h:41-67)

  /** The context lies at the top of the stack page. */
  const CONTEXT: nat := PAGE_SIZE - 76
  const CONTEXT_DS: nat := CONTEXT
  const CONTEXT_ES: nat := CONTEXT + 4
  const CONTEXT_FS: nat := CONTEXT + 8
  const CONTEXT_GS: nat := CONTEXT + 12
  const CONTEXT_SS: nat := CONTEXT + 16
  const CONTEXT_EAX: nat := CONTEXT + 48
  const CONTEXT_EIP: nat := CONTEXT + 56
  const CONTEXT_CS: nat := CONTEXT + 60
  const CONTEXT_EFLAGS: nat := CONTEXT + 64

  const GDT_CS: nat := 8
  const GDT_DS: nat := 16

  /** The `n` low bytes of `v`, lowest first. */
  function Little(v: nat, n: nat): (bytes: seq<int>)
    ensures |bytes| == n
  {
    if n == 0 then [] else [v % 256] + Little(v / 256, n - 1)
  }

  function Store(p: Page, at: nat, bytes: seq<int>): (r: Page)
    requires at + |bytes| <= PAGE_SIZE
    ensures forall i {:trigger r[i]} :: 0 <= i < PAGE_SIZE ==>
              r[i] == if at <= i < at + |bytes| then bytes[i - at] else p[i]
  {
    p[..at] + bytes + p[at + |bytes|..]
  }

  /** The number that the bytes make, lowest first. */
  function Value(bytes: seq<int>): int
  {
    if bytes == [] then 0 else bytes[0] + 256 * Value(bytes[1..])
  }

  lemma LittleWord(v: nat)
    requires v < WORD
    ensures Value(Little(v, 4)) == v
  {
    var a, b, c := v / 256, v / 256 / 256, v / 256 / 256 / 256;
    assert Value(Little(c, 1)) == c % 256;
    assert Value(Little(b, 2)) == b % 256 + 256 * Value(Little(c, 1));
    assert Value(Little(a, 3)) == a % 256 + 256 * Value(Little(b, 2));
  }

  /** Half a word, as for a segment selector. */
  lemma LittleHalf(v: nat)
    requires v < 256
    ensures Little(v, 2) == [v, 0]
  {
  }

  /** The child's stack: the parent's, with a saved EAX of 0. */
  function ForkStack(p: Page): Page { Store(p, CONTEXT_EAX, Little(0, 4)) }

  /** The stack of a kernel thread that starts at `fn` (kernel/task.c:61-69). */
  function ThreadStack(fn: nat): Page
  {
    var p1 := Store(ZERO_PAGE, CONTEXT_EFLAGS, Little(512, 4));
    var p2 := Store(p1, CONTEXT_CS, Little(GDT_CS, 2));
    var p3 := Store(p2, CONTEXT_EIP, Little(fn, 4));
    var p4 := Store(p3, CONTEXT_SS, Little(GDT_DS, 2));
    var p5 := Store(p4, CONTEXT_GS, Little(GDT_DS, 2));
    var p6 := Store(p5, CONTEXT_FS, Little(GDT_DS, 2));
    var p7 := Store(p6, CONTEXT_ES, Little(GDT_DS, 2));
    Store(p7, CONTEXT_DS, Little(GDT_DS, 2))
  }

  /** The child's saved EAX, 48 bytes into the context at the top of the page, is 0; all else is the
      parent's. */
  lemma ForkContext(p: Page)
    ensures forall i {:trigger ForkStack(p)[i]} :: 0 <= i < 4096 ==>
              ForkStack(p)[i] == if 4096 - 76 + 48 <= i < 4096 - 76 + 52 then 0 else p[i]
  {
    assert Little(0, 4) == [0, 0, 0, 0];
  }

  /** The bytes of the context of a new kernel thread: EIP is the function, CS is the kernel's code
      segment, the other selectors are its data segment, EFLAGS has only the interrupt flag. */
  function ThreadByte(fn: nat, i: nat): int
  {
    if i in {0, 4, 8, 12, 16} then 16
    else if 56 <= i < 60 then Little(fn, 4)[i - 56]
    else if i == 60 then 8
    else if i == 65 then 2
    else 0
  }

  lemma ThreadContext(fn: nat)
    requires fn < WORD
    ensures var p := ThreadStack(fn);
            && Value(p[4096 - 76 + 56..4096 - 76 + 60]) == fn
            && forall i {:trigger p[i]} :: 0 <= i < 4096 ==>
                 p[i] == if i < 4096 - 76 then 0 else ThreadByte(fn, i - (4096 - 76))
  {
    var p := ThreadStack(fn);
    forall i {:trigger p[i]} | 0 <= i < 4096
      ensures p[i] == if i < 4096 - 76 then 0 else ThreadByte(fn, i - (4096 - 76))
    {
      ThreadStackAt(fn, i);
    }
    LittleWord(fn);
    assert p[4096 - 76 + 56..4096 - 76 + 60] == Little(fn, 4);
  }

  lemma ThreadStackAt(fn: nat, i: nat)
    requires i < 4096
    ensures ThreadStack(fn)[i] == if i < 4096 - 76 then 0 else ThreadByte(fn, i - (4096 - 76))
  {
    LittleHalf(GDT_CS);
    LittleHalf(GDT_DS);
    assert Little(512, 4) == [0, 2, 0, 0];
  }

  /** `m'` is `m` with page `at` replaced by a new stack of a kernel thread. */
  ghost predicate StackMade(m: seq<Page>, m': seq<Page>, at: nat, fn: nat)
  {
    at < |m'| && OnePage(m, m', at, m'[at]) && forall k {:trigger Expand(k)} :: Expand(k) ==> m'[at] == ThreadStack(fn)
  }

  /** `m'` is `m` with page `at` replaced. */
  ghost predicate OnePage(m: seq<Page>, m': seq<Page>, at: nat, p: Page)
  {
    |m'| == |m| && forall q {:trigger m'[q]} :: 0 <= q < |m| ==> m'[q] == if q == at then p else m[q]
  }

  /** alloc_physmem_block and the initial context of kernel_thread. */
  method GrabStack(phys: Allocator, fn: nat) returns (ok: bool, kstack: nat)
    requires phys.Valid()
    modifies phys, phys.desc, phys.mem
    ensures phys.Valid()
    ensures !ok ==> phys.blocks == old(phys.blocks) && phys.mem[..] == old(phys.mem[..])
    ensures ok ==>
              && Granted(old(phys.blocks), phys.blocks, phys.desc.Length, kstack, KSTACK_PAGES)
              && StackMade(old(phys.mem[..]), phys.mem[..], DescriptorOf(kstack), fn)
  {
    var res;
    phys.ValidWf();
    ghost var bs := phys.blocks;
    res, kstack := phys.Alloc(KSTACK_PAGES);
    ok := res == Ok;
    if ok {
      AllocFacts(bs, phys.desc.Length, KSTACK_PAGES);
      phys.mem[DescriptorOf(kstack)] := ThreadStack(fn);
    }
  }

  // ---- The system calls

  datatype Outcome = Done | Refused | Halted

  /** `m'` is `m` with `k` pages copied from page `src` to page `dst`. */
  ghost predicate Copied(m: seq<Page>, m': seq<Page>, dst: nat, src: nat, k: nat)
  {
    && |m'| == |m|
    && forall q {:trigger m'[q]} :: 0 <= q < |m| ==>
      m'[q] == if dst <= q < dst + k && src + (q - dst) < |m| then m[src + (q - dst)] else m[q]
  }

  method CopyBlock(mem: array<Page>, dst: nat, src: nat, k: nat)
    requires dst + k <= mem.Length && src + k <= mem.Length
    modifies mem
    ensures Copied(old(mem[..]), mem[..], dst, src, k)
  {
    CopyPages(mem, dst, src, k);
  }

  lemma GrantedFits(bs: seq<Extent>, bs': seq<Extent>, n: nat, addr: nat, k: nat)
    requires Wf(bs, n) && Granted(bs, bs', n, addr, k)
    ensures DescriptorOf(addr) + k <= n
  {
    GrantedIsNew(bs, bs', n, addr, k);
  }

  /** __alloc_physmem_block followed by memcpy from page `src`. */
  method Clone(phys: Allocator, src: nat, k: nat) returns (ok: bool, addr: nat)
    requires phys.Valid() && src + k <= phys.mem.Length
    modifies phys, phys.desc, phys.mem
    ensures phys.Valid()
    ensures ok ==>
              && Granted(old(phys.blocks), phys.blocks, phys.desc.Length, addr, k)
              && Copied(old(phys.mem[..]), phys.mem[..], DescriptorOf(addr), src, k)
    ensures !ok ==> phys.blocks == old(phys.blocks) && phys.mem[..] == old(phys.mem[..])
  {
    phys.ValidWf();
    ghost var bs := phys.blocks;
    ok, addr := Grab(phys, k);
    if ok {
      GrantedFits(bs, phys.blocks, phys.desc.Length, addr, k);
      CopyBlock(phys.mem, DescriptorOf(addr), src, k);
    }
  }

  /** Task `t` has its segments at `base`, of the given sizes in whole pages. */
  predicate IsUser(t: Task, pid: int, kstack: nat, base: nat, codeSize: nat, dataSize: nat)
  {
    && t.pid == pid && t.kstack == kstack && !t.dead && t.cs.kind == 0xfa && t.ds.kind == 0xf2
    && Addr(t.cs) == Addr(t.ds) == base
    && Size(t.cs) == DescriptorOf(codeSize) * PAGE_SIZE
    && Size(t.ds) == DescriptorOf(dataSize) * PAGE_SIZE
  }

  /** A user task over the code and data segments that sys_fork (kernel/sys.c:103-104), sys_brk
      (kernel/sys.c:226-227) and init_multitasking (kernel/sched.c:168-169) write into its LDT. */
  method UserTask(pid: int, kstack: nat, base: nat, codeSize: nat, dataSize: nat) returns (t: Task)
    requires base < WORD && codeSize <= dataSize < WORD
    ensures IsUser(t, pid, kstack, base, codeSize, dataSize)
  {
    BuildDecodes(base, codeSize, LDT_CS_TYPE);
    BuildDecodes(base, dataSize, LDT_DS_TYPE);
    t := Task(pid, false, kstack, Build(base, codeSize, LDT_CS_TYPE), Build(base, dataSize, LDT_DS_TYPE));
  }

  lemma UserTaskSpace(t: Task, base: nat, codeSize: nat, dataSize: nat, kernel: Extent)
    requires Forked(t) && t.cs.kind == 0xfa && t.ds.kind == 0xf2
    requires Addr(t.cs) == Addr(t.ds) == base && base % PAGE_SIZE == 0
    requires Size(t.cs) == DescriptorOf(codeSize) * PAGE_SIZE && Size(t.ds) == DescriptorOf(dataSize) * PAGE_SIZE
    requires codeSize <= dataSize && codeSize % PAGE_SIZE == 0 && dataSize % PAGE_SIZE == 0
    ensures CommonSpace(t, kernel)
    ensures SegBlock(t) == Extent(DescriptorOf(base), DescriptorOf(dataSize), false)
    ensures Size(t.cs) == codeSize && Size(t.ds) == dataSize
  {
  }

  lemma IdleOwns(t: Task, live: set<Extent>, image: Extent, textEnd: nat, stackEnd: nat)
    requires t.pid == IDLE_TASK_PID && !t.dead && t.cs.kind == 0xfa && t.ds.kind == 0xf2
    requires Addr(t.cs) == Addr(t.ds) == 0 && t.kstack % PAGE_SIZE == 0
    requires Size(t.cs) == DescriptorOf(textEnd) * PAGE_SIZE && Size(t.ds) == DescriptorOf(stackEnd) * PAGE_SIZE
    requires image in live && image.start == 0 && textEnd <= stackEnd <= AddrOf(End(image))
    requires StackBlock(t) in live - {image}
    ensures Owns([t], live, image)
  {
    var pages := DescriptorOf(stackEnd);
    WholePages(textEnd, stackEnd, End(image));
    assert SegBlock(t) == Extent(0, pages, false) && pages <= End(image);
    assert CommonSpace(t, image);
  }

  lemma WholePages(a: nat, b: nat, end: nat)
    requires a <= b <= AddrOf(end)
    ensures DescriptorOf(a) * PAGE_SIZE <= DescriptorOf(b) * PAGE_SIZE && DescriptorOf(b) <= end
    ensures DescriptorOf(a) * PAGE_SIZE % PAGE_SIZE == 0 && DescriptorOf(b) * PAGE_SIZE % PAGE_SIZE == 0
    ensures DescriptorOf(DescriptorOf(b) * PAGE_SIZE) == DescriptorOf(b)
  {
  }

  /** The child's segment pages hold what the parent's held, its stack page does but for EAX, and
      no other page of memory differs. */
  ghost predicate ForkedMemory(m: seq<Page>, m': seq<Page>, parent: Task, child: Task)
  {
    && |m'| == |m|
    && forall q {:trigger m'[q]} :: 0 <= q < |m| ==>
      m'[q] == if q == StackBlock(child).start && StackBlock(parent).start < |m|
               then ForkStack(m[StackBlock(parent).start])
               else if SegBlock(child).start <= q < End(SegBlock(child)) &&
                       SegBlock(parent).start + (q - SegBlock(child).start) < |m|
               then m[SegBlock(parent).start + (q - SegBlock(child).start)]
               else m[q]
  }

  /** The second copy reads what the first one left alone, and EAX is outside it. */
  lemma ForkCopies(m: seq<Page>, m1: seq<Page>, m2: seq<Page>, m3: seq<Page>, parent: Task, child: Task)
    requires Copied(m, m1, StackBlock(child).start, StackBlock(parent).start, KSTACK_PAGES)
    requires Copied(m1, m2, SegBlock(child).start, SegBlock(parent).start, SegBlock(parent).pages)
    requires StackBlock(child).start < |m| && StackBlock(parent).start < |m|
    requires OnePage(m2, m3, StackBlock(child).start, ForkStack(m2[StackBlock(child).start]))
    requires SegBlock(child).pages == SegBlock(parent).pages
    requires !(SegBlock(parent).start <= StackBlock(child).start < End(SegBlock(parent)))
    requires !(SegBlock(child).start <= StackBlock(child).start < End(SegBlock(child)))
    ensures ForkedMemory(m, m3, parent, child)
  {
  }

  lemma ForkHoldings(bs: seq<Extent>, bs1: seq<Extent>, bs2: seq<Extent>, n: nat, kernel: Extent, child: Task)
    requires Forked(child) && child.kstack % PAGE_SIZE == 0 && CommonSpace(child, kernel)
    requires NewBlock(bs, bs1, n, child.kstack, KSTACK_PAGES)
    requires NewBlock(bs1, bs2, n, Addr(child.ds), DescriptorOf(Size(child.ds)))
    ensures Holdings(child, kernel) !! Live(bs)
    ensures Live(bs2) == Live(bs) + Holdings(child, kernel)
    ensures Sound(child, Live(bs2), kernel)
    ensures !(SegBlock(child).start <= StackBlock(child).start < End(SegBlock(child)))
  {
    assert StackBlock(child) in Live(bs1);
  }
}
