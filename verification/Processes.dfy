/** The life of processes: execute and halt, with the queue, the process count,
    the user page entry and the kernel stack pointer they keep in step. */
module Processes {
  import opened Prelude
  import opened ProcessQueue

  const NULL := 0

  /** The fields of a process control block that execute sets and others rely on. */
  datatype Pcb = Pcb(pid: nat, parentPtr: int, terminalNum: int)

  /** A page directory entry, field by field from the low bit. */
  datatype PdEntry = PdEntry(isPresent: int, rw: int, userSupervisor: int, writeThrough: int, cacheDisabled: int,
                             isAccessed: int, isDirty: int, isBigPage: int, isGlobalPage: int, pageBaseAddr: int)
  {
    function Val(): int {
      isPresent + 2 * rw + 4 * userSupervisor + 8 * writeThrough + 16 * cacheDisabled + 32 * isAccessed
      + 64 * isDirty + 128 * isBigPage + 256 * isGlobalPage + ADDR_4MB * pageBaseAddr
    }
  }

  /** init_4mb_user_pde: a present, writable, user-level, write-through 4 MB page. */
  function UserPde(pageBaseAddr: int): PdEntry {
    PdEntry(1, 1, 1, 1, 0, 0, 0, 1, 0, pageBaseAddr / ADDR_4MB)
  }

  /** The 4 MB frame that holds a process's program. */
  function Frame(pid: nat): int {
    ADDR_4MB + pid * ADDR_4MB
  }

  function KernelStack(pid: nat): int {
    ADDR_8MB - pid * ADDR_8KB - 4
  }

  /** The terminal of a process: the three root shells take 2, 1 and 0 in turn,
      and everything started later descends from the third. */
  function TerminalOf(pid: nat): int {
    if pid == 1 then 2 else if pid == 2 then 1 else 0
  }

  function ParentOf(pid: nat): int {
    if pid <= NUM_TERMINALS then NULL else PcbAddress(pid - 1)
  }

  /** The PCBs of processes n, n - 1, ..., 1. */
  function Descending(n: nat): (r: seq<int>)
    ensures |r| == n
  {
    if n == 0 then [] else [PcbAddress(n)] + Descending(n - 1)
  }

  /** The ring's front index when n processes exist. */
  function FrontFor(n: nat): int {
    if n <= 1 then 1 - n else MAX_PROCESSES + 1 - n
  }

  /** A full ring cannot be told from an empty one by its indices. */
  lemma FullLooksEmpty()
    ensures FrontFor(MAX_PROCESSES) == FrontFor(0)
  {
  }

  /** The parts of the kernel's state that execute and halt keep. */
  datatype Sys = Sys(processCount: nat, primaryShellCount: nat, queue: seq<int>, front: int, rear: int,
                     memory: map<int, Pcb>, userPde: int, esp0: int)

  /** Everything that holds of a system with live processes 1..n. */
  ghost predicate Consistent(s: Sys) {
    var n := s.processCount;
    && n <= MAX_PROCESSES
    && s.queue == Descending(n)
    && s.front == FrontFor(n) && s.rear == 0
    && (if n == 0 then s.primaryShellCount == 0 else n >= NUM_TERMINALS && s.primaryShellCount == NUM_TERMINALS)
    && Pcbs(s.memory, n)
    && (n > 0 ==> s.userPde == UserPde(Frame(n)).Val() && s.esp0 == KernelStack(n))
  }

  function PcbOf(pid: nat): Pcb {
    Pcb(pid, ParentOf(pid), TerminalOf(pid))
  }

  ghost predicate HasPcb(memory: map<int, Pcb>, pid: nat) {
    PcbAddress(pid) in memory && memory[PcbAddress(pid)] == PcbOf(pid)
  }

  ghost predicate Pcbs(memory: map<int, Pcb>, n: nat) {
    forall pid :: 1 <= pid <= n ==> HasPcb(memory, pid)
  }

  lemma PcbsExtend(memory: map<int, Pcb>, n: nat)
    requires n > 0 && Pcbs(memory, n - 1)
    ensures Pcbs(memory[PcbAddress(n) := PcbOf(n)], n)
  {
    var after := memory[PcbAddress(n) := PcbOf(n)];
    forall pid | 1 <= pid <= n ensures HasPcb(after, pid) {
      if pid < n {
        assert HasPcb(memory, pid);
      }
    }
  }

  /** What one round of the loop in execute keeps: some root shells may still be missing. */
  ghost predicate Starting(s: Sys) {
    && 0 < s.processCount <= MAX_PROCESSES
    && s.queue == Descending(s.processCount)
    && s.front == FrontFor(s.processCount) && s.rear == 0
    && s.primaryShellCount == (if s.processCount < NUM_TERMINALS then s.processCount else NUM_TERMINALS)
    && Pcbs(s.memory, s.processCount)
    && s.userPde == UserPde(Frame(s.processCount)).Val()
  }

  ghost predicate Startable(s: Sys) {
    s.processCount < MAX_PROCESSES && if s.processCount == 0 then Consistent(s) else Starting(s)
  }

  /** The number of root shells after one more process has started. */
  function ShellCount(n: nat): nat {
    if n < NUM_TERMINALS then n + 1 else n
  }

  /** The next process gets a number and a page. */
  function Mapped(s: Sys): Sys {
    s.(processCount := s.processCount + 1, userPde := UserPde(Frame(s.processCount + 1)).Val())
  }

  /** Its PCB is stored and put first in the queue, and a root shell is counted. */
  function Enlisted(s: Sys, pcb: Pcb): Sys {
    s.(primaryShellCount := ShellCount(s.primaryShellCount),
       queue := [PcbAddress(s.processCount)] + s.queue,
       front := if s.front == 0 then MAX_PROCESSES - 1 else s.front - 1,
       memory := s.memory[PcbAddress(s.processCount) := pcb])
  }

  /** The effect of starting one process. */
  function Started(s: Sys): Sys {
    Enlisted(Mapped(s), PcbOf(s.processCount + 1))
  }

  /** Starting processes until every terminal has its root shell. */
  function WithShells(s: Sys): Sys
    decreases NUM_TERMINALS - s.primaryShellCount
  {
    if s.primaryShellCount < NUM_TERMINALS then WithShells(Started(s)) else s
  }

  /** The effect of a call of execute: at least one process is started. */
  function Executed(s: Sys, loads: bool): Sys {
    if s.processCount >= MAX_PROCESSES || !loads then s
    else
      var t := WithShells(Started(s));
      t.(esp0 := KernelStack(t.processCount))
  }

  /** The effect of halting a process that has a parent. */
  function Halted(s: Sys): Sys
    requires s.processCount > NUM_TERMINALS && s.queue != []
  {
    var n := s.processCount - 1;
    s.(processCount := n,
       queue := s.queue[1..],
       front := if s.front == MAX_PROCESSES - 1 then 0 else s.front + 1,
       userPde := UserPde(Frame(n)).Val(),
       esp0 := KernelStack(n))
  }

  lemma StartingMore(s: Sys)
    requires Starting(s)
    ensures s.primaryShellCount < NUM_TERMINALS ==>
      Startable(s) && s.processCount == s.primaryShellCount && Started(s).primaryShellCount == s.primaryShellCount + 1
  {
  }

  lemma {:induction false} WithShellsIsStarting(s: Sys)
    requires Starting(s)
    ensures Starting(WithShells(s)) && WithShells(s).primaryShellCount == NUM_TERMINALS
    decreases NUM_TERMINALS - s.primaryShellCount
  {
    if s.primaryShellCount < NUM_TERMINALS {
      StartedIsStarting(s);
      WithShellsIsStarting(Started(s));
    }
  }

  lemma ExecutedIsConsistent(s: Sys, loads: bool)
    requires Consistent(s)
    ensures Consistent(Executed(s, loads))
    ensures s.processCount < MAX_PROCESSES ==> Startable(s)
  {
    if s.processCount < MAX_PROCESSES && loads {
      StartedIsStarting(s);
      WithShellsIsStarting(Started(s));
    }
  }

  lemma HaltedIsConsistent(s: Sys)
    requires Consistent(s) && s.processCount > NUM_TERMINALS
    ensures Consistent(Halted(s))
  {
    forall pid | 1 <= pid < s.processCount ensures HasPcb(s.memory, pid) {
    }
  }

  lemma StartedIsStarting(s: Sys)
    requires Startable(s)
    ensures Starting(Started(s))
    ensures s.queue == Descending(s.processCount) && Pcbs(s.memory, s.processCount)
    ensures s.primaryShellCount == (if s.processCount < NUM_TERMINALS then s.processCount else NUM_TERMINALS)
  {
    PcbsExtend(s.memory, s.processCount + 1);
  }

  class Processes {
    const pq: ProcessQueue
    var processCount: nat
    var primaryShellCount: nat
    var memory: map<int, Pcb>       // PCBs by address
    var userPde: int                // the page directory entry of the user page
    var esp0: int                   // the stack pointer for the next kernel entry

    ghost predicate Valid()
      reads this, pq, pq.pcbs
    {
      pq.Valid() && pq.pcbs.Length == MAX_PROCESSES
    }

    ghost function State(): Sys
      reads this, pq
    {
      Sys(processCount, primaryShellCount, pq.q, pq.front, pq.rear, memory, userPde, esp0)
    }

    /** The state in which the kernel calls execute for the first time. */
    constructor ()
      ensures Valid() && State() == BOOT && Consistent(State())
      ensures fresh(pq) && fresh(pq.pcbs)
    {
      pq := new ProcessQueue();
      processCount, primaryShellCount, memory, userPde, esp0 := 0, 0, map[], 0, ADDR_8MB;
    }

    /** execute, for a command whose program exists and is executable (`loads`)
        or not. The first call starts the three root shells. */
    method Execute(loads: bool) returns (r: int)
      requires Valid() && Consistent(State())
      modifies this, pq, pq.pcbs
      ensures Valid() && Consistent(State())
      ensures State() == Executed(old(State()), loads)
      ensures r == if old(processCount) == MAX_PROCESSES || !loads then FAIL else SUCCESS
      ensures r == FAIL ==> State() == old(State())
      ensures r == SUCCESS ==> processCount == old(processCount) + if old(processCount) == 0 then NUM_TERMINALS else 1
    {
      ExecutedIsConsistent(State(), loads);
      ExecutedExactly(State(), loads);
      hide Started, Starting, Consistent;
      if processCount >= MAX_PROCESSES || !loads {
        return FAIL;
      }
      StartProcess();
      ghost var first := State();
      while primaryShellCount < NUM_TERMINALS
        invariant Valid() && Starting(State())
        invariant WithShells(State()) == WithShells(first)
        decreases NUM_TERMINALS - primaryShellCount
      {
        StartingMore(State());
        StartProcess();
      }
      esp0 := KernelStack(processCount);
      return SUCCESS;
    }

    /** One round of the loop: a page, a PCB and a place at the front of the queue. */
    method StartProcess()
      requires Valid() && Startable(State())
      modifies this, pq, pq.pcbs
      ensures Valid() && State() == Started(old(State())) && Starting(State())
    {
      StartedIsStarting(State());
      hide Enlisted, ShellCount, Startable, Starting, Consistent, Descending, Pcbs, UserPde, PdEntry.Val, PcbOf, PcbAddress;
      processCount := processCount + 1;
      userPde := UserPde(ADDR_4MB + processCount * ADDR_4MB).Val();
      assert State() == Mapped(old(State()));
      var pcb := BuildPcb();
      Publish(pcb);
    }

    /** The finished PCB is copied above its kernel stack and put first in the
        queue, and a root shell is counted. */
    method Publish(pcb: Pcb)
      requires Valid() && |pq.q| < MAX_PROCESSES
      modifies this`memory, this`primaryShellCount, pq, pq.pcbs
      ensures Valid()
      ensures State() == Enlisted(old(State()), pcb)
    {
      var address := ADDR_8MB - processCount * ADDR_8KB;
      memory := memory[address := pcb];
      var r := pq.EnqueueFront(address);
      if primaryShellCount < NUM_TERMINALS {
        primaryShellCount := primaryShellCount + 1;
      }
    }

    /** The parent is the process at the front of the queue, once the root shells
        run; a process with a parent inherits its terminal. */
    method BuildPcb() returns (pcb: Pcb)
      requires Valid() && 0 < processCount <= MAX_PROCESSES
      requires pq.q == Descending(processCount - 1) && Pcbs(memory, processCount - 1)
      requires primaryShellCount == (if processCount - 1 < NUM_TERMINALS then processCount - 1 else NUM_TERMINALS)
      ensures pcb == PcbOf(processCount)
    {
      var parent := NULL;
      if primaryShellCount >= NUM_TERMINALS {
        parent := pq.Peak();
      }
      var terminal;
      if parent == NULL {
        terminal := NUM_TERMINALS - primaryShellCount - 1;
      } else {
        assert HasPcb(memory, processCount - 1);
        terminal := memory[parent].terminalNum;
      }
      pcb := Pcb(processCount, parent, terminal);
    }

    /** halt, of a process that has a parent: the parent's page is found from the
        process count, its PCB from the child's parent pointer. */
    method Halt() returns (parent: Pcb)
      requires Valid() && Consistent(State()) && processCount > NUM_TERMINALS
      modifies this, pq, pq.pcbs
      ensures Valid() && Consistent(State())
      ensures State() == Halted(old(State()))
      ensures processCount == old(processCount) - 1 && memory == old(memory) && primaryShellCount == old(primaryShellCount)
      ensures parent == PcbOf(processCount)
    {
      var oldPcb := pq.Dequeue();
      assert HasPcb(memory, processCount) && HasPcb(memory, processCount - 1);
      var current := memory[ADDR_8MB - processCount * ADDR_8KB];
      parent := memory[current.parentPtr];
      userPde := UserPde(ADDR_4MB + (processCount - 1) * ADDR_4MB).Val();
      processCount := processCount - 1;
      esp0 := KernelStack(processCount);
    }

    /** Any sequence of calls is, in memory, the run of the state. */
    method Perform(calls: seq<Call>)
      requires Valid() && Consistent(State()) && Run(State(), calls).Some?
      modifies this, pq, pq.pcbs
      ensures Valid() && Consistent(State()) && Some(State()) == Run(old(State()), calls)
    {
      hide Consistent, Executed, Halted;
      assert calls[0..] == calls;
      for i := 0 to |calls|
        invariant Valid() && Consistent(State()) && Run(State(), calls[i..]) == Run(old(State()), calls)
      {
        assert calls[i..][1..] == calls[i + 1..];
        match calls[i] {
          case Execute(loads) =>
            var r := Execute(loads);
          case Halt =>
            var parent := Halt();
        }
      }
    }

    /** pq_get_active_term: the terminal of the process at the front of the queue. */
    method ActiveTerm() returns (terminal: int)
      requires Valid() && Consistent(State())
      ensures 0 <= terminal < NUM_TERMINALS
      ensures terminal == if processCount > 0 then TerminalOf(processCount) else 0
    {
      if processCount > 0 {
        var front := pq.Peak();
        assert HasPcb(memory, processCount);
        terminal := memory[front].terminalNum;
      } else {
        terminal := 0;
      }
    }
  }

  // ---- Whole runs ---------------------------------------------------------------

  datatype Call = Execute(loads: bool) | Halt

  /** One system call; halting a root shell, which has no parent, is not modelled. */
  function Step(s: Sys, call: Call): (r: Option<Sys>) {
    match call
    case Execute(loads) => Some(Executed(s, loads))
    case Halt => if s.processCount > NUM_TERMINALS && s.queue != [] then Some(Halted(s)) else None
  }

  function Run(s: Sys, calls: seq<Call>): Option<Sys>
    decreases |calls|
  {
    if calls == [] then Some(s)
    else match Step(s, calls[0])
      case None => None
      case Some(t) => Run(t, calls[1..])
  }

  const BOOT := Sys(0, 0, [], 1, 0, map[], 0, ADDR_8MB)

  /** In every state reached from boot the queue, read from its front, holds the
      PCBs of processes n down to 1, and the two notions of the current process
      agree: the queue's front is the PCB computed from the process count. */
  lemma {:induction false} ReachableIsConsistent(s: Sys, calls: seq<Call>)
    requires Consistent(s) && Run(s, calls).Some?
    ensures Consistent(Run(s, calls).value)
    decreases |calls|
  {
    if calls != [] {
      match calls[0] {
        case Execute(loads) => ExecutedIsConsistent(s, loads);
        case Halt => HaltedIsConsistent(s);
      }
      ReachableIsConsistent(Step(s, calls[0]).value, calls[1..]);
    }
  }

  predicate Succeeds(s: Sys, call: Call) {
    call.Execute? ==> call.loads && s.processCount < MAX_PROCESSES
  }

  /** A failed execute changes nothing; a successful one starts the three root
      shells at boot and one process afterwards. */
  lemma ExecutedExactly(s: Sys, loads: bool)
    requires Consistent(s)
    ensures !Succeeds(s, Execute(loads)) ==> Executed(s, loads) == s
    ensures Succeeds(s, Execute(loads)) ==>
      Executed(s, loads).processCount == s.processCount + if s.processCount == 0 then NUM_TERMINALS else 1
  {
    if Succeeds(s, Execute(loads)) {
      StartedIsStarting(s);
      if s.processCount == 0 {
        BootStartsThree();
        ShellsAfterBoot(s);
      }
    }
  }

  lemma ShellsAfterBoot(s: Sys)
    requires Consistent(s) && s.processCount == 0
    ensures WithShells(Started(s)).processCount == NUM_TERMINALS
  {
    hide UserPde, PdEntry.Val, PcbOf, Pcbs;
    var a := Started(s);
    var b := Started(a);
    var c := Started(b);
    assert WithShells(a) == WithShells(b) == WithShells(c) == c;
  }

  /** The processes started by the successful executes of a run. */
  function Starts(s: Sys, calls: seq<Call>): nat
    requires Run(s, calls).Some?
    decreases |calls|
  {
    if calls == [] then 0
    else
      (if calls[0].Halt? || !Succeeds(s, calls[0]) then 0 else if s.processCount == 0 then NUM_TERMINALS else 1)
      + Starts(Step(s, calls[0]).value, calls[1..])
  }

  function Halts(calls: seq<Call>): nat {
    if calls == [] then 0 else (if calls[0].Halt? then 1 else 0) + Halts(calls[1..])
  }

  /** Over every run, the processes are those at the start, plus those started by
      successful executes, minus those halted. */
  lemma {:induction false} ProcessesConserved(s: Sys, calls: seq<Call>)
    requires Consistent(s) && Run(s, calls).Some?
    ensures Run(s, calls).value.processCount + Halts(calls) == s.processCount + Starts(s, calls)
    decreases |calls|
  {
    hide Consistent, Executed;
    if calls != [] {
      match calls[0] {
        case Execute(loads) =>
          ExecutedIsConsistent(s, loads);
          ExecutedExactly(s, loads);
        case Halt => HaltedIsConsistent(s);
      }
      ProcessesConserved(Step(s, calls[0]).value, calls[1..]);
    }
  }

  lemma CurrentProcess(calls: seq<Call>)
    requires Run(BOOT, calls).Some?
    ensures var s := Run(BOOT, calls).value;
      && |s.queue| == s.processCount
      && (forall i :: 0 <= i < s.processCount ==> s.queue[i] == PcbAddress(s.processCount - i))
      && (s.processCount > 0 ==>
        && s.queue[0] == PcbAddress(s.processCount)
        && s.queue[0] in s.memory
        && s.memory[s.queue[0]] == PcbOf(s.processCount))
  {
    ReachableIsConsistent(BOOT, calls);
    var s := Run(BOOT, calls).value;
    forall i | 0 <= i < s.processCount ensures s.queue[i] == PcbAddress(s.processCount - i) {
      DescendingAt(s.processCount, i);
    }
    assert s.processCount > 0 ==> HasPcb(s.memory, s.processCount);
  }

  lemma {:induction false} DescendingAt(n: nat, i: nat)
    requires i < n
    ensures Descending(n)[i] == PcbAddress(n - i)
  {
    if i > 0 {
      DescendingAt(n - 1, i - 1);
    }
  }

  /** The page entry is the frame's address with the bits present, writable, user,
      write-through and 4 MB page. */
  lemma UserPdeWord(pid: nat)
    ensures UserPde(Frame(pid)).Val() == Frame(pid) + 0x1 + 0x2 + 0x4 + 0x8 + 0x80
  {
  }

  /** PCB areas follow one another down from the end of the kernel's page, program
      frames up from there, and each kernel stack starts just below its PCB. */
  lemma AreasInOrder(pid: nat)
    ensures PcbAddress(1) + ADDR_8KB == ADDR_8MB == Frame(1)
    ensures PcbAddress(pid + 1) + ADDR_8KB == PcbAddress(pid) && Frame(pid + 1) == Frame(pid) + ADDR_4MB
    ensures PcbAddress(pid + 1) < KernelStack(pid) && KernelStack(pid) + 4 == PcbAddress(pid)
  {
  }

  /** In every state reached from boot the first three processes are root shells,
      without a parent and on terminals 2, 1 and 0, and every other process has the
      one before it as its parent and shares its terminal. */
  lemma FamilyTree(calls: seq<Call>, pid: nat)
    requires Run(BOOT, calls).Some? && 1 <= pid <= Run(BOOT, calls).value.processCount
    ensures var memory := Run(BOOT, calls).value.memory;
      && PcbAddress(pid) in memory && memory[PcbAddress(pid)].pid == pid
      && if pid <= 3 then memory[PcbAddress(pid)].parentPtr == NULL && memory[PcbAddress(pid)].terminalNum + pid == 3
         else memory[PcbAddress(pid)].parentPtr == PcbAddress(pid - 1) && PcbAddress(pid - 1) in memory
              && memory[PcbAddress(pid)].terminalNum == memory[PcbAddress(pid - 1)].terminalNum
  {
    ReachableIsConsistent(BOOT, calls);
    var s := Run(BOOT, calls).value;
    assert HasPcb(s.memory, pid);
    assert pid > 1 ==> HasPcb(s.memory, pid - 1);
  }

  /** No two live processes share a PCB area or a program frame, and every PCB
      area lies in the kernel's own 4 MB page, below all program frames. */
  lemma FramesDisjoint(p: nat, q: nat)
    requires 1 <= p < q <= MAX_PROCESSES
    ensures PcbAddress(q) + ADDR_8KB <= PcbAddress(p)
    ensures ADDR_4MB <= PcbAddress(q) && PcbAddress(p) + ADDR_8KB <= ADDR_8MB
    ensures ADDR_8MB <= Frame(p) && Frame(p) + ADDR_4MB <= Frame(q)
    ensures UserPde(Frame(p)).Val() != UserPde(Frame(q)).Val()
  {
  }

  /** From every state reached from boot, rotation as written works five times,
      and the sixth store lands beyond the array. */
  lemma RotationsFromBoot(calls: seq<Call>, slots: seq<int>, k: nat)
    requires Run(BOOT, calls).Some? && Run(BOOT, calls).value.queue != []
    requires |slots| == MAX_PROCESSES
    requires var s := Run(BOOT, calls).value; Represents(slots, s.front, s.rear, s.queue)
    ensures var s := Run(BOOT, calls).value;
      RotatedRings(Ring(slots, s.front, s.rear), k).Some? <==> k < MAX_PROCESSES
    ensures var s := Run(BOOT, calls).value;
      k < MAX_PROCESSES ==>
        var r := RotatedRings(Ring(slots, s.front, s.rear), k).value;
        Represents(r.slots, r.front, r.rear, Rotations(s.queue, k))
  {
    ReachableIsConsistent(BOOT, calls);
    var s := Run(BOOT, calls).value;
    RotationsAsWritten(Ring(slots, s.front, s.rear), s.queue, k);
  }

  /** Such a state: the ring after boot, whose sixth rotation is out of bounds. */
  lemma SixthRotationExample(calls: seq<Call>)
    requires calls == [Execute(true)]
    ensures var slots := [PcbAddress(1), NULL, NULL, NULL, PcbAddress(3), PcbAddress(2)];
      && Run(BOOT, calls).Some?
      && var s := Run(BOOT, calls).value;
      && s.queue == [PcbAddress(3), PcbAddress(2), PcbAddress(1)]
      && s.front == 4 && s.rear == 0 && Represents(slots, s.front, s.rear, s.queue)
      && RotatedRings(Ring(slots, s.front, s.rear), 5).Some?
      && RotatedRings(Ring(slots, s.front, s.rear), 6).None?
  {
    hide Represents, RotatedRings, RotatedRing, Executed, PcbAddress, Consistent;
    var s := Executed(BOOT, true);
    assert Run(BOOT, calls) == Run(s, []);
    BootStartsThree();
    ThreeInRing(PcbAddress(3), PcbAddress(2), PcbAddress(1));
    var slots := [PcbAddress(1), NULL, NULL, NULL, PcbAddress(3), PcbAddress(2)];
    RotationsAsWritten(Ring(slots, s.front, s.rear), s.queue, 5);
    RotationsAsWritten(Ring(slots, s.front, s.rear), s.queue, 6);
  }

  lemma BootStartsThree()
    ensures var s := Executed(BOOT, true);
      s.queue == [PcbAddress(3), PcbAddress(2), PcbAddress(1)] && s.front == 4 && s.rear == 0
  {
    ExecutedIsConsistent(BOOT, true);
    hide UserPde, PdEntry.Val, PcbOf, Pcbs;
    var a := Started(BOOT);
    var b := Started(a);
    var c := Started(b);
    assert WithShells(a) == WithShells(b) == WithShells(c) == c;
  }

  /** Starting a child and halting it again restores everything except the dead
      child's PCB: count, queue, indices, user page and kernel stack. */
  lemma ExecuteThenHalt(s: Sys)
    requires Consistent(s) && NUM_TERMINALS <= s.processCount < MAX_PROCESSES
    ensures Run(s, [Execute(true), Halt])
         == Some(s.(memory := s.memory[PcbAddress(s.processCount + 1) := PcbOf(s.processCount + 1)]))
  {
    hide Executed, Halted, Consistent, PcbOf;
    HaltUndoesStart(s);
    var t := Executed(s, true);
    assert Run(Halted(t), []) == Some(Halted(t));
    assert [Execute(true), Halt][1..] == [Halt];
    assert Run(t, [Halt]) == Run(Halted(t), []);
  }

  lemma HaltUndoesStart(s: Sys)
    requires Consistent(s) && NUM_TERMINALS <= s.processCount < MAX_PROCESSES
    ensures var t := Executed(s, true);
      && t.processCount > NUM_TERMINALS && t.queue != []
      && Halted(t) == s.(memory := s.memory[PcbAddress(s.processCount + 1) := PcbOf(s.processCount + 1)])
  {
    hide UserPde, PdEntry.Val, PcbOf, Pcbs;
    var t := Executed(s, true);
    assert t == Started(s).(esp0 := KernelStack(s.processCount + 1));
    assert t.queue[1..] == s.queue;
  }
}
