/** The scheduler in the source's own shape: one object holding the fields of `scheduler`, the task
    blocks, the page directories, `pd` and CR3, changed step by step. */
module Kernel {
  import opened Words
  import opened Bitmap
  import opened Paging
  import opened SchedModel
  import B = SchedBoot

  class Scheduler {
    var taskVector: nat
    var numTasks: int
    var curTask: int
    var ptreeTasks: seq<int>
    var ptreeVector: nat
    var numPtrees: nat
    var curPtree: int
    var tasks: seq<Task>
    var spaces: seq<Space>
    var pd: nat
    var cr3: nat
    var shown: int
    var pending: seq<int>

    ghost function Snapshot(): State
      reads this
    {
      State(taskVector, numTasks, curTask, ptreeTasks, ptreeVector, numPtrees, curPtree,
            tasks, spaces, pd, cr3, shown, pending)
    }

    ghost predicate Valid()
      reads this
    {
      Shape(Snapshot())
    }

    /** Power-on: `frames` is whatever the memory of the task frames holds. */
    constructor (frames: seq<Space>)
      requires |frames| == MAX_TASKS + 1 && forall i :: 0 <= i <= MAX_TASKS ==> frames[i].Valid()
      ensures Fresh(Snapshot()) && spaces == frames
    {
      taskVector, numTasks, curTask := 0, 0, -1;
      ptreeTasks, ptreeVector, numPtrees, curPtree := seq(32, _ => -1), 0, 0, -1;
      tasks := seq(MAX_TASKS, _ => Task(0, 0));
      pending := seq(MAX_TASKS, _ => -1);
      spaces, pd, cr3, shown := frames, BOOT, BOOT, 0;
    }

    // ----- allocation -----

    /** Tests the lowest bit of a copy that is shifted right each round. */
    method GetNewPid() returns (pid: int)
      requires Valid()
      modifies this`taskVector
      ensures pid == LeastClear(old(taskVector), MAX_TASKS)
      ensures taskVector == if pid >= 0 then SetBit(old(taskVector), pid) else old(taskVector)
    {
      var vector := taskVector;
      var i: nat := 0;
      while i < MAX_TASKS
        invariant i <= MAX_TASKS && taskVector == old(taskVector)
        invariant vector == Shift(taskVector, i)
        invariant LeastClear(taskVector, MAX_TASKS) == LeastClearFrom(taskVector, i, MAX_TASKS)
      {
        BitOfShift(taskVector, i);
        if vector % 2 == 0 {
          taskVector := SetBit(taskVector, i);
          return i;
        }
        vector := vector / 2;
        i := i + 1;
      }
      return -1;
    }

    /** Tests the vector itself under a mask that moves left each round. */
    method GetNewPtid() returns (ptid: int)
      requires Valid()
      modifies this`ptreeVector
      ensures ptid == LeastClear(old(ptreeVector), MAX_PTREES)
      ensures ptreeVector == if ptid >= 0 then SetBit(old(ptreeVector), ptid) else old(ptreeVector)
    {
      var i: nat := 0;
      while i < MAX_PTREES
        invariant i <= MAX_PTREES && ptreeVector == old(ptreeVector)
        invariant LeastClear(ptreeVector, MAX_PTREES) == LeastClearFrom(ptreeVector, i, MAX_PTREES)
      {
        if !Bit(ptreeVector, i) {
          ptreeVector := SetBit(ptreeVector, i);
          return i;
        }
        i := i + 1;
      }
      return -1;
    }

    method CreateProcessTree() returns (ptid: int)
      requires Valid()
      modifies this
      ensures Snapshot() == CreatePtree(old(Snapshot())).0 && ptid == CreatePtree(old(Snapshot())).1
      ensures ptid == -1 ==> Full(old(ptreeVector), MAX_PTREES) && Snapshot() == old(Snapshot())
      ensures ptid != -1 ==>
                && ptid == LeastClear(old(ptreeVector), MAX_PTREES) >= 0 && numPtrees == old(numPtrees) + 1
                && ptreeVector == SetBit(old(ptreeVector), ptid) && ptreeTasks == old(ptreeTasks)[ptid := -1]
    {
      ptid := GetNewPtid();
      if ptid < 0 {
        return -1;
      }
      numPtrees := numPtrees + 1;
      ptreeTasks := ptreeTasks[ptid := -1];
    }

    // ----- page directories -----

    method MapPageDirectory(phys: uint32, virt: uint32, user: bool)
      requires Valid()
      modifies this`spaces
      ensures Valid() && spaces == old(spaces)[pd := MapLarge(old(spaces)[pd], phys, virt, user)]
    {
      var entry := phys / SIZE_4MB * SIZE_4MB + 0x80 + (if user then 4 else 0) + 3;
      spaces := spaces[pd := spaces[pd].(dir := spaces[pd].dir[virt / SIZE_4MB := entry])];
    }

    method ClearDirectoryEntry(virt: uint32)
      requires Valid()
      modifies this`spaces
      ensures Valid() && spaces == old(spaces)[pd := ClearPde(old(spaces)[pd], virt)]
    {
      spaces := spaces[pd := spaces[pd].(dir := spaces[pd].dir[virt / SIZE_4MB := 0])];
    }

    /** The loop of `init_task_pd`: every page but the first maps to itself. */
    static method FillTable(prev: seq<uint32>) returns (table: seq<uint32>)
      requires |prev| == NUM_PAGES
      ensures table == IdentityTable(prev)
    {
      table := prev;
      var i, page := 0, 0;
      while i < NUM_PAGES
        invariant 0 <= i <= NUM_PAGES && page == i * SIZE_4KB && |table| == NUM_PAGES
        invariant forall k :: 0 <= k < i ==> table[k] == IdentityTable(prev)[k]
        invariant forall k :: i <= k < NUM_PAGES ==> table[k] == prev[k]
      {
        if i != 0 {
          table := table[i := page / SIZE_4KB * SIZE_4KB + 3];
        }
        page := page + SIZE_4KB;
        i := i + 1;
      }
    }

    /** Fills the directory and page table of task `pid`, borrowing `pd` while it does. */
    method InitTaskPd(pid: nat)
      requires Valid() && pid < MAX_TASKS
      modifies this`spaces, this`pd
      ensures Valid() && pd == old(pd)
      ensures spaces == old(spaces)[pid := InitSpace(old(spaces)[pid], pid)]
    {
      hide MapLarge, IdentityTable;
      var addr := TaskAddr(pid);
      var oldPd := pd;
      pd := pid;
      var dir := spaces[pid].dir[0 := SmallEntry(addr + SIZE_4KB)];
      var table := FillTable(spaces[pid].table);
      spaces := spaces[pid := Space(dir, table)];
      MapPageDirectory(KERNEL_LOCATION, KERNEL_LOCATION, false);
      MapPageDirectory(addr, addr, true);
      MapPageDirectory(addr, EXECUTION_ADDR, true);
      MapPageDirectory(VIDEO, VIRTUAL_VID_MEM, true);
      pd := oldPd;
    }

    // ----- tasks -----

    method InitTaskBlock(pid: nat)
      requires Valid() && pid < MAX_TASKS
      modifies this`spaces, this`pd, this`tasks
      ensures Snapshot() == InitTask(old(Snapshot()), pid)
    {
      InitTaskPd(pid);
      tasks := tasks[pid := tasks[pid].(parent := -1)];
    }

    /** The part of `create_task` between taking a pid and loading the program. */
    method PrepareTask(pid: nat)
      requires Valid() && pid < MAX_TASKS
      modifies this`pd, this`spaces, this`tasks
      ensures Snapshot() == Prepare(old(Snapshot()), pid)
    {
      var addr := TaskAddr(pid);
      pd := cr3;
      MapPageDirectory(addr, addr, true);
      InitTaskBlock(pid);
      if curTask != -1 {
        tasks := tasks[pid := Task(curTask, tasks[curTask].ptid)];
      }
    }

    /** `loads` is the outcome of `load_program_to_task`. */
    method Create(loads: bool) returns (result: int)
      requires Valid()
      modifies this
      ensures Snapshot() == CreateTask(old(Snapshot()), loads).0
      ensures result == CreateTask(old(Snapshot()), loads).1
    {
      var pid := GetNewPid();
      if pid < 0 {
        return -1;
      }
      PrepareTask(pid);
      if !loads {
        taskVector := ClearBit(taskVector, pid);
        return -1;
      }
      numTasks := numTasks + 1;
      return pid;
    }

    method SetCurrentTask(pid: nat)
      requires Valid() && pid < MAX_TASKS
      modifies this`curTask, this`curPtree
      ensures Snapshot() == SetCurTask(old(Snapshot()), pid)
    {
      curTask := pid;
      curPtree := tasks[pid].ptid;
    }

    method SetTreeTask(ptid: nat, pid: int)
      requires Valid() && ptid < 32
      modifies this`ptreeTasks
      ensures Snapshot() == SetPtreeTask(old(Snapshot()), ptid, pid)
    {
      ptreeTasks := ptreeTasks[ptid := pid];
    }

    method End(pid: nat)
      requires Valid() && pid < MAX_TASKS
      requires IsPid(tasks[pid].parent) && 0 <= tasks[tasks[pid].parent].ptid < 32
      modifies this
      ensures Snapshot() == EndTask(old(Snapshot()), pid)
    {
      var parent := tasks[pid].parent;
      cr3 := parent;
      pd := cr3;
      MapPageDirectory(VIDEO, VIRTUAL_VID_MEM, true);
      taskVector := ClearBit(taskVector, pid);
      ClearDirectoryEntry(TaskAddr(pid));
      numTasks := numTasks - 1;
      SetTreeTask(tasks[parent].ptid, parent);
      SetCurrentTask(parent);
    }

    method ExecuteNew(pid: nat)
      requires Valid() && pid < MAX_TASKS && 0 <= tasks[pid].ptid < 32
      modifies this
      ensures Snapshot() == ExecuteTask(old(Snapshot()), pid)
    {
      MapPageDirectory(GARBAGE_VID_MEM, VIRTUAL_VID_MEM, true);
      SetCurrentTask(pid);
      SetTreeTask(tasks[pid].ptid, pid);
      cr3 := pid;
      pd := cr3;
    }

    method Switch(pid: nat)
      requires Valid() && pid < MAX_TASKS
      modifies this
      ensures Snapshot() == SwitchTask(old(Snapshot()), pid)
    {
      pd := cr3;
      MapPageDirectory(GARBAGE_VID_MEM, VIRTUAL_VID_MEM, true);
      SetCurrentTask(pid);
      cr3 := pid;
      pd := cr3;
      if tasks[pid].ptid == shown {
        MapPageDirectory(VIDEO, VIRTUAL_VID_MEM, true);
      }
    }

    /** Scans upwards from the current tree, then from zero. */
    method GetNextTask() returns (pid: int)
      requires Valid() && 0 <= curPtree < MAX_PTREES
      ensures pid == ptreeTasks[NextTree(ptreeVector, curPtree, MAX_PTREES)]
    {
      var i: nat := curPtree + 1;
      while i < MAX_PTREES
        invariant curPtree + 1 <= i <= MAX_PTREES
        invariant FirstActive(ptreeVector, curPtree + 1, MAX_PTREES) == FirstActive(ptreeVector, i, MAX_PTREES)
      {
        if Bit(ptreeVector, i) {
          return ptreeTasks[i];
        }
        i := i + 1;
      }
      i := 0;
      while i < curPtree
        invariant i <= curPtree
        invariant FirstActive(ptreeVector, 0, curPtree) == FirstActive(ptreeVector, i, curPtree)
      {
        if Bit(ptreeVector, i) {
          return ptreeTasks[i];
        }
        i := i + 1;
      }
      return ptreeTasks[curPtree];
    }

    // ----- atomic steps -----

    /** `pit_process_interrupt`, the registers it saves aside. */
    method TimerTick()
      requires Valid() && Safe(Snapshot(), Tick)
      modifies this
      ensures Snapshot() == Apply(old(Snapshot()), Tick)
    {
      var next := GetNextTask();
      Switch(next);
    }

    /** The two halves of `do_execute`, which ticks may separate. */
    method DoExecuteCreate(loads: bool)
      requires Valid() && Safe(Snapshot(), SchedModel.Create(loads))
      modifies this
      ensures Snapshot() == Apply(old(Snapshot()), SchedModel.Create(loads))
    {
      var pid := Create(loads);
      pending := pending[curTask := pid];
    }

    method DoExecuteRun()
      requires Valid() && Safe(Snapshot(), Execute)
      modifies this
      ensures Snapshot() == Apply(old(Snapshot()), Execute)
    {
      var pid := pending[curTask];
      pending := pending[curTask := -1];
      ExecuteNew(pid);
    }

    method DoHalt()
      requires Valid() && Safe(Snapshot(), Halt)
      modifies this
      ensures Snapshot() == Apply(old(Snapshot()), Halt)
    {
      if curTask == 1 || curTask == 2 || curTask == 3 {
        return;
      }
      End(curTask);
    }

    method SetCurrentTerminal(term: int)
      requires Valid()
      modifies this`shown
      ensures Snapshot() == Apply(old(Snapshot()), Show(term))
      ensures shown == if 0 <= term <= 2 then term else old(shown)
    {
      if shown == term || term < 0 || term > 2 {
        return;
      }
      shown := term;
    }

    // ----- boot -----

    /** One round of the loop in `tasks_init`. */
    method AddShell()
      requires Valid() && AddTerminal(Snapshot()).Some?
      modifies this
      ensures AddTerminal(old(Snapshot())) == Some(Snapshot())
    {
      var pid := Create(true);
      var ptid := CreateProcessTree();
      tasks := tasks[pid := tasks[pid].(ptid := ptid)];
      SetTreeTask(ptid, pid);
    }

    /** The idle task, pid 0. */
    method AddIdle()
      requires Valid()
      modifies this
      ensures Snapshot() == SetCurTask(CreateTask(old(Snapshot()), true).0, 0)
    {
      var idle := Create(true);
      SetCurrentTask(0);
    }

    method AddShells()
      requires Valid() && B.Stage(Snapshot(), 0)
      modifies this
      ensures Terminals(old(Snapshot()), 3) == Some(Snapshot())
    {
      ghost var begin := Snapshot();
      var i := 0;
      while i < 3
        invariant 0 <= i <= 3 && B.Stage(Snapshot(), i)
        invariant Terminals(begin, i) == Some(Snapshot())
      {
        B.TerminalStage(Snapshot(), i);
        AddShell();
        i := i + 1;
      }
    }

    /** `tasks_init`: it creates the idle task and the three shells, and none of the calls fails. */
    method InitTasks()
      requires Fresh(Snapshot())
      modifies this
      ensures TasksInit(old(Snapshot())) == Some(Snapshot())
    {
      B.IdleStage(Snapshot());
      AddIdle();
      AddShells();
    }
  }
}
