/** The state `tasks_init` leaves: the idle task and one shell per terminal. */
module SchedBoot {
  import opened Words
  import opened Bitmap
  import opened Paging
  import opened SchedModel
  import opened SchedInvariant
  import F = Forest

  const BootForest: F.Forest := F.Forest([[1], [2], [3]], [-1, -1, -1], 0, false, {}, 0, false)

  /** The idle task and the first `n` terminals exist. */
  ghost predicate Stage(s: State, n: nat)
    requires n <= 3
  {
    && Shape(s)
    && s.taskVector == [1, 3, 7, 15][n] && s.ptreeVector == [0, 1, 3, 7][n]
    && s.numTasks == n + 1 && s.numPtrees == n
    && s.curTask == 0 && s.curPtree == 0 && s.shown == 0 && s.pd == BOOT && s.cr3 == BOOT
    && s.tasks[0] == Task(-1, 0)
    && (forall t :: 0 <= t < n ==> s.tasks[1 + t] == Task(0, t) && s.ptreeTasks[t] == 1 + t)
    && (forall p :: 0 <= p < MAX_TASKS ==> s.pending[p] == -1)
    && (forall p :: 0 <= p <= n ==> SpaceOk(s.spaces[p], p) && Window(s.spaces[p]) == VideoEntry)
  }

  lemma FirstFree()
    ensures LeastClear(0, MAX_TASKS) == 0 && LeastClear(1, MAX_TASKS) == 1
    ensures LeastClear(3, MAX_TASKS) == 2 && LeastClear(7, MAX_TASKS) == 3
    ensures LeastClear(0, MAX_PTREES) == 0 && LeastClear(1, MAX_PTREES) == 1 && LeastClear(3, MAX_PTREES) == 2
    ensures SetBit(0, 0) == 1 && SetBit(1, 1) == 3 && SetBit(3, 2) == 7 && SetBit(7, 3) == 15
  {
    LowBits(0, 0);
    LowBits(1, 1);
    LowBits(3, 2);
    LowBits(7, 3);
    assert SetBit(1, 1) == 3 by { assert SetBit(0, 0) == 1; }
    assert SetBit(3, 2) == 7 by { assert SetBit(1, 1) == 3; }
    assert SetBit(7, 3) == 15 by { assert SetBit(3, 2) == 7; }
  }

  /** A word of `n` ones has exactly its first `n` bits set. */
  lemma {:induction false} LowBits(v: nat, n: nat)
    requires n <= 4 && v == [0, 1, 3, 7, 15][n]
    ensures forall i: nat :: Bit(v, i) <==> i < n
    ensures PopCount(v) == n
  {
    if n > 0 {
      LowBits(v / 2, n - 1);
      forall i: nat ensures Bit(v, i) <==> i < n {
        if i > 0 {
          assert Bit(v, i) <==> Bit(v / 2, i - 1);
        }
      }
    } else {
      forall i: nat ensures !Bit(v, i) {
        ZeroBits(i);
      }
    }
  }

  /** The idle task, pid 0, without parent or process tree. */
  lemma IdleStage(s: State)
    requires Fresh(s)
    ensures CreateTask(s, true).1 == 0 && Stage(SetCurTask(CreateTask(s, true).0, 0), 0)
  {
    FirstFree();
    InitSpaceOk(s.spaces[0], 0);
  }

  lemma TerminalStage(s: State, n: nat)
    requires n < 3 && Stage(s, n)
    ensures AddTerminal(s).Some? && Stage(AddTerminal(s).value, n + 1)
  {
    FirstFree();
    ShellCreated(s, n);
    var s1 := CreateTask(s, true).0;
    assert CreatePtree(s1).1 == n;
    var r := AddTerminal(s).value;
    assert r.spaces == s1.spaces;
    forall p | 0 <= p <= n + 1 ensures SpaceOk(r.spaces[p], p) && Window(r.spaces[p]) == VideoEntry {
      StageSpaces(s, n, p);
    }
  }

  lemma ShellCreated(s: State, n: nat)
    requires n < 3 && Stage(s, n)
    ensures CreateTask(s, true).1 == n + 1
    ensures var r := CreateTask(s, true).0;
            && r.taskVector == [1, 3, 7, 15][n + 1] && r.numTasks == n + 2
            && r.tasks == s.tasks[n + 1 := Task(0, 0)]
            && r == s.(taskVector := r.taskVector, numTasks := n + 2, tasks := r.tasks, spaces := r.spaces)
  {
    FirstFree();
  }

  lemma StageSpaces(s: State, n: nat, p: nat)
    requires n < 3 && Stage(s, n) && p <= n + 1
    ensures var r := CreateTask(s, true).0; SpaceOk(r.spaces[p], p) && Window(r.spaces[p]) == VideoEntry
  {
    FirstFree();
    InitSpaceOk(s.spaces[p], p);
    assert CreateTask(s, true).0.spaces[p] == if p == n + 1 then InitSpace(s.spaces[p], p) else s.spaces[p];
  }

  lemma BootCounted(s: State)
    requires Stage(s, 3)
    ensures Counted(s, BootForest)
    ensures forall p :: 0 <= p < MAX_TASKS ==> (Alive(BootForest, p) <==> p < 4)
  {
    LowBits(15, 4);
  }

  /** `tasks_init` establishes the relation to three one-shell stacks. */
  lemma BootRelated(s: State)
    requires Fresh(s)
    ensures TasksInit(s).Some? && Related(TasksInit(s).value, BootForest)
  {
    hide TasksInit, Stage;
    BootStage(s);
    StageRelated(TasksInit(s).value);
  }

  lemma BootStage(s: State)
    requires Fresh(s)
    ensures TasksInit(s).Some? && Stage(TasksInit(s).value, 3)
  {
    hide Stage, CreateTask, Terminals;
    IdleStage(s);
    var r := TerminalStages(SetCurTask(CreateTask(s, true).0, 0), 3);
  }

  lemma {:induction false} TerminalStages(s: State, n: nat) returns (r: State)
    requires n <= 3 && Stage(s, 0)
    ensures Terminals(s, n) == Some(r) && Stage(r, n)
  {
    if n == 0 {
      r := s;
    } else {
      var before := TerminalStages(s, n - 1);
      TerminalStage(before, n - 1);
      r := AddTerminal(before).value;
    }
  }

  lemma StageRelated(r: State)
    requires Stage(r, 3)
    ensures Related(r, BootForest)
  {
    BootCounted(r);
    assert Chains(r, BootForest);
    BootMapped(r);
  }

  lemma BootMapped(r: State)
    requires Stage(r, 3) && forall p :: 0 <= p < MAX_TASKS ==> (Alive(BootForest, p) <==> p < 4)
    ensures Mapped(r, BootForest)
  {
  }
}
