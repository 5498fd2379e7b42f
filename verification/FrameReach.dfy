/** Which task frames the user code of a live task can reach.  Creating a program maps its frame into the
    creator's directory, and only the end of the program takes it out again. */
module FrameReach {
  import opened Words
  import opened Bitmap
  import opened Paging
  import opened SchedModel
  import opened SchedInvariant
  import opened SchedSteps
  import opened SchedBoot
  import opened SchedRuns
  import F = Forest

  // ----- one directory -----

  const EXECUTION_INDEX := 32
  const VIDEO_INDEX := 64

  /** Index `i` of a directory lets user code through to nothing. */
  predicate Closed(e: uint32) {
    !Present(e) || !UserBit(e)
  }

  /** Entry `i`, if it is not one of the task's own, opens a frame in `mapped` or nothing. */
  predicate EntryOk(e: uint32, i: nat, pid: nat, mapped: set<nat>) {
    if i == 2 + pid || i == EXECUTION_INDEX || i == VIDEO_INDEX then true
    else if 2 <= i < 2 + MAX_TASKS && i - 2 in mapped then e == LargeEntry(TaskAddr(i - 2), true)
    else Closed(e)
  }

  /** Besides a task's own entries, its directory opens to user code the frames in `mapped` and no other. */
  ghost predicate OnlyReaches(sp: Space, pid: nat, mapped: set<nat>) {
    sp.Valid() && forall i: nat :: i < NUM_PAGES ==> EntryOk(sp.dir[i], i, pid, mapped)
  }

  /** Where user code ends up at `va`, reading or writing: its own frame, also seen in the execution window, the video window,
      and the frames in `mapped`, each at its own address. */
  function UserTarget(pid: nat, window: uint32, mapped: set<nat>, va: uint32): Option<nat> {
    var i := PdeIndex(va);
    if i == EXECUTION_INDEX then Some(TaskAddr(pid) + va % SIZE_4MB)
    else if i == VIDEO_INDEX then Some((if window == VideoEntry then 0 else GARBAGE_VID_MEM) + va % SIZE_4MB)
    else if 2 <= i < 2 + MAX_TASKS && (i == 2 + pid || i - 2 in mapped) then Some(va)
    else None
  }

  lemma UserReach(sp: Space, pid: nat, mapped: set<nat>, va: uint32, w: bool)
    requires pid < MAX_TASKS && SpaceOk(sp, pid) && OnlyReaches(sp, pid, mapped)
    ensures Translate(sp, pid, va, Access(true, w)) == UserTarget(pid, Window(sp), mapped, va)
  {
    var i, off := PdeIndex(va), va % SIZE_4MB;
    assert va == i * SIZE_4MB + off;
    if i == EXECUTION_INDEX {
      ExecutionWindow(sp, pid, off, w);
    } else if i == VIDEO_INDEX {
      VideoWindow(sp, pid, off, w);
    } else if 2 <= i < 2 + MAX_TASKS && (i == 2 + pid || i - 2 in mapped) {
      assert va == TaskAddr(i - 2) + off && sp.dir[i] == LargeEntry(TaskAddr(i - 2), true);
      FrameEntry(i - 2);
    }
  }

  lemma FrameEntry(q: nat)
    requires q < MAX_TASKS
    ensures var e := LargeEntry(TaskAddr(q), true);
            Present(e) && Writable(e) && UserBit(e) && LargePage(e) && e / SIZE_4MB * SIZE_4MB == TaskAddr(q)
    ensures PdeIndex(TaskAddr(q)) == 2 + q
  {
    LargeEntryFields(TaskAddr(q), true);
  }

  lemma MapFrame(sp: Space, pid: nat, mapped: set<nat>, q: nat)
    requires OnlyReaches(sp, pid, mapped) && q < MAX_TASKS
    ensures OnlyReaches(MapLarge(sp, TaskAddr(q), TaskAddr(q), true), pid, mapped + {q})
  {
    FrameEntry(q);
  }

  lemma ClearFrame(sp: Space, pid: nat, mapped: set<nat>, q: nat)
    requires OnlyReaches(sp, pid, mapped) && q < MAX_TASKS && q != pid
    ensures OnlyReaches(ClearPde(sp, TaskAddr(q)), pid, mapped - {q})
  {
    FrameEntry(q);
  }

  lemma MapWindow(sp: Space, pid: nat, mapped: set<nat>, phys: uint32)
    requires OnlyReaches(sp, pid, mapped)
    ensures OnlyReaches(MapLarge(sp, phys, VIRTUAL_VID_MEM, true), pid, mapped)
  {
  }

  /** A new directory keeps the entries the frame held for its last owner. */
  lemma InitReach(sp: Space, pid: nat, mapped: set<nat>)
    requires OnlyReaches(sp, pid, mapped) && pid < MAX_TASKS
    ensures OnlyReaches(InitSpace(sp, pid), pid, mapped)
  {
    FrameEntry(pid);
    LargeEntryFields(KERNEL_LOCATION, false);
    TableEntryFields(2 + pid);
    assert TaskAddr(pid) + SIZE_4KB == (2 + pid) * SIZE_4MB + SIZE_4KB;
  }

  // ----- all directories -----

  ghost predicate Reaches(s: State, reach: seq<set<nat>>)
    requires Shape(s)
  {
    |reach| == MAX_TASKS && forall p :: 0 <= p < MAX_TASKS ==> OnlyReaches(s.spaces[p], p, reach[p])
  }

  /** Every attempt to create a program opens its frame to the creator, whether or not it loads; the end of a
      program closes its frame to its parent. */
  function ReachAfter(s: State, st: Step, reach: seq<set<nat>>): (r: seq<set<nat>>)
    requires Shape(s) && Safe(s, st) && |reach| == MAX_TASKS
    ensures |r| == MAX_TASKS
  {
    match st
    case Create(_) =>
      var c := LeastClear(s.taskVector, MAX_TASKS);
      if c < 0 then reach else reach[s.curTask := reach[s.curTask] + {c}]
    case Halt =>
      if s.curTask in {1, 2, 3} then reach
      else
        var parent := s.tasks[s.curTask].parent;
        reach[parent := reach[parent] - {s.curTask}]
    case _ => reach
  }

  /** What the invariant says about the directories that a step writes. */
  lemma Loaded(s: State, f: F.Forest)
    requires Related(s, f) && Enabled(s, Halt)
    ensures f.started && 0 < s.curTask < MAX_TASKS && s.pd == s.cr3 == s.curTask
    ensures Bit(s.taskVector, s.curTask)
  {
    CurPositive(s, f);
    TopTask(s, f, f.turn);
  }

  lemma TickReach(s: State, f: F.Forest, reach: seq<set<nat>>)
    requires Related(s, f) && Reaches(s, reach)
    ensures Safe(s, Tick) && Reaches(Apply(s, Tick), reach)
  {
    hide Chains, Waiting, Counted, Apply, Safe, OnlyReaches;
    var n, pid := TickIs(s, f);
    var r := SwitchTask(s, pid);
    assert s.pd == s.cr3;
    forall p: nat | p < MAX_TASKS ensures OnlyReaches(r.spaces[p], p, reach[p]) {
      var sp := if p == s.cr3 then MapLarge(s.spaces[p], GARBAGE_VID_MEM, VIRTUAL_VID_MEM, true) else s.spaces[p];
      MapWindow(s.spaces[p], p, reach[p], GARBAGE_VID_MEM);
      MapWindow(sp, p, reach[p], VIDEO);
    }
  }

  lemma ExecuteReach(s: State, f: F.Forest, reach: seq<set<nat>>)
    requires Related(s, f) && Enabled(s, Execute) && Safe(s, Execute) && Reaches(s, reach)
    ensures Reaches(Apply(s, Execute), reach)
  {
    var r := Apply(s, Execute);
    forall p: nat | p < MAX_TASKS ensures OnlyReaches(r.spaces[p], p, reach[p]) {
      MapWindow(s.spaces[p], p, reach[p], GARBAGE_VID_MEM);
    }
  }

  lemma HaltReach(s: State, f: F.Forest, reach: seq<set<nat>>)
    requires Related(s, f) && Enabled(s, Halt) && Safe(s, Halt) && Reaches(s, reach)
    ensures Reaches(Apply(s, Halt), ReachAfter(s, Halt, reach))
  {
    Loaded(s, f);
    if s.curTask !in {1, 2, 3} {
      ShellIsRoot(s, f);
      var parent := EndingHolds(s, f);
      EndReach(s, s.curTask, parent, reach);
    }
  }

  lemma EndReach(s: State, c: nat, parent: nat, reach: seq<set<nat>>)
    requires Shape(s) && c < MAX_TASKS && parent < MAX_TASKS && c != parent && Reaches(s, reach)
    requires s.tasks[c].parent == parent && 0 <= s.tasks[parent].ptid < 32
    ensures Reaches(EndTask(s, c), reach[parent := reach[parent] - {c}])
  {
    var sp := MapLarge(s.spaces[parent], VIDEO, VIRTUAL_VID_MEM, true);
    MapWindow(s.spaces[parent], parent, reach[parent], VIDEO);
    ClearFrame(sp, parent, reach[parent], c);
  }

  lemma CreateReach(s: State, f: F.Forest, loads: bool, reach: seq<set<nat>>)
    requires Related(s, f) && Enabled(s, Create(loads)) && Safe(s, Create(loads)) && Reaches(s, reach)
    ensures Reaches(Apply(s, Create(loads)), ReachAfter(s, Create(loads), reach))
  {
    Loaded(s, f);
    var c := LeastClear(s.taskVector, MAX_TASKS);
    if c >= 0 {
      CreateEffect(s, loads);
      AttemptReach(s, Apply(s, Create(loads)), c, reach);
    }
  }

  lemma AttemptReach(s: State, r: State, c: nat, reach: seq<set<nat>>)
    requires Shape(s) && c < MAX_TASKS && 0 <= s.curTask < MAX_TASKS && s.cr3 == s.curTask != c
    requires Created(s, r, c) && Reaches(s, reach)
    ensures Reaches(r, reach[s.curTask := reach[s.curTask] + {c}])
  {
    MapFrame(s.spaces[s.cr3], s.cr3, reach[s.cr3], c);
    InitReach(s.spaces[c], c, reach[c]);
  }

  lemma StepReach(s: State, f: F.Forest, st: Step, reach: seq<set<nat>>)
    requires Related(s, f) && Enabled(s, st) && Reaches(s, reach)
    ensures Safe(s, st) && Reaches(Apply(s, st), ReachAfter(s, st, reach))
  {
    StepKeeps(s, f, st);
    match st
    case Tick => TickReach(s, f, reach);
    case Create(loads) => CreateReach(s, f, loads, reach);
    case Execute => ExecuteReach(s, f, reach);
    case Halt => HaltReach(s, f, reach);
    case Show(_) =>
  }

  // ----- from boot on -----

  const NoFrames: seq<set<nat>> := [{}, {}, {}, {}, {}, {}, {}, {}, {}, {}]

  /** The task frames hold empty directories at power-on. */
  ghost predicate ClearFrames(s: State)
    requires Shape(s)
  {
    forall p, i :: 0 <= p < MAX_TASKS && 0 <= i < NUM_PAGES ==> s.spaces[p].dir[i] == 0
  }

  lemma BootReach(s: State)
    requires Fresh(s) && ClearFrames(s)
    ensures TasksInit(s).Some? && Shape(TasksInit(s).value) && Reaches(TasksInit(s).value, NoFrames)
  {
    IdleStage(s);
    var s0 := SetCurTask(CreateTask(s, true).0, 0);
    assert Reaches(s, NoFrames);
    FirstFree();
    InitReach(s.spaces[0], 0, {});
    assert Reaches(s0, NoFrames) by {
      assert forall p :: 0 < p < MAX_TASKS ==> s0.spaces[p] == s.spaces[p];
    }
    TerminalsReach(s0, 3);
  }

  lemma {:induction false} TerminalsReach(s: State, n: nat)
    requires n <= 3 && Shape(s) && Stage(s, 0) && Reaches(s, NoFrames)
    ensures Terminals(s, n).Some? && Stage(Terminals(s, n).value, n) && Reaches(Terminals(s, n).value, NoFrames)
  {
    hide Stage, Reaches, AddTerminal;
    if n > 0 {
      TerminalsReach(s, n - 1);
      var before := Terminals(s, n - 1).value;
      TerminalStage(before, n - 1);
      TerminalReach(before, n - 1);
    }
  }

  lemma TerminalReach(s: State, n: nat)
    requires n < 3 && Stage(s, n) && Reaches(s, NoFrames) && AddTerminal(s).Some?
    ensures Reaches(AddTerminal(s).value, NoFrames)
  {
    ShellCreated(s, n);
    FirstFree();
    var r := CreateTask(s, true).0;
    InitReach(s.spaces[n + 1], n + 1, {});
    forall p | 0 <= p < MAX_TASKS ensures OnlyReaches(r.spaces[p], p, {}) {
      assert OnlyReaches(s.spaces[p], p, NoFrames[p]);
      assert r.spaces[p] == if p == n + 1 then InitSpace(s.spaces[p], p) else s.spaces[p];
    }
    assert AddTerminal(s).value.spaces == r.spaces;
  }

  /** The frames open after the first `i` steps of a run, by the history of creations and ends. */
  function ReachAt(states: seq<State>, steps: seq<Step>, i: nat): (r: seq<set<nat>>)
    requires i <= |steps| < |states|
    ensures |r| == MAX_TASKS
  {
    if i == 0 then NoFrames
    else
      var s, before := states[i - 1], ReachAt(states, steps, i - 1);
      if Shape(s) && Safe(s, steps[i - 1]) then ReachAfter(s, steps[i - 1], before) else before
  }

  lemma {:induction false} RunReach(states: seq<State>, steps: seq<Step>, forests: seq<F.Forest>, children: seq<int>, i: nat)
    requires AllRelated(states, forests) && AllSafe(states, steps, children) && i <= |steps|
    requires Shape(states[0]) && Reaches(states[0], NoFrames)
    ensures Shape(states[i]) && Reaches(states[i], ReachAt(states, steps, i))
  {
    hide Chains, Waiting, Counted, Scheduled, Mapped, Reaches;
    if i > 0 {
      RunReach(states, steps, forests, children, i - 1);
      assert StepDone(states[i - 1], steps[i - 1], states[i], children[i - 1]);
      StepReach(states[i - 1], forests[i - 1], steps[i - 1], ReachAt(states, steps, i - 1));
    }
  }

  /** Exactly what the user code of a live task can reach, at every address, at every moment of every run
      that starts with empty frames. */
  lemma UserReachesExactly(start: State, states: seq<State>, steps: seq<Step>, forests: seq<F.Forest>, children: seq<int>,
                           i: nat, p: nat, va: uint32, w: bool)
    requires AllRelated(states, forests) && AllSafe(states, steps, children) && i <= |steps| && p < MAX_TASKS
    requires Fresh(start) && ClearFrames(start) && TasksInit(start) == Some(states[0])
    requires Shape(states[i]) && Bit(states[i].taskVector, p)
    ensures Translate(states[i].spaces[p], p, va, Access(true, w)) ==
            UserTarget(p, Window(states[i].spaces[p]), ReachAt(states, steps, i)[p], va)
  {
    BootReach(start);
    RunReach(states, steps, forests, children, i);
    LiveSpace(states[i], forests[i], p);
    UserReach(states[i].spaces[p], p, ReachAt(states, steps, i)[p], va, w);
  }

  lemma LiveSpace(s: State, f: F.Forest, p: nat)
    requires Related(s, f) && p < MAX_TASKS && Bit(s.taskVector, p)
    ensures SpaceOk(s.spaces[p], p)
  {
  }

  // ----- isolation holds as long as every program loads -----

  /** The live programs that live task `p` has created.  The shells were created before task 0 had its
      directory loaded. */
  ghost predicate ChildOf(s: State, p: nat, q: nat)
    requires Shape(s) && p < MAX_TASKS
  {
    p != 0 && q < MAX_TASKS && Bit(s.taskVector, q) && s.tasks[q].parent == p
  }

  /** Each frame open to a task is the frame of a live child of that task, and the other way round. */
  ghost predicate Isolated(s: State, reach: seq<set<nat>>)
    requires Shape(s) && |reach| == MAX_TASKS
  {
    forall p: nat, q: nat :: p < MAX_TASKS ==> (q in reach[p] <==> ChildOf(s, p, q))
  }

  lemma IsolatedStep(s: State, f: F.Forest, st: Step, reach: seq<set<nat>>)
    requires Related(s, f) && Enabled(s, st) && Safe(s, st) && |reach| == MAX_TASKS
    requires Isolated(s, reach) && st != Create(false)
    ensures Isolated(Apply(s, st), ReachAfter(s, st, reach))
  {
    hide Chains, Waiting, Counted, Mapped, SpaceOk;
    match st
    case Tick =>
    case Create(_) => IsolatedCreate(s, f, reach);
    case Execute =>
    case Halt => IsolatedHalt(s, f, reach);
    case Show(_) =>
  }

  lemma IsolatedCreate(s: State, f: F.Forest, reach: seq<set<nat>>)
    requires Related(s, f) && Enabled(s, Create(true)) && Safe(s, Create(true)) && |reach| == MAX_TASKS
    requires Isolated(s, reach)
    ensures Isolated(Apply(s, Create(true)), ReachAfter(s, Create(true), reach))
  {
    hide Chains, Waiting, Counted, Mapped;
    Loaded(s, f);
    var c := LeastClear(s.taskVector, MAX_TASKS);
    if c >= 0 {
      CreateEffect(s, true);
      forall q: nat ensures Bit(SetBit(s.taskVector, c), q) <==> q == c || Bit(s.taskVector, q) {
        SetBitAt(s.taskVector, c, q);
      }
    }
  }

  lemma IsolatedHalt(s: State, f: F.Forest, reach: seq<set<nat>>)
    requires Related(s, f) && Enabled(s, Halt) && Safe(s, Halt) && |reach| == MAX_TASKS
    requires Isolated(s, reach)
    ensures Isolated(Apply(s, Halt), ReachAfter(s, Halt, reach))
  {
    hide Chains, Waiting, Counted, Mapped;
    Loaded(s, f);
    var c := s.curTask;
    if c !in {1, 2, 3} {
      forall q: nat ensures Bit(ClearBit(s.taskVector, c), q) <==> q != c && Bit(s.taskVector, q) {
        ClearBitAt(s.taskVector, c, q);
      }
    }
  }

  lemma {:induction false} IsolatedRun(start: State, states: seq<State>, steps: seq<Step>, forests: seq<F.Forest>,
                                       children: seq<int>, i: nat)
    requires AllRelated(states, forests) && AllSafe(states, steps, children) && i <= |steps|
    requires forall k :: 0 <= k < i ==> steps[k] != Create(false)
    requires Fresh(start) && TasksInit(start) == Some(states[0])
    ensures Shape(states[i]) && Isolated(states[i], ReachAt(states, steps, i))
  {
    hide Chains, Waiting, Counted, Scheduled, Mapped, Isolated, TasksInit, Fresh;
    if i == 0 {
      BootIsolated(start);
    } else {
      IsolatedRun(start, states, steps, forests, children, i - 1);
      assert StepDone(states[i - 1], steps[i - 1], states[i], children[i - 1]);
      IsolatedStep(states[i - 1], forests[i - 1], steps[i - 1], ReachAt(states, steps, i - 1));
    }
  }

  lemma BootIsolated(start: State)
    requires Fresh(start)
    ensures TasksInit(start).Some? && Shape(TasksInit(start).value) && Isolated(TasksInit(start).value, NoFrames)
  {
    hide TasksInit, Fresh, Chains, Waiting, Counted, Scheduled, Mapped;
    BootRelated(start);
    var s := TasksInit(start).value;
    forall p: nat, q: nat | p < MAX_TASKS ensures !ChildOf(s, p, q) {
      if q < MAX_TASKS && Bit(s.taskVector, q) {
        BootParents(s, q);
      }
    }
  }

  lemma BootParents(s: State, q: nat)
    requires Related(s, BootForest) && q < MAX_TASKS && Bit(s.taskVector, q)
    ensures Shape(s) && s.tasks[q].parent <= 0
  {
    assert Alive(BootForest, q);
    if q > 0 {
      assert q in {1, 2, 3};
      assert BootForest.stacks[q - 1][0] == q;
      assert s.tasks[BootForest.stacks[q - 1][0]] == Task(Under(BootForest.stacks[q - 1], 0), q - 1);
    }
  }

  // ----- a failed load leaves its frame open -----

  /** Pid 4 is free, no program is waiting, and the shell of each terminal is its tree's program. */
  ghost predicate OnlyShells(s: State, cur: nat) {
    && Shape(s) && s.taskVector == 15 && s.ptreeVector == 7
    && (forall t :: 0 <= t < 3 ==> s.ptreeTasks[t] == t + 1 && s.tasks[t + 1] == Task(0, t))
    && s.pending == seq(MAX_TASKS, _ => -1)
    && s.curTask == cur
  }

  /** The frame of pid 4 is open to user code in the directory of pid 2. */
  ghost predicate Open(s: State) {
    Shape(s) && s.spaces[2].dir[2 + 4] == LargeEntry(TaskAddr(4), true)
  }

  lemma FourIsFree()
    ensures LeastClear(15, MAX_TASKS) == 4 && SetBit(15, 4) == 31
  {
    assert Bit(15, 0) && Bit(15, 1) && Bit(15, 2) && Bit(15, 3) && !Bit(15, 4) by {
      LowBits(15, 4);
    }
    assert SetBit(7, 3) == 15 && SetBit(0, 0) == 1;
  }

  lemma ShellTick(s: State, t: nat, n: nat)
    requires s.curTask >= 0 && OnlyShells(s, s.curTask) && t < 3 && s.curPtree == t && n == (t + 1) % 3
    requires s.pd == s.cr3 && (s.cr3 == BOOT || s.cr3 == s.curTask)
    ensures Safe(s, Tick) && Next(s, Tick, Apply(s, Tick)) && OnlyShells(Apply(s, Tick), n + 1)
    ensures var r := Apply(s, Tick); r.pd == r.cr3 == n + 1 && r.curPtree == n && (Open(s) ==> Open(r))
  {
    ApplyTick(s, n, n + 1);
  }

  lemma ShellCreates(s: State, p: nat, loads: bool)
    requires OnlyShells(s, p) && 0 < p < 4 && s.cr3 == p
    ensures Safe(s, Create(loads)) && Next(s, Create(loads), Apply(s, Create(loads)))
    ensures var r := Apply(s, Create(loads));
            && Shape(r) && r.curTask == p && r.pd == r.cr3 == p && r.curPtree == s.curPtree
            && (!loads ==> OnlyShells(r, p)) && (p == 2 || Open(s) ==> Open(r))
            && (loads ==> r.taskVector == 31 && r.tasks[4] == Task(p, p - 1) && r.tasks[2] == Task(0, 1) && r.pending[p] == 4)
  {
    FourIsFree();
    CreateEffect(s, loads);
    FrameEntry(4);
    assert s.tasks[p - 1 + 1] == Task(0, p - 1) && s.tasks[1 + 1] == Task(0, 1);
  }

  lemma ShellExecutes(s: State)
    requires Shape(s) && s.curTask == 3 && s.pd == 3 && s.pending[3] == 4 && s.tasks[4].ptid == 2 && Open(s)
    ensures Safe(s, Execute) && Next(s, Execute, Apply(s, Execute))
    ensures var r := Apply(s, Execute); Shape(r) && r.taskVector == s.taskVector && r.tasks == s.tasks && Open(r)
  {
  }

  /** The run: the shell of terminal 1 tries to start a program that does not load; then the shell of terminal
      2 starts one, which gets the same pid. */
  const LeakSteps: seq<Step> := [Tick, Create(false), Tick, Create(true), Execute]

  lemma BootShells(s: State)
    requires Stage(s, 3)
    ensures OnlyShells(s, 0)
  {
    assert s.pending == seq(MAX_TASKS, _ => -1);
  }

  lemma LeakStates(s0: State) returns (states: seq<State>)
    requires Stage(s0, 3)
    ensures Taken(states, LeakSteps) && states[0] == s0
    ensures var r := states[5]; Open(r) && Shape(r) && r.taskVector == 31 && r.tasks[4] == Task(3, 2) && r.tasks[2] == Task(0, 1)
  {
    hide Next, Apply, Safe, OnlyShells, Open;
    BootShells(s0);
    ShellTick(s0, 0, 1);
    var s1 := Apply(s0, Tick);
    ShellCreates(s1, 2, false);
    var s2 := Apply(s1, Create(false));
    ShellTick(s2, 1, 2);
    var s3 := Apply(s2, Tick);
    ShellCreates(s3, 3, true);
    var s4 := Apply(s3, Create(true));
    ShellExecutes(s4);
    var s5 := Apply(s4, Execute);
    states := FiveSteps(s0, s1, s2, s3, s4, s5);
  }

  lemma FiveSteps(s0: State, s1: State, s2: State, s3: State, s4: State, s5: State) returns (states: seq<State>)
    requires Next(s0, Tick, s1) && Next(s1, Create(false), s2) && Next(s2, Tick, s3)
    requires Next(s3, Create(true), s4) && Next(s4, Execute, s5)
    ensures states == [s0, s1, s2, s3, s4, s5] && Taken(states, LeakSteps)
  {
    hide Next;
    states := [s0, s1, s2, s3, s4, s5];
  }

  /** After a failed load isolation can fail: in this run user code of pid 2, the shell of terminal 1, reaches
      the whole frame of pid 4, a running program of terminal 2. */
  lemma FailedLoadOpensFrame(start: State, off: nat, w: bool) returns (states: seq<State>)
    requires Fresh(start) && off < SIZE_4MB
    ensures Taken(states, LeakSteps) && TasksInit(start) == Some(states[0])
    ensures var s := states[5];
            && Shape(s) && Bit(s.taskVector, 4) && s.tasks[4] == Task(3, 2) && s.tasks[2] == Task(0, 1)
            && Translate(s.spaces[2], 2, TaskAddr(4) + off, Access(true, w)) == Some(TaskAddr(4) + off)
  {
    hide Stage, Open, TasksInit;
    BootStage(start);
    states := LeakStates(TasksInit(start).value);
    FourIsFree();
    SetBitAt(15, 4, 4);
    OpenReach(states[5], off, w);
  }

  lemma OpenReach(s: State, off: nat, w: bool)
    requires Open(s) && off < SIZE_4MB
    ensures Translate(s.spaces[2], 2, TaskAddr(4) + off, Access(true, w)) == Some(TaskAddr(4) + off)
  {
    FrameEntry(4);
    LargeWindow(s.spaces[2], 2, TaskAddr(4), off, Access(true, w));
  }
}
