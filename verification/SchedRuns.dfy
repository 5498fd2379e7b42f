/** Safety over whole runs: what holds after any interleaving of timer ticks, program starts and ends in
    the three trees, and display switches, from boot on. */
module SchedRuns {
  import opened Words
  import opened Bitmap
  import opened Paging
  import opened SchedModel
  import opened SchedInvariant
  import opened SchedSteps
  import opened SchedBoot
  import F = Forest

  /** A run: each step could be taken, and had the effect of the code where the code is defined. */
  ghost predicate Next(s: State, st: Step, s': State) {
    Shape(s) ==> Enabled(s, st) && (Safe(s, st) ==> s' == Apply(s, st))
  }

  ghost predicate Taken(states: seq<State>, steps: seq<Step>) {
    && |states| == |steps| + 1
    && forall i {:trigger steps[i]} :: 0 <= i < |steps| ==> Next(states[i], steps[i], states[i + 1])
  }

  /** A run of the forest on its own; `children` are the pids that create steps returned. */
  ghost predicate ForestRun(forests: seq<F.Forest>, steps: seq<Step>, children: seq<int>) {
    && |forests| == |steps| + 1 && |children| == |steps|
    && forests[0] == BootForest
    && (forall i :: 0 <= i < |forests| ==> F.Shape(forests[i]))
    && (forall i {:trigger children[i]} :: 0 <= i < |steps| ==> forests[i + 1] == Grow(forests[i], steps[i], children[i]))
  }

  ghost predicate AllRelated(states: seq<State>, forests: seq<F.Forest>) {
    && |states| == |forests|
    && (forall i :: 0 <= i < |states| ==> Related(states[i], forests[i]))
  }

  /** Every step of the run was defined and returned the pid listed for it. */
  ghost predicate AllSafe(states: seq<State>, steps: seq<Step>, children: seq<int>) {
    && |states| == |steps| + 1 && |children| == |steps|
    && (forall i {:trigger children[i]} :: 0 <= i < |steps| ==> StepDone(states[i], steps[i], states[i + 1], children[i]))
  }

  ghost predicate StepDone(s: State, st: Step, s': State, child: int) {
    Shape(s) && Enabled(s, st) && Safe(s, st) && s' == Apply(s, st) && child == Child(s, st)
  }

  /** Refinement: every run of the scheduler from boot, step by step, is a run of the forest of process
      stacks, and no step of it reads a null parent or runs off a table. */
  lemma RunRefinesForest(start: State, states: seq<State>, steps: seq<Step>)
    returns (forests: seq<F.Forest>, children: seq<int>)
    requires Fresh(start) && Taken(states, steps) && TasksInit(start) == Some(states[0])
    ensures ForestRun(forests, steps, children)
    ensures AllRelated(states, forests)
    ensures AllSafe(states, steps, children)
  {
    BootRelated(start);
    forests, children := RunFrom(states, steps);
  }

  /** A run never gets stuck: whatever has happened since boot, the timer can tick once more. */
  lemma RunCanTick(start: State, states: seq<State>, steps: seq<Step>)
    requires Fresh(start) && Taken(states, steps) && TasksInit(start) == Some(states[0])
    ensures var last := states[|steps|]; Shape(last) && Enabled(last, Tick) && Safe(last, Tick)
    ensures Taken(states + [Apply(states[|steps|], Tick)], steps + [Tick])
  {
    var last := states[|steps|];
    assert Shape(last) && Enabled(last, Tick) && Safe(last, Tick) by {
      var forests, children := RunRefinesForest(start, states, steps);
      CurPositive(last, forests[|steps|]);
      var n, pid := TickIs(last, forests[|steps|]);
    }
    ExtendTaken(states, steps, Tick, Apply(last, Tick));
  }

  lemma ExtendTaken(states: seq<State>, steps: seq<Step>, st: Step, s': State)
    requires Taken(states, steps) && Next(states[|steps|], st, s')
    ensures Taken(states + [s'], steps + [st])
  {
    forall i | 0 <= i < |steps| + 1 ensures Next((states + [s'])[i], (steps + [st])[i], (states + [s'])[i + 1]) {
      if i < |steps| {
        assert Next(states[i], steps[i], states[i + 1]);
      }
    }
  }

  lemma {:induction false} RunFrom(states: seq<State>, steps: seq<Step>)
    returns (forests: seq<F.Forest>, children: seq<int>)
    requires Taken(states, steps) && Related(states[0], BootForest)
    ensures ForestRun(forests, steps, children)
    ensures AllRelated(states, forests)
    ensures AllSafe(states, steps, children)
  {
    if steps == [] {
      forests, children := RunStart(states);
    } else {
      var n := |steps| - 1;
      RunPrefix(states, steps);
      var init, pids := RunFrom(states[..n + 1], steps[..n]);
      forests, children := Extend(states[..n + 1], steps[..n], init, pids, steps[n], states[n + 1]);
    }
  }

  lemma RunStart(states: seq<State>) returns (forests: seq<F.Forest>, children: seq<int>)
    requires |states| == 1 && Related(states[0], BootForest)
    ensures ForestRun(forests, [], children) && AllRelated(states, forests) && AllSafe(states, [], children)
  {
    forests, children := [BootForest], [];
  }

  lemma RunPrefix(states: seq<State>, steps: seq<Step>)
    requires Taken(states, steps) && |steps| > 0
    ensures Taken(states[..|steps|], steps[..|steps| - 1])
    ensures Next(states[|steps| - 1], steps[|steps| - 1], states[|steps|])
    ensures states == states[..|steps|] + [states[|steps|]]
    ensures steps == steps[..|steps| - 1] + [steps[|steps| - 1]]
  {
    var n := |steps| - 1;
    forall i | 0 <= i < n ensures Next(states[..n + 1][i], steps[..n][i], states[..n + 1][i + 1]) {
      assert Next(states[i], steps[i], states[i + 1]);
    }
  }

  lemma Extend(states: seq<State>, steps: seq<Step>, init: seq<F.Forest>, pids: seq<int>, st: Step, s': State)
    returns (forests: seq<F.Forest>, children: seq<int>)
    requires ForestRun(init, steps, pids) && AllRelated(states, init) && AllSafe(states, steps, pids)
    requires Next(states[|steps|], st, s')
    ensures ForestRun(forests, steps + [st], children)
    ensures AllRelated(states + [s'], forests)
    ensures AllSafe(states + [s'], steps + [st], children)
  {
    var n := |steps|;
    var child, f' := GrowLast(states[n], init[n], st, s');
    forests, children := init + [f'], pids + [child];
    ExtendRelated(states, init, s', f');
    ExtendForest(init, steps, pids, st, child, f');
    ExtendSafe(states, steps, pids, st, child, s');
  }

  lemma GrowLast(s: State, f: F.Forest, st: Step, s': State) returns (child: int, f': F.Forest)
    requires Related(s, f) && Next(s, st, s')
    ensures F.Shape(f) && f' == Grow(f, st, child) && Related(s', f') && StepDone(s, st, s', child)
  {
    child := Child(s, st);
    f' := Grow(f, st, child);
    StepKeeps(s, f, st);
  }

  lemma ExtendRelated(states: seq<State>, init: seq<F.Forest>, s': State, f': F.Forest)
    requires AllRelated(states, init) && Related(s', f')
    ensures AllRelated(states + [s'], init + [f'])
  {
    forall i | 0 <= i < |states| + 1 ensures Related((states + [s'])[i], (init + [f'])[i]) {
      if i < |states| {
        assert (states + [s'])[i] == states[i] && (init + [f'])[i] == init[i];
      }
    }
  }

  lemma ExtendForest(init: seq<F.Forest>, steps: seq<Step>, pids: seq<int>, st: Step, child: int, f': F.Forest)
    requires ForestRun(init, steps, pids) && f' == Grow(init[|steps|], st, child)
    ensures ForestRun(init + [f'], steps + [st], pids + [child])
  {
  }

  lemma ExtendSafe(states: seq<State>, steps: seq<Step>, pids: seq<int>, st: Step, child: int, s': State)
    requires AllSafe(states, steps, pids) && StepDone(states[|steps|], st, s', child)
    ensures AllSafe(states + [s'], steps + [st], pids + [child])
  {
    forall i | 0 <= i < |steps| + 1
      ensures StepDone((states + [s'])[i], (steps + [st])[i], (states + [s'])[i + 1], (pids + [child])[i])
    {
      if i < |steps| {
        assert StepDone(states[i], steps[i], states[i + 1], pids[i]);
      }
    }
  }

  // ----- process trees do not interfere -----

  ghost function Events(steps: seq<Step>, forests: seq<F.Forest>, i: nat, j: nat): (es: seq<F.Event>)
    requires i <= j <= |steps| < |forests| && forall k :: 0 <= k < |forests| ==> F.Shape(forests[k])
    ensures |es| == j - i
  {
    if i == j then [] else Events(steps, forests, i, j - 1) + [ActionOf(forests[j - 1], steps[j - 1])]
  }

  lemma GrowStack(f: F.Forest, st: Step, child: int, t: nat)
    requires F.Shape(f) && t < 3
    ensures Grow(f, st, child).stacks[t] ==
            if t == f.turn then F.Act(f.stacks[t], ActionOf(f, st).action) else f.stacks[t]
  {
  }

  /** Each tree's stack is what the tree's own starts and ends make of it: steps of the other trees, and
      ticks, may fall anywhere in between. */
  lemma {:induction false} StackIsOwnHistory(forests: seq<F.Forest>, steps: seq<Step>, children: seq<int>, i: nat, j: nat, t: nat)
    requires ForestRun(forests, steps, children) && i <= j <= |steps| && t < 3
    ensures forests[j].stacks[t] == F.Replay(forests[i].stacks[t], F.Own(Events(steps, forests, i, j), t))
  {
    if i < j {
      StackIsOwnHistory(forests, steps, children, i, j - 1, t);
      GrowStack(forests[j - 1], steps[j - 1], children[j - 1], t);
      F.ReplayOwnStep(forests[i].stacks[t], Events(steps, forests, i, j - 1), ActionOf(forests[j - 1], steps[j - 1]), t);
    }
  }

  /** If between two moments of a run a tree ended exactly the programs it started, its stack and its
      entry in the scheduler's table are the same at both, whatever the other trees did. */
  lemma BalancedTreeRestored(states: seq<State>, steps: seq<Step>, forests: seq<F.Forest>, children: seq<int>,
                             i: nat, j: nat, t: nat)
    requires ForestRun(forests, steps, children) && AllRelated(states, forests) && i <= j <= |steps| && t < 3
    requires F.Balanced(F.Own(Events(steps, forests, i, j), t))
    ensures forests[j].stacks[t] == forests[i].stacks[t]
    ensures Shape(states[i]) && Shape(states[j]) && states[j].ptreeTasks[t] == states[i].ptreeTasks[t]
  {
    StackIsOwnHistory(forests, steps, children, i, j, t);
    F.BalancedRestores(forests[i].stacks[t], F.Own(Events(steps, forests, i, j), t));
    TableHoldsTop(states[i], forests[i], t);
    TableHoldsTop(states[j], forests[j], t);
  }

  lemma TableHoldsTop(s: State, f: F.Forest, t: nat)
    requires Related(s, f) && t < 3
    ensures Shape(s) && F.Shape(f) && s.ptreeTasks[t] == F.Top(f, t) && s.curPtree == f.turn
    ensures f.started ==> s.curTask == F.Top(f, f.turn)
  {
  }

  // ----- every tree gets its turn -----

  function Ticks(steps: seq<Step>): nat {
    if steps == [] then 0
    else Ticks(steps[..|steps| - 1]) + (if steps[|steps| - 1].Tick? then 1 else 0)
  }

  lemma GrowTurn(f: F.Forest, st: Step, child: int)
    requires F.Shape(f)
    ensures Grow(f, st, child).turn == if st.Tick? then (f.turn + 1) % 3 else f.turn
    ensures st.Tick? ==> Grow(f, st, child).started
  {
  }

  lemma {:induction false} TurnCountsTicks(forests: seq<F.Forest>, steps: seq<Step>, children: seq<int>, i: nat)
    requires ForestRun(forests, steps, children) && i <= |steps|
    ensures forests[i].turn == Ticks(steps[..i]) % 3
  {
    hide Grow;
    if i > 0 {
      TurnCountsTicks(forests, steps, children, i - 1);
      GrowTurn(forests[i - 1], steps[i - 1], children[i - 1]);
      assert steps[..i][..i - 1] == steps[..i - 1];
    }
  }

  lemma TickTurn(forests: seq<F.Forest>, steps: seq<Step>, children: seq<int>, i: nat)
    requires ForestRun(forests, steps, children) && i < |steps| && steps[i].Tick?
    ensures forests[i + 1].turn == (Ticks(steps[..i]) + 1) % 3 && forests[i + 1].started
  {
    TurnCountsTicks(forests, steps, children, i);
    GrowTurn(forests[i], steps[i], children[i]);
  }

  /** Fairness: the n-th tick since boot dispatches tree n mod 3, and in it the top of its stack, however
      many programs start and end in between; so three ticks in a row reach each tree once. */
  lemma TickDispatches(states: seq<State>, steps: seq<Step>, forests: seq<F.Forest>, children: seq<int>, i: nat)
    requires ForestRun(forests, steps, children) && AllRelated(states, forests) && i < |steps| && steps[i].Tick?
    ensures F.Shape(forests[i + 1])
    ensures states[i + 1].curPtree == (Ticks(steps[..i]) + 1) % 3
    ensures states[i + 1].curTask == F.Top(forests[i + 1], (Ticks(steps[..i]) + 1) % 3)
  {
    TickTurn(forests, steps, children, i);
    TableHoldsTop(states[i + 1], forests[i + 1], 0);
  }

  // ----- parents, pids, and the pool -----

  /** The pids of one state of a run: the idle task and the three shells are never freed, the count is
      the number of live pids, and every program has a live parent, its creator. */
  lemma PoolConserved(s: State, f: F.Forest)
    requires Related(s, f)
    ensures s.numTasks == PopCount(s.taskVector) <= MAX_TASKS
    ensures forall p :: 0 <= p < 4 ==> Bit(s.taskVector, p)
    ensures forall p: nat :: Bit(s.taskVector, p) && p != 0 ==>
              p < MAX_TASKS && 0 <= s.tasks[p].parent < MAX_TASKS && Bit(s.taskVector, s.tasks[p].parent)
  {
    hide Mapped, Scheduled, PopCount, Full, Bit;
    FullCount(s.taskVector, MAX_TASKS);
    forall p: nat | p < 4 ensures Bit(s.taskVector, p) {
      if p > 0 {
        assert f.stacks[p - 1][0] == p;
        assert p in f.stacks[p - 1];
      }
    }
    forall p: nat | Bit(s.taskVector, p) && p != 0
      ensures p < MAX_TASKS && 0 <= s.tasks[p].parent < MAX_TASKS && Bit(s.taskVector, s.tasks[p].parent)
    {
      assert p < MAX_TASKS;
      ParentAlive(s, f, p);
    }
  }

  lemma ParentAlive(s: State, f: F.Forest, p: nat)
    requires Shape(s) && F.Shape(f) && Chains(s, f) && Waiting(s, f) && p != 0 && p < MAX_TASKS && Alive(f, p)
    ensures 0 <= s.tasks[p].parent < MAX_TASKS && Alive(f, s.tasks[p].parent)
  {
    if OnStack(f, p) {
      var t, k := TreeOf(s, f, p);
      assert s.tasks[f.stacks[t][k]].parent == Under(f.stacks[t], k);
      if k > 0 {
        assert f.stacks[t][k - 1] in f.stacks[t];
      }
    } else {
      var t :| 0 <= t < 3 && f.pending[t] == p;
      TopTask(s, f, t);
    }
  }

  /** A program can be created exactly when its image loads and fewer than ten tasks live, and it gets
      the lowest free pid. */
  lemma CreateFailsWhenFull(s: State, f: F.Forest, loads: bool)
    requires Related(s, f)
    ensures CreateTask(s, loads).1 == -1 <==> !loads || s.numTasks == MAX_TASKS
    ensures !loads || s.numTasks == MAX_TASKS ==> CreateTask(s, loads).0.numTasks == s.numTasks
    ensures CreateTask(s, loads).1 != -1 ==> CreateTask(s, loads).1 == LeastClear(s.taskVector, MAX_TASKS)
  {
    hide Chains, Waiting, Scheduled, Mapped, PopCount;
    FullCount(s.taskVector, MAX_TASKS);
    var c := LeastClear(s.taskVector, MAX_TASKS);
    assert c < 0 <==> Full(s.taskVector, MAX_TASKS);
  }

  // ----- address spaces -----

  /** In every state of a run each live task's directory gives it its own frame as execution window, the
      kernel for the kernel only, its own frame and low memory one to one. */
  lemma LiveTaskTranslates(s: State, f: F.Forest, p: nat, off: nat, w: bool)
    requires Related(s, f) && p < MAX_TASKS && Bit(s.taskVector, p) && off < SIZE_4MB
    ensures Translate(s.spaces[p], p, EXECUTION_ADDR + off, Access(true, w)) == Some(TaskAddr(p) + off)
    ensures Translate(s.spaces[p], p, KERNEL_LOCATION + off, Access(false, w)) == Some(KERNEL_LOCATION + off)
    ensures Translate(s.spaces[p], p, KERNEL_LOCATION + off, Access(true, w)) == None
    ensures Translate(s.spaces[p], p, TaskAddr(p) + off, Access(false, w)) == Some(TaskAddr(p) + off)
    ensures Translate(s.spaces[p], p, TaskAddr(p) + off, Access(true, w)) == Some(TaskAddr(p) + off)
    ensures off >= SIZE_4KB ==> Translate(s.spaces[p], p, off, Access(false, w)) == Some(off)
    ensures Translate(s.spaces[p], p, off, Access(true, w)) == None
  {
    assert SpaceOk(s.spaces[p], p);
    SpaceOkTranslates(s.spaces[p], p, off, w);
  }

  /** Once ticking has begun, `pd` points to the loaded directory, which is the current task's and is
      reachable at its own address, so every directory write of the kernel lands where it is meant to. */
  lemma LoadedDirectory(s: State, f: F.Forest, off: nat, w: bool)
    requires Related(s, f) && f.started && off < SIZE_4MB
    ensures 0 < s.curTask < MAX_TASKS && s.pd == s.cr3 == s.curTask
    ensures Translate(s.spaces[s.cr3], s.cr3, TaskAddr(s.pd) + off, Access(false, w)) == Some(TaskAddr(s.pd) + off)
  {
    hide Waiting, Counted, Translate, SpaceOk;
    TopTask(s, f, f.turn);
    MappedCurrent(s, f, s.curTask, off, w);
  }

  lemma MappedCurrent(s: State, f: F.Forest, c: nat, off: nat, w: bool)
    requires Shape(s) && F.Shape(f) && Mapped(s, f) && f.started && c == s.curTask < MAX_TASKS && off < SIZE_4MB
    ensures s.pd == s.cr3 == c
    ensures Translate(s.spaces[c], c, TaskAddr(c) + off, Access(false, w)) == Some(TaskAddr(c) + off)
  {
    hide Translate, SpaceOk;
    OwnFrame(s.spaces[c], c, off, w);
  }

  // ----- who can reach the real screen -----

  ghost predicate ShowsScreen(s: State, p: nat)
    requires Shape(s) && p < MAX_TASKS
  {
    Window(s.spaces[p]) == VideoEntry
  }

  /** Exactly which live tasks have the real screen in their window: those that have never run, and the
      running one while `screen` holds. */
  lemma ScreenIff(s: State, f: F.Forest, p: nat)
    requires Related(s, f) && p < MAX_TASKS && Bit(s.taskVector, p)
    ensures ShowsScreen(s, p) <==> p !in f.ran || (p == s.curTask && f.screen)
  {
    LargeEntriesDiffer();
  }

  /** So of the tasks that have run at most the current one reaches real video memory. */
  lemma VideoExclusive(s: State, f: F.Forest, p: nat)
    requires Related(s, f) && p < MAX_TASKS && p in f.ran && ShowsScreen(s, p)
    ensures p == s.curTask && f.screen
  {
    LargeEntriesDiffer();
  }

  lemma LargeEntriesDiffer()
    ensures VideoEntry != GarbageEntry
  {
  }

  /** The running task's window is right: it is the real screen exactly when the task's terminal is the one
      on display. */
  ghost predicate WindowRight(s: State)
    requires Shape(s) && s.curTask >= 0
  {
    ShowsScreen(s, s.curTask) <==> s.shown == s.curPtree
  }

  /** Before the first tick the idle task is current and its window is real; from then on `screen` decides. */
  lemma CurrentScreen(s: State, f: F.Forest)
    requires Shape(s) && F.Shape(f) && Chains(s, f) && Scheduled(s, f) && Mapped(s, f)
    ensures 0 <= s.curTask < MAX_TASKS && (ShowsScreen(s, s.curTask) <==> !f.started || f.screen)
  {
    LargeEntriesDiffer();
    CurPositive(s, f);
    if f.started {
      TopTask(s, f, f.turn);
    }
  }

  /** What each step does to the running task's view of the screen.  After a tick it is real exactly when the
      task's terminal is on display or the task has never run before; after a start, and after the end of
      a program, it is real whatever is on display; the other steps leave it as it was. */
  lemma ScreenAfter(s: State, f: F.Forest, st: Step)
    requires Related(s, f) && Enabled(s, st)
    ensures s.curTask >= 0 && Safe(s, st) && Apply(s, st).curTask >= 0
    ensures var r := Apply(s, st);
            ShowsScreen(r, r.curTask) <==>
              match st
              case Tick => s.shown == (s.curPtree + 1) % 3 || r.curTask !in f.ran
              case Execute => true
              case Halt => s.curTask !in {1, 2, 3} || ShowsScreen(s, s.curTask)
              case _ => ShowsScreen(s, s.curTask)
  {
    hide Chains, Waiting, Counted, Mapped;
    StepKeeps(s, f, st);
    CurPositive(s, f);
    ShellIsRoot(s, f);
    CurrentScreen(s, f);
    CurrentScreen(Apply(s, st), Grow(f, st, Child(s, st)));
    TickRuns(s, f, st);
  }

  /** After a tick the top of the next tree runs. */
  lemma TickRuns(s: State, f: F.Forest, st: Step)
    requires Shape(s) && F.Shape(f) && Chains(s, f) && Scheduled(s, f) && Safe(s, st)
    ensures st.Tick? ==> Apply(s, st).curTask == F.Top(f, (f.turn + 1) % 3)
    ensures st.Show? ==> Apply(s, st).curTask == s.curTask
    ensures !st.Tick? && f.started ==> Grow(f, st, Child(s, st)).started
  {
    if st.Tick? {
      var n, pid := TickIs(s, f);
    }
  }

  /** When the window is right after a step: after a tick, a start or the end of a program under the
      conditions given, after a display switch if it was wrong for the terminal left or right for the one
      shown now, and else when it was right before. */
  lemma RightAfter(s: State, f: F.Forest, st: Step)
    requires Related(s, f) && Enabled(s, st)
    ensures s.curTask >= 0 && Safe(s, st) && Apply(s, st).curTask >= 0
    ensures var r := Apply(s, st);
            WindowRight(r) <==>
              match st
              case Tick => s.shown == r.curPtree || r.curTask in f.ran
              case Execute => s.shown == s.curPtree
              case Halt => if s.curTask in {1, 2, 3} then WindowRight(s) else s.shown == s.curPtree
              case Create(_) => WindowRight(s)
              case Show(_) => ShowsScreen(s, s.curTask) <==> r.shown == s.curPtree
  {
    ScreenAfter(s, f, st);
    TurnAfter(s, f, st);
  }

  lemma TurnAfter(s: State, f: F.Forest, st: Step)
    requires Related(s, f) && Enabled(s, st)
    ensures Safe(s, st) && Apply(s, st).curPtree == if st.Tick? then (s.curPtree + 1) % 3 else s.curPtree
    ensures !st.Show? ==> Apply(s, st).shown == s.shown
  {
    StepKeeps(s, f, st);
    GrowTurn(f, st, Child(s, st));
    assert Scheduled(Apply(s, st), Grow(f, st, Child(s, st)));
  }

  /** The windows do not follow the display exactly: on the very first tick a shell whose terminal is
      hidden runs with real video memory in its window. */
  lemma HiddenShellShowsScreen(s: State)
    requires Fresh(s)
    ensures TasksInit(s).Some? && Safe(TasksInit(s).value, Tick)
    ensures var r := Apply(TasksInit(s).value, Tick);
            r.curTask == 2 && r.curPtree == 1 && r.shown == 0 && ShowsScreen(r, 2)
  {
    BootRelated(s);
    ScreenAfter(TasksInit(s).value, BootForest, Tick);
    TickRuns(TasksInit(s).value, BootForest, Tick);
    TurnAfter(TasksInit(s).value, BootForest, Tick);
  }
}
