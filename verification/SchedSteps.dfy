/** Every atomic step keeps the scheduler's state related to the forest it implements. */
module SchedSteps {
  import opened Bitmap
  import opened Paging
  import opened SchedModel
  import opened SchedInvariant
  import F = Forest

  // ----- parts a step does not touch -----

  lemma ChainsSame(s: State, r: State, f: F.Forest, g: F.Forest)
    requires Shape(s) && Shape(r) && F.Shape(f) && F.Shape(g) && Chains(s, f)
    requires r.tasks == s.tasks && g.stacks == f.stacks
    ensures Chains(r, g)
  {
  }

  lemma WaitingSame(s: State, r: State, f: F.Forest, g: F.Forest)
    requires Shape(s) && Shape(r) && F.Shape(f) && F.Shape(g) && Chains(s, f) && Chains(r, g) && Waiting(s, f)
    requires r.tasks == s.tasks && r.pending == s.pending && g.stacks == f.stacks && g.pending == f.pending
    ensures Waiting(r, g)
  {
    forall t | 0 <= t < 3 ensures F.Top(g, t) == F.Top(f, t) {}
    forall t | 0 <= t < 3 && g.pending[t] != -1 ensures !OnStack(g, g.pending[t]) {
      assert !OnStack(f, f.pending[t]);
    }
  }

  lemma AliveSame(f: F.Forest, g: F.Forest, p: int)
    requires F.Shape(f) && F.Shape(g) && g.stacks == f.stacks && g.pending == f.pending
    ensures Alive(g, p) <==> Alive(f, p)
  {
  }

  lemma CountedSame(s: State, r: State, f: F.Forest, g: F.Forest)
    requires Shape(s) && Shape(r) && F.Shape(f) && F.Shape(g) && Counted(s, f)
    requires g.stacks == f.stacks && g.pending == f.pending
    requires r.taskVector == s.taskVector && r.numTasks == s.numTasks
    ensures Counted(r, g)
  {
    forall p ensures Alive(g, p) <==> Alive(f, p) {
      AliveSame(f, g, p);
    }
  }

  lemma ShowKeeps(s: State, f: F.Forest, term: int)
    requires Related(s, f)
    ensures Related(Apply(s, Show(term)), Grow(f, Show(term), -1))
  {
    hide Chains, Waiting, Counted, Mapped;
    var r, g := Apply(s, Show(term)), Grow(f, Show(term), -1);
    ChainsSame(s, r, f, g);
    WaitingSame(s, r, f, g);
    CountedSame(s, r, f, g);
    ShowMaps(s, r, f, g);
    assert Scheduled(r, g) by {
      assert forall t :: 0 <= t < 3 ==> F.Top(g, t) == F.Top(f, t);
    }
  }

  lemma ShowMaps(s: State, r: State, f: F.Forest, g: F.Forest)
    requires Shape(s) && Shape(r) && F.Shape(f) && F.Shape(g) && Mapped(s, f)
    requires r.spaces == s.spaces && r.pd == s.pd && r.cr3 == s.cr3 && r.curTask == s.curTask
    requires g == f.(shown := g.shown)
    ensures Mapped(r, g)
  {
    forall p ensures OnStack(g, p) <==> OnStack(f, p) {}
    forall p ensures Alive(g, p) <==> Alive(f, p) {
      AliveSame(f, g, p);
    }
  }

  // ----- timer tick -----

  lemma TickIs(s: State, f: F.Forest) returns (n: nat, pid: nat)
    requires Shape(s) && F.Shape(f) && Chains(s, f) && Scheduled(s, f)
    ensures n == (f.turn + 1) % 3 && Grow(f, Tick, -1) == Dispatched(f, n)
    ensures pid == F.Top(f, n) && 0 < pid < MAX_TASKS && OnStack(f, pid) && s.tasks[pid].ptid == n
    ensures Safe(s, Tick) && Apply(s, Tick) == SwitchTask(s, pid)
  {
    hide Apply, SwitchTask, Safe, Chains;
    n := (f.turn + 1) % 3;
    TopTask(s, f, n);
    pid := F.Top(f, n);
    ApplyTick(s, n, pid);
  }

  lemma TickKeeps(s: State, f: F.Forest)
    requires Related(s, f) && Enabled(s, Tick)
    ensures Safe(s, Tick) && Related(Apply(s, Tick), Grow(f, Tick, -1))
  {
    var n, pid := TickIs(s, f);
    SwitchKeeps(s, f, n, pid);
  }

  lemma SwitchKeeps(s: State, f: F.Forest, n: nat, pid: nat)
    requires Related(s, f) && n == (f.turn + 1) % 3 && pid == F.Top(f, n) && 0 < pid < MAX_TASKS
    requires s.tasks[pid].ptid == n && OnStack(f, pid)
    ensures Related(SwitchTask(s, pid), Dispatched(f, n))
  {
    hide Chains, Waiting, Counted, Mapped;
    var g := Dispatched(f, n);
    var r := SwitchTask(s, pid);
    ChainsSame(s, r, f, g);
    WaitingSame(s, r, f, g);
    CountedSame(s, r, f, g);
    TickSchedules(s, f, n, pid);
    CurPositive(s, f);
    OtherTops(s, f);
    TickMaps(s, f, n, pid);
  }

  lemma CurPositive(s: State, f: F.Forest)
    requires Shape(s) && F.Shape(f) && Chains(s, f) && Scheduled(s, f)
    ensures f.started <==> s.curTask > 0
    ensures s.curTask < MAX_TASKS && s.curTask >= 0
  {
    assert F.Top(f, f.turn) == f.stacks[f.turn][|f.stacks[f.turn]| - 1];
  }

  lemma TickSchedules(s: State, f: F.Forest, n: nat, pid: nat)
    requires Shape(s) && F.Shape(f) && Scheduled(s, f)
    requires n < 3 && pid == F.Top(f, n) && pid < MAX_TASKS && s.tasks[pid].ptid == n
    ensures Scheduled(SwitchTask(s, pid), Dispatched(f, n))
  {
    forall t | 0 <= t < 3 ensures F.Top(Dispatched(f, n), t) == F.Top(f, t) {}
  }

  /** The video windows after a switch. */
  lemma SwitchSpaces(s: State, pid: nat, p: nat)
    requires Shape(s) && pid < MAX_TASKS && p < MAX_TASKS && s.pd == s.cr3 && SpaceOk(s.spaces[p], p)
    ensures SpaceOk(SwitchTask(s, pid).spaces[p], p)
    ensures Window(SwitchTask(s, pid).spaces[p]) ==
            if p == pid && s.tasks[pid].ptid == s.shown then VideoEntry
            else if p == s.cr3 then GarbageEntry
            else Window(s.spaces[p])
  {
    SpaceOkKept(s.spaces[p], p, 0);
    SpaceOkKept(MapLarge(s.spaces[p], GARBAGE_VID_MEM, VIRTUAL_VID_MEM, true), p, 0);
  }

  lemma TickMaps(s: State, f: F.Forest, n: nat, pid: nat)
    requires Shape(s) && F.Shape(f) && Chains(s, f) && Mapped(s, f) && s.shown == f.shown
    requires n < 3 && pid == F.Top(f, n) && pid < MAX_TASKS && OnStack(f, pid) && s.tasks[pid].ptid == n
    requires f.started ==> 0 < s.curTask != pid
    requires !f.started ==> s.curTask == 0
    ensures Mapped(SwitchTask(s, pid), Dispatched(f, n))
  {
    var g := Dispatched(f, n);
    var r := SwitchTask(s, pid);
    forall p ensures OnStack(g, p) <==> OnStack(f, p) {}
    forall p: nat | p < MAX_TASKS && Alive(g, p)
      ensures SpaceOk(r.spaces[p], p) && Window(r.spaces[p]) == WindowOf(g, r.curTask, p)
    {
      AliveSame(f, g, p);
      SwitchSpaces(s, pid, p);
    }
  }

  // ----- starting a program -----

  lemma OnStackPush(f: F.Forest, g: F.Forest, t: nat, c: int, p: int)
    requires F.Shape(f) && t < 3 && g.stacks == f.stacks[t := f.stacks[t] + [c]]
    ensures OnStack(g, p) <==> OnStack(f, p) || p == c
  {
    if t == 0 {
      assert p in g.stacks[0] <==> p in f.stacks[0] || p == c;
    } else if t == 1 {
      assert p in g.stacks[1] <==> p in f.stacks[1] || p == c;
    } else {
      assert p in g.stacks[2] <==> p in f.stacks[2] || p == c;
    }
  }

  ghost predicate Starting(s: State, f: F.Forest, c: nat) {
    && Shape(s) && F.Shape(f) && Chains(s, f)
    && 0 < c < MAX_TASKS && !OnStack(f, c) && c == f.pending[f.turn]
    && s.tasks[c] == Task(F.Top(f, f.turn), f.turn)
  }

  lemma StartPlace(s: State, f: F.Forest, g: F.Forest, c: nat, t: nat, k: nat)
    requires Starting(s, f, c) && t < 3
    requires F.Shape(g) && g.stacks == f.stacks[f.turn := f.stacks[f.turn] + [c]] && k < |g.stacks[t]|
    ensures 0 < g.stacks[t][k] < MAX_TASKS && s.tasks[g.stacks[t][k]] == Task(Under(g.stacks[t], k), t)
  {
    if k < |f.stacks[t]| {
      assert g.stacks[t][k] == f.stacks[t][k] && Under(g.stacks[t], k) == Under(f.stacks[t], k);
    }
  }

  lemma StartTops(f: F.Forest, g: F.Forest, c: nat)
    requires F.Shape(f) && F.Shape(g) && g.stacks == f.stacks[f.turn := f.stacks[f.turn] + [c]]
    ensures F.Top(g, f.turn) == c
    ensures forall t :: 0 <= t < 3 && t != f.turn ==> F.Top(g, t) == F.Top(f, t)
    ensures forall t :: 0 <= t < 3 ==> g.stacks[t][0] == f.stacks[t][0]
  {
  }

  lemma StartChains(s: State, r: State, f: F.Forest, g: F.Forest, c: nat)
    requires Starting(s, f, c) && Shape(r) && r.tasks == s.tasks
    requires F.Shape(g) && g.stacks == f.stacks[f.turn := f.stacks[f.turn] + [c]]
    ensures Chains(r, g)
  {
    forall t, k | 0 <= t < 3 && 0 <= k < |g.stacks[t]|
      ensures 0 < g.stacks[t][k] < MAX_TASKS && r.tasks[g.stacks[t][k]] == Task(Under(g.stacks[t], k), t)
    {
      StartPlace(s, f, g, c, t, k);
    }
    StartTops(f, g, c);
  }

  /** The tasks on top of different stacks differ. */
  lemma OtherTops(s: State, f: F.Forest)
    requires Shape(s) && F.Shape(f) && Chains(s, f)
    ensures forall t :: 0 <= t < 3 && t != f.turn ==> F.Top(f, t) != F.Top(f, f.turn)
  {
    TopTask(s, f, f.turn);
    forall t | 0 <= t < 3 && t != f.turn ensures F.Top(f, t) != F.Top(f, f.turn) {
      TopTask(s, f, t);
    }
  }

  lemma SameTops(f: F.Forest, g: F.Forest)
    requires F.Shape(f) && F.Shape(g) && g.stacks == f.stacks
    ensures forall t :: 0 <= t < 3 ==> F.Top(g, t) == F.Top(f, t)
    ensures forall p :: IsTop(g, p) <==> IsTop(f, p)
    ensures forall p :: OnStack(g, p) <==> OnStack(f, p)
  {
  }

  /** A program that has not started has created nothing. */
  lemma NotTop(s: State, f: F.Forest, c: nat)
    requires Shape(s) && F.Shape(f) && Chains(s, f) && Waiting(s, f) && c < MAX_TASKS && !OnStack(f, c)
    ensures s.pending[c] == -1
  {
    TopTask(s, f, 0);
    TopTask(s, f, 1);
    TopTask(s, f, 2);
  }

  lemma StartWaits(s: State, f: F.Forest, g: F.Forest, c: nat, r: State)
    requires Starting(s, f, c) && Waiting(s, f) && F.Shape(g) && Shape(r) && Chains(r, g)
    requires g.stacks == f.stacks[f.turn := f.stacks[f.turn] + [c]] && g.pending == f.pending[f.turn := -1]
    requires F.Top(g, f.turn) == c && forall t :: 0 <= t < 3 && t != f.turn ==> F.Top(g, t) == F.Top(f, t)
    requires 0 <= F.Top(f, f.turn) < MAX_TASKS
    requires r.tasks == s.tasks && r.pending == s.pending[F.Top(f, f.turn) := -1]
    ensures Waiting(r, g)
  {
    NotTop(s, f, c);
    OtherTops(s, f);
    forall t | 0 <= t < 3 && g.pending[t] != -1
      ensures !OnStack(g, g.pending[t])
    {
      OnStackPush(f, g, f.turn, c, g.pending[t]);
      assert s.tasks[f.pending[t]].ptid == t;
    }
    forall p | 0 <= p < MAX_TASKS && r.pending[p] != -1 ensures IsTop(g, p) {
      assert s.pending[p] != -1;
    }
  }

  lemma StartAlive(f: F.Forest, g: F.Forest, c: nat, p: int)
    requires F.Shape(f) && F.Shape(g) && c == f.pending[f.turn] && p >= 0
    requires g.stacks == f.stacks[f.turn := f.stacks[f.turn] + [c]] && g.pending == f.pending[f.turn := -1]
    ensures Alive(g, p) <==> Alive(f, p)
  {
    OnStackPush(f, g, f.turn, c, p);
    if p in f.pending && p != c {
      var t :| 0 <= t < 3 && f.pending[t] == p;
      assert g.pending[t] == p;
    }
  }

  lemma StartRan(f: F.Forest, g: F.Forest, c: nat)
    requires F.Shape(f) && F.Shape(g) && c == f.pending[f.turn] && F.Top(f, f.turn) in f.ran
    requires g.stacks == f.stacks[f.turn := f.stacks[f.turn] + [c]] && g.ran == f.ran + {c}
    requires forall p :: p in f.ran ==> OnStack(f, p)
    requires forall t, k :: 0 <= t < 3 && 0 <= k < |f.stacks[t]| && |f.stacks[t]| > 1 ==> f.stacks[t][k] in f.ran
    ensures forall p :: p in g.ran ==> OnStack(g, p)
    ensures forall t, k :: 0 <= t < 3 && 0 <= k < |g.stacks[t]| && |g.stacks[t]| > 1 ==> g.stacks[t][k] in g.ran
  {
    forall p | p in g.ran ensures OnStack(g, p) {
      OnStackPush(f, g, f.turn, c, p);
    }
    forall t, k | 0 <= t < 3 && 0 <= k < |g.stacks[t]| && |g.stacks[t]| > 1 ensures g.stacks[t][k] in g.ran {
      if k < |f.stacks[t]| {
        assert g.stacks[t][k] == f.stacks[t][k];
      }
    }
  }

  lemma StartMaps(s: State, f: F.Forest, g: F.Forest, c: nat)
    requires Starting(s, f, c) && Mapped(s, f) && f.started && F.Shape(g)
    requires s.curTask == F.Top(f, f.turn)
    requires g == Started(f, c)
    ensures Mapped(ExecuteTask(s, c), g)
  {
    var r := ExecuteTask(s, c);
    forall p: nat | p < MAX_TASKS && Alive(g, p)
      ensures SpaceOk(r.spaces[p], p) && Window(r.spaces[p]) == WindowOf(g, c, p)
    {
      StartAlive(f, g, c, p);
      SpaceOkKept(s.spaces[p], p, 0);
    }
    StartRan(f, g, c);
  }

  lemma ExecuteKeeps(s: State, f: F.Forest)
    requires Related(s, f) && Enabled(s, Execute)
    ensures Safe(s, Execute) && Related(Apply(s, Execute), Grow(f, Execute, -1))
  {
    CurPositive(s, f);
    var c := f.pending[f.turn];
    assert s.pending[s.curTask] == c;
    assert Starting(s, f, c);
    StartKeeps(s, f, c);
  }

  lemma StartSchedules(s: State, f: F.Forest, g: F.Forest, c: nat)
    requires Starting(s, f, c) && Scheduled(s, f) && f.started && F.Shape(g)
    requires g == Started(f, c)
    ensures Scheduled(ExecuteTask(s, c), g)
  {
    StartTops(f, g, c);
  }

  lemma StartCounts(s: State, r: State, f: F.Forest, g: F.Forest, c: nat)
    requires Starting(s, f, c) && Counted(s, f) && F.Shape(g) && Shape(r)
    requires g.stacks == f.stacks[f.turn := f.stacks[f.turn] + [c]] && g.pending == f.pending[f.turn := -1]
    requires r.taskVector == s.taskVector && r.numTasks == s.numTasks
    ensures Counted(r, g)
  {
    forall p | 0 <= p < MAX_TASKS ensures Alive(g, p) <==> Alive(f, p) {
      StartAlive(f, g, c, p);
    }
  }

  lemma StartKeeps(s: State, f: F.Forest, c: nat)
    requires Related(s, f) && Starting(s, f, c) && f.started
    requires 0 < s.curTask < MAX_TASKS && s.curTask == F.Top(f, f.turn)
    ensures Related(ExecuteTask(s.(pending := s.pending[s.curTask := -1]), c), Grow(f, Execute, -1))
  {
    var s' := s.(pending := s.pending[s.curTask := -1]);
    var r := ExecuteTask(s', c);
    var g := Started(f, c);
    assert g == Grow(f, Execute, -1);
    StartTops(f, g, c);
    StartChains(s, r, f, g, c);
    StartWaits(s, f, g, c, r);
    StartCounts(s, r, f, g, c);
    assert Starting(s', f, c) && Mapped(s', f);
    StartMaps(s', f, g, c);
    StartSchedules(s', f, g, c);
  }

  // ----- ending a program -----

  /** What holds when the running program of a tree is not the tree's shell. */
  ghost predicate Ending(s: State, f: F.Forest, c: nat, parent: nat) {
    && Shape(s) && F.Shape(f) && Chains(s, f) && |f.stacks[f.turn]| > 1
    && 0 < c < MAX_TASKS && c == F.Top(f, f.turn)
    && 0 < parent < MAX_TASKS && parent == f.stacks[f.turn][|f.stacks[f.turn]| - 2] && parent != c
    && s.tasks[c].parent == parent && s.tasks[c].ptid == f.turn && s.tasks[parent].ptid == f.turn
  }

  lemma TopLink(s: State, f: F.Forest, t: nat)
    requires Shape(s) && F.Shape(f) && Chains(s, f) && t < 3 && |f.stacks[t]| > 1
    ensures var n := |f.stacks[t]|; var parent := f.stacks[t][n - 2];
            && F.Top(f, t) == f.stacks[t][n - 1] && 0 < F.Top(f, t) < MAX_TASKS && 0 < parent < MAX_TASKS
            && s.tasks[F.Top(f, t)] == Task(parent, t) && s.tasks[parent].ptid == t && parent != F.Top(f, t)
  {
    var n := |f.stacks[t]|;
    Acyclic(s, f, t, n - 2, n - 1);
    assert Under(f.stacks[t], n - 1) == f.stacks[t][n - 2];
    assert s.tasks[f.stacks[t][n - 1]] == Task(Under(f.stacks[t], n - 1), t);
    assert s.tasks[f.stacks[t][n - 2]].ptid == t;
  }

  lemma EndingHolds(s: State, f: F.Forest) returns (parent: nat)
    requires Shape(s) && F.Shape(f) && Chains(s, f) && |f.stacks[f.turn]| > 1
    ensures F.Top(f, f.turn) > 0 && Ending(s, f, F.Top(f, f.turn), parent)
  {
    TopLink(s, f, f.turn);
    parent := f.stacks[f.turn][|f.stacks[f.turn]| - 2];
  }

  /** A program in {1, 2, 3} is running exactly when the stack holds only the shell. */
  lemma ShellIsRoot(s: State, f: F.Forest)
    requires Shape(s) && F.Shape(f) && Chains(s, f)
    ensures F.Top(f, f.turn) in {1, 2, 3} <==> |f.stacks[f.turn]| == 1
  {
    RootParent(s, f, 0);
    RootParent(s, f, 1);
    RootParent(s, f, 2);
    var top := |f.stacks[f.turn]| - 1;
    assert s.tasks[f.stacks[f.turn][top]].parent == Under(f.stacks[f.turn], top);
    assert top > 0 ==> f.stacks[f.turn][top - 1] > 0;
  }

  lemma RootParent(s: State, f: F.Forest, u: nat)
    requires Shape(s) && F.Shape(f) && Chains(s, f) && u < 3
    ensures s.tasks[u + 1].parent == 0
  {
    assert s.tasks[f.stacks[u][0]].parent == Under(f.stacks[u], 0);
  }

  lemma EndTops(s: State, f: F.Forest, g: F.Forest, c: nat, parent: nat)
    requires Ending(s, f, c, parent) && g == Popped(f)
    ensures F.Top(g, f.turn) == parent
    ensures forall t :: 0 <= t < 3 && t != f.turn ==> F.Top(g, t) == F.Top(f, t)
    ensures forall t :: 0 <= t < 3 ==> g.stacks[t] <= f.stacks[t]
    ensures forall t :: 0 <= t < 3 && |g.stacks[t]| > 1 ==> |f.stacks[t]| > 1
  {
    PoppedTops(f, g);
  }

  lemma PoppedTops(f: F.Forest, g: F.Forest)
    requires F.Shape(f) && |f.stacks[f.turn]| > 1 && g == Popped(f)
    ensures F.Top(g, f.turn) == f.stacks[f.turn][|f.stacks[f.turn]| - 2]
    ensures forall t :: 0 <= t < 3 && t != f.turn ==> F.Top(g, t) == F.Top(f, t)
    ensures forall t :: 0 <= t < 3 ==> g.stacks[t] <= f.stacks[t]
    ensures forall t :: 0 <= t < 3 && |g.stacks[t]| > 1 ==> |f.stacks[t]| > 1
  {
  }

  lemma EndOnStack(s: State, f: F.Forest, g: F.Forest, c: nat, parent: nat, p: int)
    requires Ending(s, f, c, parent) && g == Popped(f)
    ensures OnStack(g, p) <==> OnStack(f, p) && p != c
  {
    var n := |f.stacks[f.turn]|;
    assert f.stacks[f.turn] == f.stacks[f.turn][..n - 1] + [c];
    assert f.stacks == g.stacks[f.turn := g.stacks[f.turn] + [c]];
    OnStackPush(g, f, f.turn, c, p);
    EndGone(s, f, g, c, parent);
  }

  lemma EndPlace(s: State, f: F.Forest, c: nat, parent: nat, u: nat, j: nat)
    requires Ending(s, f, c, parent) && u < 3 && j < |f.stacks[u]| && (u == f.turn ==> j < |f.stacks[u]| - 1)
    ensures f.stacks[u][j] != c
  {
    if u == f.turn {
      Acyclic(s, f, u, j, |f.stacks[u]| - 1);
    } else {
      assert s.tasks[f.stacks[u][j]].ptid == u;
    }
  }

  lemma EndGone(s: State, f: F.Forest, g: F.Forest, c: nat, parent: nat)
    requires Ending(s, f, c, parent) && g == Popped(f)
    ensures OnStack(f, c) && !OnStack(g, c)
  {
    assert c == f.stacks[f.turn][|f.stacks[f.turn]| - 1];
    assert c in f.stacks[f.turn];
    forall u, j | 0 <= u < 3 && 0 <= j < |g.stacks[u]| ensures g.stacks[u][j] != c {
      EndPlace(s, f, c, parent, u, j);
    }
  }

  lemma EndChains(s: State, r: State, f: F.Forest, g: F.Forest, c: nat, parent: nat)
    requires Ending(s, f, c, parent) && g == Popped(f) && Shape(r) && r.tasks == s.tasks
    ensures Chains(r, g)
  {
    EndTops(s, f, g, c, parent);
    forall t, k | 0 <= t < 3 && 0 <= k < |g.stacks[t]|
      ensures 0 < g.stacks[t][k] < MAX_TASKS && r.tasks[g.stacks[t][k]] == Task(Under(g.stacks[t], k), t)
    {
      assert g.stacks[t][k] == f.stacks[t][k] && Under(g.stacks[t], k) == Under(f.stacks[t], k);
    }
    forall t | 0 <= t < 3 ensures g.stacks[t][0] == t + 1 {
      assert g.stacks[t][0] == f.stacks[t][0];
    }
  }

  /** A task that waits for its child has no other program pending. */
  lemma ParentNotTop(s: State, f: F.Forest, c: nat, parent: nat)
    requires Ending(s, f, c, parent) && Waiting(s, f)
    ensures s.pending[parent] == -1
  {
    forall t | 0 <= t < 3 ensures F.Top(f, t) != parent {
      TopTask(s, f, t);
    }
  }

  lemma EndWaits(s: State, r: State, f: F.Forest, g: F.Forest, c: nat, parent: nat)
    requires Ending(s, f, c, parent) && g == Popped(f) && Waiting(s, f) && s.pending[c] == -1
    requires Shape(r) && r.tasks == s.tasks && r.pending == s.pending && Chains(r, g)
    ensures Waiting(r, g)
  {
    EndTops(s, f, g, c, parent);
    ParentNotTop(s, f, c, parent);
    forall t | 0 <= t < 3 && g.pending[t] != -1 ensures !OnStack(g, g.pending[t]) {
      EndOnStack(s, f, g, c, parent, g.pending[t]);
    }
    forall p | 0 <= p < MAX_TASKS && r.pending[p] != -1 ensures IsTop(g, p) {
      assert IsTop(f, p);
    }
  }

  lemma EndCounts(s: State, r: State, f: F.Forest, g: F.Forest, c: nat, parent: nat)
    requires Ending(s, f, c, parent) && g == Popped(f) && Waiting(s, f) && Counted(s, f)
    requires Shape(r) && r.taskVector == ClearBit(s.taskVector, c) && r.numTasks == s.numTasks - 1
    ensures Counted(r, g)
    ensures forall p :: 0 <= p < MAX_TASKS ==> (Alive(g, p) <==> Alive(f, p) && p != c)
  {
    TopTask(s, f, f.turn);
    assert c !in f.pending;
    forall p | 0 <= p < MAX_TASKS ensures Alive(g, p) <==> Alive(f, p) && p != c {
      EndOnStack(s, f, g, c, parent, p);
    }
    forall p: nat ensures Bit(r.taskVector, p) <==> p != c && Bit(s.taskVector, p) {
      ClearBitAt(s.taskVector, c, p);
    }
    CountClear(s.taskVector, c);
  }

  lemma EndSpaces(s: State, c: nat, parent: nat, p: nat)
    requires Shape(s) && c < MAX_TASKS && parent < MAX_TASKS && c != parent && p < MAX_TASKS
    requires s.tasks[c].parent == parent && 0 <= s.tasks[parent].ptid < 32
    requires SpaceOk(s.spaces[p], p)
    ensures SpaceOk(EndTask(s, c).spaces[p], p)
    ensures Window(EndTask(s, c).spaces[p]) == if p == parent then VideoEntry else Window(s.spaces[p])
  {
    SpaceOkKept(s.spaces[p], p, c);
    SpaceOkKept(MapLarge(s.spaces[p], VIDEO, VIRTUAL_VID_MEM, true), p, c);
  }

  lemma EndMaps(s: State, f: F.Forest, g: F.Forest, c: nat, parent: nat)
    requires Ending(s, f, c, parent) && g == Popped(f) && Mapped(s, f) && f.started && s.curTask == c
    requires forall p :: 0 <= p < MAX_TASKS ==> (Alive(g, p) <==> Alive(f, p) && p != c)
    ensures Mapped(EndTask(s, c), g)
  {
    var r := EndTask(s, c);
    EndTops(s, f, g, c, parent);
    forall p: nat | p < MAX_TASKS && Alive(g, p)
      ensures SpaceOk(r.spaces[p], p) && Window(r.spaces[p]) == WindowOf(g, parent, p)
    {
      EndSpaces(s, c, parent, p);
      assert parent in f.ran;
    }
    forall p | p in g.ran ensures OnStack(g, p) {
      EndOnStack(s, f, g, c, parent, p);
    }
    forall t, k | 0 <= t < 3 && 0 <= k < |g.stacks[t]| && |g.stacks[t]| > 1 ensures g.stacks[t][k] in g.ran {
      assert g.stacks[t][k] == f.stacks[t][k];
      EndOnStack(s, f, g, c, parent, g.stacks[t][k]);
      assert g.stacks[t][k] in g.stacks[t];
    }
  }

  lemma EndSchedules(s: State, f: F.Forest, g: F.Forest, c: nat, parent: nat)
    requires Ending(s, f, c, parent) && g == Popped(f) && Scheduled(s, f) && f.started
    ensures Scheduled(EndTask(s, c), g)
  {
    EndTops(s, f, g, c, parent);
  }

  lemma EndKeeps(s: State, f: F.Forest, g: F.Forest, c: nat, parent: nat)
    requires Related(s, f) && Ending(s, f, c, parent) && f.started && s.pending[c] == -1 && g == Popped(f)
    ensures Related(EndTask(s, c), g)
  {
    var r := EndTask(s, c);
    EndChains(s, r, f, g, c, parent);
    EndWaits(s, r, f, g, c, parent);
    EndCounts(s, r, f, g, c, parent);
    EndMaps(s, f, g, c, parent);
    EndSchedules(s, f, g, c, parent);
  }

  lemma ApplyHalt(s: State, f: F.Forest)
    requires Shape(s) && F.Shape(f) && Safe(s, Halt)
    ensures Apply(s, Halt) == if s.curTask in {1, 2, 3} then s else EndTask(s, s.curTask)
    ensures |f.stacks[f.turn]| == 1 ==> Grow(f, Halt, -1) == f
    ensures |f.stacks[f.turn]| > 1 ==> Grow(f, Halt, -1) == Popped(f)
  {
  }

  lemma HaltKeeps(s: State, f: F.Forest)
    requires Related(s, f) && Enabled(s, Halt)
    ensures Safe(s, Halt) && Related(Apply(s, Halt), Grow(f, Halt, -1))
  {
    CurPositive(s, f);
    ShellIsRoot(s, f);
    HaltIsSafe(s, f);
    ApplyHalt(s, f);
    if |f.stacks[f.turn]| > 1 {
      var parent := EndingHolds(s, f);
      EndKeeps(s, f, Grow(f, Halt, -1), s.curTask, parent);
    }
  }

  // ----- creating a program -----

  /** A pid that is not alive appears nowhere in the forest. */
  lemma Unused(f: F.Forest, c: nat)
    requires F.Shape(f) && !Alive(f, c)
    ensures c > 0 && !OnStack(f, c)
    ensures forall t, k :: 0 <= t < 3 && 0 <= k < |f.stacks[t]| ==> f.stacks[t][k] != c
    ensures forall t :: 0 <= t < 3 ==> f.pending[t] != c
  {
    forall t, k | 0 <= t < 3 && 0 <= k < |f.stacks[t]| ensures f.stacks[t][k] != c {
      assert f.stacks[t][k] in f.stacks[t];
    }
  }

  /** A failed attempt gives the pid back. */
  lemma SetThenClear(v: nat, c: nat)
    requires !Bit(v, c)
    ensures ClearBit(SetBit(v, c), c) == v
  {
    forall i: nat ensures Bit(ClearBit(SetBit(v, c), c), i) <==> Bit(v, i) {
      ClearBitAt(SetBit(v, c), c, i);
      SetBitAt(v, c, i);
    }
    SameBits(ClearBit(SetBit(v, c), c), v);
  }

  ghost predicate Creating(s: State, f: F.Forest, c: nat) {
    && Shape(s) && F.Shape(f) && Chains(s, f)
    && c < MAX_TASKS && !Alive(f, c) && s.curTask == F.Top(f, f.turn)
    && 0 < s.curTask < MAX_TASKS && s.curTask != c && s.tasks[s.curTask].ptid == f.turn
  }

  /** What the attempt changes besides the bitmap and the count, whether or not the program loads. */
  ghost predicate Created(s: State, r: State, c: nat)
    requires Shape(s) && c < MAX_TASKS && 0 <= s.curTask < MAX_TASKS
  {
    && Shape(r)
    && r.tasks == s.tasks[c := Task(s.curTask, s.tasks[s.curTask].ptid)]
    && r.spaces == s.spaces[s.cr3 := MapLarge(s.spaces[s.cr3], TaskAddr(c), TaskAddr(c), true)]
                           [c := InitSpace(s.spaces[c], c)]
    && r.pd == s.cr3 && r.cr3 == s.cr3 && r.curTask == s.curTask && r.curPtree == s.curPtree
    && r.ptreeTasks == s.ptreeTasks && r.ptreeVector == s.ptreeVector && r.numPtrees == s.numPtrees
    && r.shown == s.shown
  }

  lemma CreateEffect(s: State, loads: bool)
    requires Shape(s) && 0 <= s.curTask < MAX_TASKS && LeastClear(s.taskVector, MAX_TASKS) >= 0
    requires s.cr3 != LeastClear(s.taskVector, MAX_TASKS) && s.curTask != LeastClear(s.taskVector, MAX_TASKS)
    ensures var c := LeastClear(s.taskVector, MAX_TASKS); var r := CreateTask(s, loads);
            && Created(s, r.0, c) && r.0.pending == s.pending && r.1 == (if loads then c else -1)
            && r.0.taskVector == (if loads then SetBit(s.taskVector, c) else s.taskVector)
            && r.0.numTasks == s.numTasks + (if loads then 1 else 0)
  {
    SetThenClear(s.taskVector, LeastClear(s.taskVector, MAX_TASKS));
  }

  lemma CreateChains(s: State, r: State, f: F.Forest, g: F.Forest, c: nat)
    requires Creating(s, f, c) && Created(s, r, c) && F.Shape(g) && g.stacks == f.stacks
    ensures Chains(r, g)
  {
    Unused(f, c);
  }

  lemma CreateWaits(s: State, r: State, f: F.Forest, g: F.Forest, c: nat, child: int)
    requires Creating(s, f, c) && Created(s, r, c) && Waiting(s, f) && (child == c || child == -1)
    requires F.Shape(g) && g.stacks == f.stacks && g.pending == f.pending[f.turn := child] && Chains(r, g)
    requires r.pending == s.pending[s.curTask := child]
    ensures Waiting(r, g)
  {
    hide Chains;
    Unused(f, c);
    OtherTops(s, f);
    SameTops(f, g);
    TopTask(s, f, 0);
    TopTask(s, f, 1);
    TopTask(s, f, 2);
    forall p | 0 <= p < MAX_TASKS && r.pending[p] != -1 ensures IsTop(g, p) {
      assert p == s.curTask || IsTop(f, p);
    }
  }

  lemma CreateAlive(f: F.Forest, g: F.Forest, c: nat, child: int, p: int)
    requires F.Shape(f) && F.Shape(g) && f.pending[f.turn] == -1 && (child == c || child == -1) && p >= 0
    requires g.stacks == f.stacks && g.pending == f.pending[f.turn := child]
    ensures Alive(g, p) <==> Alive(f, p) || p == child
  {
    if p in f.pending {
      var t :| 0 <= t < 3 && f.pending[t] == p;
      assert g.pending[t] == p;
    }
    if p == child {
      assert g.pending[f.turn] == p;
    }
  }

  lemma CreateCounts(s: State, r: State, f: F.Forest, g: F.Forest, c: nat, child: int)
    requires Creating(s, f, c) && Counted(s, f) && Shape(r) && F.Shape(g)
    requires f.pending[f.turn] == -1 && (child == c || child == -1)
    requires g.stacks == f.stacks && g.pending == f.pending[f.turn := child]
    requires r.taskVector == (if child == c then SetBit(s.taskVector, c) else s.taskVector)
    requires r.numTasks == s.numTasks + (if child == c then 1 else 0)
    ensures Counted(r, g)
    ensures forall p :: 0 <= p < MAX_TASKS ==> (Alive(g, p) <==> Alive(f, p) || p == child)
  {
    forall p | 0 <= p < MAX_TASKS ensures Alive(g, p) <==> Alive(f, p) || p == child {
      CreateAlive(f, g, c, child, p);
    }
    if child == c {
      forall p: nat ensures Bit(r.taskVector, p) <==> p == c || Bit(s.taskVector, p) {
        SetBitAt(s.taskVector, c, p);
      }
      CountSet(s.taskVector, c);
    }
  }

  lemma CreateMaps(s: State, r: State, f: F.Forest, g: F.Forest, c: nat, child: int)
    requires Creating(s, f, c) && Created(s, r, c) && Mapped(s, f) && f.started && (child == c || child == -1)
    requires F.Shape(g) && g == f.(pending := f.pending[f.turn := child])
    requires forall p :: 0 <= p < MAX_TASKS ==> (Alive(g, p) <==> Alive(f, p) || p == child)
    ensures Mapped(r, g)
  {
    Unused(f, c);
    forall p: nat | p < MAX_TASKS && Alive(g, p)
      ensures SpaceOk(r.spaces[p], p) && Window(r.spaces[p]) == WindowOf(g, r.curTask, p)
    {
      if p == c {
        InitSpaceOk(s.spaces[p], p);
      } else {
        SpaceOkKept(s.spaces[p], p, c);
      }
    }
  }

  lemma AttemptKeeps(s: State, f: F.Forest, loads: bool, c: nat)
    requires Related(s, f) && Creating(s, f, c) && f.started && s.pending[s.curTask] == -1
    requires s.cr3 == s.curTask && f.pending[f.turn] == -1
    requires c == LeastClear(s.taskVector, MAX_TASKS)
    ensures Related(Apply(s, Create(loads)), Grow(f, Create(loads), Child(s, Create(loads))))
  {
    hide Chains, Waiting, Counted, Mapped;
    CreateEffect(s, loads);
    var child := if loads then c else -1;
    var r := Apply(s, Create(loads));
    var g := f.(pending := f.pending[f.turn := child]);
    assert Created(s, r, c);
    CreateChains(s, r, f, g, c);
    CreateWaits(s, r, f, g, c, child);
    CreateCounts(s, r, f, g, c, child);
    CreateMaps(s, r, f, g, c, child);
    forall t | 0 <= t < 3 ensures F.Top(g, t) == F.Top(f, t) {}
  }

  /** With every pid taken the attempt changes nothing. */
  lemma FullPool(s: State, f: F.Forest, loads: bool)
    requires Shape(s) && F.Shape(f) && Safe(s, Create(loads)) && LeastClear(s.taskVector, MAX_TASKS) < 0
    requires s.pending[s.curTask] == -1 && f.pending[f.turn] == -1
    ensures Apply(s, Create(loads)) == s
    ensures Child(s, Create(loads)) == -1 && Grow(f, Create(loads), -1) == f
  {
  }

  lemma CreateKeeps(s: State, f: F.Forest, loads: bool)
    requires Related(s, f) && Enabled(s, Create(loads))
    ensures Safe(s, Create(loads))
    ensures Related(Apply(s, Create(loads)), Grow(f, Create(loads), Child(s, Create(loads))))
  {
    CurPositive(s, f);
    TopTask(s, f, f.turn);
    var c := LeastClear(s.taskVector, MAX_TASKS);
    if c < 0 {
      FullPool(s, f, loads);
    } else {
      AttemptKeeps(s, f, loads, c);
    }
  }

  /** One step of the scheduler is one step of the forest. */
  lemma StepKeeps(s: State, f: F.Forest, st: Step)
    requires Related(s, f) && Enabled(s, st)
    ensures Safe(s, st) && Related(Apply(s, st), Grow(f, st, Child(s, st)))
  {
    match st
    case Tick => TickKeeps(s, f);
    case Create(loads) => CreateKeeps(s, f, loads);
    case Execute => ExecuteKeeps(s, f);
    case Halt => HaltKeeps(s, f);
    case Show(term) => ShowKeeps(s, f, term);
  }
}
