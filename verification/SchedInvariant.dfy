/** The relation between the scheduler's state and the forest of process stacks it implements. */
module SchedInvariant {
  import opened Words
  import opened Bitmap
  import opened Paging
  import opened SchedModel
  import F = Forest

  predicate OnStack(f: F.Forest, p: int)
    requires |f.stacks| == 3
  {
    p in f.stacks[0] || p in f.stacks[1] || p in f.stacks[2]
  }

  predicate IsTop(f: F.Forest, p: int)
    requires F.Shape(f)
  {
    p == F.Top(f, 0) || p == F.Top(f, 1) || p == F.Top(f, 2)
  }

  /** The pid below place `k`; below the bottom is the idle task. */
  function Under(stack: seq<int>, k: nat): int
    requires k < |stack|
  {
    if k == 0 then 0 else stack[k - 1]
  }

  /** Parent pointers and tree ids spell out the stacks, down to the idle task. */
  ghost predicate Chains(s: State, f: F.Forest)
    requires Shape(s) && F.Shape(f)
  {
    && (forall t :: 0 <= t < 3 ==> f.stacks[t][0] == t + 1)
    && (forall t, k :: 0 <= t < 3 && 0 <= k < |f.stacks[t]| ==> 0 < f.stacks[t][k] < MAX_TASKS)
    && (forall t, k :: 0 <= t < 3 && 0 <= k < |f.stacks[t]| ==>
          s.tasks[f.stacks[t][k]] == Task(Under(f.stacks[t], k), t))
    && s.tasks[0] == Task(-1, 0)
  }

  /** A created program waits beside its creator, the top of its tree's stack. */
  ghost predicate Waiting(s: State, f: F.Forest)
    requires Shape(s) && F.Shape(f) && Chains(s, f)
  {
    && (forall t :: 0 <= t < 3 ==> s.pending[F.Top(f, t)] == f.pending[t])
    && (forall p :: 0 <= p < MAX_TASKS && s.pending[p] != -1 ==> IsTop(f, p))
    && (forall t :: 0 <= t < 3 && f.pending[t] != -1 ==>
          && 0 < f.pending[t] < MAX_TASKS
          && !OnStack(f, f.pending[t])
          && s.tasks[f.pending[t]] == Task(F.Top(f, t), t))
  }

  /** The bitmap marks the idle task, the stacks and the waiting programs, and nothing else. */
  ghost predicate Alive(f: F.Forest, p: int)
    requires F.Shape(f)
  {
    p == 0 || OnStack(f, p) || p in f.pending
  }

  ghost predicate Counted(s: State, f: F.Forest)
    requires Shape(s) && F.Shape(f)
  {
    && (forall p :: 0 <= p < MAX_TASKS ==> (Bit(s.taskVector, p) <==> Alive(f, p)))
    && Below(s.taskVector, MAX_TASKS)
    && s.numTasks == PopCount(s.taskVector)
  }

  /** The scheduler's own notion of who runs agrees with the forest. */
  ghost predicate Scheduled(s: State, f: F.Forest)
    requires Shape(s) && F.Shape(f)
  {
    && (forall t :: 0 <= t < 3 ==> s.ptreeTasks[t] == F.Top(f, t))
    && s.ptreeVector == 7 && s.numPtrees == 3
    && s.curPtree == f.turn
    && (if f.started then s.curTask == F.Top(f, f.turn) else s.curTask == 0 && f.turn == 0)
    && 0 <= s.shown < 3 && s.shown == f.shown
  }

  /** The video window of a live task: the real screen until it runs, then the garbage frame, except that
      the running task has what `screen` says. */
  ghost function WindowOf(f: F.Forest, cur: int, p: int): uint32 {
    if p !in f.ran || (p == cur && f.screen) then VideoEntry else GarbageEntry
  }

  /** The loaded directory is the current task's; every live directory holds the entries it needs, and
      the video window that the forest gives it. */
  ghost predicate Mapped(s: State, f: F.Forest)
    requires Shape(s) && F.Shape(f)
  {
    && s.pd == s.cr3
    && s.cr3 == (if f.started then s.curTask else BOOT)
    && (forall p :: 0 <= p < MAX_TASKS && Alive(f, p) ==> SpaceOk(s.spaces[p], p))
    && (f.started ==> s.curTask in f.ran)
    && (forall p :: p in f.ran ==> OnStack(f, p))
    && (forall t, k :: 0 <= t < 3 && 0 <= k < |f.stacks[t]| && |f.stacks[t]| > 1 ==> f.stacks[t][k] in f.ran)
    && (!f.started ==> f.ran == {})
    && (forall p :: 0 <= p < MAX_TASKS && Alive(f, p) ==> Window(s.spaces[p]) == WindowOf(f, s.curTask, p))
  }

  ghost predicate Related(s: State, f: F.Forest) {
    && Shape(s) && F.Shape(f)
    && Chains(s, f) && Waiting(s, f) && Counted(s, f) && Scheduled(s, f) && Mapped(s, f)
  }

  /** The top of tree `n` runs next.  It finds the real screen in its window if its terminal is on display,
      and also if it has never run. */
  function Dispatched(f: F.Forest, n: nat): (g: F.Forest)
    requires F.Shape(f) && n < 3
    ensures F.Shape(g)
  {
    f.(turn := n, started := true, ran := f.ran + {F.Top(f, n)}, screen := f.shown == n || F.Top(f, n) !in f.ran)
  }

  /** The pending program `c` runs, with the real screen in its window. */
  function Started(f: F.Forest, c: int): (g: F.Forest)
    requires F.Shape(f)
    ensures F.Shape(g)
  {
    f.(stacks := f.stacks[f.turn := f.stacks[f.turn] + [c]], pending := f.pending[f.turn := -1],
       ran := f.ran + {c}, screen := true)
  }

  /** The running program is gone and the one below it runs, with the real screen in its window. */
  function Popped(f: F.Forest): (g: F.Forest)
    requires F.Shape(f) && |f.stacks[f.turn]| > 1
    ensures F.Shape(g)
  {
    f.(stacks := f.stacks[f.turn := f.stacks[f.turn][..|f.stacks[f.turn]| - 1]],
       ran := f.ran - {F.Top(f, f.turn)}, screen := true)
  }

  /** What a step does to the forest; `child` is the pid that a create step returned. */
  ghost function Grow(f: F.Forest, st: Step, child: int): (g: F.Forest)
    requires F.Shape(f)
    ensures F.Shape(g)
  {
    match st
    case Tick => Dispatched(f, (f.turn + 1) % 3)
    case Create(_) => f.(pending := f.pending[f.turn := child])
    case Execute => Started(f, f.pending[f.turn])
    case Halt => if |f.stacks[f.turn]| == 1 then f else Popped(f)
    case Show(term) => if 0 <= term <= 2 then f.(shown := term) else f
  }

  /** The stack action a step amounts to, in the tree whose turn it is. */
  ghost function ActionOf(f: F.Forest, st: Step): F.Event
    requires F.Shape(f)
  {
    F.Event(f.turn,
      match st
      case Execute => F.Push(f.pending[f.turn])
      case Halt => F.Pop
      case _ => F.Stay)
  }

  /** The pid a step returns, for a create step. */
  function Child(s: State, st: Step): int
    requires Shape(s)
  {
    if st.Create? then CreateTask(s, st.loads).1 else -1
  }

  // ----- facts about the relation -----

  /** With all three trees active the next one is the next number. */
  lemma NextOfThree(cur: nat)
    requires cur < 3
    ensures NextTree(7, cur, MAX_PTREES) == (cur + 1) % 3
  {
    assert Bit(7, 0);
    assert Bit(7, 1) by { assert Bit(3, 0); }
    assert Bit(7, 2) by { assert Bit(3, 1) by { assert Bit(1, 0); } }
    if cur == 0 {
      assert FirstActive(7, 1, MAX_PTREES) == 1;
    } else if cur == 1 {
      assert FirstActive(7, 2, MAX_PTREES) == 2;
    } else {
      assert FirstActive(7, 3, MAX_PTREES) == -1;
      assert FirstActive(7, 0, 2) == 0;
    }
  }

  /** No pid is on a stack twice: following parents from both places would reach the idle task from one
      of them first. */
  lemma {:induction false} Acyclic(s: State, f: F.Forest, t: nat, j: nat, k: nat)
    requires Shape(s) && F.Shape(f) && Chains(s, f) && t < 3 && j < k < |f.stacks[t]|
    ensures f.stacks[t][j] != f.stacks[t][k]
  {
    if j > 0 {
      Acyclic(s, f, t, j - 1, k - 1);
    }
    assert s.tasks[f.stacks[t][j]].parent == Under(f.stacks[t], j);
    assert s.tasks[f.stacks[t][k]].parent == Under(f.stacks[t], k);
    assert f.stacks[t][k - 1] > 0;
  }

  /** A pid on a stack belongs to one tree only, and tops of different trees differ. */
  lemma TreeOf(s: State, f: F.Forest, p: int) returns (t: nat, k: nat)
    requires Shape(s) && F.Shape(f) && Chains(s, f) && OnStack(f, p)
    ensures t < 3 && k < |f.stacks[t]| && f.stacks[t][k] == p && 0 < p < MAX_TASKS && s.tasks[p].ptid == t
    ensures forall u, j :: 0 <= u < 3 && 0 <= j < |f.stacks[u]| && f.stacks[u][j] == p ==> u == t && j == k
  {
    t :| 0 <= t < 3 && p in f.stacks[t];
    k :| 0 <= k < |f.stacks[t]| && f.stacks[t][k] == p;
    forall u, j | 0 <= u < 3 && 0 <= j < |f.stacks[u]| && f.stacks[u][j] == p ensures u == t && j == k {
      assert s.tasks[f.stacks[u][j]].ptid == u;
      if j < k {
        Acyclic(s, f, t, j, k);
      } else if k < j {
        Acyclic(s, f, t, k, j);
      }
    }
  }

  /** The top of a tree's stack is a live task of that tree. */
  lemma TopTask(s: State, f: F.Forest, n: nat)
    requires Shape(s) && F.Shape(f) && Chains(s, f) && n < 3
    ensures 0 < F.Top(f, n) < MAX_TASKS && s.tasks[F.Top(f, n)].ptid == n && OnStack(f, F.Top(f, n))
  {
    var p := f.stacks[n][|f.stacks[n]| - 1];
    assert 0 < p < MAX_TASKS && s.tasks[p].ptid == n;
    assert p in f.stacks[n];
  }

  /** A tick dispatches the top of the next tree's stack. */
  lemma ApplyTick(s: State, n: nat, pid: nat)
    requires Shape(s) && s.ptreeVector == 7 && 0 <= s.curPtree < 3 && n == (s.curPtree + 1) % 3
    requires s.ptreeTasks[n] == pid && pid < MAX_TASKS
    ensures Safe(s, Tick) && Apply(s, Tick) == SwitchTask(s, pid)
  {
    NextOfThree(s.curPtree);
  }

  /** Ending a task never follows a null parent. */
  lemma HaltIsSafe(s: State, f: F.Forest)
    requires Shape(s) && F.Shape(f) && Chains(s, f) && Scheduled(s, f) && f.started
    ensures Safe(s, Halt)
  {
    var top := |f.stacks[f.turn]| - 1;
    assert s.curTask == f.stacks[f.turn][top];
    if top == 0 {
      assert s.curTask == f.turn + 1;
    } else {
      assert s.tasks[s.curTask].parent == f.stacks[f.turn][top - 1];
      assert s.tasks[f.stacks[f.turn][top - 1]].ptid == f.turn;
    }
  }
}
