/** The scheduler's state and each of its atomic steps, as functions on values.  `Kernel` holds the
    same state in the source's own shape and is proved against these functions. */
module SchedModel {
  import opened Words
  import opened Bitmap
  import opened Paging

  const MAX_PTREES := 3
  /** `spaces[BOOT]` is the directory and table of `paging_init`; `spaces[p]` sits in task p's frame. */
  const BOOT := MAX_TASKS

  /** The fields of a task block that scheduling reads; parent -1 is the null pointer. */
  datatype Task = Task(parent: int, ptid: int)

  datatype State = State(
    taskVector: nat,
    numTasks: int,
    curTask: int,
    ptreeTasks: seq<int>,
    ptreeVector: nat,
    numPtrees: nat,
    curPtree: int,
    tasks: seq<Task>,
    spaces: seq<Space>,
    pd: nat,             // which directory the kernel variable `pd` points to
    cr3: nat,            // which directory the processor uses
    shown: int,          // the displayed terminal, whose ptid is its index
    pending: seq<int>)   // per task, the local `pid` of a `do_execute` between its two calls, or -1

  predicate Shape(s: State) {
    && |s.ptreeTasks| == 32
    && |s.tasks| == MAX_TASKS
    && |s.pending| == MAX_TASKS
    && |s.spaces| == MAX_TASKS + 1
    && (forall i :: 0 <= i <= MAX_TASKS ==> s.spaces[i].Valid())
    && s.pd <= MAX_TASKS && s.cr3 <= MAX_TASKS
    && -1 <= s.curTask < MAX_TASKS
  }

  predicate IsPid(p: int) {
    0 <= p < MAX_TASKS
  }

  // ----- directory updates through `pd` -----

  function MapPd(s: State, phys: nat, virt: nat): (r: State)
    requires Shape(s) && phys < 0x1_0000_0000 && virt < 0x1_0000_0000
    ensures Shape(r)
  {
    s.(spaces := s.spaces[s.pd := MapLarge(s.spaces[s.pd], phys, virt, true)])
  }

  function ClearPd(s: State, virt: nat): (r: State)
    requires Shape(s) && virt < 0x1_0000_0000
    ensures Shape(r)
  {
    s.(spaces := s.spaces[s.pd := ClearPde(s.spaces[s.pd], virt)])
  }

  // ----- the operations -----

  /** `init_task`: a null parent and a fresh address space; `ptid` keeps its old value. */
  function InitTask(s: State, pid: nat): (r: State)
    requires Shape(s) && pid < MAX_TASKS
    ensures Shape(r)
  {
    s.(tasks := s.tasks[pid := s.tasks[pid].(parent := -1)],
       spaces := s.spaces[pid := InitSpace(s.spaces[pid], pid)])
  }

  /** `create_task` between taking a pid and loading the program: the child's frame becomes reachable,
      its directory is filled in, and it is hung under the running task. */
  function Prepare(s: State, pid: nat): (r: State)
    requires Shape(s) && pid < MAX_TASKS
    ensures Shape(r)
  {
    var s1 := MapPd(s.(pd := s.cr3), TaskAddr(pid), TaskAddr(pid));
    var s2 := InitTask(s1, pid);
    if s.curTask == -1 then s2
    else s2.(tasks := s2.tasks[pid := Task(s.curTask, s2.tasks[s.curTask].ptid)])
  }

  /** `create_task` when the program does (`loads`) or does not load: the new state and the result. */
  function CreateTask(s: State, loads: bool): (r: (State, int))
    requires Shape(s)
    ensures Shape(r.0) && -1 <= r.1 < MAX_TASKS
  {
    var pid := LeastClear(s.taskVector, MAX_TASKS);
    if pid < 0 then (s, -1)
    else
      var s1 := Prepare(s.(taskVector := SetBit(s.taskVector, pid)), pid);
      if loads then (s1.(numTasks := s1.numTasks + 1), pid)
      else (s1.(taskVector := ClearBit(s1.taskVector, pid)), -1)
  }

  function SetCurTask(s: State, pid: nat): (r: State)
    requires Shape(s) && pid < MAX_TASKS
    ensures Shape(r)
  {
    s.(curTask := pid, curPtree := s.tasks[pid].ptid)
  }

  /** `end_task`, for a task that has a parent. */
  function EndTask(s: State, pid: nat): (r: State)
    requires Shape(s) && pid < MAX_TASKS
    requires IsPid(s.tasks[pid].parent) && 0 <= s.tasks[s.tasks[pid].parent].ptid < 32
    ensures Shape(r)
  {
    var parent := s.tasks[pid].parent;
    var ptid := s.tasks[parent].ptid;
    var s1 := s.(cr3 := parent, pd := parent);
    var s2 := MapPd(s1, VIDEO, VIRTUAL_VID_MEM);
    var s3 := ClearPd(s2.(taskVector := ClearBit(s2.taskVector, pid)), TaskAddr(pid));
    var s4 := s3.(numTasks := s3.numTasks - 1, ptreeTasks := s3.ptreeTasks[ptid := parent]);
    SetCurTask(s4, parent)
  }

  /** `execute_task`, up to the jump into the new program. */
  function ExecuteTask(s: State, pid: nat): (r: State)
    requires Shape(s) && pid < MAX_TASKS && 0 <= s.tasks[pid].ptid < 32
    ensures Shape(r)
  {
    var s1 := SetCurTask(MapPd(s, GARBAGE_VID_MEM, VIRTUAL_VID_MEM), pid);
    s1.(ptreeTasks := s1.ptreeTasks[s1.tasks[pid].ptid := pid], cr3 := pid, pd := pid)
  }

  /** `switch_task` */
  function SwitchTask(s: State, pid: nat): (r: State)
    requires Shape(s) && pid < MAX_TASKS
    ensures Shape(r)
  {
    var s1 := SetCurTask(MapPd(s.(pd := s.cr3), GARBAGE_VID_MEM, VIRTUAL_VID_MEM), pid);
    var s2 := s1.(cr3 := pid, pd := pid);
    if s2.tasks[pid].ptid == s2.shown then MapPd(s2, VIDEO, VIRTUAL_VID_MEM) else s2
  }

  // ----- which tree runs next -----

  /** The first active tree in `[i, hi)`, or -1. */
  function FirstActive(v: nat, i: nat, hi: nat): (r: int)
    requires i <= hi
    ensures -1 <= r < hi
    ensures r >= 0 ==> i <= r && Bit(v, r) && forall j: nat :: i <= j < r ==> !Bit(v, j)
    ensures r < 0 ==> forall j: nat :: i <= j < hi ==> !Bit(v, j)
    decreases hi - i
  {
    if i == hi then -1 else if Bit(v, i) then i else FirstActive(v, i + 1, hi)
  }

  /** The tree `get_next_task` picks: upwards from the current one, then from zero, else the same. */
  function NextTree(v: nat, cur: nat, max: nat): (r: nat)
    requires cur < max
    ensures r < max
  {
    var up := FirstActive(v, cur + 1, max);
    if up >= 0 then up
    else
      var low := FirstActive(v, 0, cur);
      if low >= 0 then low else cur
  }

  /** `x` counted on a circle of `k` places. */
  function Wrap(x: nat, k: nat): nat {
    if x < k then x else x - k
  }

  /** `NextTree` is the cyclic successor: numbering the active trees from zero, it moves from number
      r to number r + 1, and from the last to number 0. */
  lemma NextTreeIsCyclicSuccessor(v: nat, cur: nat, max: nat)
    requires cur < max && Bit(v, cur)
    ensures Bit(v, NextTree(v, cur, max))
    ensures Rank(v, cur) < Rank(v, max)
    ensures Rank(v, NextTree(v, cur, max)) == Wrap(Rank(v, cur) + 1, Rank(v, max))
  {
    var up := FirstActive(v, cur + 1, max);
    RankGrows(v, cur, max);
    assert Rank(v, cur + 1) == Rank(v, cur) + 1;
    if up >= 0 {
      RankGrows(v, cur + 1, up);
      RankGrows(v, up, max);
    } else {
      RankGrows(v, cur + 1, max);
      var low := FirstActive(v, 0, cur);
      if low >= 0 {
        RankGrows(v, 0, low);
      } else {
        RankGrows(v, 0, cur);
      }
    }
  }

  /** The tree current after `n` picks. */
  function TreeAfter(v: nat, cur: nat, max: nat, n: nat): (r: nat)
    requires cur < max
    ensures r < max
  {
    if n == 0 then cur else NextTree(v, TreeAfter(v, cur, max, n - 1), max)
  }

  /** Within one turn of the circle, `n` picks move `n` places on. */
  lemma {:induction false} TreeAfterRank(v: nat, cur: nat, max: nat, n: nat)
    requires cur < max && Bit(v, cur) && n <= Rank(v, max)
    ensures Rank(v, cur) < Rank(v, max)
    ensures Bit(v, TreeAfter(v, cur, max, n))
    ensures Rank(v, TreeAfter(v, cur, max, n)) == Wrap(Rank(v, cur) + n, Rank(v, max))
  {
    hide Rank, Bit, NextTree;
    if n == 0 {
      NextTreeIsCyclicSuccessor(v, cur, max);
    } else {
      TreeAfterRank(v, cur, max, n - 1);
      NextTreeIsCyclicSuccessor(v, TreeAfter(v, cur, max, n - 1), max);
    }
  }

  lemma RankInjective(v: nat, i: nat, j: nat)
    requires Bit(v, i) && Bit(v, j) && Rank(v, i) == Rank(v, j)
    ensures i == j
  {
    if i < j {
      RankGrows(v, i, j);
    } else if j < i {
      RankGrows(v, j, i);
    }
  }

  /** How many picks it takes to get from number `r` to number `t` on a circle of `k`. */
  function Picks(r: nat, t: nat, k: nat): (n: nat)
    requires r < k && t < k
    ensures 0 < n <= k && Wrap(r + n, k) == t
  {
    if t > r then t - r else t + k - r
  }

  /** Round robin for any set of active trees: with k of them, k picks in a row, from any active tree,
      reach every active tree, each by exactly one of the picks. */
  lemma RoundRobin(v: nat, cur: nat, max: nat, tree: nat) returns (n: nat)
    requires cur < max && Bit(v, cur) && tree < max && Bit(v, tree)
    ensures 0 < n <= Rank(v, max)
    ensures TreeAfter(v, cur, max, n) == tree
    ensures forall m: nat :: 0 < m <= Rank(v, max) && TreeAfter(v, cur, max, m) == tree ==> m == n
  {
    hide Rank, Bit, TreeAfter;
    var k := Rank(v, max);
    TreeAfterRank(v, cur, max, 0);
    RankGrows(v, tree, max);
    n := Picks(Rank(v, cur), Rank(v, tree), k);
    TreeAfterRank(v, cur, max, n);
    RankInjective(v, TreeAfter(v, cur, max, n), tree);
    forall m: nat | 0 < m <= k && TreeAfter(v, cur, max, m) == tree ensures m == n {
      TreeAfterRank(v, cur, max, m);
    }
  }

  // ----- atomic steps -----

  /** What can happen between two instants at which the scheduler's state is consistent. */
  datatype Step =
    | Tick                  // a timer interrupt
    | Create(loads: bool)   // the first half of `do_execute`
    | Execute               // its second half
    | Halt                  // `do_halt` of the running program
    | Show(term: int)       // the display switches to another terminal

  /** The running program is in user code or in the middle of its own `do_execute`. */
  predicate Enabled(s: State, st: Step)
    requires Shape(s)
  {
    match st
    case Tick => s.curTask >= 0
    case Create(_) => s.curTask > 0 && s.pending[s.curTask] == -1
    case Execute => s.curTask > 0 && s.pending[s.curTask] != -1
    case Halt => s.curTask > 0 && s.pending[s.curTask] == -1
    case Show(_) => true
  }

  /** No step reads a null parent or an index outside its table. */
  predicate Safe(s: State, st: Step)
    requires Shape(s)
  {
    match st
    case Tick => 0 <= s.curPtree < MAX_PTREES && IsPid(s.ptreeTasks[NextTree(s.ptreeVector, s.curPtree, MAX_PTREES)])
    case Create(_) => IsPid(s.curTask)
    case Execute => IsPid(s.curTask) && IsPid(s.pending[s.curTask]) && 0 <= s.tasks[s.pending[s.curTask]].ptid < 32
    case Halt => IsPid(s.curTask) && (s.curTask in {1, 2, 3} ||
                 (IsPid(s.tasks[s.curTask].parent) && 0 <= s.tasks[s.tasks[s.curTask].parent].ptid < 32))
    case Show(_) => true
  }

  function Apply(s: State, st: Step): (r: State)
    requires Shape(s) && Safe(s, st)
    ensures Shape(r)
  {
    match st
    case Tick =>
      SwitchTask(s, s.ptreeTasks[NextTree(s.ptreeVector, s.curPtree, MAX_PTREES)])
    case Create(loads) =>
      var (r, pid) := CreateTask(s, loads);
      r.(pending := r.pending[s.curTask := pid])
    case Execute =>
      var pid := s.pending[s.curTask];
      ExecuteTask(s.(pending := s.pending[s.curTask := -1]), pid)
    case Halt =>
      if s.curTask in {1, 2, 3} then s else EndTask(s, s.curTask)
    case Show(term) =>
      if 0 <= term <= 2 then s.(shown := term) else s
  }

  // ----- boot -----

  /** The state `tasks_init` starts from: the boot directory loaded, zeroed task blocks, and whatever
      the frames happen to hold. */
  predicate Fresh(s: State) {
    && Shape(s)
    && s.taskVector == 0 && s.numTasks == 0 && s.curTask == -1
    && s.ptreeVector == 0 && s.numPtrees == 0 && s.curPtree == -1
    && s.ptreeTasks == seq(32, _ => -1)
    && s.tasks == seq(MAX_TASKS, _ => Task(0, 0))
    && s.pending == seq(MAX_TASKS, _ => -1)
    && s.pd == BOOT && s.cr3 == BOOT && s.shown == 0
  }

  function SetPtreeTask(s: State, ptid: nat, pid: int): (r: State)
    requires Shape(s) && ptid < 32
    ensures Shape(r)
  {
    s.(ptreeTasks := s.ptreeTasks[ptid := pid])
  }

  /** `create_ptree` */
  function CreatePtree(s: State): (r: (State, int))
    requires Shape(s)
    ensures Shape(r.0) && -1 <= r.1 < MAX_PTREES
  {
    var ptid := LeastClear(s.ptreeVector, MAX_PTREES);
    if ptid < 0 then (s, -1)
    else
      var s1 := s.(ptreeVector := SetBit(s.ptreeVector, ptid), numPtrees := s.numPtrees + 1);
      (SetPtreeTask(s1, ptid, -1), ptid)
  }

  /** One round of the loop in `tasks_init`: a shell with a process tree of its own.  None when the
      program or the tree could not be created, which the source does not check for and which
      `BootRelated` shows cannot happen. */
  function AddTerminal(s: State): (r: Option<State>)
    requires Shape(s)
    ensures r.Some? ==> Shape(r.value)
  {
    var (s1, pid) := CreateTask(s, true);
    if pid < 0 then None
    else
      var (s2, ptid) := CreatePtree(s1);
      if ptid < 0 then None
      else Some(SetPtreeTask(s2.(tasks := s2.tasks[pid := s2.tasks[pid].(ptid := ptid)]), ptid, pid))
  }

  /** `n` rounds of that loop. */
  function Terminals(s: State, n: nat): (r: Option<State>)
    requires Shape(s)
    ensures r.Some? ==> Shape(r.value)
    decreases n
  {
    if n == 0 then Some(s)
    else match Terminals(s, n - 1) case None => None case Some(before) => AddTerminal(before)
  }

  /** `tasks_init` with a shell image that loads. */
  function TasksInit(s: State): (r: Option<State>)
    requires Fresh(s)
    ensures r.Some? ==> Shape(r.value)
  {
    Terminals(SetCurTask(CreateTask(s, true).0, 0), 3)
  }
}
