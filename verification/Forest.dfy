/** What the scheduler is for, stated without page tables, bitmaps or parent pointers: three stacks of
    pids, one per terminal, and whose turn it is. */
module Forest {
  /** `pending[t]` is a program that tree t has created but not yet started, or -1; `ran` are the live
      pids that have been running at some time since they were created; `shown` is the terminal on
      display, and `screen` says whether the running task's video window is the real screen. */
  datatype Forest = Forest(
    stacks: seq<seq<int>>,
    pending: seq<int>,
    turn: nat,
    started: bool,
    ran: set<int>,
    shown: int,
    screen: bool)

  predicate Shape(f: Forest) {
    && |f.stacks| == 3 && |f.pending| == 3 && f.turn < 3
    && forall t :: 0 <= t < 3 ==> |f.stacks[t]| > 0
  }

  function Top(f: Forest, t: nat): int
    requires t < |f.stacks| && |f.stacks[t]| > 0
  {
    f.stacks[t][|f.stacks[t]| - 1]
  }

  /** What one step does to the stack of the tree whose turn it is. */
  datatype Action = Push(pid: int) | Pop | Stay

  function Act(stack: seq<int>, a: Action): seq<int> {
    match a
    case Push(p) => stack + [p]
    case Pop => if |stack| > 1 then stack[..|stack| - 1] else stack
    case Stay => stack
  }

  /** A stack after a list of actions. */
  function Replay(stack: seq<int>, acts: seq<Action>): seq<int> {
    if acts == [] then stack
    else Act(Replay(stack, acts[..|acts| - 1]), acts[|acts| - 1])
  }

  /** An action together with the tree it was taken in. */
  datatype Event = Event(tree: nat, action: Action)

  /** What one tree did, leaving out what the others did in between. */
  function Own(events: seq<Event>, t: nat): seq<Action> {
    if events == [] then []
    else
      var rest := Own(events[..|events| - 1], t);
      var e := events[|events| - 1];
      if e.tree == t then rest + [e.action] else rest
  }

  /** Starts minus ends. */
  function Depth(acts: seq<Action>): int {
    if acts == [] then 0
    else
      var d := Depth(acts[..|acts| - 1]);
      match acts[|acts| - 1]
      case Push(_) => d + 1
      case Pop => d - 1
      case Stay => d
  }

  /** Every program started is ended and nothing else is. */
  ghost predicate Balanced(acts: seq<Action>) {
    && Depth(acts) == 0
    && forall i :: 0 <= i <= |acts| ==> Depth(acts[..i]) >= 0
  }

  /** While no more is popped than was pushed, the old stack stays underneath. */
  lemma {:induction false} ReplayKeepsBase(stack: seq<int>, acts: seq<Action>)
    requires |stack| > 0
    requires forall i :: 0 <= i <= |acts| ==> Depth(acts[..i]) >= 0
    ensures |Replay(stack, acts)| == |stack| + Depth(acts)
    ensures stack <= Replay(stack, acts)
  {
    assert acts[..|acts|] == acts;
    if acts != [] {
      var init := acts[..|acts| - 1];
      forall i | 0 <= i <= |init| ensures Depth(init[..i]) >= 0 {
        assert init[..i] == acts[..i];
      }
      ReplayKeepsBase(stack, init);
    }
  }

  /** Balanced activity leaves a stack as it was. */
  lemma BalancedRestores(stack: seq<int>, acts: seq<Action>)
    requires |stack| > 0 && Balanced(acts)
    ensures Replay(stack, acts) == stack
  {
    ReplayKeepsBase(stack, acts);
  }

  lemma {:induction false} ReplayAppend(stack: seq<int>, a: seq<Action>, b: seq<Action>)
    ensures Replay(stack, a + b) == Replay(Replay(stack, a), b)
  {
    if b == [] {
      assert a + b == a;
    } else {
      var init := b[..|b| - 1];
      ReplayAppend(stack, a, init);
      assert (a + b)[..|a + b| - 1] == a + init;
    }
  }

  lemma {:induction false} OwnAppend(a: seq<Event>, b: seq<Event>, t: nat)
    ensures Own(a + b, t) == Own(a, t) + Own(b, t)
  {
    if b == [] {
      assert a + b == a;
    } else {
      var init := b[..|b| - 1];
      OwnAppend(a, init, t);
      assert (a + b)[..|a + b| - 1] == a + init;
    }
  }

  lemma ReplayOwnStep(stack: seq<int>, events: seq<Event>, e: Event, t: nat)
    ensures Replay(stack, Own(events + [e], t)) ==
            if e.tree == t then Act(Replay(stack, Own(events, t)), e.action) else Replay(stack, Own(events, t))
  {
    assert (events + [e])[..|events + [e]| - 1] == events;
    var own := Own(events, t);
    assert (own + [e.action])[..|own + [e.action]| - 1] == own;
  }
}
