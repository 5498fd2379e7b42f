/** Blinking characters as values: a list of items, the screen cells they draw in, and the timing each
    item should have. */
module BlinkSpec {
  import opened Words

  const SLOTS := 2000
  const CELL_BYTES := 4000

  datatype Item = Item(location: uint16, onChar: byte, offChar: byte, onLength: uint16, offLength: uint16,
                       countdown: uint16, status: uint16)

  datatype State = State(items: seq<Item>, cells: seq<byte>)

  predicate Valid(s: State) {
    && |s.cells| == CELL_BYTES && |s.items| <= SLOTS
    && forall i :: 0 <= i < |s.items| ==> 0 < s.items[i].location < SLOTS
  }

  /** `mp1_poke`: the character byte of a cell. */
  function Poke(cells: seq<byte>, location: nat, c: byte): (r: seq<byte>)
    requires |cells| == CELL_BYTES && location < SLOTS
    ensures |r| == CELL_BYTES
  {
    cells[2 * location := c]
  }

  // ----- one timer tick -----

  /** `decw` and a signed 16-bit comparison with zero: is the countdown over? */
  function Decremented(c: uint16): uint16 {
    (c - 1) % 0x1_0000
  }

  predicate Expires(c: uint16) {
    !(0 < Decremented(c) < 0x8000)
  }

  function Flip(status: uint16): uint16 {
    if status % 2 == 1 then status - 1 else status + 1
  }

  function TickItem(i: Item): Item {
    if !Expires(i.countdown) then i.(countdown := Decremented(i.countdown))
    else if i.status % 2 == 1 then i.(countdown := i.offLength, status := Flip(i.status))
    else i.(countdown := i.onLength, status := Flip(i.status))
  }

  /** The character an item shows: the one for its phase. */
  function Phase(i: Item): byte {
    if i.status % 2 == 1 then i.onChar else i.offChar
  }

  function TickCell(i: Item, cells: seq<byte>): (r: seq<byte>)
    requires |cells| == CELL_BYTES && i.location < SLOTS
    ensures |r| == CELL_BYTES
  {
    if Expires(i.countdown) then Poke(cells, i.location, Phase(TickItem(i))) else cells
  }

  function TickItems(items: seq<Item>): (r: seq<Item>)
    ensures |r| == |items|
  {
    seq(|items|, k requires 0 <= k < |items| => TickItem(items[k]))
  }

  /** The list is visited from its head. */
  function TickCells(items: seq<Item>, cells: seq<byte>): (r: seq<byte>)
    requires |cells| == CELL_BYTES && forall i :: 0 <= i < |items| ==> items[i].location < SLOTS
    ensures |r| == CELL_BYTES
  {
    if items == [] then cells else TickCell(items[|items| - 1], TickCells(items[..|items| - 1], cells))
  }

  /** Item `k` of the list ticked. */
  function TickAt(s: State, k: nat): (r: State)
    requires Valid(s) && k < |s.items|
    ensures Valid(r)
  {
    State(s.items[k := TickItem(s.items[k])], TickCell(s.items[k], s.cells))
  }

  /** The first `k` items ticked, from the head on. */
  function TickedTo(s: State, k: nat): (r: State)
    requires Valid(s) && k <= |s.items|
    ensures Valid(r)
  {
    State(TickItems(s.items[..k]) + s.items[k..], TickCells(s.items[..k], s.cells))
  }

  lemma TickedNext(s: State, k: nat)
    requires Valid(s) && k < |s.items|
    ensures TickAt(TickedTo(s, k), k) == TickedTo(s, k + 1)
  {
    assert s.items[..k + 1][..k] == s.items[..k];
    assert TickedTo(s, k).items[k] == s.items[k];
  }

  lemma TickedAll(s: State)
    requires Valid(s)
    ensures TickedTo(s, |s.items|) == State(TickItems(s.items), TickCells(s.items, s.cells))
  {
    assert s.items[..|s.items|] == s.items;
  }

  // ----- list operations -----

  /** The first item at a location, or -1. */
  function IndexOf(items: seq<Item>, location: uint16): (r: int)
    ensures -1 <= r < |items|
    ensures r >= 0 ==> items[r].location == location && forall k :: 0 <= k < r ==> items[k].location != location
    ensures r < 0 ==> forall k :: 0 <= k < |items| ==> items[k].location != location
  {
    if items == [] then -1
    else if items[0].location == location then 0
    else
      var r := IndexOf(items[1..], location);
      if r < 0 then -1 else r + 1
  }

  function Started(i: Item): Item {
    i.(countdown := i.onLength, status := 1)
  }

  /** `mp1_ioctl_add` */
  function Add(s: State, i: Item): (State, int)
    requires Valid(s)
  {
    if i.location >= SLOTS || |s.items| == SLOTS then (s, -1)
    else (State([Started(i)] + s.items, Poke(s.cells, i.location, i.onChar)), 0)
  }

  function Without(items: seq<Item>, k: nat): seq<Item>
    requires k < |items|
  {
    items[..k] + items[k + 1..]
  }

  /** `mp1_ioctl_remove` */
  function Remove(s: State, location: uint16): (State, int) {
    var k := IndexOf(s.items, location);
    if k < 0 then (s, -1) else (s.(items := Without(s.items, k)), 0)
  }

  /** The first item at the location goes, and nothing else changes; -1 when there is none. */
  lemma RemoveTakesFirst(s: State, location: uint16)
    ensures var (r, code) := Remove(s, location);
            && (code == -1 <==> forall j :: 0 <= j < |s.items| ==> s.items[j].location != location)
            && (code == -1 ==> r == s)
            && (code != -1 ==> code == 0 && exists k ::
                  && 0 <= k < |s.items| && s.items[k].location == location
                  && (forall j :: 0 <= j < k ==> s.items[j].location != location)
                  && r == State(s.items[..k] + s.items[k + 1..], s.cells))
  {
    var k := IndexOf(s.items, location);
    if k >= 0 {
      assert s.items[k].location == location;
    }
  }

  function Synced(from: Item, to: Item): Item {
    to.(onLength := from.onLength, offLength := from.offLength, countdown := from.countdown, status := from.status)
  }

  /** Item `b` takes over the clock of item `a`.  Its cell gets the off character whatever the phase,
      because the condition for the other one is never true. */
  function SyncAt(s: State, a: nat, b: nat): State
    requires Valid(s) && a < |s.items| && b < |s.items|
  {
    State(s.items[b := Synced(s.items[a], s.items[b])], Poke(s.cells, s.items[b].location, s.items[b].offChar))
  }

  /** `mp1_ioctl_sync` */
  function Sync(s: State, first: uint16, second: uint16): (State, int)
    requires Valid(s)
  {
    var a, b := IndexOf(s.items, first), IndexOf(s.items, second);
    if a < 0 || b < 0 then (s, -1)
    else (SyncAt(s, a, b), 0)
  }

  datatype Op = Tick | Insert(item: Item) | Delete(location: uint16) | Align(first: uint16, second: uint16)

  predicate Legal(op: Op) {
    op.Insert? ==> op.item.location != 0
  }

  function Apply(s: State, op: Op): (r: State)
    requires Valid(s) && Legal(op)
    ensures Valid(r)
  {
    match op
    case Tick => State(TickItems(s.items), TickCells(s.items, s.cells))
    case Insert(i) => Add(s, i).0
    case Delete(location) => Remove(s, location).0
    case Align(first, second) => Sync(s, first, second).0
  }

  function Run(s: State, ops: seq<Op>): (r: State)
    requires Valid(s) && forall op :: op in ops ==> Legal(op)
    ensures Valid(r)
  {
    if ops == [] then s else Apply(Run(s, ops[..|ops| - 1]), ops[|ops| - 1])
  }

  // ----- how long a phase lasts -----

  /** How many ticks a countdown of `c` takes: itself up to 32768, and a single tick for 0 and for the
      values that the signed comparison takes for negative. */
  function Lasts(c: uint16): (n: nat)
    ensures 1 <= n <= 0x8000
  {
    if 1 <= c <= 0x8000 then c else 1
  }

  lemma TickLasts(c: uint16)
    ensures Expires(c) <==> Lasts(c) == 1
    ensures !Expires(c) ==> Lasts(Decremented(c)) == Lasts(c) - 1
  {
    if c == 0 {
      assert Decremented(c) == 0xFFFF;
    } else {
      assert Decremented(c) == c - 1;
    }
  }

  /** An item is `m` ticks into its cycle: on for the first part, off for the rest. */
  ghost predicate AtPhase(i: Item, m: nat) {
    var a, b := Lasts(i.onLength), Lasts(i.offLength);
    && m < a + b
    && (if m < a then i.status == 1 && Lasts(i.countdown) == a - m
        else i.status == 0 && Lasts(i.countdown) == a + b - m)
  }

  function Around(m: nat, k: nat): nat {
    if m + 1 == k then 0 else m + 1
  }

  /** One tick moves an item one step around its cycle. */
  lemma TickAdvances(i: Item, m: nat)
    requires AtPhase(i, m)
    ensures AtPhase(TickItem(i), Around(m, Lasts(i.onLength) + Lasts(i.offLength)))
  {
    TickLasts(i.countdown);
  }

  /** `n` steps around a cycle of `k`. */
  function Steps(n: nat, k: nat): (m: nat)
    requires k > 0
    ensures m < k
  {
    if n == 0 then 0 else Around(Steps(n - 1, k), k)
  }

  lemma {:induction false} StepsIsMod(n: nat, k: nat)
    requires k > 0
    ensures Steps(n, k) == n % k
  {
    var q := Rounds(n, k);
    SameRemainder(k, q, Steps(n, k), n / k, n % k);
  }

  lemma SameRemainder(k: nat, q: int, r: nat, d: int, m: nat)
    requires r < k && m < k && k * q + r == k * d + m
    ensures r == m
  {
    if q < d {
      Scaled(k, q + 1, d);
    } else if d < q {
      Scaled(k, d + 1, q);
    }
  }

  lemma {:induction false} Rounds(n: nat, k: nat) returns (q: nat)
    requires k > 0
    ensures n == k * q + Steps(n, k)
  {
    if n == 0 {
      q := 0;
    } else {
      var before := Rounds(n - 1, k);
      q := if Steps(n - 1, k) + 1 == k then before + 1 else before;
      assert k * (before + 1) == k * before + k;
    }
  }

  lemma Scaled(k: nat, a: int, b: int)
    requires a <= b
    ensures k * a <= k * b
  {
  }

  // ----- one item among others -----

  /** The only item at its location. */
  ghost predicate Sole(items: seq<Item>, k: nat) {
    k < |items| && forall j :: 0 <= j < |items| && j != k ==> items[j].location != items[k].location
  }

  /** A tick touches a cell only on behalf of the items there. */
  lemma {:induction false} CellAfterTick(items: seq<Item>, cells: seq<byte>, location: nat)
    requires |cells| == CELL_BYTES && location < SLOTS
    requires forall i :: 0 <= i < |items| ==> items[i].location < SLOTS && items[i].location != location
    ensures TickCells(items, cells)[2 * location] == cells[2 * location]
  {
    if items != [] {
      CellAfterTick(items[..|items| - 1], cells, location);
    }
  }

  lemma {:induction false} SoleCellAfterTick(items: seq<Item>, cells: seq<byte>, k: nat)
    requires |cells| == CELL_BYTES && Sole(items, k)
    requires forall i :: 0 <= i < |items| ==> items[i].location < SLOTS
    ensures TickCells(items, cells)[2 * items[k].location] ==
            if Expires(items[k].countdown) then Phase(TickItem(items[k])) else cells[2 * items[k].location]
  {
    var init := items[..|items| - 1];
    if k == |items| - 1 {
      CellAfterTick(init, cells, items[k].location);
    } else {
      SoleCellAfterTick(init, cells, k);
    }
  }

  /** The item made as `i` is `m` ticks into its cycle, alone at its location, and its cell shows `c`. */
  ghost predicate Showing(s: State, i: Item, m: nat, c: byte) {
    && Valid(s)
    && exists k: nat :: k < |s.items| && ShowingAt(s, i, m, c, k)
  }

  ghost predicate ShowingAt(s: State, i: Item, m: nat, c: byte, k: nat)
    requires Valid(s) && k < |s.items|
  {
    var n := s.items[k];
    && Sole(s.items, k) && AtPhase(n, m) && s.cells[2 * n.location] == c
    && n == i.(countdown := n.countdown, status := n.status)
  }

  /** An operation that neither removes nor replaces nor re-synchronises the item at `location`. */
  predicate Elsewhere(op: Op, location: uint16) {
    match op
    case Tick => true
    case Insert(i) => i.location != location
    case Delete(l) => l != location
    case Align(_, second) => second != location
  }

  function Cycle(i: Item): (k: nat)
    ensures k > 0
  {
    Lasts(i.onLength) + Lasts(i.offLength)
  }

  /** The character an item should show `m` ticks into its cycle. */
  function CharAt(i: Item, m: nat): byte {
    if m < Lasts(i.onLength) then i.onChar else i.offChar
  }

  /** A phase begins at `m`. */
  predicate Begins(i: Item, m: nat) {
    m == 0 || m == Lasts(i.onLength)
  }

  lemma PhaseChar(n: Item, m: nat)
    requires AtPhase(n, m)
    ensures Phase(n) == CharAt(n, m)
    ensures Expires(n.countdown) <==> Begins(n, Around(m, Cycle(n)))
  {
    TickLasts(n.countdown);
  }

  /** A tick redraws the cell when a phase begins, and only then. */
  lemma TickShowing(s: State, i: Item, m: nat, c: byte)
    requires Showing(s, i, m, c)
    ensures var m' := Around(m, Cycle(i)); Showing(Apply(s, Tick), i, m', if Begins(i, m') then CharAt(i, m') else c)
  {
    var k: nat :| k < |s.items| && ShowingAt(s, i, m, c, k);
    var r, n, m' := Apply(s, Tick), s.items[k], Around(m, Cycle(i));
    TickAdvances(n, m);
    PhaseChar(n, m);
    PhaseChar(TickItem(n), m');
    SoleCellAfterTick(s.items, s.cells, k);
    forall j | 0 <= j < |r.items| ensures r.items[j].location == s.items[j].location {}
    assert ShowingAt(r, i, m', if Begins(i, m') then CharAt(i, m') else c, k);
  }

  lemma InsertShowing(s: State, i: Item, m: nat, c: byte, other: Item)
    requires Showing(s, i, m, c) && other.location != i.location && Legal(Insert(other))
    ensures Showing(Apply(s, Insert(other)), i, m, c)
  {
    var k: nat :| k < |s.items| && ShowingAt(s, i, m, c, k);
    var r := Apply(s, Insert(other));
    if other.location < SLOTS && |s.items| < SLOTS {
      assert r.items[k + 1] == s.items[k];
      forall j | 0 <= j < |r.items| && j != k + 1 ensures r.items[j].location != i.location {
        assert j > 0 ==> r.items[j] == s.items[j - 1];
      }
      assert ShowingAt(r, i, m, c, k + 1);
    }
  }

  lemma DeleteShowing(s: State, i: Item, m: nat, c: byte, location: uint16)
    requires Showing(s, i, m, c) && location != i.location
    ensures Showing(Apply(s, Delete(location)), i, m, c)
  {
    var k: nat :| k < |s.items| && ShowingAt(s, i, m, c, k);
    var r := Apply(s, Delete(location));
    var d := IndexOf(s.items, location);
    if d >= 0 {
      var k' := if k < d then k else k - 1;
      assert r.items[k'] == s.items[k];
      forall j | 0 <= j < |r.items| && j != k' ensures r.items[j].location != i.location {
        assert r.items[j] == s.items[if j < d then j else j + 1];
      }
      assert ShowingAt(r, i, m, c, k');
    }
  }

  lemma AlignShowing(s: State, i: Item, m: nat, c: byte, first: uint16, second: uint16)
    requires Showing(s, i, m, c) && second != i.location
    ensures Showing(Apply(s, Align(first, second)), i, m, c)
  {
    var k: nat :| k < |s.items| && ShowingAt(s, i, m, c, k);
    var r := Apply(s, Align(first, second));
    var a, b := IndexOf(s.items, first), IndexOf(s.items, second);
    if a >= 0 && b >= 0 {
      forall j | 0 <= j < |r.items| ensures r.items[j].location == s.items[j].location {}
      assert r.items[k] == s.items[k];
      assert ShowingAt(r, i, m, c, k);
    }
  }

  lemma OpShowing(s: State, i: Item, m: nat, c: byte, op: Op)
    requires Valid(s) && Showing(s, i, m, c) && Legal(op) && Elsewhere(op, i.location)
    ensures var m' := Around(m, Cycle(i));
            if op.Tick? then Showing(Apply(s, op), i, m', if Begins(i, m') then CharAt(i, m') else c)
            else Showing(Apply(s, op), i, m, c)
  {
    match op
    case Tick => TickShowing(s, i, m, c);
    case Insert(other) => InsertShowing(s, i, m, c, other);
    case Delete(location) => DeleteShowing(s, i, m, c, location);
    case Align(first, second) => AlignShowing(s, i, m, c, first, second);
  }

  function Ticks(ops: seq<Op>): nat {
    if ops == [] then 0 else Ticks(ops[..|ops| - 1]) + (if ops[|ops| - 1].Tick? then 1 else 0)
  }

  /** How many ticks are left of the phase at `m`. */
  function Left(i: Item, m: nat): int {
    (if m < Lasts(i.onLength) then Lasts(i.onLength) else Cycle(i)) - m
  }

  /** What the cell shows `t` ticks after it showed `c`, `m` ticks into the cycle. */
  function CharAfter(i: Item, m: nat, c: byte, t: nat): byte {
    if t < Left(i, m) then c else CharAt(i, Steps(m + t, Cycle(i)))
  }

  /** Up to the end of the phase no phase begins, and there one does. */
  lemma {:induction false} PhaseStep(i: Item, m: nat, t: nat)
    requires m < Cycle(i)
    ensures t < Left(i, m) ==> Steps(m + t, Cycle(i)) == m + t
    ensures t + 1 < Left(i, m) ==> !Begins(i, Around(Steps(m + t, Cycle(i)), Cycle(i)))
    ensures t + 1 == Left(i, m) ==> Begins(i, Around(Steps(m + t, Cycle(i)), Cycle(i)))
  {
    StepsBelow(m, Cycle(i));
    if t > 0 {
      PhaseStep(i, m, t - 1);
    }
  }

  lemma {:induction false} StepsBelow(m: nat, k: nat)
    requires m < k
    ensures Steps(m, k) == m
  {
    if m > 0 {
      StepsBelow(m - 1, k);
    }
  }

  lemma CharStep(i: Item, m: nat, c: byte, t: nat)
    requires m < Cycle(i)
    ensures var m' := Around(Steps(m + t, Cycle(i)), Cycle(i));
            && m' == Steps(m + (t + 1), Cycle(i))
            && CharAfter(i, m, c, t + 1) == if Begins(i, m') then CharAt(i, m') else CharAfter(i, m, c, t)
  {
    PhaseStep(i, m, t);
    assert m + (t + 1) - 1 == m + t;
  }

  lemma {:induction false} RunShowing(s: State, i: Item, m: nat, c: byte, ops: seq<Op>)
    requires Valid(s) && Showing(s, i, m, c) && m < Cycle(i)
    requires forall op :: op in ops ==> Legal(op) && Elsewhere(op, i.location)
    ensures Showing(Run(s, ops), i, Steps(m + Ticks(ops), Cycle(i)), CharAfter(i, m, c, Ticks(ops)))
  {
    hide Showing, CharAfter, CharAt, Begins, Apply, Cycle;
    if ops == [] {
      StepsBelow(m, Cycle(i));
      NothingYet(i, m, c);
    } else {
      var init := ops[..|ops| - 1];
      var t := Ticks(init);
      RunShowing(s, i, m, c, init);
      OpShowing(Run(s, init), i, Steps(m + t, Cycle(i)), CharAfter(i, m, c, t), ops[|ops| - 1]);
      CharStep(i, m, c, t);
    }
  }

  lemma NothingYet(i: Item, m: nat, c: byte)
    requires m < Cycle(i)
    ensures CharAfter(i, m, c, 0) == c
  {
  }

  lemma ShownAfter(s: State, i: Item, m: nat, c: byte, ops: seq<Op>)
    requires Valid(s) && Showing(s, i, m, c) && m < Cycle(i)
    requires forall op :: op in ops ==> Legal(op) && Elsewhere(op, i.location)
    ensures i.location < SLOTS && Run(s, ops).cells[2 * i.location] == CharAfter(i, m, c, Ticks(ops))
  {
    hide Run, CharAfter, Cycle;
    RunShowing(s, i, m, c, ops);
  }

  /** Timing: t ticks after an item is added at a free location, whatever happens to other items in
      between, its cell shows the on character exactly when t modulo its cycle falls in the on part.  The
      parts last as long as the lengths asked for when those are between 1 and 32768. */
  lemma BlinkTiming(s: State, i: Item, ops: seq<Op>)
    requires Valid(s) && 0 < i.location < SLOTS && |s.items| < SLOTS && IndexOf(s.items, i.location) < 0
    requires forall op :: op in ops ==> Legal(op) && Elsewhere(op, i.location)
    ensures Run(Apply(s, Insert(i)), ops).cells[2 * i.location] ==
            if Ticks(ops) % Cycle(i) < Lasts(i.onLength) then i.onChar else i.offChar
    ensures 1 <= i.onLength <= 0x8000 <==> Lasts(i.onLength) == i.onLength
    ensures 1 <= i.offLength <= 0x8000 <==> Lasts(i.offLength) == i.offLength
  {
    hide Showing, Apply, Run;
    InsertShows(s, i);
    ShownAfter(Apply(s, Insert(i)), i, 0, i.onChar, ops);
    StepsIsMod(Ticks(ops), Cycle(i));
    PhaseStep(i, 0, Ticks(ops));
  }

  lemma InsertShows(s: State, i: Item)
    requires Valid(s) && 0 < i.location < SLOTS && |s.items| < SLOTS && IndexOf(s.items, i.location) < 0
    ensures Showing(Apply(s, Insert(i)), i, 0, i.onChar)
  {
    var r := Apply(s, Insert(i));
    forall j | 1 <= j < |r.items| ensures r.items[j].location != i.location {
      assert r.items[j] == s.items[j - 1];
    }
    assert ShowingAt(r, i, 0, i.onChar, 0);
  }

  // ----- a location without items -----

  ghost predicate Vacant(s: State, location: uint16) {
    forall j :: 0 <= j < |s.items| ==> s.items[j].location != location
  }

  /** An item that was alone at its location is gone once removed. */
  lemma RemovedIsGone(s: State, location: uint16)
    requires Valid(s) && IndexOf(s.items, location) >= 0 && Sole(s.items, IndexOf(s.items, location))
    ensures Vacant(Apply(s, Delete(location)), location)
    ensures Apply(s, Delete(location)).cells == s.cells
  {
    WithoutItems(s.items, IndexOf(s.items, location));
  }

  lemma VacantStays(s: State, op: Op, location: uint16)
    requires Valid(s) && Legal(op) && Vacant(s, location) && location < SLOTS
    requires op.Insert? ==> op.item.location != location
    ensures Vacant(Apply(s, op), location) && Apply(s, op).cells[2 * location] == s.cells[2 * location]
  {
    match op
    case Tick => CellAfterTick(s.items, s.cells, location);
    case Insert(i) =>
    case Delete(l) =>
      if IndexOf(s.items, l) >= 0 {
        WithoutItems(s.items, IndexOf(s.items, l));
      }
    case Align(first, second) =>
  }

  /** While nothing is inserted at a vacant location, its cell stays as it is. */
  lemma {:induction false} VacantIsQuiet(s: State, ops: seq<Op>, location: uint16)
    requires Valid(s) && Vacant(s, location) && location < SLOTS
    requires forall op :: op in ops ==> Legal(op) && (op.Insert? ==> op.item.location != location)
    ensures Vacant(Run(s, ops), location) && Run(s, ops).cells[2 * location] == s.cells[2 * location]
  {
    if ops != [] {
      VacantIsQuiet(s, ops[..|ops| - 1], location);
      VacantStays(Run(s, ops[..|ops| - 1]), ops[|ops| - 1], location);
    }
  }

  // ----- synchronised items -----

  ghost predicate SameClock(s: State, first: uint16, second: uint16) {
    var a, b := IndexOf(s.items, first), IndexOf(s.items, second);
    && a >= 0 && b >= 0
    && s.items[b] == Synced(s.items[a], s.items[b])
  }

  lemma IndexOfIs(items: seq<Item>, location: uint16, k: nat)
    requires k < |items| && items[k].location == location && forall j :: 0 <= j < k ==> items[j].location != location
    ensures IndexOf(items, location) == k
  {
  }

  /** The second item takes the first one's lengths, countdown and status; its place and characters, all other
      items, and all other cells are as before. */
  lemma SyncChanges(s: State, first: uint16, second: uint16, j: nat)
    requires Valid(s) && IndexOf(s.items, first) >= 0 && IndexOf(s.items, second) >= 0 && j < |s.items|
    ensures var a, b, (r, code) := IndexOf(s.items, first), IndexOf(s.items, second), Sync(s, first, second);
            && code == 0 && |r.items| == |s.items|
            && (j != b ==> r.items[j] == s.items[j])
            && var x, y, z := s.items[a], s.items[b], r.items[b];
               && z.location == second && z.onChar == y.onChar && z.offChar == y.offChar
               && z.onLength == x.onLength && z.offLength == x.offLength
               && z.countdown == x.countdown && z.status == x.status
               && forall k :: 0 <= k < CELL_BYTES ==> r.cells[k] == if k == 2 * second then y.offChar else s.cells[k]
  {
  }

  /** `mp1_ioctl_sync` gives both items the same clock. */
  lemma SyncAligns(s: State, first: uint16, second: uint16)
    requires Valid(s) && IndexOf(s.items, first) >= 0 && IndexOf(s.items, second) >= 0
    ensures SameClock(Apply(s, Align(first, second)), first, second)
  {
    var r := Apply(s, Align(first, second));
    var a, b := IndexOf(s.items, first), IndexOf(s.items, second);
    forall j | 0 <= j < |r.items| ensures r.items[j].location == s.items[j].location {}
    IndexOfIs(r.items, first, a);
    IndexOfIs(r.items, second, b);
  }

  /** The cell of the second item is right just after a sync exactly when the first item is in its off phase,
      or the second item's characters do not differ. */
  lemma SyncDrawsRight(s: State, first: uint16, second: uint16)
    requires Valid(s) && IndexOf(s.items, first) >= 0 && IndexOf(s.items, second) >= 0
    ensures var a, b, r := IndexOf(s.items, first), IndexOf(s.items, second), Apply(s, Align(first, second));
            r.cells[2 * second] == Phase(r.items[b]) <==>
              s.items[a].status % 2 == 0 || s.items[b].onChar == s.items[b].offChar
  {
  }

  /** The off character until the phase at `m` ends, and from then on what the clock says. */
  function SyncedChar(i: Item, m: nat, t: nat): byte {
    if t < Left(i, m) || (m + t) % Cycle(i) >= Lasts(i.onLength) then i.offChar else i.onChar
  }

  /** After a sync with an item `m` ticks into its cycle the second item's cell shows its off character until
      that item's phase ends, and from then on what the shared clock says. */
  lemma SyncTiming(s: State, first: uint16, second: uint16, m: nat, ops: seq<Op>)
    requires Valid(s) && IndexOf(s.items, first) >= 0 && IndexOf(s.items, second) >= 0
    requires AtPhase(s.items[IndexOf(s.items, first)], m) && Sole(s.items, IndexOf(s.items, second))
    requires forall op :: op in ops ==> Legal(op) && Elsewhere(op, second)
    ensures var i := Synced(s.items[IndexOf(s.items, first)], s.items[IndexOf(s.items, second)]);
            Run(Apply(s, Align(first, second)), ops).cells[2 * second] == SyncedChar(i, m, Ticks(ops))
  {
    var i := Synced(s.items[IndexOf(s.items, first)], s.items[IndexOf(s.items, second)]);
    hide Showing, AtPhase, Apply, CharAfter, SyncedChar, Cycle, Run, Synced, Sole, Elsewhere, Legal;
    SyncShows(s, first, second, m);
    ShownAfter(Apply(s, Align(first, second)), i, m, i.offChar, ops);
    OffUntil(i, m, Ticks(ops));
  }

  lemma OffUntil(i: Item, m: nat, t: nat)
    requires m < Cycle(i)
    ensures CharAfter(i, m, i.offChar, t) == SyncedChar(i, m, t)
  {
    StepsIsMod(m + t, Cycle(i));
  }

  lemma SyncShows(s: State, first: uint16, second: uint16, m: nat)
    requires Valid(s) && IndexOf(s.items, first) >= 0 && IndexOf(s.items, second) >= 0
    requires AtPhase(s.items[IndexOf(s.items, first)], m) && Sole(s.items, IndexOf(s.items, second))
    ensures var i := Synced(s.items[IndexOf(s.items, first)], s.items[IndexOf(s.items, second)]);
            i.location == second && m < Cycle(i) && Showing(Apply(s, Align(first, second)), i, m, i.offChar)
  {
    var a, b, r := IndexOf(s.items, first), IndexOf(s.items, second), Apply(s, Align(first, second));
    var i := Synced(s.items[a], s.items[b]);
    forall j | 0 <= j < |r.items| ensures r.items[j].location == s.items[j].location {}
    assert ShowingAt(r, i, m, i.offChar, b);
  }

  /** An item is somewhere in its cycle. */
  ghost predicate InCycle(i: Item) {
    exists m: nat :: AtPhase(i, m)
  }

  ghost predicate Phased(s: State) {
    forall k :: 0 <= k < |s.items| ==> InCycle(s.items[k])
  }

  lemma PhasedKept(s: State, op: Op)
    requires Valid(s) && Legal(op) && Phased(s)
    ensures Phased(Apply(s, op))
  {
    forall k | 0 <= k < |Apply(s, op).items| ensures InCycle(Apply(s, op).items[k]) {
      PhasedItem(s, op, k);
    }
  }

  lemma PhasedItem(s: State, op: Op, k: nat)
    requires Valid(s) && Legal(op) && Phased(s) && k < |Apply(s, op).items|
    ensures InCycle(Apply(s, op).items[k])
  {
    match op
    case Tick =>
      var m: nat :| AtPhase(s.items[k], m);
      TickAdvances(s.items[k], m);
    case Insert(i) =>
      assert AtPhase(Started(i), 0);
    case Delete(location) =>
    case Align(first, second) =>
      var a := IndexOf(s.items, first);
      if a >= 0 {
        var m: nat :| AtPhase(s.items[a], m);
        assert forall b | 0 <= b < |s.items| :: AtPhase(Synced(s.items[a], s.items[b]), m);
      }
  }

  /** In every run from an empty list every item is somewhere in its cycle. */
  lemma {:induction false} PhasedRun(s: State, ops: seq<Op>)
    requires Valid(s) && Phased(s) && forall op :: op in ops ==> Legal(op)
    ensures Phased(Run(s, ops))
  {
    if ops != [] {
      PhasedRun(s, ops[..|ops| - 1]);
      PhasedKept(Run(s, ops[..|ops| - 1]), ops[|ops| - 1]);
    }
  }

  /** It is enough to follow each of the two items to its new place. */
  lemma ClockMoved(s: State, r: State, first: uint16, second: uint16, a: nat, b: nat)
    requires SameClock(s, first, second) && a < |r.items| && b < |r.items|
    requires var x, y := s.items[IndexOf(s.items, first)], s.items[IndexOf(s.items, second)];
             (r.items[a] == x && r.items[b] == y) || (r.items[a] == TickItem(x) && r.items[b] == TickItem(y))
    requires forall j :: 0 <= j < a ==> r.items[j].location != first
    requires forall j :: 0 <= j < b ==> r.items[j].location != second
    ensures SameClock(r, first, second)
  {
    IndexOfIs(r.items, first, a);
    IndexOfIs(r.items, second, b);
  }

  lemma TickClock(s: State, first: uint16, second: uint16)
    requires Valid(s) && SameClock(s, first, second)
    ensures SameClock(Apply(s, Tick), first, second)
  {
    ClockMoved(s, Apply(s, Tick), first, second, IndexOf(s.items, first), IndexOf(s.items, second));
  }

  lemma InsertClock(s: State, i: Item, first: uint16, second: uint16)
    requires Valid(s) && Legal(Insert(i)) && SameClock(s, first, second) && i.location != first && i.location != second
    ensures SameClock(Apply(s, Insert(i)), first, second)
  {
    var r := Apply(s, Insert(i));
    if i.location < SLOTS && |s.items| < SLOTS {
      forall j | 1 <= j < |r.items| ensures r.items[j] == s.items[j - 1] {}
      ClockMoved(s, r, first, second, IndexOf(s.items, first) + 1, IndexOf(s.items, second) + 1);
    }
  }

  lemma WithoutItems(items: seq<Item>, d: nat)
    requires d < |items|
    ensures var r := Without(items, d);
            |r| == |items| - 1 && forall j :: 0 <= j < |r| ==> r[j] == items[if j < d then j else j + 1]
  {
  }

  /** Taking out another item moves the two items at most one place. */
  lemma ClockLeft(s: State, r: State, d: nat, first: uint16, second: uint16)
    requires SameClock(s, first, second) && d < |s.items| && |r.items| == |s.items| - 1
    requires forall j :: 0 <= j < |r.items| ==> r.items[j] == s.items[if j < d then j else j + 1]
    requires s.items[d].location != first && s.items[d].location != second
    ensures SameClock(r, first, second)
  {
    var a, b := IndexOf(s.items, first), IndexOf(s.items, second);
    ClockMoved(s, r, first, second, if a < d then a else a - 1, if b < d then b else b - 1);
  }

  lemma DeleteClock(s: State, location: uint16, first: uint16, second: uint16)
    requires Valid(s) && SameClock(s, first, second) && location != first && location != second
    ensures SameClock(Apply(s, Delete(location)), first, second)
  {
    var d := IndexOf(s.items, location);
    if d >= 0 {
      var r := Apply(s, Delete(location));
      WithoutItems(s.items, d);
      ClockLeft(s, r, d, first, second);
    }
  }

  lemma AlignClock(s: State, from: uint16, to: uint16, first: uint16, second: uint16)
    requires Valid(s) && SameClock(s, first, second) && to != first && to != second
    ensures SameClock(Apply(s, Align(from, to)), first, second)
  {
    var r := Apply(s, Align(from, to));
    if IndexOf(s.items, from) >= 0 && IndexOf(s.items, to) >= 0 {
      forall j | 0 <= j < |r.items| ensures r.items[j].location == s.items[j].location {}
      ClockMoved(s, r, first, second, IndexOf(s.items, first), IndexOf(s.items, second));
    }
  }

  lemma ClockKept(s: State, op: Op, first: uint16, second: uint16)
    requires Valid(s) && Legal(op) && SameClock(s, first, second) && Elsewhere(op, first) && Elsewhere(op, second)
    ensures SameClock(Apply(s, op), first, second)
  {
    match op
    case Tick => TickClock(s, first, second);
    case Insert(i) => InsertClock(s, i, first, second);
    case Delete(location) => DeleteClock(s, location, first, second);
    case Align(from, to) => AlignClock(s, from, to, first, second);
  }

  /** Once synchronised, two items stay so, and so change phase on the same ticks, until one of them is
      removed, replaced or synchronised again. */
  lemma {:induction false} ClocksStayAligned(s: State, ops: seq<Op>, first: uint16, second: uint16)
    requires Valid(s) && SameClock(s, first, second)
    requires forall op :: op in ops ==> Legal(op) && Elsewhere(op, first) && Elsewhere(op, second)
    ensures SameClock(Run(s, ops), first, second)
    ensures var r := Run(s, ops);
            var x, y := r.items[IndexOf(r.items, first)], r.items[IndexOf(r.items, second)];
            x.status == y.status && Expires(x.countdown) == Expires(y.countdown)
  {
    if ops != [] {
      var init := ops[..|ops| - 1];
      ClocksStayAligned(s, init, first, second);
      ClockKept(Run(s, init), ops[|ops| - 1], first, second);
    }
  }
}
