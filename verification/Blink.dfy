/** The blink list in its fixed arena: nodes linked by index, allocated first-fit, unlinked and timed in
    place, against `BlinkSpec`. */
module Blink {
  import opened Words
  import opened BlinkSpec

  const NULL: int := -1

  /** A `mp1_blink_struct`: its data and the arena index of the next node. */
  datatype Node = Node(item: Item, next: int)

  const FreeNode: Node := Node(Item(0, 0, 0, 0, 0, 0, 0), 0)

  // ----- lists without repetition -----

  ghost predicate Distinct(s: seq<nat>) {
    forall i, j :: 0 <= i < j < |s| ==> s[i] != s[j]
  }

  function Upto(n: nat): (r: set<nat>)
    ensures |r| == n && forall x: nat :: x in r <==> x < n
  {
    if n == 0 then {} else Upto(n - 1) + {n - 1}
  }

  function Elements(s: seq<nat>): set<nat> {
    set x | x in s
  }

  ghost predicate Covers(s: seq<nat>, n: nat) {
    forall p: nat :: p < n ==> p in s
  }

  lemma {:induction false} CountElements(s: seq<nat>)
    requires Distinct(s)
    ensures |Elements(s)| == |s|
  {
    if s == [] {
      assert Elements(s) == {};
    } else {
      var init, last := s[..|s| - 1], s[|s| - 1];
      CountElements(init);
      assert s == init + [last];
      assert Elements(s) == Elements(init) + {last};
      assert last !in Elements(init);
    }
  }

  lemma {:induction false} Fewer(a: set<nat>, b: set<nat>)
    requires a <= b
    ensures |a| <= |b|
  {
    if a != {} {
      var x :| x in a;
      Fewer(a - {x}, b - {x});
    }
  }

  /** A list of distinct arena slots is no longer than the arena, and as long exactly when it has them all. */
  lemma Pigeonhole(s: seq<nat>, n: nat)
    requires Distinct(s) && forall i :: 0 <= i < |s| ==> s[i] < n
    ensures |s| <= n
    ensures |s| == n <==> Covers(s, n)
  {
    var m := Elements(s);
    CountElements(s);
    assert m <= Upto(n);
    Fewer(m, Upto(n));
    if Covers(s, n) {
      assert Upto(n) == m;
    } else {
      var p: nat :| p < n && p !in s;
      assert m <= Upto(n) - {p};
      Fewer(m, Upto(n) - {p});
    }
  }

  /** Where place `i` of a list was before its place `k` was taken out. */
  function Before(i: nat, k: nat): nat {
    if i < k then i else i + 1
  }

  lemma TakenOut(s: seq<nat>, k: nat) returns (r: seq<nat>)
    requires k < |s| && Distinct(s)
    ensures |r| == |s| - 1 && Distinct(r)
    ensures forall i :: 0 <= i < |r| ==> r[i] == s[Before(i, k)] && r[i] != s[k]
    ensures forall q :: q != s[k] && q !in r ==> q !in s
  {
    r := s[..k] + s[k + 1..];
    assert s == s[..k] + [s[k]] + s[k + 1..];
  }

  lemma PushedAt(items: seq<Item>, item: Item, r: seq<Item>)
    requires |r| == |items| + 1 && r[0] == item && forall i :: 0 < i < |r| ==> r[i] == items[i - 1]
    ensures r == [item] + items
  {
  }

  lemma WithoutAt(items: seq<Item>, k: nat, r: seq<Item>)
    requires k < |items| && |r| == |items| - 1
    requires forall i :: 0 <= i < |r| ==> r[i] == items[Before(i, k)]
    ensures r == Without(items, k)
  {
  }

  class BlinkList {
    const arena: array<Node>
    const vmem: array<byte>
    var head: int
    ghost var list: seq<nat>

    /** The index of the `i`-th node, or null past the end. */
    ghost function At(i: nat): int
      reads this
    {
      if i < |list| then list[i] else NULL
    }

    /** Node `i` of the list points to node `i + 1`. */
    ghost predicate LinkAt(i: nat)
      requires arena.Length == SLOTS && i < |list| && list[i] < SLOTS
      reads this, arena
    {
      arena[list[i]].next == At(i + 1)
    }

    /** Following `next` from `head` runs through `list` and ends, so the list has no cycle. */
    ghost predicate Linked()
      reads this, arena
    {
      && arena.Length == SLOTS && vmem.Length == CELL_BYTES
      && head == At(0) && Distinct(list)
      && (forall i :: 0 <= i < |list| ==> list[i] < SLOTS)
      && (forall i {:trigger LinkAt(i)} :: 0 <= i < |list| ==> LinkAt(i))
    }

    /** A slot is free, with location 0, exactly when it is off the list. */
    ghost predicate Valid()
      reads this, arena
    {
      && Linked()
      && (forall i :: 0 <= i < |list| ==> 0 < arena[list[i]].item.location < SLOTS)
      && (forall p: nat :: p < SLOTS && p !in list ==> arena[p].item.location == 0)
    }

    ghost function Items(): (r: seq<Item>)
      requires Linked()
      reads this, arena
      ensures |r| == |list|
    {
      seq(|list|, i requires 0 <= i < |list| reads this, arena requires Linked() => arena[list[i]].item)
    }

    ghost function Snapshot(): State
      requires Linked()
      reads this, arena, vmem
    {
      State(Items(), vmem[..])
    }

    lemma SnapshotValid()
      requires Valid()
      ensures BlinkSpec.Valid(Snapshot())
    {
      Pigeonhole(list, SLOTS);
    }

    /** The arena cleared, an empty list. */
    constructor (cells: array<byte>)
      requires cells.Length == CELL_BYTES
      ensures Valid() && Snapshot() == State([], cells[..]) && fresh(arena) && vmem == cells
    {
      arena := new Node[SLOTS](_ => FreeNode);
      vmem := cells;
      head := NULL;
      list := [];
    }

    // ----- the arena -----

    /** `mp1_malloc`: the first slot whose location is 0. */
    method Malloc() returns (p: int)
      requires Valid()
      ensures p == NULL <==> |list| == SLOTS
      ensures p != NULL ==> 0 <= p < SLOTS && p !in list && Covers(list, p)
    {
      Pigeonhole(list, SLOTS);
      var i: nat := 0;
      while i < SLOTS
        invariant i <= SLOTS && Covers(list, i)
      {
        if arena[i].item.location == 0 {
          FreeSlot(i);
          return i;
        }
        assert i in list;
        i := i + 1;
      }
      return NULL;
    }

    lemma FreeSlot(p: nat)
      requires Valid() && p < SLOTS && arena[p].item.location == 0
      ensures p !in list && !Covers(list, SLOTS)
    {
    }

    method Draw(location: nat, c: byte)
      requires location < SLOTS && vmem.Length == CELL_BYTES
      modifies vmem
      ensures vmem[..] == Poke(old(vmem[..]), location, c)
    {
      vmem[2 * location] := c;
    }

    // ----- list operations -----

    /** `mp1_ioctl_add`.  A structure at location 0 is added like any other, but its slot still counts as free:
        then, and only then, the list and the free slots are no longer apart. */
    method IoctlAdd(user: Item) returns (r: int)
      requires Valid()
      modifies this, arena, vmem
      ensures Linked() && (Valid() <==> r == -1 || user.location != 0)
      ensures r == 0 ==> head != NULL && arena[head].item.location == user.location
      ensures BlinkSpec.Valid(old(Snapshot()))
      ensures (Snapshot(), r) == Add(old(Snapshot()), user)
      ensures r == 0 || r == -1
      ensures r == -1 <==> user.location >= SLOTS || |old(list)| == SLOTS
      ensures r == -1 ==> list == old(list) && Items() == old(Items()) && vmem[..] == old(vmem[..])
      ensures r == 0 ==> |list| == |old(list)| + 1 && list[1..] == old(list) && Items()[1..] == old(Items())
    {
      hide Poke;
      SnapshotValid();
      if user.location >= SLOTS {
        return -1;
      }
      var item := user.(status := 1, countdown := user.onLength);
      var p := Malloc();
      if p == NULL {
        return -1;
      }
      Push(p, item);
      Draw(item.location, item.onChar);
      return 0;
    }

    /** Fills a free slot and puts it at the front of the list. */
    method Push(p: nat, item: Item)
      requires Valid() && p < SLOTS && p !in list && item.location < SLOTS
      modifies this`head, this`list, arena
      ensures Linked() && Items() == [item] + old(Items()) && list == [p] + old(list) && head == p && list[0] == p && arena[p].item == item
      ensures Valid() <==> item.location != 0
    {
      arena[p] := Node(item, head);
      head := p;
      list := [p] + list;
      forall i | 0 <= i < |list| ensures LinkAt(i) {
        if i > 0 {
          assert old(LinkAt(i - 1));
          assert list[i] == old(list)[i - 1];
        }
      }
      PushedAt(old(Items()), item, Items());
    }

    /** `mp1_find_helper`: the first node at the location. */
    method FindHelper(location: uint16, ghost s: State) returns (p: int)
      requires Valid() && s == Snapshot()
      ensures Valid() && s == Snapshot()
      ensures p == var k := IndexOf(s.items, location); if k < 0 then NULL else list[k]
    {
      p := head;
      ghost var k := 0;
      ghost var items := s.items;
      while p != NULL && arena[p].item.location != location
        invariant 0 <= k <= |list| && p == At(k)
        invariant forall j :: 0 <= j < k ==> items[j].location != location
        decreases |list| - k
      {
        assert LinkAt(k);
        k := k + 1;
        p := arena[p].next;
      }
      if p != NULL {
        IndexOfIs(items, location, k);
      }
    }

    /** The link that leads to node `p`: NULL for the head pointer, else the node that holds it. */
    method FindPrev(p: nat, ghost k: nat) returns (prev: int)
      requires Valid() && k < |list| && p == list[k]
      ensures if k == 0 then prev == NULL else prev == list[k - 1]
    {
      prev := NULL;
      var link := head;
      ghost var j: nat := 0;
      while link != p
        invariant j <= k && link == At(j)
        invariant if j == 0 then prev == NULL else prev == list[j - 1]
        decreases k - j
      {
        assert LinkAt(j);
        prev := link;
        link := arena[prev].next;
        j := j + 1;
      }
    }

    /** Node `k` of an earlier list is off the list, its slot is free, and the others are as they were. */
    ghost predicate Gone(was: seq<nat>, k: nat, items: seq<Item>)
      requires Linked() && k < |was| == |items|
      reads this, arena
    {
      && |list| == |was| - 1 && was[k] !in list && was[k] < SLOTS && arena[was[k]].item.location == 0
      && (forall i :: 0 <= i < |list| ==> list[i] == was[Before(i, k)])
      && Items() == items[..k] + items[k + 1..]
    }

    /** `mp1_ioctl_remove` */
    method IoctlRemove(location: uint16) returns (r: int)
      requires Valid()
      modifies this, arena
      ensures Valid()
      ensures (Snapshot(), r) == Remove(old(Snapshot()), location)
      ensures r == 0 || r == -1
      ensures r == -1 <==> forall i :: 0 <= i < |old(list)| ==> old(Items())[i].location != location
      ensures r == -1 ==> list == old(list) && Items() == old(Items())
      ensures r == 0 ==>
                exists k: nat :: k < |old(list)| && old(Items())[k].location == location
                  && (forall i :: 0 <= i < k ==> old(Items())[i].location != location)
                  && Gone(old(list), k, old(Items()))
    {
      hide Without, BlinkSpec.Valid, LinkAt;
      ghost var s := Snapshot();
      var p := FindHelper(location, s);
      if p == NULL {
        return -1;
      }
      ghost var k := IndexOf(s.items, location);
      var prev := FindPrev(p, k);
      assert k >= 0 && s.items[k].location == location;
      Unlink(p, prev, k);
      assert Gone(old(list), k, old(Items()));
      return 0;
    }

    /** Points the link past the node, clears the node, and so frees its slot. */
    method Unlink(p: nat, prev: int, ghost k: nat)
      requires Valid() && k < |list| && p == list[k]
      requires if k == 0 then prev == NULL else prev == list[k - 1]
      modifies this`head, this`list, arena
      ensures Valid() && Items() == Without(old(Items()), k) && Gone(old(list), k, old(Items()))
    {
      ghost var items, was := Items(), list;
      Bypass(p, prev, k);
      WithoutAt(items, k, Items());
      forall i | 0 <= i < |list| ensures 0 < arena[list[i]].item.location < SLOTS {
        assert list[i] == was[Before(i, k)];
      }
      Free(p);
    }

    /** Redirects the head or the previous node to the node after `p`. */
    method Bypass(p: nat, prev: int, ghost k: nat)
      requires Linked() && k < |list| && p == list[k]
      requires if k == 0 then prev == NULL else prev == list[k - 1]
      modifies this`head, this`list, arena
      ensures Linked() && |list| == |old(list)| - 1 && p !in list
      ensures forall i :: 0 <= i < |list| ==> list[i] == old(list)[Before(i, k)]
      ensures forall q :: q != p && q !in list ==> q !in old(list)
      ensures forall q: nat :: q < SLOTS ==> arena[q].item == old(arena[q].item)
    {
      assert LinkAt(k);
      ghost var shorter := TakenOut(list, k);
      var next := arena[p].next;
      if prev == NULL {
        head := next;
      } else {
        arena[prev] := arena[prev].(next := next);
      }
      list := shorter;
      forall i | 0 <= i < |list| ensures LinkAt(i) {
        assert old(LinkAt(Before(i, k)));
      }
    }

    /** Clears a node that is off the list. */
    method Free(p: nat)
      requires Linked() && p < SLOTS && p !in list
      requires forall i :: 0 <= i < |list| ==> 0 < arena[list[i]].item.location < SLOTS
      requires forall q: nat :: q < SLOTS && q != p && q !in list ==> arena[q].item.location == 0
      modifies arena
      ensures Valid() && Items() == old(Items()) && arena[p].item.location == 0
    {
      arena[p] := FreeNode;
      forall i | 0 <= i < |list| ensures LinkAt(i) {
        assert old(LinkAt(i));
      }
    }

    /** `mp1_ioctl_sync` */
    method IoctlSync(first: uint16, second: uint16) returns (r: int)
      requires Valid()
      modifies arena, vmem
      ensures Valid() && list == old(list)
      ensures BlinkSpec.Valid(old(Snapshot()))
      ensures (Snapshot(), r) == Sync(old(Snapshot()), first, second)
      ensures r == 0 || r == -1
      ensures r == -1 <==>
                || (forall i :: 0 <= i < |list| ==> old(Items())[i].location != first)
                || (forall i :: 0 <= i < |list| ==> old(Items())[i].location != second)
      ensures r == -1 ==> Items() == old(Items()) && vmem[..] == old(vmem[..])
    {
      SnapshotValid();
      ghost var s := Snapshot();
      var p := FindHelper(first, s);
      if p == NULL {
        return -1;
      }
      var q := FindHelper(second, s);
      if q == NULL {
        return -1;
      }
      CopyClock(p, q, IndexOf(s.items, first), IndexOf(s.items, second));
      return 0;
    }

    /** Gives node `q` the clock of node `p`, and draws `q`'s off character. */
    method CopyClock(p: nat, q: nat, ghost a: nat, ghost b: nat)
      requires Valid() && a < |list| && p == list[a] && b < |list| && q == list[b]
      modifies arena, vmem
      ensures Valid() && BlinkSpec.Valid(old(Snapshot())) && Snapshot() == SyncAt(old(Snapshot()), a, b)
    {
      SnapshotValid();
      var i, j := arena[p].item, arena[q].item;
      SetItem(q, j.(onLength := i.onLength, offLength := i.offLength, countdown := i.countdown, status := i.status), b);
      Draw(j.location, j.offChar);
    }

    /** Changes the data of one node and leaves its links alone. */
    method SetItem(p: nat, item: Item, ghost k: nat)
      requires Valid() && k < |list| && p == list[k] && item.location == arena[p].item.location
      modifies arena
      ensures Valid() && Items() == old(Items())[k := item]
      ensures arena[p].next == old(arena[p].next)
    {
      arena[p] := arena[p].(item := item);
      forall i | 0 <= i < |list| ensures LinkAt(i) {
        assert old(LinkAt(i));
      }
    }

    // ----- the timer -----

    /** `mp1_rtc_tasklet` */
    method Tasklet()
      requires Valid()
      modifies arena, vmem
      ensures Valid() && list == old(list)
      ensures BlinkSpec.Valid(old(Snapshot()))
      ensures Snapshot() == Apply(old(Snapshot()), Tick)
    {
      SnapshotValid();
      ghost var k, s := 0, Snapshot();
      var p := head;
      while p != NULL
        invariant Valid() && 0 <= k <= |list| && p == At(k)
        invariant Snapshot() == TickedTo(s, k)
        decreases |list| - k
      {
        assert LinkAt(k);
        TickedNext(s, k);
        TickNode(p, k);
        p := arena[p].next;
        k := k + 1;
      }
      TickedAll(s);
    }

    /** One node: count down, and at the end of a phase draw the other character and start over. */
    method TickNode(p: nat, ghost k: nat)
      requires Valid() && k < |list| && p == list[k]
      modifies arena, vmem
      ensures Valid() && arena[p].next == old(arena[p].next)
      ensures BlinkSpec.Valid(old(Snapshot())) && Snapshot() == TickAt(old(Snapshot()), k)
    {
      SnapshotValid();
      var i := arena[p].item;
      assert i == Items()[k];
      var ticked, expired, shown := CountDown(i);
      SetItem(p, ticked, k);
      if expired {
        Draw(i.location, shown);
      }
    }
  }

  /** The node's new clock, and the character to draw when its phase ends. */
  method CountDown(i: Item) returns (ticked: Item, expired: bool, shown: byte)
    ensures ticked == TickItem(i) && ticked.location == i.location
    ensures expired == Expires(i.countdown)
    ensures expired ==> shown == Phase(ticked)
  {
    var countdown := (i.countdown - 1) % 0x1_0000;
    ticked, expired, shown := i.(countdown := countdown), !(0 < countdown < 0x8000), i.onChar;
    if expired {
      if i.status % 2 == 1 {
        ticked := i.(countdown := i.offLength, status := i.status - 1);
        shown := i.offChar;
      } else {
        ticked := i.(countdown := i.onLength, status := i.status + 1);
      }
    }
  }
}
