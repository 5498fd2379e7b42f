/** Page directories and tables as words in memory, the address arithmetic that places them, and the
    hardware walk that reads them back (Intel 64 and IA-32 Architectures SDM, Volume 3A, section 4.3). */
module Paging {
  import opened Words

  const SIZE_4KB := 0x1000
  const SIZE_4MB := 0x40_0000
  const NUM_PAGES := 1024

  const KERNEL_LOCATION := 0x40_0000
  const INIT_TASK_ADDR := 0x80_0000
  const EXECUTION_ADDR := 0x800_0000
  const VIDEO := 0xB_8000
  const VIRTUAL_VID_MEM := 0x1000_0000
  const GARBAGE_VID_MEM := 0x1040_0000

  const KERNEL_STACK_SIZE := 0x2000
  const MAX_TASKS := 10

  /** The directory and the first page table that sit at the bottom of one task's frame. */
  datatype Space = Space(dir: seq<uint32>, table: seq<uint32>) {
    predicate Valid() {
      |dir| == NUM_PAGES && |table| == NUM_PAGES
    }
  }

  // ----- where things are -----

  function TaskAddr(pid: nat): nat {
    INIT_TASK_ADDR + pid * SIZE_4MB
  }

  function TaskStackAddr(pid: nat): int {
    INIT_TASK_ADDR - KERNEL_STACK_SIZE * pid - 4
  }

  /** `x & KERNEL_STACK_MASK`: the mask 0x7FE000 keeps bits 13 to 22. */
  function TaskBlockAddr(pid: nat): int {
    TaskStackAddr(pid) / KERNEL_STACK_SIZE % 0x400 * KERNEL_STACK_SIZE
  }

  /** Frames, kernel stacks and task blocks of distinct pids are disjoint; frames lie between the
      kernel and the execution window, stacks and blocks inside the kernel's 4MB page, and each
      block is the bottom of the 8KB whose last word is the top of the same pid's stack. */
  lemma TaskRegionsDisjoint(p: nat, q: nat)
    requires p < MAX_TASKS && q < MAX_TASKS
    ensures TaskBlockAddr(p) + KERNEL_STACK_SIZE == TaskStackAddr(p) + 4
    ensures KERNEL_LOCATION <= TaskBlockAddr(p) < TaskStackAddr(p) < KERNEL_LOCATION + SIZE_4MB
    ensures KERNEL_LOCATION + SIZE_4MB <= TaskAddr(p) && TaskAddr(p) + SIZE_4MB <= EXECUTION_ADDR
    ensures p < q ==> TaskAddr(p) + SIZE_4MB <= TaskAddr(q)
    ensures p < q ==> TaskStackAddr(q) < TaskBlockAddr(p)
  {
    assert TaskStackAddr(p) == 0x3FF * KERNEL_STACK_SIZE - p * KERNEL_STACK_SIZE + 0x1FFC;
    assert TaskStackAddr(p) / KERNEL_STACK_SIZE == 0x3FF - p;
  }

  // ----- entries -----

  function PdeIndex(virt: uint32): (i: nat)
    ensures i < NUM_PAGES
  {
    virt / SIZE_4MB
  }

  /** `(phys & FIRST_10_BITS) | PAGE_SIZE_BIT | (user << 2) | RW_PRESENT`: the fields do not overlap. */
  function LargeEntry(phys: uint32, user: bool): uint32 {
    phys / SIZE_4MB * SIZE_4MB + 0x80 + (if user then 4 else 0) + 3
  }

  /** `(phys & FIRST_20_BITS) | SUPERVISOR_RW_PRESENT` */
  function SmallEntry(phys: uint32): uint32 {
    phys / SIZE_4KB * SIZE_4KB + 3
  }

  /** `map_page_directory(phys, virt, 1, user)` into one directory. */
  function MapLarge(sp: Space, phys: uint32, virt: uint32, user: bool): (r: Space)
    requires sp.Valid()
    ensures r.Valid()
  {
    sp.(dir := sp.dir[PdeIndex(virt) := LargeEntry(phys, user)])
  }

  /** `clear_pde(virt)` on one directory. */
  function ClearPde(sp: Space, virt: uint32): (r: Space)
    requires sp.Valid()
    ensures r.Valid()
  {
    sp.(dir := sp.dir[PdeIndex(virt) := 0])
  }

  function IdentityTable(prev: seq<uint32>): (t: seq<uint32>)
    requires |prev| == NUM_PAGES
    ensures |t| == NUM_PAGES
  {
    seq(NUM_PAGES, i requires 0 <= i < NUM_PAGES => if i == 0 then prev[0] else SmallEntry(i * SIZE_4KB))
  }

  /** What `init_task_pd` leaves in the frame: five directory entries and the identity table.  The
      other directory entries keep whatever the frame held before. */
  function InitSpace(prev: Space, pid: nat): (r: Space)
    requires prev.Valid() && pid < MAX_TASKS
    ensures r.Valid()
  {
    var addr := TaskAddr(pid);
    var s0 := Space(prev.dir[0 := SmallEntry(addr + SIZE_4KB)], IdentityTable(prev.table));
    var s1 := MapLarge(s0, KERNEL_LOCATION, KERNEL_LOCATION, false);
    var s2 := MapLarge(s1, addr, addr, true);
    var s3 := MapLarge(s2, addr, EXECUTION_ADDR, true);
    MapLarge(s3, VIDEO, VIRTUAL_VID_MEM, true)
  }

  // ----- the hardware walk -----

  predicate Present(e: uint32) { e % 2 == 1 }
  predicate Writable(e: uint32) { e / 2 % 2 == 1 }
  predicate UserBit(e: uint32) { e / 4 % 2 == 1 }
  predicate LargePage(e: uint32) { e / 0x80 % 2 == 1 }

  /** A read or a write, by user or by kernel code. */
  datatype Access = Access(user: bool, write: bool)

  /** What an entry permits at its level.  Kernel writes are held to the R/W bit too, as with CR0.WP set;
      with CR0.WP clear the processor permits more of them. */
  predicate Permits(e: uint32, a: Access) {
    Present(e) && (a.user ==> UserBit(e)) && (a.write ==> Writable(e))
  }

  /** The address that task `pid`'s directory gives to `virt`; None is a page fault.  The only page table in
      the model is the one in the task's own frame. */
  function Translate(sp: Space, pid: nat, virt: uint32, a: Access): Option<nat>
    requires sp.Valid()
  {
    var e := sp.dir[PdeIndex(virt)];
    if !Permits(e, a) then None
    else if LargePage(e) then Some(e / SIZE_4MB * SIZE_4MB + virt % SIZE_4MB)
    else if e / SIZE_4KB * SIZE_4KB != TaskAddr(pid) + SIZE_4KB then None
    else
      var t := sp.table[virt / SIZE_4KB % NUM_PAGES];
      if !Permits(t, a) then None
      else Some(t / SIZE_4KB * SIZE_4KB + virt % SIZE_4KB)
  }

  lemma LargeEntryFields(phys: uint32, user: bool)
    ensures Present(LargeEntry(phys, user)) && Writable(LargeEntry(phys, user)) && LargePage(LargeEntry(phys, user))
    ensures UserBit(LargeEntry(phys, user)) <==> user
    ensures LargeEntry(phys, user) / SIZE_4MB == phys / SIZE_4MB
  {
    var low := if user then 0x87 else 0x83;
    EntryParts(phys / SIZE_4MB, low);
    assert LargeEntry(phys, user) == phys / SIZE_4MB * SIZE_4MB + low;
  }

  lemma EntryParts(k: nat, low: nat)
    requires low == 0x87 || low == 0x83
    ensures var e := k * SIZE_4MB + low;
            e % 2 == 1 && e / 2 % 2 == 1 && e / 0x80 % 2 == 1 && (e / 4 % 2 == 1 <==> low == 0x87) && e / SIZE_4MB == k
  {
    FieldAt(k * 0x20_0000, 2, low);
    FieldAt(k * 0x10_0000, 4, low);
    FieldAt(k * 0x8000, 0x80, low);
    FieldAt(k, SIZE_4MB, low);
    EvenPlus(k * 0x20_0000, k * 0x10_0000, low / 2);
    EvenPlus(k * 0x10_0000, k * 0x8_0000, low / 4);
    EvenPlus(k * 0x8000, k * 0x4000, low / 0x80);
  }

  lemma FieldAt(k: nat, unit: nat, low: nat)
    requires unit in {2, 4, 0x80, SIZE_4KB, SIZE_4MB}
    ensures (k * unit + low) / unit == k + low / unit
    ensures (k * unit + low) % unit == low % unit
  {
  }

  lemma EvenPlus(k: nat, half: nat, low: nat)
    requires k == 2 * half
    ensures (k + low) % 2 == low % 2
  {
  }

  /** Mapping a 4MB page makes the whole page translate to the frame asked for, for reads and writes, in the
      mode asked for. */
  lemma MapLargeTranslates(sp: Space, pid: nat, phys: uint32, virt: uint32, user: bool, va: uint32, a: Access)
    requires sp.Valid()
    ensures Translate(MapLarge(sp, phys, virt, user), pid, va, a) ==
            if PdeIndex(va) != PdeIndex(virt) then Translate(sp, pid, va, a)
            else if a.user && !user then None
            else Some(phys / SIZE_4MB * SIZE_4MB + va % SIZE_4MB)
  {
    LargeEntryFields(phys, user);
  }

  // ----- the address space each live task keeps -----

  /** Which frame the video window of a directory shows. */
  const VideoEntry: uint32 := LargeEntry(VIDEO, true)
  const GarbageEntry: uint32 := LargeEntry(GARBAGE_VID_MEM, true)

  function Window(sp: Space): uint32
    requires sp.Valid()
  {
    sp.dir[PdeIndex(VIRTUAL_VID_MEM)]
  }

  ghost predicate IdentityAbove0(table: seq<uint32>)
    requires |table| == NUM_PAGES
  {
    forall i :: 1 <= i < NUM_PAGES ==> table[i] == SmallEntry(i * SIZE_4KB)
  }

  /** The entries a task needs whenever its directory is loaded. */
  ghost predicate SpaceOk(sp: Space, pid: nat)
    requires pid < MAX_TASKS
  {
    && sp.Valid()
    && sp.dir[0] == SmallEntry(TaskAddr(pid) + SIZE_4KB)
    && sp.dir[1] == LargeEntry(KERNEL_LOCATION, false)
    && sp.dir[2 + pid] == LargeEntry(TaskAddr(pid), true)
    && sp.dir[PdeIndex(EXECUTION_ADDR)] == LargeEntry(TaskAddr(pid), true)
    && Window(sp) in {VideoEntry, GarbageEntry}
    && IdentityAbove0(sp.table)
  }

  lemma InitSpaceOk(prev: Space, pid: nat)
    requires prev.Valid() && pid < MAX_TASKS
    ensures SpaceOk(InitSpace(prev, pid), pid)
    ensures Window(InitSpace(prev, pid)) == VideoEntry
  {
    assert PdeIndex(TaskAddr(pid)) == 2 + pid;
  }

  /** Mapping or clearing another task's frame, or moving the video window, keeps the space. */
  lemma SpaceOkKept(sp: Space, pid: nat, other: nat)
    requires pid < MAX_TASKS && other < MAX_TASKS && SpaceOk(sp, pid)
    ensures SpaceOk(MapLarge(sp, TaskAddr(other), TaskAddr(other), true), pid)
    ensures Window(MapLarge(sp, TaskAddr(other), TaskAddr(other), true)) == Window(sp)
    ensures other != pid ==> SpaceOk(ClearPde(sp, TaskAddr(other)), pid)
    ensures other != pid ==> Window(ClearPde(sp, TaskAddr(other))) == Window(sp)
    ensures SpaceOk(MapLarge(sp, VIDEO, VIRTUAL_VID_MEM, true), pid)
    ensures Window(MapLarge(sp, VIDEO, VIRTUAL_VID_MEM, true)) == VideoEntry
    ensures SpaceOk(MapLarge(sp, GARBAGE_VID_MEM, VIRTUAL_VID_MEM, true), pid)
    ensures Window(MapLarge(sp, GARBAGE_VID_MEM, VIRTUAL_VID_MEM, true)) == GarbageEntry
  {
    assert PdeIndex(TaskAddr(other)) == 2 + other;
  }

  /** Everything `SpaceOk` means to the hardware, for reads and for writes: the execution window is the task's own frame; the
      kernel is mapped one to one for the kernel only; the task's own frame, where its directory lives,
      is mapped one to one; low memory above the null page, text-mode memory included, is mapped one to
      one for the kernel only; and the video window is either the real or the garbage frame. */
  lemma SpaceOkTranslates(sp: Space, pid: nat, off: nat, w: bool)
    requires pid < MAX_TASKS && SpaceOk(sp, pid) && off < SIZE_4MB
    ensures Translate(sp, pid, EXECUTION_ADDR + off, Access(true, w)) == Some(TaskAddr(pid) + off)
    ensures Translate(sp, pid, KERNEL_LOCATION + off, Access(false, w)) == Some(KERNEL_LOCATION + off)
    ensures Translate(sp, pid, KERNEL_LOCATION + off, Access(true, w)) == None
    ensures Translate(sp, pid, TaskAddr(pid) + off, Access(false, w)) == Some(TaskAddr(pid) + off)
    ensures Translate(sp, pid, TaskAddr(pid) + off, Access(true, w)) == Some(TaskAddr(pid) + off)
    ensures off >= SIZE_4KB ==> Translate(sp, pid, off, Access(false, w)) == Some(off)
    ensures Translate(sp, pid, off, Access(true, w)) == None
    ensures Translate(sp, pid, VIRTUAL_VID_MEM + off, Access(true, w)) ==
            Some((if Window(sp) == VideoEntry then 0 else GARBAGE_VID_MEM) + off)
  {
    ExecutionWindow(sp, pid, off, w);
    OwnFrame(sp, pid, off, w);
    KernelWindow(sp, pid, off, w);
    VideoWindow(sp, pid, off, w);
    LowMemory(sp, pid, off, w);
  }

  lemma ExecutionWindow(sp: Space, pid: nat, off: nat, w: bool)
    requires pid < MAX_TASKS && SpaceOk(sp, pid) && off < SIZE_4MB
    ensures Translate(sp, pid, EXECUTION_ADDR + off, Access(true, w)) == Some(TaskAddr(pid) + off)
  {
    LargeEntryFields(TaskAddr(pid), true);
    assert TaskAddr(pid) == (2 + pid) * SIZE_4MB;
    LargeWindow(sp, pid, EXECUTION_ADDR, off, Access(true, w));
  }

  lemma OwnFrame(sp: Space, pid: nat, off: nat, w: bool)
    requires pid < MAX_TASKS && SpaceOk(sp, pid) && off < SIZE_4MB
    ensures Translate(sp, pid, TaskAddr(pid) + off, Access(false, w)) == Some(TaskAddr(pid) + off)
    ensures Translate(sp, pid, TaskAddr(pid) + off, Access(true, w)) == Some(TaskAddr(pid) + off)
  {
    LargeEntryFields(TaskAddr(pid), true);
    assert TaskAddr(pid) == (2 + pid) * SIZE_4MB;
    LargeWindow(sp, pid, TaskAddr(pid), off, Access(false, w));
    LargeWindow(sp, pid, TaskAddr(pid), off, Access(true, w));
  }

  lemma KernelWindow(sp: Space, pid: nat, off: nat, w: bool)
    requires pid < MAX_TASKS && SpaceOk(sp, pid) && off < SIZE_4MB
    ensures Translate(sp, pid, KERNEL_LOCATION + off, Access(false, w)) == Some(KERNEL_LOCATION + off)
    ensures Translate(sp, pid, KERNEL_LOCATION + off, Access(true, w)) == None
  {
    LargeEntryFields(KERNEL_LOCATION, false);
    LargeWindow(sp, pid, KERNEL_LOCATION, off, Access(false, w));
    LargeWindow(sp, pid, KERNEL_LOCATION, off, Access(true, w));
  }

  lemma VideoWindow(sp: Space, pid: nat, off: nat, w: bool)
    requires pid < MAX_TASKS && SpaceOk(sp, pid) && off < SIZE_4MB
    ensures Translate(sp, pid, VIRTUAL_VID_MEM + off, Access(true, w)) ==
            Some((if Window(sp) == VideoEntry then 0 else GARBAGE_VID_MEM) + off)
  {
    LargeEntryFields(VIDEO, true);
    LargeEntryFields(GARBAGE_VID_MEM, true);
    LargeWindow(sp, pid, VIRTUAL_VID_MEM, off, Access(true, w));
  }

  lemma LargeWindow(sp: Space, pid: nat, base: uint32, off: nat, a: Access)
    requires sp.Valid() && off < SIZE_4MB && base % SIZE_4MB == 0 && base + off < TWO_TO_THE_32
    requires LargePage(sp.dir[PdeIndex(base)])
    ensures Translate(sp, pid, base + off, a) ==
            if !Permits(sp.dir[PdeIndex(base)], a) then None
            else Some(sp.dir[PdeIndex(base)] / SIZE_4MB * SIZE_4MB + off)
  {
    assert PdeIndex(base + off) == PdeIndex(base);
    assert (base + off) % SIZE_4MB == off;
  }

  lemma LowMemory(sp: Space, pid: nat, off: nat, w: bool)
    requires pid < MAX_TASKS && SpaceOk(sp, pid) && off < SIZE_4MB
    ensures off >= SIZE_4KB ==> Translate(sp, pid, off, Access(false, w)) == Some(off)
    ensures Translate(sp, pid, off, Access(true, w)) == None
  {
    var e := sp.dir[0];
    assert PdeIndex(off) == 0;
    TableEntryFields(2 + pid);
    var i := off / SIZE_4KB;
    assert i % NUM_PAGES == i;
    if i > 0 {
      assert sp.table[i] == SmallEntry(i * SIZE_4KB);
      PageEntryFields(i);
      assert off == i * SIZE_4KB + off % SIZE_4KB;
    }
  }

  lemma TableEntryFields(k: nat)
    requires k <= 2 + MAX_TASKS
    ensures var e := SmallEntry(k * SIZE_4MB + SIZE_4KB);
            Present(e) && Writable(e) && !UserBit(e) && !LargePage(e) && e / SIZE_4KB * SIZE_4KB == k * SIZE_4MB + SIZE_4KB
  {
    FieldAt(k * 0x400, SIZE_4KB, SIZE_4KB);
    assert SmallEntry(k * SIZE_4MB + SIZE_4KB) == k * SIZE_4MB + SIZE_4KB + 3;
    FieldAt(k * 0x20_0000, 2, SIZE_4KB + 3);
    FieldAt(k * 0x10_0000, 4, SIZE_4KB + 3);
    FieldAt(k * 0x8000, 0x80, SIZE_4KB + 3);
    FieldAt(k * 0x400, SIZE_4KB, SIZE_4KB + 3);
    EvenPlus(k * 0x20_0000, k * 0x10_0000, 0x801);
    EvenPlus(k * 0x10_0000, k * 0x8_0000, 0x400);
    EvenPlus(k * 0x8000, k * 0x4000, 0x20);
  }

  lemma PageEntryFields(i: nat)
    requires i < NUM_PAGES
    ensures var t := SmallEntry(i * SIZE_4KB); Present(t) && Writable(t) && !UserBit(t) && t / SIZE_4KB == i
  {
    FieldAt(i, SIZE_4KB, 0);
    FieldAt(i * 0x800, 2, 3);
    FieldAt(i * 0x400, 4, 3);
    FieldAt(i, SIZE_4KB, 3);
    EvenPlus(i * 0x800, i * 0x400, 1);
    EvenPlus(i * 0x400, i * 0x200, 0);
  }
}
