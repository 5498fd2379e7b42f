# Verification of the kernel and its user programs

This project models the hard parts of a small x86 teaching operating system and proves properties of the
model. Three shells run on three virtual terminals under a round-robin timer scheduler; programs start and
end in process trees, each in an address space of its own; files come from a read-only file system; user
programs search text and blink characters on the screen.

Every imperative part is modelled as imperative code (a class over its fields, or loops over arrays) and each
such method is proved equal to a specification function or to a property stated outright. The main results
are lemmas about those specifications, for all inputs, all runs or all histories.

## How the project is laid out

| file | part |
|---|---|
| `Words.dfy`, `Bitmap.dfy` | integer widths; bit masks as sets of slots, least free slot, ranks |
| `Paging.dfy` | page directory entries, what a task's directory translates, memory layout of tasks |
| `SchedModel.dfy`, `Kernel.dfy` | the scheduler: specification functions, and the class `Scheduler` whose methods change its fields in place |
| `Forest.dfy`, `SchedInvariant.dfy`, `SchedSteps.dfy`, `SchedBoot.dfy`, `SchedRuns.dfy` | the forest of process stacks, the relation to the scheduler's tables, its preservation by each step, the state after boot, and whole runs |
| `FrameReach.dfy` | which frames user code can reach, by the history of creations and ends |
| `FileSpec.dfy`, `FileSys.dfy`, `OpenFiles.dfy`, `Loader.dfy` | blocks as flat bytes, the copying loop, descriptors, the program loader |
| `SequentialRead.dfy`, `ReadSlack.dfy`, `WholeFiles.dfy` | reading to the end in chunks: order, extra bytes, number of reads, and reads of several files in any order |
| `GrepSpec.dfy`, `Grep.dfy` | lines and pieces, and the streaming search through one buffer |
| `Screens.dfy`, `ScreenLaws.dfy`, `LineEdit.dfy`, `Desks.dfy`, `Terminals.dfy` | one screen as a value, what characters and lines do to its cells, line editing, three terminals side by side, and the console with its shared video memory |
| `BlinkSpec.dfy`, `Blink.dfy` | blinking items as a sequence with a closed form in time, and the linked list in its arena |
| `Memory.dfy`, `Numbers.dfy`, `Command.dfy` | byte-moving routines, number printing, command splitting |

**Atomic steps.** Creating and ending a task run with interrupts off and are one step each. `execute_task` is
one step too. The timer may tick between creating a child and executing it, so a task can have a pending
child. A run starts where `tasks_init` leaves the tables, with zeroed task blocks and arbitrary bytes in the
task frames, and then interleaves ticks, creates (that load or fail), executes, halts and display switches in
any order. A step is enabled when the program current at that moment could take it: only a task with a
pending child executes, a task that waits in `do_execute` for the child it has created neither creates nor
halts, and before the first tick only ticks and display switches happen.

**Where the code differs from what one might expect.** The model follows the code; these lemmas say exactly
what happens.

- The screen window of the running task does not follow the displayed terminal. After a tick it is the real
  screen if the task's terminal is displayed or the task has never run; after a start, and after the end of a
  program, it is the real screen whatever is displayed; a display switch leaves it alone
  (`SchedRuns.ScreenAfter`, `SchedRuns.RightAfter`, and `SchedRuns.HiddenShellShowsScreen` for a run).
- A failed load leaves the child's frame open to user code of its creator, also when a program of another tree
  gets the same pid (`FrameReach.UserReachesExactly`, `FrameReach.FailedLoadOpensFrame`); as long as every
  program loads, a task reaches its own frame and that of its live child only (`FrameReach.IsolatedRun`).
- A read that starts inside a block and crosses out of it skips bytes (`FileSpec.InOrderIff`), so reading a
  file in chunks is right for some chunk sizes only (`SequentialRead.ExactIffGoodChunk`), and every other size
  reads some file wrongly (`WholeFiles.BadChunkLosesContents`).
- `file_read` cuts a request to the file's whole length instead of what is left, and advances by what was
  asked for, so bytes after the end can arrive: `ReadSlack.SlackArrives` gives an ordinary case, and
  `ReadSlack.WholeIff` says exactly when none do.
- The block after the last full one must exist even if it holds no byte of the file
  (`OpenFiles.TrailingBlockNeeded`).
- `grep` reports a line of more than 1024 bytes in pieces (`GrepSpec.ExactIffShortLines`).
- A blink length of 0, or above 32768, lasts one tick, because the countdown is compared as a signed number
  (`BlinkSpec.BlinkTiming`).
- `mp1_ioctl_sync` always draws the off character of the second node: its cell is right when the first node is
  off or the characters are equal, and otherwise only from the end of the shared phase on
  (`BlinkSpec.SyncDrawsRight`, `BlinkSpec.SyncTiming`).
- A node added at location 0 is on the list while its slot counts as free (`Blink.BlinkList.IoctlAdd`).
- A backspace when the cursor is already in the first column, as after a clear, takes the cursor off the screen
  (`Terminals.Console.Backspace`).
- A command with spaces before its name, or after its arguments, is split wrongly
  (`Command.SplitExact`).

## Model

| member | source | states |
|---|---|---|
| SchedRuns.RunRefinesForest | student-distrib/sched.c:161-464 | Every run of the scheduler from boot is, step by step, a run of three independent stacks of pids: create hangs a pending child under the running task, execute pushes it, halt pops it, ticks only move the turn. No step of any run follows a null parent or indexes outside a table. |
| SchedRuns.RunCanTick | student-distrib/pit.c:162-189 | No run gets stuck: after any history since boot a timer tick is possible and safe, and extends the run. |
| SchedRuns.StackIsOwnHistory | student-distrib/sched.c:206-424 | At any two moments of a run a tree's stack is the earlier one after the tree's own pushes and pops; ticks and the other trees may fall anywhere in between. |
| SchedRuns.BalancedTreeRestored | student-distrib/sched.c:206-424 | If a tree has ended exactly the programs it started, its stack and its entry in `ptree_tasks` are what they were, whatever the other trees did. |
| SchedRuns.TickDispatches | student-distrib/pit.c:162-189 | The n-th tick since boot makes tree n mod 3 current and runs the top of its stack, however many programs start and end in between: three ticks in a row reach each tree once. |
| SchedRuns.TurnCountsTicks | student-distrib/sched.c:250-267 | The current tree is the number of ticks so far modulo three; no other step moves it. |
| SchedRuns.PoolConserved | student-distrib/sched.c:79-107 | In every reachable state `num_tasks` is the number of set bits in `task_vector`, pids 0 to 3 are in use, and every live task but the idle one has a live parent. |
| SchedRuns.CreateFailsWhenFull | student-distrib/sched.c:161-197 | `create_task` fails exactly when the image does not load or ten tasks live, a failure leaves the count alone, and a success gets the lowest free pid. |
| SchedRuns.LiveTaskTranslates | student-distrib/task.c:52-96 | In every reachable state each live task's directory maps the execution window to its own frame, the kernel page and low memory one to one for the kernel only, its own frame one to one, and nothing of the first 4MB for user code; writes reach what reads do. |
| SchedRuns.LoadedDirectory | student-distrib/sched.c:362-414 | From the first tick on `pd`, CR3 and the current task name the same directory, and that directory maps itself, so the kernel's directory writes land in it. |
| SchedRuns.VideoExclusive | student-distrib/sched.c:206-228 | Of all live tasks that have ever run only the current one can reach real video memory through the video window. |
| SchedRuns.ScreenIff | student-distrib/sched.c:161-424 | In every reachable state, exactly which live tasks have the real screen in their video window: those that have never run, and the running one when the history says so. |
| SchedRuns.ScreenAfter | student-distrib/sched.c:161-424 | What every step does to the running task's view of the screen: the exact condition after a tick, always real after a start and after the end of a program, unchanged by a create, a display switch and a restarted shell. |
| SchedRuns.RightAfter | student-distrib/sched.c:161-424 | After each step, exactly when the window is real if and only if the task's terminal is the one on display. |
| SchedRuns.HiddenShellShowsScreen | student-distrib/sched.c:362-381 | The windows do not follow the display: the very first tick runs the hidden shell of terminal 1 with the real screen in its window. |
| FrameReach.UserReachesExactly | student-distrib/sched.c:161-228 | For every run that starts with empty frames, every live task and every address: where user code ends up, reading or writing, namely in its own frame, the video window, or a frame that the history of creations and ends has left open. |
| FrameReach.IsolatedRun | student-distrib/sched.c:161-228 | While no load fails, the frames open to a task besides its own are exactly those of the live programs it created. |
| FrameReach.FailedLoadOpensFrame | student-distrib/sched.c:161-197 | A run of five steps in which, after a failed load, the shell of one terminal reaches the whole frame of a running program of another. |
| FrameReach.UserReach | student-distrib/task.c:52-96 | One directory: the user-mode translation of every address is the one the list of open frames gives. |
| SchedSteps.TickKeeps | student-distrib/sched.c:362-381 | A tick keeps the relation between the tables, the directories and the stacks, and turns to the next tree. |
| SchedSteps.CreateKeeps | student-distrib/sched.c:161-197 | So does a create, whether it loads, fails to load or finds no pid. |
| SchedSteps.ExecuteKeeps | student-distrib/sched.c:391-424 | So does an execute, which pushes the pending child. |
| SchedSteps.HaltKeeps | student-distrib/sys_calls_handlers.c:53-77 | So does a halt, which pops a program and restarts a shell. |
| SchedBoot.BootRelated | student-distrib/sched.c:434-464 | `tasks_init` cannot fail and establishes the relation to three stacks of one shell each. |
| SchedInvariant.Acyclic | student-distrib/sched.c:161-197 | No pid is twice on a stack although pids are reused lowest first: parent chains have no cycle. |
| SchedInvariant.TreeOf | student-distrib/sched.c:161-228 | A pid on a stack is on one stack only, at one place, and its `ptid` names that stack. |
| SchedInvariant.HaltIsSafe | student-distrib/sched.c:206-228 | The task a halt ends always has a parent whose process tree exists. |
| SchedModel.NextTreeIsCyclicSuccessor | student-distrib/sched.c:250-267 | For any set of active trees the two scans of `get_next_task` find the cyclic successor of the current one among them. |
| SchedModel.RoundRobin | student-distrib/sched.c:250-267 | With k active trees, k picks in a row reach each of them by exactly one pick. |
| Forest.BalancedRestores | student-distrib/sched.c:206-228 | Any nesting of starts and ends leaves a stack of pids as it was. |
| Forest.ReplayKeepsBase | student-distrib/sched.c:206-228 | As long as no more is ended than was started, the tasks below are untouched. |
| Kernel.Scheduler.GetNewPid | student-distrib/sched.c:93-107 | The loop over a shifting copy finds the least clear bit below the limit and sets just that bit, or changes nothing. |
| Kernel.Scheduler.GetNewPtid | student-distrib/sched.c:119-131 | The loop under a shifting mask finds the same kind of slot. |
| Kernel.Scheduler.GetNextTask | student-distrib/sched.c:250-267 | The two loops return the task of the next tree as `SchedModel.NextTree` defines it. |
| Kernel.Scheduler.InitTaskPd | student-distrib/task.c:52-96 | Borrowing `pd`, it changes only the new task's directory and table, to the five entries and identity table of `Paging.InitSpace`, and gives `pd` back. |
| Kernel.Scheduler.Create | student-distrib/sched.c:161-197 | The whole new state and the result are those of `SchedModel.CreateTask`, the failed load undone. |
| Kernel.Scheduler.End | student-distrib/sched.c:206-228 | The whole new state is that of `SchedModel.EndTask`: pid freed, parent current, its directory loaded, its video window real, the dead frame unmapped. |
| Kernel.Scheduler.ExecuteNew | student-distrib/sched.c:391-424 | The whole new state is that of `SchedModel.ExecuteTask`. |
| Kernel.Scheduler.Switch | student-distrib/sched.c:362-381 | The whole new state is that of `SchedModel.SwitchTask`. |
| Kernel.Scheduler.TimerTick | student-distrib/pit.c:162-189 | The timer interrupt is the tick step of the runs above. |
| Kernel.Scheduler.DoHalt | student-distrib/sys_calls_handlers.c:53-77 | `do_halt` is the halt step: pids 1, 2 and 3 are restarted, others end. |
| Kernel.Scheduler.InitTasks | student-distrib/sched.c:434-464 | On zeroed tables the code of `tasks_init` succeeds and leaves the state of `SchedModel.TasksInit`. |
| Bitmap.SetBitAt | student-distrib/sched.c:93-107 | Setting a bit changes that bit and no other. |
| Bitmap.ClearBitAt | student-distrib/sched.c:79-83 | Clearing a bit changes that bit and no other. |
| Bitmap.LeastClear | student-distrib/sched.c:93-131 | The slot found is clear with every lower one taken, or all slots are taken. |
| Bitmap.FullCount | student-distrib/sched.c:79-107 | As many bits as slots are set exactly when every slot is taken. |
| Paging.TaskRegionsDisjoint | student-distrib/task.c:24-41 | Frames, kernel stacks and task blocks of distinct pids are disjoint and lie between the kernel and the execution window, or inside the kernel page. |
| Paging.MapLargeTranslates | student-distrib/paging.c:83-100 | Writing a 4MB entry makes exactly that page translate to the frame asked for, for reads and writes, in the mode asked for (section 4.3 of volume 3A of the Intel 64 and IA-32 Architectures Software Developer's Manual). |
| Paging.InitSpaceOk | student-distrib/task.c:52-96 | Whatever the frame held before, a new directory meets the invariant of task spaces and shows the real screen. |
| Paging.SpaceOkKept | student-distrib/paging.c:83-176 | Mapping or clearing another task's frame, or moving the video window, keeps a task's own entries. |
| Paging.SpaceOkTranslates | student-distrib/paging.c:83-100 | What the invariant means to the hardware, address by address, for user and kernel, for reads and writes. |
| FileSys.ReadData | student-distrib/filesys.c:231-297 | For every inode, offset and length: the exact result, the exact bytes stored, and nothing else changed, over images with missing blocks too. |
| FileSys.CopyBytes | student-distrib/filesys.c:255-297 | The copying loop with its `offset = 0` at each crossing delivers the bytes at the flat positions given by `FileSpec.Source`. |
| FileSpec.InOrderIff | student-distrib/filesys.c:288-294 | A read delivers consecutive file bytes if and only if it starts at a block boundary or stays inside one block. |
| FileSpec.SourceInPage | student-distrib/filesys.c:255-297 | In which page, and where in it, each delivered byte lies, when a read starts anywhere. |
| SequentialRead.ExactIffGoodChunk | student-distrib/filesys.c:127-144 | Reading a file to its end in chunks of n delivers it whole and in order if and only if n divides a block, is a number of blocks, or the file is no longer than n rounded up to a block. |
| SequentialRead.SlackBounded | student-distrib/filesys.c:127-144 | For every chunk size fewer than n bytes beyond the length arrive in all; `ReadSlack.WholeIff` says when none do. |
| ReadSlack.WholeIff | student-distrib/filesys.c:127-144 | The file's bytes arrive in order and nothing else if and only if the chunk is a good one and holds the file, divides it, or meets one of two conditions on the last block. |
| ReadSlack.SlackArrives | student-distrib/filesys.c:127-144 | A file of 5000 bytes read in chunks of 4096 gives 8191 bytes. |
| ReadSlack.LastChunkExact | student-distrib/filesys.c:244-296 | When the last read returns just what is left of the file. |
| OpenFiles.Task.FileRead | student-distrib/filesys.c:127-144 | The exact result, bytes and new descriptor for every descriptor number, offset and count, negative counts taken as large unsigned ones. |
| OpenFiles.Task.ReadToEnd | student-distrib/filesys.c:127-144 | A program that reads until it gets 0 stops, has the bytes of `SequentialRead.Positions` in order, and has left the other descriptors alone. |
| OpenFiles.WholeFileRead | student-distrib/filesys.c:127-297 | With a good chunk size what arrives begins with the whole contents and goes on for fewer than n bytes, and for none exactly when the chunk leaves no slack. |
| WholeFiles.BadChunkLosesContents | student-distrib/filesys.c:127-297 | For every length and every other chunk size there is a well-formed file of that length whose contents do not arrive. |
| WholeFiles.InterleavedReads | student-distrib/filesys.c:127-144 | However reads of other descriptors fall in between, the bytes handed over through one descriptor are those of reading its file alone, in order, and 0 is returned exactly when enough reads were made. |
| WholeFiles.ReadsRoundUp | student-distrib/filesys.c:127-144 | That number of reads is the length divided by the chunk, rounded up. |
| OpenFiles.TrailingBlockNeeded | student-distrib/filesys.c:231-297 | In a file of full blocks only, a read up to the end returns all it asked for if the block after the last one is in the image, and fails if it is not. |
| OpenFiles.DescriptorsIndependent | student-distrib/filesys.c:127-144 | A descriptor's position depends on the reads through it and on no others, for every interleaving. |
| Loader.ReadDentryByName | student-distrib/filesys.c:153-199 | Type, inode and name are those of the first entry with the same 32 bytes, and nothing is found exactly if no entry has them; a name with a leading dot means the first entry, and then only the dot is copied. |
| Loader.LoadProgram | student-distrib/filesys.c:305-336 | It loads if and only if the entry is a regular file that starts with the magic number; byte k of the word it returns is byte 24 + k of the image, lowest first, and it writes nothing but the image. |
| Loader.LittleEndianBytes | student-distrib/filesys.c:335 | The word read has the four bytes of memory, lowest first, and the signed result is the same word. |
| Loader.WholeImageLoaded | student-distrib/filesys.c:305-336 | With the largest possible length as argument the copy stops after the file's last block, so the file's contents come first. |
| Loader.LoadIntoFrame | student-distrib/task.c:243-267 | An image that fits never touches the page directory and table at the bottom of the same frame. |
| GrepSpec.ExactIffShortLines | syscalls/ece391grep.c:10-66 | `grep` prints exactly the matching lines for every pattern if and only if no line is longer than 1024 bytes. |
| GrepSpec.LinesAreTheFile | syscalls/ece391grep.c:32-44 | The lines hold no newline, and with their newlines they are the file. |
| GrepSpec.ShortLinesExact | syscalls/ece391grep.c:10-66 | Cutting the file at newlines and full buffers reports the same lines as cutting it at newlines, when lines are short. |
| GrepSpec.LongLineBreaks | syscalls/ece391grep.c:10-66 | For every file with a longer line there is a pattern for which the output is wrong. |
| Grep.DoOneFile | syscalls/ece391grep.c:10-66 | For every file, pattern, old buffer content and failing read or close: the printed text is exactly the reports for the file's pieces, or a beginning of it before a message. |
| Grep.GrepFile | syscalls/ece391grep.c:10-66 | For a file of short lines a successful search prints each line that contains the pattern, once, in file order. |
| Grep.ScanBuffer | syscalls/ece391grep.c:34-59 | What one buffer prints, with what is still to be printed for the part carried over and the unread rest, is what was to be printed before. |
| Grep.SearchLine | syscalls/ece391grep.c:44-55 | A line is printed once, after the file name and a colon, if the pattern occurs anywhere in it, else not at all. |
| Grep.TryAt | syscalls/ece391grep.c:46-48 | Comparing the first character and then the rest finds the pattern exactly where it occurs; an empty pattern never. |
| Grep.CopyDown | syscalls/ece391support.c:14-17 | Copying a string down over itself moves it whole. |
| Grep.StrNCmp | syscalls/ece391support.c:35-46 | The comparison is zero exactly when the text goes on with the pattern. |
| ScreenLaws.NewRow | student-distrib/lib.c:104-119 | Cell by cell: a newline or carriage return goes to the start of the next row and changes nothing; on the bottom row every row shows the one below it and the last is blank. |
| ScreenLaws.Drawn | student-distrib/lib.c:407-445 | Cell by cell: any other character appears at the cursor with the attribute and nowhere else; past the right edge the cursor returns to the start of its row. |
| ScreenLaws.LinesAppear | student-distrib/terminal.c:115-181 | Any number of lines shorter than a row, each with its newline, appear on consecutive rows in order; beyond the bottom the screen is the last part of an endless one. |
| ScreenLaws.FullRow | student-distrib/terminal.c:125-178 | After eighty characters on a row the next one starts the row below. |
| Desks.TerminalsIndependent | student-distrib/terminal.c:115-460 | After any history of program writes, keys, backspaces, clears and switches each terminal's screen, cursor, count and edit buffer are what its own outputs alone make of them; and the history can be gone through exactly when each terminal can go through its own part. |
| Terminals.Console.PerformAll | student-distrib/terminal.c:115-460 | Any list of calls on the console, with its shared video memory and its copying, does just that. |
| Terminals.Console.TerminalWrite | student-distrib/terminal.c:115-181 | A write changes the writing program's terminal as `Screens.EmitAll` says, in video memory or in its buffer, and nothing else on the desk. |
| Terminals.Console.TerminalWriteKeypress | student-distrib/terminal.c:193-237 | Key echoes do the same to the displayed terminal. |
| Terminals.Console.TerminalClear | student-distrib/terminal.c:304-316 | Clearing blanks the displayed terminal and no other. |
| Terminals.Console.SetCurrentTerminal | student-distrib/terminal.c:442-460 | Copying both ways leaves every terminal's screen as it was; bad or equal indices change nothing. |
| Terminals.Console.EmitOn | student-distrib/terminal.c:125-178 | One character of output refines `Screens.Emit` on whichever memory the terminal uses. |
| Terminals.Console.AddToBuffer | student-distrib/terminal.c:326-357 | A key changes the displayed terminal's screen and edit buffer as `LineEdit.KeyIn` says. |
| Terminals.Console.Backspace | student-distrib/terminal.c:260-294 | A backspace changes them as `LineEdit.Backspace` says; with nowhere to step back to, the cursor leaves the screen and a blank lands in the library cursor's column. |
| Terminals.DrawAt | student-distrib/lib.c:407-445 | `putc` and `vputc` draw the same character in the same place and move the cursor alike. |
| Terminals.ScrollUp | student-distrib/lib.c:104-119 | Every byte of a row becomes the byte of the row below it, and the last row blanks with the attribute. |
| LineEdit.RowShowsText | student-distrib/terminal.c:260-357 | For every mix of characters and backspaces that stays on the row, the row shows the edited text and then blanks, and the buffer holds that text. |
| LineEdit.NewlineDelivers | student-distrib/terminal.c:326-432 | A newline then hands over exactly that text and the newline, and the cursor is at the start of the row below. |
| LineEdit.KeyFillsRow | student-distrib/terminal.c:326-357 | The key that fills the row, cell by cell: the cursor goes to the next row, and near the bottom everything moves up under it. |
| LineEdit.BackspaceUndoes | student-distrib/terminal.c:260-357 | A backspace takes back the last key, also over the end of a row unless the screen moved up: cursor, text and every character are as before. |
| BlinkSpec.BlinkTiming | fish/blink.S:49-99 | Whatever other items are added, removed or synchronised, t ticks after an add the cell shows the on character if and only if t modulo the cycle is below the on part; the parts last as asked exactly for lengths 1 to 32768. |
| BlinkSpec.ClocksStayAligned | fish/blink.S:240-300 | Two items with the same clock keep it and change phase on the same ticks until one is removed, replaced or synchronised again. |
| BlinkSpec.SyncAligns | fish/blink.S:240-300 | A successful sync gives both items the same clock. |
| BlinkSpec.SyncDrawsRight | fish/blink.S:240-300 | Just after a sync the second item's cell is right if and only if the first item is in its off phase or the second's characters are equal. |
| BlinkSpec.SyncTiming | fish/blink.S:240-300 | From a sync on, for every t: the off character until the shared phase ends, and then what the clock says. |
| BlinkSpec.PhasedRun | fish/blink.S:49-300 | In every run every item is at some place of its cycle. |
| BlinkSpec.SoleCellAfterTick | fish/blink.S:43-99 | A tick changes an item's cell only when its phase ends, and then to the character of the new phase, however many other items tick before and after it. |
| BlinkSpec.TickAdvances | fish/blink.S:60-91 | A tick moves an item one step around a cycle of its on and off parts, for all 16-bit lengths. |
| Blink.BlinkList.IoctlAdd | fish/blink.S:105-183 | The list becomes the new item in front of the old ones; it fails exactly for a location off the screen or a full arena, and slots and list stay apart exactly if it fails or the location is not 0. |
| Blink.BlinkList.IoctlRemove | fish/blink.S:187-237 | -1 exactly if no item is at the location, and then nothing changes; otherwise the first such item is off the list, its slot is free, the list is one shorter and the others keep their order. |
| BlinkSpec.RemoveTakesFirst | fish/blink.S:187-237 | Removing gives the items without the first match and 0, or -1 and no change exactly when there is none. |
| BlinkSpec.RemovedIsGone | fish/blink.S:187-237 | An item that was alone at its location is gone from it. |
| BlinkSpec.VacantIsQuiet | fish/blink.S:49-99 | Where no item is, the cell stays as it is in every run that inserts none there. |
| BlinkSpec.SyncChanges | fish/blink.S:240-300 | A sync changes the clock of the second item and one character on the screen, and nothing else. |
| Blink.BlinkList.IoctlSync | fish/blink.S:240-300 | The second item takes the first one's lengths, countdown and status; links stay; -1, with nothing changed, exactly if one of the two is missing. |
| Blink.BlinkList.FindHelper | fish/blink.S:351-381 | Following the links finds the first item at the location, or null. |
| Blink.BlinkList.Tasklet | fish/blink.S:49-99 | One pass over the links ticks every item once, in list order, and draws as `BlinkSpec.Apply` says. |
| Blink.BlinkList.Malloc | fish/fish.c:161-171 | The first slot off the list, all lower ones being on it; null exactly when 2000 items are on it. |
| Blink.BlinkList.Free | fish/fish.c:173-176 | Clearing a slot off the list makes it free and leaves the items alone. |
| Blink.Pigeonhole | fish/fish.c:161-171 | A list of distinct slots is as long as the arena exactly when it holds every slot. |
| Memory.MemMove | student-distrib/lib.c:670-690 | For every overlap the destination gets what the source held before, and nothing else changes. |
| Memory.MemSet | student-distrib/lib.c:551-587 | The aligned words and the loose bytes together equal the bytewise loop, for every alignment and length. |
| Memory.MemCpy | student-distrib/lib.c:627-666 | The same for copying between regions that do not overlap. |
| Numbers.NumeralRoundTrip | student-distrib/lib.c:485-517 | Reading a numeral back in its radix gives the number, and only the numeral of zero starts with a zero. |
| Numbers.DigitsInOrder | student-distrib/lib.c:487 | The digits are 0 to 9 and then A to Z in order. |
| Numbers.ParseRoundTrip | student-distrib/lib.c:485-517 | Every digit string without leading zeros is the numeral of the number it reads as. |
| Numbers.NumeralLength | student-distrib/lib.c:485-517 | A numeral has at most n digits exactly below the n-th power of the radix. |
| Numbers.Itoa | student-distrib/lib.c:485-517 | Writing low digits first and reversing in place leaves the numeral, terminated, and nothing else changed. |
| Numbers.StrRev | student-distrib/lib.c:521-536 | The string is reversed in place. |
| Numbers.PrintAlternateHex | student-distrib/lib.c:175-195 | `%#x` prints exactly eight digits, and they read back as the value. |
| Command.SplitExact | student-distrib/sys_calls_handlers.c:88-128 | The program gets the first word as name and the other words joined by single spaces if and only if no space precedes the first word, and none follows the last unless the command ends in NUL and has no arguments. |
| Command.CleanSplit | student-distrib/sys_calls_handlers.c:99-128 | A command without spaces at its ends is always split into its first word and its other words joined by single spaces. |
| Command.SplitAgain | student-distrib/sys_calls_handlers.c:99-128 | Splitting name, space and arguments again gives the same name and arguments. |
| Command.SplitCommand | student-distrib/sys_calls_handlers.c:88-128 | The index-driven loops fill the two buffers with what `Command.Split` gives, NUL-padded and NUL-terminated, with one-byte indices. |
| Command.WordsOfJoin | student-distrib/sys_calls_handlers.c:99-128 | Joining words by single spaces and taking the words again gives the same words. |

## Left out

- Registers, stacks, TSS contents, the saved `task_state` and the assembly of a context switch: a switch is "the current task changes".
- Interrupt flags: `create_task` returns early without restoring them; the model has no interrupt flag.
- Task blocks and directories are values in sequences that the methods reassign, and `pd`, CR3 and parent pointers are indices; raw memory aliasing between them is covered by `Paging.TaskRegionsDisjoint` only.
- Directory entries are built with sums instead of bitwise or; the fields read back are the same.
- Program names, arguments and the exit status of tasks; `do_getargs`.
- Whether a program image loads, and whether opening, reading or closing a file fails, are parameters; boot takes a shell image that loads, which `tasks_init` does not check.
- Null and user-pointer checks of system calls.
- `do_open` and `do_close`: the search for the lowest free descriptor is the search already proved for pids.
- `directory_read`, `write_data`, `read_dentry_by_index`, `init_file_system`: straight-line.
- Kernel.Scheduler.TimerTick: does not model the saved task state and registers.
- Kernel.Scheduler.DoHalt: does not model the newline written to the terminal, nor the registers of a restarted shell.
- FileSys.CopyBytes: requires room for the file in the inode's block numbers, as `FileSys.ReadData` does.
- FileSys.ReadData: requires an inode's length to fit the 1023 block numbers an inode has, because beyond that the code reads whatever follows the inode.
- Loader.LoadIntoFrame: requires that the image fits the frame; the code does not check.
- `terminal_read`, the line history array and the hardware cursor.
- Desks.TerminalsIndependent: the history of one terminal stops where its cursor has left the screen, because what is drawn then lies outside the screen or depends on the cursor the library shares.
- LineEdit.RowShowsText: stays on one row; longer lines wrap and are not followed.
- Grep.DoOneFile: requires that the one byte after the 1024 of the buffer does not happen to be a newline at the start, because the code reads it before writing it; files and patterns hold no NUL.
- Grep.GrepFile: requires the same of the buffer as `Grep.DoOneFile`.
- The loop of `grep` over the directory.
- What further calls do to a list that holds a node at location 0.
- FrameReach.UserReachesExactly: starts from frames whose directories are empty, because a new directory keeps whatever else its frame held; programs that write into the directory in their own frame are not followed.
- `mp1_ioctl_find`'s copy to user space, and the frame animation of `fish`.
- Memory.MemMove: does not model the direction flag, which the code leaves set after a backward copy.
- Command.SplitCommand: requires that the scan ends within 256 bytes and that both parts fit their buffers, which the code does not check.
- `printf`'s other conversions, and `vprintf`.
- Port I/O, the RTC, the interrupt controller, the timer's frequency, exception handlers, keyboard scan codes, signals, `cat`, `ls`, `hello`, `counter` and `pingpong`: thin or easy.
