# Kernel models

Two small teaching kernels share this repository: Linux 0.11 and the message
kernel of MyFS. This project models the parts of them whose correctness lives in
invariants over shared state, and proves what those parts promise. Each part is
modelled twice: as plain values with the properties proved about them, and as a
class with the arrays, links and loops of the code, proved to do what the values
do.

- **Paging** (`PageTables`, `PageSteps`, `Memory`, `Tasks`, `TaskLaws`, `Processes`).
  Two-level page tables, a byte counter for each frame, copy on write. The frames, the page
  directory and the page tables are arrays of words. Every run of fork, exit,
  exec, fault, share and store looks to the tasks as if each had memory of its
  own; counters equal references; a writable page is private; a failed fork leaves
  no trace.
- **Messages** (`IpcModel`, `IpcLaws`, `ProcTable`). Rendezvous SEND and RECEIVE,
  intrusive queues, deadlock detection, pending interrupts, for any number of processes.
- **Files** (`FileTree`, `FileSystem`, `FileBytes`). The block tree of an inode over
  the zone bitmap, truncation, and bytes on top.
- **Block cache** (`BufferLists`, `Elevator`, `RequestQueue`, `CacheModel`,
  `CacheSteps`, `CacheLaws`, `BufferCache`). Hash chains, the free ring, request slots, and any
  number of activities that are switched where they may sleep.
- **Sleeping** (`WaitQueue`). The wait queue that lives in saved local pointers.
- **Allocation** (`MallocModel`, `Malloc`). Buckets, free lists threaded through
  pages, descriptor chains.
- **Program start** (`ExecStack`). Packing strings into pages and walking them.
- **Pipes** (`Pipe`). A ring in a page, and processes switched where they sleep.
- **Console** (`Screens`, `Terminal`, `TerminalLaws`, `Video`, `Console`). Scrolling by a
  moving origin against a plain grid, and the escape sequences.
- **Names** (`LinkModel`, `DirCalls`, `DirLaws`, `Namei`). Directory entries and link counts.
- `Sequences` and `Wrappers` hold what several parts need.

A ghost function of each class gives its abstract value, and each method ends by
showing that value to be the model's. Where the code panics, the method has a
result that says so. The modules called laws say what the steps of a model come to for
its users, without the functions that define the steps. Statements such as `hide Inv` at the start of a body only keep
proofs short.

## What turned out not to hold

- execve of a `#!` script with an empty argv counts one string too few: the script's
  name is lost from argv and shifts the environment. `ExecStack.ScriptListExact` says
  when the list is right.
- Argument strings that fill their pages to the last byte are refused as if there were no
  memory: their place is then 0, which stands for failure (`ExecStack.Fits`).
- `mkdir` in a full directory on a device with one block left frees that block twice
  (`FileSystem.FileSystem.UndoDirectory`). `Namei.Namespace.Mkdir` says exactly when;
  `DirCalls.MkdirPanics` is such a state.
- A link count is one byte: link and mkdir are right exactly below 255 links
  (`LinkModel.LinkedExact`, `LinkModel.DirMadeExact`, with `DirCalls.LinkWraps` and
  `DirCalls.MkdirWraps`).
- The console compares the column, not the byte, with `7` and `8` after ESC
  (`Terminal.EscSevenExact`, `Terminal.EscEightExact`, with a screen for each).
- A cursor move by almost 2^32 wraps round and may end on the other side of where it
  started (`TerminalLaws.CursorUpDown`, `TerminalLaws.CursorLeftRight`).
- The message kernel asserts that a process blocking in RECEIVE has no interrupt
  pending; it may have one (`IpcModel.BlockedPendingExact`).
- exec gives up the old address space and then maps its argument pages without looking
  whether put_page worked. If they took the last free frame and there was no page table
  to give up, they are lost and stay counted (`Tasks.Loses`, `Processes.LoseArguments`).
  A task that runs code of its own has a page table (`Tasks.MappedKeepsArguments`).
  Otherwise counters equal references throughout (`Tasks.CountersAreReferences`).
- put_page on an address where a counted frame is mapped already loses count of that
  frame (`PageSteps.PutExact`); no caller does that.

## Model

| member | source | states |
|---|---|---|
| PageTables.CountBounded | linux-0.11/mm/memory.c:57 | every managed frame has fewer references than there are tasks, so the byte counter never wraps |
| PageSteps.WritableAlone | linux-0.11/mm/memory.c:221-238 | a frame at or above LOW_MEM that some page table lets a task write has exactly one reference |
| PageSteps.OneRef | linux-0.11/mm/memory.c:225-229 | a counter of one means that nobody else maps the frame |
| PageSteps.AllocOk | linux-0.11/mm/memory.c:63-83 | taking a free frame keeps counters and references equal and changes no mapping |
| PageSteps.ReleaseOk | linux-0.11/mm/memory.c:89-99 | giving back an unmapped frame does too |
| PageSteps.MapOk | linux-0.11/mm/memory.c:197-219 | mapping a frame that is held changes what is found at that place only |
| PageSteps.PutExact | linux-0.11/mm/memory.c:197-219 | overwriting an entry keeps counters right exactly if no counted frame was mapped there |
| PageSteps.ShareOk | linux-0.11/mm/memory.c:172-184 | sharing a page between two tasks keeps the invariant: both entries read-only, one reference more |
| PageSteps.StoreOk | linux-0.11/mm/memory.c:221-238 | a store through a writable entry is seen at that place and nowhere else |
| PageSteps.DropTableOk | linux-0.11/mm/memory.c:116-128 | an emptied page table can be freed and its directory entry cleared |
| Memory.CountersDetermined | linux-0.11/mm/memory.c:57 | two states with the same references have the same counters: counters are a function of the references |
| Memory.RolledBack | linux-0.11/kernel/fork.c:56-59 | freeing a partial copy restores every reference and every counter |
| Memory.CopyOnWrite | linux-0.11/mm/memory.c:221-238 | giving a task its own copy changes what nobody finds |
| Memory.ShareByWrites | linux-0.11/mm/memory.c:172-184 | the writes of the inner loop, one by one, share the page, and the counter does not wrap |
| Memory.Memory.constructor | linux-0.11/mm/memory.c:399-411 | mem_init: frames from the start on are free, all others marked used, and the invariant holds |
| Memory.Memory.GetFreePage | linux-0.11/mm/memory.c:63-83 | a zeroed frame counted once, or 0 exactly if none is free |
| Memory.Memory.FreePage | linux-0.11/mm/memory.c:89-99 | one reference less; false exactly where the source panics |
| Memory.Memory.FreePageTables | linux-0.11/mm/memory.c:105-131 | a task's places are all empty afterwards, nobody else's change, no counter goes wrong |
| Memory.Memory.CopyTable | linux-0.11/mm/memory.c:165-186 | one table is copied: same contents for both tasks, write-protected |
| Memory.Memory.CopyPageTables | linux-0.11/mm/memory.c:150-189 | the tables copied so far, and a clean stop when memory runs out |
| Memory.Memory.CopyMem | linux-0.11/kernel/fork.c:39-61 | all of the address space or nothing: on failure every reference and every mem_map byte is as before |
| Memory.Memory.PutPage | linux-0.11/mm/memory.c:197-219 | the page is mapped where nothing counted was, or no page table could be had and nothing changed |
| Memory.Memory.UnWpPage | linux-0.11/mm/memory.c:221-238 | afterwards the task may write its page, and every task finds what it found before |
| Memory.Memory.StoreWord | linux-0.11/mm/memory.c:247-259 | a store with its write fault changes the storing task's memory only |
| Memory.Memory.GetEmptyPage | linux-0.11/mm/memory.c:274-282 | a zero page, or nothing changed |
| Memory.Memory.LoadPage | linux-0.11/mm/memory.c:365-397 | a page filled by the kernel is mapped, or nothing changed |
| Memory.Memory.TryToShare | linux-0.11/mm/memory.c:292-334 | a clean page of the other task at the same offset is shared write-protected; otherwise nothing changes |
| Processes.Processes.Fork | linux-0.11/kernel/fork.c:68-133 | the child finds what its parent finds, the parent's memory is unchanged, one frame more is held; it fails exactly without a slot or without frames for the structure and the parent's page tables, and then leaves no trace |
| Processes.Processes.FindEmptyProcess | linux-0.11/kernel/fork.c:143-146 | the first free slot above 0, or 0 if there is none |
| Processes.Processes.Exit | linux-0.11/kernel/exit.c:19-31 | a task's address space and the frame of its structure are given back, others notice nothing |
| Processes.Processes.Exec | linux-0.11/fs/exec.c:328-333 | the old address space is replaced by the argument pages and nothing else; refused exactly if too few frames are free, lost exactly if the arguments took the last one and no page table was given up; only then does the kernel hold frames more |
| Processes.Processes.PlacePages | linux-0.11/fs/exec.c:171-175 | the argument pages are mapped at the top of the data segment, all with their contents, or exactly without a frame for the page table none is and all stay held |
| Processes.Processes.CollectPages | linux-0.11/fs/exec.c:132-147 | pages taken for arguments; exactly if memory runs out, all are given back and every counter is as before |
| Processes.Processes.Store | linux-0.11/mm/memory.c:247-259 | a store as the tasks see it, private to the task; it fails exactly if the page is shared or protected low memory and no frame is free |
| Processes.Processes.Borrow | linux-0.11/mm/memory.c:344-363 | a fault served by sharing: the task finds the other one's page, or exactly for an unfit page or want of a page table nothing changes |
| Processes.Processes.Do | linux-0.11/mm/memory.c:221-238 | each operation ends as it must in that state, refusals and losses exact; the frames held change by a task structure or by lost arguments; tasks that have no part in it find what they found before |
| Processes.Processes.Run | linux-0.11/mm/memory.c:150-238 | over every run of fork, exit, exec, fault, share and store, each step gives the tasks exactly what they would find with private memories; counters equal references, but for the frames that lost execs took |
| Tasks.Isolated | linux-0.11/mm/memory.c:221-238 | with private memories, whatever one task does, another finds what it found before; Processes.Processes.Do ties this to the code |
| Tasks.ChildKeepsMemory | linux-0.11/kernel/fork.c:39-61 | with private memories, a child finds its parent's memory at the fork, over any later operations of the other tasks |
| Tasks.ChildFinds | linux-0.11/kernel/fork.c:39-61 | in the states of a run: a child finds what its parent found at the fork, until it does something itself |
| Tasks.CountersAreReferences | linux-0.11/mm/memory.c:57 | if nothing has leaked, every counter is the number of page table entries, page tables and task structures that refer to the frame |
| Tasks.LeaksExactly | linux-0.11/fs/exec.c:171-175 | over a run, the frames counted without a reference are exactly those that the arguments of lost execs took |
| Tasks.MappedKeepsArguments | linux-0.11/fs/exec.c:171-175 | a task with any page mapped does not lose its arguments |
| Processes.LoseArguments | linux-0.11/fs/exec.c:171-175 | a fork and two execs on two free frames: the second exec loses its argument page, which stays counted |
| TaskLaws.StoreActs | linux-0.11/mm/memory.c:221-259 | a store changes one word of the storing task's page, or of its new copy of a page of the kernel, and no other page |
| TaskLaws.FaultActs | linux-0.11/mm/memory.c:274-397 | a fault leaves a page of zeros, the page read, or what the other task has there, and changes no other page |
| TaskLaws.ForkActs | linux-0.11/kernel/fork.c:39-61 | after fork the child has what the parent has, everyone else what they had |
| TaskLaws.ExitActs | linux-0.11/kernel/exit.c:19-31 | after exit the task has nothing, everyone else what they had |
| TaskLaws.ExecActs | linux-0.11/fs/exec.c:328-333 | after exec the argument pages are the last pages of the segment in order and nothing else is there, or nothing at all if they were lost |
| TaskLaws.LastStoreFound | linux-0.11/mm/memory.c:150-259 | over any run of fork, exit, exec, fault, share and store, a task finds the word it stored last at an address, whatever others do, until it stores there, execs or exits |
| TaskLaws.ChildFindsStore | linux-0.11/kernel/fork.c:39-61 | and so does a child, for what its parent stored before the fork |
| IpcModel.DeadlockExact | MyFS[mebiusjack]/kernel/proc.c:251-276 | blocking a sender closes a cycle of senders exactly if the walk from the destination reaches it |
| IpcModel.AcyclicHasNoCycle | MyFS[mebiusjack]/kernel/proc.c:241-250 | if every chain of senders ends, there is no cycle |
| IpcModel.ChainHead | MyFS[mebiusjack]/kernel/proc.c:241-250 | every chain of blocked senders ends at a process that is not sending |
| IpcModel.BlockedIsAcyclic | MyFS[mebiusjack]/kernel/proc.c:327-352 | a block that the check allowed leaves every chain finite |
| IpcModel.SendDelivers | MyFS[mebiusjack]/kernel/proc.c:304-326 | delivery to a waiting receiver keeps the invariant, message log included |
| IpcModel.SendBlocks | MyFS[mebiusjack]/kernel/proc.c:327-352 | so does blocking behind the others in the queue |
| IpcModel.FetchKeeps | MyFS[mebiusjack]/kernel/proc.c:475-504 | so does taking a blocked sender's message |
| IpcModel.ReceiveKeeps | MyFS[mebiusjack]/kernel/proc.c:372-523 | RECEIVE keeps: queues are exactly the blocked senders in order, nobody waits for what has come |
| IpcModel.InformKeeps | MyFS[mebiusjack]/kernel/proc.c:533-556 | so does an interrupt |
| IpcModel.StepKeeps | MyFS[mebiusjack]/kernel/proc.c:68-103 | every kernel entry keeps the invariant, whoever calls it with whatever arguments |
| IpcModel.After | MyFS[mebiusjack]/kernel/proc.c:292-556 | so the state after any list of kernel entries keeps it, by induction on the list |
| IpcModel.AlwaysInv | MyFS[mebiusjack]/kernel/proc.c:292-556 | in every reachable state of any number of processes: no cycle of senders, each queue exactly the processes blocked sending there, each message received once and in order or still held by its sender |
| IpcModel.AnyTakesOldest | MyFS[mebiusjack]/kernel/proc.c:414-433 | RECEIVE from ANY takes the sender blocked longest, with its message, and leaves the others queued |
| IpcModel.QuiescentDelivered | MyFS[mebiusjack]/kernel/proc.c:292-523 | when nobody is blocked sending, all that was sent was received, in order |
| IpcModel.BlockedPendingExact | MyFS[mebiusjack]/kernel/proc.c:515-519 | RECEIVE leaves its caller blocked with an interrupt pending exactly if one was pending and it named a process that has nothing for it; the assertion there fails exactly then |
| IpcModel.BlockedPendingExample | MyFS[mebiusjack]/kernel/proc.c:515-519 | such a state is reached by an interrupt and one RECEIVE |
| ProcTable.ProcTable.Deadlock | MyFS[mebiusjack]/kernel/proc.c:251-276 | the walk ends, and answers whether the destination's chain reaches the source |
| ProcTable.ProcTable.MsgSend | MyFS[mebiusjack]/kernel/proc.c:292-355 | on flag fields and linked queues, SEND does what the model says; it panics exactly if the send would close a cycle |
| ProcTable.ProcTable.Append | MyFS[mebiusjack]/kernel/proc.c:333-344 | the sender is linked behind the last of the queue |
| ProcTable.ProcTable.MsgReceive | MyFS[mebiusjack]/kernel/proc.c:372-523 | RECEIVE makes the model's step, which IpcLaws describes field by field; blocked, delivered or interrupted in exactly the modelled cases |
| ProcTable.ProcTable.Predecessor | MyFS[mebiusjack]/kernel/proc.c:447-461 | the walk finds the predecessor of the wanted sender in the queue |
| ProcTable.ProcTable.TakeMessage | MyFS[mebiusjack]/kernel/proc.c:475-504 | the sender is unlinked, its message copied, and it runs again |
| ProcTable.ProcTable.InformInt | MyFS[mebiusjack]/kernel/proc.c:533-556 | an interrupt wakes a receiver that waits for one, or is remembered |
| ProcTable.ProcTable.Schedule | MyFS[mebiusjack]/kernel/proc.c:33-53 | a runnable process with the most ticks left is chosen, if there is one with ticks or priority; ticks are refilled only if no runnable process has any |
| IpcLaws.SendExactly | MyFS[mebiusjack]/kernel/proc.c:304-352 | a receiver waiting for the sender or for anyone runs on with the message; otherwise the sender waits, last in the queue |
| IpcLaws.ReceiveExactly | MyFS[mebiusjack]/kernel/proc.c:386-523 | RECEIVE uses up a pending interrupt if it is willing to, else takes the wanted sender's message and lets it run, else waits; nothing else changes |
| IpcLaws.InformExactly | MyFS[mebiusjack]/kernel/proc.c:533-556 | an interrupt is delivered to a process that waits for it or for anyone, and otherwise kept |
| IpcLaws.PendingSince | MyFS[mebiusjack]/kernel/proc.c:386-556 | over any run, an interrupt is pending exactly if one was raised and none has been handed over since |
| IpcLaws.DeliveredOnce | MyFS[mebiusjack]/kernel/proc.c:397-402 | between two interrupts that a process gets, or with the second, one is raised for it |
| IpcLaws.NextReceiveGets | MyFS[mebiusjack]/kernel/proc.c:386-405 | an interrupt not handed over yet is what the next RECEIVE from hardware or from anyone gets |
| IpcLaws.NextReceiveHears | MyFS[mebiusjack]/kernel/proc.c:414-504 | with no such interrupt, RECEIVE from anyone gets the message of the sender blocked longest |
| FileTree.GrowKeeps | linux-0.11/fs/inode.c:101-105 | storing a new block's number in one slot keeps: all numbers of all files distinct, bits set exactly for blocks in a tree |
| FileTree.DataLocUnique | linux-0.11/fs/inode.c:72-138 | no two indices of any files share a slot |
| FileTree.BmapIs | linux-0.11/fs/inode.c:72-138 | block n of a file is zone n for n below 7, entry k of the block in zone 7 for 7+k, and entry k of the block that entry a of zone 8's block names for 7+512+512a+k |
| FileTree.EntryAtIs | linux-0.11/fs/inode.c:100-136 | an index block lists two-byte numbers, low byte first |
| FileTree.NotFreedYet | linux-0.11/fs/truncate.c:11-64 | a block about to be freed still has its bit: no block is freed twice |
| FileTree.OutOfRange | linux-0.11/fs/truncate.c:11-64 | every slot in use is one that truncate visits |
| FileTree.TruncatedOk | linux-0.11/fs/truncate.c:47-64 | after truncate the tree of the file is empty, its bits are clear, other files and bits unchanged, the invariant holds |
| FileSystem.FileSystem.constructor | linux-0.11/fs/super.c:161-162 | a file system in which nothing is in use satisfies the invariant |
| FileSystem.FileSystem.FindFirstZero | linux-0.11/fs/bitmap.c:34-45 | the first clear bit of one bitmap block |
| FileSystem.FileSystem.NewBlock | linux-0.11/fs/bitmap.c:75-105 | the lowest free block, zeroed and marked, or 0 exactly if none is free |
| FileSystem.FileSystem.BmapOrCreate | linux-0.11/fs/inode.c:72-148 | bmap answers the slot's block and changes nothing; create_block fails only when full, makes bmap answer the same block, and changes no other index of any file |
| FileSystem.FileSystem.FreeBlock | linux-0.11/fs/bitmap.c:47-73 | clears one bit; false exactly where the source panics |
| FileSystem.FileSystem.UndoDirectory | linux-0.11/fs/namei.c:523-529 | what mkdir does to its block when the entry finds no room: freed, and freed again by the last iput, which is the panic; it is spared only if there was no block to take |
| FileSystem.FileSystem.FreeInd | linux-0.11/fs/truncate.c:11-27 | frees an indirect block and what it lists, each once, without a panic |
| FileSystem.FileSystem.FreeDind | linux-0.11/fs/truncate.c:29-45 | the same one level up |
| FileSystem.FileSystem.Truncate | linux-0.11/fs/truncate.c:47-64 | never panics, clears exactly the bits of the file's blocks, leaves the other files' mappings and contents |
| FileBytes.ReadBack | linux-0.11/fs/file_dev.c:17-90 | what was written is read back |
| FileBytes.WriteToLength | linux-0.11/fs/file_dev.c:75-78 | a write makes the file as long as it reaches, and never shorter |
| FileBytes.PiecesWhole | linux-0.11/fs/read_write.c:72-78 | reading on in pieces of any sizes, the next read returns nothing exactly if the pieces together are the whole file |
| FileBytes.FileWrite | linux-0.11/fs/file_dev.c:48-90 | a write is one into a byte sequence that is zero past its end: other bytes, other files unchanged, size the maximum; short only when the device is full, at a kilobyte without a block |
| FileBytes.FileRead | linux-0.11/fs/file_dev.c:17-46 | a read returns the bytes at the position, zeros in holes |
| FileBytes.SysRead | linux-0.11/fs/read_write.c:72-78 | read returns as many bytes as were asked for and the file still has, each the one at its position |
| FileBytes.WroteContents | linux-0.11/fs/file_dev.c:64-83 | the blocks written so far make the file the sequence written so far |
| FileBytes.TruncatedContents | linux-0.11/fs/truncate.c:47-64 | after truncate the file is empty and all others are as before |
| Elevator.InsertKeepsSweeps | linux-0.11/kernel/blk_drv/ll_rw_blk.c:78-84 | an insertion never adds a second place where the order drops |
| Elevator.RemoveKeepsSweeps | linux-0.11/kernel/blk_drv/blk.h:124 | nor does removing the head |
| Elevator.InsertConserves | linux-0.11/kernel/blk_drv/ll_rw_blk.c:78-84 | nothing is lost, the head stays first, the others keep their order |
| Elevator.OneDropIsTwoSweeps | linux-0.11/kernel/blk_drv/blk.h:40-43 | with at most one drop the queue splits in two parts, each with reads before writes, then by device, then by rising sector |
| Elevator.AlwaysTwoSweeps | linux-0.11/kernel/blk_drv/ll_rw_blk.c:64-86 | after any mix of insertions and completions the distinct requests split in two such sweeps: reads before writes, devices in order, sectors strictly rising |
| Elevator.JoinsSweep | linux-0.11/kernel/blk_drv/ll_rw_blk.c:78-84 | a request for a place between the head and the end of the current sweep is put into that sweep, between its neighbours in the order |
| Elevator.PlaceIs | linux-0.11/kernel/blk_drv/ll_rw_blk.c:78-82 | the place where the loop of add_request stops is the first that fits |
| RequestQueue.WritesBounded | linux-0.11/kernel/blk_drv/ll_rw_blk.c:111-118 | at most 21 of the 32 slots ever hold writes |
| RequestQueue.SlotsCount | linux-0.11/kernel/blk_drv/ll_rw_blk.c:119-123 | no free slot up to a limit means that many requests, and conversely |
| RequestQueue.RequestQueue.FindSlot | linux-0.11/kernel/blk_drv/ll_rw_blk.c:115-123 | the highest free slot the direction may use; for reads, one is found exactly if the queue is not full |
| RequestQueue.RequestQueue.Enlist | linux-0.11/kernel/blk_drv/ll_rw_blk.c:64-86 | the linked slots are the elevator's sequence with the request inserted, which Elevator and CacheModel.QueueSweeps prove to stay two rising sweeps |
| RequestQueue.RequestQueue.AddRequest | linux-0.11/kernel/blk_drv/ll_rw_blk.c:110-143 | inserted, or no slot was free and nothing changed |
| RequestQueue.RequestQueue.EndRequest | linux-0.11/kernel/blk_drv/blk.h:109-125 | the head is removed and its slot is free |
| BufferLists.BufferLists.constructor | linux-0.11/fs/buffer.c:348-381 | buffer_init: every buffer in the free ring, no hash chain holds anything |
| BufferLists.BufferLists.FindBuffer | linux-0.11/fs/buffer.c:166-174 | the buffer with that device and block, or NULL exactly if no buffer has them |
| BufferLists.BufferLists.RemoveFromQueues | linux-0.11/fs/buffer.c:131-147 | the buffer leaves its chain and the ring, all others stay linked in order |
| BufferLists.BufferLists.LinkHash | linux-0.11/fs/buffer.c:156-163 | the array writes that put a buffer in front of its chain; BufferLists.LinkedHash says what they make of the chains |
| BufferLists.LinkedHash | linux-0.11/fs/buffer.c:156-163 | the buffer becomes the first of its new chain and the others stay linked |
| BufferLists.BufferLists.InsertIntoQueues | linux-0.11/fs/buffer.c:149-164 | the buffer is last in the ring and first in its chain; chains hold exactly the buffers with a device, the ring every buffer |
| BufferLists.BufferLists.Rename | linux-0.11/fs/buffer.c:246-249 | only this buffer changes its name, and it moves to the end of the ring |
| CacheModel.TakeKeeps | linux-0.11/fs/buffer.c:241-250 | taking a free, unlocked, clean buffer for a block that is not cached keeps the invariant and changes the contents of no block |
| CacheModel.EnqueueKeeps | linux-0.11/kernel/blk_drv/ll_rw_blk.c:132-142 | queueing a transfer keeps the invariant, the two sweeps included, and changes the contents of no block |
| CacheModel.CompleteKeeps | linux-0.11/kernel/blk_drv/blk.h:109-125 | completing the head request keeps the invariant |
| CacheModel.CompleteHides | linux-0.11/kernel/blk_drv/blk.h:109-125 | and changes the contents of no block, whatever a store during the transfer left on the disk |
| CacheModel.StoreShows | linux-0.11/fs/file_dev.c:71 | a store is seen in its block and in no other |
| CacheModel.DiscardKeeps | linux-0.11/fs/bitmap.c:56-66 | dropping the buffer of a freed block leaves what the disk has, and no other block is touched |
| CacheModel.NewKey | linux-0.11/kernel/blk_drv/ll_rw_blk.c:64-86 | locking and cache uniqueness give every queued request a different key |
| CacheModel.QueueSweeps | linux-0.11/kernel/blk_drv/ll_rw_blk.c:64-86 | the waiting transfers are two sweeps: in each, reads before writes, and those of one direction by device and rising block |
| CacheSteps.RunIsMap | linux-0.11/fs/buffer.c:206-281 | over every run of the model's steps, the contents of a block are the last data stored in it: cache, queue and disk together are a plain map |
| CacheSteps.FollowsStep | linux-0.11/fs/buffer.c:131-281 | every step of any activity or the disk keeps the invariant, changes contents only as its event says, and lets held buffers keep their blocks |
| CacheSteps.RunKeeps | linux-0.11/fs/buffer.c:131-281 | so does every state and step of a run that starts right |
| CacheSteps.ReadsLastStored | linux-0.11/fs/buffer.c:267-281 | what a reader of bread's buffer gets is the data last stored in the block |
| CacheSteps.HeldKeepsName | linux-0.11/fs/buffer.c:229-251 | a buffer held throughout a stretch of a run carries the same block throughout |
| BufferCache.BufferCache.ChooseVictim | linux-0.11/fs/buffer.c:213-223 | a buffer nobody holds with the least badness, or NULL exactly if all are held |
| BufferCache.BufferCache.AtLookup | linux-0.11/fs/buffer.c:206-227 | getblk to its first sleep: finds the block, waits, or goes on with a best victim |
| BufferCache.BufferCache.TryVictim | linux-0.11/fs/buffer.c:228-251 | starts over, waits or takes the buffer, in exactly the source's cases; a clean, unlocked buffer that nobody holds is taken for a block that is not cached |
| BufferCache.BufferCache.Claim | linux-0.11/fs/buffer.c:241-250 | the buffer, its chain, the ring and the counts after getblk took it |
| BufferCache.BufferCache.AtHashWait | linux-0.11/fs/buffer.c:183-196 | after the wait the buffer still has its name, so the retry is never taken |
| BufferCache.BufferCache.Release | linux-0.11/fs/buffer.c:253-261 | the count was not zero, and is one less |
| BufferCache.BufferCache.StartRead | linux-0.11/fs/buffer.c:267-275 | a good buffer is returned, another is read |
| BufferCache.BufferCache.AtLock | linux-0.11/kernel/blk_drv/ll_rw_blk.c:105-109 | the lock is taken, or the transfer is not needed any more |
| BufferCache.BufferCache.AtSlot | linux-0.11/kernel/blk_drv/ll_rw_blk.c:110-143 | the transfer is queued, or there is no slot and it waits on; it waits exactly if every slot it may use is in use |
| BufferCache.BufferCache.AtReadWait | linux-0.11/fs/buffer.c:276-280 | the block is there: the failing path is never taken without an I/O error |
| BufferCache.BufferCache.DiskDone | linux-0.11/kernel/blk_drv/blk.h:109-125 | the head transfer's effect on buffer, lock and disk |
| BufferCache.BufferCache.FreeBlock | linux-0.11/fs/bitmap.c:56-66 | a sole holder drops a freed block's buffer; with other holders it is reported and left |
| BufferCache.BufferCache.Do | linux-0.11/fs/buffer.c:183-281 | each choice of a schedule does exactly the model's step, keeps the invariant and shows what it should |
| BufferCache.BufferCache.Run | linux-0.11/fs/buffer.c:183-281 | any number of activities under any schedule: a buffer that bread returned always has the data last stored, every held buffer keeps its block; getblk gets a cached block, or takes a clean free buffer, and waits for one exactly while all are held; a request waits exactly while all slots it may use are in use, and there are as many in use as requests |
| CacheLaws.GetsCached | linux-0.11/fs/buffer.c:210-212 | getblk of a cached block holds its buffer, at once if it is unlocked |
| CacheLaws.GetsFree | linux-0.11/fs/buffer.c:213-251 | getblk of another block takes a free, unlocked, clean buffer exactly if there is one, sleeps for want of buffers exactly if all are held, and otherwise waits for a buffer no dirtier than others |
| CacheLaws.GetsChosen | linux-0.11/fs/buffer.c:228-251 | the buffer waited for is taken exactly if by then it is unlocked, clean, unheld and the block still not cached; else getblk waits on or starts over |
| CacheLaws.StaysForLock | linux-0.11/fs/buffer.c:36-42 | who waits for a buffer's lock stays exactly while it is locked, and then goes where it should |
| CacheLaws.StaysForSlot | linux-0.11/kernel/blk_drv/ll_rw_blk.c:110-143 | a transfer that finds a slot is queued for its buffer's block; one that finds none has at least 21 or 32 others before it |
| CacheLaws.BeginsActs | linux-0.11/fs/buffer.c:206-275 | getblk and a write begin with an idle activity, bread with a held buffer, which is returned at once if it is good |
| CacheLaws.HolderActs | linux-0.11/fs/buffer.c:253-261 | a holder's store makes its buffer dirty and good, brelse takes one hold from an unlocked buffer, free_block drops one that nobody else holds; nothing else changes |
| CacheLaws.BreadReads | linux-0.11/fs/buffer.c:267-281 | with a clean buffer to spare and nothing else going on, bread of an uncached block ends with a buffer of that block and the disk's data |
| CacheLaws.SyncWrites | linux-0.11/fs/buffer.c:44-58 | writing out a dirty buffer leaves its data on the disk and the buffer clean |
| CacheLaws.EvictsWritten | linux-0.11/fs/buffer.c:233-250 | getblk that waits for a dirty buffer gets it once it has been written, and the disk has what was in it |
| CacheLaws.ReaderSeesStore | linux-0.11/fs/buffer.c:206-281 | over every run, a reader of a block finds what the last store put there, whatever was evicted and read again in between |
| CacheLaws.ReaderSeesStart | linux-0.11/fs/buffer.c:206-281 | and what was there at the start if nobody changed it |
| CacheLaws.ReadersSeeLast | linux-0.11/fs/buffer.c:267-281 | at any time of a run, a buffer that bread returned has the data last stored in its block |
| WaitQueue.UniqueWaker | linux-0.11/kernel/sched.c:151-165 | a task sleeps exactly if some pointer leads to it, and only one does |
| WaitQueue.NextKeeps | linux-0.11/kernel/sched.c:151-194 | falling asleep, wake_up and resuming keep that |
| WaitQueue.NeverStranded | linux-0.11/kernel/sched.c:151-165 | every sleeper is behind a queue head or behind a task that can run |
| WaitQueue.WakeUpDrains | linux-0.11/kernel/sched.c:188-194 | wake_up makes the last sleeper runnable, with the others asleep behind it in order |
| WaitQueue.DrainStep | linux-0.11/kernel/sched.c:163-164 | whatever anyone does, such a queue stays or gets shorter by its first task resuming, which it can |
| WaitQueue.OneWakeUpFreesAll | linux-0.11/kernel/sched.c:188-194 | after a wake_up, all sleepers it found are awake within as many resumptions as there were sleepers |
| WaitQueue.WaitQueues.SleepOn | linux-0.11/kernel/sched.c:151-162 | sleep_on up to schedule; refused for task 0 |
| WaitQueue.WaitQueues.Resume | linux-0.11/kernel/sched.c:163-165 | sleep_on after schedule |
| WaitQueue.WaitQueues.WakeUp | linux-0.11/kernel/sched.c:188-194 | wake_up |
| MallocModel.Disjoint | linux-0.11/lib/malloc.c:117-173 | live objects are as large as asked for and no two overlap |
| MallocModel.RefcntIsLive | linux-0.11/lib/malloc.c:169-170 | refcnt is the number of live objects on the page, and the free list holds exactly the others |
| MallocModel.PageInUse | linux-0.11/lib/malloc.c:208-228 | every page is with the system, or full of descriptors, or holds a live object, and only one of these |
| MallocModel.NothingKept | linux-0.11/lib/malloc.c:208-228 | with nothing live, every page but those of descriptors is back with the system |
| MallocModel.OwnersMayWrite | linux-0.11/lib/malloc.c:160-164 | no free list runs through a live object |
| MallocModel.MovedOk | linux-0.11/lib/malloc.c:213-227 | moving a descriptor between chains leaves every descriptor in exactly one chain |
| MallocModel.GrownOk | linux-0.11/lib/malloc.c:146-167 | a new bucket keeps the invariant |
| MallocModel.TakenOk | linux-0.11/lib/malloc.c:168-170 | the object handed out was not live |
| MallocModel.GivenOk | linux-0.11/lib/malloc.c:205-207 | freeing a live object keeps the invariant |
| MallocModel.RetiredOk | linux-0.11/lib/malloc.c:208-228 | a page without live objects goes back and its descriptor is unused |
| MallocModel.PrevIs | linux-0.11/lib/malloc.c:213-218 | a descriptor that links to another is its predecessor in the same chain, however old the pointer to it is |
| Malloc.Malloc.InitBucketDesc | linux-0.11/lib/malloc.c:97-115 | a page of descriptors in front of the unused ones, or no page is free |
| Malloc.Malloc.Carve | linux-0.11/lib/malloc.c:159-164 | all objects of the page, chained in order, nothing else written |
| Malloc.Malloc.FindRoom | linux-0.11/lib/malloc.c:139-141 | a descriptor with a free object, or NULL exactly if the chain has none |
| Malloc.Malloc.Grow | linux-0.11/lib/malloc.c:146-167 | fails exactly if the system has too few pages |
| Malloc.Malloc.Alloc | linux-0.11/lib/malloc.c:117-173 | a new object of the smallest sufficient size; panics exactly for more than a page or without memory; takes no page if there was room, else one and perhaps one for descriptors; no byte of a live object changes |
| Malloc.Malloc.FindPage | linux-0.11/lib/malloc.c:191-202 | the descriptor of the page among buckets of at least the size, with its predecessor, or none has the page |
| Malloc.Malloc.FindPrev | linux-0.11/lib/malloc.c:213-223 | whatever the remembered predecessor is by now, the right one is found |
| Malloc.Malloc.Finish | linux-0.11/lib/malloc.c:204-230 | only the freed object is written; its page goes back exactly if nothing on it is live |
| Malloc.Malloc.Free | linux-0.11/lib/malloc.c:182-231 | the object is freed and its page goes back exactly if nothing else on it is live, or the panic comes exactly for an unknown address or too large a size |
| Malloc.Malloc.Do | linux-0.11/lib/malloc.c:117-231 | each call of a client that keeps a list of its objects makes the model's step, or panics in exactly the modelled cases |
| Malloc.Malloc.Run | linux-0.11/lib/malloc.c:117-231 | any list of allocations and frees, up to the first panic: in every state live objects are disjoint, counters count them and every page is accounted for |
| Malloc.Malloc.Write | linux-0.11/lib/malloc.c:160-173 | an owner may write anywhere in its object |
| ExecStack.ArgPages.CopyStrings | linux-0.11/fs/exec.c:104-152 | the strings with their zeros end up in order below the old top, across page boundaries, and nothing above changes; 0 exactly if fewer pages are free than the strings still need, or no byte is left below them; pages are got for the strings and for nothing else |
| ExecStack.ArgPages.CopyOne | linux-0.11/fs/exec.c:124-147 | one string, copied backwards through its pages, each got when it is reached, or as many as there were |
| ExecStack.FetchedExactly | linux-0.11/fs/exec.c:135-141 | pages are got one by one until all needed are there, exactly if there are as many as are needed |
| ExecStack.EnoughForAll | linux-0.11/fs/exec.c:39 | as many free pages as an argument list may have are enough for any list |
| ExecStack.Memory.Place | linux-0.11/fs/exec.c:170-176 | the argument pages become the top of the data segment |
| ExecStack.Memory.PutTable | linux-0.11/fs/exec.c:59-68 | one null-terminated table of pointers, by walking the strings |
| ExecStack.Memory.CreateTables | linux-0.11/fs/exec.c:46-70 | argc, argv and envp with pointers to exact copies of the strings, in order |
| ExecStack.StartsFinds | linux-0.11/fs/exec.c:46-70 | at the stack pointer are argc and the addresses of two tables, of the arguments and the environment; each entry leads to its string and a zero, and each table ends with a null |
| ExecStack.LongIs | linux-0.11/fs/exec.c:56-68 | an address has its lowest byte first |
| ExecStack.AddrNext | linux-0.11/fs/exec.c:59-62 | each string starts behind the zero of the one before |
| ExecStack.Exec | linux-0.11/fs/exec.c:310-334 | a program finds exactly its arguments and environment; it starts exactly if they leave a byte and there are pages for them |
| ExecStack.ExecScript | linux-0.11/fs/exec.c:261-280 | for a script the strings are interpreter name, optional argument, file name, old tail, and how they divide is up to the count; it starts exactly if they leave a byte and there are pages for them |
| ExecStack.ScriptArgsAre | linux-0.11/fs/exec.c:261-280 | that list has the interpreter name first, then its argument if there is one, the file name, and the old strings from the second on |
| ExecStack.ScriptListExact | linux-0.11/fs/exec.c:261-280 | argv is that list and envp the environment exactly if the caller passed an argv[0] |
| ExecStack.EmptyArgvLosesTheScript | linux-0.11/fs/exec.c:261-280 | with an empty argv the file name turns up as the first environment string |
| ExecStack.ParseLine | linux-0.11/fs/exec.c:235-256 | the interpreter's path, last component and the rest of the first line; none exactly if there is no line or only blanks |
| Pipe.NextKeeps | linux-0.11/fs/pipe.c:13-69 | at most 4095 bytes wait, nobody sleeps while there is something to do or an end is closed, and never two processes sleep at once |
| Pipe.Pipe.WakeUp | linux-0.11/kernel/sched.c:188-194 | the head of the queue is the only sleeper, so nobody sleeps afterwards |
| Pipe.Pipe.SleepOn | linux-0.11/kernel/sched.c:151-165 | the queue is always empty when a process goes to sleep on it |
| Pipe.FirstInFirstOut | linux-0.11/fs/pipe.c:13-69 | under any interleaving, what was taken and what waits are what was put, in order |
| Pipe.ReadsExactly | linux-0.11/fs/pipe.c:13-39 | a reader takes all it may of what waits; it returns short only with the pipe empty and an end closed, and sleeps only on an empty open pipe |
| Pipe.WritesExactly | linux-0.11/fs/pipe.c:41-69 | a writer puts all that fits; it returns short only with 4095 bytes waiting and an end closed, and sleeps only on a full open pipe |
| Pipe.CallsExactly | linux-0.11/fs/pipe.c:13-69 | a read or write begins with nothing done; closing an end wakes all |
| Pipe.ReaderGetsPrefix | linux-0.11/fs/pipe.c:13-69 | one reader of one writer has a prefix of what the writer was given, short only if an end was closed |
| Pipe.RingTake | linux-0.11/fs/pipe.c:24-35 | taking from the ring up to the end of the page |
| Pipe.RingPut | linux-0.11/fs/pipe.c:54-65 | putting into the ring up to the end of the page |
| Pipe.Pipe.ReadPipe | linux-0.11/fs/pipe.c:13-39 | a reader from one sleep to the next or its return |
| Pipe.Pipe.WritePipe | linux-0.11/fs/pipe.c:41-69 | a writer from one sleep to the next or its return |
| Pipe.Pipe.Close | linux-0.11/fs/inode.c:157-166 | closing an end wakes all |
| Pipe.Pipe.Run | linux-0.11/fs/pipe.c:13-69 | any interleaving on the ring itself is the model's run, first in first out |
| Screens.CopyScrollsUp | linux-0.11/kernel/chr_drv/console.c:141-151 | copying inside the window and clearing the row left over scrolls the grid up |
| Screens.CopyScrollsDown | linux-0.11/kernel/chr_drv/console.c:174-185 | and down |
| Screens.OriginScrollsUp | linux-0.11/kernel/chr_drv/console.c:112-138 | moving the origin over a cleared row scrolls the grid up |
| Screens.WrapScrollsUp | linux-0.11/kernel/chr_drv/console.c:115-129 | so does the wrap to the start of the video memory |
| Video.Video.MoveOrigin | linux-0.11/kernel/chr_drv/console.c:111-139 | the hardware scroll with its wrap shows the grid one row up, and the cursor moves with the window |
| Video.Video.Scrup | linux-0.11/kernel/chr_drv/console.c:107-168 | either way of scrolling up is the grid's |
| Video.Video.Scrdown | linux-0.11/kernel/chr_drv/console.c:170-202 | scrolling down |
| Video.Video.GotoXY | linux-0.11/kernel/chr_drv/console.c:88-95 | moves the cursor if the place is on screen; unsigned wrap included |
| Video.Video.Lf | linux-0.11/kernel/chr_drv/console.c:204-212 | line feed |
| Video.Video.Ri | linux-0.11/kernel/chr_drv/console.c:214-222 | reverse line feed |
| Video.Video.Wrap | linux-0.11/kernel/chr_drv/console.c:456-460 | a cursor behind its row goes to the next one before a character |
| Video.Video.Tab | linux-0.11/kernel/chr_drv/console.c:480-489 | tabulation with its wrap |
| Video.Video.Del | linux-0.11/kernel/chr_drv/console.c:230-237 | delete |
| Video.Video.CsiJ | linux-0.11/kernel/chr_drv/console.c:239-266 | erase in display |
| Video.Video.CsiK | linux-0.11/kernel/chr_drv/console.c:268-297 | erase in line |
| Video.Video.InsertChar | linux-0.11/kernel/chr_drv/console.c:336-348 | the row moves right from the cursor on |
| Video.Video.DeleteChar | linux-0.11/kernel/chr_drv/console.c:363-376 | the row moves left |
| Video.Video.InsertLine | linux-0.11/kernel/chr_drv/console.c:350-361 | the rows from the cursor's on move down |
| Video.Video.DeleteLine | linux-0.11/kernel/chr_drv/console.c:378-389 | the rows below move up |
| Video.Video.CsiAt | linux-0.11/kernel/chr_drv/console.c:391-399 | as often as asked, at least once and at most a row |
| Video.Video.CsiM | linux-0.11/kernel/chr_drv/console.c:421-429 | as often as asked, at least once and at most a screen |
| Console.Console.Write | linux-0.11/kernel/chr_drv/console.c:445-605 | for every stream of bytes the screen is the plain grid's, whose laws are those of TerminalLaws; the column is at most the width, the row on screen, and pos is origin plus their offsets |
| Console.SameOnBoth | linux-0.11/kernel/chr_drv/console.c:107-168 | a display that scrolls by its origin and one that copies show the same for every stream |
| Terminal.EscSevenExact | linux-0.11/kernel/chr_drv/console.c:505-506 | ESC 7 saves the cursor exactly in column 55 or if there is nothing to save |
| Terminal.EscEightExact | linux-0.11/kernel/chr_drv/console.c:507-508 | ESC 8 restores it exactly in column 56 or if it is there already |
| Terminal.EscSevenLosesTheCursor | linux-0.11/kernel/chr_drv/console.c:505-506 | a screen on which ESC 7 saves nothing |
| Terminal.EscEightLeavesTheCursor | linux-0.11/kernel/chr_drv/console.c:507-508 | a screen on which ESC 8 does not bring the cursor back |
| TerminalLaws.DigitsRead | linux-0.11/kernel/chr_drv/console.c:517-523 | the digits of a parameter are read as the number they denote, modulo 2^32 |
| TerminalLaws.CursorAddressed | linux-0.11/kernel/chr_drv/console.c:560-564 | ESC [ row ; column H or f puts the cursor there, counted from one, or nothing moves if that is off screen |
| TerminalLaws.AddressExample | linux-0.11/kernel/chr_drv/console.c:560-564 | ESC [ 3 ; 1 0 H on 80 by 25: column 9, row 2 |
| TerminalLaws.CursorUpDown | linux-0.11/kernel/chr_drv/console.c:532-555 | A, B, e, E and F move that many rows, at least one, E and F to the first column; a move off screen is not made, unless unsigned arithmetic wraps it round |
| TerminalLaws.CursorLeftRight | linux-0.11/kernel/chr_drv/console.c:540-547 | C, a and D move that many columns in the same way |
| TerminalLaws.CursorPlaced | linux-0.11/kernel/chr_drv/console.c:528-559 | G, backquote and d set the column or the row, counted from one |
| TerminalLaws.CursorSaved | linux-0.11/kernel/chr_drv/console.c:595-600 | ESC [ s remembers the cursor, ESC [ u brings it back there |
| TerminalLaws.RegionSet | linux-0.11/kernel/chr_drv/console.c:586-594 | ESC [ top ; bottom r sets the scroll region; an empty one changes nothing |
| TerminalLaws.AttributeSet | linux-0.11/kernel/chr_drv/console.c:299-311 | ESC [ n m sets the colours by 0, 1, 4, 7 and 27, any other number nothing |
| TerminalLaws.DisplayErased | linux-0.11/kernel/chr_drv/console.c:239-266 | J blanks from the cursor on, up to the cursor or everything, and no other cell |
| TerminalLaws.LineErased | linux-0.11/kernel/chr_drv/console.c:268-297 | K does so in the cursor's row |
| TerminalLaws.LinesInserted | linux-0.11/kernel/chr_drv/console.c:401-409 | L moves the rows from the cursor's on down by the number, leaving blank rows |
| TerminalLaws.LinesDeleted | linux-0.11/kernel/chr_drv/console.c:421-429 | M moves the rows below up over the cursor's, with blank rows at the bottom |
| TerminalLaws.CharsInserted | linux-0.11/kernel/chr_drv/console.c:391-399 | @ moves the rest of the row right by the number, leaving blanks |
| TerminalLaws.CharsDeleted | linux-0.11/kernel/chr_drv/console.c:411-419 | P moves the rest of the row left, with blanks at its end |
| TerminalLaws.TextShown | linux-0.11/kernel/chr_drv/console.c:455-466 | text that fits into the rest of the row stands there in order in the current colours, the cursor behind it |
| TerminalLaws.TextWraps | linux-0.11/kernel/chr_drv/console.c:456-460 | in a full row a character goes where carriage return and line feed would put it |
| TerminalLaws.LineFed | linux-0.11/kernel/chr_drv/console.c:204-212 | line feed goes down a row, or the scroll region moves up with a blank row at its end |
| TerminalLaws.ReverseLineFed | linux-0.11/kernel/chr_drv/console.c:214-222 | ESC M goes up a row, or the region moves down; ESC D is a line feed |
| TerminalLaws.NextLineShown | linux-0.11/kernel/chr_drv/console.c:497-498 | ESC E goes to the start of the next row, if there is one |
| TerminalLaws.ControlsShown | linux-0.11/kernel/chr_drv/console.c:471-479 | carriage return and backspace |
| TerminalLaws.TabShown | linux-0.11/kernel/chr_drv/console.c:480-489 | a tabulator goes to the next multiple of eight, or as far into the next line |
| TerminalLaws.EraseShown | linux-0.11/kernel/chr_drv/console.c:230-237 | the erase character blanks the cell before the cursor and goes there |
| LinkModel.FileMadeKeeps | linux-0.11/fs/namei.c:438-460 | a new file with its entry keeps: link counts are numbers of entries, names unique, inodes in use exactly with links or holders |
| LinkModel.DirMadeExact | linux-0.11/fs/namei.c:511-535 | so does mkdir, exactly if the parent's count, one byte, does not wrap |
| LinkModel.LinkedExact | linux-0.11/fs/namei.c:763-776 | so does link, exactly if the file's count does not wrap |
| LinkModel.UnlinkedKeeps | linux-0.11/fs/namei.c:705-717 | so does unlink |
| LinkModel.HoldersKeep | linux-0.11/fs/inode.c:175-191 | so do iget and iput |
| LinkModel.RemovedPlace | linux-0.11/fs/namei.c:642-655 | an empty directory has exactly two links and is in the directory its .. names |
| LinkModel.NoChildren | linux-0.11/fs/namei.c:543-585 | no .. points to an empty directory, and .. itself never leads to one |
| LinkModel.DirRemovedKeeps | linux-0.11/fs/namei.c:642-659 | rmdir keeps the invariant, the removed inode is free, the parent has one link less |
| DirCalls.UnlinkFreesExactly | linux-0.11/fs/namei.c:713-716 | unlink frees the inode exactly for its last link without holders, and no other |
| DirCalls.RmdirFreesExactly | linux-0.11/fs/namei.c:642-659 | rmdir frees the directory, with its two links and no holder, and no other inode |
| DirCalls.CloseFreesExactly | linux-0.11/fs/inode.c:175-184 | the last close frees it exactly if no link is left |
| DirCalls.UsedExactly | linux-0.11/fs/inode.c:150-192 | over all calls: an inode in use is freed exactly by the one that takes its last link or holder, a free one taken exactly by one that makes it |
| DirCalls.UsedSince | linux-0.11/fs/inode.c:150-192 | over a run in which nothing makes it, an inode stays in use exactly until a call frees it |
| DirCalls.FreedOnce | linux-0.11/fs/inode.c:150-192 | between two calls of a run that free the same inode there is one that makes it |
| DirCalls.LinkWraps | linux-0.11/fs/namei.c:763-776 | a file with 255 links: link succeeds and the count is wrong |
| DirCalls.MkdirWraps | linux-0.11/fs/namei.c:511-535 | a directory with 253 others: mkdir succeeds and the count is wrong |
| DirCalls.MkdirPanics | linux-0.11/fs/namei.c:523-529 | a full root directory on a device with one block left: mkdir panics |
| DirCalls.FindsOne | linux-0.11/fs/namei.c:91-153 | names are unique, so the slot with a name is the only one |
| Namei.MatchIsStored | linux-0.11/fs/namei.c:63-78 | match is equality with the stored form of the name |
| Namei.NotFound | linux-0.11/fs/namei.c:112-126 | a name that find_entry does not find is absent; in the process's root, .. is taken for . and found |
| Namei.Namespace.FindEntry | linux-0.11/fs/namei.c:91-153 | a slot with the name, or the name is in no used slot |
| Namei.Namespace.AddEntry | linux-0.11/fs/namei.c:165-220 | the first free slot or a new last one; fails exactly if the last block is full and no other can be had |
| Namei.Namespace.NewInode | linux-0.11/fs/bitmap.c:136-168 | the lowest free inode, or 0 exactly if there is none |
| Namei.Namespace.Iput | linux-0.11/fs/inode.c:175-191 | the last holder of an inode without links frees it |
| Namei.Namespace.Open | linux-0.11/fs/namei.c:360-409 | the exact outcome; a creating open makes and holds the inode, any other holds the inode of the entry with that name; refusals change nothing |
| Namei.Namespace.Mknod | linux-0.11/fs/namei.c:412-461 | the exact outcome: refused, the name is taken, no inode or no room, or a file with one link and no holder |
| Namei.Namespace.Mkdir | linux-0.11/fs/namei.c:463-538 | the exact outcome; a panic exactly if it may write, the name is new, an inode and a block are to be had, and the parent has no room |
| Namei.Namespace.EmptyDir | linux-0.11/fs/namei.c:543-585 | exactly the directories with nothing but . and .. |
| Namei.Namespace.Rmdir | linux-0.11/fs/namei.c:587-661 | the exact outcome, each refusal included; removes exactly what may be removed; the warning about links is never printed |
| Namei.Namespace.Unlink | linux-0.11/fs/namei.c:663-719 | the exact outcome; removes the entry and one link of any file found; the repair of a count of zero is never taken |
| Namei.Namespace.Link | linux-0.11/fs/namei.c:721-778 | the exact outcome: refused, the name is taken, no room, or one entry and one link more |
| Namei.Namespace.Close | linux-0.11/fs/inode.c:150-191 | one holder less |
| Namei.Namespace.Do | linux-0.11/fs/namei.c:360-778 | every call makes the model's step, and counts stay right exactly if it does not overflow |
| Namei.Namespace.Run | linux-0.11/fs/namei.c:412-778 | any sequence of calls is a run of the model's steps with the invariant in every state, up to the first call that wraps a count or panics in the state reached |
| DirLaws.OpenFinds | linux-0.11/fs/namei.c:380-405 | open holds the inode of the entry with that name; .. in the caller's root is that root, elsewhere the parent |
| DirLaws.MadeIsFound | linux-0.11/fs/namei.c:412-538 | after mknod, mkdir, link or a creating open the directory has the new entry and all it had, and no other directory changes; a new directory has . and .. |
| DirLaws.RemovedIsGone | linux-0.11/fs/namei.c:587-719 | after unlink or rmdir no used entry has the name, all others are still there, and no other inode changes but the one named |
| DirLaws.CloseExactly | linux-0.11/fs/inode.c:150-191 | close gives up one hold, and the last one of an inode without links gives up the inode; nothing else changes |
| DirLaws.MknodFails | linux-0.11/fs/namei.c:412-461 | each error of mknod exactly for its cause |
| DirLaws.OpenFails | linux-0.11/fs/namei.c:360-409 | each error of open exactly for its cause |
| DirLaws.MkdirFails | linux-0.11/fs/namei.c:463-538 | each error of mkdir exactly for its cause, and the panic exactly for a full directory on a full device |
| DirLaws.LinkFails | linux-0.11/fs/namei.c:721-778 | each error of link exactly for its cause |
| DirLaws.UnlinkFails | linux-0.11/fs/namei.c:663-719 | each error of unlink exactly for its cause |
| DirLaws.RmdirFails | linux-0.11/fs/namei.c:587-661 | each error of rmdir exactly for its cause: busy, sticky or itself, no directory, not empty |

## Left out

- I/O errors, media change, invalidation and read-ahead: a transfer always succeeds.
- Devices: a disk is one step that finishes the request at the head of the queue; controllers, interrupts and ports are left out.
- Several request queues: the block cache has the devices of one driver, so one queue; slots taken by other drivers would only make requests wait longer.
- BufferCache.BufferCache.TryVictim: sync_dev is not called here; any idle activity may write any dirty buffer at any time, and getblk waits until its buffer is clean; how the loop over all buffers ends is not described.
- Progress of the block cache: which waiting activity runs, and that one ever does, is up to the schedule.
- The first write through b_next of insert_into_queues when the chain was empty (buffer.c:163): that write goes through a null pointer and is left out.
- Fewer than two buffers: the free ring is modelled with at least two.
- BufferCache.BufferCache.FreeBlock: the buffer is got with getblk here, the source looks it up in the cache only, which makes no difference to a cached block; it waits for a lock before, and when others hold the buffer it keeps the count it took.
- MyFS kernel entries are atomic steps, because the model does not let interrupts in while one runs; sys_call does.
- MyFS sendrec as SEND followed by RECEIVE, and the translation of addresses: a message is a value.
- Page faults while the kernel copies to or from a task: such copies are taken as one step.
- The first megabyte is the kernel's and is shared by all tasks: what a task finds there changes with the kernel.
- Shared pages and the executable: that a shared page still equals the file is not claimed.
- Swapping of CR3, TLB invalidation, segment descriptors, signals, timers (`add_timer`), accounting.
- Files: inode and bitmap blocks are arrays, not cached blocks; times and permissions are left out; indirect blocks are read and written at once.
- Writes that would leave the largest file: _bmap panics there, so the calls demand that they stay inside.
- interruptible_sleep_on and other wakers of a sleeper: only sleep_on and wake_up are modelled.
- Pipe.Pipe.SleepOn: processes are numbered without task 0, which may not sleep.
- Which end of a pipe a process holds, and the signal for a broken pipe: only the number of open ends counts.
- The contents of a page from get_free_page, and which one it is: the allocator may be given any free page.
- Malloc.Malloc.Free: freeing an object twice, or an address inside a page in use that is not a live object, is excluded; the source does not notice either.
- ExecStack.ArgPages.CopyStrings: strings that do not fit are excluded. The test for them compares an unsigned number with zero and is never true.
- ExecStack.Exec: likewise for lists longer than the argument pages.
- ProcTable.ProcTable.Schedule: with no runnable process that has ticks or priority the source loops until an interrupt changes that; this is excluded.
- Pages that other parts of the kernel take: in the allocator's model it is the only one that takes pages from the system and gives them back.
- Memory.Memory.LoadPage: getting the page, reading it and mapping it are one step, though reading sleeps.
- Tasks.MappedKeepsArguments: the faults that create_tables causes in the new address space are not part of exec here.
- Memory.Memory.PutPage: an address where a counted frame is mapped is excluded; `PageSteps.PutExact` says what happens there.
- In exec: permissions, headers of binaries, closing of files, brk.
- Rows of an odd number of cells, which the copying of two cells at once does not handle; the bell, the cursor registers, and the text of the answer to ESC Z.
- Video.Video.CopyUp: the string instruction moves two cells at once, here one; rows never overlap by one cell.
- FileSystem.FileSystem.UndoDirectory: one device's blocks; that the device has no block left for the parent is Namei's `room`.
- Walking a path: a directory call starts with the directory that the path led to, and nothing else runs during the call.
- In directory calls: mount points, permissions except as an answer given to the call, mknod of directories, truncation by open, the table of inodes in memory and its limit.
- The directory's own reference taken by the walk is not counted, because it is given back before the call ends.
- Linked trees of the user-level file server of MyFS, its keyboard, console and disk drivers, and the rest of both kernels.
