# Verification of a bare-metal Game Boy kernel

This project models the parts of the kernel whose behaviour is hardest to see by reading one function: the Game
Boy hardware state machines, the memory and scheduling core, the on-disk structures, and one arithmetic kernel.

Each component has two layers. A layer of values says what the code does as functions over states, and holds the
laws: invariants over every run, batching that equals single steps, refinement of simple specifications, round
trips. A class of the same shape as the source's object updates its fields, arrays and linked nodes in place and
is proved equal to those functions, so the laws hold of the code that changes state.

The functions of the first layer are the code's own computations, so a law about them may not lean on them for what
they compute. For each unit some laws are told in other terms: interrupts and drawing by the clock's position, dots by
binary numerals, files and directories by what is stored on the disk, banks by the last write to each address range,
transfers by the bytes programmed, turns by counting interrupts.

| files | what they model |
|---|---|
| Clock, Batch, Ppu, Video, Gpu | the picture unit: a clock that strides up to 80 ticks, modes and interrupts, scanlines, sprite priority |
| PictureRuns, Tiles, Digits | what the picture unit has requested and drawn after any number of ticks; what tiles and sprites look like, bytes being binary numerals |
| VramDma, DmaPace, Bus, Mmu | the VRAM DMA engine, its pace, and DMA, timer, keypad, picture unit and serial port taking turns |
| Timer, Serial, Decimal, Mbc1 | the divider-edge timer, the serial port, ADC/SBC/DAA, cartridge banking |
| Intrusive, Pages, Pmm | the intrusive doubly linked list and the physical page allocator on it |
| RunQueues, Dispatch, Fairness, Turns, Sched | the priority round-robin scheduler on intrusive queues, its order and its time slices |
| Chains, FatVolume, FatPanic, FatStored, Fat32 | the FAT32 reader: three directory walks and the file reader, when they fail or panic, and reading back what is stored |
| SaveArea, SaveTable, SaveRuns, SaveDisk, Savefile | the sixteen-slot save area as a bounded map, and on disks that fail |
| Euclid, LineError, LineRun, Bresenham | line drawing: exact error arithmetic, the 32-bit rounds and the exact bound between them |
| Common | options, bytes, bits, division facts |

## What the proofs show about the code

- A save of 32257 to 32768 bytes is accepted although a slot has 63 data sectors, and its last sector overwrites
  the next slot's header (`SaveRuns.SizeBoundExact`, `SaveRuns.OverrunHitsHeader`,
  `SaveRuns.OverrunLosesNeighbour`). The comments of savefile.rs give a slot as 32 KiB; the code's data area is
  32256 bytes. Such a save loads back until something writes that header sector (`SaveTable.SavedLoads`,
  `SaveTable.LargeLoadsIff`): a later save into the next slot, or its deletion, cuts it unless the bytes agree
  (`SaveTable.SaveRefines`, `SaveTable.DeleteRefines`).
- The boot memory map is exact for regions below 2^44; above, the page number is truncated to a 32-bit usize and a
  wrong page can be freed (`Pages.VisitsIffInside`, `Pages.CastFreesWrongPage`).
- `is_linked` does not recognise the only node of a singleton list (`Intrusive.List.IsLinkedIffNotAlone`).
- The timer's batches are exact up to half the period that TAC selects and not beyond (`Timer.BatchExactIff`).
- With fewer than 32 ROM banks, bank 0 can be mapped into the switchable window (`Mbc1.BankZeroReachableIff`).
- An HBlank transfer equals a general one for every source whose bytes change only by the transfer itself, VRAM
  included (`VramDma.HdmaIsGdma`).
- Queueing an item that is already in an intrusive list makes the list endless (`Intrusive.List.PushFront`).
- A failed mount keeps the old volume's parameters but reads them on the new device (`Fat32.Fat32.Mount`).
- `draw_line` draws a line whose sides fit 32 bits right if and only if its error term fits too
  (`LineRun.DrawsIffFits`). With sides dx >= dy, g their greatest common divisor and m = g * (dx / g / 2), the
  condition is 2 * (m + dx - dy) < 2^31; with dx < dy and m = g * (dy / g / 2), it is 2 * (m + dy - dx) <= 2^31. A
  horizontal line of 0x3FFFFFFF steps is drawn, one of 0x40000000 is not.
- `mount` accepts sectors of up to 4096 bytes, but FAT links are read from the first 512 only: reads and directory
  walks are free of panics on every disk if and only if sectors have 512 bytes (`FatPanic.NoPanicIff512`).

## Modelling decisions

- A container embeds its list node at offset 0, so a node and its container are one heap object.
- `usize` has 32 bits and arithmetic wraps where the source's release build wraps; addresses of the Game Boy bus
  have 16 bits.
- A disk is a deterministic map from sector numbers to 512-byte sectors; a sector outside the map is a read error.
  For the save area, the sectors whose reads and writes fail are given by a set.
- The clock, the ROM name and the hash of the ROM name are inputs; saves are keyed by the hash.
- The registers that `do_cycle` only reads (scroll, window, palettes, VRAM, OAM, control bits) are one record.
- Frame buffers, the background-priority row, sector buffers and name buffers are arrays updated in place; SRAM
  and VRAM are sequences in fields.
- The FAT32 driver reads 512 bytes of a sector whatever the volume's sector size. A link outside those bytes makes
  `get_next_cluster` panic; a panic is modelled like a walk that never comes back, and the contracts speak about
  calls that do. Exactly when a call does is stated over the FAT: `FatPanic.FiniteIff` for the directory walks,
  `FatPanic.PanicsIffBadLink` for the file reader.
- The interrupt flag register is a record of its five bits; of the keypad only the pending interrupts are modelled.

## Model

| member | source | states |
|---|---|---|
| Clock.StrideRuns | kernel/src/gameboy/gpu.rs:177-212 | A stride of up to 80 ticks from any state with a legal clock ends in one: clock below 456, line below 154, mode determined by both, and line*456+clock has advanced by exactly the stride, modulo 70224 |
| Clock.StrideSplits | kernel/src/gameboy/gpu.rs:177-212 | A stride of n+1 ticks, n up to 80, is a stride of n followed by a single tick, for every reaction of the picture: no such stride crosses two mode boundaries |
| Clock.LongStrideSkips | kernel/src/gameboy/gpu.rs:178-211 | The stride width is tight: 82 ticks at the end of a line enter one mode fewer than single ticks do, so the 80 of the source has one tick of slack |
| Clock.BatchIsTicks | kernel/src/gameboy/gpu.rs:169-213 | `do_cycle(t)` leaves the same line, clock, mode and picture as t calls of `do_cycle(1)`, for every t; the per-call HBlank flag is set if and only if one of the single calls sets it |
| Clock.BatchRuns | kernel/src/gameboy/gpu.rs:169-213 | From any legal state `do_cycle(t)` ends in a legal state whose position has moved by exactly t modulo 70224 |
| Clock.EventAt | kernel/src/gameboy/gpu.rs:195-211 | The n-th tick enters HBlank of line L exactly when it lands on position L*456+253, and enters VBlank exactly when it lands on 144*456 |
| Clock.HBlankCounts | kernel/src/gameboy/gpu.rs:195-211 | For any number of ticks, HBlank of a visible line is entered once per landing on its position |
| Clock.VBlankCounts | kernel/src/gameboy/gpu.rs:183-192 | For any number of ticks, VBlank is entered once per landing on the start of line 144 |
| Clock.OncePerFrame | kernel/src/gameboy/gpu.rs:169-213 | Any 70224 consecutive ticks, from any legal state, enter HBlank exactly once on each visible line and VBlank exactly once |
| Ppu.StepKeeps | kernel/src/gameboy/gpu.rs:169-173 | Every cycle batch and register write keeps: display on, a legal clock; display off, the clock parked at line 0, clock 0, mode 0 |
| Ppu.RunKeeps | kernel/src/gameboy/gpu.rs:329-381 | The same over every sequence of cycle batches and register writes, the display being switched off and on in between |
| Ppu.ReachableExact | kernel/src/gameboy/gpu.rs:169-249 | In every state reachable with the display on, the mode is a function of line and clock, and a batch of t ticks leaves the same frame buffers, window state, interrupt bits and clock as t single ticks |
| Ppu.ControlReadsBack | kernel/src/gameboy/gpu.rs:263-355 | 0xFF40 reads back every byte that was written to it |
| Ppu.StatReadsBack | kernel/src/gameboy/gpu.rs:273-361 | 0xFF41 reads back the four enable bits written to it, below a set top bit and above the comparison and the mode |
| PictureRuns.CycleRequests | kernel/src/gameboy/gpu.rs:169-249 | `do_cycle(t)` requests VBlank if and only if it enters VBlank, and STAT if and only if one of its ticks enters mode 0, 1 or 2 with that mode enabled or begins the line compared with LYC while that is enabled; it makes no other request and drops none; `updated` is set and the first frame ends exactly with VBlank |
| PictureRuns.TickDraws | kernel/src/gameboy/gpu.rs:224-475 | A tick draws if and only if it reaches clock 253 of a visible line past the first frame: that row and the priority row, the next line of the window where it shows; at every other tick the frame is untouched |
| PictureRuns.TickArms | kernel/src/gameboy/gpu.rs:230-243 | The window is armed exactly when mode 3 begins on line WY with the window on, at its first line unless it is armed already, and disarmed exactly when VBlank begins |
| PictureRuns.VBlankStartsFrame | kernel/src/gameboy/gpu.rs:230-236 | From any state, entering VBlank leads to line 144, clock 0, the window disarmed and the first frame over |
| PictureRuns.FrameDrawn | kernel/src/gameboy/gpu.rs:169-249 | From there, 70224 ticks with unchanged registers draw each of the 144 rows as its line looks, with window line l - WY on the lines from WY on where the window shows, request VBlank, and lead there again |
| PictureRuns.FirstFrameBlank | kernel/src/gameboy/gpu.rs:463-466 | Until VBlank has been entered once, a display just switched on draws nothing |
| PictureRuns.SwitchedOff | kernel/src/gameboy/gpu.rs:343-350 | A control write that switches the display off leaves it dark: every dot white, the clock at the top of the screen, the window disarmed |
| PictureRuns.StaysDark | kernel/src/gameboy/gpu.rs:169-173 | It stays dark through any cycles, register writes and acknowledged interrupts that do not switch it on |
| PictureRuns.SwitchedOn | kernel/src/gameboy/gpu.rs:351-354 | Switching on continues at position 4 of the frame in mode 2, and requests STAT if that mode is enabled |
| PictureRuns.DarkUntilVBlank | kernel/src/gameboy/gpu.rs:169-355 | From there the screen is white for exactly 65660 ticks, when VBlank is entered and requested |
| PictureRuns.LycCompares | kernel/src/gameboy/gpu.rs:365-368 | A write to LYC requests STAT if and only if the comparison is enabled and the current line is the one written, and changes nothing else but LYC |
| Gpu.Gpu.DoCycle | kernel/src/gameboy/gpu.rs:169-213 | The in-place loop, on real frame buffers, computes exactly the batch whose clock, requests and drawing Clock.BatchIsTicks, PictureRuns.CycleRequests and PictureRuns.FrameDrawn tell, and nothing at all with the display off; every buffer index is in range |
| Gpu.Gpu.Turn | kernel/src/gameboy/gpu.rs:178-211 | One turn of the loop is one stride |
| Gpu.Gpu.NextLine | kernel/src/gameboy/gpu.rs:183-192 | Running past the end of a line wraps clock and line, compares LYC, and enters mode 1 at line 144 |
| Gpu.Gpu.FollowClock | kernel/src/gameboy/gpu.rs:195-211 | On a visible line the mode is brought in step with the clock |
| Gpu.Gpu.ChangeMode | kernel/src/gameboy/gpu.rs:221-249 | Entering a mode in place: HBlank draws the line and raises the flag, VBlank raises its interrupt and ends the first frame, mode 3 arms the window; the STAT interrupt follows its enable bit (PictureRuns.CycleRequests, TickDraws and TickArms say so over runs) |
| Gpu.Gpu.ModeArm | kernel/src/gameboy/gpu.rs:224-246 | What each arm changes, and which enable bit its STAT interrupt has |
| Gpu.Gpu.CheckInterruptLyc | kernel/src/gameboy/gpu.rs:215-219 | The STAT bit is raised exactly when the comparison is enabled and the line matches |
| Gpu.Gpu.WriteControl | kernel/src/gameboy/gpu.rs:333-355 | A write to 0xFF40 decodes every control bit; switching off parks the clock and blanks the screen, switching on enters mode 2 at clock 4 |
| Gpu.Gpu.WriteStat | kernel/src/gameboy/gpu.rs:356-361 | A write to 0xFF41 sets the four interrupt enable bits |
| Gpu.Gpu.WriteLyc | kernel/src/gameboy/gpu.rs:365-368 | A write to 0xFF45 sets the compare line and compares at once |
| Gpu.Gpu.SwitchOff | kernel/src/gameboy/gpu.rs:343-350 | Clock parked, window disarmed, first frame pending, both frame buffers blank |
| Gpu.Gpu.ClearScreen | kernel/src/gameboy/gpu.rs:436-444 | Every pixel of both frame buffers is blank |
| Gpu.Gpu.RenderScan | kernel/src/gameboy/gpu.rs:463-475 | Drawing a line changes that row only, to the row of the picture model; nothing is drawn in the first frame after switching on |
| Gpu.Gpu.RedrawRow | kernel/src/gameboy/gpu.rs:468-474 | The finished row and the background-priority row, pixel for pixel; the window line advances only where the window is on |
| Gpu.Gpu.DrawBg | kernel/src/gameboy/gpu.rs:498-601 | Every column of the row and of the priority row holds the background or window dot, in both hardware modes |
| Gpu.Gpu.SelectSprites | kernel/src/gameboy/gpu.rs:611-626 | The loop over OAM selects the first ten entries that touch the line |
| Gpu.Gpu.DrawSprites | kernel/src/gameboy/gpu.rs:603-703 | Each pixel of the row is what painting the sorted sprites one after the other leaves over the old pixel: the dot of Tiles.TopSprite |
| Gpu.Gpu.PaintSprite | kernel/src/gameboy/gpu.rs:634-702 | One sprite changes exactly the columns where it has a dot that passes its background-priority test, to the dot of Tiles.SpriteShows |
| Gpu.Gpu.WriteVram | kernel/src/gameboy/gpu.rs:329-332 | A write through the bank register changes the one VRAM cell it names; past VRAM it changes nothing |
| Video.Select | kernel/src/gameboy/gpu.rs:611-626 | The selection holds only sprites that touch the line, in OAM order |
| Video.SelectTakesFirst | kernel/src/gameboy/gpu.rs:614-626 | An OAM entry on the line is left out only when the selection is full of entries that come before it |
| Video.PaintOrderSorted | kernel/src/gameboy/gpu.rs:628-632 | The painting order is a sorted rearrangement of the selection: covered sprites first, by (x, OAM index) or by OAM index alone on colour hardware |
| Video.PaintedIsLast | kernel/src/gameboy/gpu.rs:634-702 | Painting in any order leaves, in each column, the dot of the last sprite showing there |
| Video.WinnerPainted | kernel/src/gameboy/gpu.rs:603-716 | In a sorted painting order the last sprite showing in a column is the one that covers all others showing there |
| Video.WinnerExists | kernel/src/gameboy/gpu.rs:707-716 | Wherever some selected sprite shows, one of them covers all the others |
| Video.PriorityRule | kernel/src/gameboy/gpu.rs:603-716 | Sort-then-paint is the priority rule: each pixel is the dot of the unique sprite with least (x, OAM index), or least OAM index on colour hardware, among the first ten on the line that are opaque there and pass their priority test, else the background |
| Tiles.SpriteShows | kernel/src/gameboy/gpu.rs:634-702 | Dot j from the left of a sprite, in its row y counted from its upper edge, has the colour number that the two bytes of the tile row spell in binary at j, from right to left when flipped; rows count from below when flipped, and go on in the next tile for 16 lines; 0 or hidden by the background it shows nothing, else its palette's colour |
| Tiles.SpriteNarrow | kernel/src/gameboy/gpu.rs:635-667 | Outside the eight columns from its x position minus 8 on, a sprite shows nothing |
| Tiles.RowExists | kernel/src/gameboy/gpu.rs:578-579 | Any two bytes spell eight colour numbers in binary |
| Tiles.TopSprite | kernel/src/gameboy/gpu.rs:603-716 | Among the first ten of the forty entries that touch the line, the dot seen in a column is that of the sprite with the least x byte, then the earliest, or on colour hardware the earliest, of those that show there |
| Tiles.NoSpriteShows | kernel/src/gameboy/gpu.rs:603-606 | Where none of them shows, and everywhere with sprites switched off, the background is seen |
| Tiles.BackgroundShows | kernel/src/gameboy/gpu.rs:513-600 | Outside the window the background is seen: dot (SCX + p, SCY + line) of the 256 by 256 dots of its map, the colour number being the one that the bytes of the cell's tile row spell there, either way round, in the cell's palette and rank |
| Tiles.WindowShows | kernel/src/gameboy/gpu.rs:513-600 | From column WX - 7 on, where the window is on, its map is seen from its left edge on, likewise |
| Tiles.BackgroundCovers | kernel/src/gameboy/gpu.rs:515-537 | Every dot of the screen is a dot of the background map |
| Tiles.NothingShows | kernel/src/gameboy/gpu.rs:499-540 | With background and window off a dot is white and ranks below no sprite |
| Tiles.ColoursCorrected | kernel/src/gameboy/gpu.rs:487-496 | The colour correction does not overflow a byte for five-bit shades, and keeps grey grey |
| Gpu.Gpu.Layout | kernel/src/gameboy/gpu.rs:477-496 | The two frame buffers hold the frame row by row, three bytes and one palette index a dot |
| Gpu.Gpu.ReadControl | kernel/src/gameboy/gpu.rs:263-272 | 0xFF40 is composed as ControlReadsBack says |
| Gpu.Gpu.ReadStat | kernel/src/gameboy/gpu.rs:273-280 | 0xFF41 is composed as StatReadsBack says |
| Intrusive.List.PushFront | kernel/src/mm/intrusive.rs:128-148 | A new item becomes the front, other items keeping their places; an item that is in the list already destroys it: from the head the `next` links then go round for ever |
| Intrusive.List.PushBack | kernel/src/mm/intrusive.rs:156-175 | A new item becomes the back; an item that is in the list already destroys it: from the tail the `prev` links then go round for ever |
| Intrusive.List.PopFront | kernel/src/mm/intrusive.rs:183-200 | An empty list yields nothing and stays empty; otherwise the first node is removed, returned and fully unlinked |
| Intrusive.List.PopBack | kernel/src/mm/intrusive.rs:208-224 | The same at the other end |
| Intrusive.List.Remove | kernel/src/mm/intrusive.rs:232-252 | The item disappears from its position, the rest keeps its order, and the item is fully unlinked |
| Intrusive.List.ChainsAgree | kernel/src/mm/intrusive.rs:84-93 | Following `next` from the head visits exactly the list, following `prev` from the tail exactly its reverse, and both end after `len` nodes |
| Intrusive.List.IsLinkedIffNotAlone | kernel/src/mm/intrusive.rs:55-57 | `is_linked` recognises a queued node if and only if the list has at least two: the guard of the debug assertions misses the only node of a singleton list |
| Pmm.Pmm.AllocPage | kernel/src/mm/pmm.rs:225-238 | On linked frames: the head of the free list is taken, its frame marked allocated with one reference, and its address returned; nothing when the list is empty or not yet built |
| Pmm.Pmm.FreePage | kernel/src/mm/pmm.rs:245-266 | On linked frames: an out-of-range or already free address changes nothing; otherwise the frame is marked free, unreferenced and pushed |
| Pmm.Pmm.Init | kernel/src/mm/pmm.rs:158-219 | Boot on linked frames: the free pages are exactly the visited ones from 512 on, the visited ones below are the kernel's, all others reserved, and the totals add up |
| Pmm.Pmm.FreeRegions | kernel/src/mm/pmm.rs:174-216 | The second pass frees or reserves each visited page exactly once |
| Pmm.Pmm.ReserveAll | kernel/src/mm/pmm.rs:169-171 | The first pass marks every frame reserved |
| Pages.AllocKeeps | kernel/src/mm/pmm.rs:225-238 | Allocation keeps the free list exact, fails exactly when no page is free, and takes the returned page, and no other, off the list |
| Pages.FreeKeeps | kernel/src/mm/pmm.rs:245-266 | Freeing any address at all keeps the free list equal to the frames flagged FREE, once each, with the counter its length |
| Pages.DoubleFree | kernel/src/mm/pmm.rs:254-257 | Freeing a page a second time changes nothing |
| Pages.AllocThenFree | kernel/src/mm/pmm.rs:225-266 | Allocating and giving the page back restores the whole state, list order included |
| Pages.AllocMarks | kernel/src/mm/pmm.rs:225-238 | An allocation returns 4096 times the frame number, marks that frame allocated with one reference, keeps its other flags, and leaves every other frame alone |
| Pages.FreeMarks | kernel/src/mm/pmm.rs:245-266 | A free of a page in use marks the frame of the address divided by 4096, and no other, free and unreferenced, keeps its other flags and puts it in front |
| Pages.StepSafe | kernel/src/mm/pmm.rs:225-266 | One allocation, or one free of a live page, keeps live pages distinct and off the free list, and free plus live pages constant |
| Pages.RunSafe | kernel/src/mm/pmm.rs:225-266 | Over every run that frees only live allocations: the list stays exact, no two live allocations share a page, none is on the free list, and free plus live pages is constant |
| Pages.RunExists | kernel/src/mm/pmm.rs:225-266 | Every sequence of calls, with arbitrary addresses, can be run to the end, each state keeping the free list exact |
| Pages.VisitsIffInside | kernel/src/mm/pmm.rs:174-193 | For every entry, boot visits exactly the tracked pages that lie wholly in a usable region, if and only if the page numbers survive the 64-bit sums and the cast to a 32-bit usize; regions below 2^44 always do |
| Pages.CastFreesWrongPage | kernel/src/mm/pmm.rs:187-190 | A one-page region at 2^44 + 2 MiB makes boot free page 512, which is not in it |
| Pages.BootMapExact | kernel/src/mm/pmm.rs:174-216 | For non-overlapping regions whose page numbers fit, boot touches no page twice and visits exactly the pages lying in one region |
| Pages.BootFreesExactly | kernel/src/mm/pmm.rs:158-219 | After boot on non-overlapping usable regions below 2^44, whatever the other entries are, page i is on the free list, once, if and only if 512 <= i < 65536 and its 4 KiB lies inside one usable region; the total is free plus kernel pages |
| Sched.Scheduler.Enqueue | kernel/src/sched/mod.rs:197-201 | The task joins the back of its priority's intrusive queue and is counted; all other queues keep their contents |
| Sched.Scheduler.PickNext | kernel/src/sched/mod.rs:206-218 | The front of the highest nonempty queue is dequeued and uncounted; with all queues empty the idle task is returned and nothing changes |
| Sched.Scheduler.TimerTick | kernel/src/sched/mod.rs:252-270 | The current task is charged one tick and its slice never goes below zero; true exactly when the slice is used up |
| Sched.Scheduler.Schedule | kernel/src/sched/mod.rs:341-369 | On intrusive queues: a Running task is queued again with a full slice before the next is chosen, the chosen task is Running and current, and with none the current task stays; the invariant is kept (Turns.TurnsRotate tells the turns that follow) |
| Sched.Scheduler.OnTimer | kernel/src/sched/mod.rs:331-338 | A tick that uses up the slice reschedules |
| RunQueues.QueueArray.Enqueue | kernel/src/mm/intrusive.rs:370-372 | One queue grows at the back, the others and their links are untouched |
| RunQueues.QueueArray.Dequeue | kernel/src/mm/intrusive.rs:375-377 | One queue shrinks at the front, the others and their links are untouched |
| Dispatch.RunningNotQueued | kernel/src/sched/mod.rs:341-354 | A Running task, idle included, is the current one and is in no queue |
| Dispatch.EnqueueKeeps | kernel/src/sched/mod.rs:197-201 | Queueing a Ready, unqueued task keeps the queues consistent |
| Dispatch.RequeueKeeps | kernel/src/sched/mod.rs:346-354 | Requeueing the current task keeps the queues consistent and leaves nobody Running |
| Dispatch.SwitchKeeps | kernel/src/sched/mod.rs:357-367 | Switching to the chosen task keeps the queues consistent |
| Dispatch.StepKeeps | kernel/src/sched/mod.rs:197-369 | Every operation, blocking, exit, wake-up and timer interrupts among them, keeps the queues consistent |
| Dispatch.RunKeeps | kernel/src/sched/mod.rs:197-369 | In every state of every run the count is the sum of the queue lengths, each task is queued at most once and only at its own priority, and a Running task is the current one and in no queue |
| Fairness.TimedStepInOrder | kernel/src/sched/mod.rs:197-218 | Over every operation each queue stays in order of joining |
| Fairness.PicksLongestWaiter | kernel/src/sched/mod.rs:206-218 | Where each queue is in order of joining, `pick_next` returns the task that joined first among those of the highest waiting priority; the idle task exactly when nothing waits |
| Fairness.RunInOrder | kernel/src/sched/mod.rs:197-218 | In every state of every run that starts with nothing queued, each queue is in order of joining |
| Fairness.RunPicksLongestWaiter | kernel/src/sched/mod.rs:206-218 | In every state of every run that starts with nothing queued, `pick_next` returns the longest waiter of the highest waiting priority, each task waiting since the last operation that queued it |
| Fairness.RoundRobin | kernel/src/sched/mod.rs:341-369 | With current task c, queue q1..qk at its priority, nothing above and nothing arriving or blocking, the i-th `schedule` runs entry i modulo k+1 of c, q1, .., qk, the rest waiting in ring order |
| Fairness.FullTurn | kernel/src/sched/mod.rs:341-369 | k+1 rounds run each waiting task once, in order, and restore the current task and every queue |
| Fairness.Quantum | kernel/src/sched/mod.rs:252-270 | Under timer interrupts only, a task with n ticks left keeps the processor through the first n-1 and the n-th reschedules |
| Fairness.SpentTicks | kernel/src/sched/mod.rs:252-270 | A current task without ticks left, such as a blocked one that nobody can replace, is charged and gives way at every interrupt; without a current task an interrupt does nothing |
| Turns.TurnsRotate | kernel/src/sched/mod.rs:252-369 | Under timer interrupts only, the current task and the waiting ones of its priority having 10 ticks each and nothing waiting above: after 10 * m interrupts, for every m, entry m modulo k of the ring of k runs with 10 ticks left, each has been charged 10 ticks a turn, and there was one switch a turn |
| Fat32.Fat32.Mount | kernel/src/storage/fat32.rs:45-109 | Mounting succeeds exactly on present devices with a readable, signed and acceptable boot sector, found through the partition table if there is one; a failure keeps the parameters of an earlier mount, but the device has changed already |
| Fat32.BootSectorIs | kernel/src/storage/fat32.rs:49-82 | The boot sector is sector 0, or the one that the first entry of a partition table names in four bytes, lowest first; sector 0 is a table exactly when that entry has type 0x0B or 0x0C and bytes 11 and 12 give no usual sector size; both sectors need their signature, and nothing else is accepted |
| Fat32.BootFields | kernel/src/storage/fat32.rs:84-97 | The parameters are the bytes and little-endian words of the FAT32 boot sector, and it is accepted exactly with 512 to 4096 bytes a sector, a cluster size, a FAT and a root cluster of 2 or more |
| Fat32.Fat32.FindRom | kernel/src/storage/fat32.rs:129-190 | Whenever the search comes back, read errors, larger sectors and cyclic chains included: first cluster and size of the i-th ROM the walk meets, if and only if there is one |
| Fat32.Fat32.GetRomName | kernel/src/storage/fat32.rs:193-265 | Whenever the search comes back: writes the name of the i-th ROM if and only if there is one; otherwise the buffer is unchanged |
| Fat32.Fat32.CountRoms | kernel/src/storage/fat32.rs:268-360 | Whenever the walk comes back: the number of ROMs of the directory |
| Fat32.Fat32.WalksAgree | kernel/src/storage/fat32.rs:129-360 | Whenever the whole walk comes back, the three separately written walks agree: `find_rom(i)` and `get_rom_name(i)` succeed exactly when i < `count_roms()`, and describe the same entry |
| Fat32.Fat32.FindInSector | kernel/src/storage/fat32.rs:144-180 | The scan of one sector finds the entry, or counts every ROM up to an end marker |
| Fat32.Fat32.NameInSector | kernel/src/storage/fat32.rs:208-254 | The same scan written for names |
| Fat32.Fat32.CountInSector | kernel/src/storage/fat32.rs:318-352 | The same scan written for counting |
| Fat32.Fat32.WriteName | kernel/src/storage/fat32.rs:232-253 | The twelve bytes are the unpadded name, a dot, the unpadded extension, and zeros |
| FatStored.NameShown | kernel/src/storage/fat32.rs:232-253 | A name and an extension padded with spaces are shown as NAME.EXT, padded with zeros |
| FatStored.SpaceVanishes | kernel/src/storage/fat32.rs:232-253 | A space is dropped wherever it stands in either of the two |
| FatStored.StoredListed | kernel/src/storage/fat32.rs:129-190 | A root directory stored as 32-byte records in linked clusters is found as the ROMs of its records, in order, up to the record that ends it, the end mark of its chain, the first sector that cannot be read, or the first link that cannot; each ROM has the cluster, size and name that the bytes of its record spell |
| FatStored.RecordVerdict | kernel/src/storage/fat32.rs:150-171 | A record ends the directory if it begins with 0, and is a ROM exactly if it is not deleted, no part of a long name, no label, no directory, and has extension GB or GBC in either case |
| Fat32.Fat32.GetNextCluster | kernel/src/storage/fat32.rs:395-411 | The 28-bit link of a cluster, or the read error of its FAT sector, wherever the link lies inside the 512 bytes read |
| FatVolume.FiniteIffAcyclic | kernel/src/storage/fat32.rs:137-187 | A directory walk comes back if and only if it never meets a cell twice, the cells being the clusters and the one a panic stays in |
| FatVolume.FiniteFinds | kernel/src/storage/fat32.rs:129-190 | Where the whole walk comes back, so does the search for every index, with that entry of the directory |
| FatPanic.FiniteIff | kernel/src/storage/fat32.rs:137-187 | The walk over the directory comes back if and only if no chain of clusters from the root, none of which ends the directory, leads to a link that cannot be fetched or back to one of its own clusters |
| FatPanic.WalkPanicsIff | kernel/src/storage/fat32.rs:137-187 | It panics if and only if such a chain leads to a link that lies behind the 512 bytes read of a readable FAT sector |
| FatVolume.WalkOn | kernel/src/storage/fat32.rs:137-187 | At every cluster of a walk that comes back, the ROMs found there are the next ones; unless the wanted one is among them, the walk ends with all ROMs counted or has a link to go on by |
| Chains.EndsIffAcyclic | kernel/src/storage/fat32.rs:137-187 | Following links among finitely many cells ends if and only if no cell is visited twice |
| Chains.EntryIs | kernel/src/storage/fat32.rs:129-190 | What a search finds does not depend on how much further the walk goes |
| Fat32.Fat32.ReadFile | kernel/src/storage/fat32.rs:364-393 | Comes back on every disk, cyclic FATs included, on which its chain meets no bad link while data is wanted (FatPanic.PanicsIffBadLink: exactly those); on success the buffer starts with the bytes delivered and is otherwise unchanged, on a read error nothing past the requested length has changed |
| Fat32.Fat32.ReadChain | kernel/src/storage/fat32.rs:373-392 | The bytes copied are those of the linked clusters, in order, and every cluster contributes |
| Fat32.Fat32.ReadCluster | kernel/src/storage/fat32.rs:377-386 | One cluster's sectors are copied until the request is met |
| FatVolume.FileIsChainPrefix | kernel/src/storage/fat32.rs:364-411 | A successful read delivers exactly a prefix of the concatenated data of the linked clusters, of length min(request, chain); it is short only when the chain has ended, and cyclic chains are covered |
| FatStored.ClustersFollow | kernel/src/storage/fat32.rs:113-116 | Below the 32-bit wrap, cluster 2 begins where the data area does and each cluster right behind the sectors of the one before |
| FatStored.ClustersApart | kernel/src/storage/fat32.rs:113-116 | Distinct clusters share no sector |
| FatStored.LinkRead | kernel/src/storage/fat32.rs:395-411 | The link of cluster c is word c of the table, bytes lowest first, in sectors as large as the volume's, less its upper four bits |
| FatStored.StoredReads | kernel/src/storage/fat32.rs:364-411 | Reading any length from a chain whose clusters are stored one behind the other in the data area and linked in the table delivers the first bytes of what was stored, all of it when more is asked for |
| FatPanic.FailsIffFault | kernel/src/storage/fat32.rs:373-411 | A read fails if and only if linked clusters from the first on, the data of those before the last read and some still wanted at the last, lead to one of which a wanted sector or the sector with its link cannot be read |
| FatVolume.NoPanicReadingAt512 | kernel/src/storage/fat32.rs:364-411 | At 512 bytes a sector no read panics, on any FAT, cyclic ones included |
| FatPanic.PanicsIffBadLink | kernel/src/storage/fat32.rs:373-411 | A read panics if and only if linked clusters from the first on, all their wanted sectors readable and data still wanted at the last, lead to one whose link lies behind the 512 bytes read |
| FatPanic.LargeSectorsPanic | kernel/src/storage/fat32.rs:395-411 | For every sector size above 512 there is a volume on which every read of at least one byte from cluster 128, and every walk over the directory, panics |
| FatPanic.NoPanicIff512 | kernel/src/storage/fat32.rs:94-94 | Whatever the disk, no read and no walk panics if and only if sectors have 512 bytes, although mounting accepts up to 4096 |
| SaveArea.HeaderRoundTrip | kernel/src/storage/savefile.rs:98-126 | Decoding an encoded header gives the header back |
| Savefile.ToBytes | kernel/src/storage/savefile.rs:98-106 | The in-place encoder fills the sector with the encoding |
| Savefile.AtaDisk.FindSaveSlot | kernel/src/storage/savefile.rs:318-336 | The first slot whose header is readable, valid and of that hash; nothing without a disk |
| Savefile.AtaDisk.FindEmptySlot | kernel/src/storage/savefile.rs:339-360 | The first slot without a readable, valid header, slot 0 only when all are taken; nothing without a disk |
| Savefile.AtaDisk.SaveGame | kernel/src/storage/savefile.rs:363-407 | Sector by sector, write errors included, the save that SaveTable.SaveRefines speaks about |
| Savefile.AtaDisk.LoadGame | kernel/src/storage/savefile.rs:410-459 | Buffer and result of the load that SaveTable.LoadRefines speaks about, read errors included |
| Savefile.AtaDisk.DeleteSave | kernel/src/storage/savefile.rs:467-483 | Disk and result of the delete that SaveTable.DeleteRefines speaks about |
| SaveTable.PlaceAgrees | kernel/src/storage/savefile.rs:375-379 | The slot chosen on the disk is the slot of the hash, else the first free one, else slot 0 |
| SaveTable.SaveExact | kernel/src/storage/savefile.rs:363-407 | On every error-free disk a save of 1 to 32256 bytes succeeds and sets its own one of the sixteen entries; its only other effect is that a save of more than 63 sectors in the slot before ends in the bytes of the new header |
| SaveTable.SaveRefines | kernel/src/storage/savefile.rs:363-407 | It changes exactly one entry if and only if the save in the slot before, if it reaches into the header sector written, ends in the bytes of that header; in particular wherever no save has more than 63 sectors |
| SaveTable.SavedLoads | kernel/src/storage/savefile.rs:363-459 | On every error-free disk, whatever it holds, a save of 1 to 32768 bytes loads back right after it was made |
| SaveTable.LargeLoadsIff | kernel/src/storage/savefile.rs:437-456 | On a later disk that finds the save in its slot and has that slot's 64 sectors unchanged, loading gives the same as before if and only if the header sector of the next slot still starts with the bytes of the save that lie there; at most 63 data sectors reach none |
| SaveTable.DeleteRefines | kernel/src/storage/savefile.rs:467-483 | On every error-free disk deleting reports whether there was an entry of the hash, and removes exactly that entry if and only if a save of more than 63 sectors in the slot before ends in zeros; in particular wherever no save has more than 63 sectors |
| SaveTable.LoadRefines | kernel/src/storage/savefile.rs:410-459 | Loading copies exactly the stored bytes to the front of the buffer, or reports that there is no save or that it is too long; a hash mismatch cannot occur |
| SaveTable.SaveIsMapUpdate | kernel/src/storage/savefile.rs:363-407 | As a map from hash to bytes: saving is map update, after evicting slot 0's entry when, and only when, the hash is new and all sixteen slots are full |
| SaveTable.DeleteIsMapRemoval | kernel/src/storage/savefile.rs:467-483 | As a map: deleting removes the key |
| SaveTable.SaveLookup | kernel/src/storage/savefile.rs:363-407 | Hash by hash, what a lookup finds after a save; hashes stay unique |
| SaveTable.EvictsSeventeenth | kernel/src/storage/savefile.rs:339-360 | There is room for sixteen saves; one is lost exactly when the hash is new and there are sixteen |
| SaveDisk.HeaderLayout | kernel/src/storage/savefile.rs:98-106 | A header sector is the letters GBSV, the hash, the size and the time as words, lowest byte first, the name, and zeros |
| SaveDisk.HeaderIff | kernel/src/storage/savefile.rs:87-126 | A slot holds a save if and only if its sector, 64 behind the slot before and the first at 65536, can be read, begins with GBSV and gives a size of 1 to 32768 |
| SaveDisk.SaveOutcome | kernel/src/storage/savefile.rs:363-407 | On any disk, faulty ones included: the header and then the data, padded with zeros, go to the sectors of the slot up to the first that fails; the save succeeds exactly when none does, and no other sector changes |
| SaveDisk.LoadOutcome | kernel/src/storage/savefile.rs:410-459 | On any disk: a load reports that there is no disk, no save or too small a buffer, which stays as it is; else it copies the data of the slot up to the first sector that fails, changes nothing else, and succeeds exactly when none does |
| SaveDisk.SuccessLoads | kernel/src/storage/savefile.rs:363-459 | On any disk, a save of up to 32768 bytes that reports success loads back right after |
| SaveDisk.DeleteOutcome | kernel/src/storage/savefile.rs:467-483 | On any disk: a delete zeroes the header sector of the save of the hash and nothing else, and reports whether there was one |
| SaveRuns.RunRefines | kernel/src/storage/savefile.rs:318-483 | From every error-free disk of saves of at most 63 sectors with distinct hashes, every run of deletes and such saves on the disk is the run on the table, with at most one valid slot per hash |
| SaveRuns.LastSaveLoads | kernel/src/storage/savefile.rs:363-459 | On those disks, loading returns exactly the bytes last saved under the hash after any other such saves and deletes in between, unless one of them evicted it |
| SaveRuns.SizeBoundExact | kernel/src/storage/savefile.rs:32-38 | A save of a given size is the table's save, on every error-free disk of saves of at most 63 sectors, if and only if it has at most 63 sectors itself |
| SaveRuns.OverrunHitsHeader | kernel/src/storage/savefile.rs:391-404 | On every error-free disk a save of 32257 to 32768 bytes into any slot but the last succeeds, and its 64th data sector replaces the header of the next slot |
| SaveRuns.OverrunLosesNeighbour | kernel/src/storage/savefile.rs:391-404 | On one fixed disk, which holds a save of hash 1 in slot 1 only, every save of zeros of 64 sectors under another hash goes to slot 0 and succeeds, and slot 1 holds no save afterwards |
| SaveRuns.OversizeIsLost | kernel/src/storage/savefile.rs:88-90 | On one fixed blank disk every save above 32 KiB goes to slot 0 and succeeds, but slot 0 holds no save afterwards; zeros saved so are not found by a lookup |
| Bresenham.Surface.DrawLine | kernel/src/gui/framebuffer.rs:150-177 | In wrapping 32-bit arithmetic, for every line whose sides fit 32 bits and whose error term does (LineRun.Fits): ends at the second endpoint after exactly max(abs dx, abs dy)+1 pixels; the k-th is k steps along the longer side, in the endpoints' bounding box, within half a pixel of the ideal line |
| LineRun.DrawsIffFits | kernel/src/gui/framebuffer.rs:150-177 | For every line whose sides fit 32 bits, the 32-bit rounds draw it right if and only if twice the largest error term, the difference of the sides plus half the longer side rounded down to a multiple of their greatest common divisor, fits too |
| LineRun.FitsDraws | kernel/src/gui/framebuffer.rs:150-177 | Within that bound the 32-bit rounds plot the line and meet the endpoint in the last round only, which ends the loop |
| LineRun.BeyondStrays | kernel/src/gui/framebuffer.rs:167-175 | Beyond it they leave the line: the first round whose doubled error term wraps moves the shorter side wrongly |
| LineRun.WorstRound | kernel/src/gui/framebuffer.rs:160-176 | The largest error term is met in some round of every line, not only bounded |
| LineRun.WideLineDrawn | kernel/src/gui/framebuffer.rs:151-152 | Where the sides do not fit, the bound is not the rule: the horizontal line across the whole 32-bit range has a side that wraps to one, and is drawn right |
| LineRun.Round32 | kernel/src/gui/framebuffer.rs:167-175 | One round in wrapping 32-bit arithmetic moves the point and the error term exactly as unbounded arithmetic does, whenever twice the error term fits 32 bits |
| LineError.SpotsDraw | kernel/src/gui/framebuffer.rs:150-177 | The points of all rounds in unbounded arithmetic draw the line, for every pair of endpoints |
| LineError.NextTracks | kernel/src/gui/framebuffer.rs:167-175 | Whatever the branches taken, the longer side moves in every round and the drift stays within half of it |
| LineError.Finished | kernel/src/gui/framebuffer.rs:163-165 | The longer side has ended exactly when both coordinates have arrived |
| LineError.SpotFacts | kernel/src/gui/framebuffer.rs:160-165 | Every plotted point is on the line, and it is the last if and only if it is the endpoint |
| VramDma.HdmaIsGdma | kernel/src/gameboy/mmu.rs:319-415 | For every source whose bytes change only by the transfer itself, VRAM included: an HBlank transfer of n rows that is not cancelled leaves, once n HBlanks have been seen and ever after, the same engine and the same VRAM as one general transfer of n rows, and 0xFF55 reads 0xFF |
| VramDma.HdmaProgress | kernel/src/gameboy/mmu.rs:378-389 | After any sequence of calls an HBlank transfer has moved one row per flagged call, up to n, and is over exactly when n were flagged |
| VramDma.HdmaRunning | kernel/src/gameboy/mmu.rs:316-329 | Before that the transfer is running and 0xFF55 counts the rows left |
| VramDma.CancelStops | kernel/src/gameboy/mmu.rs:347-357 | Writing 0xFF55 while an HBlank transfer runs does nothing with bit 7 set; with bit 7 clear it ends the transfer: no later call copies anything, and 0xFF55 reads the rows left with bit 7 set |
| VramDma.TransferStarts | kernel/src/gameboy/mmu.rs:332-367 | A transfer goes from the programmed source, rounded down to 16, to the programmed destination, rounded down and taken into VRAM; bit 7 chooses the kind and the other bits the rows |
| VramDma.ProgrammedCopies | kernel/src/gameboy/mmu.rs:332-415 | A general transfer of n rows, programmed register by register from outside VRAM into it, leaves exactly its 16n bytes in the selected bank, changes no other cell and takes 8 ticks a row |
| VramDma.RowsCopied | kernel/src/gameboy/mmu.rs:401-415 | From outside VRAM to inside it, n rows copy exactly the 16n source bytes and change no other cell |
| Mmu.Mmu.WriteReg | kernel/src/gameboy/mmu.rs:332-367 | Register writes latch addresses; a write to 0xFF55 starts a transfer, or with bit 7 clear cancels a running HBlank transfer |
| Mmu.Mmu.ReadLength | kernel/src/gameboy/mmu.rs:316-329 | 0xFF55 reads the remaining length, bit 7 set when idle |
| Mmu.Mmu.PerformVramDma | kernel/src/gameboy/mmu.rs:370-399 | In place: the engine, VRAM and the ticks spent are those of the transfer model |
| Mmu.Mmu.PerformRow | kernel/src/gameboy/mmu.rs:401-415 | One row in place: sixteen byte moves, both addresses advanced with 16-bit wrap |
| Mmu.Mmu.DoCycle | kernel/src/gameboy/mmu.rs:193-215 | In place, for the DMA, the timer, the keypad, the picture unit and the serial port in that order: each gets its ticks for the CPU speed and the DMA, their interrupts are collected and cleared, and with the display off the picture unit stands still |
| Bus.RequestsKept | kernel/src/gameboy/mmu.rs:199-212 | Whatever interrupt was requested before the call, or pending in the timer, the keypad, the picture unit or the serial port, is requested after it, and no unit has any pending |
| Bus.RequestsExact | kernel/src/gameboy/mmu.rs:199-212 | With the display on, a call adds a VBlank request exactly when VBlank is entered, a STAT request exactly when a tick is due one, a timer request exactly when the counter overflows in a batch within its bound, and the keypad's and the serial port's exactly when they are pending or come due |
| Bus.TimeKept | kernel/src/gameboy/mmu.rs:193-215 | At either speed the timer sees every processor tick, the picture unit and the serial port every one or every second, and all of them the 8 picture ticks of each row that the DMA moves |
| Serial.Serial.DoCycle | kernel/src/gameboy/serial.rs:62-76 | The in-place update is the step that TransferTakes speaks about |
| Serial.Serial.WriteControl | kernel/src/gameboy/serial.rs:46-58 | The control register is set, and bits 7 and 0 together start a transfer of 4096 cycles |
| Serial.TransferTakes | kernel/src/gameboy/serial.rs:46-76 | A transfer ends, with 0xFF received and its interrupt, once the cycles passed in batches of any sizes come to 4096, and not before |
| Serial.NothingStarts | kernel/src/gameboy/serial.rs:46-76 | A control write without both of bits 7 and 0 starts nothing: a port at rest stays as it is, and a transfer under way goes on counting |
| Bus.PacedAsInDmaPace | kernel/src/gameboy/mmu.rs:193-215 | With the display on, DMA and picture unit move exactly as in the pace model, before their interrupts are collected |
| DmaPace.FlagIffEntry | kernel/src/gameboy/gpu.rs:224-229 | A batch of picture ticks leaves the HBlank flag set exactly when it passes an HBlank entry |
| DmaPace.OneEntryPerLine | kernel/src/gameboy/gpu.rs:195-211 | Any 456 consecutive ticks hold at most one HBlank entry |
| DmaPace.RowsWithinHBlanks | kernel/src/gameboy/mmu.rs:193-215 | With the display on, runs of `do_cycle` of any lengths, with any register and memory writes and speed switches in between, move at most one row per HBlank entered, one already pending included |
| DmaPace.OneRowPerLine | kernel/src/gameboy/mmu.rs:378-389 | While the picture unit advances by no more than one line, at most one row of an HBlank transfer moves |
| Timer.TicksCount | kernel/src/gameboy/timer.rs:56-89 | With the timer on, n single ticks count exactly (div + n) / P - div / P, where P is 1024, 16, 64 or 256 for TAC modulo 4 equal to 0, 1, 2 or 3, with TMA reloads, interrupt and 16-bit wrap as that count says |
| Timer.BatchExactIff | kernel/src/gameboy/timer.rs:56-89 | A batch of c cycles equals c single ticks in every state if and only if the timer is off or c is at most half the period P |
| Timer.BatchesAreTicks | kernel/src/gameboy/timer.rs:56-89 | Any sequence of batches within the bound equals single ticks of the same total |
| Timer.OverflowRequests | kernel/src/gameboy/timer.rs:56-89 | A batch within the bound requests the interrupt exactly when its count passes 0xFF |
| Timer.Timer.DoCycle | kernel/src/gameboy/timer.rs:56-89 | The in-place update is the batch step those laws are about |
| Decimal.AdcDaa | kernel/src/gameboy/cpu.rs:520-529 | ADC then DAA on valid BCD adds two digits with carry in and out, and yields valid BCD |
| Decimal.SbcDaa | kernel/src/gameboy/cpu.rs:531-540 | SBC then DAA on valid BCD subtracts two digits with borrow in and out, and yields valid BCD |
| Decimal.AdcAdds | kernel/src/gameboy/cpu.rs:520-529 | For all bytes: the sum and 256 times the carry out are the operands and the carry in; zero, subtract and half-carry flags as the sum says |
| Decimal.SbcSubtracts | kernel/src/gameboy/cpu.rs:531-540 | For all bytes: the difference less 256 times the borrow out is the operands' difference less the borrow in; the flags as it says |
| Decimal.DaaFlags | kernel/src/gameboy/cpu.rs:600-613 | For all registers: adjustment sets the zero flag by its result, clears half carry, keeps subtract, and can only set the carry |
| Decimal.DecimalAddition | kernel/src/gameboy/cpu.rs:600-613 | Folded over packed-BCD strings of any length n: the decimal sum modulo 100^n, the carry set exactly on overflow, every byte valid BCD |
| Decimal.DecimalSubtraction | kernel/src/gameboy/cpu.rs:600-613 | Folded over strings of any length: the difference, or its ten's complement with the borrow set exactly when it is negative |
| Decimal.Alu.AluAdd | kernel/src/gameboy/cpu.rs:520-529 | The flag-by-flag code computes the sum and all four flags |
| Decimal.Alu.AluSub | kernel/src/gameboy/cpu.rs:531-540 | The flag-by-flag code computes the difference and all four flags |
| Decimal.Alu.AluDaa | kernel/src/gameboy/cpu.rs:600-613 | The adjustment leaves accumulator and flags as the model says |
| Mbc1.BanksInRange | kernel/src/gameboy/mbc/mbc1.rs:54-107 | After any sequence of register writes, for every bank count a header can give, 0 included: the selected bank is below the bank count (below 2 for count 0), every ROM index lies below that many times 16 KiB, and with 32 banks or more the switchable bank is no multiple of 32 |
| Mbc1.BankZeroReachableIff | kernel/src/gameboy/mbc/mbc1.rs:86-97 | Some sequence of writes maps bank 0 into the switchable window if and only if there are fewer than 32 banks |
| Mbc1.WriteKeeps | kernel/src/gameboy/mbc/mbc1.rs:81-107 | Every single register write keeps those bounds |
| Mbc1.LastWritesSelect | kernel/src/gameboy/mbc/mbc1.rs:81-107 | After any writes, the low and the high bank number, the mode and the RAM enable are those of the last write to each address range alone |
| Mbc1.RomShown | kernel/src/gameboy/mbc/mbc1.rs:54-66 | After any writes, the upper window shows the bank that the last low and high bits select, and the lower one bank 0, or in mode 1 the first bank of the same 32 |
| Mbc1.RamShown | kernel/src/gameboy/mbc/mbc1.rs:68-79 | After any writes, external RAM is seen exactly while it is on, in bank 0 or in mode 1 in the bank of the last high bits |
| Mbc1.Mbc1.WriteRom | kernel/src/gameboy/mbc/mbc1.rs:81-107 | The in-place write: RAM enable, low and high bank bits, RAM bank and mode, each from its address range alone |
| Mbc1.Mbc1.ReadRom | kernel/src/gameboy/mbc/mbc1.rs:54-66 | The byte at the banked index, 0xFF past the end |
| Mbc1.Mbc1.ReadRam | kernel/src/gameboy/mbc/mbc1.rs:68-79 | The byte at the banked index when RAM is on, else 0xFF |
| Mbc1.Mbc1.WriteRam | kernel/src/gameboy/mbc/mbc1.rs:109-123 | Changes exactly the cell a read of that address sees, and marks the save dirty exactly then |

## Left out

- IntrusiveStack and IntrusiveQueue: renamings of PushFront, PopFront and PushBack, used through the list directly.
- Debug assertions of the list: only `is_linked` itself is modelled; what queueing a queued node does without them is part of PushFront and PushBack.
- Port I/O, ATA, PCI, PIC, PS/2 and VGA register programming, descriptor tables and boot code: hardware effects.
- The assembly context switch: a switch is the change of the current task.
- Task creation, stacks and saved registers: a task is its priority, state, time slice and charged time.
- Blocking, exit and wake-up have no function of their own in the scheduler's source: they are modelled as the state changes that other parts of the kernel make to a task.
- The keypad's rows and its register: only the interrupts it has pending take part in `do_cycle`.
- Memory outside VRAM is constant while a transfer runs; HBlank transfers are paced with the display on only: switched off, the flag stays as it was left.
- Sprite and background palettes are records of shades; the palette registers' write path is not modelled.
- Register writes of the timer, which store a byte or clear the divider, and reads of the remaining picture registers.
- Sorting: the library sort of the source is modelled by an insertion sort with the same comparison; entries have distinct OAM indices, so every sort gives the same order.
- `set_pixel` is reduced to the list of points it is called with; clipping and colours are left out.
- The CPU's instruction tables: only addition, subtraction and decimal adjustment are modelled.
- `rom_banks`, `ram_banks` and the cartridge header: bank counts are parameters; BanksInRange takes every count the header can give, 0 and 2, 4, .. 512.
- `load_sram`'s fixed 32 KiB call: `load_game` is modelled directly with any buffer.
- The hash function of ROM names: two names with one hash are one save.
- Debug pixel writes inside the directory walks: display only.
- Bresenham.Surface.DrawLine: requires that the sides fit 32 bits, since computing the sides wraps otherwise; which of the wider lines happen to be drawn right is not told. LineRun.WideLineDrawn shows that some are.
- LineRun.DrawsIffFits: for lines whose sides fit 32 bits, for the same reason.
- SaveRuns.RunRefines: runs of saves of at most 63 sectors; what a larger save leaves in the next slot depends on its bytes, and is stated for single saves only.
- Pmm.Pmm.Init: requires that no page is visited for two regions, which non-overlapping regions guarantee; pushing a frame twice makes the free list endless, as Intrusive.List.PushFront says.
- Pmm.Pmm.FreeRegions: the same requirement.
- The keyboard ring buffer, event chains, the bump heap, the save debounce tracker, ROM browser, fonts, palettes and overlay tables: they would add easy members only.
