# UzOS in Dafny

A model of the state machines and the arithmetic at the heart of UzOS, a small
32-bit x86 operating system written in C, with proofs of what they promise.

| module | part of the system | main results |
|---|---|---|
| `Priority`, `PriorityRuns`, `PriorityRules` | the scheduler: ranks, round robin, real-time throttling | round robin, the 95% limit of every second, exactly who is chosen and when the CPU changes hands |
| `Starvation`, `Starved`, `FewRivals`, `TicksAlone` | aging | exactly when a waiting process is passed over; endless waiting behind lower processes; bounded waiting with at most ten rivals, and not with eleven; with ticks alone, bounded up to twenty rivals, and not with 21 |
| `ConsoleText`, `Console` | the text console: history ring, scrolling back, resizing, status row, full screen | the cells on the screen refine the text after every operation; where printed lines and control characters leave every cell |
| `Framebuffer` | the console drawn as pixels, with its cache of shown cells | every pixel is what a fresh drawing would give |
| `Calendar` | the clock chip, dates and seconds | the two date algorithms undo each other, and agree with POSIX |
| `Format`, `Directives`, `Numbers`, `ReadBack` | `vformat`, `strtoul`, `atoi` | bounded output is a prefix of the ideal text; what each directive writes; reading undoes printing, with any flags and width |
| `Affinity` | CPU lists such as `0-3,7` | the reader accepts exactly the language; printing and reading round trip |
| `TaskUsage`, `TaskTree` | ticks used by processes and their children | conservation; a record holds its whole family |
| `CpuSeconds`, `LoadAverage` | the load of each second, load averages | shares add up; bounds and convergence of the averages |
| `BackBuffer` | the desktop's back buffer over page mapper and frame allocator, with other users of frames | no frame lost or used twice whatever others do; the three outcomes of a resize |
| `Windows` | the window table, stacking order and dragging | the order lists each window once, over every run; clicks go to the topmost |
| `Keyboard` | the key queue between interrupt and reader | nothing lost or reordered under any interleaving |
| `Words`, `Arith` | 32-bit words, facts about numbers and sets | |

Code that updates state in place is a class whose methods are proved to carry out
a function on plain values; what the system promises is then proved about those
functions, for all inputs, runs or interleavings. `dafny verify dfyconfig.toml`
checks everything.

## Where the code differs from its description

- Aging is meant to end starvation, and does not. A tick ages every READY process
  except the one it expects to run next, and it forms that expectation before the
  others age. So another process can climb past the expected one on the same tick
  (`PassedOverExactlyWhen`), which then neither runs nor ages; with 21 busy processes
  of lower levels and nothing but timer ticks this goes on for ever
  (`StarvesForEver`), with eleven if one of them changes its level
  (`ElevenAreTooMany`). Both numbers are exact. They count the rivals that aging can
  raise, so neither the idle task nor SCHED_IDLE: with at most twenty, ticks alone
  cannot starve a normal process (`TicksAlone.NoStarvation`), and with at most ten
  nothing the rivals do can (`FewRivals.NoStarvation`). A process of level 7 never
  starves (`TopLevelWait`).
- `screen.h` promises that a resize that does not work keeps the old size. Other
  processes can take the frames the screen has just given back; the screen is then
  open without a buffer (`Resize`, `BufferLost`).
- A load average that rises to a steady load stops short of it, by at most 12, 60 or
  186 of 2048, because `blend` rounds down (`HowShort`); from above it arrives.
- The width and height given to the card are cut to 16 bits while the size of the
  back buffer is multiplied in 32 bits; the buffer holds the whole canvas exactly when
  the product does not overflow (`CanvasHeld`, `TooWide`).
- `atoi` sums up the magnitude of INT_MIN before it changes the sign, which leaves
  the range of an int for that one value (`AtoiUndoes`).

## Model

| member | source | states |
|---|---|---|
| `Priority.NiceLevels` | modules/cpu_management/core/priority/priority.c:34-45 | every nice value gives a level 1 to 7, a lower nice value never a lower level, and the usual nice value of a level gives that level back |
| `Priority.Choice` | modules/cpu_management/core/priority/priority.c:71-94 | the first runnable slot of maximal rank in cyclic order after the current one; -1 only if nothing is runnable |
| `Priority.BestUnique` | modules/cpu_management/core/priority/priority.c:77-94 | that description fits one slot only |
| `Priority.TopBaseRescues` | modules/cpu_management/core/priority/priority.c:88-92 | comparing with the best unaged rank seen decides exactly whether another runnable process has a better unaged rank |
| `Priority.Scheduler.Choose` | modules/cpu_management/core/priority/priority.c:71-94 | the scanning loop finds that slot, and reports "rescued" exactly when the winner ranks below another runnable process without aging |
| `Priority.Scheduler.RtThrottleTick` | modules/cpu_management/core/priority/priority.c:109-131 | the throttle counters after a tick, and "started" exactly when throttling began on it |
| `Priority.Scheduler.TurnIsOver` | modules/cpu_management/core/priority/priority.c:134-154 | rules 3 and 4: new slice, new throttle and answer are those of the turn function, in every case |
| `Priority.Scheduler.PriorityTick` | modules/cpu_management/core/priority/priority.c:156-173 | one tick: the answer, and every READY process but the one expected next has waited one tick more |
| `Priority.Scheduler.YieldCpu` | modules/process_management/core/scheduler/scheduler.c:124-160 | the CPU goes to the choice, or stays with a new slice |
| `Priority.Scheduler.SchedulerTick` | modules/process_management/core/scheduler/scheduler.c:108-122 | a tick, followed by a hand-over if the turn is over |
| `PriorityRuns.StepsKeepOk` | modules/cpu_management/core/priority/priority.c:109-178 | ticks and hand-overs keep the throttle counters in range, slices within 10 ticks and the current slot in the table |
| `PriorityRuns.OneRunning` | modules/process_management/core/scheduler/scheduler.c:137-148 | at most one process is RUNNING, the current one, and whoever is handed the CPU is |
| `PriorityRuns.TurnInTime` | modules/cpu_management/core/priority/priority.c:134-178 | a turn that starts with a full slice is over on the last tick of the slice at the latest, whatever happens in between |
| `PriorityRuns.GivesUpExactlyWhen` | modules/cpu_management/core/priority/priority.c:134-154 | a tick takes the CPU away if and only if throttling began, the process stopped running, its slice is used up, or the first of the highest rank outranks it and is not SCHED_BATCH |
| `PriorityRuns.EverySecond` | modules/cpu_management/core/priority/priority.c:109-131 | in every single second, whatever runs when, at most hz * 95 / 100 ticks are charged to real-time work |
| `PriorityRuns.RealtimeShare` | modules/cpu_management/core/priority/priority.c:109-131 | and so from any fresh second on: at most hz * 95 / 100 for each of the whole seconds together and for the second begun |
| `PriorityRuns.ThrottledRanks` | modules/cpu_management/core/priority/priority.c:57-63 | from the start of throttling to the end of the second every rank is at most 70 |
| `PriorityRuns.FifoToldInTime` | modules/cpu_management/core/priority/priority.c:109-154 | a running FIFO process is told to give up the CPU within hz + 95% of hz ticks, whatever happens in between |
| `PriorityRuns.RoundRobin` | modules/cpu_management/core/priority/priority.c:71-105 | with unchanging ranks, as many successive picks as there are top-ranked processes are all different and are exactly those processes |
| `PriorityRuns.NextPick` | modules/cpu_management/core/priority/priority.c:77-87 | each pick is the nearest of the top-ranked slots not yet picked |
| `PriorityRules.RanksCompare` | modules/cpu_management/core/priority/priority.c:57-63 | one rank is above another if and only if the process comes first by policy, real-time priority and level: real-time by priority unless throttled, then the others by level with or without aging, then SCHED_IDLE, then the idle task |
| `PriorityRules.RealtimeFirst` | modules/cpu_management/core/priority/priority.c:57-94 | while not throttled, a runnable real-time process of the highest priority is chosen, the nearest in the scan of several |
| `PriorityRules.HighestLevelNext` | modules/cpu_management/core/priority/priority.c:57-94 | otherwise a runnable process, neither of SCHED_IDLE nor the idle task, with the largest level plus one for every ten ticks waited, at most 7; the nearest of several |
| `PriorityRules.IdleLast` | modules/cpu_management/core/priority/priority.c:57-94 | SCHED_IDLE is chosen only when neither is runnable, and the idle task only when nothing else is |
| `PriorityRules.DistIs` | modules/cpu_management/core/priority/priority.c:77-79 | nearness is the number of steps forward around the table, from 1 for the next slot to the whole table for the current one |
| `PriorityRules.NiceCutoffs` | modules/cpu_management/core/priority/priority.c:34-39 | at which nice value each level begins |
| `PriorityRules.TurnBegins` | modules/cpu_management/core/priority/priority.c:175-178 | a new turn has 10 ticks for SCHED_RR, no end for SCHED_FIFO and the 5 or 10 ticks of the power profile for all others, and starts with no ticks waited |
| `PriorityRules.TurnEndsExactlyWhen` | modules/cpu_management/core/priority/priority.c:134-154 | a tick ends the turn if and only if throttling began, the process stopped running, its turn is used up (never for SCHED_FIFO), or the one chosen comes before it and is not of SCHED_BATCH |
| `PriorityRules.TurnGoesOn` | modules/cpu_management/core/priority/priority.c:140-146 | any other tick uses up one tick of the turn, except for SCHED_FIFO |
| `PriorityRules.WhoWaits` | modules/cpu_management/core/priority/priority.c:156-173 | a tick adds one to both counters of waiting of exactly those that are READY, do not have the CPU and are not chosen to get it |
| `PriorityRules.ThrottledExactlyWhen` | modules/cpu_management/core/priority/priority.c:109-131 | within a second, real-time is throttled if and only if exactly hz * 95 / 100 of its ticks went to running real-time processes; never more do; the counter of such seconds grows by one |
| `PriorityRules.SecondEnds` | modules/cpu_management/core/priority/priority.c:117-119 | after hz ticks the counters start afresh |
| `Starvation.PickComesCloser` | modules/cpu_management/core/priority/priority.c:71-94 | at the top level, whoever is picked instead is strictly closer to the waiting process in the cyclic scan |
| `Starvation.YieldSpends` | modules/process_management/core/scheduler/scheduler.c:137-148 | a hand-over to someone else never lengthens the remaining wait, and at the top level shortens it |
| `Starvation.TickSpends` | modules/cpu_management/core/priority/priority.c:156-173 | a tick not won shortens the remaining wait, unless it passed the process over |
| `Starvation.PassedOverExactlyWhen` | modules/cpu_management/core/priority/priority.c:156-173 | with a process expected next, the tick gives the CPU to another if and only if another READY process gains a level on this tick and then ranks before it: higher, or as high and nearer in the scan |
| `Starvation.WaitBound` | modules/cpu_management/core/priority/priority.c:71-178 | not counting ticks on which it is passed over, a READY normal process waits fewer ticks than its climb to level 7 plus 10 ticks a slot, whatever the others do; at most twice the longest wait if the 32-bit counter wraps |
| `Starvation.TopLevelWait` | modules/cpu_management/core/priority/priority.c:71-178 | a process of level 7 waits fewer than 10 ticks a slot, whatever the others do |
| `Starvation.UnrivalledWait` | modules/cpu_management/core/priority/priority.c:71-178 | the same bound holds for every process past which nobody climbs on the ticks that expect it |
| `Starved.CycleGoesOn` | modules/cpu_management/core/priority/priority.c:134-178 | one tick of a round of lower processes, with the idle task in slot 0: slot 1, of level 4, is expected next, passed over and left as it was, and the round goes on |
| `Starved.StarvesForEver` | modules/cpu_management/security/starvation/defence/aging/def_aging.c:4-16 | aging does not prevent starvation: from one table, with the idle task in slot 0 and 21 others that aging can raise, no number of ticks gives a READY process of level 4 the CPU, nor does it age |
| `Starved.ElevenAreTooMany` | modules/cpu_management/core/priority/priority.c:71-178 | ten is the most: from one table with eleven rivals, one of which changes its level, the wait can be of any length |
| `FewRivals.PassedOverAtMost` | modules/cpu_management/core/priority/priority.c:156-178 | with at most ten rivals that aging can raise, the ticks on which a process is passed over are at most ten times the others plus what the rivals had waited and one |
| `FewRivals.NoStarvation` | modules/cpu_management/security/starvation/defence/aging/def_aging.c:4-16 | with at most ten rivals that aging can raise, whatever they do, the wait of every normal process is bounded |
| `TicksAlone.LosesToHigher` | modules/cpu_management/core/priority/priority.c:134-154 | while a process is passed over tick after tick, each winner runs for one tick, and loses the CPU only because the passed-over process ranks above its own level |
| `TicksAlone.SomeClassHasOne` | modules/cpu_management/core/priority/priority.c:156-178 | with at most twenty rivals, among any ten such ticks one finds a single rival that can win it |
| `TicksAlone.StartsFarther` | modules/cpu_management/core/priority/priority.c:71-94 | then the process at the CPU wins ten ticks later, drawing level and nearer in the scan: so the scan starts farther from the passed-over process |
| `TicksAlone.Streak` | modules/cpu_management/core/priority/priority.c:71-178 | ticks alone, and at most twenty rivals, pass a process over at most 10 times the slots plus 10 times in a row |
| `TicksAlone.NoStarvation` | modules/cpu_management/security/starvation/defence/aging/def_aging.c:4-16 | twenty is the most for ticks alone: with at most twenty rivals that aging can raise, and nothing but ticks, the wait of every normal process is bounded |
| `Starvation.PickedWithinOneRound` | modules/cpu_management/core/priority/priority.c:71-105 | once at level 7 it gets the CPU before the CPU changed hands as often as there are slots |
| `ConsoleText.Put` | modules/device_management/vga/vga.c:109-140 | every character, control or not, leaves cursor and history within their bounds |
| `ConsoleText.TabStops` | modules/device_management/vga/vga.c:119-121 | a tab ends on a multiple of eight columns |
| `ConsoleText.NewlineStartsRow` | modules/device_management/vga/vga.c:111-115 | a newline goes to column 0 of the next row and writes nothing; at the bottom a blank line comes in, and the oldest goes if the history is full |
| `ConsoleText.ReturnStartsRow` | modules/device_management/vga/vga.c:116-118 | a return goes to column 0 and changes nothing else |
| `ConsoleText.TabIsBlanks` | modules/device_management/vga/vga.c:119-121 | a tab is exactly as many blanks as lead to the next column divisible by eight, or to the end of the row |
| `ConsoleText.BackspaceErases` | modules/device_management/vga/vga.c:122-130 | a backspace goes back one cell, to the end of the row above from column 0, nowhere from the first cell, and blanks that cell only |
| `ConsoleText.BackspaceTakesBack` | modules/device_management/vga/vga.c:122-137 | after a printed character it gives back cursor and line, over the end of a row and over scrolling too, with a blank there |
| `ConsoleText.PrintLines` | modules/device_management/vga/vga.c:109-140 | lines of text of any number and length: every cell of the history afterwards is the one of the layout, whatever was scrolled or forgotten on the way |
| `ConsoleText.AfterNewline` | modules/device_management/vga/vga.c:111-137 | in the layout what follows a newline starts at the next multiple of the row length and goes on cell by cell |
| `ConsoleText.StandsThere` | modules/device_management/vga/vga.c:131-137 | each character stands where the cursor was when it was written |
| `ConsoleText.ElseAsBefore` | modules/device_management/vga/vga.c:87-140 | a cell no character was written to is as it was, or blank on a new line |
| `ConsoleText.PrintLayout` | modules/device_management/vga/vga.c:87-140 | printable text is laid out in rows from the cursor on: each cell is the character that belongs there, the old cell or blank, whatever was scrolled or forgotten on the way |
| `ConsoleText.RelayoutKeeps` | modules/device_management/vga/vga.c:146-168 | resizing keeps the cursor on its line and every line up to it; lines that appear are blank, never forgotten ones |
| `ConsoleText.RelayoutDrops` | modules/device_management/vga/vga.c:154-168 | lines are dropped only if the cursor would be above the screen, and no more than that takes; the column changes only if it no longer fits |
| `ConsoleText.ClearIsBlank` | modules/device_management/vga/vga.c:181-191 | one screenful of blank lines in the current colour, the cursor in the first cell |
| `ConsoleText.ViewRange` | modules/device_management/vga/vga.c:65-77 | the view is the newest lines, or scrolled back as far as possible the oldest, and each step back is one line |
| `Console.RowsAreView` | modules/device_management/vga/vga.c:65-77 | the rows below the status row are the lines of the view, in order |
| `ConsoleText.ViewHolds` | modules/device_management/vga/vga.c:94-107 | a new line while scrolled back keeps the same lines in view if and only if the oldest visible line was not just forgotten |
| `Console.Screen.constructor` | modules/device_management/vga/vga.c:172-179 | an empty console that shows its text |
| `Console.Screen.Render` | modules/device_management/vga/vga.c:65-77 | every cell of the view, the status row and the cursor are right after a redraw |
| `Console.Screen.StoreCell` | modules/device_management/vga/vga.c:87-91 | a cell at the cursor; screen and text still agree |
| `Console.Screen.PushLine` | modules/device_management/vga/vga.c:94-101 | the ring of lines after a new line is the history with a blank line at the end and, if full, its oldest line gone |
| `Console.Screen.NextRow` | modules/device_management/vga/vga.c:94-107 | the cursor goes down, scrolling at the bottom; screen and text still agree |
| `Console.Screen.Backspace` | modules/device_management/vga/vga.c:122-130 | back over the last cell, onto the line before if need be |
| `Console.Screen.PutChar` | modules/device_management/vga/vga.c:109-140 | the text becomes that of the character function, and screen and text still agree |
| `Console.Screen.PrintStr` | modules/device_management/vga/vga.c:213-218 | the same for a whole string |
| `Console.Screen.Resize` | modules/device_management/vga/vga.c:146-168 | the ring is refitted to the new size as the relayout function says |
| `Console.Screen.ClearAll` | modules/device_management/vga/vga.c:181-191 | an empty history, shown |
| `Console.Screen.SetDisplay` | modules/device_management/vga/vga.c:255-271 | a display that opens shows the text in its size; one that does not leaves the old one showing it |
| `Console.Screen.Reload` | modules/device_management/vga/vga.c:285-290 | the text is shown again whatever was on the display |
| `Console.Screen.ScrollView` | modules/device_management/vga/vga.c:301-311 | the view moves within the history, and every row of it is right |
| `Console.Screen.StatusEnable` | modules/device_management/vga/vga.c:321-331 | the text gives up or takes back a row; screen and text still agree |
| `Console.Screen.StatusSet` | modules/device_management/vga/vga.c:337-344 | the status row is the given cells; the text is untouched |
| `Console.Screen.Fullscreen` | modules/device_management/vga/vga.c:348-361 | blank and without cursor while a program owns the screen, the text again afterwards |
| `Console.Screen.PutAt` | modules/device_management/vga/vga.c:363-369 | one cell inside the screen, nothing outside it |
| `Framebuffer.IdxInjective` | modules/device_management/gui/fbcon/fbcon.c:66-82 | two pixels never share an address |
| `Framebuffer.BlendRuns` | modules/device_management/gui/fbcon/fbcon.c:41-48 | the gradient starts and ends on its colours, each channel always between them |
| `Framebuffer.MixIsShare` | modules/device_management/gui/fbcon/fbcon.c:41-48 | each channel has gone t of `steps` parts of its way, rounded down |
| `Framebuffer.PixelColour` | modules/device_management/gui/fbcon/fbcon.c:66-82 | with attribute 16 b + f a pixel has colour f where the glyph has a 1 bit, the highest bit leftmost, and on the two rows of the underline; elsewhere colour b, or the wallpaper for b = 0 |
| `Framebuffer.Fbcon.PixelIs` | modules/device_management/gui/fbcon/fbcon.c:66-82 | so of every pixel on the screen, from the cell shown there; outside the cells there is wallpaper |
| `Framebuffer.Fbcon.DrawCell` | modules/device_management/gui/fbcon/fbcon.c:66-82 | exactly the pixels of that cell change, each to foreground, background or wallpaper as bit, underline and attribute say |
| `Framebuffer.Fbcon.PaintWallpaper` | modules/device_management/gui/fbcon/fbcon.c:52-62 | every pixel is the gradient, which is what nothing-shown cells look like |
| `Framebuffer.Fbcon.Open` | modules/device_management/gui/fbcon/fbcon.c:90-99 | a refused mode changes nothing; an accepted one shows a fresh screen |
| `Framebuffer.Fbcon.Reload` | modules/device_management/gui/fbcon/fbcon.c:122-125 | after a change of font or theme the screen is a fresh drawing of the new one |
| `Framebuffer.Fbcon.PutCell` | modules/device_management/gui/fbcon/fbcon.c:105-110 | skipping a cell that is shown already never shows: every pixel is what a fresh drawing of all cells would give |
| `Framebuffer.Fbcon.MoveCursor` | modules/device_management/gui/fbcon/fbcon.c:112-120 | the same with the underline moved, and only there |
| `Calendar.DaysFollowCalendar` | modules/device_management/rtc/rtc.c:110-122 | 1970-01-01 is day 0 and every date counts one more than the day before |
| `Calendar.OnlyDays` | modules/device_management/rtc/rtc.c:110-122 | and no other count does that |
| `Calendar.UnixTimeIsPosix` | modules/device_management/rtc/rtc.c:110-122 | the year and month loops give the closed form of the POSIX definition of seconds since the Epoch |
| `Calendar.DateRoundTrip` | modules/filesystem_management/commands/stat/cmd_stat.c:28-40 | the era arithmetic gives back every date from 1970 on from its day number |
| `Calendar.DaysRoundTrip` | modules/filesystem_management/commands/stat/cmd_stat.c:28-40 | every day number gives a real date, which counts back to it |
| `Calendar.TimeRoundTrip` | modules/filesystem_management/commands/stat/cmd_stat.c:28-40 | format_time undoes rtc_unix_time on every valid time from 1970 on |
| `Calendar.SecondsRoundTrip` | modules/device_management/rtc/rtc.c:110-122 | rtc_unix_time undoes format_time on every number of seconds |
| `Calendar.FitsThrough2105` | modules/device_management/rtc/rtc.c:110-122 | no 32-bit wrap through the year 2105 |
| `Calendar.UnixTimeOf` | modules/device_management/rtc/rtc.c:110-122 | the loops in 32 bits give, from 1970 on, the exact count reduced once, and the exact count if and only if it fits; before 1970 the seconds of that year |
| `Calendar.CivilDate` | modules/filesystem_management/commands/stat/cmd_stat.c:30-38 | the 32-bit steps give the date of the day number |
| `Calendar.CivilTime` | modules/filesystem_management/commands/stat/cmd_stat.c:28-40 | for every 32-bit count: a valid time that counts back to it |
| `Calendar.WeekdayAgrees` | modules/device_management/rtc/rtc.c:65-70 | the weekday formula agrees with counting days from Thursday 1970-01-01 |
| `Calendar.RegisterRoundTrip` | modules/device_management/rtc/rtc.c:60-62 | a number below 100 in BCD or binary is read back |
| `Calendar.HourRoundTrip` | modules/device_management/rtc/rtc.c:72-95 | an hour in any of the four modes of the chip is read back |
| `Calendar.DecodeEncode` | modules/device_management/rtc/rtc.c:72-95 | whatever mode the chip is in, a valid time is accepted, read back, and given the right weekday |
| `Calendar.AcceptedExactly` | modules/device_management/rtc/rtc.c:72-95 | a reading is accepted if and only if it is a real date and time of 2000 to 2099 |
| `Format.Sink.Emit` | lib/format/format.c:17-20 | one character more of the whole text; only what fits is written |
| `Format.Sink.EmitPadded` | lib/format/format.c:23-32 | the text padded to a width on the side asked for |
| `Format.ElevenDigits` | lib/format/format.c:35-59 | the local buffers of twelve characters hold every 32-bit number and its sign |
| `Format.Sink.EmitNumber` | lib/format/format.c:35-59 | sign, zeros, digits most significant first, padding |
| `Format.ReadDirective` | lib/format/format.c:72-78 | flags and width as the directive grammar says |
| `Format.VFormat` | lib/format/format.c:61-123 | exactly the first min(ideal length, size - 1) characters of the unbounded text, a NUL, that count returned, nothing else written; nothing at all for size <= 0 |
| `Directives.ReadAsSpelled` | lib/format/format.c:73-78 | %, -, 0, a width and a letter are read as they are spelled |
| `Directives.DirectiveWrites` | lib/format/format.c:66-121 | a directive writes its piece, and the format goes on behind it with the arguments it has not taken |
| `Directives.TextPieces` | lib/format/format.c:81-93 | %s and %c: as wide as asked or as their text, the text or (null) or the character at the left end with the flag -, else at the right end, spaces elsewhere |
| `Directives.OtherLetters` | lib/format/format.c:109-120 | %% is one %, a letter without a meaning is written with its % |
| `Directives.LonePercent` | lib/format/format.c:112-114 | a % at the end, with or without flags and width, writes nothing |
| `Directives.PlainTextCopied` | lib/format/format.c:66-70 | what is not a directive is copied |
| `Directives.NoLeadingZero` | lib/format/format.c:41-44 | a number starts with 0 only if it is 0 |
| `Numbers.StrToUL` | lib/stdlib/stdlib.c:36-58 | spaces, prefix, the longest run of digits; its value reduced once to 32 bits, and where it ends |
| `Numbers.Atoi` | lib/stdlib/stdlib.c:8-27 | the signed value of the text, and whether it leaves the range of an int |
| `Numbers.StrToULUndoes` | lib/stdlib/stdlib.c:36-58 | strtoul reads back %u (base 10 or 0) and %x (base 16), to the end, for every 32-bit value |
| `Numbers.AtoiUndoes` | lib/stdlib/stdlib.c:8-27 | atoi reads back %d: the text says every int exactly, and the sum stays an int if and only if the value is above INT_MIN |
| `ReadBack.WidthIsNumber` | lib/format/format.c:77-78 | the width of a directive is the decimal number written there |
| `ReadBack.NumberLayout` | lib/format/format.c:35-59 | a printed number is spaces, sign, zeros, digits and spaces, the padding exactly what the width still needs, on the side and of the kind the flags ask for |
| `ReadBack.AtoiUndoesAny` | lib/stdlib/stdlib.c:8-27 | atoi reads back %d with any flags and any width, for every int |
| `ReadBack.StrToULUndoesAny` | lib/stdlib/stdlib.c:36-58 | strtoul reads back what %u, %x and %o print, with any flags and any width |
| `ReadBack.DigitChars` | lib/stdlib/stdlib.c:29-34 | the digits are 0 to 9 and a to f, small or capital, and nothing else |
| `ReadBack.HexReadBack` | lib/stdlib/stdlib.c:36-58 | 0x or 0X in front of hexadecimal digits, after any spaces, is read in base 16 and in base 0 |
| `ReadBack.PlusReadBack` | lib/stdlib/stdlib.c:8-26 | atoi reads a number with a + in front |
| `Affinity.ReadsExactlyLists` | modules/cpu_management/core/affinity/affinity.c:70-90 | some CPUs are returned if and only if the text is a well-formed list, and then the union of its ranges |
| `Affinity.ListIsAccepted` | modules/cpu_management/core/affinity/affinity.c:70-90 | every well-formed list is read as the union of its ranges |
| `Affinity.AcceptedIsList` | modules/cpu_management/core/affinity/affinity.c:70-90 | every text accepted is the text of some well-formed list |
| `Affinity.RunEndIs` | modules/cpu_management/core/affinity/affinity.c:49-51 | a printed run is in the mask and as long as it can be |
| `Affinity.RunsCover` | modules/cpu_management/core/affinity/affinity.c:43-58 | the runs are well-formed items whose union is the mask |
| `Affinity.RunsAreMaximal` | modules/cpu_management/core/affinity/affinity.c:43-59 | each printed item is a run of the mask that cannot be longer |
| `Affinity.RunsAscend` | modules/cpu_management/core/affinity/affinity.c:43-59 | the runs are printed in ascending order |
| `Affinity.RunWritten` | modules/cpu_management/core/affinity/affinity.c:50-56 | a run is written as one number, or as first and last with a dash |
| `Affinity.ListRoundTrip` | modules/cpu_management/core/affinity/affinity.c:43-90 | the printed list of any mask, of any width, reads back as that mask |
| `Affinity.ReadNumber` | modules/cpu_management/core/affinity/affinity.c:61-68 | the value of the digits at a position and where they end; -1 without digits |
| `Affinity.ParseList` | modules/cpu_management/core/affinity/affinity.c:70-90 | the loop returns the mask of the grammar, no CPUs for anything malformed |
| `Affinity.PrintList` | modules/cpu_management/core/affinity/affinity.c:43-58 | the buffer holds as much of the printed list as fits, and a NUL |
| `TaskUsage.Conservation` | modules/cpu_management/core/task/cpu_task.c:24-95 | over every run of ticks, forks, changes of parent and exits: the system totals equal, modulo 2^32, what live processes hold for themselves and their finished children plus what was left without a live parent |
| `TaskUsage.BootBalanced` | modules/cpu_management/core/task/cpu_task.c:20-22 | with the empty table and the zero counters of boot the balance holds |
| `TaskUsage.ExitBalanced` | modules/cpu_management/core/task/cpu_task.c:58-95 | an exit moves ticks between holders and loses none |
| `TaskUsage.DoOk` | modules/cpu_management/core/task/cpu_task.c:24-95 | process ids stay distinct and no process is its own parent |
| `TaskUsage.Accounting.ChargeTick` | modules/cpu_management/core/accounting/cpu_account.c:83-108 | one tick to the process and one to the total of its kind |
| `TaskUsage.TotalsCount` | modules/cpu_management/core/accounting/cpu_account.c:83-108 | over every run each of the four totals grows by exactly the ticks of its kind: idle, system, user, or nice for a nice value above 0 |
| `TaskUsage.TickGoesTo` | modules/cpu_management/core/accounting/cpu_account.c:90-107 | the tick goes to the user or kernel counter of the process that has the CPU, and to no other process |
| `TaskUsage.ForkIsNew` | modules/cpu_management/core/task/cpu_task.c:24-54 | a new process has used nothing and has a number above all others; nobody else changes |
| `TaskUsage.ForkInherits` | modules/cpu_management/core/task/cpu_task.c:26-41 | it has the id of its parent, and its nice value unless that asked for a reset; 0 without a parent |
| `TaskUsage.ExitRecords` | modules/cpu_management/core/task/cpu_task.c:58-95 | an exit writes the record in the next place, and changes no other but that of a parent that ended before |
| `TaskUsage.OrphanAddsToRecord` | modules/cpu_management/core/task/cpu_task.c:68-78 | to the first record of such a parent the ticks are added |
| `TaskUsage.RecordStays` | modules/cpu_management/core/task/cpu_task.c:81-95 | a record stays in its place until sixteen other processes have ended |
| `TaskTree.ForkKept` | modules/cpu_management/core/task/cpu_task.c:24-54 | after a fork every counter still agrees with the history: the child has none, and its parent will be told of it |
| `TaskUsage.Accounting.GiveToParent` | modules/cpu_management/core/task/cpu_task.c:58-79 | to the live parent's child counters, else to the parent's own record, else to nobody |
| `TaskUsage.Accounting.ExitProcess` | modules/cpu_management/core/task/cpu_task.c:81-95 | a record of what the process and its finished children used, handed on, and the slot freed |
| `TaskUsage.Accounting.UsageOf` | modules/cpu_management/core/task/cpu_task.c:97-105 | a record is found if and only if there is one for that id |
| `TaskTree.RecordIsFamilyTotal` | modules/cpu_management/core/task/cpu_task.c:81-95 | when its children were reaped first, the record of a process is its own ticks plus those of all its descendants, modulo 2^32 |
| `TaskTree.AlwaysKept` | modules/cpu_management/core/task/cpu_task.c:24-95 | the child counters of every live process are the totals of its reaped descendants, at every moment of every such run |
| `TaskTree.FamilyTotals` | modules/cpu_management/core/task/cpu_task.c:24-95 | so over every such run, each exit leaves a record of the whole family |
| `TaskTree.BootKept` | modules/cpu_management/core/task/cpu_task.c:24-54 | which holds from an empty process table on |
| `CpuSeconds.SharesAddUp` | modules/cpu_management/core/accounting/cpu_account.c:42-59 | busy and idle make 97 to 100 percent of a second |
| `CpuSeconds.LoadShares` | modules/cpu_management/core/accounting/cpu_account.c:54-60 | each share of a second is that of the ticks of its kind, rounded down; busy is user, nice and kernel together |
| `CpuSeconds.ProcessShare` | modules/cpu_management/core/accounting/cpu_account.c:62-66 | and the share of each process |
| `CpuSeconds.ProcessShares` | modules/cpu_management/core/accounting/cpu_account.c:61-65 | the shares of all processes add up to at most 100 percent |
| `CpuSeconds.RingAt` | modules/cpu_management/core/accounting/cpu_account.c:177-182 | the slot computed from an index holds the index-th newest second |
| `CpuSeconds.Account.CloseWindow` | modules/cpu_management/core/accounting/cpu_account.c:54-81 | the percentages of the second, its place in the history, and all counters back to zero |
| `CpuSeconds.Account.Tick` | modules/cpu_management/core/accounting/cpu_account.c:83-116 | a tick is counted once for its kind and once for its process; the tick that fills the second closes it |
| `CpuSeconds.Account.History` | modules/cpu_management/core/accounting/cpu_account.c:173-182 | the index-th newest full second, none beyond the sixtieth or before boot |
| `LoadAverage.BlendBetween` | modules/cpu_management/core/loadavg/loadavg.c:36-38 | the new average lies between the old one and the sample, and nothing on the way leaves 32 bits |
| `LoadAverage.BlendStep` | modules/cpu_management/core/loadavg/loadavg.c:36-38 | one sample leaves e of 2048 parts of the distance, but for rounding down |
| `LoadAverage.Decays` | modules/cpu_management/core/loadavg/loadavg.c:36-50 | k equal samples leave the k-th power of e / 2048 of the distance, but for what k roundings add |
| `LoadAverage.SeriesBounded` | modules/cpu_management/core/loadavg/loadavg.c:36-50 | over any series of samples the average stays between the smallest and the largest of them |
| `LoadAverage.ReachedFromAbove` | modules/cpu_management/core/loadavg/loadavg.c:36-50 | a steady load is approached from above without turning back and reached exactly |
| `LoadAverage.SettlesFromBelow` | modules/cpu_management/core/loadavg/loadavg.c:36-50 | from below it rises without turning back and stops for good where the rounding holds it |
| `LoadAverage.HowShort` | modules/cpu_management/core/loadavg/loadavg.c:36-38 | which is at most 12, 60 or 186 of 2048 short, exactly when it no longer moves |
| `LoadAverage.Nearest` | modules/cpu_management/core/loadavg/loadavg.c:52-55 | the hundredths shown are the nearest ones |
| `LoadAverage.Meter.Tick` | modules/cpu_management/core/loadavg/loadavg.c:40-50 | a sample for all three averages when five seconds of ticks are over, none otherwise |
| `BackBuffer.TablesForIs` | modules/memory_management/core/vmm/vmm.c:59-87 | page tables made one by one for pages mapped in order are one for every 4 MiB begun |
| `BackBuffer.FramesOf` | modules/device_management/gui/screen/screen.c:42-59 | with k pages mapped the screen has exactly one frame for each of them and for each 4 MiB begun |
| `BackBuffer.CanvasHeld` | modules/device_management/gui/screen/screen.c:64-75 | the buffer holds the whole canvas if and only if its size does not overflow 32 bits, as for every size the card can show |
| `BackBuffer.ModeIsCanvas` | modules/device_management/gui/screen/screen.c:64-75 | an accepted mode is the canvas's own size if and only if that is one of the card's sizes |
| `BackBuffer.TooWide` | modules/device_management/gui/screen/screen.c:64-75 | a width the card takes (cut to 16 bits) whose buffer is 4 bytes long |
| `BackBuffer.Screen.Alloc` | modules/memory_management/core/pmm/pmm.c:152-173 | a frame that neither others nor the screen use at that moment, or none if there is none |
| `BackBuffer.Screen.MapPage` | modules/memory_management/core/vmm/vmm.c:59-87 | the page is mapped, with a page table made if there was none; it fails only when no frame for the table is to be had, and then nothing changed |
| `BackBuffer.Screen.UnmapPage` | modules/memory_management/core/vmm/vmm.c:96-115 | the page is gone, and with the last page of a page table the table's frame is given back |
| `BackBuffer.Screen.UnmapBackBuffer` | modules/device_management/gui/screen/screen.c:31-40 | nothing is mapped and every frame the screen had is given back |
| `BackBuffer.Screen.MapBackBuffer` | modules/device_management/gui/screen/screen.c:42-59 | whatever others take meanwhile: all of it is mapped if and only if the bytes fit the addresses and no frame is refused, otherwise nothing; a refusal means that others left fewer frames than are needed at that moment; it asks for exactly as many as are needed when it works, never for more |
| `BackBuffer.Screen.SetSize` | modules/device_management/gui/screen/screen.c:64-75 | entered with nothing mapped: the new size with its whole buffer if and only if card and addresses admit it and no frame is refused, or no memory at all |
| `BackBuffer.Screen.Open` | modules/device_management/gui/screen/screen.c:77-91 | open with that size and its buffer under the same condition and if the card is there; a screen that did not open has nothing mapped, and if card and addresses admit the size, others left too few frames at a moment it asked |
| `BackBuffer.Screen.Resize` | modules/device_management/gui/screen/screen.c:93-103 | the new size, the old size, or the old size without a buffer, each with the exact number of refused frames that decides it; a refusal means too few frames at a moment during the call |
| `BackBuffer.Screen.ResizeUndisturbed` | modules/device_management/gui/screen/screen.c:93-103 | when nobody else takes frames: the new size if and only if they suffice, otherwise the old size entirely, for which the frames just given back are enough |
| `BackBuffer.BufferLost` | modules/device_management/gui/screen/screen.c:93-103 | when others take the frames as they are given back, the screen stays open with its canvas and no buffer |
| `BackBuffer.BufferLostOnce` | modules/device_management/gui/screen/screen.c:77-103 | one such run from the start: opened with two frames, and without a buffer after a resize |
| `BackBuffer.Screen.constructor` | modules/device_management/gui/screen/screen.c:24-27 | before it is opened the screen has nothing |
| `BackBuffer.Screen.Close` | modules/device_management/gui/screen/screen.c:108-117 | a closed screen has no frame |
| `Windows.OrderKept` | modules/device_management/gui/wm/window_manager.c:80-86 | taking a window out of the order keeps the order of the others |
| `Windows.RoomFor` | modules/device_management/gui/wm/window_manager.c:49-68 | while a slot is free the order has room for its id |
| `Windows.KeptOnScreen` | modules/device_management/gui/wm/window_manager.c:106-122 | title bar on the screen, the whole window where it fits, windows already there unmoved |
| `Windows.KeptNearest` | modules/device_management/gui/wm/window_manager.c:106-123 | a window that fits moves to the nearest place where it does, one that does not to the left and top |
| `Windows.TopmostIs` | modules/device_management/gui/wm/window_manager.c:152-166 | the search from the top finds the topmost window under the point |
| `Windows.PressRaisesTopmost` | modules/device_management/gui/wm/window_manager.c:135-167 | a fresh press raises exactly the topmost window under it, which a press there finds again, and starts a drag just on its title bar; a press on nothing changes nothing |
| `Windows.ClickGoesTo` | modules/device_management/gui/wm/window_manager.c:131-170 | a press inside a window or the 20 rows above it, that no higher one covers, puts exactly that window on top, and on those rows takes hold of it at that spot |
| `Windows.OtherFrames` | modules/device_management/gui/wm/window_manager.c:135-152 | a press beside all windows, or holding the button without a window in hand, changes nothing; letting go drops the window |
| `Windows.RaiseOrder` | modules/device_management/gui/wm/window_manager.c:124-129 | the raised window is above all others, which keep their order |
| `Windows.DragFollows` | modules/device_management/gui/wm/window_manager.c:144-148 | whatever the path of the pointer, the grabbed spot stays under it and nothing else moves |
| `Windows.GrabAndMove` | modules/device_management/gui/wm/window_manager.c:135-167 | a window grabbed by its title bar moves by exactly what the pointer moved since |
| `Windows.AlwaysConsistent` | modules/device_management/gui/wm/window_manager.c:36-167 | over every run of creating, closing, clicking, dragging and resizing: each window in use is in the order exactly once, only those are, and the dragged one is in use |
| `Windows.Manager.CreateWindow` | modules/device_management/gui/wm/window_manager.c:36-71 | the lowest free slot, on top; refused, with nothing changed, exactly for a bad size, a full table or no memory |
| `Windows.Manager.DestroyWindow` | modules/device_management/gui/wm/window_manager.c:73-90 | out of the table and the order, any drag of it ended; the search for it ends; other ids change nothing |
| `Windows.Manager.DestroyAll` | modules/device_management/gui/wm/window_manager.c:92-98 | an empty desk |
| `Windows.Manager.KeepOnScreen` | modules/device_management/gui/wm/window_manager.c:106-122 | every window in use is pulled back, the order kept |
| `Windows.Manager.RaiseToTop` | modules/device_management/gui/wm/window_manager.c:124-129 | the order without that id, and the id on top |
| `Windows.Manager.HandleMouse` | modules/device_management/gui/wm/window_manager.c:135-167 | one frame of the mouse as the function on desks says |
| `Keyboard.EmptyOrFull` | modules/device_management/keyboard/keyboard.c:66-83 | empty and full are told apart, as one slot stays unused |
| `Keyboard.Queue.Enqueue` | modules/device_management/keyboard/keyboard.c:72-79 | the key joins the end, or is dropped exactly when 255 are waiting |
| `Keyboard.Queue.PopKey` | modules/device_management/keyboard/keyboard.c:85-91 | the oldest key, or 0 and no change when there is none |
| `Keyboard.InterruptKeeps` | modules/device_management/keyboard/keyboard.c:72-79 | an interrupt between any two statements of the reader overwrites no waiting key and turns one away exactly when 255 wait |
| `Keyboard.ReadKeeps` | modules/device_management/keyboard/keyboard.c:85-91 | each statement of the reader keeps what it relies on |
| `Keyboard.NothingLost` | modules/device_management/keyboard/keyboard.c:66-91 | over every interleaving: what was read is a prefix, in order, of what was accepted, the rest is in the ring, and every key offered was accepted or counted as dropped |
| `Keyboard.ReadsAll` | modules/device_management/keyboard/keyboard.c:85-91 | left alone the reader gets every waiting key, with four statements each |

## Left out

- Starvation.WaitBound: the ticks on which the process is passed over are counted apart, as nothing bounds them in general; `FewRivals.NoStarvation`, `TicksAlone.NoStarvation` and the other two bounds have no such term.
- Starvation.TickSpends: says nothing of a tick that passes the process over.
- FewRivals.NoStarvation: rivals are counted as slots, over the whole wait; a rival's waiting time changes otherwise only to 0.
- TicksAlone.NoStarvation: nothing but ticks happens, so no rival sleeps, wakes or hands the CPU over of its own accord; with such steps the most is ten (`FewRivals`, `Starved`).
- Priority.Scheduler.SchedulerTick: the sleepers, signals and reaper before the tick, and the time before the scheduler starts, are left to "anything else that happens" between two steps.
- TaskTree.FamilyTotals: stated for runs in which children are reaped before their parent and keep it; a child that outlives its parent takes its ticks elsewhere, which `Conservation` covers.
- Numbers.StrToUL: bases above 99 are not modelled; there the source takes its own mark for "no digit" to be a digit.
- Numbers.Atoi: the value after an overflowing sum is undefined in C, so only the fact that it overflows is stated.
- Format.ReadDirective: a width is an exact integer, without the overflow of an `int`.
- Format.VFormat: the arguments must match the directives, as in C; a width is an exact integer, without the overflow of an `int`.
- Affinity.ReadNumber: the value is an exact integer, without the overflow of an `int`.
- Affinity.ParseList: a mask is any finite set below the number of CPUs, not a 32-bit word.
- Console.Screen.SetDisplay: displays have at least 2 rows and 1 column and fit the largest sizes; the display shown before is taken to open again.
- Framebuffer.Fbcon.Reload: the font and the theme change only through `reload`; glyph 0 of a font is taken to be blank, which is what makes a cleared cell look like wallpaper.
- CpuSeconds.Account.Tick: timer frequencies are those the timer chip can be set to, up to 1193180 Hz.
- Windows.Manager.KeepOnScreen: coordinates are exact integers, without the overflow of an `int`.
- Keyboard.Queue.PopKey: each access to `head`, `tail` or a slot is one step; memory ordering inside the processor is not modelled.
- The stack check and the stack switch of a hand-over are not modelled.
- BackBuffer.Screen.Alloc: which of several free frames is taken is left open.
- Of a process only ids, tick counters and scheduling fields are modelled, not its cycle counts, switch counts and CPU numbers.
- Scancodes, modifiers and key maps of the keyboard: tables and single branches.
- `vga_print_int` and `vga_print_hex`, colours, drawing on canvases, `wm_draw`, title text.
- Rights checks, limits, NUMA and affinity setters; shell commands; boot, interrupt and port set-up; file systems; the security demonstrations.
- The retry loop around reading the clock chip: it depends on the device.
- Process switch and cycle counters of the CPU accounting, `ticks_to_ms`.
