# Verified model of the device-management client example and its board support

The project models the parts of the repository whose correctness is not visible from one function body:
the Cortex-M FreeRTOS port, the key-value migration, the LED pattern player, the code-flash driver, the image and
array writers, and the waiting and reporting loops around the client. Each part is a small group of modules. Code
that changes state step by step is a class or a method that changes state step by step, proved against a
specification function or relation; the main results are theorems about those, over all inputs, all runs and all
interleavings. `dafny verify dfyconfig.toml` checks the whole project.

## What is modelled

**The FreeRTOS port** (`Words`, `ContextFrame`, `ContextSwitch`, `PortCpu`, `CriticalSection`, `TicklessIdle`,
`ReadyPriorities`). `PortCpu.Cpu` runs PendSV_Handler and the restore path access by access, on registers, a mask
register and memory, for the layout with a floating-point unit and for the one without, with hardware stacking as
sections B1.5.6 and B1.5.8 of the ARMv7-M Architecture Reference Manual describe it. `SwitchTask` and `CreateTask` tie that
code to the steps of an interleaving model of any number of tasks on disjoint stacks, and the theorem about every run of
that model is that pre-emption is transparent: a task resumes with exactly the context it was switched out with.
`CriticalSection` splits enter and exit into their loads and stores and allows a switch between any two of them that
the mask lets through; it proves that one counter and one saved mask serve all tasks. `TicklessIdle` follows the
unsigned 32-bit arithmetic of a sleep on a SysTick counter with its count flag and pending bit, and compares the ticks recorded
with the tick boundaries that passed, counted one by one. That kernel time never runs ahead is false of the code: when the
interrupt of SysTick ends the sleep, its handler restarts the counter and so clears the flag that is tested afterwards, and
the sleep can be counted again; and a tick that is pending when the counter is restarted is taken for the end of the
sleep. `TenTicksTwice` and `PendingTickTwice` are such sleeps. `WholeSleepIff` says for which timings of a call
that begins with no tick pending kernel time does not run ahead, and `KeepsTimeIff`, for any start of a call, when no timing
makes it run ahead.

**The migration** (`KvStore`, `Migration`, `MigrationRecovery`). Each store operation works, or fails with any negative
code, in which case a write or removal may or may not have taken effect. The done flag is sound whatever
fails, except that a lookup of an LwM2M key may itself fail with the code for a missing item: then the key stays. The flag means
a complete migration exactly if no lookup of the run did that for a key the store held (`FlagIsSound`), and at
every script of failures exactly if the store held no such key (`FlagIsSoundIff`). Restarting converges after any number of
failed or interrupted runs with honest lookups, exactly if the new values fit the 1024-byte comparison buffer:
`ConvergesIffRequestFits` proves both directions, and exhibits the cut after which, for longer values, no later run without
failures ever sets the flag. `ConvergesAlwaysIff` is the same for all failures.

**The pattern player** (`PatternText`, `Blinky`). The parser works on any bytes; the player is driven by timer events.
Playing back a printed pattern requests exactly the delays printed, and with restart the requests cycle for ever.

**The flash driver** (`FlashLayout`, `FlashIap`). Memory is an array of bytes. A zero result of `program` is tied to the
whole range being equal to the buffer. For `erase` the exact set of erased bytes is given for every accepted
range; the range is erased in full if and only if it does not cross from large sectors into small ones. A zero
result of `erase` is documented as success, but it is that of the last block: it guarantees an erased range, whatever
became of each block, if and only if the range is no longer than one sector (`ZeroMeansErasedIff`), and `TwoBlocksLost` is a
call on two sectors that returns zero and leaves the first unerased.

**Image and array writers** (`StructPack`, `FirmwareHeader`, `CombineImage`, `HexArray`). The header tools are instances of one
theory of packed formats, with round trips in both directions for every format, and every image written from separate
parts passes the check a bootloader makes. A file of any number of arrays is read back by an independent reader.

**Waiting, reporting, retrying** (`EventWait`, `DownloadProgress`, `RetryBackoff`). A wait with interrupts at every access to
shared memory, a progress report over a whole download, and the doubling back-off loops. Three results are exact conditions: a
wait answers rightly, whatever the interrupts, if and only if its clock readings are no further apart than from the timeout to
the wrap of the clock; a download reports 100 percent if and only if a hundred times its size fits a 32-bit size_t; and
a back-off wait fits an int if and only if there were at most eighteen failures.

`Division` holds the few facts about quotients that the others share.

## Modelling choices

- Memory of the port is addressed in words: stack pointers are always multiples of four.
- The hardware, the scheduler's choice, the key-value store, the flash library, timers, interrupts, SHA-256, CRC-32 and the
  IntelHex library are parameters or are specified by contract. Of a failing store operation only the sign of its code is
  assumed, and of a failing flash operation only the sign of its status; where more is needed, it is in the statement.
- Constants that a device or another program has to agree on (status words, magic numbers, limits, sector sizes, waits) are
  written as numbers in the statements about them.
- Store keys are distinct constructors; the codes for a missing item and a wrong size are distinct negative numbers.
- `long` and `size_t` have 32 bits, and the Renesas flash constants are symbolic with their alignment as an assumption.

## Model

| member | source | states |
|---|---|---|
| ContextSwitch.PreemptionIsTransparent | pal-platform/SDK/Renesas_EK_RA6M3/rm_freertos_port/port.c:277-393 | In every run of running, creating and switching tasks on disjoint stacks, a task that is switched out and later switched in again has a frame that exception return accepts, and all core registers, stack pointer, program counter, status and, if in use, all FPU registers as before |
| ContextSwitch.ReadyAfterSaving | pal-platform/SDK/Renesas_EK_RA6M3/rm_freertos_port/port.c:277-393 | A task that is to be switched in has an acceptable frame after the running one is saved and the scheduler has written its own data |
| ContextSwitch.NewTaskStarts | pal-platform/SDK/Renesas_EK_RA6M3/rm_freertos_port/port.c:603-633 | However long a created task waits and whatever runs meanwhile, its first turn is accepted by exception return and starts at its entry point with bit 0 clear, its argument in R0, the exit hook in LR, status 0x01000000 (the T bit alone), an empty stack and no FPU state |
| ContextSwitch.SwitchToSelf | pal-platform/SDK/Renesas_EK_RA6M3/rm_freertos_port/port.c:277-393 | A scheduler that picks the running task again leaves its context unchanged |
| ContextSwitch.SleepingContextKept | pal-platform/SDK/Renesas_EK_RA6M3/rm_freertos_port/port.c:277-393 | The context a sleeping task will resume with is invariant under every sequence of steps of the others |
| ContextSwitch.SwitchSaves | pal-platform/SDK/Renesas_EK_RA6M3/rm_freertos_port/port.c:277-360 | Switching a task out leaves its whole context pending on its own stack |
| ContextSwitch.ResumesPending | pal-platform/SDK/Renesas_EK_RA6M3/rm_freertos_port/port.c:445-539 | Switching a task in gives it the context that was pending when it went to sleep |
| ContextSwitch.StepKeepsOthers | pal-platform/SDK/Renesas_EK_RA6M3/rm_freertos_port/port.c:277-393 | No step changes the stack or saved stack pointer of a task that neither runs nor is being created |
| ContextFrame.ResumeSaved | pal-platform/SDK/Renesas_EK_RA6M3/rm_freertos_port/port.c:445-539 | In either layout, with or without FPU state and alignment padding, restoring a saved frame gives back the saved context, and reads nothing above the old stack pointer |
| ContextFrame.ResumeAgrees | pal-platform/SDK/Renesas_EK_RA6M3/rm_freertos_port/port.c:445-539 | Restoring depends on the words of the saved frame only |
| ContextFrame.PaddingUndone | pal-platform/SDK/Renesas_EK_RA6M3/rm_freertos_port/port.c:282-284 | The alignment word pushed on entry is popped on return, for either parity of the stack pointer and either frame size |
| ContextFrame.FrameAligned | pal-platform/SDK/Renesas_EK_RA6M3/rm_freertos_port/port.c:282-284 | Every hardware frame starts on an 8-byte boundary, with at most one word of padding |
| ContextFrame.StackedThumb | pal-platform/SDK/Renesas_EK_RA6M3/rm_freertos_port/port.c:282-284 | Recording the alignment in the stacked status word leaves its T bit alone |
| ContextFrame.InitialFrameResumes | pal-platform/SDK/Renesas_EK_RA6M3/rm_freertos_port/port.c:603-633 | The simulated frame of a new task is accepted by the restore path and exception return, on the path without FPU state, and gives status 0x01000000 |
| PortCpu.Cpu.PreserveContext | pal-platform/SDK/Renesas_EK_RA6M3/rm_freertos_port/port.c:277-360 | The stores of the handler complete the saved frame, put its address in the control block and change no other word |
| PortCpu.Cpu.RestoreTask | pal-platform/SDK/Renesas_EK_RA6M3/rm_freertos_port/port.c:445-539 | The loads of the restore path and the exception return give exactly the context pending at the saved top of stack |
| PortCpu.Cpu.LoadRegisters | pal-platform/SDK/Renesas_EK_RA6M3/rm_freertos_port/port.c:445-538 | The loads of the restore path, in either layout, the stack pointer they leave, and an EXC_RETURN to thread mode on the process stack |
| PortCpu.Cpu.ExceptionEntry | pal-platform/SDK/Renesas_EK_RA6M3/rm_freertos_port/port.c:282-284 | Hardware stacking puts the caller-saved half of the frame below the stack pointer and changes nothing else |
| PortCpu.Cpu.ExceptionReturn | pal-platform/SDK/Renesas_EK_RA6M3/rm_freertos_port/port.c:524-538 | Exception return demands an EXC_RETURN to a task and the T bit of the popped status, and pops the frame it describes |
| PortCpu.Cpu.PendSVHandler | pal-platform/SDK/Renesas_EK_RA6M3/rm_freertos_port/port.c:277-393 | From exception to exception return: the outgoing context is saved, the scheduler's task resumed, the mask left at zero |
| PortCpu.Cpu.SwitchTask | pal-platform/SDK/Renesas_EK_RA6M3/rm_freertos_port/port.c:277-393 | The handler refines the switch step of the interleaving model |
| PortCpu.Cpu.CreateTask | pal-platform/SDK/Renesas_EK_RA6M3/rm_freertos_port/port.c:603-633 | Initialising a stack refines the create step of the interleaving model |
| PortCpu.Cpu.InitialiseStack | pal-platform/SDK/Renesas_EK_RA6M3/rm_freertos_port/port.c:603-633 | The writes of pxPortInitialiseStack, and the top of stack it returns |
| CriticalSection.CounterIsSound | pal-platform/SDK/Renesas_EK_RA6M3/rm_freertos_port/port.c:781-809 | In every reachable state of every interleaving, all other tasks are at depth zero, the counter is the running task's depth between calls, and interrupts are masked while that depth is positive |
| CriticalSection.CriticalSectionIsAtomic | pal-platform/SDK/Renesas_EK_RA6M3/rm_freertos_port/port.c:781-809 | While a task's depth stays positive, no other task takes a step |
| CriticalSection.OutermostExitRestoresMask | pal-platform/SDK/Renesas_EK_RA6M3/rm_freertos_port/port.c:801-809 | The outermost exit restores the mask its task held before the outermost enter, whatever was nested or interleaved |
| CriticalSection.StepKeepsInv | pal-platform/SDK/Renesas_EK_RA6M3/rm_freertos_port/port.c:781-809 | Every load, store, call and switch keeps the invariant that relates counter, saved mask, mask and the progress of each task |
| CriticalSection.EnterIsWhole | pal-platform/SDK/Renesas_EK_RA6M3/rm_freertos_port/port.c:781-796 | The accesses of an enter, run together, have the effect of the call |
| CriticalSection.ExitIsWhole | pal-platform/SDK/Renesas_EK_RA6M3/rm_freertos_port/port.c:801-809 | The accesses of an exit, run together, have the effect of the call |
| CriticalSection.Port.EnterCritical | pal-platform/SDK/Renesas_EK_RA6M3/rm_freertos_port/port.c:781-796 | The call masks interrupts, counts up modulo 2^32 and saves the old mask when it is the outermost |
| CriticalSection.Port.ExitCritical | pal-platform/SDK/Renesas_EK_RA6M3/rm_freertos_port/port.c:801-809 | The call counts down and restores the saved mask when it is the outermost |
| TicklessIdle.WholeSleepIff | pal-platform/SDK/Renesas_EK_RA6M3/rm_freertos_port/port.c:944-1008 | For every timing of a call that begins with no tick pending and ends within a period of the expiry, with the test after the handler: recorded ticks lack at most one boundary passed, and are never ahead if and only if the timing is one of a stated set |
| TicklessIdle.KeepsTimeIff | pal-platform/SDK/Renesas_EK_RA6M3/rm_freertos_port/port.c:944-1008 | For every start of a call: no timing at all, however late, makes the recorded ticks exceed the boundaries passed and the tick pending at the start, if and only if none was pending, exactly two ticks are suppressed, and the counter is not at zero or a tick is a single count |
| TicklessIdle.StaysBelowExpectedIff | pal-platform/SDK/Renesas_EK_RA6M3/rm_freertos_port/port.c:944-1008 | A prompt call with no tick pending records no more than the suppressed ticks less one if and only if the timing is one of a stated set |
| TicklessIdle.TickTakenForSleep | pal-platform/SDK/Renesas_EK_RA6M3/rm_freertos_port/port.c:963-1004 | Whatever the sleep, a tick pending at its start lets a call that has not lasted a count record twice the suppressed ticks less one |
| TicklessIdle.PendingTickTwice | pal-platform/SDK/Renesas_EK_RA6M3/rm_freertos_port/port.c:963-1004 | A sleep of two ticks with a tick pending records two before the first has passed |
| TicklessIdle.CountedAgain | pal-platform/SDK/Renesas_EK_RA6M3/rm_freertos_port/port.c:983-1004 | Whatever the sleep, a handler one count after the expiry with the test at once records twice the suppressed ticks less one |
| TicklessIdle.AtMostTwice | pal-platform/SDK/Renesas_EK_RA6M3/rm_freertos_port/port.c:944-1008 | However late the handler and the test, a sleep is recorded at most twice, and once if no handler ran before the test |
| TicklessIdle.TenTicksTwice | pal-platform/SDK/Renesas_EK_RA6M3/rm_freertos_port/port.c:983-1004 | A sleep of ten ticks whose interrupt comes one count after the expiry is recorded as eighteen |
| TicklessIdle.SleptRecords | pal-platform/SDK/Renesas_EK_RA6M3/rm_freertos_port/port.c:944-1008 | The ticks any prompt call records, in closed form, with or without a tick pending at its start, on the handler, the second expiry and the second count |
| TicklessIdle.Timer.SuppressTicksAndSleep | pal-platform/SDK/Renesas_EK_RA6M3/rm_freertos_port/port.c:944-1008 | The whole call on the counter, flag and pending bit is the sleep function with a reload value that heeds the expected idle time; for a prompt call its ticks are the closed form, and without a tick pending they are right if and only if the timing is one of the stated set |
| TicklessIdle.Timer.Run | pal-platform/SDK/Renesas_EK_RA6M3/rm_freertos_port/port.c:966-971 | The counter clock by clock: reload from zero, flag and interrupt on reaching it |
| TicklessIdle.ClockedIs | pal-platform/SDK/Renesas_EK_RA6M3/rm_freertos_port/port.c:966-971 | Where the counter stands, and whether it has expired, after any number of clocks up to its second expiry |
| TicklessIdle.Timer.BeginSleep | pal-platform/SDK/Renesas_EK_RA6M3/rm_freertos_port/port.c:944-974 | The reload value never exceeds the expected idle time, equals it from the tick under way when so many periods fit 24 bits, and else leaves no room for one more; none of the unsigned arithmetic wraps |
| TicklessIdle.ExpectedHeeded | pal-platform/SDK/Renesas_EK_RA6M3/rm_freertos_port/port.c:950-966 | The same of the number of suppressed ticks, and the boundaries passed at the expiry never exceed the expected idle time |
| TicklessIdle.Timer.WakeEarly | pal-platform/SDK/Renesas_EK_RA6M3/rm_freertos_port/port.c:986-1008 | On an early wake, exactly when the recorded ticks equal the boundaries passed and when they are one behind |
| TicklessIdle.Timer.SysTickHandler | pal-platform/SDK/Renesas_EK_RA6M3/rm_freertos_port/port.c:572-593 | The handler reloads the counter, clears the flag, steps the ticks it completed and adds one |
| TicklessIdle.HandlerRecords | pal-platform/SDK/Renesas_EK_RA6M3/rm_freertos_port/port.c:572-593 | At expiry the suppressed ticks less one are recorded, and they are exact if and only if the sleep began on a boundary |
| TicklessIdle.Timer.ResetSystick | pal-platform/SDK/Renesas_EK_RA6M3/rm_freertos_port/port.c:550-565 | The counter restarts with the fraction and without its flag, the period is restored, the completed ticks are stepped, the sleep is marked as accounted for |
| TicklessIdle.Timer.constructor | pal-platform/SDK/Renesas_EK_RA6M3/rm_freertos_port/port.c:1015-1027 | Set-up establishes what every sleep relies on if and only if the period leaves room for two ticks, and leaves the counter alone if the period does not fit it |
| TicklessIdle.BoundariesCounted | pal-platform/SDK/Renesas_EK_RA6M3/rm_freertos_port/port.c:986-1003 | Counting boundaries one by one agrees with the closed form the code relies on |
| TicklessIdle.HandlerNeedsTwoTicks | pal-platform/SDK/Renesas_EK_RA6M3/rm_freertos_port/port.c:572-593 | The subtraction in the handler does not wrap if and only if at least two ticks were suppressed |
| ReadyPriorities.ReadySet.Record | pal-platform/SDK/Renesas_EK_RA6M3/rm_freertos_port/portmacro.h:182-182 | The bitmap represents exactly the recorded set, with the priority added |
| ReadyPriorities.ReadySet.Reset | pal-platform/SDK/Renesas_EK_RA6M3/rm_freertos_port/portmacro.h:183-183 | The bitmap represents exactly the recorded set, with the priority removed |
| ReadyPriorities.ReadySet.Highest | pal-platform/SDK/Renesas_EK_RA6M3/rm_freertos_port/portmacro.h:170-189 | For a non-empty set, 31 less the leading zeros is its maximum |
| ReadyPriorities.LeadingZeros | pal-platform/SDK/Renesas_EK_RA6M3/rm_freertos_port/portmacro.h:170-179 | The counted bits are clear and the next one is set |
| MigrationRecovery.ConvergesIffRequestFits | source/migrate_kvstore.cpp:93-182 | Over all sequences of failing or interrupted runs with honest lookups, a final clean run gives the target store if and only if the new values fit the comparison buffer; otherwise one cut makes the flag unreachable for ever |
| MigrationRecovery.ConvergesAlwaysIff | source/migrate_kvstore.cpp:93-224 | Over all sequences of runs failing with any negative codes, the same holds if and only if the new values fit and the store held no LwM2M key |
| MigrationRecovery.FlagIsSoundIff | source/migrate_kvstore.cpp:93-126 | The flag means four replaced records and no LwM2M key, at every script of failures, if and only if the store held no LwM2M key |
| MigrationRecovery.ForgetfulRun | source/migrate_kvstore.cpp:184-224 | Lookups that fail with the code for a missing item let a run set the flag and keep every LwM2M key |
| MigrationRecovery.Converges | source/migrate_kvstore.cpp:93-126 | Any number of failed or interrupted runs with honest lookups, followed by a clean one, gives the same store as one undisturbed run |
| MigrationRecovery.FlagIsSound | source/migrate_kvstore.cpp:93-126 | In a run that sets the flag, all four records hold the requested bytes, and all four LwM2M keys are absent if and only if no lookup of the run missed one |
| MigrationRecovery.FoundFlagChangesNothing | source/migrate_kvstore.cpp:93-99 | A run that finds the flag writes and removes nothing |
| MigrationRecovery.UnchangedIffAtTarget | source/migrate_kvstore.cpp:93-126 | Flagged or not, no run changes a store, whatever fails, if and only if the store is at its target: a run that cannot read the flag removes credentials stored since |
| MigrationRecovery.BlindRun | source/migrate_kvstore.cpp:93-182 | A run whose lookups of the flag and the records fail migrates any store |
| MigrationRecovery.AfterIsUnderway | source/migrate_kvstore.cpp:93-224 | Over any runs with honest lookups every record stays old or new, every LwM2M key old or gone, and every other key unchanged |
| MigrationRecovery.CleanRun | source/migrate_kvstore.cpp:69-126 | A clean run on an unflagged store always clears all LwM2M keys and replaces every record of at most 1024 bytes, keeps longer ones and all else, and returns the sum of their errors; it sets the flag and reaches the target exactly if the records fit |
| MigrationRecovery.KeysClearedAnyway | source/migrate_kvstore.cpp:93-126 | Whatever the replacements returned: if the operations from the first key lookup on work, no LwM2M key is left |
| MigrationRecovery.ClearedIfApplied | source/migrate_kvstore.cpp:184-224 | Whatever the removals report, if each takes effect and no lookup misses a key, all keys go |
| MigrationRecovery.LastFailureReported | source/migrate_kvstore.cpp:212-223 | Of several failing removals the last is reported |
| MigrationRecovery.HeldNotWritten | source/migrate_kvstore.cpp:145-171 | A record that already holds its value is looked up and read, but not written |
| MigrationRecovery.RunEffect | source/migrate_kvstore.cpp:69-126 | One run with any failures and honest lookups keeps the store on its way, and any run reports success only with the flag set |
| MigrationRecovery.ClearEffect | source/migrate_kvstore.cpp:184-224 | Clearing only removes LwM2M keys, and after a zero result all of them are gone if and only if no lookup missed one |
| MigrationRecovery.ReplaceEffect | source/migrate_kvstore.cpp:135-182 | Replacing one record keeps the store on its way, and a zero result means that the record holds its value |
| Migration.Migrator.LocateAndReplace | source/migrate_kvstore.cpp:135-182 | The method makes exactly the store operations, in order and under all failures, of the replacement function |
| Migration.Migrator.ClearLwM2MInfo | source/migrate_kvstore.cpp:184-224 | The loop over the keys makes exactly the operations of the clearing function and returns the last failure |
| Migration.Migrator.Migrate | source/migrate_kvstore.cpp:69-126 | The whole migration as the run function the theorems speak about |
| Blinky.PlayBackUndoesPrinting | source/blinky.cpp:102-180 | For every non-empty list of delays below 2^31, printing it and starting the text requests exactly those delays in order, toggles once each, and is idle after as many events |
| Blinky.PlaysOnceAndIdles | source/blinky.cpp:160-208 | For any bytes, without restart: one request per accepted delay, at most one more than there are separators, then idle with no timer in flight |
| Blinky.PlaysForever | source/blinky.cpp:200-208 | With restart, the n-th request is for delay n modulo the number of accepted delays, for ever |
| Blinky.NothingToPlay | source/blinky.cpp:102-180 | Text without an acceptable first delay starts nothing, restart or not |
| Blinky.StartsIff | source/blinky.cpp:102-180 | A pattern starts if and only if a delay stands at its beginning: nothing before a separator, or a number that is not negative before a separator or the end |
| Blinky.CommaPlaysNothing | source/blinky.cpp:145-158 | The text 500,200 plays nothing |
| Blinky.PlaysInOrder | source/blinky.cpp:160-208 | After n events the first n + 1 delays have been requested in order |
| Blinky.BlinkyPlayer.GetNextInt | source/blinky.cpp:135-158 | The next delay and the cursor behind it, which never leaves the terminated text |
| Blinky.BlinkyPlayer.RunStep | source/blinky.cpp:160-180 | One step of the player as the step function |
| Blinky.BlinkyPlayer.StartPattern | source/blinky.cpp:102-125 | Starting stops what was playing, takes a terminated copy and makes the first step |
| Blinky.BlinkyPlayer.HandlePatternEvent | source/blinky.cpp:200-208 | A timer event makes a step, and a second one from the beginning if the end was reached and restart is on |
| PatternText.TokensReadPrint | source/blinky.cpp:135-158 | Reading undoes printing wherever the printed delays stand |
| PatternText.TokensAndColons | source/blinky.cpp:135-158 | Any text has at most one more accepted delay than separators |
| PatternText.StrtolReadsDecimal | source/blinky.cpp:135-158 | strtol reads back a printed number that is followed by no digit |
| PatternText.TokensByPosition | source/blinky.cpp:135-158 | The cursor after n steps stands at the n-th accepted delay, and past the last one finds none |
| PatternText.AcceptedIff | source/blinky.cpp:135-158 | For all texts and places: a delay is accepted if and only if there is nothing before a separator, or blanks, an optional sign and digits of a number that is not negative, followed by a separator or the end |
| PatternText.DelaysStandInOrder | source/blinky.cpp:135-158 | The accepted delays stand one behind the other up to the first place where none stands |
| PatternText.InvalidCharacter | source/blinky.cpp:145-158 | A number followed by any other byte is no delay |
| PatternText.NumberIff | source/blinky.cpp:139-143 | What strtol reads is the number shown, limited to 32 bits |
| FlashIap.Flash.Program | pal-platform/SDK/Renesas_RX65N-CK/kvstore_flashdriver_impl/FlashIAP_Renesas_RX65N-CK.cpp:210-276 | Zero exactly if the range was accepted, the last page written and the whole range equals the buffer; if the two do not overlap that is what the buffer held, and if all pages succeed the result is zero; nothing outside the range changes whatever pages failed |
| FlashIap.Flash.ProgramPage | pal-platform/SDK/Renesas_RX65N-CK/kvstore_flashdriver_impl/FlashIAP_Renesas_RX65N-CK.cpp:235-268 | A page from RAM and a page through the bounce buffer have the same effect |
| FlashIap.ZeroMeansErasedIff | pal-platform/SDK/Renesas_RX65N-CK/kvstore_flashdriver_impl/FlashIAP_Renesas_RX65N-CK.cpp:278-325 | A zero result guarantees that an accepted range is erased, over all outcomes of all blocks, if and only if the range is no longer than one sector |
| FlashIap.TwoBlocksLost | pal-platform/SDK/Renesas_RX65N-CK/kvstore_flashdriver_impl/FlashIAP_Renesas_RX65N-CK.cpp:313-324 | A call on two sectors that fails on the first and returns zero |
| FlashIap.FirstBlockLost | pal-platform/SDK/Renesas_RX65N-CK/kvstore_flashdriver_impl/FlashIAP_Renesas_RX65N-CK.cpp:313-324 | What a failing first block leaves is still there after any number of successful ones |
| FlashIap.Flash.Erase | pal-platform/SDK/Renesas_RX65N-CK/kvstore_flashdriver_impl/FlashIAP_Renesas_RX65N-CK.cpp:286-325 | Distinct sectors are erased in rising order; every byte of memory afterwards is given for all outcomes of all blocks; if all succeed exactly the erased set holds the erase value |
| FlashIap.Flash.EraseBlocks | pal-platform/SDK/Renesas_RX65N-CK/kvstore_flashdriver_impl/FlashIAP_Renesas_RX65N-CK.cpp:307-324 | The erase loop with its exact set of erased bytes |
| FlashIap.ErasedInFullIff | pal-platform/SDK/Renesas_RX65N-CK/kvstore_flashdriver_impl/FlashIAP_Renesas_RX65N-CK.cpp:286-325 | An accepted range is erased in full if and only if it does not cross from large into small sectors |
| FlashIap.NextBlock | pal-platform/SDK/Renesas_RX65N-CK/kvstore_flashdriver_impl/FlashIAP_Renesas_RX65N-CK.cpp:313-318 | Every address the loop passes to the library starts a sector, and that sector is exactly what the step adds |
| FlashLayout.SectorsTile | pal-platform/SDK/Renesas_RX65N-CK/kvstore_flashdriver_impl/FlashIAP_Renesas_RX65N-CK.cpp:345-375 | Large and small sectors tile the code flash: every address lies in exactly one |
| FlashLayout.BoundaryIsExact | pal-platform/SDK/Renesas_RX65N-CK/kvstore_flashdriver_impl/FlashIAP_Renesas_RX65N-CK.cpp:101-118 | For ranges within the address space the check accepts exactly the aligned ranges of the area |
| FlashLayout.WrappingRangeAccepted | pal-platform/SDK/Renesas_RX65N-CK/kvstore_flashdriver_impl/FlashIAP_Renesas_RX65N-CK.cpp:101-118 | A range beyond the address space that the wrapping sum accepts |
| StructPack.RoundTrip | pal-platform/SDK/EVK-MIMXRT1060/tools/combine_bootloader_with_app.py:80-80 | For every format: packing succeeds exactly on values that fit, unpacking undoes packing up to zero fill, and packing undoes unpacking |
| StructPack.PackedInOrder | pal-platform/SDK/EVK-MIMXRT1060/tools/combine_bootloader_with_app.py:107-130 | The packed bytes of leading fields do not depend on later values |
| StructPack.PackedField | pal-platform/SDK/EVK-MIMXRT1060/tools/combine_bootloader_with_app.py:107-130 | The bytes of each field stand at its offset, for every format |
| FirmwareHeader.UpdateHeaderReads | pal-platform/SDK/EVK-MIMXRT1060/tools/combine_bootloader_with_app.py:89-132 | The 112-byte header exists exactly for 64-bit versions and sizes, unpacks to its fields, and its checksum is that of its own first 108 bytes although it was computed before |
| FirmwareHeader.UpdateHeaderBytes | pal-platform/SDK/EVK-MIMXRT1060/tools/combine_bootloader_with_app.py:76-132 | The header at literal offsets: 5a 51 b3 d4, 0 0 0 2, version and size most significant byte first, digest, zeros, and the checksum of the first 108 bytes |
| FirmwareHeader.FotaHeaderReads | pal-platform/SDK/LPCXpresso54628/tools/combine_bootloader_with_app.py:64-95 | The 48-byte little-endian header exists exactly for 64-bit versions and 32-bit sizes and unpacks to its fields |
| FirmwareHeader.FotaHeaderBytes | pal-platform/SDK/LPCXpresso54628/tools/combine_bootloader_with_app.py:61-95 | The header at literal offsets: a3 53 02 5c, size and version least significant byte first, digest |
| FirmwareHeader.PackageSplits | utils/gen_update_image.py:24-41 | The package exists exactly for 64-bit versions and 32-bit lengths and splits into a header that names its own size, and the payload |
| FirmwareHeader.PackageBytes | utils/gen_update_image.py:24-41 | The package at literal offsets: 46 4f 54 41, 0 0 0 52, version and size most significant byte first, digest, payload |
| CombineImage.CombineWithHeader | pal-platform/SDK/Renesas_RX65N-CK/tools/combine_bootloader_with_app.py:135-176 | Exactly when an image is written; bootloader and header are unchanged in it; it passes the check a bootloader makes if and only if what stands in the place of the application has its digest: always with errors on overlap; with existing bytes kept the application is there exactly when the parts agree on the overlap; the header is refused exactly beyond 64 bits |
| CombineImage.Combine | pal-platform/SDK/Renesas_RX65N-CK/tools/combine_bootloader_with_app.py:165-173 | When an image is written and which error ends the call otherwise; bootloader and header are unchanged in it, and the application exactly when the parts agree |
| CombineImage.ImageVerifiesIff | pal-platform/SDK/EVK-MIMXRT1060/tools/combine_bootloader_with_app.py:135-176 | An image with the header of an application passes the check a bootloader makes if and only if what it has in its place has its digest |
| CombineImage.IntelHex.Merge | pal-platform/SDK/EVK-MIMXRT1060/tools/combine_bootloader_with_app.py:165-173 | The contract of the library's merge: an error on overlap, or the own byte kept |
| HexArray.FileReadBack | utils/cert_convert.py:493-510 | For any number of arrays between other text, a reader of C initializers gives back every one, in ceil(n / 16) lines of sixteen entries but the last |
| HexArray.DeclarationsRead | utils/cert_convert.py:493-510 | The declarations of a file are read back in order, each with its own name, its bytes, and the constant named after it that takes its size |
| HexArray.DeclarationRead | utils/cnvfile2hex.py:94-112 | The same for one declaration in front of any text |
| HexArray.ArrayRead | utils/cnvfile2hex.py:94-112 | One array in front of any text is read back, and then the text behind it |
| HexArray.WriteCredentials | utils/cert_convert.py:493-510 | The three calls append exactly the texts of the three arrays |
| HexArray.ProcessData | utils/cnvfile2hex.py:94-112 | The reading and writing loops append exactly the array text |
| HexArray.WriteLine | utils/cert_convert.py:363-367 | The loop over the bytes of one read appends exactly one line |
| HexArray.BodyRead | utils/cert_convert.py:358-368 | Reading the data lines in front of any closing text gives the bytes line by line |
| EventWait.Platform.Wait | source/platform/NXP/event_platform.c:109-131 | With arbitrary interrupts at every access: the wait ends at the first check that finds the event set or the time over, answers by the wrapping clock, and clears only its own event |
| EventWait.AlwaysRightIff | source/platform/NXP/event_platform.c:109-131 | Waits answer rightly at every script of interrupts with readings at most a given gap apart, if and only if the gap is no more than from the timeout to the wrap |
| EventWait.LeapMisleads | source/platform/NXP/event_platform.c:109-131 | For every wider gap, interrupts under which the wait answers true although the event was set only after the timeout |
| EventWait.RightBeforeWrap | source/platform/NXP/event_platform.c:109-131 | A wait that ends before the clock has wrapped answers true exactly when the event was seen set at a check before the timeout |
| EventWait.WaitEnds | source/platform/NXP/event_platform.c:119-122 | However many readings fall into one tick: if some reading shows the timeout and no gap passes the wrap, the wait ends by that reading, before the wrap, with the right answer |
| EventWait.Platform.Interrupted | source/platform/NXP/event_platform.c:69-72 | Tick and notification interrupts between two accesses |
| EventWait.Platform.Notify | source/platform/NXP/event_platform.c:133-146 | Notifying sets exactly that event, unless it is unknown |
| EventWait.Platform.Create | source/platform/NXP/event_platform.c:94-107 | Creating clears exactly that event, unless it is unknown |
| DownloadProgress.AtMostTwentyOneLines | source/fota_platform_ifs_imp.cpp:41-50 | For every split of a download into positive chunks, if a hundred times the total does not wrap: at most 21 lines, strictly rising, the first for the first chunk, the last 100 |
| DownloadProgress.ReachesHundredIff | source/fota_platform_ifs_imp.cpp:41-50 | With wrapping products, 100 is ever printed if and only if a hundred times the total fits |
| DownloadProgress.LaterLines | source/fota_platform_ifs_imp.cpp:41-50 | Later lines lie in higher bands of five percent than everything before them |
| DownloadProgress.AlwaysUpToDate | source/fota_platform_ifs_imp.cpp:41-50 | After every chunk, the line printed last is in the band of five percent that the download is in |
| DownloadProgress.PercentIs | source/fota_platform_ifs_imp.cpp:44-45 | The percentage is the whole part of the exact one |
| RetryBackoff.ConnectNetwork | main.cpp:151-165 | After n failures 5000 * (2^n - 1) milliseconds have been waited, within an int; a reboot exactly if the first nine attempts fail, after 2555000 milliseconds |
| RetryBackoff.Client.Resume | source/pdmc_example.cpp:100-114 | Entered with an error count e of at most 8 it reboots exactly if the first 9 - e attempts fail; with a higher count it never does; waits are claimed up to eighteen failures, beyond which the code leaves an int |
| RetryBackoff.Client.RebootIfThresholdValue | source/pdmc_example.cpp:436-443 | The count rises by one and the reboot comes exactly at the threshold |
| RetryBackoff.Client.StatusHandler | source/pdmc_example.cpp:186-244 | Registering and renewing the registration clear the count, sleeping and unregistering set and clear the pause, and the registration flags follow |
| RetryBackoff.WaitsAddUp | main.cpp:153-158 | The doubling waits add up to the closed form |
| RetryBackoff.WaitFitsIff | main.cpp:151-165 | The doubled wait fits a 32-bit int if and only if there were at most eighteen failures |

## Left out

- TicklessIdle.Timer.SuppressTicksAndSleep: does not promise that the ticks of a call stay below the expected idle time, which is false of the code (see TenTicksTwice) except for the timings that StaysBelowExpectedIff gives. The closed form of its ticks is for calls that end within a period of the expiry, since SysTick pends one interrupt only; the timings that are right one by one are given for calls that begin with no tick pending. Writing VAL is taken to reload the counter at once, and the sub-tick phase after a sleep and drift over several sleeps are not claimed.
- MigrationRecovery.FlagIsSound: absence of the LwM2M keys is promised for honest lookups only, because the code takes a failure with the code for a missing item for absence.
- PortCpu.Cpu.PreserveContext: does not model the registers of the stack monitor (port.c:403-435), only the path its build switch selects; lazy FPU stacking is modelled as already done when the handler runs.
- PortCpu.Cpu.RestoreTask: the SVC that starts the first task shares this path and has no model of its own.
- FlashIap.Flash.Erase: models the linear layout of the flash; the dual-bank branch of get_sector_size does not compile. Ranges whose end wraps around the address space are excluded.
- FlashIap.Flash.Program: buffer and range must not wrap around the address space; the disabled interrupts around each library call are not modelled.
- Migration.Migrator.Migrate: the size of the stored URI is a given, because migrate_kvstore.cpp:74 and :79 take it from the key name; flags of an entry, tracing and overflow of the summed status are not modelled.
- Blinky.BlinkyPlayer.StartPattern: assumes that at most one pattern timer is in flight and that allocation and timer requests succeed; timers that fire after stop, buttons and the automatic increment are not modelled.
- CombineImage.Combine: for applications given as a binary; reading .hex files, their gaps and start addresses are the library's.
- RetryBackoff.Client.Resume: no bound on the error count over the whole program, because the two thresholds 5 and 9 share one counter; the wait of one second before a reboot is not counted.
- DownloadProgress.AtMostTwentyOneLines: the wording of the line is not modelled.
- EventWait.Platform.Wait: EVENT_InitTimer and EVENT_Delete are not modelled; the clock is taken to tick once a millisecond.
- HexArray.DeclarationRead: a name must hold no opening bracket, where the reader takes it to end.
- HexArray.FileReadBack: no line of a name or of the surrounding text may end with an opening brace, which the reader takes for the start of an array.
- SHA-256 and CRC-32 are functions of which only the digest length is used.
- Platform start-up, network and DHCP, FCC and credentials, the client library, download scripts and generated configuration are input/output, foreign code or constants.
