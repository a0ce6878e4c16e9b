# Proofs about shyloo

This project models the parts of the shyloo server framework that change state in the
most involved ways, and proves what they keep over whole runs. `dafny verify
dfyconfig.toml` checks all of it.

| part of the framework | files here |
|---|---|
| five-level timing wheel and the life of a timer | `WheelMath`, `WheelState`, `WheelRuns`, `TimerLife`, `TimerBase`, `WheelLives`, `WheelTimes`, `TimerWheel` |
| intrusive list under the wheel, and the walks of the gears over it | `SLList`, `GearLists` |
| jump lists of the Lua code generator | `LuaCode`, `LuaArrival`, `LuaGen` |
| ring buffer and the two-ring asynchronous pipeline | `CycleQueue`, `AsyncPipeline`, `AsyncHangs` |
| block pool allocator | `SlPool` |
| keyed tables of the data centre | `TableControl` |
| argument lists and binary maps | `Bytes`, `Args`, `BMap` |
| text escaping and character references of TinyXML | `TinyXml`, `XmlReferences` |
| cluster protocols: ids, staged shutdown, full mesh | `IdMgr`, `ShutDown`, `Mesh` |
| reference table of the Lua library | `LuaRef` |
| sequences used as lists by several of them | `Sequences` |

Objects whose methods update their fields are classes with the same fields; each of
their methods is proved against a function of the old state, and what the framework
promises is then proved about that function. Runs of a timer, of the wheel, of the two
threads and of the cluster protocols are sequences of such steps, and the theorems about
them hold for every sequence.

Main results, hardest first:

- The wheel with its timers is a run of a small world: a flat table of (timer, expiry)
  pairs, the run list in order, and the life of every timer there has been
  (`WheelLives.World`). Every operation of the five gears and their timer objects is one
  call in that world, and `process` is as many ticks as the clock asks for and then one
  poll of the head of the run list per round, until the time is up or the list is empty
  (`SLTimerMgr.Process`); all other timers keep their state. After every call of any
  series of them, whatever the rounds and the callbacks, the jiffy counter is the time
  since the first call in units of 20 ms, for every clock that neither goes back nor
  advances 24 days between two calls, and all those calls are these ticks and polls and
  nothing else (`SLTimerMgr.ProcessAll`). Over every run of calls each timer that has been
  started is in exactly one list while it lives and in none when it is dead, and what has
  happened to it is a legal run of its own life (`EveryTimer`). What a callback does to
  other timers comes to the same as if it had been done just before the poll
  (`AskedInCallback`), unless it breaks the run list: the timer now at its head has kept a
  back link to the polled one, and killing or resuming it does so exactly when it is alone
  there (`PollKilling`); at any other time exactly when it is alone there or the polled
  one is in a list again (`KillTimer`, `ResumeTimer`). Ready timers are polled in turn
  (`PolledInTurn`); a ready timer gets off the run list in finitely many rounds exactly
  when it has an interval or a count that comes to an end (`OffIff`), and the polling loop
  runs out of timers exactly when all ready ones do (`PollingEndsIff`).
- With the pointers of the intrusive lists, scheduling, popping, draining a slot and handing
  one down keep all lists of the wheel chained both ways and owned, though every node popped
  on the way leaves a stale back link behind (`GearLists.Wheel`); taking a node out keeps
  them so exactly when the node is not a head whose back link is stale, or that link names a
  node in no list and another node remains (`GearLists.Wheel.Unlink`).
- In the table a timer that is not paused fires in exactly the tick from its expiry to the
  next jiffy, in every run that leaves it alone, if and only if it was scheduled less than
  2^63 jiffies ahead (`FiresAtExpiryIff`). A paused timer slips through exactly when it is
  due at a multiple of 256 and came from a high gear (`PausedIsHeldIff`).
- In milliseconds of the clock: a timer started with a delay of 20 or more gets on the run
  list in the first call of `process` that reads a certain time, within 20 ms of the delay
  after its start, and has no callback before (`SLTimerMgr.StartAndProcess`). A timer polled
  no more than two intervals late keeps its rhythm (`KeepsRhythm`), and one that has been
  paused and resumed is polled exactly as much later as it was paused (`PausedAndResumed`,
  `PausesItselfAndResumed`).
- A timer's life has one of two shapes: `onStart`, then exactly `count` calls of `onTime`,
  none early, then one `onTerminate(false)` and one release; or a prefix of that, one
  `onTerminate(true)` and one release (`NaturalLife`, `KilledLife`).
- The code `exp2reg` leaves behind, run as Lua instructions, reaches its end with the
  expression's value in the register along the true list, the false list, the pending
  jumps and fall-through; no other instruction written before is changed, but for the one
  that is relocated or stretched, no pending jump is lost, and every list that shares no jump
  stays threaded (`FuncState.Exp2Reg`). The jumps pending before still test what they tested
  and land on the next instruction (`FuncState.Code`).
- Every interleaving of the two threads of the asynchronous pipeline executes and
  completes each task once, in order; `add` blocks for ever exactly when 2N+1 tasks are
  outstanding, and `terminate` never returns exactly when the worker still has to push
  into a full complete queue (`PipelineKeepsOrder`, `BlockedForEverIff`, `JoinsForEverIff`).
  Both are reached from the start for every ring size (`AddHangs`, `TerminateHangs`).
  Whatever the worker does meanwhile, a call of `loop` completes the waiting tasks in order,
  in four accesses each (`LoopCall`).
- However nodes register and announcements arrive, the master and its nodes run the mesh
  protocol, and once nothing is on its way each two known nodes are connected once, by the
  node of the larger type or, in one type, by that with the smaller id (`Mesh.Gather`).
- A step of a staged shutdown is over after a series of events exactly when they let go
  everybody it waits for (`StepEndsIff`), and can be brought to an end at all exactly when
  it is a CLOSE step or one of the first 128 (`CanEndIff`). Over every run the nodes known
  are those that have opened and not closed since, and a step selects among those that are
  open when it begins (`SelectedWereOpen`).
- Over every run of the id master and its nodes, however long, no id is allocated twice
  unless the master has made it twice, at least 2^23 milliseconds apart (`SameIdFarApart`),
  and some run does allocate one twice exactly when it has (`NoIdTwiceIff`).
- The pool's free list is a doubly linked list of exactly the free chunks of its blocks
  over every `alloc` and `recover`; the list of blocks stays intact exactly until the block
  at its head is released (`Pool.Recover`).
- What `EncodeString` writes of any bytes, or of well-formed UTF-8 read as such, is read
  back by `ReadText` whatever follows it exactly when the text does not contain `&#x`
  (`ReadsBackIff`). A text of decimal and hexadecimal references to any numbers below 2^32
  is read as their characters (`ReferencesRead`).
- Argument lists and keyed buffers read back as written, and every byte that goes over the
  wire is stated apart from writer and reader (`Args.WireFormat`, `BMap.WireFormat`).

Where a promise of the code fails on some input, the theorem states exactly when it
holds, and where the input takes steps to reach, a program or a run reaches it: removing
the head of a list after `popFront` (`SLList.Remove`, `Wheel.Unlink`, `RemovesBehindPop`,
`LosesRescheduled`), releasing the
head block of a pool (`Pool.FreeChunkList`, `ReleasesHeadBlock`), giving a row the string it
already has as its key (`TableControl.SetKey`, `SameStringAgain`), adding a row whose key is
taken or does not fit (`TableControl.AddRowKey`, `KeyGivenTwice`), an argument that takes the
int16 count of the data past 32767 (`IArgs.Write`, `WrapsAround`), two nodes with the same
negative id (`NobodyLeftOutIff`, `LeftOut`), a timer with neither an interval nor a count
that ends (`OffIff`), a node that closes before it has acknowledged, or a step beyond the 128th, in
a staged shutdown (`NotifyEndsIff`, `CanEndIff`, `ClosedBeforeAck`,
`FarNotifyNeverEnds`), and ids 2^23 milliseconds apart (`SameIdIff`, `IdComesBack`).

Two places where code and comment or name disagree follow the code: the id shift adds
`SEQUENCE_MASK` where `SEQUENCE_BITS` was meant (`src/logic/idmgr/IdMgr.cpp:107`), and the
string form of `changeKey` compares pointers (`src/logic/dccenter/TableControl.cpp:219`).

## Model

| member | source | states |
|---|---|---|
| WheelMath.EntryFor | src/sllib/sltimer/sltimer_mgr.cpp:214-227 | the tick a scheduled timer is owed is its expiry exactly when the distance is below 2^63, and never after it |
| WheelMath.LowestGearThatReaches | src/sllib/sltimer/sltimer_mgr.cpp:209-230 | a waiting timer goes to the lowest gear one circle of which reaches its expiry, into the slot the expiry falls in |
| WheelMath.GearCoversDistance | src/sllib/sltimer/sltimer_mgr.cpp:214-227 | a timer put in a high gear is at least one slot of that gear away, and in all but the last gear less than one turn of it |
| WheelMath.ScheduledIsTimely | src/sllib/sltimer/sltimer_mgr.cpp:209-230 | the slot chosen for a timer is one its gear will pass no later than it is due, for every distance |
| WheelMath.Carry | src/sllib/sltimer/sltimer_gear.cpp:32-37 | a gear comes full circle exactly when the slot of the next gear that begins now is due to be passed |
| WheelMath.NoFurtherCarry | src/sllib/sltimer/sltimer_gear.cpp:32-37 | when a gear is not due to turn, no gear above it is: the recursive cascade may stop there |
| WheelMath.PassedCanBeScheduled | src/sllib/sltimer/sltimer_gear.cpp:46-52 | whoever a high gear hands down has not missed its expiry and can be scheduled again |
| WheelMath.PassingKeepsTimely | src/sllib/sltimer/sltimer_gear.cpp:39-54 | passing a slot of a high gear spoils no timer outside that slot |
| WheelMath.DueNowIsLow | src/sllib/sltimer/sltimer_gear.cpp:24-30 | after the cascade of a tick nobody due in that tick is left in a high gear |
| WheelMath.TickKeepsAligned | src/sllib/sltimer/sltimer_mgr.cpp:181-189 | after a tick each gear's position again matches the bits of the jiffy counter |
| WheelState.PushSound | src/sllib/sltimer/sltimer_mgr.cpp:202-207 | scheduling puts a timer in one slot only and leaves all others where they were |
| WheelState.PassSlot | src/sllib/sltimer/sltimer_gear.cpp:46-54 | emptying the slot a high gear passes leaves the rest sound, and all it held can be given out again |
| WheelState.PutBack | src/sllib/sltimer/sltimer_gear.cpp:48-52 | while a slot is handed down each of its timers is in hand, in a slot or on the run list, in one of them only |
| WheelState.SiftCovers | src/sllib/sltimer/sltimer_gear.cpp:68-84 | draining sorts every timer of the slot to one side: back into the slot if paused, otherwise to the run list |
| WheelState.SiftInOrder | src/sllib/sltimer/sltimer_gear.cpp:68-84 | a timer of a drained slot stands, among those kept or those moved, behind exactly the ones of its kind that were before it |
| WheelState.DrainSound | src/sllib/sltimer/sltimer_gear.cpp:57-90 | draining a low slot keeps exactly its paused timers and moves exactly the others to the run list, each once |
| WheelState.TickMoves | src/sllib/sltimer/sltimer_mgr.cpp:181-189 | cascade and drain together move exactly the timers due in this tick |
| WheelState.RemoveSound | src/sllib/sltimer/sltimer_mgr.cpp:91-94 | taking a waiting timer out of its slot leaves every other timer owed what it was owed |
| WheelRuns.MovesInItsTick | src/sllib/sltimer/sltimer_mgr.cpp:181-189 | over every run that leaves it alone a waiting timer becomes ready in its tick, not before and not after |
| WheelRuns.FiresAtExpiry | src/sllib/sltimer/sltimer_mgr.cpp:181-230 | a timer armed for expiry e < now + 2^63 becomes ready in exactly the tick from e to e+1 |
| WheelRuns.FiresEarlyBeyondRange | src/sllib/sltimer/sltimer_mgr.cpp:224-225 | at a distance of 2^63 or more it is ready after 256 ticks, before it expires |
| WheelRuns.FiresAtExpiryIff | src/sllib/sltimer/sltimer_mgr.cpp:181-230 | firing at the expiry in every run holds if and only if the distance is below 2^63 |
| WheelRuns.PausedIsHeldIff | src/sllib/sltimer/sltimer_gear.cpp:74-77 | a paused timer left alone is polled exactly when it is due at a multiple of 256 and was not put straight into the low gear |
| TimerLife.AdjustNeverPassesNow | src/sllib/sltimer/sltimer_base.cpp:31-36 | adjustExpireTime moves a late expiry towards now, never past it, and leaves others alone |
| TimerLife.AdjustsBy | src/sllib/sltimer/sltimer_base.cpp:31-36 | a timer late by more than one interval is moved on by the number of times the interval goes into its lateness, and by nothing otherwise |
| TimerLife.RecreatedInTime | src/sllib/sltimer/sltimer_mgr.cpp:191-195 | a timer polled no more than two intervals late is put back exactly one interval on |
| TimerLife.KeepsRhythm | src/sllib/sltimer/sltimer_mgr.cpp:142-195 | over any number of polls, none more than two intervals late, a timer that is still alive expires that many intervals after its first expiry |
| TimerLife.RecreatedBounds | src/sllib/sltimer/sltimer_mgr.cpp:191-195 | re-creation moves the expiry on by at least one interval and to at most one interval past now |
| TimerLife.LateTimerCatchesUp | src/sllib/sltimer/sltimer_mgr.cpp:191-195 | re-created again and again, a late expiry is past now after finitely many rounds and at most one interval ahead; `WheelLives.OffIff` says what the polling loop makes of it |
| TimerLife.StepStaysSane | src/sllib/sltimer/sltimer_mgr.cpp:101-140 | over polls, pauses and resumes no expiry overflows or goes back, and each poll moves it on by an interval |
| TimerLife.ResumeKeepsRest | src/sllib/sltimer/sltimer_mgr.cpp:118-140 | what was left of a timer's time when it was paused is left when it is resumed, and nothing else of it changes |
| TimerLife.StepKeepsShape | src/sllib/sltimer/sltimer_base.cpp:38-104 | each thing done to a timer keeps its callbacks in order, counted and not early, and ends it only by a kill or its last call |
| TimerLife.EveryLifeHasShape | src/sllib/sltimer/sltimer_base.cpp:38-104 | over every legal run the callbacks are onStart, then onTime no earlier than its interval, then one onTerminate and one release |
| TimerLife.NaturalLife | src/sllib/sltimer/sltimer_base.cpp:38-65 | without a kill a timer with count k ends exactly after its onStart and k times onTime, with onTerminate(false) and one release |
| TimerLife.KilledLife | src/sllib/sltimer/sltimer_mgr.cpp:79-99 | one kill, from outside or from inside a callback, is the last thing that happens: one onTerminate(true), one release, nothing after |
| TimerLife.CalledWhenPolled | src/sllib/sltimer/sltimer_base.cpp:38-83 | over every legal run the callbacks made stay in the log, and each new onStart and onTime is made at the jiffy of a poll of the run |
| WheelLives.DoKeeps | src/sllib/sltimer/sltimer_mgr.cpp:60-200 | every start, kill, pause, resume, tick and poll keeps exactly the live timers in a list, each in one, with the expiry it has and the ready ones expired |
| WheelLives.RunsTable | src/sllib/sltimer/sltimer_mgr.cpp:60-230 | every run of the wheel with its timers is a run of the flat table, so what is promised of the table holds of it |
| WheelLives.OwnLife | src/sllib/sltimer/sltimer_mgr.cpp:60-200 | over every run of the wheel what happens to one timer is a legal run of its life |
| WheelLives.EveryTimer | src/sllib/sltimer/sltimer_mgr.cpp:60-200 | from its start on a timer is in exactly one list while it lives and in none afterwards, and its callbacks are those of a whole life, forced to an end exactly if it was killed |
| WheelLives.PolledOnlyWhenDue | src/sllib/sltimer/sltimer_mgr.cpp:142-189 | a waiting timer that nobody touches has no callback up to its expiry, and from the tick behind it on is on the run list until it is polled |
| WheelLives.PolledInTurn | src/sllib/sltimer/sltimer_mgr.cpp:152-168 | with as many rounds as there are ready timers, or fewer, the first of them have been polled exactly once each, in order, and nobody else's state has changed |
| WheelLives.OffIff | src/sllib/sltimer/sltimer_mgr.cpp:152-168 | a ready timer, in whatever company, is off the run list after finitely many rounds exactly when it has an interval or a count that comes to an end, whatever the callbacks do to their own timers and however late it is |
| WheelLives.PollingEndsIff | src/sllib/sltimer/sltimer_mgr.cpp:152-168 | the polling loop empties the run list in finitely many rounds exactly when every ready timer has an interval or a count that comes to an end |
| WheelLives.AskedInCallback | src/sllib/sltimer/sltimer_mgr.cpp:156-167 | starts, kills, pauses and resumes of other timers from within the callback of the head come to the same as if they had been done just before the poll; that holds of the wheel as long as its lists survive, and which kill or resume of the next head breaks the run list `KillTimer` and `ResumeTimer` state exactly |
| WheelTimes.FirstCallback | src/sllib/sltimer/sltimer_mgr.cpp:142-189 | over any calls of process, a waiting timer has no callback and is not ready up to the call that brings the counter past its expiry, and in that call is ready before the first poll |
| WheelTimes.RestIsKept | src/sllib/sltimer/sltimer_mgr.cpp:118-189 | a paused timer that is resumed is owed the tick of its expiry moved on by the time since its pause: it is not polled up to then, and on the run list from then on until it is |
| WheelTimes.PausedAndResumed | src/sllib/sltimer/sltimer_mgr.cpp:101-189 | a timer paused at one jiffy and resumed at another, whatever is done to others meanwhile, is polled later by exactly the jiffies between |
| WheelTimes.PausesItselfAndResumed | src/sllib/sltimer/sltimer_mgr.cpp:101-189 | the same for a timer that pauses itself in a callback which is not its last |
| TimerBase.CSLTimerBase.constructor | src/sllib/sltimer/sltimer_base.cpp:10-19 | a new timer waits for its start, with no callback made |
| TimerBase.CSLTimerBase.OnEnd | src/sllib/sltimer/sltimer_base.cpp:98-104 | the user is told, and the memory is released unless a callback of this timer is on the stack |
| TimerBase.CSLTimerBase.PollTimer | src/sllib/sltimer/sltimer_base.cpp:38-65 | the timer and the verdict after a poll, also when its callback kills it |
| TimerBase.CSLTimerBase.AdjustExpireTime | src/sllib/sltimer/sltimer_base.cpp:31-36 | the expiry becomes the adjusted one, in 64-bit arithmetic |
| TimerBase.CSLTimerBase.PollStep | src/sllib/sltimer/sltimer_mgr.cpp:160-167 | poll and verdict handling together are one step of the timer's life; only a re-created timer is still alive |
| TimerWheel.StartedTimer | src/sllib/sltimer/sltimer_mgr.cpp:60-77 | a timer started with a delay of 0 or more is at the beginning of a life and within the range in which the wheel is exact |
| TimerWheel.InJiffies | src/sllib/sltimer/sltimer_mgr.cpp:60-67 | delay and interval in milliseconds, between 20 times the jiffies used for them and 19 more; a shorter one that is not 0 is one jiffy |
| TimerWheel.ClockLemma | src/sllib/sltimer/sltimer_mgr.cpp:143-150 | crediting count * 10 ms keeps counter and clock together unless the clock went back 10 ms or more; after a call less than 2^31 ms behind the last the counter is floor((tick - first) / 20) and the credited time less than 10 ms behind the clock |
| TimerWheel.SLTimerMgr.constructor | src/sllib/sltimer/sltimer_mgr.cpp:18-32 | a new wheel is an empty table at jiffy 0, without timers |
| TimerWheel.SLTimerMgr.Schedule | src/sllib/sltimer/sltimer_mgr.cpp:202-207 | the timer is appended to the run list if it has expired, otherwise it waits in the slot chosen for it; nothing else moves |
| TimerWheel.SLTimerMgr.Reschedule | src/sllib/sltimer/sltimer_gear.cpp:48-52 | all timers taken from a slot wait again with the same entry, except those that expire now, which join the run list |
| TimerWheel.SLTimerMgr.UpdateToLowGear | src/sllib/sltimer/sltimer_gear.cpp:32-55 | the recursive cascade ends, passes the due slot of this gear and all above, and loses no timer |
| TimerWheel.SLTimerMgr.CheckHighGear | src/sllib/sltimer/sltimer_gear.cpp:24-30 | before a tick all due high slots are handed down, and only at a multiple of 256 can that fill the run list |
| TimerWheel.SLTimerMgr.Sift | src/sllib/sltimer/sltimer_gear.cpp:68-80 | the paused timers of a slot are kept in order and the others go to the run list in order |
| TimerWheel.SLTimerMgr.DrainLow | src/sllib/sltimer/sltimer_gear.cpp:57-90 | the low slot under the hand gives exactly its unpaused timers to the run list, and the hand moves on and wraps |
| TimerWheel.SLTimerMgr.OnJiffiesUpdate | src/sllib/sltimer/sltimer_mgr.cpp:181-189 | a tick of the five gears is a tick of the flat table |
| TimerWheel.SLTimerMgr.Update | src/sllib/sltimer/sltimer_mgr.cpp:173-179 | every second update is a tick, of the timers as of the table |
| TimerWheel.SLTimerMgr.Arm | src/sllib/sltimer/sltimer_mgr.cpp:202-207 | between ticks, scheduling a timer is arming it in the flat table |
| TimerWheel.SLTimerMgr.StartTimer | src/sllib/sltimer/sltimer_mgr.cpp:60-77 | the new timer expires its delay later, in whole jiffies of 20 ms rounded down and at least one unless the delay is 0, its interval likewise; it is at the beginning of its life and armed in the flat table, and every other timer is as before |
| TimerWheel.SLTimerMgr.KillTimer | src/sllib/sltimer/sltimer_mgr.cpp:79-99 | a live timer ends by force with one release and leaves its list, and no other timer changes; a dead one is refused and nothing changes; the wheel stays valid exactly unless the timer heads the run list with a stale back link and either is alone there or the link names a listed timer |
| TimerWheel.SLTimerMgr.PauseTimer | src/sllib/sltimer/sltimer_mgr.cpp:101-116 | state and pause time are set and the table holds the timer back if it is waiting; a dead timer is left alone, and so is every other |
| TimerWheel.SLTimerMgr.ResumeTimer | src/sllib/sltimer/sltimer_mgr.cpp:118-140 | a paused timer is taken out of its list and armed so that as many jiffies are left to its expiry as were left when it was paused, and any other is left alone; the wheel stays valid exactly under the same condition |
| TimerWheel.SLTimerMgr.PopRunList | src/sllib/sltimer/sltimer_mgr.cpp:156-158 | the oldest ready timer leaves the run list, and it has expired |
| TimerWheel.SLTimerMgr.BeginPoll | src/sllib/sltimer/sltimer_mgr.cpp:156-158 | the head of the run list, which has expired, is in no list while its callback runs; the timer behind it keeps a back link to it |
| TimerWheel.SLTimerMgr.EndPoll | src/sllib/sltimer/sltimer_mgr.cpp:160-167 | the timer whose callback ran makes one step of its life and is armed again exactly if it is still alive, whatever has been done to other timers meanwhile |
| TimerWheel.SLTimerMgr.PollOne | src/sllib/sltimer/sltimer_mgr.cpp:156-167 | one round in which the callback leaves other timers alone polls the head of the run list: one step of that timer's life, which is armed again exactly if it is still alive, and no other timer changes |
| TimerWheel.SLTimerMgr.PollKilling | src/sllib/sltimer/sltimer_mgr.cpp:156-167 | a round whose callback kills another timer is the same as killing it and then polling, and leaves the wheel valid exactly unless that timer is the only other one on the run list |
| TimerWheel.SLTimerMgr.PollAll | src/sllib/sltimer/sltimer_mgr.cpp:152-168 | the polling loop polls the head of the run list once a round and does nothing else, and ends with the time or with the list |
| TimerWheel.SLTimerMgr.Process | src/sllib/sltimer/sltimer_mgr.cpp:142-171 | one call is as many ticks as the clock asks for and then one poll of the head of the run list per round, until the time is up or the list is empty; all other timers keep their state; on the first call and on every one less than 2^31 ms behind the last the counter becomes floor((tick - first) / 20), and counter and clock stay together exactly if the clock has not gone back 10 ms |
| TimerWheel.SLTimerMgr.ProcessFrom | src/sllib/sltimer/sltimer_mgr.cpp:142-171 | after any calls of process, further ones with readings that do not go back: after each the counter is the time since the very first, in units of 20 ms, and each is its ticks and then its polls |
| TimerWheel.SLTimerMgr.StartAndProcess | src/sllib/sltimer/sltimer_mgr.cpp:60-77 | started with a positive delay after any calls of process, a timer has no callback while the clock reads less than a time within 20 ms of its delay (within 40 ms of now for delays below 20), and is on the run list before any poll in the first call that reads that or more, whatever happens to other timers |
| TimerWheel.SLTimerMgr.ProcessAll | src/sllib/sltimer/sltimer_mgr.cpp:142-171 | a new wheel whose process is called with any readings that do not go back, each less than 2^31 - 9 ms behind the one before and none 2^63 ms behind the first: after every call the jiffy counter is the time since the first, in units of 20 ms; each call is as many ticks as the counter advances and then one poll per round, until the rounds given or the run list are used up; and all calls together are one possible run of the world |
| IntrusiveList.SLList.PushBack | src/public/sllist.h:34-45 | the node is appended, and every soundness of the links is kept |
| IntrusiveList.SLList.PopFront | src/public/sllist.h:47-60 | the head leaves; the forward chain stays sound, and no stale back link is left exactly if the list is now empty |
| IntrusiveList.SLList.Remove | src/public/sllist.h:66-91 | the node is cut out if it is owned here; with a sound head all links stay sound, and otherwise it is stated exactly when this list and each other list survives |
| IntrusiveList.SLList.RemoveStaleHead | src/public/sllist.h:73-90 | what removing a head with a stale back link does to this list and to each other |
| IntrusiveList.SLList.Swap | src/public/sllist.h:93-96 | the nodes change lists, with their links, but not owners |
| IntrusiveList.SLList.Merge | src/public/sllist.h:98-110 | the second list is appended; back links and owners stay sound exactly if one of the lists was empty, respectively the second |
| IntrusiveList.RemovesBehindPop | src/public/sllist.h:47-91 | a program: the first node of one list moves to the end of another, its follower is removed, and the other list is no longer chained |
| IntrusiveList.LosesRescheduled | src/public/sllist.h:34-91 | a program: the first of two nodes is popped, the other one removed and the first put back; the list is empty, though it is the node's list and the node is its tail and its own successor |
| GearLists.Move | src/public/sllist.h:34-60 | moving the first node of a list to the end of another keeps both chained both ways, and no list of the wheel notices |
| GearLists.Drain | src/sllib/sltimer/sltimer_gear.cpp:57-90 | on the pointers: the slot keeps exactly its paused nodes with all links and owners sound, the others are appended to the run list in order, and that stays linked |
| GearLists.HandOut | src/sllib/sltimer/sltimer_gear.cpp:39-55 | on the pointers: each node of the slot goes to the end of the list chosen for it, in order, no node gets lost or into two lists, and every list of the wheel stays linked and owned |
| GearLists.Wheel.Put | src/sllib/sltimer/sltimer_mgr.cpp:202-207 | on the pointers: a node in no list goes to the end of the chosen one, and all lists of the wheel stay linked and owned, those of the slots with a clean head |
| GearLists.Wheel.PopReady | src/sllib/sltimer/sltimer_mgr.cpp:156-158 | the first node of the run list is in no list any more, the next one keeps a back link to it, and all lists stay linked and owned |
| GearLists.Wheel.DrainSlot | src/sllib/sltimer/sltimer_gear.cpp:57-90 | `Drain` within the wheel: all other lists are as they were, and the invariant of all lists is kept |
| GearLists.Wheel.HandDown | src/sllib/sltimer/sltimer_gear.cpp:39-55 | `HandOut` within the wheel keeps the invariant of all lists |
| GearLists.Wheel.Unlink | src/public/sllist.h:66-91 | the node leaves its list, and the invariant of all lists is kept exactly unless the node heads the run list with a stale back link and either is alone there or the link names a node in a list |
| LuaCode.ThreadedNoDup | src/logic/scriptengine/lua/lcode.c:117-123 | a list of jumps threaded through their offsets has no cycle |
| LuaCode.ThreadedWalk | src/logic/scriptengine/lua/lcode.c:117-123 | following getjump visits the jumps of the list one after the other and ends behind the last |
| LuaCode.HookedThreads | src/logic/scriptengine/lua/lcode.c:215-226 | hooking one list to the end of a disjoint one threads exactly the first followed by the second |
| LuaCode.PatchedKeepsList | src/logic/scriptengine/lua/lcode.c:167-177 | patching one list leaves every disjoint list threaded and its controls as they were |
| LuaCode.FixKeepsList | src/logic/scriptengine/lua/lcode.c:97-104 | re-aiming a jump leaves the lists it is not in as they were |
| LuaCode.PatchedStep | src/logic/scriptengine/lua/lcode.c:167-177 | one round of the patching loop patches exactly one more jump of the list |
| LuaCode.RetargetedTests | src/logic/scriptengine/lua/lcode.c:148-158 | the patched control of a jump, run as an instruction, goes on as the TESTSET did, and leaves the tested value in the register asked for, if any |
| LuaCode.LandedLands | src/logic/scriptengine/lua/lcode.c:180-183 | with the pending jumps landed, a pending jump goes to the end of the code as it was, and its control, without a register now, tests what it tested and changes nothing |
| LuaGen.FuncState.FixJump | src/logic/scriptengine/lua/lcode.c:97-104 | the jump is aimed at dest, and refused exactly when the offset does not fit |
| LuaGen.FuncState.Concat | src/logic/scriptengine/lua/lcode.c:215-226 | the result threads exactly the first list followed by the second |
| LuaGen.FuncState.PatchTestReg | src/logic/scriptengine/lua/lcode.c:148-158 | only the control of a value-carrying jump is changed; run, it still goes on exactly as the TESTSET did, with the tested value in the register if there is one and with no register changed otherwise |
| LuaGen.FuncState.NeedValue | src/logic/scriptengine/lua/lcode.c:139-145 | true exactly when some jump of the list carries no value |
| LuaGen.FuncState.PatchListAux | src/logic/scriptengine/lua/lcode.c:167-177 | exactly the list's jumps are re-aimed, by whether they carry a value, with their controls and nothing else; the default target is never used unset |
| LuaGen.FuncState.DischargeJpc | src/logic/scriptengine/lua/lcode.c:180-183 | exactly the pending jumps are aimed here and none is pending any more; run, each lands here, and the TESTSET in front of it still tests what it tested and changes nothing |
| LuaGen.FuncState.Code | src/logic/scriptengine/lua/lcode.c:229-241 | the instruction is appended, and the pending jumps land on it, their TESTSETs testing what they tested and changing nothing |
| LuaGen.FuncState.Jump | src/logic/scriptengine/lua/lcode.c:76-83 | the new jump is followed by the formerly pending ones in its list |
| LuaGen.FuncState.PatchToHere | src/logic/scriptengine/lua/lcode.c:209-212 | the list joins the pending jumps |
| LuaGen.FuncState.NilTo | src/logic/scriptengine/lua/lcode.c:54-73 | a new LOADNIL is emitted, on which the pending jumps land, or, only if no jump comes to the end of the code, the previous one is replaced by one that clears exactly both ranges |
| LuaGen.FuncState.Discharge2Reg | src/logic/scriptengine/lua/lcode.c:445-485 | the expression's value gets into the register by the instruction emitted or relocated; of the code before, the pending jumps are landed or one instruction that is no jump and no test is replaced, and nothing else; jumps are still pending exactly if no instruction was emitted, and otherwise land there with tests as before; a nil is never merged where a jump comes to; its jump lists stay as they were |
| LuaGen.FuncState.JoinTrueList | src/logic/scriptengine/lua/lcode.c:498-499 | a comparison's own jump becomes the last of its true list |
| LuaGen.FuncState.Exp2Reg | src/logic/scriptengine/lua/lcode.c:496-517 | every path through the true list, the false list, pending jumps or fall-through reaches the end with the expression's value in the register; of the code before, nothing changes but these jumps with their TESTSETs and what discharging changed, and all lists without a common jump stay threaded; the jumps pending before are landed on the instruction emitted, with tests as before, or are still to come; the end is marked as a target if the expression has jumps, and without any nothing but the discharging happens |
| LuaArrival.FalseListArrives | src/logic/scriptengine/lua/lcode.c:511 | every jump of the false list reaches the end, with the tested value if it carries one and false otherwise |
| LuaArrival.TrueListArrives | src/logic/scriptengine/lua/lcode.c:512 | every jump of the true list reaches the end, with the tested value if it carries one and true otherwise |
| LuaArrival.ArrivesWithoutLoads | src/logic/scriptengine/lua/lcode.c:504-512 | when every jump carries a value no LOADBOOL is needed and all paths arrive |
| LuaArrival.ArrivesPastLoads | src/logic/scriptengine/lua/lcode.c:504-512 | with the two LOADBOOLs behind a jump, jumps arrive through them and fall-through passes them |
| LuaArrival.ArrivesFromComparison | src/logic/scriptengine/lua/lcode.c:498-512 | a comparison that falls through loads false, and its own jump loads true |
| LuaArrival.SettledPastLoads | src/logic/scriptengine/lua/lcode.c:504-512 | with the two LOADBOOLs behind a jump every path arrives, and nothing but the jumps of the expression and their TESTSETs has changed |
| LuaArrival.SettledFromComparison | src/logic/scriptengine/lua/lcode.c:498-512 | the same for a comparison that falls through |
| LuaArrival.FrameKeepsList | src/logic/scriptengine/lua/lcode.c:496-517 | a list without a common jump stays threaded through all that patching does |
| LuaArrival.EmissionMeans | src/logic/scriptengine/lua/lcode.c:445-485 | the instruction emitted for a kind of expression puts that expression's value into the register |
| LuaArrival.DischargedKeeps | src/logic/scriptengine/lua/lcode.c:445-485 | discharging leaves every list that holds no pending jump threaded and its controls unchanged |
| Ring.ReadTakesOldest | src/public/slcycle_queue.h:22-29 | moving the front takes exactly the oldest element and leaves the ring not full |
| Ring.PushAppends | src/public/slcycle_queue.h:31-38 | writing and moving the tail appends exactly one element |
| Ring.CycleQueue.Read | src/public/slcycle_queue.h:22-29 | the oldest element, or a refusal exactly when the ring is empty |
| Ring.CycleQueue.Push | src/public/slcycle_queue.h:31-38 | the element is appended as soon as there is room; a full ring makes push wait until the other thread has read something, and until then nothing changes |
| AsyncPipeline.MoveKeepsInv | src/public/slcycle_queue.h:22-46 | every single access of either thread keeps both rings sound and every task in one place |
| AsyncPipeline.PipelineKeepsOrder | src/kernel/async/slasync_thread.cpp:25-53 | in every interleaving the tasks added are those completed, completing, in the complete queue, in the worker's hand, in the running queue and being added, in order; no slot is overwritten before it is read or read before it is written |
| AsyncPipeline.AddGetsThrough | src/kernel/async/slasync_thread.cpp:25-27 | with fewer than 2N+1 tasks outstanding, a bounded number of worker steps makes room for add |
| AsyncPipeline.BlockedForEverIff | src/kernel/async/slasync_thread.cpp:25-53 | add does not return in any continuation exactly when 2N+1 tasks are outstanding |
| AsyncPipeline.LoopCall | src/kernel/async/slasync_thread.cpp:29-41 | while its time is not up a call of loop has, after four accesses for each, completed the first tasks of the complete queue in order, whatever the worker does meanwhile |
| AsyncPipeline.LoopReturnsIff | src/kernel/async/slasync_thread.cpp:29-41 | loop returns exactly when it finds the ring empty or its time is up after a task |
| AsyncPipeline.JoinsForEverIff | src/kernel/async/slasync_thread.cpp:20-23 | terminate never returns exactly when the complete queue is full and the worker has still to push |
| AsyncHangs.AddHangs | src/kernel/async/slasync_thread.cpp:25-53 | from the start, for every N of at least 1, the threads can come to where add never returns |
| AsyncHangs.TerminateHangs | src/kernel/async/slasync_thread.cpp:20-53 | from the start, for every N of at least 1, they can come to where terminate never returns |
| AsyncOutcome.AsyncBase.OnExecute | src/kernel/async/slasync_base.cpp:7-12 | the handler runs exactly if the task is still valid, and its answer is kept |
| AsyncOutcome.AsyncBase.Trip | src/kernel/async/slasync_base.cpp:7-21 | the handler hears of success exactly if it ran and said yes, and otherwise whether it ran; invalidating afterwards changes nothing |
| SlPool.Pool.CountsAdd | src/public/slpool.h:49 | free and used chunks together are chunkCount * chunkSize |
| SlPool.Pool.constructor | src/public/slpool.h:37-39 | a new pool has one block, all of whose chunks are free |
| SlPool.Pool.Alloc | src/public/slpool.h:70-88 | a chunk not in use is handed out, the first free one if there is one, otherwise one of a new block |
| SlPool.Pool.Recover | src/public/slpool.h:90-102 | the chunk is free again; its block is released exactly if that was its last one in use and more blocks than are kept exist; the block list stays intact exactly unless that block was its head |
| SlPool.Pool.AllocChunk | src/public/slpool.h:104-118 | one more block, linked in front of the block list, its chunks in front of the free list |
| SlPool.Pool.ArrangeChunkList | src/public/slpool.h:120-133 | all chunks of the block join the free list and know their block |
| SlPool.Pool.FreeChunkList | src/public/slpool.h:135-155 | all chunks of the block leave the free list before it is released; the block list stays intact exactly if the block was not its head |
| SlPool.Pool.Add | src/public/slpool.h:157-163 | the chunk becomes the head of the doubly linked free list |
| SlPool.Pool.Remove | src/public/slpool.h:165-177 | the chunk leaves the free list wherever it was in it, and the links close |
| SlPool.ReleasesHeadBlock | src/public/slpool.h:147-148 | two blocks of one chunk and one recover leave the head of the block list at a released block |
| Tables.FoundIffPresent | src/logic/dccenter/TableControl.cpp:26-48 | a key is in the index exactly when some row has it, and leads to that row |
| Tables.AlikeIff | src/logic/dccenter/TableControl.h:8-17 | the index takes two keys for the same exactly if they are equal or are strings that agree in their first 64 characters and have at least as many |
| Tables.LeadsTo | src/logic/dccenter/TableControl.cpp:26-48 | a key is in the index exactly if some row's key is the same up to the 64th character, and no other row has such a key |
| Tables.AddAgrees | src/logic/dccenter/TableControl.cpp:70-94 | index and rows still agree after an addition exactly when the key was new and fits its column |
| Tables.SwapAgrees | src/logic/dccenter/TableControl.cpp:96-158 | a swap keeps index and rows in agreement and the rows by key as they were |
| Tables.ReindexedAt | src/logic/dccenter/TableControl.cpp:226-263 | reindexing from a position gives every key from there on its row's position and touches no other |
| Tables.DeleteAgrees | src/logic/dccenter/TableControl.cpp:160-206 | erasing the key, the row and reindexing keeps index and rows in agreement |
| Tables.DeleteRow | src/logic/dccenter/TableControl.cpp:160-206 | the rows by key lose the deleted one and no other |
| Tables.RekeyAgrees | src/logic/dccenter/TableControl.cpp:208-224 | a change of key keeps agreement exactly when the new key was not in the index |
| Tables.SameKeyIsForgotten | src/logic/dccenter/TableControl.cpp:217-224 | giving a row a string equal to its key takes it out of the index |
| Tables.TableControl.FindRow | src/logic/dccenter/TableControl.cpp:26-48 | a row is found exactly if one has the key, up to the 64th character of a string; it is that row, at its own index, and there is no second one |
| Tables.TableControl.AddRow | src/logic/dccenter/TableControl.cpp:59-68 | a table without key column gets a new last row; any other refuses |
| Tables.TableControl.AddRowKey | src/logic/dccenter/TableControl.cpp:70-94 | the row is appended with its index and its key, which stays empty if the string and its end do not fit; the table stays valid exactly if the key fits and no row's key is the same up to the 64th character |
| Tables.KeyGivenTwice | src/logic/dccenter/TableControl.cpp:70-94 | a program: two rows are added with the same integer, and the key leads to the first only |
| Tables.TableControl.ClearRows | src/logic/dccenter/TableControl.cpp:50-58 | no row and no key is left |
| Tables.TableControl.SwapRowIndex | src/logic/dccenter/TableControl.cpp:96-158 | the two rows change places, index and row numbers follow, and the rows by key are as before |
| Tables.TableControl.DelRow | src/logic/dccenter/TableControl.cpp:160-206 | the row is gone, those behind it move up with their index, and the rows by key lose only it |
| Tables.TableControl.UpdateRowKeyIndex | src/logic/dccenter/TableControl.cpp:226-263 | every row from the position on has its position as index and in the key index |
| Tables.TableControl.ChangeKey | src/logic/dccenter/TableControl.cpp:208-224 | the index moves to the new key, unless the integers are equal or the pointers are |
| Tables.TableControl.SetKey | src/logic/dccenter/TableRow.cpp:63-79 | the row has the new key; the table stays valid exactly if no row's key is the same up to the 64th character, or it is the same integer or the same buffer; a string that does not fit changes nothing |
| Tables.SameStringAgain | src/logic/dccenter/TableRow.cpp:63-79 | a program: a row is given the string it has, stays in the table and is in the index no more |
| Tables.TableControl.DelTableRow | src/logic/interface/IDCCenter.h:74-83 | swap with the last and delete leaves the same rows by key as deleting directly |
| Args.OffsetReads | src/public/slargs.h:18-21 | the offset of an argument is read back as the int16 it was written as |
| Args.RoundTrip | src/public/slargs.h:33-119 | a context made of any argument list with up to 32767 bytes of data gives back the count and each argument's type and value, and a getter of another type gives nothing |
| Args.WireFormat | src/public/slargs.h:6-31 | the bytes of a context: the count in four, the descriptors from the last argument to the first, each its type's number and the bytes before its data, six bytes more, and the data from the first argument to the last, a string with its zero, a struct behind its size |
| Args.IArgs.constructor | src/public/slargs.h:126-130 | a new list is empty |
| Args.IArgs.Write | src/public/slargs.h:260-273 | an argument is accepted exactly if the list is not fixed and has room for descriptor and data; a refused one changes no byte, and an accepted one keeps the list in order exactly if the data is then no longer than 32767 bytes |
| Args.IArgs.WriteScalar | src/public/slargs.h:132-158 | accepted exactly if there is room for its width, and then it is the last argument; in order exactly up to 32767 bytes of data |
| Args.IArgs.WriteString | src/public/slargs.h:160-173 | accepted exactly if there is room for the string and its zero; in order exactly up to 32767 bytes of data |
| Args.IArgs.AddStruct | src/public/slargs.h:175-191 | accepted exactly if there is room for the size and the bytes; in order exactly up to 32767 bytes of data |
| Args.IArgs.Fix | src/public/slargs.h:245-254 | the context holds count, descriptors and data of exactly what was accepted, and OArgs reads every argument back in order |
| Args.WrapsAround | src/public/slargs.h:260-273 | a program: one string of 32767 characters in a list with room for 40000 bytes makes the count of the data negative, and with it the size of the context that would be handed out |
| BMap.OBMap.constructor | src/public/slbinary_map.h:13-38 | of any bytes, every whole descriptor is read, oldest first, and the last one for a key is the one that counts |
| BMap.UpsRead | src/public/slbinary_map.h:13-38 | descriptors are read as they were written |
| BMap.WireFormat | src/public/slbinary_map.h:98-167 | the bytes of a context: the size of the descriptors, the descriptors from the last to the first, each offset and key in four bytes, and the data |
| BMap.GivesAt | src/public/slbinary_map.h:40-76 | where a key's offset points at an item's bytes, the getter of its type gives the item |
| BMap.FoundNew | src/public/slbinary_map.h:98-167 | a new value replaces the key's old one and disturbs no other key |
| BMap.IBMap.Write | src/public/slbinary_map.h:98-167 | a value counts for its key exactly if both data and descriptor had room |
| BMap.IBMap.Fix | src/public/slbinary_map.h:124-133 | the context is the size of the descriptors, the descriptors and the data |
| BMap.RoundTrip | src/public/slbinary_map.h:12-167 | reading what was fixed gives the last value accepted for each key, and no other key is known |
| TinyXml.EncodeString | src/sllib/slxml/tinyxml.cpp:52-133 | the loop computes the escaping that the round trip is proved of |
| TinyXml.PassThrough | src/sllib/slxml/tinyxml.cpp:75-81 | a hexadecimal reference is copied up to its semicolon, or up to the last character of the text |
| TinyXml.EncodedIsEscaped | src/sllib/slxml/tinyxml.cpp:52-133 | without a hexadecimal reference each character is escaped by itself |
| TinyXml.CharReads | src/sllib/slxml/tinyxml.h:327-361 | each character reads back from its escape, and no escape looks like the closing quote |
| TinyXml.EntityReads | src/sllib/slxml/tinyxmlparser.cpp:514-524 | each of the five named entities reads back as its character |
| TinyXml.ControlReads | src/sllib/slxml/tinyxmlparser.cpp:445-512 | each hexadecimal reference of a control character reads back as it |
| TinyXml.RunReads | src/sllib/slxml/tinyxml.h:347-355 | a multi-byte character is copied whole |
| TinyXml.StrchrSemi | src/sllib/slxml/tinyxmlparser.cpp:457 | the first semicolon before the end of the string |
| TinyXml.ReadBack | src/sllib/slxml/tinyxmlparser.cpp:462-476 | the digits between the # or x and the semicolon are read as their number, exact below 2^32 and modulo 2^32 otherwise; with anything else between, the reference is refused |
| TinyXml.BackReads | src/sllib/slxml/tinyxmlparser.cpp:462-476 | for digits of any number, reading them from the semicolon back with a growing multiplier gives their positional value |
| TinyXml.ReadText | src/sllib/slxml/tinyxmlparser.cpp:574-637 | the text read up to the end tag, character by character as `ReferencesRead`, `AmpersandDropped`, `StrayByte` and the round trip tell, and the position behind the tag |
| TinyXml.RoundTrip | src/sllib/slxml/tinyxmlparser.cpp:574-637 | the escaped text, read up to a closing quote with anything behind, is the text, in both encodings |
| TinyXml.NeverLonger | src/sllib/slxml/tinyxml.cpp:60-82 | a text never reads back longer than it was, and shorter when a reference was passed through |
| TinyXml.ReadsBackIff | src/sllib/slxml/tinyxml.cpp:52-133 | in both encodings a text reads back whatever follows exactly when no hexadecimal reference begins in it |
| TinyXml.WellFormedIsComplete | src/sllib/slxml/tinyxmlparser.cpp:66-85 | well-formed UTF-8 is made of the characters the byte table delimits |
| TinyXml.Utf8OfReads | src/sllib/slxml/tinyxmlparser.cpp:88-126 | the bytes written for a code point are one well-formed character with that code point |
| TinyXml.Utf8OfBeyond | src/sllib/slxml/tinyxmlparser.cpp:88-126 | behind the last code point a number below 2^21 is written in four bytes that hold it, and a larger one not at all |
| XmlReferences.ReferenceRead | src/sllib/slxml/tinyxmlparser.cpp:435-512 | the decimal digits of any number below 2^32 between &# and a semicolon, or its hexadecimal ones in either case behind &#x, are read as its character: in UTF-8, or the lowest byte |
| XmlReferences.ReferencesRead | src/sllib/slxml/tinyxmlparser.cpp:574-637 | a text of such references up to an end tag is read as their characters, in order |
| XmlReferences.AmpersandDropped | src/sllib/slxml/tinyxmlparser.cpp:514-531 | an ampersand that begins no entity and no number is left out, and reading goes on behind it |
| XmlReferences.UnendedNumber | src/sllib/slxml/tinyxmlparser.cpp:452-460 | a reference without a semicolon ends the reading |
| XmlReferences.NotDecimal | src/sllib/slxml/tinyxmlparser.cpp:482-499 | a decimal reference with anything but digits before its semicolon ends the reading |
| XmlReferences.NotHexadecimal | src/sllib/slxml/tinyxmlparser.cpp:450-478 | so does a hexadecimal one |
| XmlReferences.StrayByte | src/sllib/slxml/tinyxmlparser.cpp:66-85 | a byte that begins no character of several bytes is read by itself |
| XmlReferences.EntityNames | src/sllib/slxml/tinyxmlparser.cpp:43-50 | the five entities have their names in XML 1.0, and a control character is written as &#x, the two capital hexadecimal digits of its number and a semicolon |
| XmlReferences.NoMarkup | src/sllib/slxml/tinyxml.cpp:52-133 | without a hexadecimal reference in the text, what is written holds no angle bracket, quote or control character |
| Ids.TickBits | src/logic/idmgr/IdMgr.cpp:107 | of the 49 masked bits of the tick 23 survive the shift |
| Ids.FieldsRead | src/logic/idmgr/IdMgr.cpp:107 | sequence, area and the 23 low bits of the tick can be read off an id, from bit 0, bit 5 and bit 41 on, and the bits between are zero |
| Ids.SameIdIff | src/logic/idmgr/IdMgr.cpp:107 | two ids are equal exactly when sequence, area modulo 1024 and tick modulo 2^23 are |
| Ids.IdComesBack | src/logic/idmgr/IdMgr.cpp:107 | after 2^23 milliseconds the same id can be made again |
| Ids.WindowIsDistinct | src/logic/idmgr/IdMgr.cpp:91-109 | ids made within less than 2^23 milliseconds are pairwise distinct |
| Ids.IdMgr.GenerateId | src/logic/idmgr/IdMgr.cpp:91-109 | each id has the next sequence number of its tick, below 32, or opens a later tick; the clock is waited for only behind the 32nd of a tick |
| Ids.IdMgr.AskIds | src/logic/idmgr/IdMgr.cpp:76-83 | a batch is the next twenty ids |
| Ids.BatchGoesFirst | src/logic/idmgr/IdMgr.cpp:65-89 | a batch that arrives is allocated before anything its node has in the pool, the last id of it first |
| Ids.StepConserves | src/logic/idmgr/IdMgr.cpp:65-89 | every id made is in one batch, pool or node, or lost, after every step |
| Ids.SameIdFarApart | src/logic/idmgr/IdMgr.cpp:65-109 | over every run of giving, delivering, losing and allocating in which the batches are the master's consecutive ids, however long, two allocations return the same id only if the master has made it twice, at least 2^23 milliseconds apart |
| Ids.NoIdTwiceIff | src/logic/idmgr/IdMgr.cpp:65-109 | of a series of ids, every run that hands them out allocates none twice exactly when no two of them, at least 2^23 milliseconds apart, are equal |
| Ids.Serve | src/logic/idmgr/IdMgr.cpp:65-109 | driven by any traffic the master's network is such a run with its own output as the ids made, and two allocations return the same id only if the master has made it twice, at least 2^23 milliseconds apart |
| Ids.ServeOne | src/logic/idmgr/IdMgr.cpp:65-89 | one request, delivery, loss or allocation is one step of the network, a request answered with the next twenty ids |
| Staging.StagedShutdown | src/logic/monitor/ShutDown.cpp:76-187 | steps are visited in order, a step begins only when everybody selected before was let go in its own step, and the kernel stops only after the last |
| Staging.HandleKeeps | src/logic/monitor/ShutDown.cpp:72-187 | every event keeps the account of who is still waited for |
| Staging.LastOneMovesOn | src/logic/monitor/ShutDown.cpp:130-141 | the last node let go starts the next step or stops the kernel |
| Staging.WaitsFor | src/logic/monitor/ShutDown.cpp:76-187 | a node that is not let go holds its step whatever else happens |
| Staging.StepEndsIff | src/logic/monitor/ShutDown.cpp:76-187 | a step is over after any events exactly when they let go everybody it waits for |
| Staging.NotifyEndsIff | src/logic/monitor/ShutDown.cpp:76-187 | a NOTIFY step is over exactly when everybody it waits for has acknowledged it, whether or not they have closed |
| Staging.CloseEndsIff | src/logic/monitor/ShutDown.cpp:76-87 | a CLOSE step is over exactly when everybody it waits for has closed |
| Staging.CanEndIff | src/logic/monitor/ShutDown.cpp:143-187 | some series of events ends the current step exactly when it is a CLOSE step or one of the first 128, since the step travels as an int8 |
| Staging.ClosedBeforeAck | src/logic/monitor/ShutDown.cpp:76-87 | a run from the start: the only node is told to stop, closes without having acknowledged, and no later event but its acknowledgement ends the shutdown |
| Staging.FarNotifyNeverEnds | src/logic/monitor/ShutDown.cpp:143-187 | a run from the start: the only node is of the type of a step beyond the 128th, is told to stop, and nothing ends the shutdown |
| Staging.SelectsAsTold | src/logic/monitor/ShutDown.cpp:107-121 | a step selects all nodes of a type it names, some of a type it names at random, and no others |
| Staging.RandomSelectsFew | src/logic/monitor/ShutDown.cpp:107-121 | a type only named at random gives at most as many nodes as it is named |
| Staging.SelectedWereOpen | src/logic/monitor/ShutDown.cpp:72-128 | over every run the nodes known are exactly those that have opened and not closed since, and each step selects, as it is told, among the nodes open when it began |
| Staging.LogTells | src/logic/monitor/ShutDown.cpp:72-187 | the account of a run holds its events in order, each with the step that was on |
| Staging.ShutDown.OnOpen | src/logic/monitor/ShutDown.cpp:72-74 | the node is known from now on |
| Staging.ShutDown.OnClose | src/logic/monitor/ShutDown.cpp:76-87 | the handler is the step of the model for a closed connection, after which the node is known no more (`SelectedWereOpen`) and, in a CLOSE step, let go |
| Staging.ShutDown.Terminate | src/logic/monitor/ShutDown.cpp:93-101 | the handler is the step of the model that starts the shutdown |
| Staging.ShutDown.OnClusterShutdownAck | src/logic/monitor/ShutDown.cpp:176-187 | the handler is the step of the model for an acknowledgement, which counts only for the current NOTIFY step |
| Staging.ShutDown.StartNewStep | src/logic/monitor/ShutDown.cpp:103-128 | the mutual recursion ends, in the first step that selects somebody or at the end |
| Mesh.SameKeyIff | src/logic/master/Master.cpp:38 | two nodes share a key exactly if they are equal or have the same negative id |
| Mesh.OneSideConnects | src/logic/cluster/Cluster.cpp:42-46 | of two different nodes exactly one connects the other, and no node itself |
| Mesh.Master.OnOpen | src/logic/master/Master.cpp:34-57 | a new node of an exposed type and each known one are told about each other once; any other open sends nothing |
| Mesh.TellAll | src/logic/master/Master.cpp:50-56 | the loop sends exactly the two announcements for every other node |
| Mesh.Cluster.NewNodeComing | src/logic/cluster/Cluster.cpp:32-50 | a node connects exactly if it has not opened the key before and the rule says it connects |
| Mesh.Network.Do | src/logic/master/Master.cpp:34-57 | a node that opens its connection, or an announcement that reaches its node, is one step of the protocol, done by the master and the nodes themselves |
| Mesh.StepKeeps | src/logic/cluster/Cluster.cpp:32-50 | every registration and delivery keeps, for every pair, who has been told and who has connected |
| Mesh.FullMesh | src/logic/master/Master.cpp:34-57 | in any order of registrations and deliveries, once all announcements have arrived every pair of known nodes is connected exactly once, by the node of the larger type or, in one type, by that with the smaller id |
| Mesh.Gather | src/logic/master/Master.cpp:34-57 | driven by any registrations and deliveries the master and its nodes go through that run of the protocol, and once nothing is on its way each two nodes the master knows are connected once, by that side |
| Mesh.NobodyLeftOutIff | src/logic/master/Master.cpp:38-43 | every registered exposed node is part of the mesh exactly when no two of them have the same negative id |
| Mesh.LeftOut | src/logic/master/Master.cpp:38-43 | two registrations with the same negative id: the second node is told nobody and nobody is told of it |
| LuaRef.References.OneBorder | src/logic/scriptengine/lua/lauxlib.c:547-548 | while the free list is empty the table has no hole, so rawlen is the number of slots given out |
| LuaRef.References.Ref | src/logic/scriptengine/lua/lauxlib.c:533-551 | a non-nil object gets a reference nobody has, and all others keep their objects |
| LuaRef.References.Unref | src/logic/scriptengine/lua/lauxlib.c:554-562 | the reference is free again, first in the free list, and all others keep their objects |
| LuaRef.References.RawGet | src/logic/scriptengine/lua/lauxlib.c:533-562 | an outstanding reference gives the object it was made for, and the one that nil gets gives nil |

## Left out

- TimerWheel.SLTimerMgr.KillTimer: when the list does not survive the removal the contract says only that (`Valid()` is false); what becomes of the pointers is stated by `IntrusiveList.SLList.Remove` and shown by `IntrusiveList.RemovesBehindPop` and `IntrusiveList.LosesRescheduled`. The timer is not inside one of its own callbacks; kills from inside onStart and onTime are part of `PollOne` and `EndPoll`.
- TimerWheel.SLTimerMgr.ResumeTimer: the same, and not from inside a callback of the timer.
- TimerWheel.SLTimerMgr.Unlink: the fields of the wheel hold its slots and its run list as sequences, and `intact` says whether the pointers still chain them. What each of its walks does to the pointers, and that it keeps all lists linked, is proved of `GearLists.Wheel`; that the two take the same steps is by their contracts, not by one object.
- TimerWheel.SLTimerMgr.StartTimer: the jiffy counter is below 2^62; the wrap-around of the counter itself is not modelled. `WheelLives` speaks of timers started with a delay of 0 or more; negative delays are covered by `StartedTimer`.
- TimerWheel.SLTimerMgr.Process: the number of polls the time limit allows is given by the length of `does`, not by a clock read between polls, and its callbacks leave other timers alone (rounds in which they do not are made of `BeginPoll` and `EndPoll`). For a reading 2^31 ms or more behind the last the source's 32-bit difference is negative or too small, and the contract says only whether counter and clock stay together. That the run list is polled at all needs time for a poll.
- The user's callbacks: from onStart and onTime they may kill or pause their own timer (`Reaction`) and start, kill, pause or resume others (between `BeginPoll` and `EndPoll`); resuming their own timer, a process called from within one, and whatever is done in onInit, onPause, onResume and onTerminate is not modelled.
- LuaGen.FuncState.Discharge2Reg: the expression has been discharged of variables, indexing and calls (luaK_dischargevars), numbers are constants already, and instructions are a datatype with their Lua 5.3 meaning; `ok` is false where the source raises "control structure too long".
- The rest of the Lua code generator (condjump, luaK_patchclose, removevalues, luaK_goiftrue and its like) and of the Lua library: not modelled.
- AsyncPipeline.PipelineKeepsOrder: memory is sequentially consistent, a pause (CSLEEP) is no step, and reading an index and deciding on it are one step; setInvaild is not raced against onExecute.
- Ring.CycleQueue.Push: how often the other thread reads during each nap is a parameter, and each read is one step; the single accesses of both threads interleave in `AsyncPipeline`.
- SlPool.Pool.FreeChunkList: a released block is no longer among the blocks, but writes to its links, which the source may make, are harmless in the model.
- SlPool: construction and destruction of the objects in the chunks, the destructor of the pool and the debug fields.
- Tables.TableControl.AddRowKey: columns other than the key and the loading of the column layout are not modelled.
- Args.IArgs.Write: a list whose count of the data has wrapped around is not written to any further, and what a reader makes of it is not followed, since the size it is handed out with is negative (`WrapsAround`); nor are the bytes of a struct where the source writes them outside the buffer.
- Args.RoundTrip: argsCount and dataOffset are fields of their own rather than parts of the buffer, and a struct is written with one copy; copying arguments from another list (operator<< of OArgs, append) and reserve are not modelled.
- BMap.OBMap.constructor: the two halves of a descriptor are written with one copy.
- OBStream and IBStream: not modelled; their reader is not an inverse of their writer.
- TinyXml.ReadText: only the branch that keeps white space and the comparison that minds case are modelled; reading past the end of the buffer gives the zero that ends a string.
- The document tree, the stream input and the error positions of TinyXML: large and easier.
- Ids.IdMgr.GenerateId: the loop that waits for the clock is one step (`WaitPast`), and the clock never goes back.
- Ids.Serve: the network is a set of batches on their way, and allocating from an empty pool changes nothing.
- Staging.ShutDown.Terminate: a second request while the first is on is not modelled, nor are closes that happen while a step's messages are being sent; which node a random selection picks is a parameter.
- Mesh.FullMesh: registration and announcements only; setting up the connections, and nodes that leave, are not modelled.
- LuaRef.References.Ref: the stack operations around the table accesses are not modelled.
- Sockets, channels, shared memory, databases, configuration, logging and process start: foreign calls or plumbing.
- Object layouts, balancing, capacity choosers and the object state machine: they would add only easy members.
