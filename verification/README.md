# MiniNVR media algorithms: model and proofs

MiniNVR is a network video recorder with a bundled copy of the LIVE555 media library. This Dafny project models the
library's algorithms - the timer queue, the event loop, NAL unit fragmentation and reassembly, AMR depacketisation,
the hash table, the elementary-stream scanners, the bit reader with the parameter-set parser, and Base64 - and proves
what they are for. `dafny verify dfyconfig.toml` checks everything.

The code works by changing things in place, so the model does too: rings of linked nodes, two banks of frame
descriptors that exchange buffers, chains of a hash table, an input buffer whose sent bytes are written over. Every such
method is proved against a function on values (`DelayQueues.DelayQueue.AddEntry` against `TimerQueues.Add`, say), and the
promises - order, fairness, round trips, refinement of a map - are theorems about those functions over all runs and
inputs. Methods are split where the original is one long function; the row of each part cites the lines it stands for.

| area | values and theorems | imperative model |
|---|---|---|
| timers | `Timeval`, `TimerQueue`, `TimerRuns` | `DelayQueue` |
| event triggers | `TriggerMasks`, `EventTriggers` | `TriggerScheduler` |
| sockets | `SocketRotation` | `SocketScheduler` |
| NAL fragmentation | `NalFragments`, `Collecting`, `Rejecting`, `Reordering`, `Arriving` | `Fragmenter`, `NalReceivers`, `Aggregation`, `RtpSource` |
| AMR | `AmrBins`, `AmrTheorems`, `AmrSync` | `AmrDeinterleaver`, `AmrSession`, `AmrUnpack` |
| hash table | `HashSpec`, `HashTheorems` | `HashTable`, `HashIterator` |
| scanners | `StartCodes`, `EmulationBytes`, `H263` | `NalParser`, `ElementaryStreams`, `H263Parser` |
| bits and parameter sets | `Bits`, `BitReading`, `SpsSyntax`, `SpsTheorems`, `HevcSps` | `BitVector`, `SpsParser` |
| Base64 | `Base64` | `Base64` |

The clock is an argument of each call, and handlers are arbitrary scripts of calls. Machine widths are written out where
they matter: 32-bit casts in times, bit positions and picture sizes, 16-bit sequence and decoding order numbers, 8-bit
bin counters and temporal references.

## What turned out not to hold

Where the code falls short of what one would expect of it, a lemma says for which inputs, or gives one:

- A subtraction of times is cast to `int`: it is exact just when the cast keeps the sign of the difference in seconds
  (`Timevals.MinusExactIff`). A delay that reaches round the whole ring is wrapped, so ETERNITY itself fires at once
  (`TimerRuns.DelayHonouredIff`, `TimerRuns.EternityFiresAtOnce`).
- The fast path for a single trigger leaves the last-used number alone after the handler has run, while the search sets
  it. They differ just when the trigger that the handler creates last has another number
  (`EventTriggers.FastPathIsSearchIff`); for a handler that does not delete its own trigger this is just when it creates
  one, which can be told before the call (`EventTriggers.FastPathUnlessCreates`).
- A trigger created between the steps puts an awaited one back just when it lies at or behind it in rotation
  (`EventTriggers.NoFartherIff`); in every step, this starves it (`EventTriggers.CreationCanStarve`).
- Moving the handling of a socket onto one that is handled already puts a number into the list twice
  (`SocketRotation.MoveKeepsCoherentIff`). Then another ready socket can wait for ever, unless one of its own handlers
  stands between the two (`SocketRotation.ServedIffReached`; `SocketRotation.DoubledStarves` for one that waits).
- A NAL unit that fits a packet but has an aggregation or fragmentation type is not received as itself
  (`NalFragments.SpecialTypesAreMisread`).
- A packet rejected for its header hides the loss before it, and loss of such a packet is taken for loss within a unit. A
  unit then comes out with a hole in it, or not at all, just when its arrival pattern is one of those told apart by
  `Rejecting.UnitRightIff` (`Rejecting.IntactDespiteRejectedIff`; `Collecting.RejectedPacketHidesLoss` is such a run).
- Bins are counted in a byte, though group sizes go up to 20000: a group comes out whole just when no frame of it has a bin
  of 255 or above (`AmrTheorems.GroupComesOutIff`); one such frame can hide all of it (`AmrTheorems.GroupLost`).
- The buffer of twice the payload is too small for the table of contents of an empty payload, and of a single octet that
  announces a second entry (`AmrUnpack.BufferSufficesIff`, `AmrUnpack.OneOctetTooFew`).
- The size of a unit in an aggregation packet is compared with what is left before its size field has been taken off
  (`NalReceivers.EnclosedInBoundsIff`), and a few bytes left over are looked at for ever (`NalReceivers.SplitEndsIff`, `NalReceivers.OneByteStuck`).
- The decoding order number is right just while the true numbers differ by what a short holds
  (`NalReceivers.NextDonRightIff`).
- The copying wrapper of the second bit vector drops the last byte of a unit with nothing to remove
  (`EmulationBytes.RemoveEmulationBytes`).
- The last NAL unit of a stream is parsed but never given out (`NalParsers.H264or5VideoStreamParser.ParseAtEnd`).
- An H.263 frame no longer than its header is replaced by the next header (`H263.FrameIntactIff`); presentation times are
  exact just while the product fits 32 bits (`H263.PTExactIff`).
- `put1Bit` writes a one for every non-zero argument, `putBits` its lowest bit (`BitReading.OneBitWriteAgrees`).
- The picture size ignores left and top cropping and the two fields of interlaced frames (`SpsTheorems.WidthCorrectIff`,
  `SpsTheorems.HeightCorrectIff`), and, in HEVC, the conformance window (`HevcSps.ShownSizeIff`).

## Model

| member | source | states |
|---|---|---|
| Timevals.CompareMicros | libRTSPReceiver/live/DelayQueue.cpp:28-32 | the comparison operators order normal times by their microseconds, and equality is equality of both fields |
| Timevals.PlusMicros | libRTSPReceiver/live/DelayQueue.cpp:34-40 | `+=` adds microseconds, with the carry, and stays normal |
| Timevals.MinusMicros | libRTSPReceiver/live/DelayQueue.cpp:42-65 | `-=` and binary `-` give max(0, difference), stay normal and agree, while the difference in seconds fits an int; the result of shortening a 32-bit interval is one |
| Timevals.MinusExactIff | libRTSPReceiver/live/DelayQueue.cpp:53-65 | for all normal times, subtraction is exact if and only if the cast to int keeps the sign of the difference in seconds |
| Timevals.MinusLosesLongIntervals | libRTSPReceiver/live/DelayQueue.cpp:61-62 | a concrete interval of 2^31 seconds from which subtracting zero leaves zero |
| Timevals.BetweenMicros | libRTSPReceiver/live/DelayQueue.cpp:53-65 | the time between two times less than ETERNITY apart is a 32-bit interval and exact |
| TimerQueues.PrefixSumIsRemaining | libRTSPReceiver/live/DelayQueue.cpp:212-219 | prefix sums of the deltas are the remaining waits max(0, deadline - now) |
| TimerQueues.DeltasAddUp | libRTSPReceiver/live/DelayQueue.cpp:89 | conservation: in every consistent queue all deltas, the sentinel's included, add up to ETERNITY minus the forward time passed, which is positive |
| TimerQueues.SyncStep | libRTSPReceiver/live/DelayQueue.cpp:212-219 | the scan of synchronize passes an entry just when its deadline is no later than the new time |
| TimerQueues.GapAfterSync | libRTSPReceiver/live/DelayQueue.cpp:212-219 | letting time pass zeroes the deltas it passes, shortens the first it does not and leaves the others, whatever the queue |
| TimerQueues.GapAfterInsert | libRTSPReceiver/live/DelayQueue.cpp:135-140 | inserting a deadline splits one delta and leaves every other, so every other deadline is unchanged |
| TimerQueues.GapAfterRemove | libRTSPReceiver/live/DelayQueue.cpp:159 | removing an entry gives its delta to its successor, so every other deadline is unchanged |
| TimerQueues.PositionUnique | libRTSPReceiver/live/DelayQueue.cpp:129-133 | there is one place behind all deadlines no later than the new one and before all later ones |
| TimerQueues.DuesOfPlace | libRTSPReceiver/live/DelayQueue.cpp:126-141 | where the scan stops is that place, so a new timer comes after all equal deadlines |
| TimerQueues.DuesOfRemove | libRTSPReceiver/live/DelayQueue.cpp:156-164 | the deadlines after a removal are the others, in order |
| TimerQueues.WrapIsRemainder | libRTSPReceiver/live/DelayQueue.cpp:129-133 | a delay that reaches round the ring keeps its remainder by the ring's total |
| TimerQueues.SyncReads | libRTSPReceiver/live/DelayQueue.cpp:201-220 | looking at the time brings the clock to the old reading plus the forward time since the last look, and changes nothing else |
| TimerQueues.LookedSeesDue | libRTSPReceiver/live/DelayQueue.cpp:172-189 | whether or not synchronizing was needed, the head is found due if and only if its deadline is no later than that reading of the clock |
| TimerQueues.AddMeans | libRTSPReceiver/live/DelayQueue.cpp:126-141 | a new timer is due its delay after the present reading, behind all timers due no later and before all due later, and the others stay; for every delay below what the ring has left |
| TimerQueues.UpdateMeans | libRTSPReceiver/live/DelayQueue.cpp:151-154 | a rescheduled timer keeps its token and is due its new delay after the present reading, and no other timer changes |
| TimerRuns.RunsFireInOrder | libRTSPReceiver/live/DelayQueue.cpp:126-189 | over every run of scheduling, cancelling, rescheduling and alarms, timers fire in order of deadline, and of insertion among equal deadlines |
| TimerRuns.RunsAddUp | libRTSPReceiver/live/DelayQueue.cpp:89 | conservation over every run: all deltas, the sentinel's included, add up to ETERNITY minus the forward time passed |
| TimerRuns.OrderStep | libRTSPReceiver/live/DelayQueue.cpp:126-189 | every single operation keeps the queue sorted by (deadline, insertion) and what has fired in order |
| TimerRuns.NeverEarly | libRTSPReceiver/live/DelayQueue.cpp:126-189 | with a clock that never goes back, in a run shorter than ETERNITY, no timer whose delay is below what remains of ETERNITY fires before its delay has passed; every such run stays within 32 bits |
| TimerRuns.KeptStep | libRTSPReceiver/live/DelayQueue.cpp:201-220 | with a forward clock the queue's clock is the time since the start after every operation, and no deadline is nearer than asked for |
| TimerRuns.DelayHonouredIff | libRTSPReceiver/live/DelayQueue.cpp:129-133 | for delays whose seconds fit an int, a new timer is due when asked for if and only if its delay is below the total of the ring; otherwise it is wrapped |
| TimerRuns.EternityFiresAtOnce | libRTSPReceiver/live/DelayQueue.cpp:89 | a delay of ETERNITY in a new queue fires at once |
| TimerRuns.RankStep | libRTSPReceiver/live/DelayQueue.cpp:179-189 | an alarm takes out the head or moves a due timer one place forward; nothing but its own cancellation moves it back |
| TimerRuns.NoStarvation | libRTSPReceiver/live/DelayQueue.cpp:179-189 | whatever else is scheduled, with zero delay or not, a due timer of rank k has fired after k + 1 alarms, and its rank drops by at least one with each |
| TimerRuns.TimeComeStep | libRTSPReceiver/live/DelayQueue.cpp:126-189 | once a timer's time has come, every alarm fires it or one in front of it, whatever the queue's own clock says, and nothing gets in front of it |
| TimerRuns.FiresInTime | libRTSPReceiver/live/DelayQueue.cpp:126-189 | in every run with a forward clock, a timer with k others in front of it whose time has come has fired once k + 1 alarms have been handled, unless it is itself cancelled or rescheduled |
| TimerRuns.EveryTimerFires | libRTSPReceiver/live/DelayQueue.cpp:126-189 | from a new queue on: after any operations, every timer that waits and whose time has come fires within as many alarms as there are timers up to it |
| TimerRuns.FiveSecondsFire | libRTSPReceiver/live/DelayQueue.cpp:179-189 | a timer of five seconds in a new queue fires at an alarm after ten |
| DelayQueues.DelayQueue.constructor | libRTSPReceiver/live/DelayQueue.cpp:113-116 | a new ring holds the sentinel alone, ETERNITY away |
| DelayQueues.DelayQueue.Synchronize | libRTSPReceiver/live/DelayQueue.cpp:201-220 | the whole operation on the ring: every deadline D has max(0, D - elapsed) left, deltas stay 32-bit intervals, and the scan stops before the sentinel; a clock that goes back only resets the time of the last look |
| DelayQueues.DelayQueue.Elapse | libRTSPReceiver/live/DelayQueue.cpp:212-219 | the scan uses up the elapsed time from the head on, and leaves the ring timed for the later reading |
| DelayQueues.DelayQueue.FindSlot | libRTSPReceiver/live/DelayQueue.cpp:129-133 | the scan terminates, also for a delay that reaches round the ring, with what is left of the delay at the place of the new deadline |
| DelayQueues.DelayQueue.LinkBefore | libRTSPReceiver/live/DelayQueue.cpp:137-140 | linking keeps the ring well linked both ways, with the new node just before the given one |
| DelayQueues.DelayQueue.AddEntry | libRTSPReceiver/live/DelayQueue.cpp:126-141 | adding refines insertion into the sorted queue, behind all equal deadlines, and the ring is the old one with the node in that place |
| DelayQueues.DelayQueue.Unlink | libRTSPReceiver/live/DelayQueue.cpp:160-162 | unlinking keeps the ring well linked and clears the node's own links |
| DelayQueues.DelayQueue.RemoveEntry | libRTSPReceiver/live/DelayQueue.cpp:156-164 | removal keeps every other deadline and the order of the others; no entry, or one that was removed already, changes nothing |
| DelayQueues.DelayQueue.FindEntryByToken | libRTSPReceiver/live/DelayQueue.cpp:191-199 | finds the first queued entry with the token, or none |
| DelayQueues.DelayQueue.UpdateEntry | libRTSPReceiver/live/DelayQueue.cpp:151-154 | rescheduling by token is removal and insertion with the new delay, the same nodes staying queued; an unknown token changes nothing |
| DelayQueues.DelayQueue.RemoveByToken | libRTSPReceiver/live/DelayQueue.cpp:166-170 | removes and returns the entry with the token, or returns none and changes nothing |
| DelayQueues.DelayQueue.TimeToNextAlarm | libRTSPReceiver/live/DelayQueue.cpp:172-177 | the wait is max(0, earliest deadline - clock), the clock being the old one plus the forward time since it was last looked at, whether or not it had to be looked at |
| DelayQueues.DelayQueue.HandleAlarm | libRTSPReceiver/live/DelayQueue.cpp:179-189 | takes out the head, before its handler runs, if and only if its deadline is no later than the old clock plus the forward time since it was last looked at; otherwise nothing |
| TriggerMasks.NextMask | libRTSPReceiver/live/BasicTaskScheduler.cpp:193-195 | shifting the mask right, with 0x80000000 after zero, gives the mask of the next number modulo 32 |
| TriggerMasks.IsMaskOf | libRTSPReceiver/live/BasicTaskScheduler.cpp:181 | a bitmap equals the mask of a trigger if and only if it holds that trigger alone: what the fast paths test |
| TriggerMasks.IdsOr | libRTSPReceiver/live/BasicTaskScheduler0.cpp:143 | or of bitmaps is union of trigger sets |
| TriggerMasks.IdsAndNot | libRTSPReceiver/live/BasicTaskScheduler.cpp:198 | and-not of bitmaps is difference of trigger sets |
| TriggerMasks.MasksDisjoint | libRTSPReceiver/live/BasicTaskScheduler0.cpp:119-126 | no two triggers share a bit |
| EventTriggers.NextUnique | libRTSPReceiver/live/BasicTaskScheduler.cpp:192-207 | there is one next awaited trigger after the last one used, in rotation |
| EventTriggers.FastPathIsSearchIff | libRTSPReceiver/live/BasicTaskScheduler.cpp:180-209 | with a single trigger awaiting, the fast path calls what the search would, and leaves the same state up to the last-used number; the same altogether if and only if there is no handler, or it creates no trigger, or the one it creates last has the last-used number |
| EventTriggers.CreatedIff | libRTSPReceiver/live/BasicTaskScheduler0.cpp:85-108 | whether a sequence of calls creates a trigger can be told before it is made: a creation is tried, and a number was free to begin with or has been set free before it |
| EventTriggers.FastPathUnlessCreates | libRTSPReceiver/live/BasicTaskScheduler.cpp:180-209 | for a handler that does not delete its own trigger, fast path and search leave the same state if and only if, by that condition, it creates none |
| EventTriggers.FastPathWithoutCreation | libRTSPReceiver/live/BasicTaskScheduler.cpp:180-209 | a handler that tries to create no trigger makes no difference |
| EventTriggers.DeletedAndCreated | libRTSPReceiver/live/BasicTaskScheduler.cpp:180-209 | with all numbers in use, a handler that deletes its trigger and creates one gets the same number, and makes no difference either |
| EventTriggers.ComesCloser | libRTSPReceiver/live/BasicTaskScheduler.cpp:188-207 | an awaited trigger is taken up or comes strictly closer in rotation |
| EventTriggers.NoFartherIff | libRTSPReceiver/live/BasicTaskScheduler0.cpp:85-108 | calls between the steps leave an awaited trigger no farther away in rotation if and only if the trigger created last does not lie at or behind it |
| EventTriggers.ServedUnlessPassedOver | libRTSPReceiver/live/BasicTaskScheduler.cpp:180-209 | triggers may be created: an awaited one that is neither deleted nor passed over in that sense is taken up within its distance in rotation, below 32 steps, whatever the handlers do |
| EventTriggers.ServedWithin32Steps | libRTSPReceiver/live/BasicTaskScheduler.cpp:180-209 | in particular while none is created between the steps |
| EventTriggers.CreationCanStarve | libRTSPReceiver/live/BasicTaskScheduler0.cpp:85-108 | a run in which a trigger is created behind it in every step and an awaited one is never taken up |
| EventTriggers.CreatedMeans | libRTSPReceiver/live/BasicTaskScheduler0.cpp:85-108 | a trigger is created if and only if one of the 32 numbers is free; it gets the free one nearest behind the last-used number in rotation, its handler, and no data; nothing else changes |
| EventTriggers.TriggeredIsHandled | libRTSPReceiver/live/BasicTaskScheduler0.cpp:130-144 | a trigger with a handler that is triggered, and then neither triggered again nor deleted nor passed over, is taken up within its distance in rotation with that handler and the data it was triggered with, whatever else is called meanwhile |
| EventTriggers.TakenUpAsArmed | libRTSPReceiver/live/BasicTaskScheduler.cpp:180-209 | whenever such a trigger is first taken up, however long that takes, it is with its handler and data |
| EventTriggers.TakenUpOnce | libRTSPReceiver/live/BasicTaskScheduler.cpp:180-209 | a trigger that has been taken up does not await any more, unless it is triggered again |
| TriggerSchedulers.BasicTaskScheduler0.constructor | libRTSPReceiver/live/BasicTaskScheduler0.cpp:46-53 | nothing awaits, and the last-used mask is the mask of the last-used number |
| TriggerSchedulers.BasicTaskScheduler0.CreateEventTrigger | libRTSPReceiver/live/BasicTaskScheduler0.cpp:85-108 | the next free number in rotation is taken, or 0 is returned when all 32 are used; mask and number stay in step |
| TriggerSchedulers.BasicTaskScheduler0.DeleteEventTrigger | libRTSPReceiver/live/BasicTaskScheduler0.cpp:110-128 | exactly the triggers named in the mask stop awaiting and lose handler and data, by the fast path or the loop; every other keeps its own |
| TriggerSchedulers.BasicTaskScheduler0.ClearMasked | libRTSPReceiver/live/BasicTaskScheduler0.cpp:119-126 | the loop clears exactly the named triggers |
| TriggerSchedulers.BasicTaskScheduler0.TriggerEvent | libRTSPReceiver/live/BasicTaskScheduler0.cpp:130-144 | exactly the triggers named in the mask await and get the data; every other keeps its data, and awaits as before |
| TriggerSchedulers.BasicTaskScheduler0.TakeUp | libRTSPReceiver/live/BasicTaskScheduler.cpp:198-204 | a trigger is no longer awaited before its handler, an arbitrary script, runs; the last-used fields are set after it |
| TriggerSchedulers.BasicTaskScheduler0.ServeTrigger | libRTSPReceiver/live/BasicTaskScheduler.cpp:180-209 | the whole of trigger service, fast path or search, refines the rotation on sets |
| TriggerSchedulers.BasicTaskScheduler0.SearchTriggers | libRTSPReceiver/live/BasicTaskScheduler.cpp:188-207 | the search terminates at the next awaited trigger in rotation and takes up that one |
| SocketRotation.AssignedLookup | libRTSPReceiver/live/BasicTaskScheduler0.cpp:180-192 | assigning a handler replaces or adds the one of that socket, keeps numbers distinct and leaves the others |
| SocketRotation.ClearedLookup | libRTSPReceiver/live/BasicTaskScheduler0.cpp:194-197 | clearing removes the handler of that socket, keeps numbers distinct and leaves the others |
| SocketRotation.SetKeepsCoherent | libRTSPReceiver/live/BasicTaskScheduler.cpp:215-238 | setting or clearing handling keeps sets, handlers and the socket maximum coherent: a socket is in a select set just when its handler asks for it |
| SocketRotation.MoveKeepsCoherentIff | libRTSPReceiver/live/BasicTaskScheduler.cpp:240-256 | moving handling keeps them coherent if and only if the target is not handled already, or nothing is moved |
| SocketRotation.SetMeans | libRTSPReceiver/live/BasicTaskScheduler.cpp:215-238 | a socket in range is handled with the procedure, data and conditions given, or by nobody if no condition is left; no other socket's handler changes, and out of range nothing does |
| SocketRotation.MoveMeans | libRTSPReceiver/live/BasicTaskScheduler.cpp:240-256 | moved to a free socket, a handler keeps procedure, data and conditions, the old socket is free, and no other socket's handler changes |
| SocketRotation.RegisteredIsCalled | libRTSPReceiver/live/BasicTaskScheduler.cpp:129-176 | what is registered for a socket stays through all calls that do not name it, fires if and only if one of its conditions (2, 4 and 8) is found there, and is what gets called, with its data, whenever the socket is served |
| SocketRotation.ComesCloser | libRTSPReceiver/live/BasicTaskScheduler.cpp:129-176 | a guarded handler that could be called is called, or comes strictly closer in rotation |
| SocketRotation.ServedInTurn | libRTSPReceiver/live/BasicTaskScheduler.cpp:129-176 | with a fixed handler list, a handler that could be called in every step is called within as many steps as there are handlers, if it is guarded: every repeated handler that can be called comes behind it, and the first one of that number before it |
| SocketRotation.DistinctGuarded | libRTSPReceiver/live/BasicTaskScheduler.cpp:129-176 | when all socket numbers are different, every handler is guarded |
| SocketRotation.ReachedIsServed | libRTSPReceiver/live/BasicTaskScheduler.cpp:129-176 | a socket on which something stays ready is served within a bound, whatever else is ready, if between every repeated handler of another socket and the first one of that number stands one of its own |
| SocketRotation.SkippedStarves | libRTSPReceiver/live/BasicTaskScheduler.cpp:129-176 | if that fails, there are a state of the rotation and another ready socket with which it is never served, however long the run |
| SocketRotation.ServedIffReached | libRTSPReceiver/live/BasicTaskScheduler.cpp:129-176 | so a ready socket is served from every state of the rotation and whatever else is ready if and only if that condition on the list holds |
| SocketRotation.DoubledStarves | libRTSPReceiver/live/BasicTaskScheduler.cpp:132-142 | with two handlers for socket 3 in front of it, socket 7 is never served though it is ready all the time, in runs of any length |
| SocketRotation.DoubledReachable | libRTSPReceiver/live/BasicTaskScheduler.cpp:240-256 | such a state comes about by setting three handlers, moving one onto another and serving socket 3 once |
| SocketSchedulers.BasicTaskScheduler.LookupHandler | libRTSPReceiver/live/BasicTaskScheduler0.cpp:206-213 | the position of the first handler of the socket, or the length of the list |
| SocketSchedulers.BasicTaskScheduler.SetBackgroundHandling | libRTSPReceiver/live/BasicTaskScheduler.cpp:215-238 | sets, handlers and maximum change as the specification says; numbers out of range change nothing |
| SocketSchedulers.BasicTaskScheduler.MoveSocketHandling | libRTSPReceiver/live/BasicTaskScheduler.cpp:240-256 | likewise for moving handling to another socket |
| SocketSchedulers.BasicTaskScheduler.Pass | libRTSPReceiver/live/BasicTaskScheduler.cpp:143-157 | stops at the first handler that may be called and records its socket; otherwise passes over all |
| SocketSchedulers.BasicTaskScheduler.ServeSocket | libRTSPReceiver/live/BasicTaskScheduler.cpp:129-176 | the search from behind the last handled socket, with its second pass, refines the rotation |
| SocketSchedulers.BasicTaskScheduler.SingleStep | libRTSPReceiver/live/BasicTaskScheduler.cpp:129-176 | the handler found is called with what is ready for it, after the last handled socket is recorded, and may change the handling at will; if none is found nothing is called |
| NalFragments.ReceiveFragment | libRTSPReceiver/live/H264VideoRTPSource.cpp:72-85 | for both codecs the receiver undoes the fragment headers: it gives the original header bytes and data, and the S and E flags |
| NalFragments.PacketReceived | libRTSPReceiver/live/H264or5VideoRTPSink.cpp:201-255 | every packet has 1 to M bytes and is received as the next stretch of the unit, beginning the frame only if it is the first and completing it only if it is the last |
| NalFragments.PacketsWithinLimit | libRTSPReceiver/live/H264or5VideoRTPSink.cpp:176-265 | all packets of a unit have 1 to M bytes |
| NalFragments.PacketsAreFull | libRTSPReceiver/live/H264or5VideoRTPSink.cpp:176-265 | every packet of a unit over the limit has the layout of FU-A (type 28, with the unit's F and NRI bits) or of an H.265 FU (type 49, with its layer and temporal ids), the unit's type, the start bit in the first one only and the end bit in the last one only; and all but the last are as long as the limit |
| NalFragments.RestReassembles | libRTSPReceiver/live/H264or5VideoRTPSink.cpp:225-260 | from any point of a unit on, the remaining packets complete it and leave the receiver ready for the next |
| NalFragments.StreamReassembles | libRTSPReceiver/live/H264or5VideoRTPSink.cpp:176-265 | for every sequence of units and every limit M (at least 4 for H.264, 6 for H.265), depacketising and concatenating gives back exactly the units |
| NalFragments.SpecialTypesAreMisread | libRTSPReceiver/live/H264or5VideoRTPSink.cpp:203-206 | a unit that fits one packet comes back as itself if and only if its type is no aggregation or fragmentation type |
| Fragmenters.H264or5Fragmenter.AfterGettingFrame | libRTSPReceiver/live/H264or5VideoRTPSink.cpp:282-293 | a unit is taken in behind the byte reserved for the indicator |
| Fragmenters.H264or5Fragmenter.Reset | libRTSPReceiver/live/H264or5VideoRTPSink.cpp:295-299 | nothing is left to be sent, and the next unit goes to the front of the buffer |
| Fragmenters.H264or5Fragmenter.SendWhole | libRTSPReceiver/live/H264or5VideoRTPSink.cpp:203-206 | a unit that fits is delivered as it is |
| Fragmenters.H264or5Fragmenter.SendFirst | libRTSPReceiver/live/H264or5VideoRTPSink.cpp:207-224 | the first fragment, its headers written over the unit's own in the buffer, is the packet of the specification |
| Fragmenters.H264or5Fragmenter.SendContinuation | libRTSPReceiver/live/H264or5VideoRTPSink.cpp:225-255 | a continuation, its headers written over bytes already sent, is the packet of the specification, and no byte still to be sent is touched |
| Fragmenters.H264or5Fragmenter.DoGetNextFrame | libRTSPReceiver/live/H264or5VideoRTPSink.cpp:176-265 | each call delivers the next packet within the smaller limit, flags the last one and then forgets the unit |
| Fragmenters.H264or5Fragmenter.SendUnit | libRTSPReceiver/live/H264or5VideoRTPSink.cpp:176-265 | calls until the unit is complete terminate and deliver exactly the packets of the specification |
| NalReceivers.NextDonRightIff | libRTSPReceiver/live/H265VideoRTPSource.cpp:149-167 | one step of the absolute number is right if and only if the true numbers differ by what a short can hold |
| NalReceivers.TracksStream | libRTSPReceiver/live/H265VideoRTPSource.cpp:149-198 | along any stream of 16-bit numbers and differences whose successive true numbers differ by less than 2^15, the rebuilt number is the true one; as it holds for every prefix, it does at every step |
| NalReceivers.TracksFromStart | libRTSPReceiver/live/H265VideoRTPSource.cpp:149-198 | the same from the first unit, whose true number is below 2^16 |
| NalReceivers.SpecialReceives264 | libRTSPReceiver/live/H264VideoRTPSource.cpp:65-113 | in H.264 the bytes left after the skip, and the flags, are what the receiver of fragments takes them to be, for every packet |
| NalReceivers.SpecialReceives265 | libRTSPReceiver/live/H265VideoRTPSource.cpp:68-143 | the same in H.265 for every packet that is accepted, once the DONL field is taken out |
| NalReceivers.EnclosedUnit | libRTSPReceiver/live/H264VideoRTPSource.cpp:161-194 | whatever follows, a unit in an aggregation packet is found behind its size |
| NalReceivers.EnclosedInBoundsIff | libRTSPReceiver/live/H264VideoRTPSource.cpp:161-194 | a unit stays within the packet if and only if its size is at most what is left behind the size and the other fields; it never reaches farther beyond than these fields are long |
| NalReceivers.TwoBytesBeyond | libRTSPReceiver/live/H264VideoRTPSource.cpp:168-171 | a concrete packet whose unit reaches two bytes beyond it |
| NalReceivers.OneByteStuck | libRTSPReceiver/live/H264VideoRTPSource.cpp:166-169 | a single byte left over is looked at for ever |
| NalReceivers.SplitInvertsAggregation | libRTSPReceiver/live/H265VideoRTPSource.cpp:179-213 | taking an aggregation packet apart gives back the units it was put together from, but for empty ones, for every layout of both codecs |
| NalReceivers.SplitEndsIff | libRTSPReceiver/live/H265VideoRTPSource.cpp:179-213 | a packet comes apart to its end, neither reaching beyond it nor looking at the same bytes for ever, if and only if it was put together from units (and, with decoding order numbers, a few bytes too little for another one) |
| Aggregations.Packet264ComesApart | libRTSPReceiver/live/H264VideoRTPSource.cpp:65-113 | end to end: a packet of type 24, 25, 26 or 27, put together by section 5.7 of RFC 6184 from any units (behind type and numbers: two bytes of size, 0, 0, 3 or 4 further bytes, and the unit, for each), is accepted and comes apart into exactly these units |
| Aggregations.Packet265ComesApart | libRTSPReceiver/live/H265VideoRTPSource.cpp:68-143 | likewise a packet of type 48, put together by section 4.4.2 of RFC 7798, with and without decoding order numbers |
| Aggregations.Packet265Numbers | libRTSPReceiver/live/H265VideoRTPSource.cpp:149-213 | through a whole such packet with decoding order numbers, the number kept is the true one of every unit |
| Aggregations.DonlCarried | libRTSPReceiver/live/H265VideoRTPSource.cpp:91-131 | the decoding order number carried is the 16-bit one behind the headers of an aggregation packet or fragment |
| Aggregations.TwoParameterSets | libRTSPReceiver/live/H264VideoRTPSource.cpp:161-194 | a STAP-A packet with two parameter sets, byte by byte |
| Aggregations.TakeApart264 | libRTSPReceiver/live/H264VideoRTPSource.cpp:161-194 | the receiver in the heap takes packets apart so, until they are used up or look at the same bytes for ever |
| Aggregations.TakeApart265 | libRTSPReceiver/live/H265VideoRTPSource.cpp:179-213 | likewise for H.265, with the numbers of the units |
| NalReceivers.H264VideoRTPSource.ProcessSpecialHeader | libRTSPReceiver/live/H264VideoRTPSource.cpp:65-113 | rebuilds the header in place and sets skip and flags as specified, or refuses and changes no byte |
| NalReceivers.H264VideoRTPSource.NextEnclosedFrameSize | libRTSPReceiver/live/H264VideoRTPSource.cpp:161-194 | advance and size of the next enclosed unit for every packet type, clipped to the data; which type has which layout is the subject of Packet264ComesApart |
| NalReceivers.H265VideoRTPSource.ComputeAbsDonFromDON | libRTSPReceiver/live/H265VideoRTPSource.cpp:149-167 | the fields change as one step of the number does |
| NalReceivers.H265VideoRTPSource.ProcessFragment | libRTSPReceiver/live/H265VideoRTPSource.cpp:91-131 | rebuilds the two-byte header over the FU header in place, with or without a DONL field, and gives the flags and the number carried; a short packet is refused |
| NalReceivers.H265VideoRTPSource.ProcessOther | libRTSPReceiver/live/H265VideoRTPSource.cpp:80-138 | aggregation and single packets: skip, flags and number carried |
| NalReceivers.H265VideoRTPSource.ProcessSpecialHeader | libRTSPReceiver/live/H265VideoRTPSource.cpp:68-143 | the whole of it, with the number kept; a refused packet changes neither bytes nor number |
| NalReceivers.H265VideoRTPSource.NextEnclosedFrameSize | libRTSPReceiver/live/H265VideoRTPSource.cpp:179-213 | advance and size, and the number moved by DOND for every unit of the packet but the first |
| Collecting.FeedPacket | libRTSPReceiver/live/MultiFramedRTPSource.cpp:134-216 | a packet of a unit extends or completes the frame if all before it was taken, and is rejected otherwise |
| Collecting.CollectUnit | libRTSPReceiver/live/MultiFramedRTPSource.cpp:159-215 | whatever packets of a unit are missing, it is given out if and only if none is, and nothing of it lingers |
| Collecting.CollectsIntactUnits | libRTSPReceiver/live/MultiFramedRTPSource.cpp:134-216 | of any sequence of units, under any pattern of loss, exactly those that lost no packet are given out, unchanged and in order |
| Collecting.LongUnitIsCut | libRTSPReceiver/live/MultiFramedRTPSource.cpp:142-215 | when all packets of a unit arrive, a client with too little room gets as many of its first bytes as fit |
| Collecting.TakenIsMasked | libRTSPReceiver/live/MultiFramedRTPSource.cpp:595-631 | a loss flag on the packets that follow a gap says as much as knowing which packets were taken |
| Collecting.TakenUnitsIntact | libRTSPReceiver/live/MultiFramedRTPSource.cpp:134-216 | taking packets in order with a flag after each gap gives out exactly the units all of whose packets were taken |
| Collecting.RejectedPacketHidesLoss | libRTSPReceiver/live/MultiFramedRTPSource.cpp:144-153 | a concrete run in which a packet rejected for its header hides a loss and a frame with a byte missing is given out |
| Rejecting.RejectedOnlyFlag | libRTSPReceiver/live/MultiFramedRTPSource.cpp:138-153 | for every stream with rejected packets in it and every pattern of loss: what these packets change is before which packets loss is noticed, and nothing else |
| Rejecting.UnitRightIff | libRTSPReceiver/live/MultiFramedRTPSource.cpp:159-215 | for every arrival pattern of a unit's packets and every state left by earlier ones: the unit is given out just if it is intact, and nothing else is, if and only if the pattern does no harm - all packets there, no loss noticed within and no bytes left over, or one missing and this noticed, or the last one missing too |
| Rejecting.IntactDespiteRejectedIff | libRTSPReceiver/live/MultiFramedRTPSource.cpp:134-216 | with rejected packets anywhere in a stream of units and any packets missing, exactly the intact units are given out, each for itself, if and only if no unit's arrival pattern does harm |
| Rejecting.NoneHidesIsRight | libRTSPReceiver/live/MultiFramedRTPSource.cpp:134-216 | in particular when every rejected packet arrives and so does the packet before it |
| Rejecting.HonestRightAll | libRTSPReceiver/live/MultiFramedRTPSource.cpp:134-216 | and when loss is noticed exactly where a packet is missing, whatever packets are |
| Reordering.SerialOrder | libRTSPReceiver/live/RTPSource.cpp:399-409 | within a window of 2^15 the 16-bit comparison is the order of the true numbers, and equality their equality |
| Reordering.StoreTracks | libRTSPReceiver/live/MultiFramedRTPSource.cpp:523-579 | a packet is stored, in the place of its true number, if and only if it is neither behind what is expected nor there already |
| Reordering.TakeTracks | libRTSPReceiver/live/MultiFramedRTPSource.cpp:581-631 | what is taken out is the stored packet with the least true number, flagged just when the one before it was not taken |
| Reordering.GivenUpIff | libRTSPReceiver/live/MultiFramedRTPSource.cpp:595-631 | a head is taken out if and only if it is the packet expected, or the threshold is 0, or it has waited longer than the threshold in unsigned 32-bit microseconds; with the loss flag if it is not the one expected, and then it becomes so |
| Reordering.FedSession | libRTSPReceiver/live/MultiFramedRTPSource.cpp:134-216 | at every point of every run, what has been given out is what the packets taken so far, in increasing order, give |
| Reordering.SessionGivesIntactUnits | libRTSPReceiver/live/MultiFramedRTPSource.cpp:134-631 | over every run - any order, duplication and loss of packets, any times, clocks that go back included, less than 2^15 away from what is expected - the units given out are exactly those all of whose packets were taken, unchanged and in order |
| Arriving.TakenHasArrived | libRTSPReceiver/live/MultiFramedRTPSource.cpp:523-631 | over every run, every packet taken has arrived |
| Arriving.OrderlySessionGivesAll | libRTSPReceiver/live/MultiFramedRTPSource.cpp:134-631 | when every packet arrives, the first one first and the others in whatever order and however often, each less than 2^15 away from the first one missing and within the threshold of those behind it, every unit is given out |
| Arriving.LossesAreGivenUp | libRTSPReceiver/live/MultiFramedRTPSource.cpp:134-631 | when packets arrive in order with any of them missing, and at the last arrival the threshold has passed for all that wait behind a gap, nothing is left waiting: the units given out are exactly those all of whose packets have arrived, despite the losses before them |
| Arriving.GivenUpAfterASecond | libRTSPReceiver/live/MultiFramedRTPSource.cpp:608-627 | packet 2, with packet 1 missing and a threshold of a tenth of a second, is given out with the loss flag after a second |
| Reordering.InOrderSessionGivesAll | libRTSPReceiver/live/MultiFramedRTPSource.cpp:134-631 | when all packets arrive in order, every unit sent is given out; nothing else is needed of clock or numbers |
| RtpSources.ReorderingPacketBuffer.StorePacket | libRTSPReceiver/live/MultiFramedRTPSource.cpp:523-579 | the list, its head and the expected number change as specified; duplicates and late packets are refused |
| RtpSources.ReorderingPacketBuffer.GetNextCompletedPacket | libRTSPReceiver/live/MultiFramedRTPSource.cpp:595-631 | gives the expected packet with its own flag; a head that is not the one expected if and only if the threshold is 0 or its 32-bit wait exceeds it, with the loss flag, and expects it from then on; otherwise nothing |
| RtpSources.ReorderingPacketBuffer.ReleaseUsedPacket | libRTSPReceiver/live/MultiFramedRTPSource.cpp:581-593 | drops the head and expects the number after it |
| RtpSources.MultiFramedRTPSource.Use | libRTSPReceiver/live/MultiFramedRTPSource.cpp:437-472 | copies what fits behind what has been collected, counts the rest as truncated, and changes nothing before it |
| RtpSources.MultiFramedRTPSource.CheckLoss | libRTSPReceiver/live/MultiFramedRTPSource.cpp:157-170 | after a loss a beginning packet forgets what was collected, another one breaks the frame |
| RtpSources.MultiFramedRTPSource.TakePacket | libRTSPReceiver/live/MultiFramedRTPSource.cpp:142-215 | one turn of the loop is one packet fed to the collector |
| RtpSources.MultiFramedRTPSource.DoGetNextFrame1 | libRTSPReceiver/live/MultiFramedRTPSource.cpp:134-216 | the loop gives out the next frame of the specification, or leaves buffer and frame as they are when packets run out |
| RtpSources.TakeFrames | libRTSPReceiver/live/MultiFramedRTPSource.cpp:118-216 | a client that asks again after every frame gets all that can be given |
| RtpSources.RunSession | libRTSPReceiver/live/MultiFramedRTPSource.cpp:118-631 | a source that stores each packet and serves its client gives out the session of the specification |
| AmrUnpack.TocDecodes | libRTSPReceiver/live/AMRAudioRTPSource.cpp:707-713 | every complete table of contents is read back, up to its last entry |
| AmrUnpack.FramesDecode | libRTSPReceiver/live/AMRAudioRTPSource.cpp:715-737 | every frame's bits stand where the table of contents says |
| AmrUnpack.SpeechBitsAgree | libRTSPReceiver/live/AMRAudioRTPSource.cpp:675-686 | the bits of every frame type are those of tables 1 of 3GPP TS 26.101 and TS 26.201, for both codecs |
| AmrUnpack.UnpackInvertsPack | libRTSPReceiver/live/AMRAudioRTPSource.cpp:688-749 | for every payload packed as section 4.3 of RFC 4867 says, with as many speech bits as each frame type has, mode request, entries and frame bits are those packed, each frame at the first octet behind those of the frames before it, as in section 4.4 |
| AmrUnpack.UnpackToc | libRTSPReceiver/live/AMRAudioRTPSource.cpp:703-713 | the loop terminates at the last entry or at the end, with the entries moved and the buffer not exceeded |
| AmrUnpack.UnpackFrames | libRTSPReceiver/live/AMRAudioRTPSource.cpp:715-737 | the loop moves the frames that are whole, each to its octet, for either codec |
| AmrUnpack.UnpackBandwidthEfficientData | libRTSPReceiver/live/AMRAudioRTPSource.cpp:688-749 | terminates for every payload that fits, complete or not, writes at most twice its size, and the result is that of the specification |
| AmrUnpack.BufferSufficesIff | libRTSPReceiver/live/AMRAudioRTPSource.cpp:699-713 | for every payload, the octets written fit twice its size if and only if it has two octets, or one that announces no second entry |
| AmrUnpack.OneOctetTooFew | libRTSPReceiver/live/AMRAudioRTPSource.cpp:707-713 | a concrete octet for which they do not |
| AmrTheorems.SlotOrder | libRTSPReceiver/live/AMRAudioRTPSource.cpp:551-552 | places follow ILP, and the channel within a frame-block |
| AmrTheorems.GivenInPlace | libRTSPReceiver/live/AMRAudioRTPSource.cpp:579-599 | a frame that arrives is given out in its place with its header, unless another arrives later for the same place |
| AmrTheorems.MissingInPlace | libRTSPReceiver/live/AMRAudioRTPSource.cpp:627-637 | a place no frame arrives for is given out as NO_DATA |
| AmrTheorems.FilledIsPlaced | libRTSPReceiver/live/AMRAudioRTPSource.cpp:579-599 | a bin filled with a frame is seen as the frame: its data, the header FT and Q bits, and its presentation time |
| AmrTheorems.SameGroup | libRTSPReceiver/live/AMRAudioRTPSource.cpp:561-563 | within a group no frame, whatever the order, seems to start another, wrap-around included |
| AmrTheorems.LaterGroup | libRTSPReceiver/live/AMRAudioRTPSource.cpp:561-563 | a frame of a later group less than 2^15 away always does |
| AmrTheorems.CounterIsHighIff | libRTSPReceiver/live/AMRAudioRTPSource.cpp:597-599 | the 8-bit counter of a bank holds the number of places in use if and only if no frame has arrived for a place of 255 or above |
| AmrTheorems.AllCoveredIff | libRTSPReceiver/live/AMRAudioRTPSource.cpp:597-599 | it covers every frame that has arrived if and only if none has |
| AmrTheorems.PlaceCoveredIff | libRTSPReceiver/live/AMRAudioRTPSource.cpp:597-599 | for a single place: it is covered if and only if some frame leaves more in the counter and none after it wraps the counter round, or it was covered before and none wraps it at all |
| AmrTheorems.GroupComesOutIff | libRTSPReceiver/live/AMRAudioRTPSource.cpp:561-609 | a group comes out whole when the next one begins, every frame that arrived and no place too few, if and only if none of its frames has a place of 255 or above |
| AmrTheorems.GroupLost | libRTSPReceiver/live/AMRAudioRTPSource.cpp:579-609 | with 16 channels and 16 packets a group, a frame in bin 10 is lost when one in bin 255 follows: nothing is given out |
| AmrTheorems.SmallLayouts | libRTSPReceiver/live/AMRAudioRTPSource.cpp:580-582 | (ILL + 1) * channels up to 255 is enough for all places to be below 255, whatever the group size |
| AmrTheorems.DeliverInside | libRTSPReceiver/live/AMRAudioRTPSource.cpp:526-600 | a frame of the current group changes nothing that is given out, and joins those of its group |
| AmrTheorems.DeliverNext | libRTSPReceiver/live/AMRAudioRTPSource.cpp:561-577 | the first frame of the next group brings the group before out, place by place up to the counter, and nothing else; and leaves an empty bank behind if all places were below 255 |
| AmrTheorems.GroupsComeOutInOrder | libRTSPReceiver/live/AMRAudioRTPSource.cpp:452-660 | for every stream of groups with constant ILL, any group size of at least (ILL + 1) * channels, and places below 255, whatever is missing and in whatever order frames come within a group, what arrived of every group but the last comes out in order, by ILP and channel, group after group, each frame with its header and presentation time, and gaps below the bank's high-water bin as NO_DATA |
| AmrBins.DeliverTidyIff | libRTSPReceiver/live/AMRAudioRTPSource.cpp:526-600 | bins above the bank's maximum stay empty if and only if the frame's bin is below 255, whatever the group size |
| AmrBins.DrainGives | libRTSPReceiver/live/AMRAudioRTPSource.cpp:602-660 | taking frames until there are none gives the bins left over in order, and empties these and no others |
| AmrBins.DrainTimes | libRTSPReceiver/live/AMRAudioRTPSource.cpp:602-660 | however little room the client has, it gets as much of each frame as fits, with the rest counted; frames keep their presentation times, and an erasure comes 20 ms after what was given out before it |
| AmrBins.TimeOfFrame | libRTSPReceiver/live/AMRAudioRTPSource.cpp:551-559 | a frame of the k-th frame-block of a packet is presented k * (ILL + 1) * 20 ms after the packet's time, with the microseconds carried |
| AmrBins.AfterIsNextFrame | libRTSPReceiver/live/AMRAudioRTPSource.cpp:627-637 | 20 ms later, with the microseconds carried |
| AmrBins.DrainTidy | libRTSPReceiver/live/AMRAudioRTPSource.cpp:602-660 | a bank drained while bins out of use are empty is empty altogether |
| AmrDeinterleavers.ApartExchanged | libRTSPReceiver/live/AMRAudioRTPSource.cpp:586-595 | exchanging the input buffer with that of a bin, or a new one, keeps all buffers distinct |
| AmrDeinterleavers.AMRDeinterleavingBuffer.constructor | libRTSPReceiver/live/AMRAudioRTPSource.cpp:509-519 | both banks empty, and an input buffer of its own |
| AmrDeinterleavers.AMRDeinterleavingBuffer.ReadFrame | libRTSPReceiver/live/AMRAudioRTPSource.cpp:471-479 | reading into the input buffer touches no bin |
| AmrDeinterleavers.AMRDeinterleavingBuffer.SwitchBanks | libRTSPReceiver/live/AMRAudioRTPSource.cpp:568-576 | the banks and their maxima change places, and giving out begins anew, without a buffer being copied |
| AmrDeinterleavers.AMRDeinterleavingBuffer.FillBin | libRTSPReceiver/live/AMRAudioRTPSource.cpp:586-595 | the frame is in its bin, the bin's old buffer (or a new one) is the input buffer, and all buffers of both banks and the input buffer are still distinct |
| AmrDeinterleavers.AMRDeinterleavingBuffer.DeliverIncomingFrame | libRTSPReceiver/live/AMRAudioRTPSource.cpp:526-600 | the whole operation refines delivery on values and keeps all buffers distinct |
| AmrDeinterleavers.AMRDeinterleavingBuffer.EmptyBin | libRTSPReceiver/live/AMRAudioRTPSource.cpp:611-614 | a bin given out is empty for the next group, its buffer kept |
| AmrDeinterleavers.AMRDeinterleavingBuffer.CopyOut | libRTSPReceiver/live/AMRAudioRTPSource.cpp:646-653 | the client gets the data, or what fits with the rest counted |
| AmrDeinterleavers.AMRDeinterleavingBuffer.RetrieveFrame | libRTSPReceiver/live/AMRAudioRTPSource.cpp:602-660 | gives the next bin of the outgoing bank with header and time, or nothing when all are out; no buffer changes hands |
| AmrDeinterleavers.AMRDeinterleavingBuffer.GiveOut | libRTSPReceiver/live/AMRAudioRTPSource.cpp:602-660 | data, header and time of one bin, or NO_DATA 20 ms after the frame before |
| AmrDeinterleavers.AMRDeinterleavingBuffer.CountSynced | libRTSPReceiver/live/AMRAudioRTPSource.cpp:615-625 | the counter and the mark change as one step of the run of marks in AmrSync |
| AmrSync.SyncedStep | libRTSPReceiver/live/AMRAudioRTPSource.cpp:615-625 | the counter holds how many of the last bins were synchronized, up to ILL + 1 |
| AmrSync.SyncedIff | libRTSPReceiver/live/AMRAudioRTPSource.cpp:602-660 | over every run with a constant ILL, a frame given out counts as synchronized if and only if the last ILL + 1 bins given out, its own included, were all synchronized |
| AmrSync.SyncedFromStart | libRTSPReceiver/live/AMRAudioRTPSource.cpp:615-625 | place by place, from a new buffer on |
| AmrSessions.TakeAll | libRTSPReceiver/live/AMRAudioRTPSource.cpp:452-479 | asking until a frame is needed drains the outgoing bank |
| AmrSessions.Serve | libRTSPReceiver/live/AMRAudioRTPSource.cpp:452-504 | reading, delivering and draining is one step of the run on values |
| AmrSessions.ServeAll | libRTSPReceiver/live/AMRAudioRTPSource.cpp:452-504 | a whole session is the run on values |
| AmrSessions.PlayStream | libRTSPReceiver/live/AMRAudioRTPSource.cpp:452-660 | a new buffer in the heap that is played any such stream gives out its groups in order |
| HashSpec.AndIsMod | libRTSPReceiver/live/BasicHashTable.hh:93-95 | with a mask of ones, bitwise and is the remainder |
| HashSpec.BucketsPerLevel | libRTSPReceiver/live/BasicHashTable.cpp:227-235 | each rebuild has four times the buckets and a mask of buckets - 1, up to 2^30 buckets |
| HashSpec.IndexIs | libRTSPReceiver/live/BasicHashTable.cpp:255-277 | the bucket of a string is its characters, as digits to base 9, modulo the number of buckets; that of a word, or of the sum of several, is cut out of the middle of its 64-bit product with 1103515245: wrap-around on the way makes no difference |
| HashTheorems.InsertRefines | libRTSPReceiver/live/BasicHashTable.cpp:56-68 | inserting or overwriting an entry refines map update, and counts the entries |
| HashTheorems.AddRefines | libRTSPReceiver/live/BasicHashTable.cpp:56-74 | Add refines map update, with or without a rebuild, keeps entries below three times the buckets and returns the old value |
| HashTheorems.RemoveRefines | libRTSPReceiver/live/BasicHashTable.cpp:76-84 | Remove refines map removal |
| HashTheorems.LookupRefines | libRTSPReceiver/live/BasicHashTable.cpp:86-92 | Lookup finds what the map holds |
| HashTheorems.RebuildFinds | libRTSPReceiver/live/BasicHashTable.cpp:222-253 | after a rebuild every key is found, or not, as before, and every entry is in the bucket its hash selects |
| HashTheorems.RebuildRefines | libRTSPReceiver/live/BasicHashTable.cpp:222-253 | a rebuild stands for the same map |
| HashTheorems.RunRefines | libRTSPReceiver/live/BasicHashTable.cpp:56-92 | over every sequence of Add, Remove and Lookup, the table stands for the map, and all answers are the map's |
| HashTheorems.InitialRefines | libRTSPReceiver/live/BasicHashTable.cpp:34-41 | a new table is the empty map |
| HashTheorems.EnumerationIsMap | libRTSPReceiver/live/BasicHashTable.cpp:98-114 | the entries bucket by bucket are the bindings of the map, each once |
| HashTables.BasicHashTable.constructor | libRTSPReceiver/live/BasicHashTable.cpp:34-41 | four empty static buckets, mask 3, rebuild size 12 |
| HashTables.BasicHashTable.HashIndexFromKey | libRTSPReceiver/live/BasicHashTable.cpp:255-277 | the loops over string and word keys compute the index, 32-bit and pointer-width wrap-around included |
| HashTables.BasicHashTable.LookupKey | libRTSPReceiver/live/BasicHashTable.cpp:129-139 | the node with the key in the chain its hash selects, or null |
| HashTables.BasicHashTable.Lookup | libRTSPReceiver/live/BasicHashTable.cpp:86-92 | the value of the map, or 0 |
| HashTables.BasicHashTable.InsertNewEntry | libRTSPReceiver/live/BasicHashTable.cpp:159-169 | the new node is at the head of its chain, and no other chain changes |
| HashTables.BasicHashTable.Grow | libRTSPReceiver/live/BasicHashTable.cpp:222-235 | the new bucket array is fresh and empty, with the new mask, shift and rebuild size |
| HashTables.BasicHashTable.MoveHead | libRTSPReceiver/live/BasicHashTable.cpp:240-248 | one node is relinked from its old chain to the head of its new one; what the whole rehash will give is unchanged |
| HashTables.BasicHashTable.MoveAll | libRTSPReceiver/live/BasicHashTable.cpp:237-249 | the loop relinks every node, allocating none |
| HashTables.BasicHashTable.Rebuild | libRTSPReceiver/live/BasicHashTable.cpp:222-253 | relinking in place is the rebuild of the specification |
| HashTables.BasicHashTable.UnlinkEntry | libRTSPReceiver/live/BasicHashTable.cpp:187-197 | the walk to the link that points to the node takes it, and only it, out of its chain |
| HashTables.BasicHashTable.DeleteEntry | libRTSPReceiver/live/BasicHashTable.cpp:186-210 | chains, contents and count after a deletion |
| HashTables.BasicHashTable.Put | libRTSPReceiver/live/BasicHashTable.cpp:56-68 | lookup, overwrite or insertion, up to the check of the size |
| HashTables.BasicHashTable.Add | libRTSPReceiver/live/BasicHashTable.cpp:56-74 | on the heap: contents are updated, the old value is returned, entries are below three times the buckets |
| HashTables.BasicHashTable.Remove | libRTSPReceiver/live/BasicHashTable.cpp:76-84 | on the heap: the key is gone, the others are not, and the answer says whether it was there; the other nodes of a chain stay linked in order |
| HashIterators.AheadWithout | libRTSPReceiver/live/BasicHashTable.cpp:98-114 | dropping an entry behind the iterator leaves what is ahead of it |
| HashIterators.Iterator.constructor | libRTSPReceiver/live/BasicHashTable.cpp:98-100 | all entries are pending |
| HashIterators.Iterator.Next | libRTSPReceiver/live/BasicHashTable.cpp:102-114 | returns the first pending entry and drops it, or ends just when none is pending |
| HashIterators.Iterator.NextBucket | libRTSPReceiver/live/BasicHashTable.cpp:105-108 | going on to the next bucket drops nothing |
| HashIterators.Iterator.TakeEntry | libRTSPReceiver/live/BasicHashTable.cpp:110-113 | the entry it stood at is returned, and it stands behind it |
| HashIterators.RemoveVisited | libRTSPReceiver/live/HashTable.cpp:33-41 | removing the entry just returned leaves the entries still to come exactly the same |
| HashIterators.VisitNext | libRTSPReceiver/live/BasicHashTable.cpp:98-114 | one step of a walk in which the caller may remove the entry just returned |
| HashIterators.VisitAll | libRTSPReceiver/live/BasicHashTable.cpp:98-114 | a whole walk that removes any set of keys as it goes visits every binding of the table once and ends with exactly the others left |
| StartCodes.FourAtOnce | libRTSPReceiver/live/H264or5VideoStreamFramer.cpp:1011-1014 | when the fourth byte exceeds 1, no start code can begin at any of the four, however the stream goes on |
| StartCodes.FindStays | libRTSPReceiver/live/H264or5VideoStreamFramer.cpp:1009-1022 | a start code that is found stays found when more input arrives |
| StartCodes.CompleteStays | libRTSPReceiver/live/H264or5VideoStreamFramer.cpp:1107-1139 | so does a unit, and whether it ends an access unit |
| StartCodes.EndsAccessUnit264 | libRTSPReceiver/live/H264or5VideoStreamFramer.cpp:1107-1139 | whether an H.264 unit ends an access unit, by the type numbers of Table 7-1 of ITU-T H.264 and the first bit of the next slice |
| StartCodes.EndsAccessUnit265 | libRTSPReceiver/live/H264or5VideoStreamFramer.cpp:1107-1139 | likewise for H.265, with types in bits 1 to 6 of the first header byte and two header bytes |
| StartCodes.UnitsGrow | libRTSPReceiver/live/H264or5VideoStreamFramer.cpp:949-1165 | units told apart stay as they are; more input only adds units behind them |
| StartCodes.FindBehindUnit | libRTSPReceiver/live/H264or5VideoStreamFramer.cpp:1009-1029 | the search that starts at a unit written as Annex B demands stops exactly behind it, with the length of its start code |
| StartCodes.UnitsOfWritten | libRTSPReceiver/live/H264or5VideoStreamFramer.cpp:949-1165 | of a written sequence of such units, with three- and four-byte start codes in any mixture, all but the last are told apart, unchanged and in order |
| NalParsers.HoldsOne | libRTSPReceiver/live/MPEGVideoStreamParser.hh:55-62 | saving a byte keeps what is saved a faithful image, or counts it as truncated |
| NalParsers.HoldsFour | libRTSPReceiver/live/MPEGVideoStreamParser.hh:64-71 | the same for four bytes, which are saved all or not at all |
| NalParsers.H264or5VideoStreamParser.SaveByte | libRTSPReceiver/live/MPEGVideoStreamParser.hh:55-62 | on the client's buffer, without touching what was saved before |
| NalParsers.H264or5VideoStreamParser.Save4Bytes | libRTSPReceiver/live/MPEGVideoStreamParser.hh:64-71 | the same for four bytes |
| NalParsers.H264or5VideoStreamParser.SkipToFirstCode | libRTSPReceiver/live/H264or5VideoStreamFramer.cpp:951-962 | stops behind the first four-byte start code, or is interrupted just when there is none yet |
| NalParsers.H264or5VideoStreamParser.BeginOutput | libRTSPReceiver/live/H264or5VideoStreamFramer.cpp:964-967 | a start code is put in front of a unit once, also when parsing was interrupted |
| NalParsers.H264or5VideoStreamParser.SaveFour | libRTSPReceiver/live/H264or5VideoStreamFramer.cpp:1011-1014 | the step of four bytes makes progress and passes over no start code |
| NalParsers.H264or5VideoStreamParser.SaveOne | libRTSPReceiver/live/H264or5VideoStreamFramer.cpp:1015-1019 | so does the step of one byte |
| NalParsers.H264or5VideoStreamParser.Scan | libRTSPReceiver/live/H264or5VideoStreamFramer.cpp:1003-1022 | the scan that skips four bytes stops where the byte-by-byte search does, with the same bytes saved, and terminates; it is interrupted just when that search fails |
| NalParsers.H264or5VideoStreamParser.FinishUnit | libRTSPReceiver/live/H264or5VideoStreamFramer.cpp:1023-1139 | the start code is skipped and the end of an access unit told by the next unit's first bytes; for want of those the unit is parsed again later |
| NalParsers.H264or5VideoStreamParser.Parse | libRTSPReceiver/live/H264or5VideoStreamFramer.cpp:949-1165 | returns just when the next unit is complete, with its bytes saved and the parser at the one behind it; otherwise nothing already saved is lost |
| NalParsers.H264or5VideoStreamParser.SaveRest | libRTSPReceiver/live/H264or5VideoStreamFramer.cpp:971-986 | all bytes that remain at the end of the input are saved |
| NalParsers.H264or5VideoStreamParser.ParseAtEnd | libRTSPReceiver/live/H264or5VideoStreamFramer.cpp:971-1002 | at the end of the input the trailing unit is saved whole, but the call is interrupted in every case and so gives nothing out |
| NalParsers.H264or5VideoStreamParser.AfterGettingBytes | libRTSPReceiver/live/StreamParser.cpp:173-192 | input is added and parsing resumed from the saved state |
| NalParsers.H264or5VideoStreamParser.RegisterReadInterest | libRTSPReceiver/live/MPEGVideoStreamParser.cpp:40-45 | the next unit goes to a new buffer |
| NalParsers.CatchUp | libRTSPReceiver/live/MPEGVideoStreamFramer.cpp:158-185 | a client that asks again after every unit gets all complete units of the input so far, each once |
| NalParsers.ReadStream | libRTSPReceiver/live/H264or5VideoStreamFramer.cpp:949-1165 | however the input is cut into chunks, the units given out, each behind 00 00 00 01 if asked for, are those the byte-by-byte search tells apart in the whole stream |
| EmulationBytes.RemoveInverts | libRTSPReceiver/live/H264or5VideoStreamFramer.cpp:1171-1181 | removal inverts insertion behind up to two zeros |
| EmulationBytes.RemovalInvertsInsertion | libRTSPReceiver/live/H264or5VideoStreamFramer.cpp:1167-1184 | removing emulation bytes gives back every payload they were inserted into |
| EmulationBytes.RemovedBehindHeader | libRTSPReceiver/live/H264or5VideoStreamFramer.cpp:1172-1176 | it also leaves a header in front as it is |
| EmulationBytes.RemovedSize | libRTSPReceiver/live/H264or5VideoStreamFramer.cpp:1171-1181 | removal shortens a unit if and only if there is an emulation byte in it, and otherwise leaves it as it is |
| EmulationBytes.RemoveH264or5EmulationBytes | libRTSPReceiver/live/H264or5VideoStreamFramer.cpp:1167-1184 | with a byte to spare the whole result is written; otherwise a prefix of it, all but at most one byte of the buffer full |
| EmulationBytes.RemoveEmulationBytes | libH2645BitstreamParser/bv/bitvector.cpp:227-232 | without a byte to spare, the result is right if and only if there is something to remove; otherwise the last byte is missing |
| ElementaryStreams.WrittenUnits | libRTSPReceiver/live/H264or5VideoStreamFramer.cpp:949-1165 | in a stream of escaped units behind start codes of either length, the parser tells apart exactly these units, all but the last |
| ElementaryStreams.PictureStartsAt | libRTSPReceiver/live/H264or5VideoStreamFramer.cpp:1118-1130 | between two H.264 slices an access unit ends if and only if the second one's first_mb_in_slice, an Exp-Golomb number, is 0: one bit tells |
| ElementaryStreams.ReadWritten | libRTSPReceiver/live/H264or5VideoStreamFramer.cpp:949-1184 | end to end: however such a stream is cut into chunks, reading it and removing the emulation bytes gives back the headers and payloads that were escaped, all but the last |
| H263.RowStep | libRTSPReceiver/live/H263plusVideoStreamParser.cpp:178-199 | the row of the automaton says what the last bytes were; -1 comes up exactly when a start code has just been completed, for the first time |
| H263.FrameIntactIff | libRTSPReceiver/live/H263plusVideoStreamParser.cpp:207-215 | a frame comes out as it stands if and only if it is longer than its header, or equal to the next one |
| H263.FramesTile | libRTSPReceiver/live/H263plusVideoStreamParser.cpp:166-216 | frames longer than their headers tile the stream: nothing is lost and nothing comes out twice |
| H263.DifferenceOfTimes | libRTSPReceiver/live/H263plusVideoStreamParser.cpp:379-389 | 8-bit references give the true step, wrap-around included |
| H263.DurationsSum | libRTSPReceiver/live/H263plusVideoStreamParser.cpp:329-344 | durations sum to floor(1001 * total / 30) while the 32-bit product does not overflow: rounding errors do not add up |
| H263.PTExactIff | libRTSPReceiver/live/H263plusVideoStreamParser.cpp:334-336 | the presentation time is the true one if and only if the product fits 32 bits |
| H263.DifferencesSum | libRTSPReceiver/live/H263plusVideoStreamParser.cpp:379-389 | differences of 8-bit references sum to the last time |
| H263.DurationsAreTimes | libRTSPReceiver/live/H263plusVideoStreamParser.cpp:329-389 | from references to durations: they sum to the rounded true time of the last frame |
| H263.TROfIsReference | libRTSPReceiver/live/H263plusVideoStreamParser.cpp:247-254 | shifts and masks give the number in bits 22 to 29 of the header |
| H263.SpansOfTimes | libRTSPReceiver/live/H263plusVideoStreamParser.cpp:82-143 | frame by frame: whatever times below the overflow the 8-bit references of the frames stand for, if they grow by less than 256 units, each duration is the rounded time of its frame minus that of the frame before |
| H263Parsers.H263plusVideoStreamParser.InitStates | libRTSPReceiver/live/H263plusVideoStreamParser.cpp:182-190 | the table is filled in, once |
| H263Parsers.H263plusVideoStreamParser.ReadToStartCode | libRTSPReceiver/live/H263plusVideoStreamParser.cpp:192-203 | stops behind the first start code after the saved header with all bytes copied, is interrupted for want of input, or runs out of room |
| H263Parsers.H263plusVideoStreamParser.FinishFrame | libRTSPReceiver/live/H263plusVideoStreamParser.cpp:205-215 | the rest of the next header is read and saved, and the frame, or the next header if it was empty, is in the buffer |
| H263Parsers.H263plusVideoStreamParser.ParseH263Frame | libRTSPReceiver/live/H263plusVideoStreamParser.cpp:166-216 | the frame is the saved header and the bytes up to the next start code; on failure the saved header stays |
| H263Parsers.H263plusVideoStreamParser.CalculateDuration | libRTSPReceiver/live/H263plusVideoStreamParser.cpp:329-344 | the clock and the duration move as one tick |
| H263Parsers.H263plusVideoStreamParser.TimeFrame | libRTSPReceiver/live/H263plusVideoStreamParser.cpp:114-123 | the reference in the frame's bits is kept, and the clock moves by its difference to the one before |
| H263Parsers.H263plusVideoStreamParser.Parse | libRTSPReceiver/live/H263plusVideoStreamParser.cpp:82-143 | one frame and its duration; an interrupted call changes nothing that is needed to parse again |
| H263Parsers.ReadAll | libRTSPReceiver/live/H263plusVideoStreamParser.cpp:82-143 | a stream that begins with a start code comes out as its first header, and then its frames, one by one; each with the milliseconds from the one before it, for whatever times their references stand |
| BitReading.PutThenGet | libRTSPReceiver/live/BitVector.cpp:43-107 | at every position what putBits wrote is read back by getBits, but for the bits cut off at the end |
| BitReading.ReadExactly | libRTSPReceiver/live/BitVector.cpp:83-107 | a field of up to 32 bits is read as its value and passed over |
| BitReading.OneBitReadAgrees | libRTSPReceiver/live/BitVector.cpp:109-120 | get1Bit is getBits(1), also past the end |
| BitReading.OneBitWriteAgrees | libRTSPReceiver/live/BitVector.cpp:68-81 | put1Bit is putBits with length 1 if and only if the argument is zero or odd, or nothing is left |
| BitReading.GolombDecodes | libRTSPReceiver/live/BitVector.cpp:130-140 | every codeword of up to 31 leading zeros decodes to its value and is consumed whole |
| BitReading.GolombRoundTrip | libRTSPReceiver/live/BitVector.cpp:130-140 | decoding inverts the ue(v) code of section 9.1 of ITU-T H.264 for all v below 2^32 - 1 |
| BitReading.GolombZeroIff | libRTSPReceiver/live/BitVector.cpp:130-140 | a number is 0 if and only if the first bit of its codeword is set |
| BitReading.SignedRoundTrip | libRTSPReceiver/live/BitVector.cpp:142-150 | the signed mapping of section 9.1.1 is undone for all 32-bit code numbers |
| BitVectors.ShiftBits | libRTSPReceiver/live/BitVector.cpp:152-183 | bits are copied between any two bit offsets, all other bits unchanged, also within one buffer towards its front |
| BitVectors.BitVector.PutBits | libRTSPReceiver/live/BitVector.cpp:43-66 | the digits are written at the cursor, all other bits of the buffer unchanged, the cursor moved by what fits |
| BitVectors.BitVector.Put1Bit | libRTSPReceiver/live/BitVector.cpp:68-81 | the same for one bit |
| BitVectors.BitVector.GetBits | libRTSPReceiver/live/BitVector.cpp:83-107 | the value at the cursor, missing bits as zeros, and the cursor moved |
| BitVectors.BitVector.Get1Bit | libRTSPReceiver/live/BitVector.cpp:109-120 | the bit at the cursor, or zero past the end |
| BitVectors.BitVector.SkipBits | libRTSPReceiver/live/BitVector.cpp:122-128 | the cursor moves, no further than the end |
| BitVectors.BitVector.GetExpGolomb | libRTSPReceiver/live/BitVector.cpp:130-140 | the loop over leading zeros terminates also at the end of the data, with 32-bit arithmetic |
| BitVectors.BitVector.GetExpGolombSigned | libRTSPReceiver/live/BitVector.cpp:142-150 | the signed value of the code number |
| SpsTheorems.ScalingListDecodes | libH2645BitstreamParser/source/H2645BitstreamParserCore.cpp:90-101 | a scaling list is passed over whole, in unsigned 32-bit arithmetic, also when it is cut short by a zero scale |
| SpsTheorems.ChromaDecodes | libH2645BitstreamParser/source/H2645BitstreamParserCore.cpp:72-105 | the fields of the high profiles with all their optional parts |
| SpsTheorems.PocDecodes | libH2645BitstreamParser/source/H2645BitstreamParserCore.cpp:107-122 | all three picture order count types, with any number of offsets |
| SpsTheorems.CroppingDecodes | libH2645BitstreamParser/source/H2645BitstreamParserCore.cpp:133-141 | the cropping flag and offsets |
| SpsTheorems.SizeDecodes | libH2645BitstreamParser/source/H2645BitstreamParserCore.cpp:123-172 | from the reference frames to the size |
| SpsTheorems.SpsDecodes | libH2645BitstreamParser/source/H2645BitstreamParserCore.cpp:64-172 | for every AVC parameter set laid out by section 7.3.2.1.1 of ITU-T H.264 with a profile the parser knows, parsing gives the size computed from its fields, through every optional field and loop |
| SpsTheorems.ParsesWhatIsLaidOut | libH2645BitstreamParser/source/H2645BitstreamParserCore.cpp:64-172 | the round trip: every such parameter set, laid out as the standard says and followed by anything, is parsed to its size |
| SpsTheorems.EveryProfile | libH2645BitstreamParser/source/H2645BitstreamParserCore.cpp:72-104 | with profile_idc 100, 110, 122, 244, 44, 83, 86, 118 or 128 the bits that carry the chroma fields behind the set's id are parsed to the size; with every other profile_idc those without them |
| SpsTheorems.FullHd | libH2645BitstreamParser/source/H2645BitstreamParserCore.cpp:163-167 | for one, the bits of a full HD High profile set as they stand in a stream, whatever follows, are parsed to 1920 by 1080 |
| SpsTheorems.WidthCorrectIff | libH2645BitstreamParser/source/H2645BitstreamParserCore.cpp:163-172 | the reported width is that of the standard if and only if the picture is not cropped on the left |
| SpsTheorems.HeightCorrectIff | libH2645BitstreamParser/source/H2645BitstreamParserCore.cpp:163-172 | the reported height is that of the standard, for frame-only streams, if and only if the picture is not cropped at the top; for others if and only if the top offset hides one field's rows |
| SpsParser.SkipScalingList | libH2645BitstreamParser/source/H2645BitstreamParserCore.cpp:91-101 | the loop on the bit vector consumes the list |
| SpsParser.SkipScalingMatrix | libH2645BitstreamParser/source/H2645BitstreamParserCore.cpp:85-103 | the loop over 8 or 12 lists |
| SpsParser.ReadChroma | libH2645BitstreamParser/source/H2645BitstreamParserCore.cpp:74-104 | the chroma format, with the cursor behind the optional fields |
| SpsParser.SkipPicOrderCount | libH2645BitstreamParser/source/H2645BitstreamParserCore.cpp:107-122 | the branches and the loop over the cycle |
| SpsParser.ReadSize | libH2645BitstreamParser/source/H2645BitstreamParserCore.cpp:123-173 | the size in signed 32-bit arithmetic |
| SpsParser.ParseSequenceParameterSet | libH2645BitstreamParser/source/H2645BitstreamParserCore.cpp:64-180 | the AVC branch computes what the parser function does |
| HevcSps.ProfileTierLevelDecodes | libH2645BitstreamParser/source/H2645BitstreamParserCore.cpp:332-358 | profile_tier_level() of section 7.3.3 of ITU-T H.265 is passed over whole, whatever its up to seven sub-layers carry |
| HevcSps.HevcDecodes | libH2645BitstreamParser/source/H2645BitstreamParserCore.cpp:181-197 | for every HEVC parameter set laid out by section 7.3.2.2, the size in luma samples is found |
| HevcSps.ParsesWhatIsLaidOut | libH2645BitstreamParser/source/H2645BitstreamParserCore.cpp:181-197 | the round trip, whatever follows the size |
| HevcSps.ShownSizeIff | libH2645BitstreamParser/source/H2645BitstreamParserCore.cpp:196-205 | it is the size of the picture shown if and only if the conformance window cuts nothing off |
| HevcSps.ReadFlags | libH2645BitstreamParser/source/H2645BitstreamParserCore.cpp:337-342 | the flags of every sub-layer, in order |
| HevcSps.ProfileTierLevel | libH2645BitstreamParser/source/H2645BitstreamParserCore.cpp:332-358 | the two loops on the bit vector consume what the parser function does |
| HevcSps.ReadHevcSize | libH2645BitstreamParser/source/H2645BitstreamParserCore.cpp:183-197 | the branch up to the size computes what the parser function does |
| Base64.Symbol | libRTSPReceiver/live/Base64.cpp:85-86 | the 64 characters decode to their values, and are neither padding nor comma nor null |
| Base64.SymbolIs | libRTSPReceiver/live/Base64.cpp:85-86 | the characters are those of Table 1 of RFC 4648: A to Z, a to z, 0 to 9, + and / |
| Base64.SixBitsIs | libRTSPReceiver/live/Base64.cpp:27-67 | every character counts for its place in that alphabet, and one that is not in it for 0 |
| Base64.SameNumber | libRTSPReceiver/live/Base64.cpp:69-101 | three bytes and four characters are the same number of 24 bits, in both directions |
| Base64.Vectors | libRTSPReceiver/live/Base64.cpp:88-122 | test vectors of section 10 of RFC 4648, with one and two padding characters |
| Base64.GroupsOfEncoded | libRTSPReceiver/live/Base64.cpp:46-122 | decoding group by group gives the bytes and a zero for each padding character |
| Base64.DecodeInvertsEncode | libRTSPReceiver/live/Base64.cpp:46-122 | decoding with zero-trimming inverts encoding for every byte string, also those that end in zeros; without it the padding's zeros follow |
| Base64.SplitJoined | libRTSPReceiver/live/H264VideoRTPSource.cpp:119-149 | splitting at commas inverts joining, for all non-empty lists of fields without commas |
| Base64.RecordsOfJoined | libRTSPReceiver/live/H264VideoRTPSource.cpp:119-149 | a comma-joined list of encodings gives back the records, in order |
| Base64.Base64Encode | libRTSPReceiver/live/Base64.cpp:88-122 | the loop writes the encoding and a null character |
| Base64.PutRest | libRTSPReceiver/live/Base64.cpp:108-118 | one or two bytes left over fill a last group, with their padding |
| Base64.InitBase64DecodeTable | libRTSPReceiver/live/Base64.cpp:27-38 | every entry of the table, 0x80 for what is no character |
| Base64.ReadGroup | libRTSPReceiver/live/Base64.cpp:60-67 | four characters, those outside the alphabet as zero, and the padding among them |
| Base64.TrimTrailing | libRTSPReceiver/live/Base64.cpp:74-76 | drops zeros at the end, no more than there were padding characters |
| Base64.Base64Decode | libRTSPReceiver/live/Base64.cpp:46-83 | the whole decoder, whatever the input; an incomplete last group is ignored |
| Base64.ReplaceCommas | libRTSPReceiver/live/H264VideoRTPSource.cpp:129-137 | commas become null characters and are counted |
| Base64.ParseSPropParameterSets | libRTSPReceiver/live/H264VideoRTPSource.cpp:119-149 | the walk over the null-separated copy decodes every field of the string in order |

## Left out

- TimerRuns.RunsFireInOrder: for runs in which less than ETERNITY of forward time passes, as is NoStarvation; clocks that go back are included.
- TimerRuns.NeverEarly: excludes delays that reach round the ring, and runs as long as ETERNITY, as the code wraps the former (TimerRuns.DelayHonouredIff) and has no sentinel left for the latter.
- TimerRuns.DelayHonouredIff: for delays of at most 2^31 - 1 seconds, like all runs.
- DelayQueues.DelayQueue.AddEntry: asks for delays of at most 2^31 - 1 seconds, as subtraction loses longer ones (Timevals.MinusExactIff), and for less than ETERNITY of time passed.
- DelayQueues.DelayQueue.HandleAlarm: the handler runs after it, as the next operations of a run; destroying entries is not modelled.
- EventTriggers.ServedUnlessPassedOver: for triggers that are not deleted or passed over meanwhile (EventTriggers.CreationCanStarve shows why).
- SocketRotation.ServedIffReached: a fixed handler list and conditions of the waiting socket that stay as they are, as a handler may otherwise undo any promise.
- SocketSchedulers.BasicTaskScheduler.SingleStep: the handler set is a sequence of handlers and not a linked list of descriptors; a handler that runs the event loop again, `select` itself, its errors and the dummy socket of Windows are not modelled.
- NalFragments.StreamReassembles: units that fit a packet must not have an aggregation or fragmentation type (NalFragments.SpecialTypesAreMisread), and have at least their header; below the limits 4 and 6 continuation headers would overwrite the saved ones.
- Reordering.SessionGivesIntactUnits: packets that carry one fragment or unit; aggregation packets are taken apart on their own (Aggregations.Packet264ComesApart, Aggregations.Packet265ComesApart). RTP header parsing, jitter, source changes and delivery by way of the event loop are not modelled. The packets are a sequence and not a linked list.
- Arriving.LossesAreGivenUp: for packets that arrive in order; one that arrives after it has been given up is refused (Reordering.StoreTracks).
- Collecting.CollectsIntactUnits: for packets whose headers are accepted; streams with others in them are the subject of Rejecting.IntactDespiteRejectedIff, which asks for a client's buffer that no unit fills to the last byte.
- NalReceivers.TracksFromStart: takes the DONL fields as read; that the code looks for one in every fragment, and for none in a single NAL unit packet, is modelled as it is and not compared with RFC 7798.
- AmrTheorems.GroupsComeOutInOrder: one frame-block per packet, constant ILL and places below 255 (AmrTheorems.GroupComesOutIff shows why); with several frame-blocks and ILL above zero, groups overlap in the code's bins.
- AmrDeinterleavers.AMRDeinterleavingBuffer.RetrieveFrame: the presentation time of an erasure before the first frame is uninitialised in the source and is some fixed value here.
- AmrUnpack.UnpackBandwidthEfficientData: the empty payload, and a single octet that announces more entries, are excluded, as what is written for them does not fit the buffer of twice the payload (AmrUnpack.BufferSufficesIff); padding bits are arbitrary.
- HashTables.BasicHashTable.Add: up to 2^30 buckets, beyond which the 32-bit counts would overflow; keys are values, and copying and freeing them is not modelled; a stored null pointer is not told from a missing key, as in the source.
- NalParsers.ReadStream: the two banks of StreamParser are one sequence, so that the limit of 150000 bytes between saved states is not modelled; without start codes in the output there must be no empty unit, on which the framer stops asking for data; the client's buffer has room for every unit, longer ones being cut short and counted as truncated.
- NalParsers.H264or5VideoStreamParser.Parse: frame rates and presentation times, and the analysis of VPS, SPS and SEI units for them, are not modelled.
- ElementaryStreams.ReadWritten: for payloads that do not end in an odd number of zeros, as section 7.4.1 of ITU-T H.264 has it, and headers that look neither like a start code nor like an escaped byte.
- EmulationBytes.RemoveEmulationBytes: states what the wrapper does; SPS theorems are therefore about the bits given to the bit vector.
- H263Parsers.ReadAll: the buffer has room for every frame and 14 bytes, which the code wants because a macro lacks parentheses (with less the parser gives nothing out and does not go on); durations belong to the frame before. GetMaxBitrate is not called by the source and not modelled.
- H263.FramesTile: frames of at most five bytes are not given out as they are (H263.FrameIntactIff).
- BitVectors.BitVector.GetBits: 32 bits when none is left is excluded, a shift by the width of the word being undefined in C++; likewise for GetExpGolomb with 32 leading zeros at the end.
- SpsParser.ParseSequenceParameterSet: for bit strings whose Exp-Golomb elements the reader defines, see BitVectors.BitVector.GetBits above.
- SpsTheorems.SpsDecodes: profiles the parser lists; a profile that carries chroma fields but is not listed is misread.
- HevcSps.ReadHevcSize: what the branch reads after the size is dropped there and left out here, as are ParseVideoParameterSet, which gives no result, and the limit of seven on sub-layers beyond three bits.
- Base64.Base64Decode: octets are numbers, so that shifts are divisions; a null input is not modelled.
- Sockets, multicast, files, threads, Windows events, HTTP and JSON code: input and output only; their results (ready sets, times, packets) are arguments.
- The FFmpeg muxer, the relayer and the live streamer: wrappers around libraries.
- GenericMediaServer, digest authentication, locales, AVI files, JPEG headers, small framers, sinks and subsessions: life cycles and fixed layouts.
