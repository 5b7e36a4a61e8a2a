# White Rabbit PTP core firmware: verified models

This project models the algorithms of the White Rabbit PTP core firmware whose correctness depends on
whole runs, whole buffers or every input, and proves what they promise. Each `.dfy` file holds one
module. State that the firmware changes in place is a class or an array here, each method is proved
against a specification function, and the results are lemmas about those functions.

| area | modules | main results |
|---|---|---|
| 1-Wire ROM search | `OneWire` | the scan lists exactly the attached devices, in order, if and only if no two listed neighbours first differ above bit 31 (up to the last table slot) and the table left by an earlier scan does not mislead it |
| SNMP agent | `SnmpOid`, `SnmpMib`, `SnmpAgent` | the in-place two-level search answers GETNEXT with the least instance after the request, so that asking it again and again from its own answers visits every instance once; when nothing is left, exactly when the reply still carries the name asked for |
| receive timestamps | `RxTimestamp` | seconds, nanoseconds and phase denote the arrival instant if and only if the read-out comes in time |
| socket queue | `SocketRing` | the byte ring is a first-in first-out queue of packets, until a truncating receive ends exactly at its end |
| transition calibration | `RxCalibrator` | a scan finds the edge of every clean square wave to one step |
| SoftPLL | `PiController`, `LockDetector`, `HelperPll`, `PhaseTracker`, `Sequencer` | bounds, tracking and lock guarantees over every run of tags; the tag from which a startup is ready, in every mode; what a phase tracker shows after any run |
| storage | `SdbFs`, `Storage`, `SfpDb` | layout and reformat of the file system, and erasing a file by its name spares all others; the SFP database is a bounded upsert map on bytes |
| network and serial frames | `UdpFrames`, `SerialFrames` | checksums a receiver accepts; exactly which frames and which streams of frames arrive |
| numbers and dates | `Division`, `NumberText`, `CivilDate`, `DateText` | shift-subtract division, the number printer and the parsers that undo it; seconds to civil date, exactly until March 2100; the text of a time sorts as the time |

`Arith` and `Octets` hold shared facts on division and on numbers stored as bytes.

## Where the code falls short

Each of these is modelled as the code behaves, with the exact condition under which it goes right.

- The scan of the 1-Wire bus keeps its branch choice in an `int`, so a choice at bits 32 to 63 is lost
  (`OneWire.HighWordConflictBreaksScan`). It also starts from the first entry of the old table, so a bit set
  there and not in the first device misleads it (`OneWire.StaleTableBreaksScan`). `OneWire.ScanExactIff`
  has the exact condition, for any bus and any old table.
- A GETNEXT that finds nothing answers noSuchName, but the search has written over the name asked for
  (`SnmpAgent.EmptyTableLosesName`). `SnmpAgent.Respond` says exactly when the name survives, and at the end
  of a walk it does iff the last limb is a group that ends with an object the version can be sent
  (`SnmpAgent.WalkEndKept`).
- The seconds fix-up of a received frame is right if the read-out comes less than a quarter second after
  the latched tick. A quarter second counted from the arrival itself can be too late
  (`RxTimestamp.QuarterSecondFromArrivalIsLate`, `RxTimestamp.ReceivedExactIff`).
- A truncating receive that ends exactly at the end of the ring leaves the tail one past the last byte,
  because the wrap test is `>` (`SocketRing.TruncationLeavesRing`, `SocketRing.SockQ.RecvFrom`).
- The serial sender does not escape the length byte, and a checksum equal to the escape character
  leaves the parser's escape count odd. A 36-byte message can be lost for the first reason, the frame
  after such a checksum for the second (`SerialFrames.FrameArrivesIff`, `SerialFrames.StreamArrivesIff`).
- An SFP part number that contains 0xff is written but not counted as an entry, so that a later match does
  not find it (`SfpDb.UpsertIsMapUpdate`).
- The helper PLL takes the first tag itself for the setpoint of the second, one cycle too early, so a
  reference that ticks in step from the start is a cycle off and never locks (`HelperPll.InStepNeverLocks`).
  The loop has to pull that cycle in, and it locks exactly `lock_samples` tags after it has
  (`HelperPll.HelperPullsIn`).
- A lock detector with `delock_samples` above `lock_samples`, as the main PLL's frequency branch has, never
  unlocks (`LockDetector.Hysteresis`, `LockDetector.NeverUnlocks`).
- Opening a file ignores that the directory record is not one. If the scan before has found its file and
  left records, as many are then read from the entry point on (`Storage.Sdbfs.OpenId`,
  `Storage.NoDirectoryFailsIff`).
- The size of a 36-byte packet is taken from the frame before, because its length byte looks like an escape
  (`SerialFrames.SizeIsLengthIff`).
- If both detectors of the calibration tell the same phase, the result is half of it
  (`RxCalibrator.CombineIsMiddle`).
- A phase tracker set to average one sample never gets ready (`PhaseTracker.RunPublishes`).
- The leap-year rule is "every fourth year", so dates are wrong from 1 March 2100 on
  (`CivilDate.ConversionExactIff`).

Constants of the board are parameters: the clock has period `period` picoseconds with `period % 4000 == 0`
and `freq` ticks a second with `freq % 16 == 0`. `unsigned long` is taken as 32 bits, as on the 32-bit
soft processors, and `char` as unsigned: with a signed one the test of a part number for 0xff could not
hold. Nothing in the project is executed; every
claim is a statement proved by the Dafny verifier. `dafny verify dfyconfig.toml` checks all of it.

## Model

| member | source | states |
|---|---|---|
| OneWire.Bus.Reset | dev/w1.c:59-61 | a reset reports presence iff a device is attached and makes every device active |
| OneWire.Bus.ReadBit | dev/w1.c:38-39 | the wired-AND bus reads one iff all active devices send one, the bit first and its complement second |
| OneWire.Bus.WriteBit | dev/w1.c:40-44 | exactly the active devices with that bit stay active |
| OneWire.Bus.GetDibit | dev/w1.c:34-46 | zero, one or conflict reflect which bit values the active devices have, and the survivors are those of the branch taken |
| OneWire.Bus.SearchBit | dev/w1.c:68-83 | one bit of a pass: a lone one sets the bit, a conflict not yet resolved is noted in the mask, with the `int` cut of the choice |
| OneWire.Bus.ScanOne | dev/w1.c:53-85 | a pass reports the device the request isolates, with its conflicts, iff any device is attached |
| OneWire.IsolatedUnique | dev/w1.c:53-85 | a request isolates at most one device |
| OneWire.FirstPass | dev/w1.c:94-127 | from a request with no bit that the first device lacks, the first pass finds that device and all its pending branches |
| OneWire.NextPass | dev/w1.c:98-127 | a pass resolved at a conflict below bit 32 finds the next device in order and its pending branches |
| OneWire.StuckPass | dev/w1.c:56-83 | a pass resolved at a conflict above bit 31 finds the same device again and reports a phantom with that bit set |
| OneWire.NextRequest | dev/w1.c:98-123 | the next request sets the highest pending conflict and clears what is above, or there is none pending |
| OneWire.Bus.ScanBus | dev/w1.c:87-130 | the device table holds the specified scan of the attached set, at most MAX_DEVICES entries |
| OneWire.RestExactIff | dev/w1.c:94-129 | the rest of a scan is right iff every further conflict is harmless |
| OneWire.ScanExactIff | dev/w1.c:53-130 | for every bus and every first entry of the old table: the scan lists the attached devices once each in LSB-first order, cut to the table, iff the first device has all bits of that entry and every neighbour conflict is harmless |
| OneWire.ScanEnumerates | dev/w1.c:53-130 | it does for devices that differ in their low 32 bits, and a second scan over the old table gives the same list |
| OneWire.HighWordConflictBreaksScan | dev/w1.c:56-69 | two devices differing only at bit 32 are not both listed |
| OneWire.StaleTableBreaksScan | dev/w1.c:94-127 | a lone device is misreported whenever the old first entry has a bit it lacks |
| OneWire.ListingExists | dev/w1.c:87-130 | every set of devices has such an ordered list |
| SnmpOid.MemCmp | lib/snmp.c:1802-1803 | the comparison is -1, 0 or 1, with the first difference as witness |
| SnmpOid.LessAsymmetric | lib/snmp.c:1802-1803 | the order on object identifiers has no cycle of two and no fixed point |
| SnmpOid.LessTransitive | lib/snmp.c:1802-1803 | the order on object identifiers is transitive |
| SnmpOid.LessIsPrecedes | lib/snmp.c:1802-1803 | the order is the one read number by number from the front, where what has run out comes first |
| SnmpAgent.GetValue | lib/snmp.c:907-954 | writes the type-length-value of the datum, or nothing for a 64-bit counter in version 1, and leaves the bytes before it |
| SnmpAgent.TryTwig | lib/snmp.c:442-537 | looking at one twig either answers the request from the twigs from here on or leaves the same answer to the rest, though the packet was overwritten |
| SnmpAgent.SearchGroup | lib/snmp.c:442-537 | the loop over the twigs answers from the whole group; if it finds nothing the packet names the last twig it passed, or is as before |
| SnmpAgent.FuncGroup | lib/snmp.c:428-537 | a group search leaves in the packet exactly the entry the flat list of the group gives for the request, or nothing, and then says when the request is still there |
| SnmpAgent.FindColumn | lib/snmp.c:574-617 | stops at the first column not passed by the request, and says whether to use its first row or to step the row named |
| SnmpAgent.NextCell | lib/snmp.c:629-663 | stepping the row leads to the first cell after the request: the next row, or the first row of the next column |
| SnmpAgent.SearchColumns | lib/snmp.c:574-663 | finding the column and stepping the row together answer from the flat list of cells, and say when a fruitless search keeps the request |
| SnmpAgent.FuncTable | lib/snmp.c:539-677 | a table search leaves in the packet exactly the entry the flat list of cells gives, or nothing |
| SnmpAgent.SearchLimb | lib/snmp.c:1821-1849 | a search below a limb leaves the packet naming the limb and, with it, the answer below |
| SnmpAgent.TryLimb | lib/snmp.c:1784-1866 | looking at one limb either closes the search with the answer from all limbs or leaves the same answer to the rest |
| SnmpAgent.SearchLimbs | lib/snmp.c:1784-1866 | the loop over the limbs gives the answer from the flat list and says when a request without one is kept |
| SnmpAgent.Respond | lib/snmp.c:1784-1879 | GET is answered by the instance of that name and GETNEXT by the least one after it in the order of identifiers, as name and type-length-value in place, or by nothing if there is none (noSuchName); with nothing found, the name asked for survives for every GET and exactly under NameKept for GETNEXT |
| SnmpAgent.WalkEndKept | lib/snmp.c:1838-1866 | asked for what comes after the last instance, the reply keeps the name iff the last limb is a non-empty group whose last object can be sent in the version |
| SnmpAgent.LastLimb | lib/snmp.c:1784-1866 | the last instance is the last of the last limb that has any |
| SnmpAgent.EmptyTableLosesName | lib/snmp.c:594-597 | with an empty last table the name of the last instance does not survive |
| SnmpAgent.AskNext | lib/snmp.c:1784-1874 | GETNEXT on the packet replaces the name by the next instance, or reports none |
| SnmpAgent.WalkAgent | lib/snmp.c:1784-1874 | GETNEXT fed with its own replies collects exactly the instances after the first request, in order, and ends |
| SnmpAgent.WalkAll | lib/snmp.c:1784-1874 | from the empty name it collects the names of all instances, each once, in the order of identifiers |
| SnmpMib.FlatIff | lib/snmp.c:907-954 | an entry is in the flat list iff it is an object of a known type, a 64-bit counter only for versions after the first, or a cell of a table, with type byte, length byte and contents |
| SnmpMib.NoCounterToV1 | lib/snmp.c:926-931 | version 1 gets no instance of type Counter64 |
| SnmpMib.CounterSentIff | lib/snmp.c:926-931 | a 64-bit counter of a group is an instance iff the version is not the first |
| SnmpMib.FirstIsAnswer | lib/snmp.c:1808-1817 | the search of the flat list gives what section 4.1.3 of RFC 1157 asks of GETNEXT, over all instances |
| SnmpMib.LookupIsAnswer | lib/snmp.c:1818-1822 | and what section 4.1.2 asks of GET |
| SnmpMib.FlatSorted | lib/snmp.c:1784-1866 | the flat list of all instances of a well-formed table is strictly sorted |
| SnmpMib.FirstAfterIsLeast | lib/snmp.c:1808-1817 | the entry found is the least greater than the request, and none is found iff there is none (section 4.1.3 of RFC 1157) |
| SnmpMib.WalkIsComplete | lib/snmp.c:1784-1874 | on the flat list, repeated search from any name visits exactly the later instances, once each, in order, and ends |
| SnmpMib.WalkVisitsAll | lib/snmp.c:1784-1874 | on the flat list, a walk from the empty name is the whole sorted list |
| RxTimestamp.AheadIsDifference | dev/minic.c:225-230 | the flag computed modulo 16 is set iff the rising counter is one ahead of the falling one |
| RxTimestamp.Timestamp.LinearizeRx | lib/net.c:98-163 | the in-place method computes the linearised seconds, nanoseconds and phase of its specification |
| RxTimestamp.LinearizeTick | lib/net.c:98-163 | whichever counter was misread, phase is the fraction of the period and the nanoseconds move by the tick the rising counter was off |
| RxTimestamp.LinearizeShift | lib/net.c:98-163 | the total denotes tick and fraction up to the error of the seconds alone; nanoseconds are in range from one period on |
| RxTimestamp.SecondIsRightIff | dev/minic.c:215-223 | the seconds fix-up is right iff the read-out is in time |
| RxTimestamp.ReceivedExactIff | dev/minic.c:215-233 | for every latched counter pair the timestamp is exactly the arrival iff the read-out is in time, and nanoseconds stay in range |
| RxTimestamp.QuarterSecondIsInTime | dev/minic.c:219-221 | less than a quarter second after the latched tick is in time |
| RxTimestamp.QuarterSecondFromArrivalIsLate | dev/minic.c:219-221 | less than a quarter second after the arrival is not always in time |
| RxTimestamp.ArrivalIsExact | dev/minic.c:215-233 | for every arrival instant and every counter pair allowed, the timestamp denotes that instant |
| SocketRing.SkipTailLands | lib/net.c:182-186 | the skip loop brings the tail to its residue, except that a whole number of laps leaves it at the size |
| SocketRing.SkipInRangeIff | lib/net.c:182-186 | a skip from inside the ring ends inside it iff it does not end exactly at the size |
| SocketRing.PushByte | lib/net.c:190-204 | writing at head appends to the stored bytes |
| SocketRing.PopMany | lib/net.c:166-188 | moving the tail drops that many stored bytes |
| SocketRing.RecordParts | lib/net.c:222-225 | a record splits into size, timestamp, header and payload |
| SocketRing.SockQ.constructor | lib/net.c:72-75 | an empty queue: no packet, all bytes available |
| SocketRing.SockQ.CopyOut | lib/net.c:190-204 | appends the bytes across the wrap and moves head to (tail + stored) mod size |
| SocketRing.SockQ.CopyIn | lib/net.c:166-188 | returns the oldest bytes, at most the buffer, and says where the tail lands |
| SocketRing.SockQ.Enqueue | lib/net.c:353-370 | appends the packet if its record fits, otherwise changes nothing; the tail stays, and the available bytes shrink by the record |
| SocketRing.SockQ.RecvFrom | lib/net.c:206-257 | takes the oldest packet intact, cut to the caller's buffer, and says where the tail lands; the queue stays well-formed iff no truncating skip ends at the size |
| SocketRing.TruncationLeavesRing | lib/net.c:182-186 | every packet that fills its ring, received with a one-byte buffer, leaves the tail past the end |
| RxCalibrator.TransDetect.LookupTransition | dev/rxts_calibrator.c:82-119 | one detector step of the specification |
| RxCalibrator.TransDetect.BringDown | dev/rxts_calibrator.c:161-165 | a phase is brought into the period |
| RxCalibrator.Deglitches | dev/rxts_calibrator.c:82-119 | whatever the samples, the detector waits for the first five inactive ones in a row, then for the first five active ones in a row, and tells the step before them |
| RxCalibrator.DoneIff | dev/rxts_calibrator.c:82-119 | it is done iff five inactive samples in a row were followed by five active ones in a row |
| RxCalibrator.NormalizeIsResidue | dev/rxts_calibrator.c:161-165 | bringing a phase down is taking its residue |
| RxCalibrator.CombineIsMiddle | dev/rxts_calibrator.c:167-177 | of any two phases that differ, the result is the middle of the rising one and the falling one moved by half a period; of equal ones it is half the phase |
| RxCalibrator.ScanCourse | dev/rxts_calibrator.c:82-119 | after every sample of a clean wave the detector is where its course through quiet, transition and done says |
| RxCalibrator.DetectorFindsEdge | dev/rxts_calibrator.c:82-119 | at the end of the scan range the detector is done, one step before the edge |
| RxCalibrator.CombineAgrees | dev/rxts_calibrator.c:161-177 | both detectors, half a period apart, combine to the rising edge's step |
| RxCalibrator.CalibrationFindsEdge | dev/rxts_calibrator.c:138-193 | both detectors finish and the combined transition lies in the period, at most one step circularly before the edge |
| RxCalibrator.Calibrator.Transition | dev/rxts_calibrator.c:161-177 | computes the combined transition |
| RxCalibrator.Calibrator.Update | dev/rxts_calibrator.c:138-193 | one calibration step: sample both detectors, advance, and report success or failure at the end of the range |
| RxCalibrator.Sample | dev/rxts_calibrator.c:138-193 | one update on a clean wave keeps the scan on its course, and the last one calibrates near the edge |
| RxCalibrator.Calibrate | dev/rxts_calibrator.c:196-220 | a full calibration returns a transition in the period at most one step before the edge, for every edge |
| PiController.SpllPi.PiInit | softpll/spll_common.c:49-53 | resets the controller to its bias |
| PiController.SpllPi.PiUpdate | softpll/spll_common.c:17-47 | one controller step of the specification |
| PiController.StepInFull | softpll/spll_common.c:17-47 | the output is the bias and the weighted sum divided by 2^shift, rounded to the nearest and kept in range; the integral grows by ki times the input unless anti-windup holds it |
| PiController.StepRounds | softpll/spll_common.c:22-26 | every step has such a rounded quotient, and the divisor is twice the rounding term |
| PiController.UpdateKeepsBounds | softpll/spll_common.c:17-47 | a step with bounded input keeps the integrator between its two bounds and the output in its range |
| PiController.RunIsBounded | softpll/spll_common.c:17-53 | so does every run from the initial state |
| PiController.RunIsLaw | softpll/spll_common.c:17-47 | until the textbook law (ki times the sum plus kp times the last input, rounded) leaves the range the controller is exactly that law, and then its clamped value |
| PiController.SumIsBounded | softpll/spll_common.c:22-26 | the sum before the shift is bounded by the gains |
| PiController.NeverTruncates | softpll/spll_common.c:22-26 | for any gains and input bound, a step of the output stays within the output range and the given margin before the clamp |
| PiController.HelperNeverTruncates | softpll/spll_helper.c:104-123 | for every board, both start biases and both gain signs of the helper, no 64-bit sum overflows, the cast to int never truncates and the output stays in its range |
| LockDetector.LockDet.LdInit | softpll/spll_common.c:92-97 | resets the detector |
| LockDetector.LockDet.LdUpdate | softpll/spll_common.c:65-90 | one detector step; returns 1 when locked, -1 when lock was just lost, else 0 |
| LockDetector.CountIsEvidence | softpll/spll_common.c:65-90 | over any run and for any limits the count is bounded and backed by as many good samples since the last reset, or bad ones since locking |
| LockDetector.Hysteresis | softpll/spll_common.c:65-90 | locking takes lock_samples good samples; unlocking takes the difference in bad ones, or one if there is none, and never happens with delock_samples above lock_samples; the changed flag marks exactly the transitions |
| LockDetector.SteadyInputSettles | softpll/spll_common.c:65-90 | steady good input locks within those numbers, and steady bad input unlocks iff delock_samples is not above lock_samples |
| LockDetector.NeverUnlocks | softpll/spll_common.c:78-88 | with delock_samples above lock_samples a lock is for ever |
| LockDetector.PullIn | softpll/spll_common.c:65-90 | the state of the detector after every sample of a run that is bad and then good |
| LockDetector.ClimbIsBest | softpll/spll_common.c:65-90 | before the first lock the count is exactly the number of good samples up to delock_samples, and then the best net gain over any stretch that ends now |
| LockDetector.HoldIsWorst | softpll/spll_common.c:65-90 | while locked it is exactly lock_samples less the worst net loss over any stretch since the lock |
| HelperPll.HelperState.HelperInit | softpll/spll_helper.c:68-71 | changes the reference channel and nothing else |
| HelperPll.HelperState.HelperStart | softpll/spll_helper.c:140-162 | resets the helper with its detector and its controller, whose bias is the lower limit when the loop is reversed and the upper one when not |
| HelperPll.HelperState.HelperUpdate | softpll/spll_helper.c:73-138 | one helper step of the specification, for its own and foreign tags; the DAC is set to the controller output with every tag but the first and foreign ones |
| HelperPll.WrapIsNoticed | softpll/spll_helper.c:97-99 | a gap below the tag range is recovered from two 22-bit tags |
| HelperPll.HelperTracks | softpll/spll_helper.c:89-121 | after any run of tags the accumulated time minus the setpoint is the true distance, through wraps and renormalisation |
| HelperPll.ErrorIsTrue | softpll/spll_helper.c:101-102 | the n-th error before clamping is t_n - t_0 - (n-1) * 2^14 |
| HelperPll.SetpointInRange | softpll/spll_helper.c:112-120 | with errors bounded by E the setpoint stays in [0, 10^8 + E + 2^14] |
| HelperPll.NoOverflow | softpll/spll_helper.c:89-121 | no intermediate value leaves 32 bits |
| HelperPll.LoopsSeeTrueErrors | softpll/spll_helper.c:104-131 | controller and lock detector are in the state the clamped true errors put them |
| HelperPll.HelperPullsIn | softpll/spll_helper.c:89-131 | with errors out of range before tag k and in range from there on, the helper is locked exactly from k + lock_samples tags on |
| HelperPll.HelperSettles | softpll/spll_helper.c:89-131 | whatever the errors before tag k, in range from there on they have the helper locked after k + lock_samples tags |
| HelperPll.InStepNeverLocks | softpll/spll_helper.c:89-95 | tags exactly one cycle apart from the first on never lock the helper, whose setpoint starts a cycle early |
| PhaseTracker.PTrackers.Update | softpll/spll_ptracker.c:42-97 | one tag: a main tag becomes the reference of all channels, a tag of a started channel steps that tracker alone by its distance from the reference modulo 2^14 |
| PhaseTracker.PTrackers.Accumulate | softpll/spll_ptracker.c:71-96 | the table lookup and the running average are a step of the specified tracker |
| PhaseTracker.PTrackers.StartTracker | softpll/spll_ptracker.c:30-40 | restarts one channel, keeps the phase it shows and every other channel |
| PhaseTracker.PTrackers.SetAverage | softpll/softpll_ng.c:512-525 | restarts one channel with another average |
| PhaseTracker.AdjustedIsUnwrapped | softpll/spll_ptracker.c:46-51 | the quarter table unwraps any phase within a quarter of the first |
| PhaseTracker.AccumulatorIsSum | softpll/spll_ptracker.c:71-88 | within a window the accumulator is the sum of the unwrapped phases |
| PhaseTracker.WindowPublishesMean | softpll/spll_ptracker.c:78-95 | a full window publishes the truncated mean and starts the next |
| PhaseTracker.RunPublishes | softpll/spll_ptracker.c:78-96 | at every moment of a run the tracker is ready iff a full window of at least two samples was seen, and a close last window shows as its truncated mean |
| PhaseTracker.ChannelRun | softpll/spll_ptracker.c:42-97 | over every run of tags and commands a channel depends on its own tags and the main tags before them, since it was last started |
| PhaseTracker.ReadIsMean | softpll/softpll_ng.c:492-510 | the value read, doubled for halved clocks, is the mean modulo 2^14 and lies in [0, period) picoseconds |
| PhaseTracker.ReadAfterRun | softpll/softpll_ng.c:492-510 | after every run a reader finds a channel ready iff it has seen a full window since its last start, and then its mean if the window was close |
| PhaseTracker.AccumulatorFits | softpll/spll_ptracker.c:87 | with an average of up to 104857 samples no accumulator and no sum with the next sample, the full window included, overflows in any run |
| Sequencer.SoftPll.SpllInit | softpll/softpll_ng.c:293-365 | initial state for the mode, with the lock bit and the delock count cleared and the helper on the reference of the mode: uplink, local clock or external channel |
| Sequencer.SoftPll.SequencingFsm | softpll/softpll_ng.c:97-220 | one sequencer step of the specification, whose ways into and out of every state are StartupTime, ReadyIsEarned and ReadyIsLeftIff |
| Sequencer.SoftPll.IrqEntry | softpll/softpll_ng.c:222-268 | serving queued tags is the run of their steps: state machine, helper, and the main PLL while the helper is locked |
| Sequencer.StepKeepsSound | softpll/softpll_ng.c:97-241 | every step keeps: the reference lock bit is set exactly in Ready, waiting for the helper a lock implies the changed flag, waiting for the main PLL its lock implies the helper's; and the delock count counts exits from Ready |
| Sequencer.RunIsSound | softpll/softpll_ng.c:97-268 | over every run the invariant holds and the delock count is the number of exits from Ready |
| Sequencer.HelperLockIsSeen | softpll/softpll_ng.c:172-188 | the helper wait ends with the next tag iff the helper is locked; no lock edge is lost |
| Sequencer.ReadyIsEarned | softpll/softpll_ng.c:152-206 | Ready is entered only with the helper locked and every other lock its mode needs, so that the same state would not leave it again |
| Sequencer.ReadyIsLeftIff | softpll/softpll_ng.c:208-217 | in every run Ready is left with the next tag iff the helper, a slave's main PLL, or a grandmaster's main PLL or external reference is not locked; then the lock bit falls, the delock count rises and all starts over |
| Sequencer.LoopsByState | softpll/softpll_ng.c:222-241 | in every run the helper is started exactly in its two start states, and the main PLL is reset in its own and handed the tag iff the helper is locked |
| Sequencer.HelperHears | softpll/softpll_ng.c:222-226 | in a mixed run the helper is where the tags of its own channel alone put it |
| Sequencer.LockTime | softpll/spll_helper.c:89-131 | in a mixed run the helper is locked exactly from its own tag number k + lock_samples on, when its errors come into range with tag k |
| Sequencer.StartupTime | softpll/softpll_ng.c:97-241 | for every mode and any mix of channels, the sequencer is after every tag in the state due by the times at which DACs, helper, main PLL and external reference were ready, and itself ready exactly from the tag they give |
| Sequencer.StartupAfterPullIn | softpll/softpll_ng.c:97-241 | the startup on a reference the helper pulls in: the state after every tag, with the helper's lock at that tag |
| SdbFs.SetRangeFields | dev/storage.c:114-119 | rewriting a range changes only first and last address |
| SdbFs.Align | dev/storage.c:67-70 | the least multiple of the block not below the address |
| SdbFs.LayoutKeepsFiles | dev/storage.c:108-121 | files are aligned, behind the directory, and keep length and names |
| SdbFs.LayoutIsDisjoint | dev/storage.c:108-121 | no two files share a block |
| SdbFs.LayoutInFull | dev/storage.c:108-125 | the layout by the bytes of the records: where the directory starts and ends, that each file starts at the first block free, keeps its length, and that nothing else changes |
| SdbFs.ReformatForgets | dev/storage.c:108-125 | formatting a formatted image elsewhere gives the layout of formatting there first |
| SdbFs.EraseIsLocal | dev/sdbfs.c:135-145 | erasing a whole file by sectors touches neither the directory nor any other file |
| Storage.StorageDevice.Erase | dev/spi_flash.c:135-147 | erases exactly the sectors that cover the range |
| Storage.StorageDevice.Write | dev/spi_flash.c:66-90 | programming flash clears bits, another chip takes the bytes; blank bytes take what is written, and no others change |
| Storage.BlankTakes | dev/spi_flash.c:66-90 | an erased byte takes every value |
| Storage.RelocatedIsLayout | dev/storage.c:108-125 | the running-address loop computes the declarative layout |
| Storage.RelocateFiles | dev/storage.c:113-121 | the loop over the files in place |
| Storage.Relocate | dev/storage.c:108-125 | the image in memory becomes the layout |
| Storage.EraseAll | dev/storage.c:72-89 | erases one block for every record from the base on, and nothing else |
| Storage.WriteDirectory | dev/storage.c:143-148 | the records are stored from the base on if the bytes there were blank or the chip is no flash, and nothing else changes |
| Storage.Format | dev/storage.c:91-159 | if the erased blocks reach to the end of the directory, or the chip is no flash, the device holds the relaid-out directory; the erased blocks behind are blank, all else is as before |
| Storage.AlignedReaches | dev/storage.c:72-89 | they reach it from a block boundary on with blocks of at least a record |
| Storage.Sdbfs.ScanNewDir | dev/sdbfs.c:36-54 | opens the directory at the entry point iff its record is an interconnect with the magic number, else leaves the scan where it was |
| Storage.Sdbfs.ScanNext | dev/sdbfs.c:56-86 | steps through the records in order and ends when none is left |
| Storage.Sdbfs.OpenId | dev/sdbfs.c:88-108 | opens the first candidate with the identifiers, with its range, iff there is one; candidates are the directory's files or, without a directory, what the scan before had left |
| Storage.Sdbfs.Search | dev/sdbfs.c:97-107 | the scan loop ends at the first match or with no record left |
| Storage.NoDirectoryFailsIff | dev/sdbfs.c:97-107 | without a directory record every open fails iff the scan before had left nothing |
| Storage.Sdbfs.EraseFile | dev/sdbfs.c:135-145 | erases exactly the sectors of the open file |
| Storage.FormatKeepsDirectory | dev/storage.c:91-159 | a formatted directory can be mounted |
| Storage.FormatKeepsNames | dev/storage.c:91-159 | each file is found under the same identifiers as before |
| Storage.FileSectors | dev/storage.c:108-121 | the sectors of a laid-out file start at its first address, cover it and stay on the device |
| Storage.FormatAndMount | dev/storage.c:91-159 | after formatting, the directory found at the base is the layout, under the condition of Format |
| Storage.EraseNamed | dev/sdbfs.c:88-145 | opening a file of a formatted device by its identifiers gives its laid-out range, and erasing it blanks that file, keeps the directory readable and spares every other file |
| SfpDb.DecodeEncode | dev/storage-sfp.c:62-149 | a record read back has a good checksum and the values written |
| SfpDb.RecordBytes | dev/storage-sfp.c:122-144 | the 33 bytes of a record: part number, alpha and delays in network order, sum of all |
| SfpDb.ChecksumDetects | dev/storage-sfp.c:108-116 | a record with any one byte changed is refused |
| SfpDb.SamePnEquivalence | dev/storage-sfp.c:165 | comparing part numbers is an equivalence |
| SfpDb.SamePnIff | dev/storage-sfp.c:165 | two part numbers are the same iff they do not differ at or before the first NUL |
| SfpDb.FilledPnIff | dev/storage-sfp.c:165 | part numbers filled up with NUL are the same iff they are equal |
| SfpDb.AppendedStores | dev/storage-sfp.c:122-144 | writing a record behind the last makes the bytes store one entry more, or the same entries if its part number has a 0xff |
| SfpDb.StoredBytes | dev/storage-sfp.c:78-90 | where the bytes of an entry lie in the file |
| SfpDb.FreeBytes | dev/storage-sfp.c:50-62 | every place behind the entries has a 0xff in its part number |
| SfpDb.MatchIsFirst | dev/storage-sfp.c:212-231 | a match gives the values of the first entry with that text, or nothing |
| SfpDb.ErasedStoresNothing | dev/storage-sfp.c:36-47 | an erased file stores the empty database |
| SfpDb.UpsertIsMapUpdate | dev/storage-sfp.c:191-231 | after adding an entry a match on that text returns its values, unless it is new and has a 0xff or finds four entries, and is as before for every other text |
| SfpDb.UpsertEntries | dev/storage-sfp.c:151-210 | adding changes the values of the entries with that text and no others, or appends one; the order stays |
| SfpDb.Database.CountEntries | dev/storage-sfp.c:78-90 | counts the stored entries |
| SfpDb.Database.EntryGet | dev/storage-sfp.c:72-121 | returns the count and the entry at a stored position, the error of a position past the table, and between count and table the verdict of the checksum |
| SfpDb.Database.WriteEntry | dev/storage-sfp.c:122-149 | writes the record behind the last |
| SfpDb.Database.EntryAdd | dev/storage-sfp.c:78-149 | appends the entry, whatever its part number, or reports a full database and changes nothing |
| SfpDb.Database.LoadUpdated | dev/storage-sfp.c:159-171 | loads all entries with those of the part number updated |
| SfpDb.Database.Rewrite | dev/storage-sfp.c:173-188 | after an erase the entries written one by one are the stored database |
| SfpDb.Database.UpdateSfp | dev/storage-sfp.c:151-189 | rewrites the file with order and other entries kept |
| SfpDb.Database.MatchSfp | dev/storage-sfp.c:212-231 | finds the first entry of the part number |
| SfpDb.Database.AddSfp | dev/storage-sfp.c:191-210 | the stored bytes go from one database to its upsert; a full database is unchanged |
| Octets.FromBEHead | lib/udp.c:59-60 | a stored number has its most significant byte first |
| UdpFrames.FoldIsResidue | lib/ipv4.c:42-55 | the one's-complement sum is the residue modulo 0xffff, zero only for zero |
| UdpFrames.TwoCarries | lib/ipv4.c:51-52 | two end-around carries are enough for a 32-bit sum |
| UdpFrames.ChecksumCompletes | lib/ipv4.c:51-54 | adding the checksum, or 0xffff for zero, gives all ones |
| UdpFrames.WordSumIsNumber | lib/ipv4.c:42-49 | the sum of the words is the number the bytes make, modulo 0xffff |
| UdpFrames.Ipv4Checksum | lib/ipv4.c:42-55 | the loop computes the checksum of the words without overflow |
| UdpFrames.FrameParts | lib/udp.c:14-78 | where addresses, ports, lengths, checksums and payload lie in the frame |
| UdpFrames.FrameFields | lib/udp.c:29-75 | the fields of a finished frame by their offsets: version, lengths, time to live, protocol, addresses, ports, payload |
| UdpFrames.ReplySwaps | lib/udp.c:20-27 | a reply swaps both addresses and ports |
| UdpFrames.UdpSumCompletes | lib/udp.c:29-54 | pseudo-header, UDP header and payload of any parity sum to 0xffff (RFC 768) |
| UdpFrames.IpSumCompletes | lib/udp.c:56-75 | the IP header sums to 0xffff (section 3.1 of RFC 791) |
| UdpFrames.ReceiverAccepts | lib/udp.c:14-78 | a receiver that takes both lengths from the finished frame finds IP header and rebuilt pseudo-header with datagram, as numbers, divisible by 0xffff, and a UDP checksum that is not zero |
| UdpFrames.UdpChecksum | lib/udp.c:47-54 | the UDP checksum field is never zero |
| UdpFrames.FillHeaders | lib/udp.c:29-42 | the pseudo-header and UDP header are written over the end of the IP header |
| UdpFrames.SumUdp | lib/udp.c:44-49 | sums the datagram with a pad byte that is put back |
| UdpFrames.FillIp | lib/udp.c:56-75 | the IP header replaces the pseudo-header |
| UdpFrames.FillUdp | lib/udp.c:14-78 | the buffer becomes the frame, payload and bytes behind it unchanged |
| SerialFrames.FoldConcat | dev/iuart.c:318-424 | parsing a stream is parsing its parts one after the other |
| SerialFrames.Payload | dev/iuart.c:384-423 | an escaped payload goes into buffer and checksum byte for byte from any byte boundary |
| SerialFrames.Tail | dev/iuart.c:350-381 | end and checksum report the packet iff the checksum is right, and leave the parser between frames |
| SerialFrames.CleanFrame | dev/iuart.c:318-424 | a deliverable frame is reported once with its payload |
| SerialFrames.FrameInFull | dev/iuart.c:453-470 | the frame on the line, byte by byte, with its checksum |
| SerialFrames.AnyStartArrives | dev/iuart.c:331-344 | a deliverable frame under any of the sixteen start characters is reported under it |
| SerialFrames.StartsAreStarts | dev/iuart.c:331-344 | no packet is reported under any other character, but for those without a start |
| SerialFrames.SizeIsLengthIff | dev/iuart.c:395-418 | the size advertised to the caller is the length of the packet, unless that is 36 and the frame before was not |
| SerialFrames.FrameAfterEsc | dev/iuart.c:331-337 | behind an ESC checksum a frame is never reported under its own start character |
| SerialFrames.LostFrame | dev/iuart.c:384-404 | a 36-byte message harmed by its length byte is never reported whole, whatever was reported before |
| SerialFrames.OnlyFirstIsWhole | dev/iuart.c:318-424 | from any parser state at most the first packet completed during a frame is as long as its payload |
| SerialFrames.MissedFrame | dev/iuart.c:331-337 | behind an ESC checksum no frame, of any payload, is reported whole |
| SerialFrames.FrameArrivesIff | dev/iuart.c:318-424 | a frame of any payload arrives iff it is under 128 bytes and its length byte does no harm |
| SerialFrames.NoneLate | dev/iuart.c:318-424 | a stream reported completely in the end was never behind |
| SerialFrames.StreamArrivesIff | dev/iuart.c:318-424 | a stream of any payloads is reported payload by payload iff each is deliverable and no checksum but the last is ESC |
| SerialFrames.EscChecksumLosesNextFrame | dev/iuart.c:331-337 | a one-byte message sent twice does not arrive twice |
| SerialFrames.LengthEscLosesFrame | dev/iuart.c:453-460 | a 36-byte message that begins with a start character does not arrive |
| SerialFrames.Receiver.constructor | dev/iuart.c:320-327 | the parser's initial state is between frames |
| SerialFrames.Receiver.ParseRawByte | dev/iuart.c:318-424 | one byte: the next parser state, and the start character iff a packet is complete in the buffer |
| SerialFrames.Receiver.CloseFrame | dev/iuart.c:358-381 | the checksum byte ends the frame and reports the packet iff it is right |
| SerialFrames.Receiver.TakeByte | dev/iuart.c:392-423 | the data branch with the overflow reset |
| SerialFrames.Sender.SendEscaped | dev/iuart.c:441-451 | sends the escaped byte and adds it to the checksum |
| SerialFrames.Sender.SendPayload | dev/iuart.c:462-463 | sends the escaped payload and sums it |
| SerialFrames.Sender.SendMessage | dev/iuart.c:453-470 | puts exactly the frame of the payload on the line |
| Division.Div64By32 | pp_printf/div64.c:22-53 | quotient and remainder for every 64-bit dividend and 32-bit divisor; nothing wraps |
| Division.Align | pp_printf/div64.c:37-40 | doubling stops with the remainder below twice the shifted divisor, inside 64 bits |
| Division.Subtract | pp_printf/div64.c:42-49 | the subtract loop keeps dividend = quotient * base + remainder and ends below the base |
| Division.DoDiv | pp_printf/vsprintf-full.c:43-53 | the wrapper divides either way |
| NumberText.DigitsDenote | pp_printf/vsprintf-full.c:141-148 | the digits denote the number, with no leading zero |
| NumberText.DigitCodes | pp_printf/vsprintf-full.c:107-148 | digits by their character codes, in both cases |
| NumberText.TextFillsField | pp_printf/vsprintf-full.c:105-183 | the text has length max(width, sign + prefix + max(precision, digits)) |
| NumberText.TextInFull | pp_printf/vsprintf-full.c:105-183 | every printed text is spaces, sign, prefix, zeros, the digits of the magnitude in the case asked for, and spaces, each as the flags, width and precision want |
| NumberText.ConvertDigits | pp_printf/vsprintf-full.c:146-148 | the digit loop fills the scratch buffer in reverse and within its bounds |
| NumberText.Convert | pp_printf/vsprintf-full.c:141-148 | the scratch buffer read backwards is the digits |
| NumberText.Pad | pp_printf/vsprintf-full.c:155-157 | a padding loop writes what is missing and leaves nothing to the next |
| NumberText.WriteField | pp_printf/vsprintf-full.c:153-181 | sign, prefix, zeros and digits with the padding where the flags want it |
| NumberText.Number | pp_printf/vsprintf-full.c:105-183 | the printer appends exactly the specified text, for every value, base, width, precision and flag |
| NumberText.FromDec | lib/util.c:247-267 | the decimal parser returns the signed number of the leading digits and the unread rest |
| NumberText.FromHex64 | lib/util.c:212-235 | the same in hexadecimal, with 64 bits |
| NumberText.ParsedIs | lib/util.c:212-267 | a text of an optional minus, digits and a rest that does not start with one is read as that number, up to the rest |
| NumberText.ParsedCodes | lib/util.c:220-228 | which characters the parsers take for digits, and for how much |
| NumberText.ValueHead | lib/util.c:255-258 | the first digit weighs most |
| NumberText.WrapDigit | lib/util.c:255-258 | wrapping at each digit is wrapping once at the end |
| NumberText.ParsesBackIff | lib/util.c:247-267 | a printed number is read back iff its text starts with its sign or digits and has no prefix, or it was zero |
| NumberText.DecimalRoundTrip | lib/util.c:247-267 | fromdec undoes "%d" for every int |
| NumberText.HexRoundTrip | lib/util.c:212-235 | fromhex64 undoes "%llx" for every 64-bit word |
| NumberText.DecimalNeverOverflows | lib/util.c:247-267 | reading back any int but the least never leaves the range of int |
| CivilDate.SplitYear | lib/util.c:122-125 | counting years off ends in the year that contains the day |
| CivilDate.SplitMonth | lib/util.c:127-133 | counting months off ends within the table, on a day of the month |
| CivilDate.FormatTimeInt | lib/util.c:108-144 | the fields denote the low 32 bits of the seconds in the every-fourth-year calendar, day in year included; GregorianIff and FourthIff say what that is in numbers |
| CivilDate.DayAgreesIff | lib/util.c:17-23 | such a date is the Gregorian one iff it is before March 2100, and late otherwise |
| CivilDate.ConversionExactIff | lib/util.c:108-144 | the result is the Gregorian date and time of the input iff the input is before 1 March 2100 |
| CivilDate.GregorianIff | lib/util.c:17-23 | a date denotes a second in the Gregorian calendar iff month, day and time are in their ranges and the second is that of the closed formula, day of the year included |
| CivilDate.FourthIff | lib/util.c:108-144 | the same for the calendar of the firmware |
| CivilDate.FirstWrongDate | lib/util.c:22 | for 1 March 2100 the code shows 29 February, which does not exist |
| CivilDate.DateUnique | lib/util.c:108-144 | no two dates denote the same second |
| CivilDate.DateInOrder | lib/util.c:108-144 | dates come in the order of their seconds |
| DateText.FormatSorted | lib/util.c:98-102 | prints the sortable form from the number printer's fields |
| DateText.SortedTextReads | lib/util.c:98-102 | the text is YYYY-MM-DD-hh:mm:ss with the digits of the fields |
| DateText.FormatTime | lib/util.c:60-103 | from the seconds to the text: 19 characters of the date of the low 32 bits, which is the Gregorian date iff the time is before March 2100 |
| DateText.TimeIsPrintable | lib/util.c:60-103 | every 32-bit time has a four-digit year and its text 19 characters, within the buffer |
| DateText.SortedTextSorts | lib/util.c:98-102 | the order of the sortable texts is the order of the times |

## Left out

- The trackers of auxiliary channels: tags above the main channel change nothing in the bank of reference trackers.
- Main PLL: what it shows after a tag it is handed is an input (softpll/spll_main.c is not part of this model).
- The aligner of the external reference: whether it is done is an input of every tag, and it is not done before it has started the main PLL and seen it locked.
- Auxiliary channels and their writes to OCCR: the sequencer has one output channel, and its register writes are atomic.
- `func_aux_diag`, SNMP SET and the getters' own logic: object values are a snapshot in the table, table columns share their rows, have one-byte identifiers and no 64-bit counters.
- SNMP packet header matching, `snmp_prepare_error` and `snmp_fix_size`: easy byte loops around the search.
- SnmpAgent.Respond: requires a request within the packet and 120 bytes from its length byte on, fewer than the 200-byte packet leaves.
- `minic_rx_frame` apart from the timestamp: the loop over the receive FIFO talks to hardware registers.
- RxTimestamp.Timestamp.LinearizeRx: the transition point and the raw phase are inputs, and the clock read-out is a tick number.
- Socket lookup in `netif_poll` and `ptpd_netif_recvfrom`: the model starts at the chosen queue.
- SocketRing.SockQ.RecvFrom: states nothing about the queue's later use once a truncating skip has ended at the size.
- Phase stepping and hardware polling of `rxts_calibration_update`: each call gets the flip bit of a clean wave.
- `storage_mount`: the entry point is given.
- Storage.StorageDevice.Write: a program that crosses a page of the flash chip, which wraps there, is not described.
- Storage.Sdbfs.OpenId: excludes a directory record that counts zero records, whose scan runs on past the device.
- SfpDb.Database.WriteEntry: the file is an array that a write overwrites, so a slot must be blank on flash.
- SfpDb.Database.AddSfp: assumes device reads, writes and erases succeed.
- ICMP replies, BOOTP, syslog: no property beyond the UDP ones.
- The baud-rate, interrupt and register side of the serial device: bytes go out and come in as sequences.
- `pp_vsprintf` format scanning, `%s` and `%c`: the printer is proved from the call of `number` on.
- NumberText.FromDec: `int` overflow, undefined in C, is taken as wrapping.
- Legacy and syslog date forms: only the sortable form has an order to prove.
