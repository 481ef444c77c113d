# Verified models of the HAL's hardest parts

A Dafny 4.11 model of the parts of the hardware abstraction layer whose correctness
cannot be read off one function, with proofs. `dafny verify dfyconfig.toml` checks the
whole project.

## What is modelled

**The power-loss-safe journal** (`Bytes`, `Crc32`, `NorFlash`, `Journal*`). Two flash
regions hold an append-only log of records with commit markers; compaction rewrites the
log as one snapshot in the other region; mounting scans what is there. `JournalMemory`
is the driver itself, loop for loop, over `NorFlash.FileNorFlash`, whose every operation
may stop part-way, with or without a loss of power. Its methods are proved against a
description of the two regions as byte strings (`JournalState`, `JournalSteps`), and the
theorems about whole runs of writes, faults and power cuts (`JournalRuns`) are about that
description; `JournalImages` says what they come to byte by byte, `JournalMounting` what a
mount makes of any two regions, and `JournalChecks` which bytes the checks on headers and
markers accept. A power cut is an operation that stops and never returns, followed by a mount:
operations require power, so a driver that touched the flash after a cut would not verify.

What a stopped operation may leave: a program call has cleared any subset of the bits its
own call was to clear, in the one call under way; an erase has left every byte old or 0xFF,
and inside an erase unit nothing erased behind something that is not; programs persist in
the order they are issued; the header and commit marker of a region lie in one erase unit
(`HeaderInOneUnit`). No theorem about crashes assumes that checksums do not collide: the
check on a commit marker pins all of its sixteen bytes. The one event that a checksum would
have to rule out, the remains of a half-erased snapshot passing every check, is named
(`JournalSteps.Misread`). It takes a region of several erase units, erased out of order
although it would have taken over; `FileNorFlash` erases from the front, so over it
(`JournalMemory.Write`) it cannot happen, nor can it happen to a caller who mounts again
after every flash error.

**The CRC** (`Crc32`, `CrcResidue`, `CrcBursts`), bit by bit in 32-bit words: its residue law
and check value, and the errors it is certain to notice: every burst of up to 32 bits, and
not every one of 33.

**The sample ring between an interrupt and a task** (`SampleStream`), a sequence lock with
every load and store its own step; **the extended timer** (`TimerClock`), with its overflow
handler running between any two accesses; **the Ethernet descriptor rings**
(`EthernetSetup`, `EthernetTransmit`, `EthernetReceive`), with a DMA engine running between any two stores.
`Rings` has the slot arithmetic they share.

**The civil calendar** (`Calendar`), **the scan reassembler of the Linux ADC**
(`ScanReader`), **the PWM search and dead-time code** (`Pwm`), and **filling rectangles on
the ST7735** (`St7735`), against a model of the display controller's address window.

## Where the code does not do what it is for

Eight properties turned out not to hold as wanted. Each has a concrete example and an exact
condition.

- *Journal, acknowledged writes.* A compaction may report failure although its commit
  marker reached the flash (the program call of the marker, or the sync behind it, failed).
  The live object then still uses the old region. A later, smaller write that fits there is
  acknowledged, and the next mount chooses the new region: the write is gone.
  `JournalLoss.AcknowledgedWriteLost` is such a run. One write survives the next mount if and
  only if the other region would not have taken over before it, or it had to compact, or it
  wrote what the mount gives anyway (`JournalLoss.AcknowledgedWriteSurvives`). Over whole runs
  the acknowledged writes lost are exactly those made while the other region would have taken
  over, if the next mount finds that region and the live generation unchanged
  (`JournalRuns.Lost` in `JournalRuns.CrashAtomicity`). A caller who mounts again after every
  write that failed with a flash error loses none (`JournalRuns.PrudentAtomicity`).
- *Journal, half-erased snapshots.* On a flash that erases its units in any order, an erase
  that is cut can turn a superseding snapshot into another one that passes every check.
  `JournalMisread.HalfErasedSnapshotMisread` is a run from a fresh journal behind which every
  acknowledged write is gone and no account of the writes explains the image; it rests on a
  burst of 33 bits that the CRC cannot notice (`CrcBursts.BurstOf33Bits`).
  `JournalRuns.CrashAtomicity` holds of all runs in which no write is misread. What decides
  that beforehand: it holds of all runs if a region is a single erase unit
  (`JournalRuns.OneUnitAtomicity`), of all runs if the flash erases from the front, as
  `FileNorFlash` does (`JournalRuns.FrontErasedAtomicity`), and of all runs whose caller mounts
  again after every flash error (`JournalRuns.PrudentAtomicity`).
- *Calendar, January and February.* `civil_from_days` adds nine to the March-based month
  where it should subtract nine, so it returns months 19 and 20 of the year before.
  `Calendar.CivilFromDaysExactly` says what it returns for every day number; conversion,
  reading and setting the clock are right if and only if the month is March or later.
- *Timer, interrupted handler.* If `now` runs in a context that has interrupted the overflow
  handler between clearing the flag and counting, it is one whole counter period behind.
  `TimerClock.ReadBetweenTheSteps` starts a clock, runs it to its first overflow and reads it
  there. Of a call shorter than a period, the value is the time at an instant of the call if
  and only if the handler was not interrupted there (`TimerClock.TimerClock.Now`).
- *PWM, an enabled output keeps driving.* `configure` clears the enable bits of both outputs
  of its channel, so configuring one output of a complementary pair switches the other one
  off, which goes on reporting that it is enabled. `Pwm.PartnerGoesOff` builds such a pair.
  Of all calls on another output of the same timer, exactly a successful `configure` on the
  same channel, or disabling the very same output, stops an output from driving
  (`Pwm.OthersKeepDriving`).
- *PWM, accuracy of the period.* The comparison with the permitted error multiplies in 64
  bits. `Pwm.AccurateRefused` has a request refused although the pair found is accurate
  enough, `Pwm.InaccurateAccepted` one accepted although it is not. The comparison is right
  exactly if both products wrapped equally often, or otherwise happen to compare as they
  should (`Pwm.ComparisonRightIff`); for every request below 2^64 / 10^6 nanoseconds whose
  product with the clock does not wrap it is right (`Pwm.AcceptedIffAccurate`).
- *Ethernet, initializing again.* A second `initialize` starts the engine at the first
  descriptor and leaves the driver's index where it was. `EthernetTransmit.OutOfStep` is such
  a transmitter. The rings are in step if and only if the driver's index is zero, that is if a
  whole number of rings has been used since the last time
  (`EthernetTransmit.Transmitter.Initialize`, `EthernetReceive.Receiver.Initialize`); else the
  first frame sent is not the first one accepted (`EthernetTransmit.FirstFrameIsLate`).
- *Linux ADC, channel wider than its scan.* The size check subtracts before it compares;
  `ScanReader.TooWideAccepted` has configurations accepted although the channel lies outside
  the scan, and even outside the read buffer. A channel lies inside its scan if and only if it
  is accepted and not wider than the scan (`ScanReader.AcceptedFitsIff`); one behind its scan
  but inside the buffer only ever reads zero (`ScanReader.BehindTheScan`).

## Model

| member | source | states |
|---|---|---|
| JournalRuns.CrashAtomicity | include/hal/adapters/nv_journal_memory.hpp:338-505 | after any run of writes, compactions, faults, power cuts and restarts from a mounted journal in which nothing was misread, mounting succeeds, and the image is exactly the acknowledged writes that are not lost, in order, plus a choice of permitted writes whose flash operation stopped, each whole or absent and at most one per mount; lost are exactly those made while the other region would have taken over, as the next mount then found it |
| JournalRuns.FrontErasedAtomicity | include/hal/adapters/nv_journal_memory.hpp:338-505 | the same for all runs over a flash that erases from the front |
| JournalRuns.OneUnitAtomicity | include/hal/adapters/nv_journal_memory.hpp:338-505 | the same for all runs over any flash if a region is a single erase unit |
| JournalRuns.PrudentAtomicity | include/hal/adapters/nv_journal_memory.hpp:338-505 | for a caller who mounts again after every flash error nothing is misread and no acknowledged write is ever lost, at any moment and at the mount that may follow |
| JournalRuns.PrudentKeeps | include/hal/adapters/nv_journal_memory.hpp:354-380 | along such a run the other region counts for more only right behind a flash error |
| JournalRuns.NewerOnlyAfterFlashError | include/hal/adapters/nv_journal_memory.hpp:354-380 | an older other region stays older through any write, unless it had to compact and ended with a flash error |
| JournalRuns.StepRefines | include/hal/adapters/nv_journal_memory.hpp:338-380 | every write or restart, wherever it stops, is one step of a specification that knows only the image, at most one failed write of unknown fate, and perhaps an older image that the next mount will give; the live object stays consistent with its region, and the invariant holds again unless the step was misread |
| JournalRuns.WriteKeeps | include/hal/adapters/nv_journal_memory.hpp:338-380 | every outcome of a write keeps the live object consistent with its region, and what the other region is good for known; an acknowledged write is done, and if it compacted the other region counts for less whatever it was before |
| JournalRuns.RemountRefinement | include/hal/adapters/nv_journal_memory.hpp:583-656 | after any run of successful writes with their compactions, mounting rebuilds mirror, generation, last sequence, append position and active region exactly, and the flag for an unusable tail exactly if the tail is not erased or too short |
| JournalRuns.AlwaysMountable | include/hal/adapters/nv_journal_memory.hpp:456-505 | in every state of the invariant a mount succeeds |
| JournalRuns.ExplainEvent | include/hal/adapters/nv_journal_memory.hpp:338-380 | one more event extends the account of which writes of a run took effect and which are lost |
| JournalRuns.EarlierNotBypassed | include/hal/adapters/nv_journal_memory.hpp:793-806 | what was acknowledged before a snapshot was taken was not written past it |
| JournalRuns.LastGrows | include/hal/adapters/nv_journal_memory.hpp:367-378 | between mounts the last sequence number never falls, and every acknowledged write raises it |
| JournalRuns.KeepLast | include/hal/adapters/nv_journal_memory.hpp:374-376 | keeping a failed write behind which nothing was kept puts it on top of the image |
| JournalImages.CrashBytes | include/hal/adapters/nv_journal_memory.hpp:338-505 | crash atomicity byte by byte: after any run without a misread and the mount behind it, each byte of the image is the one the last kept write covering it put there, or the one the run began with; kept are all acknowledged writes that are not lost, and of the others only stopped ones |
| JournalImages.RunBytes | include/hal/adapters/nv_journal_memory.hpp:338-505 | whatever choice of kept writes explains a run, each byte of the image is the one from the last of them that covers it |
| JournalImages.WriteComesTo | include/hal/adapters/nv_journal_memory.hpp:338-380 | a write is refused exactly if it leaves the range or the atomic size; otherwise it goes through unless a flash operation stops it or the numbers are used up; success changes exactly the bytes of its range, to the data, and failure changes none; it compacts exactly if the tail is unusable or too short |
| JournalImages.PutAt | include/hal/adapters/nv_journal_memory.hpp:374-376 | one write puts its data at its offset, byte for byte, and leaves every other byte alone |
| JournalImages.ReplayAt | include/hal/adapters/nv_journal_memory.hpp:591-653 | each byte of a replayed log is the one from the last record that covers it |
| JournalImages.LoadedBytes | include/hal/adapters/nv_journal_memory.hpp:583-656 | loading any region: each byte of the image is the one from the last certified record that covers it, and 0xFF if there is none |
| JournalImages.OutcomesAt | include/hal/adapters/nv_journal_memory.hpp:338-380 | each byte after a run of kept writes is the one from the last of them that covers it |
| JournalLoss.AcknowledgedWriteSurvives | include/hal/adapters/nv_journal_memory.hpp:354-380 | an acknowledged write is there after the next mount if and only if the other region would not have taken over before it, or it had to compact, or the mount gives the new image anyway |
| JournalLoss.AcknowledgedWriteLost | include/hal/adapters/nv_journal_memory.hpp:799-806 | a run of a freshly formatted journal in which an acknowledged write is lost and gone after a restart |
| JournalLoss.MisreadGives | include/hal/adapters/nv_journal_memory.hpp:488-504 | what a misread comes to: the next mount gives a record that passes every check where the snapshot was |
| JournalMisread.HalfErasedSnapshotMisread | include/hal/adapters/nv_journal_memory.hpp:488-504 | a run from a fresh journal in which a half-erased snapshot is misread, every acknowledged write is gone, and no account of the writes explains the image |
| JournalSteps.CompactionInvisible | include/hal/adapters/nv_journal_memory.hpp:765-817 | wherever compaction stops, the next mount gives the live image, or besides only a failed write that was outstanding, until the new region counts; or what it would have given before, from a superseding region still untouched; or the stopped erase is misread |
| JournalSteps.MisreadNeeds | include/hal/adapters/nv_journal_memory.hpp:776-780 | a misread takes a region of several erase units, newer before, whose first cell an erase did not reach |
| JournalSteps.FrontIsSound | include/hal/adapters/nv_journal_memory.hpp:776-780 | an erase that works from the front is never misread |
| JournalSteps.HalfErased | include/hal/adapters/nv_journal_memory.hpp:776-780 | an erase that is cut leaves the other region as it was or worth less, unless it is misread |
| JournalSteps.GenerationsDiffer | include/hal/adapters/nv_journal_memory.hpp:476-486 | two valid regions never have equal generations; a newer one is newer by one, and either holds the complete snapshot that the next mount gives, or does not load |
| JournalSteps.OneCompactionSuffices | include/hal/adapters/nv_journal_memory.hpp:271-275 | after a successful compaction every permitted write fits without another |
| JournalSteps.WriteStaysInRegion | include/hal/adapters/nv_journal_memory.hpp:354-378 | no write passes the region's end; sequence numbers and generations only grow, by how much is exact |
| JournalSteps.AppendKeeps | include/hal/adapters/nv_journal_memory.hpp:367-378 | an append that returns or stops keeps the log invariant; a stopped one leaves at most one complete record behind |
| JournalSteps.CompactKeeps | include/hal/adapters/nv_journal_memory.hpp:765-817 | every outcome of compaction, over any other region, keeps the live object consistent and leaves the other region counting for less, untouched, or with a complete snapshot of the image, barring a misread; success leaves it counting for less |
| JournalSteps.StoppedRegion | include/hal/adapters/nv_journal_memory.hpp:776-806 | a region whose erasing or building stopped counts for less, is untouched, or is complete, unless it is misread |
| JournalState.MountKeeps | include/hal/adapters/nv_journal_memory.hpp:456-505 | mounting any state of the invariant succeeds: exactly the snapshot if the other region takes over, else the live object rebuilt, the image possibly with the one outstanding write |
| JournalState.TakesOverIff | include/hal/adapters/nv_journal_memory.hpp:476-504 | the next mount chooses the other region exactly when that holds a complete snapshot of a newer generation |
| JournalState.InspectUncommitted | include/hal/adapters/nv_journal_memory.hpp:524-531 | with a torn commit marker a region is invalid, or the marker is complete |
| JournalState.InspectPartlyErased | include/hal/adapters/nv_journal_memory.hpp:814-816 | during an erase a region reads as before or is invalid |
| JournalState.InspectCommitted | include/hal/adapters/nv_journal_memory.hpp:507-531 | a region with its header and marker is found with its generation |
| JournalState.ScanTail | include/hal/adapters/nv_journal_memory.hpp:591-655 | behind the log the scan applies nothing, or the one surviving record, and says whether the tail is usable |
| JournalState.LoadActive | include/hal/adapters/nv_journal_memory.hpp:583-656 | loading a region replays its log and continues behind it |
| JournalState.LogInvAppend | include/hal/adapters/nv_journal_memory.hpp:367-378 | a record behind the log extends the log, the image and the last sequence by that record |
| JournalState.FreshInv | include/hal/adapters/nv_journal_memory.hpp:737-763 | a freshly formatted journal satisfies the invariant |
| JournalMounting.UnformattedIff | include/hal/adapters/nv_journal_memory.hpp:469-472 | a flash is formatted exactly if every byte of both regions is erased |
| JournalMounting.UnrecoveredIff | include/hal/adapters/nv_journal_memory.hpp:469-504 | for any contents, nothing is recovered exactly if the flash is not blank and either both regions are marked with one generation or no region is marked and loads |
| JournalMounting.MountedIff | include/hal/adapters/nv_journal_memory.hpp:456-505 | for any contents, mounting gives a state exactly if it is what its own region loads to, that region is marked, the other is not marked with the same generation, and no newer one that loads exists |
| JournalMounting.InspectIff | include/hal/adapters/nv_journal_memory.hpp:507-531 | a region is found with a generation exactly if the bytes of its header and marker spell that generation, this layout and unbroken seals |
| JournalRecovery.ScanIsExact | include/hal/adapters/nv_journal_memory.hpp:583-656 | on any bytes the scan ends, stays in the region and the image, and applies exactly the longest chain of certified records with rising sequence numbers; the tail behind them is usable exactly if a header would go over erased cells |
| JournalRecovery.FoundIffCertified | include/hal/adapters/nv_journal_memory.hpp:592-644 | a record is applied if and only if its header, its exact commit marker and its payload checksum all hold and it is in order |
| JournalRecovery.CorruptExactly | include/hal/adapters/nv_journal_memory.hpp:588-620 | loading fails exactly when a generation above the first does not begin with a certified snapshot |
| JournalRecovery.ScanAcrossLog | include/hal/adapters/nv_journal_memory.hpp:591-653 | scanning over a well-formed log of any length equals replaying it and going on behind it |
| JournalRecovery.ProbeComplete | include/hal/adapters/nv_journal_memory.hpp:592-652 | a completely written record is found as written |
| JournalRecovery.ProbeStopped | include/hal/adapters/nv_journal_memory.hpp:592-652 | a record whose programming stopped anywhere is blank, dead or complete |
| JournalRecovery.CommitPartPinned | include/hal/adapters/nv_journal_memory.hpp:675-682 | a torn commit marker that passes its check is all there |
| JournalRecovery.DamagedPayloadRejected | include/hal/adapters/nv_journal_memory.hpp:638-644 | a payload damaged inside four consecutive bytes is never applied |
| JournalRecovery.BurstRejected | include/hal/adapters/nv_journal_memory.hpp:638-644 | a payload damaged inside 32 consecutive bits, wherever these begin, is never applied |
| JournalChecks.DamagedHeaderRejected | include/hal/adapters/nv_journal_memory.hpp:597-602 | a record whose header was damaged inside 32 consecutive bits is never applied, whatever follows it |
| JournalChecks.DamagedRegionRefused | include/hal/adapters/nv_journal_memory.hpp:558-572 | a region whose header was damaged inside 32 consecutive bits counts for nothing |
| JournalChecks.BurstBreaksSeal | include/hal/adapters/nv_journal_memory.hpp:667-673 | a burst of up to 32 bits anywhere in a body or its checksum breaks the seal |
| JournalChecks.SealIff | include/hal/adapters/nv_journal_memory.hpp:570-572 | a seal holds exactly if body and checksum together fold to the CRC residue |
| JournalChecks.RecordHeaderValidIff | include/hal/adapters/nv_journal_memory.hpp:667-673 | a record header is accepted exactly if it begins with 44 43 45 52 01 00 and its 40 bytes fold to the residue |
| JournalChecks.RegionHeaderValidIff | include/hal/adapters/nv_journal_memory.hpp:558-572 | a region header is accepted exactly if it begins with 4C 4E 52 4A 01 00, bears a generation and the sizes of this layout, and its 36 bytes fold to the residue |
| JournalChecks.CommitValidIff | include/hal/adapters/nv_journal_memory.hpp:574-581 | a marker is accepted exactly if it bears this magic and this number and its 16 bytes fold to the residue |
| JournalChecks.RecordHeaderBytes | include/hal/adapters/nv_journal_memory.hpp:853-863 | a written record header byte for byte: each field at its offset, lowest byte first, reserved bytes zero, sealed, then erased |
| JournalChecks.RegionHeaderBytes | include/hal/adapters/nv_journal_memory.hpp:822-832 | a written region header byte for byte |
| JournalChecks.CommitBytes | include/hal/adapters/nv_journal_memory.hpp:839-844 | a written marker byte for byte |
| JournalFormat.CommitPinned | include/hal/adapters/nv_journal_memory.hpp:574-581 | the marker check determines all sixteen bytes |
| JournalFormat.CommitRoundTrip | include/hal/adapters/nv_journal_memory.hpp:836-846 | a written marker passes its check |
| JournalFormat.RecordHeaderRoundTrip | include/hal/adapters/nv_journal_memory.hpp:853-863 | a written record header passes its check and gives every field back |
| JournalFormat.RegionHeaderRoundTrip | include/hal/adapters/nv_journal_memory.hpp:819-834 | a written region header passes its check and gives its generation back |
| JournalFormat.ErasedMagicRefused | include/hal/adapters/nv_journal_memory.hpp:558-581 | nothing that still begins with an erased byte passes a magic check |
| JournalLayout.WriteFitsAfterSnapshot | include/hal/adapters/nv_journal_memory.hpp:271-275 | from the static assertion, a snapshot and any permitted write fit one region |
| JournalLayout.LcmFacts | include/hal/adapters/nv_journal_memory.hpp:94-97 | the combined unit is a positive multiple of both units |
| JournalLayout.LcmIsLeast | include/hal/adapters/nv_journal_memory.hpp:83-97 | every common multiple of the two units is a multiple of the combined unit |
| JournalLayout.SizesAreLeast | include/hal/adapters/nv_journal_memory.hpp:227-246 | headers, markers and payloads take up the fewest whole units that hold them; the second region begins where the first ends |
| JournalLayout.AlignUpFacts | include/hal/adapters/nv_journal_memory.hpp:99-102 | rounding up is the least whole multiple not below |
| JournalLayout.RegionPlacement | include/hal/adapters/nv_journal_memory.hpp:259-270 | from the static assertions, both regions lie in the flash on unit boundaries |
| JournalLayout.UnitsSuit | include/hal/adapters/nv_journal_memory.hpp:224-225 | a whole number of combined units is aligned for reading and programming |
| JournalMemory.JournalMemory.Write | include/hal/adapters/nv_journal_memory.hpp:338-380 | the driver's write, in the source's order of checks: success changes exactly the bytes of its range in the mirror, to the input; failure changes none; it is refused exactly for its range or its size, fails otherwise only because a flash operation failed inside it or the numbers are used up, and compacts exactly if the tail is unusable or too short; it does one step of the region-level relation, keeps the invariant whatever stops, erases only from the front, and never fails because the flash refused a program, an alignment or a range |
| JournalMemory.JournalMemory.Compact | include/hal/adapters/nv_journal_memory.hpp:765-817 | every way compaction ends, and what it leaves in both regions and the live fields; the commit marker goes out only behind a sync of all it vouches for, the old region is erased only behind a sync of the marker |
| JournalMemory.JournalMemory.AppendRecord | include/hal/adapters/nv_journal_memory.hpp:363-379 | one record more, then mirror and fields; on failure only the tail is marked |
| JournalMemory.JournalMemory.WriteRecord | include/hal/adapters/nv_journal_memory.hpp:848-896 | header, padded payload and marker in this order over erased cells; where it stops, everything before is done and everything behind is erased |
| JournalMemory.JournalMemory.WritePayload | include/hal/adapters/nv_journal_memory.hpp:870-887 | the chunk loop writes exactly the padded payload |
| JournalMemory.JournalMemory.ProgramArray | include/hal/adapters/nv_journal_memory.hpp:434-440 | a program over erased cells of one region is aligned and never refused, and leaves the other region alone |
| JournalMemory.JournalMemory.EraseRegion | include/hal/adapters/nv_journal_memory.hpp:451-454 | erases one region from the front and leaves the other alone, also when it stops |
| JournalMemory.JournalMemory.WriteRegionHeader | include/hal/adapters/nv_journal_memory.hpp:819-834 | puts the header bytes at the start of the region |
| JournalMemory.JournalMemory.WriteRegionCommit | include/hal/adapters/nv_journal_memory.hpp:836-846 | puts the marker bytes behind the header |
| JournalMemory.BuildRegionHeader | include/hal/adapters/nv_journal_memory.hpp:822-832 | field by field the buffer becomes the padded, sealed header |
| JournalMemory.BuildCommit | include/hal/adapters/nv_journal_memory.hpp:839-844 | field by field the buffer becomes the padded, sealed marker |
| JournalMemory.BuildRecordHeader | include/hal/adapters/nv_journal_memory.hpp:853-863 | field by field the buffer becomes the padded, sealed record header |
| JournalMemory.JournalMemory.LoadActiveRegion | include/hal/adapters/nv_journal_memory.hpp:583-656 | the scan loop leaves exactly what scanning the region's bytes yields, or reports corruption exactly when that does |
| JournalMemory.JournalMemory.LoadRecord | include/hal/adapters/nv_journal_memory.hpp:626-652 | marker, checksum and payload of one record, applied or found wanting |
| JournalMemory.JournalMemory.CheckClaim | include/hal/adapters/nv_journal_memory.hpp:597-624 | the header checks in the source's order |
| JournalMemory.JournalMemory.CrcPayload | include/hal/adapters/nv_journal_memory.hpp:684-710 | the chunked checksum equals the checksum of the whole payload |
| JournalMemory.JournalMemory.ApplyPayload | include/hal/adapters/nv_journal_memory.hpp:712-735 | chunked reading restores the payload bytes at their offset in the mirror and changes no other byte |
| JournalMemory.JournalMemory.InspectRegion | include/hal/adapters/nv_journal_memory.hpp:507-540 | validity, generation and erasedness of a region |
| JournalMemory.JournalMemory.RegionIsErased | include/hal/adapters/nv_journal_memory.hpp:542-556 | true exactly when every byte is erased |
| JournalMemory.JournalMemory.MountExisting | include/hal/adapters/nv_journal_memory.hpp:456-505 | mounting does what the two regions call for unless a flash operation fails: two erased regions are formatted, never reported as corrupted |
| JournalMemory.JournalMemory.Mount | include/hal/adapters/nv_journal_memory.hpp:285-299 | a blank flash is formatted or a flash operation failed; corruption is reported only of a flash that is not blank, with two regions of one generation or none that is marked and loads, and then no cell has changed; the object mounted is valid whenever some log explains the regions; a mirror of the wrong size is refused untouched |
| JournalMemory.JournalMemory.Format | include/hal/adapters/nv_journal_memory.hpp:302-316 | formatting gives a valid journal of generation one with an erased image, unless a flash operation fails |
| JournalMemory.JournalMemory.FormatStorage | include/hal/adapters/nv_journal_memory.hpp:737-763 | both regions erased, the first committed with generation one |
| JournalMemory.JournalMemory.Read | include/hal/adapters/nv_journal_memory.hpp:322-336 | reads the mirror, refuses a range outside it |
| JournalMemory.JournalMemory.Sync | include/hal/adapters/nv_journal_memory.hpp:382-384 | success leaves nothing stored that no sync has followed; nothing the journal relies on changes |
| JournalRegions.ReadyToAppend | include/hal/adapters/nv_journal_memory.hpp:354-368 | a tail that is not marked unusable is erased and aligned, after every run and every mount |
| JournalRegions.ChunkOfPayload | include/hal/adapters/nv_journal_memory.hpp:874-880 | one padded chunk is that stretch of the padded payload |
| JournalRegions.FoldExtends | include/hal/adapters/nv_journal_memory.hpp:691-708 | folding one more chunk continues the checksum of the payload |
| NorFlash.FileNorFlash.Program | platforms/linux/include/hal/nv.hpp:148-184 | success is exactly the data laid over the cells, none of whose clear bits it set; refusal happens only if some bit would have to be set; an I/O error exactly if an access failed; a failure leaves cells part-way; a range out of bounds or misaligned is refused as such, untouched |
| NorFlash.FileNorFlash.ProgramUnit | platforms/linux/include/hal/nv.hpp:164-182 | one unit is read, checked bit by bit and written |
| NorFlash.FileNorFlash.Erase | platforms/linux/include/hal/nv.hpp:186-209 | success erases exactly the range; a failure leaves every byte old or erased, the first one among those changed; a range out of bounds or misaligned is refused as such, untouched |
| NorFlash.FileNorFlash.Read | platforms/linux/include/hal/nv.hpp:127-146 | returns the cells of an aligned range in bounds, and refuses any other as out of range or misaligned |
| NorFlash.ClearsOnlyIff | platforms/linux/include/hal/nv.hpp:170-175 | a byte may be programmed over another exactly if it sets no bit that is clear there |
| NorFlash.WholeIff | platforms/linux/include/hal/nv.hpp:127-146 | the multiples of a unit, and no others, are aligned to it |
| Bytes.PutField | include/hal/adapters/nv_journal_memory.hpp:132-155 | lays the little-endian bytes of a value into a buffer and changes nothing else |
| Bytes.GetField | include/hal/adapters/nv_journal_memory.hpp:157-191 | reads the little-endian value of a field |
| Bytes.DecodeEncode | include/hal/adapters/nv_journal_memory.hpp:148-191 | decoding what was encoded gives the value back |
| Bytes.EncodeDecode | include/hal/adapters/nv_journal_memory.hpp:148-191 | a field's value determines every byte of it |
| Bytes.EncodedByteAt | include/hal/adapters/nv_journal_memory.hpp:132-155 | byte i of a field is the value divided by 256 to the i, modulo 256: the lowest byte comes first |
| Crc32.BurstChangesChecksum | include/hal/foundation/crc32.hpp:12-27 | for every length and position, data that differ only inside four consecutive bytes have different checksums |
| CrcBursts.BurstOf32Bits | include/hal/foundation/crc32.hpp:12-27 | messages of equal length that differ only inside 32 consecutive bits, beginning anywhere, have different checksums |
| CrcBursts.BurstOf33Bits | include/hal/foundation/crc32.hpp:12-27 | the bound is sharp: two stretches differing in a burst of 33 bits have equal checksums in any surroundings |
| CrcBursts.UpdateIsFeed | include/hal/foundation/crc32.hpp:18-25 | folding bytes is feeding their bits one at a time, lowest first |
| CrcBursts.WindowIsNumber | include/hal/foundation/crc32.hpp:20-24 | up to 32 bits act on the state as one word xored in before all their steps |
| Crc32.FiveBytesUnnoticed | include/hal/foundation/crc32.hpp:12-27 | five bytes that in any surroundings have the checksum of five erased ones |
| Crc32.Compute | include/hal/foundation/crc32.hpp:12-27 | the nested loops compute the checksum, which the residue law and the check value pin down |
| CrcResidue.ResidueIff | include/hal/foundation/crc32.hpp:12-27 | for all data, the four bytes behind them are their checksum, lowest byte first, if and only if folding everything from 0xFFFFFFFF ends in 0xDEBB20E3 |
| CrcResidue.CheckValue | include/hal/foundation/crc32.hpp:12-27 | the checksum of "123456789" is 0xCBF43926 |
| CrcResidue.WordIsNumber | include/hal/foundation/crc32.hpp:20 | up to four bytes act as the number they encode, lowest byte first |
| Crc32.Fold | include/hal/foundation/crc32.hpp:18-25 | folding data into any running state |
| Crc32.FoldByte | include/hal/foundation/crc32.hpp:20-24 | the masked bit loop is eight polynomial steps |
| Crc32.UpdateConcat | include/hal/adapters/nv_journal_memory.hpp:691-708 | the running state over a concatenation is the state over its parts in turn |
| Crc32.DifferenceSurvives | include/hal/foundation/crc32.hpp:19-25 | once two states differ, equal data never make them meet again |
| Crc32.BitStepsLinear | include/hal/foundation/crc32.hpp:21-24 | the bit loop is linear over exclusive or |
| Crc32.BitStepsInjective | include/hal/foundation/crc32.hpp:21-24 | the bit loop loses no information |
| SampleStream.ContinuousChannel.TryRead | platforms/stm32/h5/include/hal/adc.hpp:128-167 | over every interleaving with the publisher, a success overlapped by fewer than 2^31 publications skips exactly the samples that have left the ring, delivers the next ones whole and in order, as many as there are and fit, and keeps the consumer's books balanced |
| SampleStream.ContinuousChannel.Attempt | platforms/stm32/h5/include/hal/adc.hpp:136-164 | one round: equal generations mean a whole number of wraps between them, none if fewer than one |
| SampleStream.ContinuousChannel.Latest | platforms/stm32/h5/include/hal/adc.hpp:84-96 | the sample returned was the newest at an instant inside the call |
| SampleStream.ContinuousChannel.CopyOut | platforms/stm32/h5/include/hal/adc.hpp:151-156 | the copy loop takes as many samples as there are and fit |
| SampleStream.ContinuousChannel.CopyCounted | platforms/stm32/f4/include/hal/adc.hpp:112-115 | the F4 form, count first, takes as many samples in every state, and the same ones while the publisher is idle |
| SampleStream.ContinuousChannel.LoadSlot | platforms/stm32/h5/include/hal/adc.hpp:178-190 | five loads give a published sample unless the publisher was active |
| SampleStream.ContinuousChannel.PublisherStep | platforms/stm32/h5/include/hal/adc.hpp:61-82 | the stores of a publication follow in order and only the last one publishes; each keeps the ring invariant and is invisible while the generation is even and unchanged |
| SampleStream.ContinuousChannel.StoreWord | platforms/stm32/h5/include/hal/adc.hpp:65-76 | storing one word of a new sample disturbs no other sample in the ring |
| SampleStream.ContinuousChannel.Leave | platforms/stm32/h5/include/hal/adc.hpp:81 | raising the generation again publishes the sample |
| SampleStream.SameReading | platforms/stm32/h5/include/hal/adc.hpp:158-159 | two readings of the generation are equal if and only if a whole number of wraps lies between them |
| SampleStream.ContinuousChannel.SkippedHaveLeft | platforms/stm32/h5/include/hal/adc.hpp:143-156 | a success skips a sample exactly if the ring has overwritten it; while the ring holds all that is unread nothing is skipped, and with room for it all of it is delivered |
| SampleStream.EncodedReadsBack | platforms/stm32/h5/include/hal/adc.hpp:65-76 | five words of 32 bits hold a sample and give it back |
| Rings.OwnSlot | platforms/stm32/h5/include/hal/adc.hpp:65 | samples fewer than a ring apart never share a slot |
| TimerClock.TimerClock.Now | platforms/stm32/g4/include/hal/time.hpp:57-78 | the value is the converted true count at an instant inside the call, or, if the call interrupted the handler half-way, exactly one counter period less; of a call shorter than a period it is a true reading if and only if it did not |
| TimerClock.ReadBetweenTheSteps | platforms/stm32/g4/include/hal/time.hpp:50-78 | a clock started and run to its first overflow, read between the two steps of the handler, shows a time before the call |
| TimerClock.TimerClock.Readings | platforms/stm32/g4/include/hal/time.hpp:57-78 | any number of calls at any times: the readings never go backwards |
| TimerClock.BehindIsWrong | platforms/stm32/g4/include/hal/time.hpp:50-76 | a reading one period behind is before every instant of a call shorter than a period |
| TimerClock.TimerClock.OnInterrupt | platforms/stm32/g4/include/hal/time.hpp:50-55 | the handler counts each flagged overflow once |
| TimerClock.TimerClock.DelayFor | platforms/stm32/g4/include/hal/time.hpp:80-96 | never shorter than the rounded-up ticks, and longer only by the ticks between two polls, once for each of the fewest chunks there can be; polled at every tick it takes exactly those ticks |
| TimerClock.TimerClock.WaitChunk | platforms/stm32/g4/include/hal/time.hpp:90-93 | a chunk ends with the first poll that finds it over |
| TimerClock.ConversionExact | platforms/stm32/g4/include/hal/time.hpp:73-76 | the split conversion is the exact quotient if and only if that fits 64 bits |
| TimerClock.ConversionMonotone | platforms/stm32/g4/include/hal/time.hpp:73-76 | later counts never convert to earlier times |
| TimerClock.DelayRoundsUp | platforms/stm32/g4/include/hal/time.hpp:81-84 | a duration becomes the least number of ticks that covers it |
| EthernetSetup.Prepare | platforms/stm32/h7/include/hal/ethernet.hpp:226-240 | exactly a setup within every limit, on an engine that resets within its polls, is taken |
| EthernetSetup.ValidBurstIff | platforms/stm32/h7/include/hal/ethernet.hpp:406-409 | the bursts taken are the divisors of 32 |
| EthernetSetup.BuffersHoldFrames | platforms/stm32/h7/include/hal/ethernet.hpp:227-237 | within the limits every permitted frame fits its own word-aligned buffer inside the memory, and the length field holds its size |
| EthernetTransmit.Transmitter.TryTransmit | platforms/stm32/h7/include/hal/ethernet.hpp:309-339 | a frame is accepted unless the ring is full; with the engine running between any two stores, frames on the wire and frames queued are together exactly the frames accepted, in order and unchanged |
| EthernetTransmit.Transmitter.HandOver | platforms/stm32/h7/include/hal/ethernet.hpp:331 | the store of the ownership bit adds the frame to the engine's run of descriptors, all at once |
| EthernetTransmit.Transmitter.Finish | platforms/stm32/h7/include/hal/ethernet.hpp:319-323 | the engine sends the oldest accepted frame and gives its descriptor back |
| EthernetTransmit.Transmitter.Room | platforms/stm32/h7/include/hal/ethernet.hpp:321-323 | the next descriptor is owned by the engine if and only if the ring is full |
| EthernetTransmit.Transmitter.CopyIn | platforms/stm32/h7/include/hal/ethernet.hpp:324-327 | filling the next buffer disturbs no frame in flight |
| EthernetTransmit.Transmitter.Initialize | platforms/stm32/h7/include/hal/ethernet.hpp:226-248 | called at any time: exactly an acceptable setup is taken, all descriptors are then with the driver, and the ring is in step with the engine if and only if the index is zero |
| EthernetTransmit.OutOfStep | platforms/stm32/h7/include/hal/ethernet.hpp:226-264 | a transmitter initialized twice whose driver and engine are out of step |
| EthernetTransmit.FirstFrameIsLate | platforms/stm32/h7/include/hal/ethernet.hpp:256-264 | from there on nothing is sent before the driver comes round to the first descriptor |
| EthernetReceive.Receiver.TryReceive | platforms/stm32/h7/include/hal/ethernet.hpp:341-379 | arrivals are taken in order, each once: delivered whole and unchanged if it is one undamaged frame that fits the output, else reported as exactly the one error that applies |
| EthernetReceive.Receiver.RecycleRx | platforms/stm32/h7/include/hal/ethernet.hpp:445-452 | the emptied buffer goes back and the driver moves on by one |
| EthernetReceive.Receiver.NextWaiting | platforms/stm32/h7/include/hal/ethernet.hpp:350-355 | the next descriptor is the driver's if and only if an arrival waits, and then holds it |
| EthernetReceive.Receiver.Complete | platforms/stm32/h7/include/hal/ethernet.hpp:350-355 | an arrival joins the end of those waiting |
| EthernetReceive.Receiver.Store | platforms/stm32/h7/include/hal/ethernet.hpp:371-375 | bytes arriving in one buffer disturb no arrival that waits |
| EthernetReceive.Receiver.CopyOut | platforms/stm32/h7/include/hal/ethernet.hpp:371-375 | the copy loop yields the arrival's bytes |
| EthernetReceive.Receiver.Initialize | platforms/stm32/h7/include/hal/ethernet.hpp:226-254 | called at any time: exactly an acceptable setup is taken, all buffers are then with the engine, and the ring is in step with it if and only if the index is zero |
| Calendar.CivilFromDaysExactly | platforms/linux/include/hal/rtc.hpp:61-77 | for every day number, the right date from March on, and in January and February the year before with a month eighteen too high |
| Calendar.DateRoundTripIff | platforms/linux/include/hal/rtc.hpp:42-77 | a valid date survives conversion to days and back if and only if its month is March or later |
| Calendar.DaysRoundTripIff | platforms/linux/include/hal/rtc.hpp:42-77 | a day number survives conversion to a date and back if and only if its date is in March or later |
| Calendar.EpochComesOutWrong | platforms/linux/include/hal/rtc.hpp:75-76 | day zero becomes the first day of month 19 of 1969 |
| Calendar.DaysThenDate | platforms/linux/include/hal/rtc.hpp:42-53 | every valid date has a day number that determines it |
| Calendar.DateThenDays | platforms/linux/include/hal/rtc.hpp:42-53 | every day number is that of a valid date |
| Calendar.NextDayIsNext | platforms/linux/include/hal/rtc.hpp:42-53 | the day after any valid date has the next number |
| Calendar.OrderIsKept | platforms/linux/include/hal/rtc.hpp:42-53 | day numbers are ordered exactly as dates are |
| Calendar.EpochIsDayZero | platforms/linux/include/hal/rtc.hpp:52 | 1970-01-01 is day zero |
| Calendar.Decompose | platforms/linux/include/hal/rtc.hpp:65-71 | every day of an era is an existing day of the year the formula finds |
| Calendar.YearOfEraBack | platforms/linux/include/hal/rtc.hpp:65-68 | the year formula undoes the day-of-era formula for every existing day |
| Calendar.FromRtcTimeAcceptsIff | platforms/linux/include/hal/rtc.hpp:115-135 | a broken-down time is accepted if and only if it exists and is in March or later, with the calendar's seconds |
| Calendar.ToRtcTimeAcceptsIff | platforms/linux/include/hal/rtc.hpp:90-104 | which instants can be broken down |
| Calendar.ClockRoundTripIff | platforms/linux/include/hal/rtc.hpp:90-135 | an instant set and read back is unchanged if and only if its date is in March or later, and is refused otherwise |
| Calendar.BrokenDown | platforms/linux/include/hal/rtc.hpp:90-112 | the kernel is handed the true time of day, and the true date from March on; in January and February the year before and a month eighteen too high |
| Calendar.FloorDaysIsFloor | platforms/linux/include/hal/rtc.hpp:83-88 | truncating division corrected to the floor, for every sign |
| Calendar.FitsInt64 | platforms/linux/include/hal/rtc.hpp:61-76 | neither the shifted day number nor the year overflows for any 64-bit number of seconds |
| Calendar.BrokenDownFitsInt64 | platforms/linux/include/hal/rtc.hpp:115-131 | nor for any broken-down time: days, their product with the seconds of a day, and the sum all fit |
| Calendar.Split | platforms/stm32/h7/include/hal/rtc.hpp:249-281 | the search accepts exactly the instants of 2000 to 2099 and returns their true date and time |
| Calendar.InMonthIff | platforms/stm32/h7/include/hal/rtc.hpp:266-272 | a day number falls into a month's stretch if and only if its date is in that month |
| ScanReader.BufferedChannel.Service | platforms/linux/include/hal/adc.hpp:174-205 | however the byte stream is split across reads, the samples published are the decodings of its complete scans and the leftover bytes wait |
| ScanReader.BufferedChannel.Take | platforms/linux/include/hal/adc.hpp:189-203 | one piece of input completes at most one scan |
| ScanReader.BufferedChannel.DecodeRaw | platforms/linux/include/hal/adc.hpp:293-315 | the byte loops, either order, give the number in the channel's bits |
| ScanReader.BufferedChannel.Publish | platforms/linux/include/hal/adc.hpp:317-325 | the newest samples stay in the ring; a full ring loses exactly its oldest undelivered one |
| ScanReader.BufferedChannel.TryRead | platforms/linux/include/hal/adc.hpp:257-273 | delivers the oldest undelivered samples; delivered plus reported losses is exactly the cursor |
| ScanReader.BufferedChannel.ReadRaw | platforms/linux/include/hal/adc.hpp:207-215 | the newest sample, delivered or not |
| ScanReader.Extend | platforms/linux/include/hal/adc.hpp:189-203 | more bytes stay left over or complete exactly one more scan |
| ScanReader.DecodeFinds | platforms/linux/include/hal/adc.hpp:293-315 | a value stored at its place is found, whatever bits surround it |
| ScanReader.ReversedAt | platforms/linux/include/hal/adc.hpp:293-315 | in a big-endian channel the most significant byte comes first |
| ScanReader.AcceptedFitsIff | platforms/linux/include/hal/adc.hpp:112-122 | a channel lies inside its scan if and only if it is accepted and not wider than the scan |
| ScanReader.TooWideAccepted | platforms/linux/include/hal/adc.hpp:116-117 | accepted configurations whose channel lies outside its scan, and outside the read buffer |
| ScanReader.BehindTheScan | platforms/linux/include/hal/adc.hpp:293-315 | a channel that begins behind its scan only ever reads zero |
| ScanReader.WindowIsScan | platforms/linux/include/hal/adc.hpp:293-315 | if the channel lies inside its scan, the scan alone decides the sample |
| Pwm.Search | platforms/stm32/g4/include/hal/pwm.hpp:86-118 | with or without the early exit the loop ends with the outcome of the full scan |
| Pwm.FirstLeast | platforms/stm32/h5/include/hal/pwm.hpp:87-114 | the full scan finds the first prescaler of least error among those whose count fits |
| Pwm.ExactIsFinal | platforms/stm32/g4/include/hal/pwm.hpp:115-117 | after an exact match no later prescaler changes the outcome |
| Pwm.SearchIsOptimal | platforms/stm32/g4/include/hal/pwm.hpp:86-118 | the error found is the true error of the pair chosen, and within a nanosecond of that of every reload value of every fitting prescaler whose products do not wrap |
| Pwm.NearestNeverWraps | platforms/stm32/g4/include/hal/pwm.hpp:92-108 | the product for the nearest count never wraps, so the error computed is the true error |
| Pwm.AcceptedIffAccurate | platforms/stm32/g4/include/hal/pwm.hpp:118-122 | for every moderate request the best pair is accepted if and only if its true period is off by at most the permitted millionths |
| Pwm.ComparisonRightIff | platforms/stm32/g4/include/hal/pwm.hpp:287-291 | exactly when the wrapped comparison is right |
| Pwm.ErrorBounded | platforms/stm32/g4/include/hal/pwm.hpp:86-118 | the error found is at most a second or the request itself |
| Pwm.AccurateRefused | platforms/stm32/g4/include/hal/pwm.hpp:287-291 | a request refused although an accurate pair was found |
| Pwm.InaccurateAccepted | platforms/stm32/g4/include/hal/pwm.hpp:287-291 | a request accepted with a period off by more than permitted |
| Pwm.WithinOne | platforms/stm32/g4/include/hal/pwm.hpp:96-108 | per prescaler, the nearest count is within a nanosecond of the best |
| Pwm.PeriodIs | platforms/stm32/g4/include/hal/pwm.hpp:281-285 | the period of the pair chosen is its ticks in whole nanoseconds, rounded down, with no wrap |
| Pwm.MachineArithmetic | platforms/stm32/g4/include/hal/pwm.hpp:92-108 | the remainder, quotient and distance of the search are those of 64-bit arithmetic |
| Pwm.Output.Configure | platforms/stm32/g4/include/hal/pwm.hpp:79-156 | takes the first best pair if the comparison permits it, which for a moderate request is if and only if its true period is accurate enough, and returns that period; with a shared period that others already use the timer is neither changed nor stopped, and any other pair is a conflict; without one its registers are rewritten and it is stopped; of the channels only its own is set up, with both outputs of the pair off and the polarity asked for on this one alone; a failure changes nothing |
| Pwm.Output.EnableOutput | platforms/stm32/g4/include/hal/pwm.hpp:179-191 | this output drives with its polarity kept, the counter runs, no other output is touched |
| Pwm.Output.DisableOutput | platforms/stm32/g4/include/hal/pwm.hpp:193-199 | this output alone goes off |
| Pwm.OthersKeepDriving | platforms/stm32/g4/include/hal/pwm.hpp:137-199 | an output goes off through a call on another output of its timer if and only if that one is configured on the same channel, or is the same output and disabled; what it reports never changes; with a shared period it stays consistent and the counter keeps running |
| Pwm.PartnerGoesOff | platforms/stm32/g4/include/hal/pwm.hpp:137-149 | a complementary pair of which one output is off and reports that it is enabled |
| Pwm.Output.SetPulseWidth | platforms/stm32/g4/include/hal/pwm.hpp:158-177 | sets this channel's compare value and no other, or refuses |
| Pwm.PulseIsNearest | platforms/stm32/g4/include/hal/pwm.hpp:163-175 | a pulse within the period gets the nearest compare value the counter can hold |
| Pwm.DeadTimeIsGreatest | platforms/stm32/h5/include/hal/pwm.hpp:265-280 | every dead time up to the longest gets the greatest representable one not above it |
| Pwm.CodeRoundsDown | platforms/stm32/h5/include/hal/pwm.hpp:265-280 | the code rounds down to the step of its range, also where the subtraction wraps |
| St7735.Driver.FillRect | devices/include/hal/devices/st7735.hpp:408-448 | taken exactly if the configuration is valid and the rectangle has a pixel, lies on the panel and ends within the controller's addresses; on success every pixel of it has the colour, no other has changed and the controller is deselected; it fails only if the bus or a pin failed, having touched nothing outside and left each pixel inside old or coloured |
| St7735.Driver.FillRows | devices/include/hal/devices/st7735.hpp:436-444 | one chunk of columns, row by row |
| St7735.Driver.FillRow | devices/include/hal/devices/st7735.hpp:431-434 | the row buffer holds the colour in controller order |
| St7735.Driver.WriteRect | devices/include/hal/devices/st7735.hpp:381-406 | taken exactly if `FillRect` would take the rectangle and there are two bytes for each pixel of it; on any outcome a prefix of the pixels, in order, is in the window and nothing else has changed; it fails only if the bus or a pin failed |
| St7735.Driver.WritePixels | devices/include/hal/devices/st7735.hpp:360-377 | into the window set before: on any outcome a prefix of the pixels, in order, and nothing else |
| St7735.Driver.SetAddressWindow | devices/include/hal/devices/st7735.hpp:345-358 | taken exactly if `FillRect` would take the rectangle; sets exactly the window asked for, touches no pixel and leaves the controller deselected; it fails only if the bus or a pin failed |
| St7735.Profile.ValidWindowIff | devices/include/hal/devices/st7735.hpp:643-653 | a rectangle with a pixel in it is taken exactly if the panel shows every pixel of it and its last address fits 16 bits |
| St7735.Driver.WriteWindowActive | devices/include/hal/devices/st7735.hpp:665-680 | sets exactly the window asked for and touches no pixel |
| St7735.Driver.WriteCommandActive | devices/include/hal/devices/st7735.hpp:596-614 | a command byte, then its parameters; touches no pixel unless it writes memory |
| St7735.Driver.WriteDataActive | devices/include/hal/devices/st7735.hpp:616-625 | however many bytes got through, the pixels they complete are painted, starting over behind the last cell |
| St7735.ColumnsSet | devices/include/hal/devices/st7735.hpp:655-673 | four address bytes set first and last column, without wrapping at the edge |
| St7735.RowsSet | devices/include/hal/devices/st7735.hpp:676-679 | four address bytes set first and last row |
| St7735.AddressBytes | devices/include/hal/devices/st7735.hpp:655-663 | first and last address go out with the high byte first |
| St7735.Streams | devices/include/hal/devices/st7735.hpp:396-405 | after any number of bytes the controller has painted the completed pixels cell by cell, row by row |
| St7735.PaintedAt | devices/include/hal/devices/st7735.hpp:362-405 | each cell of the window has the last colour sent for it |
| St7735.PaintedElsewhere | devices/include/hal/devices/st7735.hpp:362-405 | no cell outside the window changes, however many pixels are sent |
| St7735.NextCell | devices/include/hal/devices/st7735.hpp:362-405 | the next pixel goes one to the right, to the next row, or back to the start of the window |

## Left out

- A power cut inside `format_storage`: the code reports a half-formatted device as corrupted; runs start from a mounted journal.
- Programs that persist out of order: the record order relies on program order, so `sync` changes no cell; that a commit marker goes out only behind a sync of all it vouches for, and that the old region is erased only behind a sync of the marker, is proved (`JournalMemory.Compact`).
- A region header and commit marker in different erase units: an erase that took only the marker's unit, or only the header's, is not modelled (`HeaderInOneUnit`).
- JournalRuns.CrashAtomicity: says nothing of runs in which a half-erased snapshot was misread; `JournalMisread` has one.
- `size_t` overflow in layout arithmetic: layouts are bounded by a flash of less than 2^64 bytes.
- Sequence and generation exhaustion at 2^64: a write then fails with the error that says so (`JournalImages.WriteComesTo`); no way out of that state is modelled.
- An input buffer that aliases the mirror: inputs are values.
- `underlying`, `properties`, invalid spans: no state and no decision of interest.
- JournalMemory.JournalMemory.LoadActiveRegion: after a failed read the live fields are unspecified, because mounting then fails and the object is dropped.
- TimerClock.TimerClock.Now: assumes each overflow is handled before the next and the call is over before a second overflow that was uncounted on entry; 2^32 overflows are not reached.
- TimerClock.TimerClock.DelayFor: counts ticks; the fraction of a tick at its start is not modelled. The counter is taken to be polled at least every half period.
- SampleStream.ContinuousChannel.TryRead: memory orders weaker than sequential consistency, and sequence numbers beyond 2^64, are not modelled; with 2^31 or more publications inside one round nothing is promised.
- `read_voltage` of the ADC drivers and the H7 half-buffer completion path: scaling arithmetic, and DMA timing that the code cannot see.
- EthernetTransmit.Transmitter.TryTransmit: the tail pointer register and cache maintenance are left out; the engine follows ownership bits. A second `initialize` begins the books anew; frames still queued then are dropped.
- EthernetReceive.Receiver.TryReceive: the engine is taken to leave the buffer pointer of a descriptor alone, and a frame it marks whole and undamaged to have the length it reports.
- Calendar.FromRtcTimeAcceptsIff: the seconds left in the out-parameter of a refused time are not modelled.
- The ioctl, timerfd and register accesses of the clocks: system calls and vendor peripherals.
- ScanReader.BufferedChannel.Service: covers every accepted channel that lies inside the read buffer; what `open` accepts beyond that reads outside the array.
- Pwm.Output.Configure: register bits of other purposes, and the update event that loads the preloaded registers, are left out.
- Pwm.SearchIsOptimal: says nothing where a 64-bit product wraps; the equality of early exit and full scan holds there too.
- St7735.Driver.FillRect: bits of a byte cut short on the bus, and a controller that does not auto-increment as described, are not modelled; `initialize`, `read_id`, the display switches and `draw_pixel` are left out.
- SD card decoding, SocketCAN, GPIO, watchdog, PHY and averaging adapters: hardware formats, or easy members only.
