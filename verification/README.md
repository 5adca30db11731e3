# Verified models of VioAVR's mixed-signal engines

VioAVR simulates AVR microcontrollers and steps them inside an analog circuit
simulation. This project models the parts of it that turn cycles and volts into
results, flags and events, and proves what they guarantee over whole runs:

* the AVR8X converter (`Adc8x`), a bulk tick with a prescaler, a carried fraction, a
  startup/sample/convert machine, accumulation and free running;
* the co-simulation shim that steps N chips from one analog clock, mirrors their pins,
  fires timed injections and parses its arguments;
* the two comparators: `AnalogComparator`, which delays its output through scheduled and
  cancelled events, and `Ac8x`, which uses a settle count;
* the classic, EA and 10-bit converters: start, abort, complete, free run, the high-byte
  latch and interrupt acknowledgement;
* the polling dispatcher of timed stimuli and buffered UART bytes.

Each object whose methods update fields in the original is a class here, with the same
fields and the same branches; each method's contract gives its whole new state by a
function of the old one. The theorems are lemmas about those functions, for all inputs
and all runs; the files named Values say in register values and volts what the settings
mean. Volts and seconds are reals; cycle counts are unbounded.

## Files

| file | contents |
|---|---|
| `Common.dfy`, `Bits.dfy` | division with remainder, sums, result schedules; registers and masks |
| `Adc8x.dfy`, `Adc8xTiming.dfy`, `Adc8xSchedule.dfy`, `Adc8xAveraging.dfy`, `Adc8xReads.dfy`, `Adc8xWitnesses.dfy`, `Adc8xValues.dfy` | the AVR8X converter |
| `AddressRanges.dfy` | the address ranges of the AVR8X and of the classic converter |
| `CosimShim.dfy`, `CosimProofs.dfy`, `SimArgs.dfy`, `CommaArgs.dfy` | the co-simulation shim |
| `Comparator.dfy`, `ComparatorProofs.dfy`, `ComparatorValues.dfy` | the event-driven comparator |
| `Ac8x.dfy`, `Ac8xProofs.dfy`, `Ac8xValues.dfy` | the settle-count comparator |
| `ClassicAdc.dfy`, `ClassicAdcProofs.dfy`, `ClassicAdcValues.dfy` | the classic converter |
| `ModernAdc.dfy`, `AdcEa.dfy`, `AdcEaProofs.dfy`, `AdcEaValues.dfy`, `Adc10b.dfy`, `Adc10bProofs.dfy`, `Adc10bValues.dfy` | the EA and 10-bit converters |
| `Stimulus.dfy`, `StimulusProofs.dfy` | timed stimuli and UART bytes |

## What turned out not to hold

Some properties one would expect do not hold of the code. Each has a lemma saying exactly
when it does, from what is known before the call, and one with a run or an input for which
it does not.

* Splitting an `Adc8x` tick can leave a different fraction behind once a single conversion has
  run out (`Adc8xSchedule.BatchingExact`, `Adc8xWitnesses.SplitLeavesTrace`).
* `Adc8x` can acknowledge a window interrupt and clear RESRDY instead, against the comment at
  `src/core/adc8x.cpp:265` (`Adc8xAveraging.AcknowledgeExact`,
  `Adc8xWitnesses.AcknowledgeClearsOther`).
* The two bytes of an `Adc8x` result can be torn by a result announced between the reads,
  because the announcement switches the latch off (`Adc8xReads.TwoByteExact`,
  `Adc8xReads.FreshReadExact`, `Adc8xWitnesses.TornRead`).
* With SAMPNUM lowered too far during an `Adc8x` conversion, the sum is divided by less than
  the number of its samples (`Adc8xAveraging.AnnouncementExact`), and unless they are tiny the
  result is above their mean (`Adc8xAveraging.WrongDivisorShows`,
  `Adc8xWitnesses.LoweredCountIsNoMean`).
* A classic comparator that is disabled when its event comes due drops the event and, enabled
  again, never catches up by itself (`ComparatorProofs.AliveExact`, `DroppedEvent`).
* The classic and the EA converter drop the cycles left over at a free-running restart
  (`SplitExact` and `SplitLosesCycle` of `ClassicAdcProofs` and `AdcEaProofs`).
* The classic converter stores a trigger source chosen by name without the shift its decoder
  applies, although the comment at `src/core/adc.cpp:383-384` promises any bit offset, and
  cuts its entry number to the mask: on the ATmega328P, choosing `none` ends in free running
  (`ClassicAdcProofs.SelectionExact`, `ShiftedSelectionLost`, `NoneBecomesFreeRunning`).
* The classic converter's table of address ranges has five places for up to seven ranges, and
  no address is sorted out that occurs twice (`AddressRanges.FillTable`, `OneRangePerBreak`,
  `SeparatedExact`). The failing inputs are descriptors outside the catalogue of devices, none
  of which needs more than three places or repeats an address (`SevenDoNotFit`, `TwiceMapped`).
* Below 12 bits the EA converter's differential code is cut off, not scaled
  (`AdcEaProofs.DifferentialExact`, `DifferentialZero`).
* Bytes for a machine with a `Uart8x` get lost, because that receiver does not report a
  refusal; the comment at `apps/vioavr/stimulus.hpp:174` promises a retry
  (`StimulusProofs.LosslessExact`, `SecondByteLost`).
* In the comma-separated form of the arguments a JIT flag after eight chips is ignored
  (`SimArgs.CommaForm`, `JitIgnored`).
* The comment at `cosim/avr_cosim_shim.cpp:13` offers `sim_args=["mcu"]`, but a single argument
  without a comma is ignored and the default chip is configured (`SimArgs.SingleNameIgnored`).
* A hex file name that looks like a flag takes a chip with it
  (`SimArgs.RoundTripExact`, `FlagLikeName`).

## Model

| member | source | states |
|---|---|---|
| Adc8xEngine.Adc8x.Tick | src/core/adc8x.cpp:107-169 | the tick loop, run step by step, leaves the whole machine and the fraction where the specification of a bulk tick puts them |
| Adc8xEngine.Adc8x.RunConverter | src/core/adc8x.cpp:124-168 | the inner loop is the fold of single converter clocks |
| Adc8xEngine.Adc8x.EndSample | src/core/adc8x.cpp:141-160 | after a sample: the next sample, a new round if free running, or idle, with the accumulator and announcements that go with it |
| Adc8xEngine.Adc8x.ProcessSampleResult | src/core/adc8x.cpp:334-361 | result, latch, RESRDY and WCOMP after the last sample |
| Adc8xEngine.Adc8x.StartConversion | src/core/adc8x.cpp:290-298 | a start does nothing while converting and else enters startup; the fraction stays |
| Adc8xValues.CodeExact | src/core/adc8x.cpp:300-323 | in 10-bit mode the code is k exactly if the voltage of channel MUXPOS is in the k-th of 1024 steps of the reference, 1.1 V, 2.5 V or VDD by CTRLC, and 1023 from the last step on |
| Adc8xValues.EightBitCode | src/core/adc8x.cpp:325-328 | in 8-bit mode the code is a quarter of the 10-bit code of the same input, rounded down |
| Adc8xValues.NoBankNoCode | src/core/adc8x.cpp:302-308 | without a bank of signals the code is 0 |
| Adc8xValues.SingleResult | src/core/adc8x.cpp:141-160 | a single-sample conversion ends 17 + SAMPLEN prescaled clocks after its start with the code as result, RESRDY raised, and WCOMP exactly if the window is met |
| Adc8xEngine.Adc8x.Write | src/core/adc8x.cpp:209-249 | each register write changes what the specification says and nothing else |
| Adc8xEngine.Adc8x.Read | src/core/adc8x.cpp:171-199 | the registers whose reads change nothing |
| Adc8xValues.ReadsBack | src/core/adc8x.cpp:171-249 | each register reads back as written, a one clears a flag, and no write shows in another register |
| Adc8xValues.RequestExact | src/core/adc8x.cpp:251-261 | RESRDY is requested exactly if enabled and set, and WCOMP if that is and RESRDY is not |
| Adc8xValues.LowReadExact | src/core/adc8x.cpp:188-195 | reading the low byte acknowledges RESRDY alone, and the high byte completes the value then held whatever the result becomes |
| Adc8xEngine.Adc8x.ConsumeInterruptRequest | src/core/adc8x.cpp:263-274 | reports what is pending and clears a flag chosen from INTFLAGS alone |
| Adc8xTiming.Batching | src/core/adc8x.cpp:107-169 | two ticks in a row equal one tick of their sum: in everything but the fraction always, and in the fraction too if the machine is still active after the first |
| Adc8xTiming.SplitByState | src/core/adc8x.cpp:115-122 | two ticks equal their sum in full exactly unless the machine goes idle in the first and the second is no whole number of periods |
| Adc8xTiming.BulkRefinesCycles | src/core/adc8x.cpp:107-169 | a bulk tick of n cycles refines n steps of a machine that counts single clock cycles |
| Adc8xTiming.DrainIsBulk | src/core/adc8x.cpp:119-168 | clocking the converter while a whole period is left equals division with remainder |
| Adc8xSchedule.CountdownStep | src/core/adc8x.cpp:124-168 | each converter clock lowers the countdown to the next result by one, a result comes exactly when it runs out, and a free-running round is as long as its samples |
| Adc8xSchedule.SlicesAreOneRun | src/core/adc8x.cpp:119-124 | any slicing of time, inputs changing between slices, is one run of the converter over the whole time |
| Adc8xSchedule.IdleExact | src/core/adc8x.cpp:147-159 | a conversion ends in idle exactly if it is not free running and its countdown has run out |
| Adc8xSchedule.BatchingExact | src/core/adc8x.cpp:115-122 | the exact condition for full equality of a split tick, from the state before it: inactive, free running, first tick shorter than the countdown, or second tick of whole periods |
| Adc8xWitnesses.SplitLeavesTrace | src/core/adc8x.cpp:115-122 | a run from power-on after which 34 + 1 cycles in two ticks and in one differ |
| Adc8xSchedule.ExactSchedule | src/core/adc8x.cpp:119-168 | for every slicing, from any active state, the number of results announced is that of the closed form, and RESRDY is raised exactly if it is not zero |
| Adc8xSchedule.StartSchedule | src/core/adc8x.cpp:290-298 | the first result comes p(2 + N(15 + L)) - f cycles after a start, and in free run one every pN(15 + L) cycles |
| Adc8xValues.StartScheduleExact | src/core/adc8x.cpp:280-298 | in register values: the k-th result comes p(2 + kn(15 + SAMPLEN)) - f cycles after a start, only the first without free running, with p from 2 to 256 and n from 1 to 128 by CTRLB |
| Adc8xAveraging.AnnouncementExact | src/core/adc8x.cpp:141-160 | in every run of any operations an announcement is its samples' sum divided by the CTRLB setting of that time, and that is the number of its samples if and only if the CTRLB write in force left room for the sample then under way; only a tick's first announcement can fail |
| Adc8xAveraging.InForceIsInStep | src/core/adc8x.cpp:143-147 | that condition on the history of writes is the machine's being in step |
| Adc8xAveraging.EveryResultIsMean | src/core/adc8x.cpp:141-160 | in every run whose CTRLB writes leave room each announced result is the mean, rounded down, of its samples, at most 1023, or 255 if the converter is clocked in 8-bit mode only |
| Adc8xAveraging.EveryResultFromPowerOn | src/core/adc8x.cpp:141-160 | the same for all results of every such run from power-on |
| Adc8xAveraging.WrongDivisorShows | src/core/adc8x.cpp:334-338 | a sum divided by less than the number of its samples gives a result above their mean, if that mean is not below the divisor and the result fits |
| Adc8xAveraging.LoweredAndRaised | src/core/adc8x.cpp:143-147 | a setting too low for the conversion does no harm if it is raised in time |
| Adc8xAveraging.MeanBetween | src/core/adc8x.cpp:334-338 | a result lies between the least and the greatest of its samples |
| Adc8xAveraging.RunSound | src/core/adc8x.cpp:107-169 | in every run the accumulator is the sum of the samples taken and the phase is idle exactly when nothing converts |
| Adc8xAveraging.SoundFits | src/core/adc8x.cpp:330-337 | the accumulator fits 32 bits |
| Adc8xWitnesses.LoweredCountIsNoMean | src/core/adc8x.cpp:334-338 | a run from power-on that lowers SAMPNUM after the first of two samples of 1000 and announces 2000, no mean of them |
| Adc8xAveraging.AcknowledgeExact | src/core/adc8x.cpp:263-274 | an acknowledgement clears exactly the flag it reports if and only if RESRDY is enabled whenever it is set |
| Adc8xAveraging.AcknowledgeDrains | src/core/adc8x.cpp:251-274 | two acknowledgements leave nothing pending |
| Adc8xWitnesses.AcknowledgeClearsOther | src/core/adc8x.cpp:263-274 | a run from power-on in which the window interrupt is reported, RESRDY is cleared and the request stands |
| Adc8xReads.TwoByteExact | src/core/adc8x.cpp:188-195 | registers held, from any state: no slicing of the time between the two reads and no input tears the pair if and only if, by what is known at the low read, no result is due or the least and the greatest result it can be have the high byte of the one read |
| Adc8xReads.FreshReadExact | src/core/adc8x.cpp:188-195 | before the first sample has ended that is: inactive, the time is below the countdown, or 8-bit mode and a result below 256 |
| Adc8xReads.LateReadIsSafe | src/core/adc8x.cpp:334-339 | after 127 of 128 samples a due result can be harmless in 10-bit mode too |
| Adc8xReads.ResultBetween | src/core/adc8x.cpp:141-157 | the result after any codes, before the cut to sixteen bits, lies between those of the least and the greatest code throughout |
| Adc8xReads.PairAfterRun | src/core/adc8x.cpp:188-195 | over all operations but low reads, the latch serves the high byte until the next announcement and the new result does after it |
| Adc8xWitnesses.TornRead | src/core/adc8x.cpp:188-195 | a run from power-on in which results of 1000 and 0 are read as 232 |
| AddressRanges.Compact | src/core/adc8x.cpp:39-61 | the constructor writes the first min(capacity, runs) maximal runs of the sorted, de-duplicated addresses |
| AddressRanges.RunsAreRuns | src/core/adc8x.cpp:43-60 | the runs are non-empty, ascending, with gaps between them, and cover exactly the addresses |
| AddressRanges.RunsUnique | src/core/adc8x.cpp:43-60 | no other separated list of ranges covers the same addresses |
| AddressRanges.FilledCovers | src/core/adc8x.cpp:51-61 | a full array still covers nothing but given addresses, and all of them if it was long enough |
| AddressRanges.FillTable | src/core/adc.cpp:35-46 | the classic constructor's loop stays within its table exactly if the table has room for the runs of the sorted addresses, duplicates kept, and then holds just them |
| AddressRanges.OneRangePerBreak | src/core/adc.cpp:39-46 | the room needed is one place for each address that does not follow directly on the one before |
| AddressRanges.ScatteredNeedAll | src/core/adc.cpp:39-46 | without neighbours every address needs a place |
| AddressRanges.SevenDoNotFit | src/core/adc.cpp:30-46 | a descriptor of seven scattered registers needs seven places, more than the table's five |
| AddressRanges.TableCovers | src/core/adc.cpp:39-46 | the ranges cover exactly the addresses |
| AddressRanges.SeparatedExact | src/core/adc.cpp:35-46 | the ranges are separated exactly if no address occurs twice |
| AddressRanges.TwiceMapped | src/core/adc.cpp:39-46 | an address given to two registers is mapped twice |
| CosimShim.MultiCosim.Step | cosim/avr_cosim_shim.cpp:101-203 | one call: pins released once, then each chip in index order advances its clock and, on a flush, fires injections and mirrors its changes |
| CosimShim.MultiCosim.FireInjections | cosim/avr_cosim_shim.cpp:147-159 | the loop fires and disarms exactly the injections due, in index order |
| CosimShim.MultiCosim.MirrorChanges | cosim/avr_cosim_shim.cpp:161-199 | the loop folds the changes into pins and sends, skipping identifiers out of range |
| CosimShim.MultiCosim.Input | cosim/avr_cosim_shim.cpp:205-220 | an input bit drives the one chip and pin it decodes to, and bits beyond the last chip none |
| CosimProofs.TimeConserved | cosim/avr_cosim_shim.cpp:126-133 | for any sequence of times, the durations passed on and the remainder add up to the latest time seen, and the remainder is at least 0 and below a microsecond |
| CosimProofs.FlushExact | cosim/avr_cosim_shim.cpp:126-132 | a call steps the cores exactly if it is later than all before and at least a microsecond after the last that did |
| CosimProofs.EveryChipKeepsTime | cosim/avr_cosim_shim.cpp:123-133 | in every run all chips hold the same clock and each conserves time |
| CosimProofs.OnlyChipZeroFires | cosim/avr_cosim_shim.cpp:146-159 | within a step chip 0 takes all injections due and leaves none to the others |
| CosimProofs.InjectionsDelivered | cosim/avr_cosim_shim.cpp:146-159 | in every run the deliveries are exactly the armed injections due by the last flush, each into chip 0 at the first flush at or after its time, in order of time and index |
| CosimProofs.AtMostOnce | cosim/avr_cosim_shim.cpp:149-157 | no injection is delivered twice |
| CosimProofs.PinsIndependent | cosim/avr_cosim_shim.cpp:164-199 | what a batch of changes does to a pin and sends for it is the fold over that pin's own changes |
| CosimProofs.PinsFollowTheirChanges | cosim/avr_cosim_shim.cpp:161-199 | in every run, from the first step on, a pin's mirrored value and all values sent for it depend on its own changes alone, however they interleave and were batched |
| CosimProofs.OthersUntouched | cosim/avr_cosim_shim.cpp:193-198 | a chip's changes send nothing under an identifier of another chip |
| CosimProofs.MirrorIsLastSent | cosim/avr_cosim_shim.cpp:194-198 | the mirror is the last value sent, and no value is sent twice in a row |
| CosimProofs.InputsReleased | cosim/avr_cosim_shim.cpp:169-191 | a pin not last reported as an output is mirrored as high impedance |
| CosimProofs.OpenDrainNeverHigh | cosim/avr_cosim_shim.cpp:172-180 | a pin whose output changes are all wired-AND is never sent as a strong one |
| CosimProofs.ShownExact | cosim/avr_cosim_shim.cpp:172-191 | a push-pull output shows its level, strong; a wired-AND one a strong zero for low and high impedance for high; a pin gone from output to input the level reported then at high impedance; a pin never an output zero at high impedance |
| CosimProofs.SentWhenChanged | cosim/avr_cosim_shim.cpp:194-198 | a value is sent exactly when what is shown changes |
| CosimProofs.DeliveredIsReported | cosim/avr_cosim_shim.cpp:161-164 | in every run the changes mirrored are those reported in the calls that stepped the core |
| CosimProofs.BusSafety | cosim/avr_cosim_shim.cpp:161-199 | in every run, from the first step on, of every pin: the mirror is the last value sent and what its reported changes show, level and strength by push-pull, wired-AND and release; none is sent twice in a row, it is released unless last reported as an output, and if its output changes are all wired-AND it is never sent as a strong one |
| CosimProofs.IdentifiersInRange | cosim/avr_cosim_shim.cpp:161-198 | in every run all identifiers sent are below 32 per chip |
| SimArgs.ParseArray | cosim/avr_cosim_shim.cpp:304-373 | the loops over the argument array compute the specification of the array form |
| SimArgs.ParseSimArgs | cosim/avr_cosim_shim.cpp:270-418 | the whole parser: the array form, else the comma-separated form, else the defaults |
| CommaArgs.SplitParts | cosim/avr_cosim_shim.cpp:377-390 | the character loop splits at commas into at most 16 parts of at most 255 characters |
| CommaArgs.ParseCommas | cosim/avr_cosim_shim.cpp:391-413 | the pairs up to the first with an empty name, and the JIT flag from the part after them |
| CommaArgs.CommaRoundTrip | cosim/avr_cosim_shim.cpp:377-412 | 1 to 8 chips joined by commas come back, and a flag after them too, unless there are 8 chips |
| CommaArgs.OnePart | cosim/avr_cosim_shim.cpp:377-390 | a text without a comma is one part, cut off after 255 characters |
| SimArgs.CommaForm | cosim/avr_cosim_shim.cpp:375-418 | a single argument of that form configures exactly those chips and that flag, all else as by default |
| SimArgs.JitIgnored | cosim/avr_cosim_shim.cpp:381-411 | eight chips and a JIT flag of one configure eight chips without JIT |
| SimArgs.SingleNameIgnored | cosim/avr_cosim_shim.cpp:375-417 | a single argument without a comma leaves the defaults as they are |
| SimArgs.CountedPrinted | cosim/avr_cosim_shim.cpp:314-331 | the backward scan counts exactly the printed flags, if and only if the last hex name is no flag |
| SimArgs.RoundTrip | cosim/avr_cosim_shim.cpp:310-372 | printing 1 to 8 pairs and any recognised flags and parsing them yields the pairs and the left-to-right fold of the flags |
| SimArgs.RoundTripExact | cosim/avr_cosim_shim.cpp:310-372 | the number of chips survives exactly when the last hex name of several pairs is no flag |
| SimArgs.FlagLikeName | cosim/avr_cosim_shim.cpp:314-333 | a second chip whose hex file is named hc05 is not configured |
| SimArgs.FoldMeaning | cosim/avr_cosim_shim.cpp:345-368 | the fold keeps the first 16 injections in order, the last JIT flag, and HC-05 exactly if some flag says so |
| SimArgs.FoldTexts | cosim/avr_cosim_shim.cpp:345-368 | the last data and terminal texts, the last positive frequency and the last voltage from 0 to 5 win |
| SimArgs.RecognisedExact | cosim/avr_cosim_shim.cpp:314-331 | the backward count takes the known texts, the four prefixes with anything after them, and else just numbers from 0 to 5 |
| SimArgs.DefaultsExact | cosim/avr_cosim_shim.cpp:272-307 | without arguments an ATmega328P at 16 MHz is configured with firmware.hex and nothing else |
| SimArgs.HexToBytes | cosim/avr_cosim_shim.cpp:65-77 | the loop writes the bytes a text spells, as many as fit, leaves the rest of the buffer, and fails exactly if it spells none |
| SimArgs.SpellingDecodes | cosim/avr_cosim_shim.cpp:65-77 | any spelling of bytes, either case of digits and blanks between, decodes to those bytes |
| SimArgs.DigitsExact | cosim/avr_cosim_shim.cpp:55-69 | the sixteen digits in either case have their values, and space and tab are blanks |
| Comparator.AnalogComparator.EvaluateOutput | src/core/analog_comparator.cpp:121-176 | a raw change schedules, replaces or cancels the event as the overdrive and the output demand |
| Comparator.AnalogComparator.OnEvent | src/core/analog_comparator.cpp:33-69 | a firing event settles the output and announces it in the order PSC, timer, ADC, interrupt |
| Comparator.AnalogComparator.AdvanceTo | include/vioavr/core/event_scheduler.hpp:58-73 | due events fire in the order of their targets |
| Comparator.AnalogComparator.WriteAcsr | src/core/analog_comparator.cpp:81-91 | ACO and ACIF are not written, a one clears ACIF, and the output is evaluated again |
| ComparatorProofs.AlwaysReachable | src/core/analog_comparator.cpp:144-175 | in every run of an attached comparator at most one event is in flight, due 1 to 8 cycles after the last raw change, and a raw state that differs from ACO is pending |
| ComparatorValues.RawExact | src/core/analog_comparator.cpp:121-145 | with new inputs an enabled comparator's raw state is high above the hysteresis, low below its negative and else stays; a disabled one does not look |
| ComparatorValues.ScheduleExact | src/core/analog_comparator.cpp:146-175 | a raw change away from the output schedules the event 1, 2, 4 or 8 cycles on by overdrive, and one back to it cancels |
| ComparatorValues.UnattachedFollows | src/core/analog_comparator.cpp:159-167 | without a scheduler the output follows at once and only the fault inputs are told |
| ComparatorValues.EventExact | src/core/analog_comparator.cpp:36-68 | an event that finds a change tells PSC, timer and ADC in this order, and raises ACIF and the interrupt on the edges that ACIS selects |
| ComparatorValues.AcsrExact | src/core/analog_comparator.cpp:82-91 | ACO and ACIF cannot be set by writing, a one clears ACIF, and all else is stored |
| ComparatorValues.AcconExact | src/core/analog_comparator.cpp:92-103 | a write of ACCON that newly sets the ACD bit puts raw state and output to low first |
| ComparatorValues.AcknowledgeExact | src/core/analog_comparator.cpp:269-294 | an enabled ACIF is requested, and its acknowledgement clears it and nothing else |
| ComparatorProofs.AdvancesCompose | include/vioavr/core/event_scheduler.hpp:58-73 | with at most one event in flight, advancing to one cycle and on to another is advancing to the latter |
| ComparatorProofs.AliveExact | src/core/analog_comparator.cpp:33-36 | an operation leaves the output stale without an event in flight if and only if it reaches the event's cycle while the comparator is disabled |
| ComparatorProofs.CatchesUp | src/core/analog_comparator.cpp:147-158 | eight cycles after the last raw change an enabled comparator shows the raw state exactly if it did before or has its event in flight |
| ComparatorProofs.CaughtUpThroughout | src/core/analog_comparator.cpp:121-176 | in every run in which no event comes due while the comparator is disabled, ACO is the raw state, and no event is left, from eight cycles after the last raw change on |
| ComparatorProofs.StaysStale | src/core/analog_comparator.cpp:144-147 | a dropped event is not made up for until the raw state moves |
| ComparatorProofs.DroppedEvent | src/core/analog_comparator.cpp:33-34 | a run from power-on, for every plain unit, that loses a rising input |
| ComparatorProofs.GlitchSuppressed | src/core/analog_comparator.cpp:168-174 | raw changes undone before their event comes due never reach ACO, PSC, ADC or timer and leave no event behind |
| ComparatorProofs.OutputIsStableRaw | src/core/analog_comparator.cpp:36-53 | the output moves only to a raw state that has held for its whole delay, and exactly then the listeners are told |
| Ac8xEngine.Ac8x.Evaluate | src/core/ac8x.cpp:83-118 | the pending state is the comparison with hysteresis around the raw, uninverted state |
| Ac8xValues.CompareExact | src/core/ac8x.cpp:98-117 | not inverted, the comparison is high above n + h and low up to n - h, with h of 0, 10, 25 or 50 mV by CTRLA; inverted the other way round; in between it is the output |
| Ac8xValues.InputsExact | src/core/ac8x.cpp:84-96 | the inputs by MUXPOS and MUXNEG, the DAC by its 256 steps |
| Ac8xValues.SettingsExact | src/core/ac8x.cpp:29-44 | enabling, the fourfold delay of LPMODE, the edges of INTMODE and the interrupt request, by their bits |
| Ac8xValues.SettlesTo | src/core/ac8x.cpp:120-144 | over all runs that leave CTRLA alone, D + 1 ticks whose inputs are beyond the hysteresis on one side leave bit 4 at that side, whatever it was and whatever came between |
| Ac8xEngine.Ac8x.Tick | src/core/ac8x.cpp:120-159 | a tick updates settle count, status, flag and event log as specified |
| Ac8xProofs.StreakIsHistory | src/core/ac8x.cpp:126-141 | over all runs that leave CTRLA alone, with acknowledgements, events and other writes between the ticks, the settle count counts the disagreeing ticks since the last agreeing tick or flip |
| Ac8xProofs.DebounceIsHistoryFilter | src/core/ac8x.cpp:126-144 | over all such runs the output flips on an operation if and only if that is a tick that disagrees with it, as the D ticks before it did |
| Ac8xProofs.BandExact | src/core/ac8x.cpp:98-117 | the hysteresis band is exactly where the comparison confirms either output |
| Ac8xProofs.NoChatter | src/core/ac8x.cpp:98-158 | over all runs that leave CTRLA alone and whose ticks stay within the band, output and event log stay, and the flag is neither raised nor, unless cleared, lowered |
| Ac8xProofs.FlagRemembersEdges | src/core/ac8x.cpp:146-154 | over all such runs CMP is up exactly if the output has made an edge of the kind CTRLA selects, or CMP was up to begin with, and nothing has cleared it since |
| Ac8xProofs.EventsAlternate | src/core/ac8x.cpp:143-158 | in every run from power-on published levels alternate, starting high, and the last is status bit 4 |
| ClassicAdc.ClassicAdc.Tick | src/core/adc.cpp:79-96 | power reduction aborts, an elapsed count completes, anything else counts down |
| ClassicAdc.ClassicAdc.CompleteConversion | src/core/adc.cpp:245-300 | result, ADIF, ADSC and a free-running restart |
| ClassicAdc.ClassicAdc.WriteAdcsra | src/core/adc.cpp:126-150 | ADIF cleared by a one, enabling and disabling, and a start on a rising ADSC |
| ClassicAdc.ClassicAdc.SelectAutoTriggerSource | src/core/adc.cpp:342-350 | the loop stores the first entry of the source, unshifted |
| ClassicAdc.DifferentialCode | src/core/adc.cpp:276-282 | read as two's complement, a differential result is the clamped and truncated ratio |
| ClassicAdcValues.SingleEndedExact | src/core/adc.cpp:247-286 | a single-ended result is k exactly if the volts of the selected channel are in the k-th of 1024 steps of the reference, 1.1 V for REFS of 3, with the bandgap and ground channels by value |
| ClassicAdcValues.NoReferenceNoResult | src/core/adc.cpp:249-258 | without a positive reference the result is 0 |
| ClassicAdcValues.DifferentialExact | src/core/adc.cpp:276-282 | a differential result, read signed, is the amplified difference in 512ths of the reference, cut off towards zero and at -512 and 511 |
| ClassicAdcValues.StartExact | src/core/adc.cpp:183-203 | a start takes 25 prescaled clocks after enabling and 13 else, with the prescaler from 2 to 128 by ADPS, unless the device overrides it |
| ClassicAdcValues.StoreExact | src/core/adc.cpp:126-131 | a write of ADCSRA stores all bits but ADIF, which stays unless a one clears it |
| ClassicAdcValues.WriteExact | src/core/adc.cpp:126-150 | a write of ADCSRA aborts by clearing ADEN, makes the next conversion the first by changing it, starts one by a new ADSC if enabled and idle, and else lets the one under way go on |
| ClassicAdcValues.CompletionFlags | src/core/adc.cpp:288-299 | a completion raises ADIF, and clears ADSC unless it restarts |
| ClassicAdcValues.TriggerExact | src/core/adc.cpp:400-405 | a trigger starts a conversion exactly if it is the selected one of an enabled, auto-triggered and idle converter |
| ClassicAdcValues.RequestExact | src/core/adc.cpp:165-181 | ADIF requests an interrupt if ADIE is set, and none once it is cleared |
| ClassicAdcProofs.AlwaysAccounted | src/core/adc.cpp:79-96 | in every run converting implies ADEN set and a positive count; starts are completions, aborts and the conversion under way; the result and the latch have ten bits |
| ClassicAdcProofs.SplitExact | src/core/adc.cpp:90-95 | two ticks equal their sum exactly when powered down, idle, not free running, or no restart falls between them |
| ClassicAdcProofs.SplitLosesCycle | src/core/adc.cpp:90-95 | a run from power-on after which 50 + 1 cycles in two ticks and in one differ |
| ClassicAdcProofs.FreeRunCount | src/core/adc.cpp:79-96 | free running and with no tick longer than the count, the completions are those of the closed form |
| ClassicAdcProofs.FreeRunSchedule | src/core/adc.cpp:183-203 | from the enabling write the k-th conversion is complete exactly from (25 + 13(k - 1)) prescaled clocks on |
| ClassicAdcValues.FreeRunScheduleExact | src/core/adc.cpp:183-203 | the same in register values, with the prescaler by the ADPS bits written |
| ClassicAdcProofs.CoherentRead | src/core/adc.cpp:98-114 | ADCL now and ADCH later give the ten bits held now, in both alignments, whatever ticks, completions, triggers and writes come between, if ADLAR stays and nothing else reads them |
| ClassicAdcProofs.SelectionExact | src/core/adc.cpp:342-388 | a source chosen by name survives a rewrite of the register exactly if it has an entry and that is the first, or ADTS starts at bit 0 and covers its number |
| ClassicAdcProofs.ShiftedSelectionLost | src/core/adc.cpp:382-388 | with ADTS above bit 0 every source but that of the first entry is lost |
| ClassicAdcProofs.NoneBecomesFreeRunning | src/core/adc.cpp:342-392 | on the ATmega328P, after `none` is chosen from power-on, storing ADCSRB back as it reads selects free running |
| AdcEaModel.AdcEa.Tick | src/core/adcea.cpp:76-87 | counts down an enabled conversion and completes it |
| AdcEaModel.AdcEa.CompleteConversion | src/core/adcea.cpp:109-191 | sample, aligned result, temperature bytes, RESRDY, the window flag and a restart |
| AdcEaProofs.ThermometerReads | src/core/adcea.cpp:160-165 | within the twelve bits the temperature bytes are the offset temperature to half a degree |
| AdcEaModel.AdcEa.Write | src/core/adcea.cpp:278-318 | masks of the stored registers, starts by command or by input selection, abort on disabling |
| AdcEaValues.ReadsBack | src/core/adcea.cpp:247-318 | each register reads back as written, in the bits it has, and no write shows in another |
| AdcEaValues.StartsExact | src/core/adcea.cpp:296-313 | an idle converter starts exactly if enabled and given a start command, or an input while starting on it |
| AdcEaModel.AdcEa.PendingInterruptRequest | src/core/adcea.cpp:193-216 | the request by priority, without a change of state |
| AdcEaModel.AdcEa.ConsumeInterruptRequest | src/core/adcea.cpp:218-245 | the acknowledgement answers and clears flags by priority |
| AdcEaProofs.AcknowledgedIsRequested | src/core/adcea.cpp:193-245 | an acknowledgement reports what is requested and clears pending flags of the reported vector only, at least one if there is a request |
| AdcEaProofs.AlwaysCoupled | src/core/adcea.cpp:76-107 | in every run the busy bit, converting and a positive count are equivalent and imply enabled; the result fits 16 bits, and no bit outside the registers' masks is ever set |
| AdcEaProofs.SplitExact | src/core/adcea.cpp:76-87 | two ticks equal their sum exactly when idle, not free running, or no restart falls between them |
| AdcEaProofs.SplitLosesCycle | src/core/adcea.cpp:76-87 | a run from power-on after which a tick of a conversion's length and one of a cycle differ from one of both |
| AdcEaProofs.ExactSchedule | src/core/adcea.cpp:76-107 | for every slicing of time, in free run with no slice longer than the count, the results are those of the closed form |
| AdcEaProofs.StartSchedule | src/core/adcea.cpp:89-107 | a start command, also during a conversion, makes the k-th result due k durations later, and only the first unless free running |
| AdcEaValues.StartScheduleExact | src/core/adcea.cpp:89-107 | in register values: the k-th result comes k((max(2, SAMPDUR))(SAMPNUM + 1) + bits + 1)div cycles after a start command, with 8, 10 or 12 bits by COMMAND and div from 2 to 64 by CTRLB |
| AdcEaProofs.DrainExact | src/core/adcea.cpp:193-245 | draining takes one acknowledgement a pending group, at most four, clears exactly the enabled flags that can request, and changes nothing else |
| AdcEaProofs.SingleEndedNearest | src/core/adcea.cpp:140-148 | a single-ended code is within half a step of the scaled input |
| AdcEaValues.SingleEndedExact | src/core/adcea.cpp:111-148 | a single-ended code is k exactly if the input on MUXPOS, amplified by 1 to 16, is within half of the k-th step of the reference, with the steps by the resolution; the ends take all beyond |
| AdcEaValues.DifferentialCodeExact | src/core/adcea.cpp:130-139 | a differential code is k exactly if the amplified difference is in the k-th of 4095 steps between the negative and the positive reference, the highest code taking all above |
| AdcEaValues.ResultExact | src/core/adcea.cpp:151-165 | the code is the sample, and shifted up to bit 15 the left-adjusted result |
| AdcEaValues.FlagsExact | src/core/adcea.cpp:167-185 | a completion raises RESRDY, and WCMP exactly if the sample or the result, by CTRLD, meets the window |
| AdcEaProofs.DifferentialExact | src/core/adcea.cpp:130-139 | a differential code is not cut off exactly if the difference is below the share of the reference that the resolution leaves |
| AdcEaProofs.DifferentialZero | src/core/adcea.cpp:130-139 | equal inputs read as 2048 at 12 bits and as full scale at 8 and 10 |
| ModernAdc.WindowModes | src/core/adcea.cpp:176-182 | outside is below or above, inside is its opposite, and the other modes match nothing |
| ModernAdc.WindowExact | src/core/adcea.cpp:175-181 | mode 1 is met below, 2 above, 3 within and 4 outside the window, and no other |
| ModernAdc.DivisorExact | src/core/adcea.cpp:92-94 | the prescaler rises by 2 up to 16, by 4 up to 32 and by 8 up to 64 |
| Adc10bModel.Adc10b.Tick | src/core/adc10b.cpp:52-61 | one call is one count, whatever it says elapsed |
| Adc10bModel.Adc10b.CompleteConversion | src/core/adc10b.cpp:89-142 | sample, result, RESRDY, the window flag and a restart |
| Adc10bProofs.AlwaysCoupled | src/core/adc10b.cpp:52-87 | in every run the busy bit, converting and a positive count are equivalent and imply enabled; sample and result have ten bits |
| Adc10bProofs.StartSchedule | src/core/adc10b.cpp:63-87 | a start command makes the k-th result due with the call that completes k durations |
| Adc10bValues.StartScheduleExact | src/core/adc10b.cpp:63-87 | in register values: the k-th result comes with the call that completes k times (max(2, SAMPDUR)div + bits div + 1)(SAMPNUM + 1) calls |
| Adc10bProofs.AcknowledgedIsRequested | src/core/adc10b.cpp:144-170 | an acknowledgement reports what is requested and clears that pending flag only |
| Adc10bProofs.DrainExact | src/core/adc10b.cpp:144-170 | draining takes one acknowledgement a pending flag and clears exactly the enabled flags that can request |
| Adc10bProofs.ResultOfSample | src/core/adc10b.cpp:110-118 | the eight-bit result is the sample without its two lowest bits |
| Adc10bProofs.SampleNearest | src/core/adc10b.cpp:94-108 | the sample is within half a step of the scaled input |
| Adc10bValues.SampleExact | src/core/adc10b.cpp:94-108 | the sample is k exactly if the input on MUXPOS is within half of the k-th of 1023 steps of the reference; the ends take all beyond |
| Adc10bValues.ResultExact | src/core/adc10b.cpp:110-136 | the result by the resolution, RESRDY, and WCMP exactly if the result meets the window |
| Adc10bValues.ReadsBack | src/core/adc10b.cpp:172-235 | each register reads back as written, in the bits it has, and no write shows in another |
| Adc10bValues.StartsExact | src/core/adc10b.cpp:214-228 | an idle converter starts exactly if enabled and given a start command, or an input while starting on it |
| Stimulus.ApplyDueStimuli | apps/vioavr/stimulus.hpp:167-199 | the two loops apply what is due in order and hand bytes on as specified |
| Stimulus.Machine.Offer | apps/vioavr/stimulus.hpp:181-183 | a byte goes to the first ready receiver, and those before it note the refusal |
| StimulusProofs.OfferExact | src/core/uart.cpp:375-400 | one byte goes to the first ready receiver, and each before it notes an overrun exactly if it holds a byte |
| StimulusProofs.ExactlyOnce | apps/vioavr/stimulus.hpp:152-173 | for any polling times and any order of equal times, the stimuli applied are those due by the latest poll, each as often as given, in the order of their times |
| StimulusProofs.FedExact | apps/vioavr/stimulus.hpp:174-197 | a poll places the next bytes, one a ready receiver; without a `Uart8x` it hands on no others, with one it hands on them all |
| StimulusProofs.NothingLost | apps/vioavr/stimulus.hpp:174-197 | without a `Uart8x`, in every run the bytes taken are the bytes handed on, a prefix of the input |
| StimulusProofs.LosslessExact | apps/vioavr/stimulus.hpp:174-197 | the bytes handed on all arrive exactly if there is no `Uart8x` or the first poll has room for the whole input |
| StimulusProofs.SecondByteLost | apps/vioavr/stimulus.hpp:184-190 | two bytes for an idle `Uart8x`: the second is lost |

## Left out

- Address decoding: bus addresses are register names; descriptor addresses are taken to be distinct. Plain getters, and DIDR0 and DIDR2 of the classic converter, have nothing to prove.
- The copy of flags and results in the bus data space, cached interrupt lines and pin ownership.
- Wrap-around of 64-bit cycle counts; the classic converter's 16-bit count never wraps, as its largest duration is 25 * 128.
- Floating-point rounding and NaN: volts and seconds are reals; the signal bank of `Adc8x` holds no negative voltage and its supply is positive.
- The event queue holds the entries of one comparator; entries of other owners, their priorities and the hook before each event are not part of it. The converters' own scheduled events do nothing when they fire.
- `reset()` of the peripherals: each model starts at power-on. The classic converter's reset values come from a device descriptor.
- ClassicAdc.ClassicAdc.CompleteConversion: the voltage of a channel and the power reduction bit are inputs of the tick; the lookup through the pin map is not modelled.
- CosimShim.MultiCosim.Step: the live PTY read between a core's step and the injections is not modelled, being input from outside; nor is logging.
- Cosim: the cores. A step is given what each core would report, and its durations are logged. Creation and teardown of chips, the code model's tables and the parsing of an injection's own text are not modelled.
- SimArgs.ParseSimArgs: strtod and atof are a parameter, and a failing allocation in the comma-separated form is not modelled.
- Stimulus.ApplyDueStimuli: what a stimulus does to the machine is a log entry; parsing of stimulus texts is not modelled, and sorting is any sorted permutation, as std::sort promises no more.
- Sinks of events (PSC, timer, ADC trigger, event system) are logs of what they are told.
